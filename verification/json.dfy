/**
 * The JSON document model the request handler works on: the six kinds of
 * value of RFC 8259, section 3, held the way rapidjson holds them. An object
 * is an ORDERED list of members; looking a name up finds the first member
 * with that name, and adding a member appends it without checking for
 * duplicates.
 */
module Json {
  import opened Wrappers

  datatype Value =
    | Null
    | Bool(b: bool)
    | Number(n: int)
    | Str(s: string)
    | Arr(elems: seq<Value>)
    | Obj(members: seq<Member>)

  type Member = (string, Value)

  /** Position of the first member called `name`, or |members| when there is none. */
  function MemberIndex(members: seq<Member>, name: string): (i: nat)
    ensures i <= |members|
    ensures i < |members| ==> members[i].0 == name
    ensures forall j :: 0 <= j < i ==> members[j].0 != name
  {
    if |members| == 0 then 0
    else if members[0].0 == name then 0
    else 1 + MemberIndex(members[1..], name)
  }

  /** The value of the first member called `name` (rapidjson's FindMember). */
  function FindMember(members: seq<Member>, name: string): (r: Option<Value>)
    ensures r.Some? <==> exists j :: 0 <= j < |members| && members[j].0 == name
    ensures r.Some? ==> r.value == members[MemberIndex(members, name)].1
  {
    var i := MemberIndex(members, name);
    if i < |members| then Some(members[i].1) else None
  }

  /** One step of a path: absent when `node` is not an object or has no member `name`. */
  function Child(node: Value, name: string): (r: Option<Value>)
    ensures r.Some? <==> node.Obj? && exists j :: 0 <= j < |node.members| && node.members[j].0 == name
    ensures r.Some? ==> r.value == node.members[MemberIndex(node.members, name)].1
  {
    if node.Obj? then FindMember(node.members, name) else None
  }

  /** Overwrites the value of the first member called `name`, or appends a new member. */
  function SetMember(members: seq<Member>, name: string, v: Value): (r: seq<Member>)
    ensures |members| <= |r| <= |members| + 1
    ensures |r| == |members| <==> exists j :: 0 <= j < |members| && members[j].0 == name
    ensures forall j :: 0 <= j < |members| && j != MemberIndex(members, name) ==> r[j] == members[j]
    ensures MemberIndex(r, name) == MemberIndex(members, name)
    ensures FindMember(r, name) == Some(v)
  {
    var i := MemberIndex(members, name);
    if i < |members| then
      var r := members[i := (name, v)];
      assert MemberIndex(r, name) == i by { MemberIndexUnique(r, name, i); }
      r
    else
      var r := members + [(name, v)];
      assert MemberIndex(r, name) == i by { MemberIndexUnique(r, name, i); }
      r
  }

  /**
   * What `ensure_path(node, alloc, path...)` followed by overwriting the node
   * it returns does: every node on the way that is not an object becomes an
   * empty object, a missing member is created, and the last node is replaced
   * by `leaf`.
   */
  function SetAtPath(node: Value, path: seq<string>, leaf: Value): (r: Value)
    ensures path == [] ==> r == leaf
    ensures path != [] ==> r.Obj? && FindMember(r.members, path[0]).Some?
    ensures path != [] && node.Obj? ==> |node.members| <= |r.members| <= |node.members| + 1
    decreases |path|
  {
    if path == [] then leaf
    else
      var members := if node.Obj? then node.members else [];
      var child := FindMember(members, path[0]);
      var sub := SetAtPath(if child.Some? then child.value else Null, path[1..], leaf);
      Obj(SetMember(members, path[0], sub))
  }

  /**
   * What a `char const*` obtained from a string value shows to code that
   * reads it as a C string: everything before the first NUL character.
   */
  function CString(s: string): (r: string)
    ensures r <= s
    ensures '\0' !in r
    ensures |r| < |s| ==> s[|r|] == '\0'
  {
    if |s| == 0 || s[0] == '\0' then [] else [s[0]] + CString(s[1..])
  }

  /** A string without NUL characters reads as itself. */
  lemma CStringOfPlain(s: string)
    requires '\0' !in s
    ensures CString(s) == s
  {
  }

  /** A string reads as the NUL-free word `w` exactly when it is `w`, or `w` followed by a NUL and anything. */
  lemma {:induction false} CStringIs(s: string, w: string)
    requires '\0' !in w
    ensures CString(s) == w <==> s == w || w + ['\0'] <= s
  {
    if w != [] && s != [] && s[0] == w[0] {
      CStringIs(s[1..], w[1..]);
      assert s == [s[0]] + s[1..] && w == [w[0]] + w[1..];
      assert w + ['\0'] == [w[0]] + (w[1..] + ['\0']);
    }
  }

  /** The first member called `name` is determined by its position alone. */
  lemma MemberIndexUnique(members: seq<Member>, name: string, i: nat)
    requires i <= |members|
    requires i < |members| ==> members[i].0 == name
    requires forall j :: 0 <= j < i ==> members[j].0 != name
    ensures MemberIndex(members, name) == i
  {
  }

  /** Setting one member leaves the lookup of every other name as it was. */
  lemma {:induction false} FindSetMemberOther(members: seq<Member>, name: string, v: Value, other: string)
    requires other != name
    ensures FindMember(SetMember(members, name, v), other) == FindMember(members, other)
  {
    var r := SetMember(members, name, v);
    var i := MemberIndex(members, name);
    var j := MemberIndex(members, other);
    if i < |members| {
      assert forall n :: 0 <= n < |members| ==> r[n].0 == members[n].0;
      MemberIndexUnique(r, other, j);
      assert j < |members| ==> j != i && r[j] == members[j];
    } else {
      assert forall n :: 0 <= n < |members| ==> r[n] == members[n];
      MemberIndexUnique(r, other, if j < |members| then j else |r|);
    }
  }

  /** Setting the same member twice is the same as setting it once to the second value. */
  lemma {:induction false} SetMemberTwice(members: seq<Member>, name: string, v: Value, w: Value)
    ensures SetMember(SetMember(members, name, v), name, w) == SetMember(members, name, w)
  {
    var r := SetMember(members, name, v);
    var i := MemberIndex(members, name);
    if i < |members| {
      assert forall n :: 0 <= n < |members| ==> r[n].0 == members[n].0;
      MemberIndexUnique(r, name, i);
    } else {
      MemberIndexUnique(r, name, i);
    }
  }

  /** Writing a path twice leaves only the second write: nothing of the first survives. */
  lemma {:induction false} SetAtPathTwice(node: Value, path: seq<string>, a: Value, b: Value)
    ensures SetAtPath(SetAtPath(node, path, a), path, b) == SetAtPath(node, path, b)
    decreases |path|
  {
    if path != [] {
      var members := if node.Obj? then node.members else [];
      var child := FindMember(members, path[0]);
      var c := if child.Some? then child.value else Null;
      var subA := SetAtPath(c, path[1..], a);
      var once := SetAtPath(node, path, a);
      assert once == Obj(SetMember(members, path[0], subA));
      assert FindMember(once.members, path[0]) == Some(subA);
      SetAtPathTwice(c, path[1..], a, b);
      SetMemberTwice(members, path[0], subA, SetAtPath(c, path[1..], b));
    }
  }
}
