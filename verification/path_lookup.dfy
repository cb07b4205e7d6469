/**
 * The handler's path lookup `get`: walk a JSON tree down a list of member
 * names, giving "absent" as soon as a node on the way is not an object or
 * lacks the next name.
 */
module PathLookup {
  import opened Wrappers
  import opened Json

  /** The node reached from `node` by following `path`, one member name at a time. */
  function Get(node: Value, path: seq<string>): (r: Option<Value>)
    ensures path == [] ==> r == Some(node)
    ensures path != [] && Child(node, path[0]).None? ==> r.None?
    decreases |path|
  {
    if path == [] then Some(node)
    else
      match Child(node, path[0])
      case None => None
      case Some(c) => Get(c, path[1..])
  }

  /** The loop of `get`: a cursor moves down the tree field by field and stops at the first failing step. */
  method Lookup(root: Value, path: seq<string>) returns (r: Option<Value>)
    ensures r == Get(root, path)
  {
    var node := root;
    for i := 0 to |path|
      invariant Get(root, path[..i]) == Some(node)
    {
      GetAppend(root, path[..i], [path[i]]);
      assert path[..i] + [path[i]] == path[..i + 1];
      if !node.Obj? {
        GetAppend(root, path[..i + 1], path[i + 1..]);
        assert path[..i + 1] + path[i + 1..] == path;
        return None;
      }
      var m := FindMember(node.members, path[i]);
      if m.None? {
        GetAppend(root, path[..i + 1], path[i + 1..]);
        assert path[..i + 1] + path[i + 1..] == path;
        return None;
      }
      node := m.value;
    }
    assert path[..|path|] == path;
    return Some(node);
  }

  /** Lookup composes: following p ++ q is following p, then q from where p ended. */
  lemma {:induction false} GetAppend(node: Value, p: seq<string>, q: seq<string>)
    ensures Get(node, p + q) == match Get(node, p) case None => None case Some(m) => Get(m, q)
    decreases |p|
  {
    if p == [] {
      assert p + q == q;
    } else {
      assert (p + q)[0] == p[0];
      assert (p + q)[1..] == p[1..] + q;
      match Child(node, p[0])
      case None =>
      case Some(c) => GetAppend(c, p[1..], q);
    }
  }

  /** Where the walk stands after the first k names of the path. */
  lemma {:induction false} GetPrefixStep(node: Value, path: seq<string>, k: nat)
    requires 0 < k <= |path|
    requires Child(node, path[0]).Some?
    ensures Get(node, path[..k]) == Get(Child(node, path[0]).value, path[1..][..k - 1])
  {
    assert path[..k][0] == path[0];
    assert path[..k][1..] == path[1..][..k - 1];
  }

  /**
   * A lookup is absent exactly when some prefix of the path reaches a node
   * from which the next name cannot be followed.
   */
  lemma {:induction false} GetNoneIff(node: Value, path: seq<string>)
    ensures Get(node, path).None? <==>
      exists k :: 0 <= k < |path| && Get(node, path[..k]).Some? && Child(Get(node, path[..k]).value, path[k]).None?
    decreases |path|
  {
    if path != [] {
      assert path[..0] == [];
      var c := Child(node, path[0]);
      if c.Some? {
        GetNoneIff(c.value, path[1..]);
        if Get(node, path).None? {
          var k' :| 0 <= k' < |path[1..]| && Get(c.value, path[1..][..k']).Some? &&
            Child(Get(c.value, path[1..][..k']).value, path[1..][k']).None?;
          GetPrefixStep(node, path, k' + 1);
        } else if exists k :: 0 <= k < |path| && Get(node, path[..k]).Some? && Child(Get(node, path[..k]).value, path[k]).None? {
          var k :| 0 <= k < |path| && Get(node, path[..k]).Some? && Child(Get(node, path[..k]).value, path[k]).None?;
          assert k != 0;
          GetPrefixStep(node, path, k);
          assert false;
        }
      }
    }
  }

  /** Writing a leaf along a path (creating what is missing) makes the path find exactly that leaf. */
  lemma {:induction false} GetSetAtPath(node: Value, path: seq<string>, leaf: Value)
    ensures Get(SetAtPath(node, path, leaf), path) == Some(leaf)
    decreases |path|
  {
    if path != [] {
      var members := if node.Obj? then node.members else [];
      var child := FindMember(members, path[0]);
      GetSetAtPath(if child.Some? then child.value else Null, path[1..], leaf);
    }
  }
}
