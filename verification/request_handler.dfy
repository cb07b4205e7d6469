/**
 * What `JsonRequestHandlerV1` computes, as functions of the request: the
 * sentence-split mode, the error record `apiError` writes, and the response
 * document of each `operator()` overload. The translation service is a
 * function `translate(text, mode)`; its asynchronous result is taken as
 * already awaited.
 */
module RequestHandler {
  import opened Wrappers
  import opened Json
  import opened PathLookup

  /** ug::ssplit::SentenceStream::splitmode */
  datatype SplitMode = OneSentencePerLine | OneParagraphPerLine | WrappedText

  /** One call of the translation service, with the arguments it received. */
  datatype Call = Call(text: string, mode: SplitMode)

  /** A response document together with the service calls made while building it. */
  datatype Reply = Reply(doc: Value, calls: seq<Call>)

  /**
   * The document overload as the source has it: either it completes, or it
   * reaches an operation with undefined behaviour at `line` (a null or
   * non-string payload dereferenced), holding `partial` at that moment.
   */
  datatype Outcome = Completed(reply: Reply) | Undefined(line: nat, partial: Value)

  const InputFormatPath: seq<string> := ["request", "params", "input-format"]
  const ContentPath: seq<string> := ["request", "content"]
  const ErrorsPath: seq<string> := ["failure", "errors"]

  const InvalidJsonMessage: string := "Invalid Json"
  const NoContentMessage: string := "No content to translate provided."
  const NotStringMessage: string := "Translation payload ('request|content') is not a string."

  /**
   * The input format names `word` (a word without NUL characters) when the
   * value is a string that, read as a C string, is `word`: the string is
   * `word` itself or `word` followed by a NUL and anything.
   */
  predicate FormatNames(format: Option<Value>, word: string)
  {
    format.Some? && format.value.Str? && (format.value.s == word || word + ['\0'] <= format.value.s)
  }

  /** getSentenceSplitMode: never fails; anything but the two known words gives wrapped text. */
  function SentenceSplitMode(request: Value): (m: SplitMode)
    ensures m == OneSentencePerLine <==> FormatNames(Get(request, InputFormatPath), "sentence")
    ensures m == OneParagraphPerLine <==> FormatNames(Get(request, InputFormatPath), "paragraph")
    ensures m == WrappedText <==>
      !FormatNames(Get(request, InputFormatPath), "sentence") && !FormatNames(Get(request, InputFormatPath), "paragraph")
  {
    match Get(request, InputFormatPath)
    case Some(Str(format)) =>
      CStringIs(format, "sentence");
      CStringIs(format, "paragraph");
      // line 35 reads the value as a C string, so it stops at the first NUL
      var inputFormat := CString(format);
      if inputFormat == "sentence" then OneSentencePerLine
      else if inputFormat == "paragraph" then OneParagraphPerLine
      else WrappedText
    case _ => WrappedText
  }

  /**
   * apiError: make sure `failure.errors` exists, clear it to an empty array and
   * push the message, so the array holds that one message afterwards. (The
   * message goes in through `c_str()`; every message the handler records is
   * one of its own constants, which contain no NUL, so it is stored whole.)
   */
  function WithError(doc: Value, message: string): (d: Value)
    ensures d.Obj?
    ensures Get(d, ErrorsPath) == Some(Arr([Str(message)]))
  {
    GetSetAtPath(doc, ErrorsPath, Arr([Str(message)]));
    SetAtPath(doc, ErrorsPath, Arr([Str(message)]))
  }

  /** The `metadata` member copied from the request, when it has one. */
  function MetadataMembers(request: Value): seq<Member>
  {
    match Child(request, "metadata")
    case Some(m) => [("metadata", m)]
    case None => []
  }

  /** The `response` member of a successful reply. */
  function TextsResponse(translation: string): Value
  {
    Obj([("type", Str("texts")), ("texts", Arr([Obj([("text", Str(translation))])]))])
  }

  /** `request.content` is present and a string. */
  predicate HasStringContent(request: Value)
  {
    Get(request, ContentPath).Some? && Get(request, ContentPath).value.Str?
  }

  /** The message recorded for a payload that is not a usable string. */
  function PayloadError(request: Value): string
  {
    if Get(request, ContentPath).None? then NoContentMessage else NotStringMessage
  }

  /**
   * The success branch of the document overload, for the string payload
   * `text`. The service receives `GetString()`, a C string, so it sees
   * the text up to its first NUL.
   */
  function Translated(request: Value, text: string, translate: (string, SplitMode) -> string): Reply
  {
    var mode := SentenceSplitMode(request);
    var input := CString(text);
    Reply(Obj(MetadataMembers(request) + [("response", TextsResponse(translate(input, mode)))]), [Call(input, mode)])
  }

  /**
   * The document overload as written: a missing payload is recorded and then
   * dereferenced (line 94); a non-string payload is recorded and then read
   * as a string (line 98).
   */
  function RespondAsWritten(request: Value, translate: (string, SplitMode) -> string): (o: Outcome)
    requires request.Obj?
    ensures o.Completed? <==> HasStringContent(request)
    ensures o.Undefined? ==> o.partial.Obj? && o.line == (if Get(request, ContentPath).None? then 94 else 98)
  {
    var base := Obj(MetadataMembers(request));
    if HasStringContent(request) then Completed(Translated(request, Get(request, ContentPath).value.s, translate))
    else Undefined(if Get(request, ContentPath).None? then 94 else 98, WithError(base, PayloadError(request)))
  }

  /**
   * The document overload with the payload checks guarding the service call:
   * a missing or non-string payload yields the failure document, and the
   * service is not called.
   */
  function Respond(request: Value, translate: (string, SplitMode) -> string): (r: Reply)
    requires request.Obj?
    ensures r.doc.Obj?
    ensures |r.calls| <= 1
    ensures r.calls != [] <==> HasStringContent(request)
  {
    var base := Obj(MetadataMembers(request));
    if HasStringContent(request) then Translated(request, Get(request, ContentPath).value.s, translate)
    else Reply(WithError(base, PayloadError(request)), [])
  }

  /**
   * The raw-body overload, given what parsing the body produced (None when
   * it is not JSON). A failed parse leaves the document null.
   */
  function RespondRaw(parsed: Option<Value>, translate: (string, SplitMode) -> string): (r: Reply)
    ensures r.doc.Obj?
    ensures r.calls != [] <==> parsed.Some? && parsed.value.Obj? && HasStringContent(parsed.value)
  {
    match parsed
    case Some(Obj(members)) => Respond(Obj(members), translate)
    case Some(v) => Reply(WithError(v, InvalidJsonMessage), [])
    case None => Reply(WithError(Null, InvalidJsonMessage), [])
  }

  /** The member `failure: {errors: [message]}` that apiError leaves in a document without one. */
  function FailureMember(message: string): Member
  {
    ("failure", Obj([("errors", Arr([Str(message)]))]))
  }

  /** The document holding nothing but `failure.errors = [message]`. */
  function FailureDocument(message: string): Value
  {
    Obj([FailureMember(message)])
  }

  // ----- apiError -----

  /** Errors do not accumulate: a second apiError wipes out the first message. */
  lemma {:induction false} ErrorsDoNotAccumulate(doc: Value, first: string, second: string)
    ensures WithError(WithError(doc, first), second) == WithError(doc, second)
    ensures Get(WithError(WithError(doc, first), second), ErrorsPath) == Some(Arr([Str(second)]))
  {
    SetAtPathTwice(doc, ErrorsPath, Arr([Str(first)]), Arr([Str(second)]));
  }

  /** apiError touches no top-level member except `failure`. */
  lemma {:induction false} WithErrorKeepsOtherMembers(doc: Value, message: string, name: string)
    requires name != "failure"
    ensures Child(WithError(doc, message), name) == Child(doc, name)
  {
    var members := if doc.Obj? then doc.members else [];
    var child := FindMember(members, "failure");
    var sub := SetAtPath(if child.Some? then child.value else Null, ["errors"], Arr([Str(message)]));
    assert ErrorsPath[1..] == ["errors"];
    assert WithError(doc, message) == Obj(SetMember(members, "failure", sub));
    FindSetMemberOther(members, "failure", sub, name);
  }

  /** On an object without `failure`, apiError appends `failure: {errors: [message]}` and keeps the rest in order. */
  lemma {:induction false} WithErrorAppendsFailure(doc: Value, message: string)
    requires doc.Obj? && Child(doc, "failure").None?
    ensures WithError(doc, message) == Obj(doc.members + [FailureMember(message)])
  {
    var errors := Arr([Str(message)]);
    assert ErrorsPath[1..] == ["errors"];
    assert SetAtPath(Null, ["errors"], errors) == Obj([("errors", errors)]);
    assert MemberIndex(doc.members, "failure") == |doc.members|;
  }

  /** On a value that is not an object, apiError leaves nothing but the failure record. */
  lemma {:induction false} WithErrorOnNonObject(doc: Value, message: string)
    requires !doc.Obj?
    ensures WithError(doc, message) == FailureDocument(message)
  {
    WithErrorAppendsFailure(Obj([]), message);
    assert WithError(doc, message) == WithError(Obj([]), message);
  }

  // ----- the raw-body overload -----

  /** A body that does not parse to an object fails fast with "Invalid Json" and never reaches the service. */
  lemma {:induction false} InvalidJsonFailsFast(parsed: Option<Value>, translate: (string, SplitMode) -> string)
    requires parsed.None? || !parsed.value.Obj?
    ensures RespondRaw(parsed, translate) == Reply(FailureDocument(InvalidJsonMessage), [])
  {
    match parsed
    case None => WithErrorOnNonObject(Null, InvalidJsonMessage);
    case Some(v) => WithErrorOnNonObject(v, InvalidJsonMessage);
  }

  // ----- the document overload -----

  /** The response echoes the request's `metadata` (a value copy), and has none when the request has none. */
  lemma {:induction false} MetadataPassthrough(request: Value, translate: (string, SplitMode) -> string)
    requires request.Obj?
    ensures Child(Respond(request, translate).doc, "metadata") == Child(request, "metadata")
  {
    if !HasStringContent(request) {
      WithErrorKeepsOtherMembers(Obj(MetadataMembers(request)), PayloadError(request), "metadata");
    }
  }

  /**
   * A string payload is translated exactly once, with the request's split
   * mode and the payload read up to its first NUL; the reply is the metadata
   * followed by `response: {type: "texts", texts: [{text: …}]}`, and
   * nothing else.
   */
  lemma {:induction false} SuccessShape(request: Value, text: string, translate: (string, SplitMode) -> string)
    requires request.Obj?
    requires Get(request, ContentPath) == Some(Str(text))
    ensures Respond(request, translate).calls == [Call(CString(text), SentenceSplitMode(request))]
    ensures Respond(request, translate).doc ==
      Obj(MetadataMembers(request) + [("response", TextsResponse(translate(CString(text), SentenceSplitMode(request))))])
  {
    assert Respond(request, translate) == Translated(request, text, translate);
  }

  /**
   * In a successful reply, `response.type` is "texts", `response.texts` holds
   * the one translated text, and there is no `failure` member.
   */
  lemma {:induction false} SuccessLookups(request: Value, text: string, translate: (string, SplitMode) -> string)
    requires request.Obj?
    requires Get(request, ContentPath) == Some(Str(text))
    ensures Child(Respond(request, translate).doc, "response") ==
      Some(TextsResponse(translate(CString(text), SentenceSplitMode(request))))
    ensures Get(Respond(request, translate).doc, ["response", "type"]) == Some(Str("texts"))
    ensures Get(Respond(request, translate).doc, ["response", "texts"]) ==
      Some(Arr([Obj([("text", Str(translate(CString(text), SentenceSplitMode(request))))])]))
    ensures Child(Respond(request, translate).doc, "failure").None?
  {
    SuccessShape(request, text, translate);
    ResponseLookups(MetadataMembers(request), translate(CString(text), SentenceSplitMode(request)));
  }

  /** What the lookups find in a document made of the metadata and then the `response` member. */
  lemma {:induction false} ResponseLookups(metadata: seq<Member>, translation: string)
    requires forall j :: 0 <= j < |metadata| ==> metadata[j].0 == "metadata"
    ensures Child(Obj(metadata + [("response", TextsResponse(translation))]), "response") == Some(TextsResponse(translation))
    ensures Get(Obj(metadata + [("response", TextsResponse(translation))]), ["response", "type"]) == Some(Str("texts"))
    ensures Get(Obj(metadata + [("response", TextsResponse(translation))]), ["response", "texts"]) ==
      Some(Arr([Obj([("text", Str(translation))])]))
    ensures Child(Obj(metadata + [("response", TextsResponse(translation))]), "failure").None?
  {
    var response := TextsResponse(translation);
    var members := metadata + [("response", response)];
    assert "metadata"[0] != "response"[0] && "metadata"[0] != "failure"[0] && "type"[1] != "texts"[1];
    MemberIndexUnique(members, "response", |members| - 1);
    MemberIndexUnique(members, "failure", |members|);
    MemberIndexUnique(response.members, "type", 0);
    MemberIndexUnique(response.members, "texts", 1);
    assert Child(Obj(members), "response") == Some(response);
    assert Get(response, ["type"]) == Some(Str("texts"));
    assert Get(response, ["texts"]) == Some(Arr([Obj([("text", Str(translation))])]));
  }

  /**
   * A missing or non-string payload never reaches the service; the reply
   * records the one matching message and has no `response` member.
   */
  lemma {:induction false} GuardedFailure(request: Value, translate: (string, SplitMode) -> string)
    requires request.Obj?
    requires !HasStringContent(request)
    ensures Respond(request, translate).calls == []
    ensures Get(Respond(request, translate).doc, ErrorsPath) ==
      Some(Arr([Str(if Get(request, ContentPath).None? then NoContentMessage else NotStringMessage)]))
    ensures Child(Respond(request, translate).doc, "response").None?
  {
    var base := Obj(MetadataMembers(request));
    assert Respond(request, translate).doc == WithError(base, PayloadError(request));
    WithErrorKeepsOtherMembers(base, PayloadError(request), "response");
  }

  /** Every reply is exactly one of the two shapes: a `response` or a `failure`. */
  lemma {:induction false} ExactlyOneBranch(request: Value, translate: (string, SplitMode) -> string)
    requires request.Obj?
    ensures Child(Respond(request, translate).doc, "response").Some? !=
            Child(Respond(request, translate).doc, "failure").Some?
  {
    if HasStringContent(request) {
      SuccessLookups(request, Get(request, ContentPath).value.s, translate);
    } else {
      GuardedFailure(request, translate);
      assert Get(Respond(request, translate).doc, ErrorsPath).Some?;
    }
  }

  /** The example request: content "Hello world", input format "sentence". */
  const HelloWorldRequest: Value :=
    Obj([("request", Obj([("content", Str("Hello world")), ("params", Obj([("input-format", Str("sentence"))]))]))])

  /** What the lookups of the handler find in the example request. */
  lemma HelloWorldLookups()
    ensures Get(HelloWorldRequest, ContentPath) == Some(Str("Hello world"))
    ensures Get(HelloWorldRequest, InputFormatPath) == Some(Str("sentence"))
    ensures MetadataMembers(HelloWorldRequest) == []
  {
    var params := Obj([("input-format", Str("sentence"))]);
    var inner := Obj([("content", Str("Hello world")), ("params", params)]);
    assert Child(HelloWorldRequest, "request") == Some(inner);
    assert Child(HelloWorldRequest, "metadata") == None;
    assert Child(inner, "content") == Some(Str("Hello world"));
    assert "content"[0] != "params"[0];
    MemberIndexUnique(inner.members, "params", 1);
    assert Child(inner, "params") == Some(params);
    assert Child(params, "input-format") == Some(Str("sentence"));
  }

  /** A request whose input format is exactly "sentence" is split one sentence per line. */
  lemma SentenceFormatSelectsSentences(request: Value)
    requires Get(request, InputFormatPath) == Some(Str("sentence"))
    ensures SentenceSplitMode(request) == OneSentencePerLine
  {
  }

  /**
   * A request without metadata, with NUL-free string content and input
   * format "sentence", gets exactly one response text, translated one
   * sentence per line.
   */
  lemma {:induction false} SentenceRequestExchange(request: Value, text: string, translate: (string, SplitMode) -> string)
    requires request.Obj? && MetadataMembers(request) == []
    requires Get(request, ContentPath) == Some(Str(text)) && '\0' !in text
    requires Get(request, InputFormatPath) == Some(Str("sentence"))
    ensures Respond(request, translate) ==
      Reply(Obj([("response", TextsResponse(translate(text, OneSentencePerLine)))]), [Call(text, OneSentencePerLine)])
  {
    SentenceFormatSelectsSentences(request);
    CStringOfPlain(text);
    SuccessShape(request, text, translate);
    var response := ("response", TextsResponse(translate(text, OneSentencePerLine)));
    assert MetadataMembers(request) + [response] == [response];
  }

  /** The example exchange: a sentence-per-line request is translated in that mode. */
  lemma HelloWorldExchange(translate: (string, SplitMode) -> string)
    ensures Respond(HelloWorldRequest, translate) ==
      Reply(Obj([("response", TextsResponse(translate("Hello world", OneSentencePerLine)))]),
            [Call("Hello world", OneSentencePerLine)])
  {
    HelloWorldLookups();
    SentenceRequestExchange(HelloWorldRequest, "Hello world", translate);
  }

  /** A payload with an embedded NUL reaches the service cut at the NUL: "a\0b" is sent as "a". */
  lemma EmbeddedNulTruncatesPayload(translate: (string, SplitMode) -> string)
    ensures Respond(Obj([("request", Obj([("content", Str(['a', '\0', 'b']))]))]), translate).calls ==
      [Call("a", WrappedText)]
  {
    var inner := Obj([("content", Str(['a', '\0', 'b']))]);
    var request := Obj([("request", inner)]);
    assert Child(request, "request") == Some(inner);
    assert Child(inner, "content") == Some(Str(['a', '\0', 'b']));
    assert Get(request, ContentPath) == Some(Str(['a', '\0', 'b']));
    assert Child(inner, "params") == None;
    assert Get(request, InputFormatPath) == None;
    assert CString(['a', '\0', 'b']) == "a";
  }

  // ----- the document overload as written -----

  /** With a string payload the source is well defined and agrees with the guarded reply. */
  lemma {:induction false} AsWrittenAgreesOnStringPayload(request: Value, translate: (string, SplitMode) -> string)
    requires request.Obj?
    ensures RespondAsWritten(request, translate).Completed? ==>
      RespondAsWritten(request, translate).reply == Respond(request, translate)
    ensures RespondAsWritten(request, translate).Undefined? ==>
      RespondAsWritten(request, translate).partial == Respond(request, translate).doc
  {
  }

  /** The request `{}` has no content: the source records the error and then dereferences a null payload. */
  lemma MissingContentIsUndefined(translate: (string, SplitMode) -> string)
    ensures RespondAsWritten(Obj([]), translate) == Undefined(94, FailureDocument(NoContentMessage))
  {
    assert Get(Obj([]), ContentPath) == None;
    assert MetadataMembers(Obj([])) == [];
    WithErrorAppendsFailure(Obj([]), NoContentMessage);
  }

  /** The request `{"request": {"content": 1}}`: the source records the error and then reads 1 as a string. */
  lemma NonStringContentIsUndefined(translate: (string, SplitMode) -> string)
    ensures RespondAsWritten(Obj([("request", Obj([("content", Number(1))]))]), translate) ==
      Undefined(98, FailureDocument(NotStringMessage))
  {
    var inner := Obj([("content", Number(1))]);
    var request := Obj([("request", inner)]);
    assert Child(request, "request") == Some(inner);
    assert Child(inner, "content") == Some(Number(1));
    assert Get(request, ContentPath) == Some(Number(1));
    assert MetadataMembers(request) == [];
    WithErrorAppendsFailure(Obj([]), NotStringMessage);
  }
}
