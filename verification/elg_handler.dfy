/**
 * The handler as the source runs it: a response document built step by step
 * and updated in place, a translation service the handler holds by
 * reference, and the two `operator()` overloads of `JsonRequestHandlerV1`.
 */
module ElgHandler {
  import opened Wrappers
  import opened Json
  import opened PathLookup
  import opened RequestHandler

  /** A rapidjson::Document: one JSON value, changed in place. */
  class Document {
    var root: Value

    /** A new document is the null value. */
    constructor ()
      ensures root == Null
    {
      root := Null;
    }

    /** Parse: on success the document becomes the parsed value; on failure it is left as it was. */
    method Parse(parsed: Option<Value>)
      modifies this
      ensures root == if parsed.Some? then parsed.value else old(root)
    {
      if parsed.Some? {
        root := parsed.value;
      }
    }

    /** SetObject: the document becomes the empty object. */
    method SetObject()
      modifies this
      ensures root == Obj([])
    {
      root := Obj([]);
    }

    /** AddMember appends, without looking for a member of the same name. */
    method AddMember(name: string, v: Value)
      requires root.Obj?
      modifies this
      ensures root == Obj(old(root).members + [(name, v)])
    {
      root := Obj(root.members + [(name, v)]);
    }
  }

  /**
   * The translation service, seen through its one operation. It logs every
   * call it receives.
   */
  class TranslationService {
    const translation: (string, SplitMode) -> string
    var calls: seq<Call>

    constructor (translation: (string, SplitMode) -> string)
      ensures this.translation == translation && calls == []
    {
      this.translation := translation;
      calls := [];
    }

    /** translate(text, mode)->await() */
    method Translate(text: string, mode: SplitMode) returns (result: string)
      modifies this
      ensures result == translation(text, mode)
      ensures calls == old(calls) + [Call(text, mode)]
    {
      result := translation(text, mode);
      calls := calls + [Call(text, mode)];
    }
  }

  class JsonRequestHandlerV1 {
    const service: TranslationService

    constructor (service: TranslationService)
      ensures this.service == service
    {
      this.service := service;
    }

    /** apiError: `failure.errors` of `d` becomes the one-element array holding `message`. */
    method ApiError(d: Document, message: string)
      modifies d
      ensures d.root == WithError(old(d.root), message)
      ensures Get(d.root, ErrorsPath) == Some(Arr([Str(message)]))
    {
      d.root := SetAtPath(d.root, ErrorsPath, Arr([Str(message)]));
    }

    /**
     * operator()(char const* body), given what parsing the body produced.
     * A body that is not a JSON object fails fast with "Invalid Json".
     */
    method HandleBody(parsed: Option<Value>) returns (d: Document)
      modifies service
      ensures fresh(d)
      ensures d.root == RespondRaw(parsed, service.translation).doc
      ensures service.calls == old(service.calls) + RespondRaw(parsed, service.translation).calls
    {
      d := new Document();
      d.Parse(parsed);
      if !d.root.Obj? {
        ApiError(d, InvalidJsonMessage);
        return d;
      }
      d := HandleRequest(d.root);
    }

    /**
     * operator()(rapidjson::Value const& request), with the payload checks
     * guarding the service call: a missing or non-string payload returns the
     * failure document instead of being dereferenced.
     */
    method HandleRequest(request: Value) returns (d: Document)
      requires request.Obj?
      modifies service
      ensures fresh(d)
      ensures d.root == Respond(request, service.translation).doc
      ensures service.calls == old(service.calls) + Respond(request, service.translation).calls
    {
      d := new Document();
      d.SetObject();
      var metadata := Child(request, "metadata");
      if metadata.Some? {
        d.AddMember("metadata", metadata.value);
      }
      assert d.root == Obj(MetadataMembers(request));
      var mode := SentenceSplitMode(request);
      var payload := Lookup(request, ContentPath);
      if payload.None? {
        assert PayloadError(request) == NoContentMessage;
        ApiError(d, NoContentMessage);
      } else if !payload.value.Str? {
        assert PayloadError(request) == NotStringMessage;
        ApiError(d, NotStringMessage);
      } else {
        // payload->GetString() is a C string: the service sees the text up to its first NUL
        var translation := service.Translate(CString(payload.value.s), mode);
        d.AddMember("response", TextsResponse(translation));
      }
    }
  }
}
