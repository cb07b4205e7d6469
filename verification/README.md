# ELG JSON request handler, modelled in Dafny

This project models `JsonRequestHandlerV1`, the handler that serves a
machine-translation engine over the ELG JSON protocol. It takes a JSON
request, reads the sentence-split mode from `request.params.input-format`,
reads the text from `request.content`, calls the translation service once,
and returns a response document. That document is either
`{metadata?, response: {type: "texts", texts: [{text: …}]}}` or
`{metadata?, failure: {errors: [message]}}`.

Files and modules:

- `wrappers.dfy` (`Wrappers`): `Option`, used where the source has a nullable pointer.
- `json.dfy` (`Json`): JSON values as rapidjson holds them. An object is an
  ordered member list. Lookup finds the first member with a name, and
  `AddMember` appends. `SetAtPath` is `ensure_path` followed by overwriting
  the node it returns. A string value keeps its length, so it may hold NUL
  characters. `CString` is what code sees when it reads such a string
  through `GetString()` as a `char const*`: the text before the first NUL.
- `path_lookup.dfy` (`PathLookup`): the handler's `get`. It is given both as
  the function `Get` and as the loop `Lookup`, which is proved equal to it.
- `request_handler.dfy` (`RequestHandler`): pure specifications and their
  lemmas. `SentenceSplitMode` is `getSentenceSplitMode`, and `WithError` is
  `apiError`. `RespondAsWritten` is the document overload exactly as
  written, `Respond` is its guarded form, and `RespondRaw` is the raw-body
  overload (through the guarded `Respond`).
- `elg_handler.dfy` (`ElgHandler`): the handler as it runs. A `Document`
  class is updated in place, and a `TranslationService` class logs every
  call. The `JsonRequestHandlerV1` methods are proved to build exactly the
  document that `Respond` / `RespondRaw` specify and to make exactly the
  calls those functions list.

The translation service is the function `translate(text, mode)`. Its
asynchronous `->await()` is treated as an ordinary synchronous result.

**Errors replace each other.** `apiError` calls `SetArray()` before
`PushBack`, which empties the array first. So `failure.errors` never holds
more than the latest message (`ErrorsDoNotAccumulate`).

**Strings read as C strings.** Two places read a string value through
`GetString()` as a C string:
- Line 35 turns `input-format` into a `std::string`, so `"sentence"` followed
  by a NUL and anything still selects one sentence per line.
- Line 98 passes the payload to `translate`, so the service receives the
  content only up to its first NUL.

The model applies `CString` at both places.

**Missing or non-string content.** The source does not return after
recording these errors:
- Missing content: line 94 dereferences a null `payload`.
- Non-string content: line 98 calls `GetString()` on a value that is not a string.

`RespondAsWritten` models this literally. For those two cases it returns
`Undefined(line, partial)`, where `partial` is the document as it stood when
the undefined operation was reached. The imperative
`JsonRequestHandlerV1.HandleRequest` implements the **guarded** variant,
`Respond`. In that variant the service call and the success branch are
reached only with a string payload. Otherwise the handler returns the
failure document that holds the one recorded message. Both variants give
the same result whenever the source is well defined
(`AsWrittenAgreesOnStringPayload`).

## Model

| member | source | states |
|---|---|---|
| `Json.MemberIndex` | src/server/api/elg/json_request_handler.h:21-22 | the position found is the first member with the name, or the end when no member has it |
| `Json.FindMember` | src/server/api/elg/json_request_handler.h:21-23 | the lookup is present exactly when some member has the name, and then it gives the value of the FIRST such member |
| `Json.Child` | src/server/api/elg/json_request_handler.h:19-23 | one step of the walk: present exactly when the node is an object with a member of that name, giving the first such member's value |
| `Json.SetMember` | src/server/api/elg/json_request_handler.h:47-48 | the first member with the name stays at the same position and holds the new value; the length is unchanged exactly when the name was already present (otherwise one member is appended); every position except the first member with that name keeps its member |
| `Json.SetAtPath` | src/server/api/elg/json_request_handler.h:47-48 | `ensure_path` plus the overwrite: the empty path gives the leaf; otherwise the result is an object that has the first name, and an object grows by at most one member (its full behaviour is in `GetSetAtPath` and `SetAtPathTwice`) |
| `Json.CString` | src/server/api/elg/json_request_handler.h:35 | the C string read from a value is a prefix of its text, contains no NUL, and stops only at a NUL or at the end |
| `Json.CStringIs` | src/server/api/elg/json_request_handler.h:35-38 | a string reads as the NUL-free word `w` exactly when it is `w` or `w` followed by a NUL and anything (both directions) |
| `Json.FindSetMemberOther` | src/server/api/elg/json_request_handler.h:47 | creating or overwriting one member leaves the lookup of every other name unchanged |
| `Json.SetMemberTwice` | src/server/api/elg/json_request_handler.h:47-48 | overwriting a member twice equals overwriting it once with the second value |
| `Json.SetAtPathTwice` | src/server/api/elg/json_request_handler.h:47-48 | writing along a path twice leaves only the second write, wherever the document started |
| `PathLookup.Lookup` | src/server/api/elg/json_request_handler.h:16-27 | the cursor loop that returns NULL at the first non-object or missing field gives exactly `Get(root, path)` |
| `PathLookup.Get` | src/server/api/elg/json_request_handler.h:16-27 | the empty path returns the node itself; the walk is absent as soon as the first step is absent |
| `PathLookup.GetAppend` | src/server/api/elg/json_request_handler.h:18-26 | lookup composes: `get(n, p ++ q)` is absent when `get(n, p)` is absent, and is `get(get(n, p), q)` otherwise |
| `PathLookup.GetNoneIff` | src/server/api/elg/json_request_handler.h:18-26 | lookup is absent exactly when some prefix of the path reaches a non-object or an object lacking the next field (both directions) |
| `PathLookup.GetSetAtPath` | src/server/api/elg/json_request_handler.h:47-48 | after `ensure_path` and the overwrite, looking the path up finds exactly the written value |
| `RequestHandler.SentenceSplitMode` | src/server/api/elg/json_request_handler.h:29-42 | one sentence per line iff `request.params.input-format` is a string that reads, as a C string, as "sentence"; one paragraph per line iff it reads as "paragraph"; wrapped text in every other case, absent and non-string included; total |
| `RequestHandler.RespondAsWritten` | src/server/api/elg/json_request_handler.h:69-108 | the document overload as written completes exactly when `request.content` is a string; otherwise it reaches undefined behaviour at line 94 when the content is absent and at line 98 when it is present but not a string |
| `RequestHandler.Respond` | src/server/api/elg/json_request_handler.h:69-108 | the guarded document overload: the reply is an object, and the service is called at most once, and is called exactly when `request.content` is a string |
| `RequestHandler.RespondRaw` | src/server/api/elg/json_request_handler.h:56-67 | the raw-body overload (through the guarded `Respond`): the reply is an object, and the service is called exactly when the body parsed to an object whose content is a string |
| `RequestHandler.WithError` | src/server/api/elg/json_request_handler.h:44-49 | the document becomes an object whose `failure.errors` is the one-element array holding the message |
| `RequestHandler.ErrorsDoNotAccumulate` | src/server/api/elg/json_request_handler.h:48 | a second `apiError` gives the same document as the second call alone, so `failure.errors` holds only the latest message |
| `RequestHandler.WithErrorKeepsOtherMembers` | src/server/api/elg/json_request_handler.h:44-48 | every top-level member other than `failure` is unchanged by `apiError` |
| `RequestHandler.WithErrorAppendsFailure` | src/server/api/elg/json_request_handler.h:44-48 | on an object without `failure`, `apiError` keeps every member in order and appends `failure: {errors: [message]}` |
| `RequestHandler.WithErrorOnNonObject` | src/server/api/elg/json_request_handler.h:59-61 | on a value that is not an object (a failed or non-object parse), `apiError` leaves only `{failure: {errors: [message]}}` |
| `RequestHandler.InvalidJsonFailsFast` | src/server/api/elg/json_request_handler.h:57-64 | a body that does not parse to an object yields exactly `{failure: {errors: ["Invalid Json"]}}`, and the service is never called |
| `RequestHandler.MetadataPassthrough` | src/server/api/elg/json_request_handler.h:77-81 | the response's `metadata` equals the request's `metadata` when there is one, and the response has none otherwise, on success and failure alike |
| `RequestHandler.SuccessShape` | src/server/api/elg/json_request_handler.h:87-107 | for string content `s`, the service is called exactly once, with `s` up to its first NUL and `getSentenceSplitMode(request)`; the document is exactly the metadata followed by `response = {type: "texts", texts: [{text: translate(…)}]}` |
| `RequestHandler.SuccessLookups` | src/server/api/elg/json_request_handler.h:100-106 | for string content, `response` is the texts record, `response.type` is "texts", `response.texts` holds the one translated text, and there is no `failure` member |
| `RequestHandler.ResponseLookups` | src/server/api/elg/json_request_handler.h:100-106 | in a document of `metadata` members followed by `response`, the lookups of `response`, `response.type` and `response.texts` find what lines 100-106 put there, and `failure` is absent |
| `RequestHandler.GuardedFailure` | src/server/api/elg/json_request_handler.h:89-96 | with absent or non-string content, the service is not called; `failure.errors` is exactly the matching one of the two messages; there is no `response` member |
| `RequestHandler.ExactlyOneBranch` | src/server/api/elg/json_request_handler.h:89-106 | every reply has exactly one of `response` and `failure` |
| `RequestHandler.SentenceRequestExchange` | src/server/api/elg/json_request_handler.h:69-107 | a request without metadata, with NUL-free string content and input-format "sentence", yields exactly one call in one-sentence-per-line mode and a reply whose only member is the response holding that call's result |
| `RequestHandler.HelloWorldExchange` | src/server/api/elg/json_request_handler.h:69-107 | the request with content "Hello world" and input-format "sentence" yields one call in one-sentence-per-line mode, and the text it returns is the only response text |
| `RequestHandler.EmbeddedNulTruncatesPayload` | src/server/api/elg/json_request_handler.h:97-98 | for the content "a", NUL, "b", the service is called once with "a" in wrapped-text mode |
| `RequestHandler.AsWrittenAgreesOnStringPayload` | src/server/api/elg/json_request_handler.h:89-98 | the code as written completes iff the content is a string, and then agrees with the guarded reply; otherwise the document it held at the undefined step is the guarded failure document |
| `RequestHandler.MissingContentIsUndefined` | src/server/api/elg/json_request_handler.h:90-94 | for the request `{}`, the code records "No content to translate provided." and then reaches the null dereference on line 94 |
| `RequestHandler.NonStringContentIsUndefined` | src/server/api/elg/json_request_handler.h:94-98 | for `{"request": {"content": 1}}`, the code records the not-a-string message and then reads the number as a string on line 98 |
| `ElgHandler.Document.constructor` | src/server/api/elg/json_request_handler.h:58 | a new document is null |
| `ElgHandler.Document.Parse` | src/server/api/elg/json_request_handler.h:59 | a successful parse replaces the document with the parsed value; a failed one leaves it unchanged |
| `ElgHandler.Document.SetObject` | src/server/api/elg/json_request_handler.h:75 | the document becomes the empty object |
| `ElgHandler.Document.AddMember` | src/server/api/elg/json_request_handler.h:79-80 | the member is appended after the existing ones |
| `ElgHandler.TranslationService.Translate` | src/server/api/elg/json_request_handler.h:97-98 | the result is `translation(text, mode)`, and the call is appended to the service's log |
| `ElgHandler.JsonRequestHandlerV1.constructor` | src/server/api/elg/json_request_handler.h:53 | the handler holds the given service |
| `ElgHandler.JsonRequestHandlerV1.ApiError` | src/server/api/elg/json_request_handler.h:44-49 | the document is updated in place to `WithError(old document, message)`, so `failure.errors` is `[message]` |
| `ElgHandler.JsonRequestHandlerV1.HandleBody` | src/server/api/elg/json_request_handler.h:56-67 | returns a fresh document equal to `RespondRaw(parsed).doc`; the service log grows by exactly the calls `RespondRaw` lists (none for invalid JSON) |
| `ElgHandler.JsonRequestHandlerV1.HandleRequest` | src/server/api/elg/json_request_handler.h:69-108 | returns a fresh document equal to `Respond(request).doc`, built by `SetObject`, `AddMember`, lookups and `apiError`; the service receives the payload read as a C string; the service log grows by exactly `Respond(request).calls` |

## Left out

- Parsing the raw body (`D.Parse`, line 59) is rapidjson's own code. The raw-body overload takes the parse result as `Option<Value>` (`None` for text that is not JSON), and the body text is not modelled.
- `ensure_path`: `src/server/api/rapidjson_utils.h` is not part of this model. `SetAtPath` assumes three things about it. A node on the path that is not an object becomes an empty object. A missing member is created, and an existing one is reached through its first occurrence. Nothing else in the document changes.
- `RequestHandler.WithError` stores the message whole. `apiError` passes it through `c_str()` (line 48), which would cut it at a NUL. The handler only ever passes its three constant messages, which contain no NUL, so nothing observable is lost.
- Allocators, `.Move()` ownership and the in-place `CopyFrom` are left out. The metadata copy is a value copy, so request and response cannot alias.
- `LOG(debug, …)` and `server::serialize` (lines 62 and 65) are logging only.
- JSON numbers are unbounded integers. rapidjson's doubles and integer widths are not modelled, because no branch of the handler looks at a number's value.
- The asynchronous future returned by `translate` and the concurrency between requests are left out. The service is a deterministic function, its call is synchronous, and each request gets its own fresh document. A service that fails or throws is not modelled, because the source does not handle that either.
- `ElgHandler.JsonRequestHandlerV1.HandleRequest`: for missing or non-string content it implements the guarded variant, not the undefined behaviour of lines 94 and 98. `RequestHandler.RespondAsWritten` models that behaviour only as an `Undefined` outcome; what the program then does cannot be modelled.
- `ElgHandler.JsonRequestHandlerV1.HandleRequest` requires the request to be an object. rapidjson's `HasMember` (line 78) asserts this, and the raw-body overload only passes objects.
- Lines 79-80 add an empty `metadata` member and then fill `D["metadata"]`, and lines 100-106 build `response` the same way. The model appends the finished value directly. This is the same thing, because the fresh document has no earlier member with that name.
- The engine behind the service (`src/models/encoder_similarity.h`) and the quantisation script (`scripts/alphas/minimise_error.py`) are not part of this model. The first declares only abstract methods; the second is floating-point numerics with file I/O.

## Findings

| source | as written | input that shows it | evidently intended | confidence | as-written member | corrected member |
|---|---|---|---|---|---|---|
| src/server/api/elg/json_request_handler.h:90-94 | after recording "No content to translate provided." the code goes on to `payload->IsString()` with a null `payload` | `{}` | return the failure document without calling the service | high; not executed | `RequestHandler.MissingContentIsUndefined` | `RequestHandler.GuardedFailure` |
| src/server/api/elg/json_request_handler.h:94-98 | after recording the not-a-string message the code goes on to `payload->GetString()` and calls the service | `{"request": {"content": 1}}` | return the failure document without calling the service | high; not executed | `RequestHandler.NonStringContentIsUndefined` | `RequestHandler.GuardedFailure` |
