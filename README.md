# RequestInfo header parsing and WebRequest dispatch, in Dafny

This project models the core of a small Unity helper for HTTP requests
(`WebRequest.cs`):

- `RequestInfo`, the serialized description of one request. Its raw header list
  holds strings of the form `"key"` or `"key,value"`. The private static
  `SetHeader` turns that list into a `Dictionary<string, string>`. The `Headers`
  property parses the list on first read and caches the dictionary in the
  `_headers` field.
- The static `WebRequest` class:
  - `Send` either takes the demo path (`FakeDemoSec > 0`) or dispatches on the
    request method.
  - `Get` and `Post` attach the header dictionary to an engine request. Once the
    request is done, they report `(responseCode, error or body text)` to the
    response callback.

Modules, one file each:

- `Wrappers` (`wrappers.dfy`): `Option` stands for a C# null reference. `Result`
  stands for a call that returns or throws.
- `StringSplit` (`string_split.dfy`): .NET's `String.Split(char)`. It cuts at
  every separator and keeps empty segments. Its round trips with `Join` are
  proved in both directions.
- `Requests` (`request_info.dfy`):
  - the entry parser (`KeyOf`, `ValueOf`);
  - the guard at line 39, evaluated as written (`NullGuard`);
  - the parsing loop as a function (`AddEntries`, `Parse`) and a characterisation
    of it by independent predicates (`AllPresent`, `DistinctKeys`, `KeySet`);
  - the class `RequestInfo`, with the imperative `SetHeader` and the caching
    `Headers` getter, both proved against `Parse`.
- `WebRequests` (`web_request.dfy`): the header-attachment loop, the outcome
  classification, `Get`, `Post`, the routing decision and `Send`. The engine
  transport is reduced to the outcome it finishes with (`TransportOutcome`).

C# exceptions are modelled as `ParseError` values:

- `NullReference` is a null dereference. It comes from a null array (at the
  guard) or a null element (at `Split`).
- `DuplicateKey(k)` is `Dictionary.Add` given a key it already holds.

Behaviour of the code as written, which the model keeps:

- The guard `values == null && values.Length <= 0` cannot return null. For a
  null array it reads `Length` through null and throws. For any other array it
  short-circuits to false. So a null list throws, an empty list gives an empty
  (non-null) dictionary, and `SetHeader` never returns null (`NullGuard`,
  `Parse`).
- A value is segment 1 of the split, so everything after a second comma is
  dropped.
- `Headers` always gives what parsing the raw list gives. Once the cache is
  filled, later reads do not parse again. A read that throws leaves the cache
  empty, so the next read parses again.
- In `Send`, the `GET` case shares its body with `default:`. Any method value
  other than `POST` (enum value 0) therefore goes to `Get`.

## Model

| member | source | states |
|---|---|---|
| StringSplit.Split | WebRequest.cs:48 | `value.Split(',')` gives at least one segment, and no segment contains the separator |
| StringSplit.SplitAfterHead | WebRequest.cs:48 | splitting `head + "," + tail`, where head has no comma, gives head followed by the segments of tail |
| StringSplit.JoinSplit | WebRequest.cs:48 | joining the segments with the separator gives back the split string, so nothing is lost between segments |
| StringSplit.SplitJoin | WebRequest.cs:48 | splitting a join of comma-free segments gives back exactly those segments, empty ones included |
| StringSplit.SplitLength | WebRequest.cs:48 | there is one segment more than there are commas |
| Requests.KeyOf | WebRequest.cs:48-50 | the key (`pairs[0]`) is the entry's longest comma-free prefix: a prefix of the entry with no comma, followed by a comma or by the end of the entry |
| Requests.ValueOf | WebRequest.cs:48-50 | the value (`pairs[1]`, or `string.Empty` when there is one segment) holds no comma, and is "" for an entry without a comma |
| Requests.EntryKeyValue | WebRequest.cs:48-50 | for an entry "key,value" with no other comma, the key is the text before the comma and the value the text after it |
| Requests.EntryExtraSegmentsDropped | WebRequest.cs:48-50 | with two or more commas, the value is only the text between the first and second comma; the rest is discarded |
| Requests.EntryRebuilt | WebRequest.cs:48-50 | an entry with at most one comma is either its key alone with value "" or its key, a comma and its value |
| Requests.NullGuard | WebRequest.cs:39-42 | the guard never yields true (the `return null` is dead), and it throws exactly when the array is null |
| Requests.Parse | WebRequest.cs:37-54 | SetHeader never returns null; a null array throws NullReference; an empty array gives an empty dictionary |
| Requests.AddEntries | WebRequest.cs:44-51 | the foreach/Add loop only adds: every key already in the dictionary is still in it on success (AddEntriesOkIff, AddEntriesKeys, AddEntriesKeepsAcc, AddEntriesValues and AddEntriesErrors give its full behaviour) |
| Requests.AddEntriesOkIff | WebRequest.cs:44-51 | the foreach/Add loop completes exactly when no element is null and every key is distinct and not already present |
| Requests.AddEntriesKeys | WebRequest.cs:44-51 | a completed loop adds exactly the elements' keys, one new key per element |
| Requests.AddEntriesKeepsAcc | WebRequest.cs:50 | Add never overwrites an entry that is already in the dictionary |
| Requests.AddEntriesValues | WebRequest.cs:46-51 | after a completed loop each element's key maps to that element's value |
| Requests.AddEntriesErrors | WebRequest.cs:46-51 | a NullReference comes from a null element; DuplicateKey(k) comes from k occurring twice; with no null element, only DuplicateKey can be thrown |
| Requests.ParseSucceedsIff | WebRequest.cs:37-54 | parsing a non-null array succeeds if and only if no element is null and all keys are distinct |
| Requests.ParseContents | WebRequest.cs:44-53 | on success the key set equals the set of segment-0 keys, the size equals the number of entries, and each key maps to its entry's value |
| Requests.ParseFailures | WebRequest.cs:39-50 | each failure names a real cause (a null element, or two elements with the reported key); repeated keys with no null element fail with DuplicateKey rather than overwriting |
| Requests.ParseSimpleEntries | WebRequest.cs:46-50 | for entries with at most one comma and distinct keys, the result maps the text before each comma to the text after it, and a comma-free entry to "" |
| Requests.RequestInfo.constructor | WebRequest.cs:13-23 | a deserialized description starts with an empty header cache, which satisfies the cache invariant |
| Requests.RequestInfo.SetHeader | WebRequest.cs:37-54 | the imperative loop (split, then Add) returns or throws exactly what Parse gives |
| Requests.RequestInfo.Headers | WebRequest.cs:24-35 | every read returns Parse of the raw list. The first successful read stores it in the cache and later reads do not parse again. Only the cache changes. |
| Requests.ReadHeadersTwice | WebRequest.cs:24-35 | two reads agree, and after a successful first read the second read does not parse again |
| WebRequests.Attach | WebRequest.cs:179-193 | after attachment every dictionary entry is on the request and other headers are kept; a null dictionary sets nothing |
| WebRequests.SetHeader | WebRequest.cs:179-193 | the SetRequestHeader loop leaves the request headers equal to Attach of the previous headers and the dictionary |
| WebRequests.Classify | WebRequest.cs:157-164 | a network or HTTP error reports (responseCode, error); otherwise the outcome reports (responseCode, body text) |
| WebRequests.Report | WebRequest.cs:125-132 | the response callback, when present, is called exactly once, with the response code and the error or the body text |
| WebRequests.Get | WebRequest.cs:134-165 | a GET request carries the uri, no form and the dictionary's headers; the callback gets the classified outcome once |
| WebRequests.Post | WebRequest.cs:95-133 | a POST request carries the uri, the form and the dictionary's headers; the callback gets the classified outcome once |
| WebRequests.RouteOf | WebRequest.cs:63-83 | the demo path is taken if and only if FakeDemoSec > 0; otherwise POST goes to Post and every other method value goes to Get |
| WebRequests.Send | WebRequest.cs:59-84 | the demo path sends nothing, leaves the description untouched and reports the success code with an empty body. Otherwise, if reading Headers throws, nothing is sent or reported; if it succeeds, the request goes to Post or Get with the parsed headers and the classified outcome is reported once. Off the demo path the header cache behaves as in Headers: a filled cache is reused without parsing, and an empty one is parsed exactly once and filled on success |

## Left out

- Progress reporting and coroutine scheduling are not modelled. This covers the `IEnumerator` bodies, `yield return`, the per-tick polling loops (WebRequest.cs:118-122 and 150-154) and the choice between waiting once and polling. They are cooperative suspension driven by the engine. The progress fractions are engine values, and the response does not depend on them.
- `FakeApiExcuted` (WebRequest.cs:167-178) is not modelled. It accumulates the float frame time and reports float progress ratios. Send's demo path keeps only the end result: nothing is sent, and the callback gets the success code with an empty body.
- The demo path is assumed to finish. `FakeApiExcuted` (WebRequest.cs:172-176) loops while the accumulated frame time is at most `FakeDemoSec`, so it never ends while the frame time stays 0 (a paused time scale, for example). In that case the response callback is never called, but the model's `Send` reports the success code on the demo path unconditionally.
- `Requests.RequestInfo.Headers`: the C# getter returns the cached `Dictionary` object itself, and every later read and every later `Send` share that object. A caller that changes the returned dictionary (`Add`, `Clear`) changes what those later reads see. The model returns the dictionary as a map value, so this aliasing and mutation by callers are not modelled.
- `Debug.LogWarningFormat` and the `ToJson` extension (WebRequest.cs:65) are not modelled. They are logging and a serialiser that is not part of this model. `ToJson` is assumed not to read the `Headers` property and not to throw. That assumption is why the model's `Send` leaves `info` unchanged on the demo path and always reports there. A serialiser that read `Headers` would fill the cache or throw, and a throw would mean no report.
- `Send` with a null `info` is not modelled. Line 63 would throw a NullReferenceException; the model's `info` is a non-null `RequestInfo`.
- The numeric value of the demo success status is not part of this model. `ApiHttpCode` is not defined in WebRequest.cs, so `Send` takes the success code as the parameter `successCode`.
- The engine's `UnityWebRequest` is modelled only by how a request is built and which headers are set on it. `SendWebRequest`, `isDone` and `downloadHandler` become one `TransportOutcome` parameter, which assumes that the request completes.
- `UnityWebRequest.SetRequestHeader` is modelled as a plain map update. Its own rejection of some header names and values is not modelled.
- Headers that the engine adds itself, such as a form's content type, are not modelled, and neither is WWWForm encoding. A form is carried through unchanged as its list of fields.
- Dictionary enumeration order is not modelled. `WebRequests.SetHeader` visits the keys in an arbitrary order. Because the keys are distinct, the resulting headers do not depend on that order.
- The response callback and the progress callback are foreign code. The model records the response-callback invocations and does not model exceptions thrown by callbacks.
- `FakeDemoSec` is a float, modelled as a real number. NaN and infinities are not modelled.
- `responseCode` is a C# `long`, modelled as an unbounded integer. The code only passes it through.
- Unity serialization (`[Serializable]`, `[SerializeField]`, `[NamedArray]`) is not modelled. A deserialized `RequestInfo` is the class constructor.
