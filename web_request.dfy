/**
 * WebRequest: Send chooses between the demo path, Get and Post; Get and Post
 * build an engine request, attach the header dictionary and, once the transport
 * is done, report (responseCode, error or body text) to the response callback.
 * The engine's transport is reduced to the outcome it finishes with.
 */
module WebRequests {
  import opened Wrappers
  import opened Requests

  /** The HTTP verb an engine request is built with. */
  datatype Verb = HttpGet | HttpPost

  /** The fields of a WWWForm; the form goes to the engine unchanged. */
  type Form = seq<(string, string)>

  /** The state of a finished engine request: its error flags, response code,
      error description and downloaded body text. */
  datatype TransportOutcome = TransportOutcome(
    isNetworkError: bool,
    isHttpError: bool,
    responseCode: int,
    error: string,
    text: string)

  /** One invocation of the response callback. */
  datatype Response = Response(code: int, body: string)

  /** What an engine request carried when it was sent. */
  datatype SentRequest = SentRequest(verb: Verb, uri: string, form: Option<Form>, headers: map<string, string>)

  /** The part of the engine's UnityWebRequest this code touches: how it was built
      and the request headers set on it. */
  class UnityWebRequest {
    const verb: Verb
    const uri: string
    const form: Option<Form>
    var requestHeaders: map<string, string>

    constructor Get(uri: string)
      ensures verb == HttpGet && this.uri == uri && form == None && requestHeaders == map[]
    {
      verb, this.uri, form := HttpGet, uri, None;
      requestHeaders := map[];
    }

    constructor Post(uri: string, form: Option<Form>)
      ensures verb == HttpPost && this.uri == uri && this.form == form && requestHeaders == map[]
    {
      verb, this.uri, this.form := HttpPost, uri, form;
      requestHeaders := map[];
    }

    method SetRequestHeader(name: string, value: string)
      modifies this
      ensures requestHeaders == old(requestHeaders)[name := value]
    {
      requestHeaders := requestHeaders[name := value];
    }

    function Sent(): SentRequest
      reads this
    {
      SentRequest(verb, uri, form, requestHeaders)
    }
  }

  /** The headers a request holds after the dictionary is applied to it: every entry
      of the dictionary is set, over what the request had; a null dictionary sets none. */
  function Attach(current: map<string, string>, headers: HeaderDictionary): (r: map<string, string>)
    ensures headers.None? ==> r == current
    ensures headers.Some? ==> r.Keys == current.Keys + headers.value.Keys
    ensures headers.Some? ==> forall k :: k in headers.value ==> r[k] == headers.value[k]
    ensures forall k :: k in current && (headers.None? || k !in headers.value) ==> r[k] == current[k]
  {
    if headers.None? then current else current + headers.value
  }

  /** Sets every entry of the dictionary on the request, one SetRequestHeader call per entry. */
  method SetHeader(webRequest: UnityWebRequest, headers: HeaderDictionary)
    modifies webRequest
    ensures webRequest.requestHeaders == Attach(old(webRequest.requestHeaders), headers)
  {
    if headers == None {
      return;
    }
    var dictionary := headers.value;
    var pending := dictionary.Keys;
    while pending != {}
      invariant pending <= dictionary.Keys
      invariant webRequest.requestHeaders == old(webRequest.requestHeaders) + (dictionary - pending)
      decreases pending
    {
      var key :| key in pending;
      webRequest.SetRequestHeader(key, dictionary[key]);
      pending := pending - {key};
    }
    assert dictionary - pending == dictionary;
  }

  /** What the response callback is given for a finished request: the response code
      with the error description after a network or HTTP error, with the body text otherwise. */
  function Classify(outcome: TransportOutcome): (r: Response)
    ensures r.code == outcome.responseCode
    ensures outcome.isNetworkError || outcome.isHttpError ==> r.body == outcome.error
    ensures !outcome.isNetworkError && !outcome.isHttpError ==> r.body == outcome.text
  {
    if outcome.isNetworkError || outcome.isHttpError then
      Response(outcome.responseCode, outcome.error)
    else
      Response(outcome.responseCode, outcome.text)
  }

  /** The response callback calls after completion: one, if a callback is given. */
  method Report(hasOnResp: bool, outcome: TransportOutcome) returns (calls: seq<Response>)
    ensures calls == if hasOnResp then [Classify(outcome)] else []
  {
    calls := [];
    if hasOnResp {
      calls := [Classify(outcome)];
    }
  }

  /** A GET: the request carries the uri and the dictionary's headers, and the
      callback, if given, is called once with the classified outcome. */
  method Get(uri: string, headers: HeaderDictionary, hasOnResp: bool, outcome: TransportOutcome)
    returns (sent: SentRequest, calls: seq<Response>)
    ensures sent.verb == HttpGet && sent.uri == uri && sent.form == None
    ensures sent.headers == Attach(map[], headers)
    ensures calls == if hasOnResp then [Classify(outcome)] else []
  {
    var webRequest := new UnityWebRequest.Get(uri);
    SetHeader(webRequest, headers);
    sent := webRequest.Sent();
    calls := Report(hasOnResp, outcome);
  }

  /** A POST: as a GET, with the form as the request body. */
  method Post(uri: string, formData: Option<Form>, headers: HeaderDictionary, hasOnResp: bool, outcome: TransportOutcome)
    returns (sent: SentRequest, calls: seq<Response>)
    ensures sent.verb == HttpPost && sent.uri == uri && sent.form == formData
    ensures sent.headers == Attach(map[], headers)
    ensures calls == if hasOnResp then [Classify(outcome)] else []
  {
    var webRequest := new UnityWebRequest.Post(uri, formData);
    SetHeader(webRequest, headers);
    sent := webRequest.Sent();
    calls := Report(hasOnResp, outcome);
  }

  /** Where Send goes for a request description. */
  datatype Route = FakeDemo | ToGet | ToPost

  /** The demo path when FakeDemoSec is positive; otherwise the switch on the method,
      whose GET case shares its body with the default label. */
  function RouteOf(fakeDemoSec: real, requestMethod: RequestMethod): (route: Route)
    ensures route == FakeDemo <==> fakeDemoSec > 0.0
    ensures route == ToPost <==> fakeDemoSec <= 0.0 && requestMethod == POST
    ensures route == ToGet <==> fakeDemoSec <= 0.0 && requestMethod != POST
  {
    if fakeDemoSec > 0.0 then FakeDemo
    else if requestMethod == GET then ToGet
    else if requestMethod == POST then ToPost
    else ToGet
  }

  /**
   * Send. On the demo path nothing is sent, the description is not touched and
   * the callback, if given, gets the success code with an empty body. Otherwise the
   * Headers property is read (which may throw, and then nothing is sent or
   * reported) and the request goes to Post for POST and to Get for any other value.
   */
  method Send(info: RequestInfo, formData: Option<Form>, hasOnResp: bool, outcome: TransportOutcome, successCode: int)
    returns (sent: Option<SentRequest>, calls: seq<Response>, thrown: Option<ParseError>)
    requires info.Valid()
    modifies info`headers, info`parseCount
    ensures info.Valid()
    ensures info.fakeDemoSec > 0.0 ==>
              && sent == None && thrown == None && unchanged(info)
              && calls == if hasOnResp then [Response(successCode, "")] else []
    ensures info.fakeDemoSec <= 0.0 && Parse(info.headerRef).Err? ==>
              sent == None && calls == [] && thrown == Some(Parse(info.headerRef).error)
    ensures info.fakeDemoSec <= 0.0 && Parse(info.headerRef).Ok? ==>
              && thrown == None
              && sent == Some(SentRequest(
                   if info.requestMethod == POST then HttpPost else HttpGet,
                   info.uri,
                   if info.requestMethod == POST then formData else None,
                   Attach(map[], Parse(info.headerRef).value)))
              && calls == if hasOnResp then [Classify(outcome)] else []
    ensures info.fakeDemoSec <= 0.0 && old(info.headers).Some? ==>
              info.headers == old(info.headers) && info.parseCount == old(info.parseCount)
    ensures info.fakeDemoSec <= 0.0 && old(info.headers).None? ==>
              && info.parseCount == old(info.parseCount) + 1
              && info.headers == (if Parse(info.headerRef).Ok? then Parse(info.headerRef).value else None)
  {
    var route := RouteOf(info.fakeDemoSec, info.requestMethod);
    if route == FakeDemo {
      sent, thrown := None, None;
      calls := if hasOnResp then [Response(successCode, "")] else [];
      return;
    }
    var headers := info.Headers();
    if headers.Err? {
      sent, calls, thrown := None, [], Some(headers.error);
      return;
    }
    thrown := None;
    var request;
    if route == ToPost {
      request, calls := Post(info.uri, formData, headers.value, hasOnResp, outcome);
    } else {
      request, calls := Get(info.uri, headers.value, hasOnResp, outcome);
    }
    sent := Some(request);
  }
}
