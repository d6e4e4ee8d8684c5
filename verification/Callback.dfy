/**
 x-callback-url: an app opens a URL in another app and nests in it the URLs that the other app
 opens to answer; answers are matched to pending requests by an identifier.
 */
module Callback {
  import opened Bytes
  import opened Strings
  import opened Base64
  import opened Query
  import opened Urls

  // ----- the protocol's words -----

  const XCU_HOST: Text := Ascii("x-callback-url")
  const XCU_SOURCE: Text := Ascii("x-source")
  const XCU_SUCCESS: Text := Ascii("x-success")
  const XCU_ERROR: Text := Ascii("x-error")
  const XCU_ERROR_CODE: Text := Ascii("error-Code")
  const XCU_ERROR_MESSAGE: Text := Ascii("errorMessage")
  const XCU_CANCEL: Text := Ascii("x-cancel")
  const RESPONSE: Text := Ascii("response")
  const RESPONSE_TYPE: Text := Ascii("responseType")
  const REQUEST_ID: Text := Ascii("requestID")

  /** `hasPrefix("x-")`. */
  predicate IsXcuKey(k: Text) {
    |k| >= 2 && k[0] == 120 && k[1] == DASH
  }

  const NOT_SUPPORTED_ACTION: Int64 := 1
  const MISSING_ERROR_CODE: Int64 := 3

  datatype ResponseType = SuccessType | ErrorType | CancelType {
    function RawValue(): Text {
      match this
      case SuccessType => Ascii("success")
      case ErrorType => Ascii("error")
      case CancelType => Ascii("cancel")
    }

    /** The parameter that carries the URL to open for this kind of answer. */
    function Key(): Text {
      match this
      case SuccessType => XCU_SUCCESS
      case ErrorType => XCU_ERROR
      case CancelType => XCU_CANCEL
    }
  }

  function ParseResponseType(raw: Text): Option<ResponseType> {
    if raw == SuccessType.RawValue() then Some(SuccessType)
    else if raw == ErrorType.RawValue() then Some(ErrorType)
    else if raw == CancelType.RawValue() then Some(CancelType)
    else None
  }

  /** A request; of its callbacks only which ones there are. */
  datatype Request = Request(
    id: Text, urlScheme: Text, action: Text, parameters: Dictionary,
    onSuccess: bool, onFailure: bool, onCancel: bool)
  {
    predicate HasCallback() {
      onSuccess || onFailure || onCancel
    }

    predicate Wants(t: ResponseType) {
      match t
      case SuccessType => onSuccess
      case ErrorType => onFailure
      case CancelType => onCancel
    }

    /** `responseTypes`. */
    method ResponseTypes() returns (types: seq<ResponseType>)
      ensures forall t: ResponseType :: t in types <==> Wants(t)
    {
      types := [];
      if onSuccess {
        types := types + [SuccessType];
      }
      if onCancel {
        types := types + [CancelType];
      }
      if onFailure {
        types := types + [ErrorType];
      }
    }
  }

  predicate IsProtocolKey(k: Text) {
    k == RESPONSE || k == RESPONSE_TYPE || k == REQUEST_ID
  }

  /** `action(parameters:)`: without what belongs to the protocol, but with the source. */
  function ActionParameters(parameters: Dictionary): Dictionary {
    var own := map k | k in parameters && !(IsXcuKey(k) || IsProtocolKey(k)) :: parameters[k];
    if XCU_SOURCE in parameters then own[XCU_SOURCE := parameters[XCU_SOURCE]] else own
  }

  lemma Words()
    ensures IsXcuKey(XCU_SOURCE) && IsXcuKey(XCU_SUCCESS) && IsXcuKey(XCU_ERROR) && IsXcuKey(XCU_CANCEL)
    ensures !IsXcuKey(RESPONSE) && !IsXcuKey(RESPONSE_TYPE) && !IsXcuKey(REQUEST_ID)
    ensures !IsXcuKey(XCU_ERROR_CODE) && !IsXcuKey(XCU_ERROR_MESSAGE)
    ensures !IsProtocolKey(XCU_ERROR_CODE) && !IsProtocolKey(XCU_ERROR_MESSAGE) && REQUEST_ID != RESPONSE_TYPE
    ensures XCU_SOURCE != XCU_SUCCESS && XCU_SOURCE != XCU_ERROR && XCU_SOURCE != XCU_CANCEL
    ensures XCU_SUCCESS != XCU_ERROR && XCU_SUCCESS != XCU_CANCEL && XCU_ERROR != XCU_CANCEL
    ensures XCU_ERROR_CODE != XCU_ERROR_MESSAGE
  {
    assert RESPONSE[0] == 114 && RESPONSE_TYPE[0] == 114 && REQUEST_ID[0] == 114;
    assert XCU_ERROR_CODE[0] == 101 && XCU_ERROR_MESSAGE[0] == 101;
    assert XCU_SOURCE[3] == 111 && XCU_SUCCESS[3] == 117 && XCU_ERROR[3] == 114 && XCU_CANCEL[3] == 97;
  }

  lemma ResponseTypeRoundTrip(t: ResponseType)
    ensures ParseResponseType(t.RawValue()) == Some(t)
  {
    assert SuccessType.RawValue()[0] == 115 && ErrorType.RawValue()[0] == 101 && CancelType.RawValue()[0] == 99;
  }

  lemma ResponseTypeValid(t: ResponseType)
    ensures ValidUtf8(t.RawValue()) && ValidUtf8(t.Key())
  {
    AsciiIsUtf8(t.RawValue());
    AsciiIsUtf8(t.Key());
  }

  lemma RequestIdValid()
    ensures ValidUtf8(REQUEST_ID)
  {
    AsciiIsUtf8(REQUEST_ID);
  }

  lemma ResponseTypeKeyValid()
    ensures ValidUtf8(RESPONSE_TYPE)
  {
    AsciiIsUtf8(RESPONSE_TYPE);
  }

  lemma SourceValid()
    ensures ValidUtf8(XCU_SOURCE)
  {
    AsciiIsUtf8(XCU_SOURCE);
  }

  lemma ErrorKeysValid()
    ensures ValidUtf8(XCU_ERROR_CODE) && ValidUtf8(XCU_ERROR_MESSAGE)
  {
    AsciiIsUtf8(XCU_ERROR_CODE);
    AsciiIsUtf8(XCU_ERROR_MESSAGE);
  }

  // ----- what a URL makes a manager do -----

  /** An error is received as its code and the reason it is given for. */
  datatype Answer = Succeeded(parameters: Dictionary) | Failed(code: Int64, reason: Text) | Cancelled

  /** What `handleOpen` does with a URL; only `Ignored` is reported as not handled. */
  datatype Effect =
    | Ignored
    | Answered(id: Text, answer: Answer)
    | Unanswered
    | Dispatched(action: Text, actionParameters: Dictionary, parameters: Dictionary)
    | Refused(action: Text, callback: Url)

  /** `Client.error(code:message:)`. */
  function FailedWith(parameters: Dictionary): Answer {
    var code := if XCU_ERROR_CODE in parameters then ParseInt(parameters[XCU_ERROR_CODE]) else None;
    Failed(if code.Some? then code.value else MISSING_ERROR_CODE,
           if XCU_ERROR_MESSAGE in parameters then parameters[XCU_ERROR_MESSAGE] else [])
  }

  /** An error without a code that can be read has code 3; one without a message has no reason. */
  lemma ErrorWithout(parameters: Dictionary)
    ensures Ascii("error-Code") !in parameters || ParseInt(parameters[Ascii("error-Code")]).None? ==>
              FailedWith(parameters).code == 3
    ensures Ascii("errorMessage") !in parameters ==> FailedWith(parameters).reason == []
  {
  }

  function AnswerOf(t: ResponseType, parameters: Dictionary): Answer {
    match t
    case SuccessType => Succeeded(ActionParameters(parameters))
    case ErrorType => FailedWith(parameters)
    case CancelType => Cancelled
  }

  function HandleResponse(requests: map<Text, Request>, parameters: Dictionary): Effect {
    if REQUEST_ID in parameters && parameters[REQUEST_ID] in requests then
      var t := if RESPONSE_TYPE in parameters then ParseResponseType(parameters[RESPONSE_TYPE]) else None;
      if t.Some? then Answered(parameters[REQUEST_ID], AnswerOf(t.value, parameters)) else Unanswered
    else Ignored
  }

  function ActionOf(u: Url): Text {
    var path := PathOf(u);
    if path == [] then [] else path[1..]
  }

  /** The name under which an action arrives: `URL.path` drops a slash at its end. */
  function Received(action: Text): Text {
    if action != [] && action[|action| - 1] == SLASH then action[..|action| - 1] else action
  }

  function Handle(scheme: Option<Text>, requests: map<Text, Request>, actions: set<Text>, url: Url): Effect {
    if scheme != Some(url.scheme) || url.host != XCU_HOST then Ignored
    else
      var action, parameters := ActionOf(url), QueryOf(url);
      if action == RESPONSE then HandleResponse(requests, parameters)
      else if action in actions then Dispatched(action, ActionParameters(parameters), parameters)
      else
        var callback := CallbackIn(parameters, ErrorType);
        if callback.Some? then Refused(action, callback.value) else Ignored
  }

  /**
   A URL is left to others exactly if it is for another app, answers no pending request, or asks for an
   action that is not known without saying where to report that; with that it is refused.
   */
  lemma HandleIff(scheme: Option<Text>, requests: map<Text, Request>, actions: set<Text>, url: Url)
    ensures var q, action, effect := QueryOf(url), ActionOf(url), Handle(scheme, requests, actions, url);
      var mine := scheme == Some(url.scheme) && url.host == Ascii("x-callback-url");
      var answer := action == Ascii("response");
      var id := Ascii("requestID");
      var report := if Ascii("x-error") in q then Parse(q[Ascii("x-error")]) else None;
      && (effect == Ignored <==>
            !mine || (answer && (id !in q || q[id] !in requests)) || (!answer && action !in actions && report.None?))
      && (effect.Refused? <==> mine && !answer && action !in actions && report.Some?)
      && (effect.Refused? ==> effect == Refused(action, report.value))
  {
  }

  /** The URL that a request's parameters give for an answer of this type. */
  function CallbackIn(parameters: Dictionary, t: ResponseType): Option<Url> {
    if t.Key() in parameters then Parse(parameters[t.Key()]) else None
  }

  function ErrorParameters(code: Int64, message: Text): Dictionary {
    map[XCU_ERROR_CODE := PrintInt(code), XCU_ERROR_MESSAGE := message]
  }

  // ----- requests and replies as they travel -----

  /** A URL that comes back to the manager with `scheme` as an answer of type `t` to request `id`. */
  ghost predicate IsCallback(u: Url, scheme: Text, id: Text, t: ResponseType) {
    && WellFormed(u) && u.scheme == scheme && u.host == XCU_HOST && ActionOf(u) == RESPONSE
    && u.query.Some? && QueryOf(u) == map[REQUEST_ID := id, RESPONSE_TYPE := t.RawValue()]
  }

  /** The parameters that a manager adds to a request's own. */
  ghost predicate IsProtocolQuery(q: Dictionary, scheme: Option<Text>, appName: Text, r: Request) {
    && ValidDictionary(q) && XCU_SOURCE in q && q[XCU_SOURCE] == appName
    && (forall k :: k in q ==> IsXcuKey(k))
    && forall t: ResponseType {:trigger r.Wants(t)} :: scheme.Some? && r.Wants(t) ==>
         CallbackIn(q, t).Some? && IsCallback(CallbackIn(q, t).value, scheme.value, r.id, t)
  }

  /** `u` carries `r` out; `q` is what was added to its parameters. */
  ghost predicate IsRequest(u: Url, r: Request, q: Dictionary) {
    && WellFormed(u) && u.scheme == r.urlScheme && u.host == XCU_HOST && ActionOf(u) == Received(r.action)
    && QueryOf(u) == r.parameters + q
  }

  /** `u` is `callback` with some parameters added to its query. */
  ghost predicate Extends(u: Url, callback: Url, returned: Dictionary) {
    u == callback.(query := u.query) && QueryOf(u) == QueryOf(callback) + returned
  }

  ghost predicate IsReply(u: Url, callback: Url, returned: Dictionary) {
    WellFormed(u) && Extends(u, callback, returned)
  }

  /** Parameters that survive the way back: none of the protocol's, except the source. */
  ghost predicate Returnable(d: Dictionary) {
    forall k :: k in d ==> (k == XCU_SOURCE || !IsXcuKey(k)) && !IsProtocolKey(k)
  }

  // What the filter leaves of a request's parameters, and of a reply's.

  lemma RequestParameters(own: Dictionary, q: Dictionary)
    requires Returnable(own) && XCU_SOURCE in q && forall k :: k in q ==> IsXcuKey(k)
    ensures ActionParameters(own + q) == own[XCU_SOURCE := q[XCU_SOURCE]]
  {
    Words();
  }

  lemma ReplyParametersIff(protocol: Dictionary, returned: Dictionary)
    requires protocol.Keys == {REQUEST_ID, RESPONSE_TYPE}
    ensures ActionParameters(protocol + returned) == returned <==> Returnable(returned)
  {
    Words();
    if !Returnable(returned) {
      var k :| k in returned && (IsProtocolKey(k) || (IsXcuKey(k) && k != XCU_SOURCE));
      assert k !in ActionParameters(protocol + returned);
    }
  }

  lemma ErrorParametersRead(protocol: Dictionary, code: Int64, message: Text)
    ensures FailedWith(protocol + ErrorParameters(code, message)) == Failed(code, message)
  {
    Words();
    IntRoundTrip(code);
  }

  /** Whatever the request's own parameters are, the other side finds the callbacks in it. */
  lemma CallbackSurvives(u: Url, r: Request, q: Dictionary, t: ResponseType)
    requires QueryOf(u) == r.parameters + q && t.Key() in q
    ensures CallbackIn(QueryOf(u), t) == CallbackIn(q, t)
  {
  }

  /** First hop: the handler of the action, under the name it arrives with, gets the parameters. */
  lemma RequestRoundTrip(u: Url, r: Request, q: Dictionary, scheme: Option<Text>, appName: Text,
                         requests: map<Text, Request>, actions: set<Text>)
    requires IsRequest(u, r, q) && IsProtocolQuery(q, scheme, appName, r)
    requires Received(r.action) in actions && Received(r.action) != RESPONSE
    ensures Parse(Print(u)) == Some(u)
    ensures Handle(Some(r.urlScheme), requests, actions, u)
            == Dispatched(Received(r.action), ActionParameters(r.parameters + q), r.parameters + q)
    ensures Returnable(r.parameters) ==>
            ActionParameters(r.parameters + q) == r.parameters[XCU_SOURCE := appName]
  {
    UrlRoundTrip(u);
    DispatchAt(r.urlScheme, requests, actions, u);
    if Returnable(r.parameters) {
      RequestParameters(r.parameters, q);
    }
  }

  /** The very action that was asked for is dispatched if and only if it does not end with a slash. */
  lemma ActionRoundTripIff(u: Url, r: Request, q: Dictionary, requests: map<Text, Request>, actions: set<Text>)
    requires IsRequest(u, r, q) && r.action in actions && r.action != RESPONSE
    ensures Handle(Some(r.urlScheme), requests, actions, u)
            == Dispatched(r.action, ActionParameters(r.parameters + q), r.parameters + q)
            <==> r.action == [] || r.action[|r.action| - 1] != SLASH
  {
    if r.action == [] || r.action[|r.action| - 1] != SLASH {
      DispatchAt(r.urlScheme, requests, actions, u);
    } else {
      assert |ActionOf(u)| < |r.action|;
    }
  }

  lemma DispatchAt(scheme: Text, requests: map<Text, Request>, actions: set<Text>, u: Url)
    requires u.scheme == scheme && u.host == XCU_HOST && ActionOf(u) in actions && ActionOf(u) != RESPONSE
    ensures Handle(Some(scheme), requests, actions, u)
            == Dispatched(ActionOf(u), ActionParameters(QueryOf(u)), QueryOf(u))
  {
  }

  /** A reply comes from its callback alone: same place, the callback's parameters and the returned ones. */
  lemma ReplyIs(u: Url, callback: Url, scheme: Text, id: Text, t: ResponseType, returned: Dictionary)
    requires IsCallback(callback, scheme, id, t) && IsReply(u, callback, returned)
    ensures Parse(Print(u)) == Some(u)
    ensures u.scheme == scheme && u.host == XCU_HOST && ActionOf(u) == RESPONSE
    ensures QueryOf(u) == map[REQUEST_ID := id, RESPONSE_TYPE := t.RawValue()] + returned
  {
    UrlRoundTrip(u);
  }

  /** What a reply does, when nothing in it overrides the protocol's parameters. */
  lemma ReplyHandled(requests: map<Text, Request>, id: Text, t: ResponseType, returned: Dictionary)
    requires id in requests && REQUEST_ID !in returned && RESPONSE_TYPE !in returned
    ensures var parameters := map[REQUEST_ID := id, RESPONSE_TYPE := t.RawValue()] + returned;
            HandleResponse(requests, parameters) == Answered(id, AnswerOf(t, parameters))
  {
    Words();
    ResponseTypeRoundTrip(t);
  }

  lemma SuccessHandledIff(requests: map<Text, Request>, id: Text, returned: Dictionary)
    requires id in requests
    ensures HandleResponse(requests, map[REQUEST_ID := id, RESPONSE_TYPE := SuccessType.RawValue()] + returned)
            == Answered(id, Succeeded(returned))
            <==> Returnable(returned)
  {
    ReplyParametersIff(map[REQUEST_ID := id, RESPONSE_TYPE := SuccessType.RawValue()], returned);
    if Returnable(returned) {
      ReplyHandled(requests, id, SuccessType, returned);
    }
  }

  lemma HandleAt(scheme: Text, requests: map<Text, Request>, actions: set<Text>, u: Url)
    requires u.scheme == scheme && u.host == XCU_HOST && ActionOf(u) == RESPONSE
    ensures Handle(Some(scheme), requests, actions, u) == HandleResponse(requests, QueryOf(u))
  {
  }

  /**
   Both hops.  The URL that was nested in the request, found by the other side, extended with the
   returned parameters and opened again, answers that request with success and exactly those
   parameters if and only if none of them belongs to the protocol.
   */
  lemma SuccessRoundTripIff(sent: Url, r: Request, q: Dictionary, scheme: Text, appName: Text, reply: Url,
                            returned: Dictionary, requests: map<Text, Request>, actions: set<Text>)
    requires IsRequest(sent, r, q) && IsProtocolQuery(q, Some(scheme), appName, r) && r.onSuccess && r.id in requests
    requires CallbackIn(QueryOf(sent), SuccessType).Some?
    requires IsReply(reply, CallbackIn(QueryOf(sent), SuccessType).value, returned)
    ensures Parse(Print(reply)) == Some(reply)
    ensures Handle(Some(scheme), requests, actions, reply) == Answered(r.id, Succeeded(returned))
            <==> Returnable(returned)
  {
    assert r.Wants(SuccessType);
    CallbackSurvives(sent, r, q, SuccessType);
    SuccessReplyIff(CallbackIn(QueryOf(sent), SuccessType).value, scheme, r.id, reply, returned, requests, actions);
  }

  /** Second hop. */
  lemma SuccessReplyIff(callback: Url, scheme: Text, id: Text, reply: Url, returned: Dictionary,
                        requests: map<Text, Request>, actions: set<Text>)
    requires IsCallback(callback, scheme, id, SuccessType) && IsReply(reply, callback, returned) && id in requests
    ensures Parse(Print(reply)) == Some(reply)
    ensures Handle(Some(scheme), requests, actions, reply) == Answered(id, Succeeded(returned))
            <==> Returnable(returned)
  {
    ReplyIs(reply, callback, scheme, id, SuccessType, returned);
    HandleAt(scheme, requests, actions, reply);
    SuccessHandledIff(requests, id, returned);
  }

  /** An error travels back with its code, and its message as the reason of the error received. */
  lemma FailureRoundTrip(sent: Url, r: Request, q: Dictionary, scheme: Text, appName: Text, reply: Url, code: Int64,
                         message: Text, requests: map<Text, Request>, actions: set<Text>)
    requires IsRequest(sent, r, q) && IsProtocolQuery(q, Some(scheme), appName, r) && r.onFailure && r.id in requests
    requires CallbackIn(QueryOf(sent), ErrorType).Some?
    requires IsReply(reply, CallbackIn(QueryOf(sent), ErrorType).value, ErrorParameters(code, message))
    ensures Parse(Print(reply)) == Some(reply)
    ensures Handle(Some(scheme), requests, actions, reply) == Answered(r.id, Failed(code, message))
  {
    assert r.Wants(ErrorType);
    CallbackSurvives(sent, r, q, ErrorType);
    ReplyIs(reply, CallbackIn(QueryOf(sent), ErrorType).value, scheme, r.id, ErrorType, ErrorParameters(code, message));
    HandleAt(scheme, requests, actions, reply);
    ErrorHandled(requests, r.id, code, message);
  }

  lemma ErrorHandled(requests: map<Text, Request>, id: Text, code: Int64, message: Text)
    requires id in requests
    ensures HandleResponse(requests, map[REQUEST_ID := id, RESPONSE_TYPE := ErrorType.RawValue()]
                                     + ErrorParameters(code, message))
            == Answered(id, Failed(code, message))
  {
    Words();
    ReplyHandled(requests, id, ErrorType, ErrorParameters(code, message));
    ErrorParametersRead(map[REQUEST_ID := id, RESPONSE_TYPE := ErrorType.RawValue()], code, message);
  }

  lemma CancelRoundTrip(sent: Url, r: Request, q: Dictionary, scheme: Text, appName: Text,
                        requests: map<Text, Request>, actions: set<Text>)
    requires IsRequest(sent, r, q) && IsProtocolQuery(q, Some(scheme), appName, r) && r.onCancel && r.id in requests
    ensures var callback := CallbackIn(QueryOf(sent), CancelType);
            callback.Some? && Handle(Some(scheme), requests, actions, callback.value) == Answered(r.id, Cancelled)
  {
    assert r.Wants(CancelType);
    CallbackSurvives(sent, r, q, CancelType);
    CancelHandled(CallbackIn(QueryOf(sent), CancelType).value, scheme, r.id, requests, actions);
  }

  lemma CancelHandled(callback: Url, scheme: Text, id: Text, requests: map<Text, Request>, actions: set<Text>)
    requires IsCallback(callback, scheme, id, CancelType) && id in requests
    ensures Handle(Some(scheme), requests, actions, callback) == Answered(id, Cancelled)
  {
    HandleAt(scheme, requests, actions, callback);
    ReplyHandled(requests, id, CancelType, map[]);
    assert QueryOf(callback) == QueryOf(callback) + map[];
  }
}
