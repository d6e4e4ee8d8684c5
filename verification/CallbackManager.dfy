/** The manager that sends requests and is handed the URLs that other apps open. */
module CallbackManager {
  import opened Bytes
  import opened Strings
  import opened Base64
  import opened Query
  import opened Urls
  import opened Callback

  datatype SendResult = Sent(url: Url) | AppNotInstalled | SchemeNotDefined

  predicate ValidRequest(r: Request) {
    ValidUtf8(r.id) && ValidUtf8(r.action) && ValidDictionary(r.parameters) && ValidScheme(r.urlScheme)
  }

  /** How often a request has been answered. */
  ghost function Times(answers: seq<(Text, Answer)>, id: Text): nat {
    if answers == [] then 0
    else Times(answers[..|answers| - 1], id) + if answers[|answers| - 1].0 == id then 1 else 0
  }

  lemma TimesSnoc(answers: seq<(Text, Answer)>, a: (Text, Answer), id: Text)
    ensures Times(answers + [a], id) == Times(answers, id) + if a.0 == id then 1 else 0
  {
    assert (answers + [a])[..|answers|] == answers;
  }

  // ----- building URLs -----

  lemma {:induction false} UnescapePlain(s: Text)
    requires PERCENT !in s
    ensures Unescape(s) == Some(s)
  {
    if s != [] {
      UnescapePlain(s[1..]);
      assert s == [s[0]] + s[1..];
    }
  }

  lemma ResponseLetters()
    ensures [SLASH] + RESPONSE == [SLASH, 114, 101, 115, 112, 111, 110, 115, 101]
  {
    assert RESPONSE == [114, 101, 115, 112, 111, 110, 115, 101];
  }

  /** The path of a response is read back as it is. */
  lemma ResponsePath()
    ensures PathOf(Url([], [], [SLASH] + RESPONSE, None, None)) == [SLASH] + RESPONSE
  {
    ResponseLetters();
    UnescapePlain([SLASH] + RESPONSE);
  }

  lemma ResponsePathPlain()
    ensures Free([SLASH] + RESPONSE, QUESTION, HASH) && UrlText([SLASH] + RESPONSE)
  {
    ResponseLetters();
  }

  /** The path of a request is read back as the action, but for a slash at its end. */
  lemma ActionPath(action: Text)
    requires ValidUtf8(action)
    ensures Query.Decode(WithoutEndSlash(Query.Encode([SLASH] + action, PathPart))) == [SLASH] + Received(action)
  {
    ActionPathEnd(action);
    ReceivedUtf8(action);
    Utf8Prepend(SLASH, Received(action));
    PercentRoundTrip([SLASH] + Received(action), PathPart);
  }

  lemma ActionPathPlain(action: Text)
    ensures var path := Query.Encode([SLASH] + action, PathPart);
            Free(path, QUESTION, HASH) && UrlText(path) && path != [] && path[0] == SLASH
  {
    EncodePlain([SLASH] + action, PathPart, QUESTION);
    EncodePlain([SLASH] + action, PathPart, HASH);
    EncodeUrlText([SLASH] + action, PathPart);
    EncodeConcat([SLASH], action, PathPart);
    OneSlash();
  }

  lemma OneSlash()
    ensures Query.Encode([SLASH], PathPart) == [SLASH]
  {
    assert [SLASH][1..] == [];
  }

  lemma ActionPathEnd(action: Text)
    ensures WithoutEndSlash(Query.Encode([SLASH] + action, PathPart))
            == Query.Encode([SLASH] + Received(action), PathPart)
  {
    OneSlash();
    if action != [] {
      var init, last := action[..|action| - 1], action[|action| - 1];
      assert [SLASH] + action == ([SLASH] + init) + [last];
      EncodeEnd([SLASH] + init, last, PathPart);
      EncodeConcat([SLASH], init, PathPart);
    } else {
      assert [SLASH] + action == [SLASH];
    }
  }

  lemma ReceivedUtf8(action: Text)
    requires ValidUtf8(action)
    ensures ValidUtf8(Received(action))
  {
    if action != [] && action[|action| - 1] == SLASH {
      Utf8DropLast(action);
    }
  }

  lemma HostPlain()
    ensures Free(XCU_HOST, QUESTION, HASH) && SLASH !in XCU_HOST && UrlText(XCU_HOST)
  {
    HostLetters();
    HostCharacters([120, 45, 99, 97, 108, 108, 98, 97, 99, 107, 45, 117, 114, 108]);
  }

  lemma HostLetters()
    ensures XCU_HOST == [120, 45, 99, 97, 108, 108, 98, 97, 99, 107, 45, 117, 114, 108]
  {
  }

  lemma HostCharacters(t: Text)
    requires forall i :: 0 <= i < |t| ==> t[i] == DASH || 97 <= t[i] <= 122
    ensures Free(t, QUESTION, HASH) && SLASH !in t && UrlText(t)
  {
  }

  /** The URL to open for an answer of type `t` to request `id`. */
  method CallbackUrl(scheme: Text, id: Text, t: ResponseType) returns (u: Url)
    requires ValidScheme(scheme) && ValidUtf8(id)
    ensures IsCallback(u, scheme, id, t)
  {
    var d := map[REQUEST_ID := id, RESPONSE_TYPE := t.RawValue()];
    CallbackParametersValid(id, t);
    var query := QueryString(d);
    u := Url(scheme, XCU_HOST, [SLASH] + RESPONSE, Some(query), None);
    CallbackUrlIs(u, scheme, query);
  }

  lemma CallbackParametersValid(id: Text, t: ResponseType)
    requires ValidUtf8(id)
    ensures ValidDictionary(map[REQUEST_ID := id, RESPONSE_TYPE := t.RawValue()])
  {
    ResponseTypeValid(t);
    RequestIdValid();
    ResponseTypeKeyValid();
  }

  lemma CallbackUrlIs(u: Url, scheme: Text, query: Text)
    requires ValidScheme(scheme) && HASH !in query && UrlText(query)
    requires u == Url(scheme, XCU_HOST, [SLASH] + RESPONSE, Some(query), None)
    ensures WellFormed(u) && ActionOf(u) == RESPONSE
  {
    ResponsePath();
    ResponsePathPlain();
    HostPlain();
    assert ([SLASH] + RESPONSE)[1..] == RESPONSE;
  }

  /** `Request.URLComponents(_:)`. */
  method RequestUrl(r: Request, q: Dictionary) returns (u: Url)
    requires ValidRequest(r) && ValidDictionary(q) && q != map[]
    ensures IsRequest(u, r, q)
  {
    var query := QueryString(r.parameters + q);
    ActionPath(r.action);
    ActionPathPlain(r.action);
    HostPlain();
    u := Url(r.urlScheme, XCU_HOST, Query.Encode([SLASH] + r.action, PathPart), Some(query), None);
    assert ([SLASH] + Received(r.action))[1..] == Received(r.action);
  }

  /** `&=`. */
  method AddToQuery(u: Url, add: Text) returns (r: Url)
    ensures Extends(r, u, ReadQuery(add))
    ensures WellFormed(u) && HASH !in add && UrlText(add) ==> WellFormed(r)
  {
    match u.query {
      case None =>
        r := u.(query := Some(add));
        assert map[] + ReadQuery(add) == ReadQuery(add);
      case Some(query) =>
        r := u.(query := Some(query + [AMPERSAND] + add));
        ReadQueryConcat(query, add);
        if UrlText(query) && UrlText(add) {
          UrlTextAround(query, AMPERSAND, add);
        }
    }
  }

  /** `openCallback`: the URL to open as an answer of type `t`, if the request names one. */
  method OpenCallback(parameters: Dictionary, t: ResponseType, returned: Option<Dictionary>)
    returns (reply: Option<Url>)
    requires returned.Some? ==> ValidDictionary(returned.value)
    ensures reply.Some? <==> CallbackIn(parameters, t).Some?
    ensures reply.Some? ==>
      Extends(reply.value, CallbackIn(parameters, t).value, if returned.Some? then returned.value else map[])
    ensures reply.Some? && WellFormed(CallbackIn(parameters, t).value) ==> WellFormed(reply.value)
  {
    reply := CallbackIn(parameters, t);
    if reply.Some? {
      if returned.Some? {
        var add := QueryString(returned.value);
        var u := AddToQuery(reply.value, add);
        reply := Some(u);
      } else {
        assert QueryOf(reply.value) == QueryOf(reply.value) + map[];
      }
    }
  }

  class Manager {
    const appName: Text
    /** How the system words an error with a given reason. */
    const describe: Text -> Text
    var callbackURLScheme: Option<Text>
    var actions: set<Text>
    var requests: map<Text, Request>

    /** The requests ever kept for an answer, and the answers they were given, in order. */
    ghost var registered: set<Text>
    ghost var answers: seq<(Text, Answer)>

    /** Every request that was kept is either still pending or has been answered exactly once. */
    ghost predicate Valid()
      reads this
    {
      && ValidUtf8(appName) && (callbackURLScheme.Some? ==> ValidScheme(callbackURLScheme.value))
      && (forall action :: ValidUtf8(describe(action)))
      && requests.Keys <= registered
      && (forall id :: id in requests ==> requests[id].id == id)
      && forall id :: Times(answers, id) == if id in registered && id !in requests then 1 else 0
    }

    constructor (appName: Text, describe: Text -> Text, callbackURLScheme: Option<Text>)
      requires ValidUtf8(appName) && (callbackURLScheme.Some? ==> ValidScheme(callbackURLScheme.value))
      requires forall action :: ValidUtf8(describe(action))
      ensures Valid() && requests == map[] && registered == {} && answers == [] && actions == {}
      ensures this.appName == appName && this.callbackURLScheme == callbackURLScheme
    {
      this.appName, this.describe, this.callbackURLScheme := appName, describe, callbackURLScheme;
      actions, requests, registered, answers := {}, map[], {}, [];
    }

    /** The `subscript` setter. */
    method SetAction(action: Text, handler: bool)
      modifies this`actions
      ensures forall a: Text :: a in actions <==> if a == action then handler else a in old(actions)
    {
      actions := if handler then actions + {action} else actions - {action};
    }

    /** The parameters that tell the other side where to answer. */
    method ProtocolQuery(request: Request) returns (query: Dictionary)
      requires Valid() && ValidRequest(request)
      ensures IsProtocolQuery(query, callbackURLScheme, appName, request)
    {
      query := map[XCU_SOURCE := appName];
      SourceOnly(appName);
      if callbackURLScheme.None? {
        return;
      }
      var types := request.ResponseTypes();
      for i := 0 to |types|
        invariant NamesSource(query, appName)
        invariant HasAll(query, callbackURLScheme.value, request.id, types[..i])
      {
        var u := CallbackUrl(callbackURLScheme.value, request.id, types[i]);
        AddSource(query, appName, u, types[i]);
        AddToAll(query, u, callbackURLScheme.value, request.id, types, i);
        query := query[types[i].Key() := Print(u)];
      }
      assert types[..|types|] == types;
    }

    method Send(request: Request, appInstalled: bool) returns (r: SendResult, ghost query: Dictionary)
      requires Valid() && ValidRequest(request) && request.id !in registered
      modifies this`requests, this`registered
      ensures Valid()
      ensures r.Sent? <==> appInstalled && (callbackURLScheme.Some? || !request.HasCallback())
      ensures r.Sent? ==> IsRequest(r.url, request, query)
                          && IsProtocolQuery(query, callbackURLScheme, appName, request)
      ensures r == AppNotInstalled <==> !appInstalled
      ensures r == SchemeNotDefined <==> appInstalled && callbackURLScheme.None? && request.HasCallback()
      ensures requests == if appInstalled && callbackURLScheme.Some? && request.HasCallback()
                          then old(requests)[request.id := request] else old(requests)
      ensures registered == if appInstalled && callbackURLScheme.Some? && request.HasCallback()
                            then old(registered) + {request.id} else old(registered)
    {
      query := map[];
      if !appInstalled {
        return AppNotInstalled, query;
      }
      var added := ProtocolQuery(request);
      query := added;
      if callbackURLScheme.Some? {
        if request.HasCallback() {
          requests := requests[request.id := request];
          registered := registered + {request.id};
        }
      } else if request.HasCallback() {
        return SchemeNotDefined, query;
      }
      var url := RequestUrl(request, added);
      r := Sent(url);
    }

    /** `handleOpen(url:)`; `reply` is the error reply to an unknown action. */
    method HandleOpen(url: Url) returns (handled: bool, effect: Effect, reply: Option<Url>)
      requires Valid()
      modifies this`requests, this`answers
      ensures Valid()
      ensures effect == Handle(callbackURLScheme, old(requests), actions, url)
      ensures handled <==> effect != Ignored
      ensures requests == if effect.Answered? then old(requests) - {effect.id} else old(requests)
      ensures answers == if effect.Answered? then old(answers) + [(effect.id, effect.answer)] else old(answers)
      ensures reply.Some? <==> effect.Refused?
      ensures effect.Refused? ==>
        Extends(reply.value, effect.callback, ErrorParameters(1, describe(effect.action)))
    {
      reply := None;
      if Some(url.scheme) != callbackURLScheme || url.host != XCU_HOST {
        return false, Ignored, None;
      }
      var action := ActionOf(url);
      var parameters := map[];
      if url.query.Some? {
        parameters := ToQueryDictionary(url.query.value);
      }
      var actionParameters := ActionParameters(parameters);
      if action == RESPONSE {
        effect := HandleAnswer(parameters, actionParameters);
      } else if action in actions {
        effect := Dispatched(action, actionParameters, parameters);
      } else {
        var callback := CallbackIn(parameters, ErrorType);
        if callback.None? {
          return false, Ignored, None;
        }
        effect := Refused(action, callback.value);
        var error := ErrorReply(callback.value, NOT_SUPPORTED_ACTION, describe(action));
        reply := Some(error);
      }
      handled := effect != Ignored;
    }

    /** The response branch of `handleOpen`. */
    method HandleAnswer(parameters: Dictionary, actionParameters: Dictionary) returns (effect: Effect)
      requires Valid() && actionParameters == ActionParameters(parameters)
      modifies this`requests, this`answers
      ensures Valid()
      ensures effect == HandleResponse(old(requests), parameters)
      ensures requests == if effect.Answered? then old(requests) - {effect.id} else old(requests)
      ensures answers == if effect.Answered? then old(answers) + [(effect.id, effect.answer)] else old(answers)
    {
      if REQUEST_ID !in parameters || parameters[REQUEST_ID] !in requests {
        return Ignored;
      }
      var id := parameters[REQUEST_ID];
      var t := if RESPONSE_TYPE in parameters then ParseResponseType(parameters[RESPONSE_TYPE]) else None;
      if t.None? {
        return Unanswered;
      }
      var answer :=
        match t.value
        case SuccessType => Succeeded(actionParameters)
        case ErrorType => FailedWith(parameters)
        case CancelType => Cancelled;
      effect := Answered(id, answer);
      ghost var before := answers;
      answers := answers + [(id, answer)];
      requests := requests - {id};
      forall other
        ensures Times(answers, other) == if other in registered && other !in requests then 1 else 0
      {
        TimesSnoc(before, (id, answer), other);
      }
    }

    /** A run: requests are sent and URLs are handed over, in any order. */
    method Run(events: seq<Event>)
      requires Valid()
      requires forall i :: 0 <= i < |events| && events[i].Sending? ==>
        ValidRequest(events[i].request) && events[i].request.id !in registered
      requires forall i, j :: 0 <= i < j < |events| && events[i].Sending? && events[j].Sending? ==>
        events[i].request.id != events[j].request.id
      modifies this`requests, this`registered, this`answers
      ensures Valid()
      ensures forall i {:trigger events[i]} :: 0 <= i < |events| && events[i].Registers(callbackURLScheme) ==>
        var id := events[i].request.id;
        Times(answers, id) == if id in requests then 0 else 1
    {
      for k := 0 to |events|
        invariant Valid()
        invariant forall i :: k <= i < |events| && events[i].Sending? ==> events[i].request.id !in registered
        invariant forall i :: 0 <= i < k && events[i].Registers(callbackURLScheme) ==>
          events[i].request.id in registered
      {
        match events[k] {
          case Sending(request, appInstalled) =>
            var r;
            ghost var query;
            r, query := Send(request, appInstalled);
          case Opening(url) =>
            var handled, effect, reply := HandleOpen(url);
        }
      }
    }
  }

  datatype Event = Sending(request: Request, appInstalled: bool) | Opening(url: Url) {
    /** A request that is kept for an answer. */
    predicate Registers(scheme: Option<Text>) {
      Sending? && appInstalled && scheme.Some? && request.HasCallback()
    }
  }

  ghost predicate HasCallback(q: Dictionary, scheme: Text, id: Text, t: ResponseType) {
    CallbackIn(q, t).Some? && IsCallback(CallbackIn(q, t).value, scheme, id, t)
  }

  ghost predicate HasAll(q: Dictionary, scheme: Text, id: Text, types: seq<ResponseType>) {
    forall t: ResponseType :: t in types ==> HasCallback(q, scheme, id, t)
  }

  lemma AddToAll(q: Dictionary, u: Url, scheme: Text, id: Text, types: seq<ResponseType>, i: nat)
    requires i < |types| && IsCallback(u, scheme, id, types[i]) && HasAll(q, scheme, id, types[..i])
    ensures HasAll(q[types[i].Key() := Print(u)], scheme, id, types[..i + 1])
  {
    AddCallback(q, u, scheme, id, types[i]);
    TakeSnoc(types, i);
  }

  ghost predicate NamesSource(q: Dictionary, appName: Text) {
    && ValidDictionary(q) && XCU_SOURCE in q && q[XCU_SOURCE] == appName
    && forall k :: k in q ==> IsXcuKey(k)
  }

  lemma SourceOnly(appName: Text)
    requires ValidUtf8(appName)
    ensures NamesSource(map[XCU_SOURCE := appName], appName)
  {
    Words();
    SourceValid();
  }

  lemma KeyWords(t: ResponseType)
    ensures t.Key() != XCU_SOURCE && IsXcuKey(t.Key()) && ValidUtf8(t.Key())
  {
    Words();
    ResponseTypeValid(t);
  }

  lemma AddSource(q: Dictionary, appName: Text, u: Url, t: ResponseType)
    requires NamesSource(q, appName) && WellFormed(u)
    ensures NamesSource(q[t.Key() := Print(u)], appName)
  {
    PrintUtf8(u);
    KeyWords(t);
  }

  lemma KeysDiffer(t: ResponseType, s: ResponseType)
    ensures t.Key() == s.Key() <==> t == s
  {
    Words();
  }

  /** One more callback joins the query; the others stay. */
  lemma AddCallback(q: Dictionary, u: Url, scheme: Text, id: Text, t: ResponseType)
    requires IsCallback(u, scheme, id, t)
    ensures HasCallback(q[t.Key() := Print(u)], scheme, id, t)
    ensures forall s: ResponseType :: HasCallback(q, scheme, id, s) ==>
      HasCallback(q[t.Key() := Print(u)], scheme, id, s)
  {
    UrlRoundTrip(u);
    forall s: ResponseType | s != t
      ensures CallbackIn(q[t.Key() := Print(u)], s) == CallbackIn(q, s)
    {
      KeysDiffer(t, s);
    }
  }

  method ErrorReply(callback: Url, code: Int64, message: Text) returns (u: Url)
    requires ValidUtf8(message)
    ensures Extends(u, callback, ErrorParameters(code, message))
  {
    ErrorKeysValid();
    IntRoundTrip(code);
    AsciiIsUtf8(PrintInt(code));
    var add := QueryString(ErrorParameters(code, message));
    u := AddToQuery(callback, add);
  }

  /**
   The request travels as text to `other`, whose handler is given the action and its parameters and
   finds in it where to answer.
   */
  method FirstHop(manager: Manager, other: Manager, request: Request) returns (effect: Effect)
    requires manager != other && manager.Valid() && other.Valid()
    requires ValidRequest(request) && request.id !in manager.registered && request.onSuccess
    requires manager.callbackURLScheme.Some? && other.callbackURLScheme == Some(request.urlScheme)
    requires Received(request.action) in other.actions && Received(request.action) != RESPONSE
    modifies manager`requests, manager`registered, other`requests, other`answers
    ensures manager.Valid() && other.Valid()
    ensures manager.requests == old(manager.requests)[request.id := request]
    ensures effect.Dispatched? && effect.action == Received(request.action)
    ensures Returnable(request.parameters) ==>
      effect.actionParameters == request.parameters[XCU_SOURCE := manager.appName]
    ensures HasCallback(effect.parameters, manager.callbackURLScheme.value, request.id, SuccessType)
  {
    var r;
    ghost var query;
    r, query := manager.Send(request, true);
    RequestRoundTrip(r.url, request, query, manager.callbackURLScheme, manager.appName, other.requests, other.actions);
    var arrived := Parse(Print(r.url)).value;
    var handled, refusal;
    handled, effect, refusal := other.HandleOpen(arrived);
    assert request.Wants(SuccessType);
    CallbackSurvives(arrived, request, query, SuccessType);
  }

  /** The answer travels back as text. */
  method SecondHop(manager: Manager, id: Text, parameters: Dictionary, returned: Dictionary)
    requires manager.Valid() && id in manager.requests && manager.callbackURLScheme.Some?
    requires HasCallback(parameters, manager.callbackURLScheme.value, id, SuccessType)
    requires ValidDictionary(returned) && Returnable(returned)
    modifies manager`requests, manager`answers
    ensures manager.Valid() && manager.requests == old(manager.requests) - {id}
    ensures manager.answers == old(manager.answers) + [(id, Succeeded(returned))]
  {
    var reply := Reply(parameters, returned, manager.callbackURLScheme.value, id, manager.requests, manager.actions);
    Deliver(manager, id, Print(reply), returned);
  }

  method Deliver(manager: Manager, id: Text, url: Text, returned: Dictionary)
    requires manager.Valid() && Parse(url).Some?
    requires Handle(manager.callbackURLScheme, manager.requests, manager.actions, Parse(url).value)
             == Answered(id, Succeeded(returned))
    modifies manager`requests, manager`answers
    ensures manager.Valid() && manager.requests == old(manager.requests) - {id}
    ensures manager.answers == old(manager.answers) + [(id, Succeeded(returned))]
  {
    var handled, effect, refusal := manager.HandleOpen(Parse(url).value);
  }

  /** What the handler's success closure opens. */
  method Reply(parameters: Dictionary, returned: Dictionary, ghost scheme: Text, ghost id: Text,
               ghost requests: map<Text, Request>, ghost actions: set<Text>)
    returns (reply: Url)
    requires HasCallback(parameters, scheme, id, SuccessType) && id in requests
    requires ValidDictionary(returned) && Returnable(returned)
    ensures Parse(Print(reply)) == Some(reply)
    ensures Handle(Some(scheme), requests, actions, reply) == Answered(id, Succeeded(returned))
  {
    var url := OpenCallback(parameters, SuccessType, Some(returned));
    reply := url.value;
    SuccessReplyIff(CallbackIn(parameters, SuccessType).value, scheme, id, reply, returned, requests, actions);
  }

  lemma AddAndRemove<K, V>(m: map<K, V>, k: K, v: V)
    requires k !in m
    ensures m[k := v] - {k} == m
  {
  }

  /** A whole exchange between two apps: the request is answered with exactly what was returned. */
  method Exchange(manager: Manager, other: Manager, request: Request, returned: Dictionary)
    requires manager != other && manager.Valid() && other.Valid()
    requires ValidRequest(request) && request.id !in manager.registered && request.onSuccess
    requires manager.callbackURLScheme.Some? && other.callbackURLScheme == Some(request.urlScheme)
    requires Received(request.action) in other.actions && Received(request.action) != RESPONSE
    requires ValidDictionary(returned) && Returnable(returned)
    modifies manager`requests, manager`registered, manager`answers, other`requests, other`answers
    ensures manager.Valid() && other.Valid()
    ensures manager.answers == old(manager.answers) + [(request.id, Succeeded(returned))]
    ensures manager.requests == old(manager.requests)
  {
    AddAndRemove(manager.requests, request.id, request);
    var effect := FirstHop(manager, other, request);
    SecondHop(manager, request.id, effect.parameters, returned);
  }
}
