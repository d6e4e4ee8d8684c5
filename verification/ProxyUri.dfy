/** Printing a proxy as an `ss://` or `ssr://` link and reading such links. */
module ProxyUri {
  import opened Bytes
  import opened Strings
  import opened Base64

  datatype ProxyType = Shadowsocks | ShadowsocksR | Unprintable

  datatype ProxyError = InvalidName | InvalidUri | InvalidPort

  /** What printing and reading can end in; `Trap` is a forced unwrap of nil. */
  datatype Result<+T> = Ok(value: T) | Err(error: ProxyError) | Trap

  /** The stored properties of a proxy that links carry. */
  datatype Fields = Fields(
    typ: ProxyType, name: Text, host: Text, port: Int64, authscheme: Option<Text>, password: Option<Text>,
    ota: bool, ssrProtocol: Option<Text>, ssrProtocolParam: Option<Text>, ssrObfs: Option<Text>,
    ssrObfsParam: Option<Text>, group: Option<Text>)

  const NEW: Fields := Fields(Shadowsocks, [], [], 0, None, None, false, None, None, None, None, None)

  const SS_URI_PREFIX: Text := Ascii("ss://")
  const SSR_URI_PREFIX: Text := Ascii("ssr://")
  const OTA_SUFFIX: Text := Ascii("-auth")
  const OBFSPARAM: Text := Ascii("obfsparam")
  const PROTOPARAM: Text := Ascii("protoparam")
  const REMARKS: Text := Ascii("remarks")
  const GROUP: Text := Ascii("group")

  // ----- printing -----

  function SsText(scheme: Text, password: Text, host: Text, port: Text): Text {
    scheme + [COLON] + (password + [AT] + (host + [COLON] + port))
  }

  function HostComps(p: Fields): (r: seq<Text>)
    requires p.ssrProtocol.Some? && p.authscheme.Some? && p.ssrObfs.Some? && p.password.Some?
    ensures |r| == 6
  {
    [p.host, PrintInt(p.port), p.ssrProtocol.value, p.authscheme.value, p.ssrObfs.value, LinkText(p.password.value)]
  }

  function QueryComp(key: Text, value: Text): Text {
    Join([key, LinkText(value)], EQUALS)
  }

  function QueryComps(p: Fields): (r: seq<Text>)
    requires p.ssrObfsParam.Some? && p.ssrProtocolParam.Some? && p.group.Some?
    ensures |r| == 4
  {
    [QueryComp(OBFSPARAM, p.ssrObfsParam.value), QueryComp(PROTOPARAM, p.ssrProtocolParam.value),
     QueryComp(REMARKS, p.name), QueryComp(GROUP, p.group.value)]
  }

  predicate SsrComplete(p: Fields) {
    && p.ssrProtocol.Some? && p.authscheme.Some? && p.ssrObfs.Some? && p.password.Some?
    && p.ssrObfsParam.Some? && p.ssrProtocolParam.Some? && p.group.Some?
  }

  function SsrText(p: Fields): Text
    requires SsrComplete(p)
  {
    Join(HostComps(p), COLON) + [SLASH] + ([QUESTION] + Join(QueryComps(p), AMPERSAND))
  }

  /** `Uri()`: an incomplete proxy prints as the empty string. */
  function Uri(p: Fields): Result<Text> {
    match p.typ
    case Shadowsocks =>
      if p.authscheme.None? || p.password.None? then Ok([])
      else
        var text := SsText(p.authscheme.value, p.password.value, p.host, PrintInt(p.port));
        if IsAscii(text) then Ok(SS_URI_PREFIX + Encode(text)) else Ok([])
    case ShadowsocksR =>
      if !SsrComplete(p) then Ok([])
      else if !IsAscii(p.password.value) || !IsAscii(p.ssrObfsParam.value) || !IsAscii(p.ssrProtocolParam.value)
        || !IsAscii(SsrText(p)) then Trap
      else Ok(SSR_URI_PREFIX + LinkText(SsrText(p)))
    case Unprintable => Ok([])
  }

  /** What the ASCII conversions of `Uri()` accept; `name` and `group` may be any text. */
  predicate SsAscii(p: Fields)
    requires p.authscheme.Some? && p.password.Some?
  {
    IsAscii(p.authscheme.value) && IsAscii(p.password.value) && IsAscii(p.host)
  }

  predicate SsrAscii(p: Fields)
    requires SsrComplete(p)
  {
    && IsAscii(p.host) && IsAscii(p.ssrProtocol.value) && IsAscii(p.authscheme.value) && IsAscii(p.ssrObfs.value)
    && IsAscii(p.password.value) && IsAscii(p.ssrObfsParam.value) && IsAscii(p.ssrProtocolParam.value)
  }

  lemma AsciiConcat(a: Text, b: Text)
    ensures IsAscii(a + b) <==> IsAscii(a) && IsAscii(b)
  {
    var s := a + b;
    assert forall i :: 0 <= i < |a| ==> s[i] == a[i];
    assert forall i :: 0 <= i < |b| ==> s[|a| + i] == b[i];
  }

  lemma {:induction false} JoinAscii(parts: seq<Text>, sep: Byte)
    requires |parts| >= 1 && sep < 128
    ensures IsAscii(Join(parts, sep)) <==> forall i :: 0 <= i < |parts| ==> IsAscii(parts[i])
  {
    if |parts| > 1 {
      JoinAscii(parts[1..], sep);
      AsciiConcat(parts[0] + [sep], Join(parts[1..], sep));
      AsciiConcat(parts[0], [sep]);
      assert forall i :: 1 <= i < |parts| ==> parts[i] == parts[1..][i - 1];
    }
  }

  lemma SsTextAscii(scheme: Text, password: Text, host: Text, port: Text)
    requires IsAscii(port)
    ensures IsAscii(SsText(scheme, password, host, port)) <==> IsAscii(scheme) && IsAscii(password) && IsAscii(host)
  {
    AsciiConcat(scheme + [COLON], password + [AT] + (host + [COLON] + port));
    AsciiConcat(scheme, [COLON]);
    AsciiConcat(password + [AT], host + [COLON] + port);
    AsciiConcat(password, [AT]);
    AsciiConcat(host + [COLON], port);
    AsciiConcat(host, [COLON]);
  }

  /** The printed text of an `ss://` link: `method:password@host:port`. */
  lemma SsTextIs(p: Fields)
    requires p.authscheme.Some? && p.password.Some?
    ensures SsText(p.authscheme.value, p.password.value, p.host, PrintInt(p.port))
            == p.authscheme.value + Ascii(":") + p.password.value + Ascii("@") + p.host + Ascii(":") + PrintInt(p.port)
  {
    assert Ascii(":") == [58] && Ascii("@") == [64];
  }

  /** An `ss://` link is printed exactly for ASCII fields; anything else prints as nothing. */
  lemma SsPrintsIff(p: Fields)
    requires p.typ == Shadowsocks && p.authscheme.Some? && p.password.Some?
    ensures var text := SsText(p.authscheme.value, p.password.value, p.host, PrintInt(p.port));
            && (SsAscii(p) <==> IsAscii(text))
            && Uri(p) == if SsAscii(p) then Ok(SS_URI_PREFIX + Encode(text)) else Ok([])
  {
    IntRoundTrip(p.port);
    SsTextAscii(p.authscheme.value, p.password.value, p.host, PrintInt(p.port));
  }

  lemma QueryCompAscii(key: Text, value: Text)
    requires IsAscii(key)
    ensures IsAscii(QueryComp(key, value))
  {
    LinkTextPlain(value, COLON);
    JoinAscii([key, LinkText(value)], EQUALS);
  }

  lemma KeysAscii()
    ensures IsAscii(OBFSPARAM) && IsAscii(PROTOPARAM) && IsAscii(REMARKS) && IsAscii(GROUP)
  {
  }

  lemma FourAscii(t: Text, u: Text, v: Text, w: Text)
    requires IsAscii(t) && IsAscii(u) && IsAscii(v) && IsAscii(w)
    ensures IsAscii(Join([t, u, v, w], AMPERSAND))
  {
    JoinAscii([t, u, v, w], AMPERSAND);
  }

  lemma FourCompsAscii(k1: Text, v1: Text, k2: Text, v2: Text, k3: Text, v3: Text, k4: Text, v4: Text)
    requires IsAscii(k1) && IsAscii(k2) && IsAscii(k3) && IsAscii(k4)
    ensures IsAscii(Join([QueryComp(k1, v1), QueryComp(k2, v2), QueryComp(k3, v3), QueryComp(k4, v4)], AMPERSAND))
  {
    QueryCompAscii(k1, v1);
    QueryCompAscii(k2, v2);
    QueryCompAscii(k3, v3);
    QueryCompAscii(k4, v4);
    FourAscii(QueryComp(k1, v1), QueryComp(k2, v2), QueryComp(k3, v3), QueryComp(k4, v4));
  }

  lemma QueryAscii(p: Fields)
    requires SsrComplete(p)
    ensures IsAscii(Join(QueryComps(p), AMPERSAND))
  {
    KeysAscii();
    FourCompsAscii(OBFSPARAM, p.ssrObfsParam.value, PROTOPARAM, p.ssrProtocolParam.value,
                   REMARKS, p.name, GROUP, p.group.value);
  }

  lemma SixAscii(comps: seq<Text>)
    requires |comps| == 6 && IsAscii(comps[1]) && IsAscii(comps[5])
    ensures IsAscii(Join(comps, COLON)) <==>
            IsAscii(comps[0]) && IsAscii(comps[2]) && IsAscii(comps[3]) && IsAscii(comps[4])
  {
    JoinAscii(comps, COLON);
  }

  lemma HostAscii(p: Fields)
    requires SsrComplete(p)
    ensures IsAscii(Join(HostComps(p), COLON)) <==>
            IsAscii(p.host) && IsAscii(p.ssrProtocol.value) && IsAscii(p.authscheme.value) && IsAscii(p.ssrObfs.value)
  {
    IntRoundTrip(p.port);
    LinkTextPlain(p.password.value, COLON);
    SixAscii(HostComps(p));
  }

  lemma SsrTextAscii(p: Fields)
    requires SsrComplete(p)
    ensures IsAscii(SsrText(p)) <==>
            IsAscii(p.host) && IsAscii(p.ssrProtocol.value) && IsAscii(p.authscheme.value) && IsAscii(p.ssrObfs.value)
  {
    HostAscii(p);
    QueryAscii(p);
    PartsAscii(Join(HostComps(p), COLON), Join(QueryComps(p), AMPERSAND));
  }

  lemma PartsAscii(front: Text, query: Text)
    requires IsAscii(query)
    ensures IsAscii(front + [SLASH] + ([QUESTION] + query)) <==> IsAscii(front)
  {
    AsciiConcat(front + [SLASH], [QUESTION] + query);
    AsciiConcat(front, [SLASH]);
    AsciiConcat([QUESTION], query);
  }

  /** The printed text of an `ssr://` link: six parts with colons, then four parameters with their names. */
  lemma SsrTextIs(p: Fields)
    requires SsrComplete(p)
    ensures SsrText(p)
            == p.host + [58] + (PrintInt(p.port) + [58] + (p.ssrProtocol.value + [58] + (p.authscheme.value + [58]
               + (p.ssrObfs.value + [58] + LinkText(p.password.value))))) + Ascii("/") + (Ascii("?")
               + (QueryComp(Ascii("obfsparam"), p.ssrObfsParam.value) + [38]
               + (QueryComp(Ascii("protoparam"), p.ssrProtocolParam.value) + [38]
               + (QueryComp(Ascii("remarks"), p.name) + [38] + QueryComp(Ascii("group"), p.group.value)))))
  {
    JoinSix(p.host, PrintInt(p.port), p.ssrProtocol.value, p.authscheme.value, p.ssrObfs.value,
            LinkText(p.password.value), COLON);
    JoinFour(QueryComp(OBFSPARAM, p.ssrObfsParam.value), QueryComp(PROTOPARAM, p.ssrProtocolParam.value),
             QueryComp(REMARKS, p.name), QueryComp(GROUP, p.group.value), AMPERSAND);
    assert Ascii("/") == [SLASH] && Ascii("?") == [QUESTION];
  }

  lemma QueryCompIs(key: Text, value: Text)
    ensures QueryComp(key, value) == key + [61] + LinkText(value)
  {
    assert [key, LinkText(value)] == [key] + [LinkText(value)];
    JoinOneMore(key, [LinkText(value)], EQUALS);
  }

  lemma JoinFour(t: Text, u: Text, v: Text, w: Text, c: Byte)
    ensures Join([t, u, v, w], c) == t + [c] + (u + [c] + (v + [c] + w))
  {
    assert [t, u, v, w] == [t] + [u, v, w] && [u, v, w] == [u] + [v, w] && [v, w] == [v] + [w];
    JoinOneMore(t, [u, v, w], c);
    JoinOneMore(u, [v, w], c);
    JoinOneMore(v, [w], c);
  }

  lemma JoinSix(r: Text, s: Text, t: Text, u: Text, v: Text, w: Text, c: Byte)
    ensures Join([r, s, t, u, v, w], c) == r + [c] + (s + [c] + (t + [c] + (u + [c] + (v + [c] + w))))
  {
    assert [r, s, t, u, v, w] == [r] + [s, t, u, v, w] && [s, t, u, v, w] == [s] + [t, u, v, w];
    JoinOneMore(r, [s, t, u, v, w], c);
    JoinOneMore(s, [t, u, v, w], c);
    JoinFour(t, u, v, w, c);
  }

  lemma JoinOneMore(t: Text, parts: seq<Text>, c: Byte)
    requires |parts| >= 1
    ensures Join([t] + parts, c) == t + [c] + Join(parts, c)
  {
    assert ([t] + parts)[1..] == parts;
  }

  /** A complete `ssr://` link is printed exactly for ASCII fields; anything else traps. */
  lemma SsrPrintsIff(p: Fields)
    requires p.typ == ShadowsocksR && SsrComplete(p)
    ensures SsrAscii(p) ==> IsAscii(SsrText(p))
    ensures Uri(p) == if SsrAscii(p) then Ok(SSR_URI_PREFIX + LinkText(SsrText(p))) else Trap
  {
    SsrTextAscii(p);
  }

  // ----- reading -----

  function ReadSs(p: Fields, text: Text): Result<Fields> {
    var pc1, pc2, pcm := Find(text, COLON), FindLast(text, COLON), FindLast(text, AT);
    if pc1.None? || pc2.None? || pcm.None? then Err(InvalidUri)
    else if pc1.value < pcm.value < pc2.value then
      ReadSsParts(p, Lower(text)[..pc1.value], text[pc1.value + 1..pcm.value], text[pcm.value + 1..pc2.value],
                  text[pc2.value + 1..])
    else Err(InvalidUri)
  }

  function ReadSsParts(p: Fields, full: Text, password: Text, host: Text, port: Text): Result<Fields> {
    var ota := FindLastText(full, OTA_SUFFIX);
    match ParseInt(port)
    case None => Err(InvalidPort)
    case Some(number) =>
      Ok(p.(typ := Shadowsocks, authscheme := Some(Before(full, ota)), ota := p.ota || ota.Some?,
            password := Some(password), host := host, port := number))
  }

  /** What one `key=value` of the query sets; a name that does not decode traps. */
  function ReadQueryComp(p: Fields, comp: Text): Result<Fields> {
    var comps := Split(comp, EQUALS);
    if |comps| != 2 then Ok(p)
    else if comps[0] == OBFSPARAM then Ok(p.(ssrObfsParam := DecodeIfNeeded(comps[1])))
    else if comps[0] == PROTOPARAM then Ok(p.(ssrProtocolParam := DecodeIfNeeded(comps[1])))
    else if comps[0] == REMARKS then
      match DecodeIfNeeded(comps[1])
      case None => Trap
      case Some(name) => Ok(p.(name := name))
    else if comps[0] == GROUP then Ok(p.(group := DecodeIfNeeded(comps[1])))
    else Ok(p)
  }

  function ReadQuery(p: Fields, comps: seq<Text>): Result<Fields> {
    if comps == [] then Ok(p)
    else
      match ReadQuery(p, comps[..|comps| - 1])
      case Ok(q) => ReadQueryComp(q, comps[|comps| - 1])
      case other => other
  }

  /** The host section: up to the last "?", and then up to the last "/". */
  function SsrHosts(text: Text): Text {
    var hosts := Before(text, FindLast(text, QUESTION));
    Before(hosts, FindLast(hosts, SLASH))
  }

  function SsrQuery(text: Text): Text {
    var mark := FindLast(text, QUESTION);
    if mark.Some? then text[mark.value + 1..] else []
  }

  function ReadSsr(p: Fields, text: Text): Result<Fields> {
    ReadSsrParts(p, Split(SsrHosts(text), COLON), Split(SsrQuery(text), AMPERSAND))
  }

  function HostFields(p: Fields, comps: seq<Text>, port: Int64): Fields
    requires |comps| == 6
  {
    p.(host := comps[0], port := port, ssrProtocol := Some(comps[2]), authscheme := Some(comps[3]),
       ssrObfs := Some(comps[4]), password := DecodeIfNeeded(comps[5]))
  }

  function ReadSsrParts(p: Fields, comps: seq<Text>, query: seq<Text>): Result<Fields> {
    if |comps| != 6 then Err(InvalidUri)
    else
      match ParseInt(comps[1])
      case None => Err(InvalidPort)
      case Some(port) =>
        match ReadQuery(HostFields(p, comps, port), query)
        case Ok(r) => Ok(r.(typ := ShadowsocksR))
        case other => other
  }

  /** The URI branches of `init(dictionary:inRealm:)`. */
  function ReadUri(uri: Text, name: Option<Text>): Result<Fields> {
    if name.None? then Err(InvalidName)
    else
      var p := NEW.(name := name.value);
      if SS_URI_PREFIX <= Lower(uri) then
        match DecodeIfNeeded(uri[|SS_URI_PREFIX|..])
        case None => Err(InvalidUri)
        case Some(text) => ReadSs(p, text)
      else if SSR_URI_PREFIX <= Lower(uri) then
        match DecodeIfNeeded(uri[|SSR_URI_PREFIX|..])
        case None => Err(InvalidUri)
        case Some(text) => if COLON in text then ReadSsr(p, text) else Err(InvalidUri)
      else Err(InvalidUri)
  }

  // ----- ss:// -----

  /** The three ways to cut a link's text in two. */
  lemma SsForms(scheme: Text, password: Text, host: Text, port: Text)
    ensures var text := SsText(scheme, password, host, port);
      && text == scheme + [COLON] + (password + [AT] + (host + [COLON] + port))
      && text == (scheme + [COLON] + password) + [AT] + (host + [COLON] + port)
      && text == (scheme + [COLON] + password + [AT] + host) + [COLON] + port
  {
  }

  lemma SsFirstColon(scheme: Text, password: Text, host: Text, port: Text)
    ensures var pc1 := Find(SsText(scheme, password, host, port), COLON);
            pc1.Some? && pc1.value <= |scheme| && (pc1.value == |scheme| <==> COLON !in scheme)
  {
    var text, rest := SsText(scheme, password, host, port), password + [AT] + (host + [COLON] + port);
    Around(scheme, COLON, rest);
    if COLON !in scheme {
      FindSplits(scheme, COLON, rest);
    } else {
      var i :| 0 <= i < |scheme| && scheme[i] == COLON;
      assert text[..|scheme|][i] == COLON;
    }
  }

  lemma SsLastAt(scheme: Text, password: Text, host: Text, port: Text)
    requires COLON !in port && AT !in port
    ensures var pcm, user := FindLast(SsText(scheme, password, host, port), AT), |scheme| + 1 + |password|;
            pcm.Some? && user <= pcm.value <= user + |host| && (pcm.value == user <==> AT !in host)
  {
    SsForms(scheme, password, host, port);
    var user, place := scheme + [COLON] + password, host + [COLON] + port;
    var text := user + [AT] + place;
    Around(user, AT, place);
    Around(host, COLON, port);
    if AT !in host {
      FindLastSplits(user, AT, place);
    } else {
      var i :| 0 <= i < |host| && host[i] == AT;
      assert place[..|host|][i] == AT && text[|user| + 1..][i] == AT;
      forall k | |user| + 1 + |host| <= k < |text|
        ensures text[k] != AT
      {
        NoAtBehind(user, host, port, k);
      }
    }
  }

  lemma NoAtBehind(user: Text, host: Text, number: Text, k: nat)
    requires AT !in number && |user| + 1 + |host| <= k < |user| + |host| + |number| + 2
    ensures (user + [AT] + (host + [COLON] + number))[k] != AT
  {
    var place := host + [COLON] + number;
    Around(user, AT, place);
    Around(host, COLON, number);
    assert (user + [AT] + place)[|user| + 1..][k - |user| - 1] == place[k - |user| - 1];
    if k > |user| + 1 + |host| {
      assert place[|host| + 1..][k - |user| - |host| - 2] == place[k - |user| - 1];
    }
  }

  lemma SsLastColon(scheme: Text, password: Text, host: Text, port: Text)
    requires COLON !in port && AT !in port
    ensures FindLast(SsText(scheme, password, host, port), COLON) == Some(|scheme| + 1 + |password| + 1 + |host|)
  {
    SsForms(scheme, password, host, port);
    FindLastSplits(scheme + [COLON] + password + [AT] + host, COLON, port);
  }

  lemma SsSlices(scheme: Text, password: Text, host: Text, port: Text)
    ensures var text, user := SsText(scheme, password, host, port), |scheme| + 1 + |password|;
      && text[..|scheme|] == scheme
      && text[|scheme| + 1..user] == password
      && text[user + 1..user + 1 + |host|] == host
      && text[user + 1 + |host| + 1..] == port
  {
    var text, user := SsText(scheme, password, host, port), scheme + [COLON] + password;
    SsForms(scheme, password, host, port);
    Around(scheme, COLON, password + [AT] + (host + [COLON] + port));
    Around(user, AT, host + [COLON] + port);
    Around(scheme, COLON, password);
    Around(user + [AT] + host, COLON, port);
    Around(user, AT, host);
    assert text[|scheme| + 1..|user|] == text[..|user|][|scheme| + 1..];
    assert text[|user| + 1..|user| + 1 + |host|] == text[..|user| + 1 + |host|][|user| + 1..];
  }

  lemma LowerTake(text: Text, n: nat)
    requires n <= |text|
    ensures Lower(text)[..n] == Lower(text[..n])
  {
  }

  /** What a printed link can carry. */
  predicate SsPrintable(scheme: Text, host: Text) {
    COLON !in scheme && AT !in host && Lower(scheme) == scheme && FindLastText(scheme, OTA_SUFFIX).None?
  }

  /**
   Reading a printed `ss://` link gives the proxy back exactly when its method is lower case and
   contains neither a colon nor "-auth", and its host contains no "@"; the password may contain both.
   */
  lemma SsRoundTripIff(p: Fields, name: Text)
    requires p.typ == Shadowsocks && p.authscheme.Some? && p.password.Some? && SsAscii(p)
    ensures Uri(p).Ok?
    ensures ReadUri(Uri(p).value, Some(name))
            == Ok(NEW.(name := name, typ := Shadowsocks, authscheme := p.authscheme, password := p.password,
                       host := p.host, port := p.port))
            <==> SsPrintable(p.authscheme.value, p.host)
  {
    PrintedSs(p, name);
    ReadSsIff(NEW.(name := name), p.authscheme.value, p.password.value, p.host, p.port);
  }

  /** `at` is the place where `part` stands last in `s`, if it stands there at all. */
  ghost predicate StandsLast(s: Text, at: Option<nat>, part: Text) {
    match at
    case None => forall j: nat :: !StandsAt(s, j, part)
    case Some(i) => StandsAt(s, i, part) && forall j: nat :: StandsAt(s, j, part) ==> j <= i
  }

  /**
   What reading a printed `ss://` link gives whenever its method has no colon and its host no "@":
   the method in lower case, cut before its last "-auth", which turns one-time authentication on.
   */
  lemma SsReads(p: Fields, name: Text, ota: Option<nat>)
    requires p.typ == Shadowsocks && p.authscheme.Some? && p.password.Some? && SsAscii(p)
    requires COLON !in p.authscheme.value && AT !in p.host
    requires StandsLast(Lower(p.authscheme.value), ota, [45, 97, 117, 116, 104])
    ensures Uri(p).Ok?
    ensures ReadUri(Uri(p).value, Some(name))
            == Ok(NEW.(name := name, typ := Shadowsocks, password := p.password, host := p.host, port := p.port,
                       authscheme := Some(Before(Lower(p.authscheme.value), ota)), ota := ota.Some?))
  {
    PrintedSs(p, name);
    IntRoundTrip(p.port);
    ReadSsCut(NEW.(name := name), p.authscheme.value, p.password.value, p.host, PrintInt(p.port));
    ReadSsMethod(NEW.(name := name), Lower(p.authscheme.value), p.password.value, p.host, p.port, ota);
  }

  /** A printed link is read as the text in it. */
  lemma PrintedSs(p: Fields, name: Text)
    requires p.typ == Shadowsocks && p.authscheme.Some? && p.password.Some? && SsAscii(p)
    ensures Uri(p).Ok?
    ensures ReadUri(Uri(p).value, Some(name)) == ReadSs(NEW.(name := name),
              SsText(p.authscheme.value, p.password.value, p.host, PrintInt(p.port)))
  {
    var text := SsText(p.authscheme.value, p.password.value, p.host, PrintInt(p.port));
    SsPrintsIff(p);
    AsciiIsUtf8(text);
    EncodeRoundTrip(text);
    SsPrefix(Encode(text));
    ReadUriSs(SS_URI_PREFIX + Encode(text), name, text);
  }

  lemma ReadSsMethod(p: Fields, full: Text, password: Text, host: Text, port: Int64, ota: Option<nat>)
    requires !p.ota && StandsLast(full, ota, [45, 97, 117, 116, 104])
    ensures ota.Some? ==> ota.value <= |full|
    ensures ReadSsParts(p, full, password, host, PrintInt(port))
            == Ok(p.(typ := Shadowsocks, password := Some(password), host := host, port := port,
                     authscheme := Some(Before(full, ota)), ota := ota.Some?))
  {
    IntRoundTrip(port);
    assert OTA_SUFFIX == [45, 97, 117, 116, 104];
    StandsLastIs(full, ota, OTA_SUFFIX);
  }

  lemma StandsLastIs(s: Text, at: Option<nat>, part: Text)
    requires StandsLast(s, at, part)
    ensures FindLastText(s, part) == at
  {
    if at.Some? {
      FindTextLast(s, part, |s| + 1, at.value);
    }
  }

  lemma ReadUriSs(uri: Text, name: Text, text: Text)
    requires SS_URI_PREFIX <= Lower(uri) && DecodeIfNeeded(uri[|SS_URI_PREFIX|..]) == Some(text)
    ensures ReadUri(uri, Some(name)) == ReadSs(NEW.(name := name), text)
  {
  }

  lemma SsPrefix(rest: Text)
    ensures SS_URI_PREFIX <= Lower(SS_URI_PREFIX + rest) && (SS_URI_PREFIX + rest)[|SS_URI_PREFIX|..] == rest
  {
  }

  lemma ReadSsIff(p: Fields, scheme: Text, password: Text, host: Text, port: Int64)
    requires !p.ota
    ensures ReadSs(p, SsText(scheme, password, host, PrintInt(port)))
            == Ok(p.(typ := Shadowsocks, authscheme := Some(scheme), password := Some(password), host := host,
                     port := port))
            <==> SsPrintable(scheme, host)
  {
    IntRoundTrip(port);
    if COLON !in scheme && AT !in host {
      ReadSsCut(p, scheme, password, host, PrintInt(port));
    } else {
      ReadSsMiscut(p, scheme, password, host, PrintInt(port));
    }
  }

  lemma ReadSsCut(p: Fields, scheme: Text, password: Text, host: Text, port: Text)
    requires COLON !in scheme && AT !in host && COLON !in port && AT !in port
    ensures ReadSs(p, SsText(scheme, password, host, port))
            == ReadSsParts(p, Lower(scheme), password, host, port)
  {
    SsPlaces(scheme, password, host, port);
    SsSlices(scheme, password, host, port);
    ReadSsFrom(p, SsText(scheme, password, host, port), scheme, password, host, port, |scheme| + 1 + |password|);
  }

  lemma SsPlaces(scheme: Text, password: Text, host: Text, port: Text)
    requires COLON !in scheme && AT !in host && COLON !in port && AT !in port
    ensures var text, user := SsText(scheme, password, host, port), |scheme| + 1 + |password|;
      && Find(text, COLON) == Some(|scheme|) && FindLast(text, AT) == Some(user)
      && FindLast(text, COLON) == Some(user + 1 + |host|)
  {
    SsFirstColon(scheme, password, host, port);
    SsLastAt(scheme, password, host, port);
    SsLastColon(scheme, password, host, port);
  }

  lemma ReadSsFrom(p: Fields, text: Text, scheme: Text, password: Text, host: Text, port: Text, user: nat)
    requires user == |scheme| + 1 + |password|
    requires Find(text, COLON) == Some(|scheme|) && FindLast(text, AT) == Some(user)
    requires FindLast(text, COLON) == Some(user + 1 + |host|)
    requires text[..|scheme|] == scheme && text[|scheme| + 1..user] == password
    requires user + 1 + |host| < |text| && text[user + 1..user + 1 + |host|] == host
    requires text[user + 1 + |host| + 1..] == port
    ensures ReadSs(p, text) == ReadSsParts(p, Lower(scheme), password, host, port)
  {
    LowerTake(text, |scheme|);
    ReadSsSlices(p, text, |scheme|, user, user + 1 + |host|, Lower(scheme), password, host, port);
  }

  lemma ReadSsSlices(p: Fields, text: Text, pc1: nat, pcm: nat, pc2: nat, full: Text, password: Text, host: Text,
                     port: Text)
    requires Find(text, COLON) == Some(pc1) && FindLast(text, AT) == Some(pcm) && FindLast(text, COLON) == Some(pc2)
    requires pc1 < pcm < pc2 < |text|
    requires Lower(text)[..pc1] == full && text[pc1 + 1..pcm] == password
    requires text[pcm + 1..pc2] == host && text[pc2 + 1..] == port
    ensures ReadSs(p, text) == ReadSsParts(p, full, password, host, port)
  {
    ReadSsAt(p, text, pc1, pcm, pc2);
  }

  lemma ReadSsAt(p: Fields, text: Text, pc1: nat, pcm: nat, pc2: nat)
    requires Find(text, COLON) == Some(pc1) && FindLast(text, AT) == Some(pcm) && FindLast(text, COLON) == Some(pc2)
    requires pc1 < pcm < pc2
    ensures pc2 < |text|
    ensures ReadSs(p, text)
            == ReadSsParts(p, Lower(text)[..pc1], text[pc1 + 1..pcm], text[pcm + 1..pc2], text[pc2 + 1..])
  {
  }

  /** A colon in the method or an "@" in the host moves a cut, and that field comes back shorter. */
  lemma ReadSsMiscut(p: Fields, scheme: Text, password: Text, host: Text, port: Text)
    requires (COLON in scheme || AT in host) && COLON !in port && AT !in port
    ensures var r := ReadSs(p, SsText(scheme, password, host, port));
            r.Ok? ==> |r.value.authscheme.value| < |scheme| || |r.value.host| < |host|
  {
    SsFirstColon(scheme, password, host, port);
    SsLastAt(scheme, password, host, port);
    SsLastColon(scheme, password, host, port);
  }

  // ----- ssr:// -----

  /** The parts that a link separates with colons, other than the encoded password. */
  predicate SsrPrintable(p: Fields)
    requires SsrComplete(p)
  {
    COLON !in p.host && COLON !in p.ssrProtocol.value && COLON !in p.authscheme.value && COLON !in p.ssrObfs.value
  }

  lemma KeyLacks(c: Byte)
    requires c == AMPERSAND || c == EQUALS || c == QUESTION || c == COLON
    ensures c !in OBFSPARAM && c !in PROTOPARAM && c !in REMARKS && c !in GROUP
  {
  }

  /** A query component splits into its key and value and contains none of the outer separators. */
  lemma QueryCompPlain(key: Text, value: Text, c: Byte)
    requires EQUALS !in key && c !in key && (c == AMPERSAND || c == QUESTION)
    ensures c !in QueryComp(key, value) && Split(QueryComp(key, value), EQUALS) == [key, LinkText(value)]
  {
    var parts := [key, LinkText(value)];
    LinkTextPlain(value, c);
    LinkTextPlain(value, EQUALS);
    assert parts[1..] == [LinkText(value)];
    SplitJoin(parts, EQUALS);
  }

  lemma QueryPlain(p: Fields, c: Byte)
    requires SsrComplete(p) && (c == AMPERSAND || c == QUESTION)
    ensures NoneContains(QueryComps(p), c)
  {
    KeyLacks(c);
    KeyLacks(EQUALS);
    QueryCompPlain(OBFSPARAM, p.ssrObfsParam.value, c);
    QueryCompPlain(PROTOPARAM, p.ssrProtocolParam.value, c);
    QueryCompPlain(REMARKS, p.name, c);
    QueryCompPlain(GROUP, p.group.value, c);
    NoneOfFour(QueryComp(OBFSPARAM, p.ssrObfsParam.value), QueryComp(PROTOPARAM, p.ssrProtocolParam.value),
               QueryComp(REMARKS, p.name), QueryComp(GROUP, p.group.value), c);
  }

  lemma NoneOfFour(t: Text, u: Text, v: Text, w: Text, c: Byte)
    requires c !in t && c !in u && c !in v && c !in w
    ensures NoneContains([t, u, v, w], c)
  {
  }

  lemma {:induction false} JoinLacks(parts: seq<Text>, sep: Byte, c: Byte)
    requires |parts| >= 1 && NoneContains(parts, c) && c != sep
    ensures c !in Join(parts, sep)
  {
    if |parts| > 1 {
      JoinLacks(parts[1..], sep, c);
    }
  }

  /** Reading the four components in turn sets the four fields. */
  lemma ReadQueryComps(q: Fields, p: Fields)
    requires SsrComplete(p) && ValidUtf8(p.name) && ValidUtf8(p.group.value)
    requires IsAscii(p.ssrObfsParam.value) && IsAscii(p.ssrProtocolParam.value)
    ensures ReadQuery(q, QueryComps(p))
            == Ok(q.(ssrObfsParam := p.ssrObfsParam, ssrProtocolParam := p.ssrProtocolParam, name := p.name,
                     group := p.group))
  {
    KeyLacks(EQUALS);
    KeyLacks(AMPERSAND);
    AsciiIsUtf8(p.ssrObfsParam.value);
    AsciiIsUtf8(p.ssrProtocolParam.value);
    var q1 := q.(ssrObfsParam := p.ssrObfsParam);
    var q2 := q1.(ssrProtocolParam := p.ssrProtocolParam);
    var q3 := q2.(name := p.name);
    ReadOne(q, OBFSPARAM, p.ssrObfsParam.value);
    ReadOne(q1, PROTOPARAM, p.ssrProtocolParam.value);
    ReadOne(q2, REMARKS, p.name);
    ReadOne(q3, GROUP, p.group.value);
    ReadFour(QueryComps(p), q, q1, q2, q3, q3.(group := p.group));
  }

  lemma ReadFour(comps: seq<Text>, q: Fields, q1: Fields, q2: Fields, q3: Fields, q4: Fields)
    requires |comps| == 4
    requires ReadQueryComp(q, comps[0]) == Ok(q1) && ReadQueryComp(q1, comps[1]) == Ok(q2)
    requires ReadQueryComp(q2, comps[2]) == Ok(q3) && ReadQueryComp(q3, comps[3]) == Ok(q4)
    ensures ReadQuery(q, comps) == Ok(q4)
  {
    QuerySnoc(q, comps, 0, q, q1);
    QuerySnoc(q, comps, 1, q1, q2);
    QuerySnoc(q, comps, 2, q2, q3);
    QuerySnoc(q, comps, 3, q3, q4);
    assert comps[..4] == comps;
  }

  lemma ReadOne(q: Fields, key: Text, value: Text)
    requires EQUALS !in key && AMPERSAND !in key && ValidUtf8(value)
    requires key == OBFSPARAM || key == PROTOPARAM || key == REMARKS || key == GROUP
    ensures ReadQueryComp(q, QueryComp(key, value))
            == Ok(if key == OBFSPARAM then q.(ssrObfsParam := Some(value))
                  else if key == PROTOPARAM then q.(ssrProtocolParam := Some(value))
                  else if key == REMARKS then q.(name := value)
                  else q.(group := Some(value)))
  {
    QueryCompPlain(key, value, AMPERSAND);
    LinkRoundTrip(value);
  }

  lemma QuerySnoc(q: Fields, comps: seq<Text>, n: nat, before: Fields, after: Fields)
    requires n < |comps| && ReadQuery(q, comps[..n]) == Ok(before)
    requires ReadQueryComp(before, comps[n]) == Ok(after)
    ensures ReadQuery(q, comps[..n + 1]) == Ok(after)
  {
    assert comps[..n + 1][..n] == comps[..n];
  }

  /** The last "?" and the last "/" before it are the printed ones, whatever the fields contain. */
  lemma SsrCuts(p: Fields)
    requires SsrComplete(p)
    ensures SsrHosts(SsrText(p)) == Join(HostComps(p), COLON)
    ensures SsrQuery(SsrText(p)) == Join(QueryComps(p), AMPERSAND)
  {
    QueryPlain(p, QUESTION);
    JoinLacks(QueryComps(p), AMPERSAND, QUESTION);
    CutsOf(Join(HostComps(p), COLON), Join(QueryComps(p), AMPERSAND));
  }

  lemma CutsOf(front: Text, query: Text)
    requires QUESTION !in query
    ensures var text := front + [SLASH] + ([QUESTION] + query); SsrHosts(text) == front && SsrQuery(text) == query
  {
    var hosts := front + [SLASH];
    assert front + [SLASH] + ([QUESTION] + query) == hosts + [QUESTION] + query;
    FindLastSplits(hosts, QUESTION, query);
    Around(hosts, QUESTION, query);
    assert hosts == front + [SLASH] + [];
    FindLastSplits(front, SLASH, []);
    Around(front, SLASH, []);
  }

  lemma NoneOfSix(comps: seq<Text>, c: Byte)
    requires |comps| == 6 && c !in comps[1] && c !in comps[5]
    ensures NoneContains(comps, c) <==> c !in comps[0] && c !in comps[2] && c !in comps[3] && c !in comps[4]
  {
  }

  lemma HostCompsPlain(p: Fields)
    requires SsrComplete(p)
    ensures NoneContains(HostComps(p), COLON) <==> SsrPrintable(p)
  {
    IntRoundTrip(p.port);
    LinkTextPlain(p.password.value, COLON);
    NoneOfSix(HostComps(p), COLON);
  }

  lemma ReadSsrPrinted(q: Fields, p: Fields)
    requires p.typ == ShadowsocksR && SsrComplete(p) && SsrAscii(p) && ValidUtf8(p.name) && ValidUtf8(p.group.value)
    ensures ReadSsr(q, SsrText(p)) == if SsrPrintable(p) then Ok(p.(ota := q.ota)) else Err(InvalidUri)
  {
    SsrCuts(p);
    HostCompsPlain(p);
    SplitJoinIff(HostComps(p), COLON);
    if SsrPrintable(p) {
      SplitJoin(HostComps(p), COLON);
      QueryPlain(p, AMPERSAND);
      SplitJoin(QueryComps(p), AMPERSAND);
      IntRoundTrip(p.port);
      AsciiIsUtf8(p.password.value);
      LinkRoundTrip(p.password.value);
      var r := q.(host := p.host, port := p.port, ssrProtocol := p.ssrProtocol, authscheme := p.authscheme,
                  ssrObfs := p.ssrObfs, password := p.password);
      ReadQueryComps(r, p);
    }
  }

  lemma SsrPrefix(rest: Text)
    ensures SSR_URI_PREFIX <= Lower(SSR_URI_PREFIX + rest) && (SSR_URI_PREFIX + rest)[|SSR_URI_PREFIX|..] == rest
    ensures !(SS_URI_PREFIX <= Lower(SSR_URI_PREFIX + rest))
  {
    var t := Lower(SSR_URI_PREFIX + rest);
    assert t[2] == 114 && SS_URI_PREFIX[2] == 58;
    DifferAt(SS_URI_PREFIX, t, 2);
  }

  lemma DifferAt(a: Text, b: Text, i: nat)
    requires i < |a| && i < |b| && a[i] != b[i]
    ensures !(a <= b)
  {
  }

  lemma SsrHasColon(p: Fields)
    requires SsrComplete(p)
    ensures COLON in SsrText(p)
  {
    var comps := HostComps(p);
    assert Join(comps, COLON)[|p.host|] == COLON;
    assert SsrText(p)[|p.host|] == COLON;
  }

  lemma ReadUriSsr(uri: Text, name: Text, text: Text)
    requires SSR_URI_PREFIX <= Lower(uri) && !(SS_URI_PREFIX <= Lower(uri)) && COLON in text
    requires DecodeIfNeeded(uri[|SSR_URI_PREFIX|..]) == Some(text)
    ensures ReadUri(uri, Some(name)) == ReadSsr(NEW.(name := name), text)
  {
  }

  /**
   A printed `ssr://` link gives back every field, through two levels of base64, exactly when no
   part of its host section contains a colon; otherwise it is refused.
   */
  lemma SsrRoundTripIff(p: Fields, name: Text)
    requires p.typ == ShadowsocksR && SsrComplete(p) && SsrAscii(p) && ValidUtf8(p.name) && ValidUtf8(p.group.value)
    ensures Uri(p).Ok?
    ensures ReadUri(Uri(p).value, Some(name)) == if SsrPrintable(p) then Ok(p.(ota := false)) else Err(InvalidUri)
  {
    var text := SsrText(p);
    SsrPrintsIff(p);
    AsciiIsUtf8(text);
    LinkRoundTrip(text);
    SsrPrefix(LinkText(text));
    SsrHasColon(p);
    var uri := SSR_URI_PREFIX + LinkText(text);
    assert Uri(p) == Ok(uri);
    ReadUriSsr(uri, name, text);
    ReadSsrPrinted(NEW.(name := name), p);
  }

  // ----- the initialiser -----

  class Proxy {
    var typ: ProxyType
    var name: Text
    var host: Text
    var port: Int64
    var authscheme: Option<Text>
    var password: Option<Text>
    var ota: bool
    var ssrProtocol: Option<Text>
    var ssrProtocolParam: Option<Text>
    var ssrObfs: Option<Text>
    var ssrObfsParam: Option<Text>
    var group: Option<Text>

    function Snapshot(): Fields
      reads this
    {
      Fields(typ, name, host, port, authscheme, password, ota, ssrProtocol, ssrProtocolParam, ssrObfs, ssrObfsParam,
             group)
    }

    constructor ()
      ensures Snapshot() == NEW
    {
      typ, name, host, port, ota := Shadowsocks, [], [], 0, false;
      authscheme, password, ssrProtocol, ssrProtocolParam, ssrObfs, ssrObfsParam, group :=
        None, None, None, None, None, None, None;
    }

    /** `init(dictionary:inRealm:)` for a dictionary with a "uri" entry. */
    static method FromDictionary(uri: Text, name: Option<Text>) returns (r: Result<Proxy>)
      ensures match ReadUri(uri, name)
              case Ok(fields) => r.Ok? && fresh(r.value) && r.value.Snapshot() == fields
              case Err(error) => r == Err(error)
              case Trap => r == Trap
    {
      var proxy := new Proxy();
      if name.None? {
        return Err(InvalidName);
      }
      proxy.name := name.value;
      var failure: Option<Result<Proxy>>;
      if SS_URI_PREFIX <= Lower(uri) {
        var text := DecodeIfNeeded(uri[|SS_URI_PREFIX|..]);
        if text.None? {
          return Err(InvalidUri);
        }
        failure := proxy.InitShadowsocks(text.value);
      } else if SSR_URI_PREFIX <= Lower(uri) {
        var text := DecodeIfNeeded(uri[|SSR_URI_PREFIX|..]);
        if text.None? || COLON !in text.value {
          return Err(InvalidUri);
        }
        failure := proxy.InitShadowsocksR(text.value);
      } else {
        return Err(InvalidUri);
      }
      r := if failure.Some? then failure.value else Ok(proxy);
    }

    method InitShadowsocks(text: Text) returns (failure: Option<Result<Proxy>>)
      requires !ota
      modifies this
      ensures match ReadSs(old(Snapshot()), text)
              case Ok(fields) => failure == None && Snapshot() == fields
              case Err(error) => failure == Some(Err(error))
              case Trap => failure == Some(Trap)
    {
      var pc1, pc2, pcm := Find(text, COLON), FindLast(text, COLON), FindLast(text, AT);
      if pc1.None? || pc2.None? || pcm.None? {
        return Some(Err(InvalidUri));
      }
      if !(pc1.value < pcm.value && pcm.value < pc2.value) {
        return Some(Err(InvalidUri));
      }
      ReadSsAt(Snapshot(), text, pc1.value, pcm.value, pc2.value);
      var fullAuthscheme := Lower(text)[..pc1.value];
      failure := InitAuthority(fullAuthscheme, text[pc1.value + 1..pcm.value], text[pcm.value + 1..pc2.value],
                               text[pc2.value + 1..]);
    }

    method InitAuthority(fullAuthscheme: Text, password: Text, host: Text, portText: Text)
      returns (failure: Option<Result<Proxy>>)
      requires !ota
      modifies this
      ensures match ReadSsParts(old(Snapshot()), fullAuthscheme, password, host, portText)
              case Ok(fields) => failure == None && Snapshot() == fields
              case Err(error) => failure == Some(Err(error))
              case Trap => failure == Some(Trap)
    {
      var pOTA := FindLastText(fullAuthscheme, OTA_SUFFIX);
      if pOTA.Some? {
        authscheme := Some(fullAuthscheme[..pOTA.value]);
        ota := true;
      } else {
        authscheme := Some(fullAuthscheme);
      }
      this.password := Some(password);
      this.host := host;
      var p := ParseInt(portText);
      if p.None? {
        return Some(Err(InvalidPort));
      }
      port := p.value;
      typ := Shadowsocks;
      failure := None;
    }

    method InitShadowsocksR(text: Text) returns (failure: Option<Result<Proxy>>)
      modifies this
      ensures match ReadSsr(old(Snapshot()), text)
              case Ok(fields) => failure == None && Snapshot() == fields
              case Err(error) => failure == Some(Err(error))
              case Trap => failure == Some(Trap)
    {
      var hostString, queryString := text, [];
      var mark := FindLast(text, QUESTION);
      if mark.Some? {
        hostString := text[..mark.value];
        queryString := text[mark.value + 1..];
      }
      var slash := FindLast(hostString, SLASH);
      if slash.Some? {
        hostString := hostString[..slash.value];
      }
      assert hostString == SsrHosts(text) && queryString == SsrQuery(text);
      failure := InitComps(Split(hostString, COLON), Split(queryString, AMPERSAND));
    }

    method InitComps(hostComps: seq<Text>, queryComps: seq<Text>) returns (failure: Option<Result<Proxy>>)
      modifies this
      ensures match ReadSsrParts(old(Snapshot()), hostComps, queryComps)
              case Ok(fields) => failure == None && Snapshot() == fields
              case Err(error) => failure == Some(Err(error))
              case Trap => failure == Some(Trap)
    {
      if |hostComps| != 6 {
        return Some(Err(InvalidUri));
      }
      host := hostComps[0];
      var p := ParseInt(hostComps[1]);
      if p.None? {
        return Some(Err(InvalidPort));
      }
      SetHost(hostComps, p.value);
      var ok := InitQuery(queryComps);
      if !ok {
        return Some(Trap);
      }
      typ := ShadowsocksR;
      failure := None;
    }

    method SetHost(hostComps: seq<Text>, port: Int64)
      requires |hostComps| == 6 && host == hostComps[0]
      modifies this
      ensures Snapshot() == HostFields(old(Snapshot()), hostComps, port)
    {
      this.port := port;
      ssrProtocol := Some(hostComps[2]);
      authscheme := Some(hostComps[3]);
      ssrObfs := Some(hostComps[4]);
      password := DecodeIfNeeded(hostComps[5]);
    }

    /** The loop over the query components; false stands for the trap on an undecodable name. */
    method InitQuery(queryComps: seq<Text>) returns (ok: bool)
      modifies this
      ensures ok <==> ReadQuery(old(Snapshot()), queryComps).Ok?
      ensures ok ==> ReadQuery(old(Snapshot()), queryComps) == Ok(Snapshot())
      ensures !ok ==> ReadQuery(old(Snapshot()), queryComps) == Trap
    {
      ghost var before := Snapshot();
      for i := 0 to |queryComps|
        invariant ReadQuery(before, queryComps[..i]) == Ok(Snapshot())
      {
        QueryTake(before, queryComps, i);
        var found := InitQueryComp(queryComps[i]);
        if !found {
          return false;
        }
      }
      assert queryComps[..|queryComps|] == queryComps;
      ok := true;
    }

    method InitQueryComp(queryComp: Text) returns (ok: bool)
      modifies this
      ensures !ok ==> ReadQueryComp(old(Snapshot()), queryComp) == Trap
      ensures ok ==> ReadQueryComp(old(Snapshot()), queryComp) == Ok(Snapshot())
    {
      ok := true;
      var comps := Split(queryComp, EQUALS);
      if |comps| != 2 {
        return;
      }
      if comps[0] == OBFSPARAM {
        ssrObfsParam := DecodeIfNeeded(comps[1]);
      } else if comps[0] == PROTOPARAM {
        ssrProtocolParam := DecodeIfNeeded(comps[1]);
      } else if comps[0] == REMARKS {
        var remarks := DecodeIfNeeded(comps[1]);
        if remarks.None? {
          return false;
        }
        name := remarks.value;
      } else if comps[0] == GROUP {
        group := DecodeIfNeeded(comps[1]);
      }
    }
  }

  /** One more component: what it does to the fields, and that a trap is final. */
  lemma QueryTake(p: Fields, comps: seq<Text>, n: nat)
    requires n < |comps| && ReadQuery(p, comps[..n]).Ok?
    ensures var r := ReadQueryComp(ReadQuery(p, comps[..n]).value, comps[n]);
      && ReadQuery(p, comps[..n + 1]) == r
      && (r == Trap ==> ReadQuery(p, comps) == Trap)
  {
    assert comps[..n + 1][..n] == comps[..n];
    if ReadQueryComp(ReadQuery(p, comps[..n]).value, comps[n]) == Trap {
      TrapStays(p, comps, n + 1);
    }
  }

  lemma {:induction false} TrapStays(p: Fields, comps: seq<Text>, n: nat)
    requires n <= |comps| && ReadQuery(p, comps[..n]) == Trap
    ensures ReadQuery(p, comps) == Trap
    decreases |comps| - n
  {
    if n == |comps| {
      assert comps[..n] == comps;
    } else {
      assert comps[..n + 1][..n] == comps[..n];
      TrapStays(p, comps, n + 1);
    }
  }
}
