/** URLs as text: their components, printing and parsing. */
module Urls {
  import opened Bytes
  import opened Strings
  import opened Base64
  import opened Query

  /** The components of an absolute URL; path and query as they stand in it, percent-encoded. */
  datatype Url = Url(scheme: Text, host: Text, path: Text, query: Option<Text>, fragment: Option<Text>)

  predicate IsLetter(b: Byte) {
    65 <= b <= 90 || 97 <= b <= 122
  }

  /** RFC 3986 section 3.1; `URLComponents` traps on any other scheme. */
  predicate ValidScheme(t: Text) {
    && t != [] && IsLetter(t[0])
    && forall i :: 0 <= i < |t| ==> IsSchemeCharacter(t[i])
  }

  predicate IsSchemeCharacter(b: Byte) {
    IsLetter(b) || IsDigit(b) || b == PLUS || b == DASH || b == 46
  }

  lemma SchemePlain(t: Text)
    requires ValidScheme(t)
    ensures COLON !in t && QUESTION !in t && HASH !in t && UrlText(t)
  {
    forall i | 0 <= i < |t|
      ensures UrlCharacterAt(t, i)
    {
      assert IsSchemeCharacter(t[i]);
    }
  }

  predicate Free(t: Text, c: Byte, d: Byte) {
    c !in t && d !in t
  }

  predicate WellFormed(u: Url) {
    && ValidScheme(u.scheme)
    && Free(u.host, QUESTION, HASH) && SLASH !in u.host && UrlText(u.host)
    && Free(u.path, QUESTION, HASH) && (u.path == [] || u.path[0] == SLASH) && UrlText(u.path)
    && (u.query.Some? ==> HASH !in u.query.value && UrlText(u.query.value))
    && (u.fragment.Some? ==> UrlText(u.fragment.value))
  }

  function WithTail(t: Text, sep: Byte, tail: Option<Text>): Text {
    if tail.Some? then t + [sep] + tail.value else t
  }

  function Front(u: Url): Text {
    u.scheme + [COLON] + ([SLASH, SLASH] + (u.host + u.path))
  }

  /** `absoluteString`. */
  function Print(u: Url): Text {
    WithTail(WithTail(Front(u), QUESTION, u.query), HASH, u.fragment)
  }

  /** `URL(string:)` for absolute URLs, cut up in the order of RFC 3986 appendix B. */
  function Parse(t: Text): Option<Url> {
    var hash := Find(t, HASH);
    var main := Before(t, hash);
    var mark := Find(main, QUESTION);
    if UrlText(t) then ParseFront(Before(main, mark), After(main, mark), After(t, hash)) else None
  }

  function ParseFront(front: Text, query: Option<Text>, fragment: Option<Text>): Option<Url> {
    match Find(front, COLON)
    case None => None
    case Some(colon) =>
      if ValidScheme(front[..colon]) then ParseHost(front[..colon], front[colon + 1..], query, fragment) else None
  }

  function ParseHost(scheme: Text, rest: Text, query: Option<Text>, fragment: Option<Text>): Option<Url> {
    if !([SLASH, SLASH] <= rest) then None
    else
      var body := rest[2..];
      var slash := Find(body, SLASH);
      Some(Url(scheme, Before(body, slash), if slash.Some? then body[slash.value..] else [], query, fragment))
  }

  lemma CutTail(t: Text, sep: Byte, tail: Option<Text>)
    requires sep !in t
    ensures var s := WithTail(t, sep, tail); Before(s, Find(s, sep)) == t && After(s, Find(s, sep)) == tail
  {
    if tail.Some? {
      FindSplits(t, sep, tail.value);
      Around(t, sep, tail.value);
    }
  }

  lemma CutHost(scheme: Text, host: Text, path: Text, query: Option<Text>, fragment: Option<Text>)
    requires SLASH !in host && (path == [] || path[0] == SLASH)
    ensures ParseHost(scheme, [SLASH, SLASH] + (host + path), query, fragment)
            == Some(Url(scheme, host, path, query, fragment))
  {
    var body := host + path;
    assert ([SLASH, SLASH] + body)[2..] == body;
    if path == [] {
      assert body == host;
    } else {
      assert body == host + [SLASH] + path[1..];
      FindSplits(host, SLASH, path[1..]);
      assert body[..|host|] == host && body[|host|..] == path;
    }
  }

  lemma CutFront(u: Url)
    requires ValidScheme(u.scheme) && SLASH !in u.host && (u.path == [] || u.path[0] == SLASH)
    ensures ParseFront(Front(u), u.query, u.fragment) == Some(u)
  {
    var rest := [SLASH, SLASH] + (u.host + u.path);
    SchemePlain(u.scheme);
    FindSplits(u.scheme, COLON, rest);
    Around(u.scheme, COLON, rest);
    CutHost(u.scheme, u.host, u.path, u.query, u.fragment);
  }

  lemma FrontFree(u: Url, c: Byte)
    requires c !in u.scheme && c !in u.host && c !in u.path && c != COLON && c != SLASH
    ensures c !in Front(u)
  {
  }

  lemma TailUrlText(t: Text, sep: Byte, tail: Option<Text>)
    requires UrlText(t) && UrlCharacter(sep) && sep != PERCENT && (tail.Some? ==> UrlText(tail.value))
    ensures UrlText(WithTail(t, sep, tail))
  {
    if tail.Some? {
      UrlTextAround(t, sep, tail.value);
    }
  }

  lemma FrontUrlText(u: Url)
    requires ValidScheme(u.scheme) && UrlText(u.host) && UrlText(u.path)
    ensures UrlText(Front(u))
  {
    SchemePlain(u.scheme);
    UrlTextConcat(u.host, u.path);
    assert UrlText([SLASH, SLASH]);
    UrlTextConcat([SLASH, SLASH], u.host + u.path);
    UrlTextAround(u.scheme, COLON, [SLASH, SLASH] + (u.host + u.path));
  }

  lemma PrintUrlText(u: Url)
    requires WellFormed(u)
    ensures UrlText(Print(u))
  {
    FrontUrlText(u);
    TailUrlText(Front(u), QUESTION, u.query);
    TailUrlText(WithTail(Front(u), QUESTION, u.query), HASH, u.fragment);
  }

  lemma MainFree(u: Url)
    requires WellFormed(u)
    ensures QUESTION !in Front(u) && HASH !in WithTail(Front(u), QUESTION, u.query)
  {
    SchemePlain(u.scheme);
    FrontFree(u, QUESTION);
    FrontFree(u, HASH);
  }

  /** A printed URL is read back. */
  lemma UrlRoundTrip(u: Url)
    requires WellFormed(u)
    ensures Parse(Print(u)) == Some(u)
  {
    var main := WithTail(Front(u), QUESTION, u.query);
    PrintUrlText(u);
    MainFree(u);
    CutTail(main, HASH, u.fragment);
    CutTail(Front(u), QUESTION, u.query);
    CutFront(u);
  }

  /** And nothing is lost in parsing: the components print as the text they came from. */
  lemma ParsePrint(t: Text)
    requires Parse(t).Some?
    ensures Print(Parse(t).value) == t
  {
    var main := Before(t, Find(t, HASH));
    FrontRejoin(Before(main, Find(main, QUESTION)), After(main, Find(main, QUESTION)), After(t, Find(t, HASH)));
    Rejoin(main, QUESTION);
    Rejoin(t, HASH);
  }

  lemma FrontRejoin(front: Text, query: Option<Text>, fragment: Option<Text>)
    requires ParseFront(front, query, fragment).Some?
    ensures var u := ParseFront(front, query, fragment).value;
            Front(u) == front && u.query == query && u.fragment == fragment
  {
    var colon := Find(front, COLON).value;
    assert front == front[..colon] + [COLON] + front[colon + 1..];
    HostRejoin(front[..colon], front[colon + 1..], query, fragment);
  }

  lemma HostRejoin(scheme: Text, rest: Text, query: Option<Text>, fragment: Option<Text>)
    requires ParseHost(scheme, rest, query, fragment).Some?
    ensures var u := ParseHost(scheme, rest, query, fragment).value;
      && u.scheme == scheme && u.query == query && u.fragment == fragment
      && [SLASH, SLASH] + (u.host + u.path) == rest
  {
    var body := rest[2..];
    assert rest == [SLASH, SLASH] + body;
    var slash := Find(body, SLASH);
    if slash.Some? {
      assert body == body[..slash.value] + body[slash.value..];
    } else {
      assert body == body + [];
    }
  }

  lemma Rejoin(t: Text, sep: Byte)
    ensures WithTail(Before(t, Find(t, sep)), sep, After(t, Find(t, sep))) == t
  {
  }

  lemma PrintUtf8(u: Url)
    requires WellFormed(u)
    ensures ValidUtf8(Print(u))
  {
    PrintUrlText(u);
    UrlTextAscii(Print(u));
    AsciiIsUtf8(Print(u));
  }

  /** `URL.path`: decoded, without a slash at its end. */
  function PathOf(u: Url): Text {
    Query.Decode(WithoutEndSlash(u.path))
  }

  function WithoutEndSlash(path: Text): Text {
    if |path| > 1 && path[|path| - 1] == SLASH then path[..|path| - 1] else path
  }

  /** The dictionary in a URL's query. */
  function QueryOf(u: Url): Dictionary {
    if u.query.None? then map[] else ReadQuery(u.query.value)
  }
}
