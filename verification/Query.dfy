/** Percent-encoding (RFC 3986 section 2.1) and query strings (section 3.4) as dictionaries. */
module Query {
  import opened Bytes
  import opened Strings
  import opened Base64

  type Dictionary = map<Text, Text>

  /** The characters that stay as they are in a query key or value, and in a path. */
  datatype Place = QueryPart | PathPart

  predicate Unreserved(b: Byte) {
    65 <= b <= 90 || 97 <= b <= 122 || 48 <= b <= 57 || b in [45, 46, 95, 126]
  }

  /** In a query "/" and "?" stay; in a path "/", ":", "@" and all sub-delimiters but ";". */
  predicate Allowed(b: Byte, place: Place) {
    Unreserved(b) || b == SLASH
    || if place.QueryPart? then b == QUESTION else b in [33, 36, 38, 39, 40, 41, 42, 43, 44, 58, 61, 64]
  }

  /** What a URL may consist of, by RFC 3986 section 2: reserved and unreserved characters. */
  predicate UrlCharacter(b: Byte) {
    Unreserved(b) || b in [33, 36, 38, 39, 40, 41, 42, 43, 44, 59, 61] || b in [35, 47, 58, 63, 64, 91, 93]
  }

  /** Byte `i` is such a character, or a "%" that starts an escape. */
  predicate UrlCharacterAt(t: Text, i: nat)
    requires i < |t|
  {
    if t[i] == PERCENT then i + 2 < |t| && HexValue(t[i + 1]).Some? && HexValue(t[i + 2]).Some?
    else UrlCharacter(t[i])
  }

  predicate UrlText(t: Text) {
    forall i :: 0 <= i < |t| ==> UrlCharacterAt(t, i)
  }

  lemma UrlTextConcat(a: Text, b: Text)
    requires UrlText(a) && UrlText(b)
    ensures UrlText(a + b)
  {
    var s := a + b;
    forall i | 0 <= i < |s|
      ensures UrlCharacterAt(s, i)
    {
      if i < |a| {
        assert UrlCharacterAt(a, i);
      } else {
        assert UrlCharacterAt(b, i - |a|);
      }
    }
  }

  lemma UrlTextOne(b: Byte)
    requires UrlCharacter(b) && b != PERCENT
    ensures UrlText([b])
  {
  }

  lemma UrlTextAround(a: Text, c: Byte, b: Text)
    requires UrlText(a) && UrlText(b) && UrlCharacter(c) && c != PERCENT
    ensures UrlText(a + [c] + b)
  {
    UrlTextOne(c);
    UrlTextConcat(a, [c]);
    UrlTextConcat(a + [c], b);
  }

  lemma UrlTextAscii(t: Text)
    requires UrlText(t)
    ensures IsAscii(t)
  {
    forall i | 0 <= i < |t|
      ensures t[i] < 128
    {
      assert UrlCharacterAt(t, i);
    }
  }

  type Nibble = n: int | 0 <= n < 16

  function Hex(n: Nibble): (b: Byte)
    ensures 48 <= b <= 57 || 65 <= b <= 70
  {
    if n < 10 then 48 + n else 55 + n
  }

  function HexValue(b: Byte): Option<Nibble> {
    if 48 <= b <= 57 then Some(b - 48)
    else if 65 <= b <= 70 then Some(b - 55)
    else if 97 <= b <= 102 then Some(b - 87)
    else None
  }

  function EncodeByte(b: Byte, place: Place): Text {
    if Allowed(b, place) then [b] else [PERCENT, Hex(b / 16), Hex(b % 16)]
  }

  /** `addingPercentEncoding(withAllowedCharacters:)`. */
  function Encode(s: Text, place: Place): Text {
    if s == [] then [] else EncodeByte(s[0], place) + Encode(s[1..], place)
  }

  /** The bytes behind the escapes; a "%" without two hexadecimal digits is an error. */
  function Unescape(s: Text): Option<seq<Byte>> {
    if s == [] then Some([])
    else if s[0] != PERCENT then Prepend(s[0], Unescape(s[1..]))
    else if |s| < 3 || HexValue(s[1]).None? || HexValue(s[2]).None? then None
    else Prepend(HexValue(s[1]).value * 16 + HexValue(s[2]).value, Unescape(s[3..]))
  }

  function Prepend(b: Byte, rest: Option<seq<Byte>>): Option<seq<Byte>> {
    match rest
    case None => None
    case Some(t) => Some([b] + t)
  }

  /** `removingPercentEncoding ?? self`. */
  function Decode(s: Text): Text {
    match Unescape(s)
    case None => s
    case Some(t) => if ValidUtf8(t) then t else s
  }

  lemma EncodeByteRoundTrip(b: Byte, place: Place, rest: Text)
    ensures Unescape(EncodeByte(b, place) + rest) == Prepend(b, Unescape(rest))
  {
    var s := EncodeByte(b, place) + rest;
    if Allowed(b, place) {
      assert s[1..] == rest;
    } else {
      assert s[3..] == rest;
      assert HexValue(Hex(b / 16)) == Some(b / 16) && HexValue(Hex(b % 16)) == Some(b % 16);
    }
  }

  lemma {:induction false} UnescapeEncoded(s: Text, place: Place)
    ensures Unescape(Encode(s, place)) == Some(s)
  {
    if s != [] {
      UnescapeEncoded(s[1..], place);
      EncodeByteRoundTrip(s[0], place, Encode(s[1..], place));
      assert s == [s[0]] + s[1..];
    }
  }

  lemma PercentRoundTrip(s: Text, place: Place)
    requires ValidUtf8(s)
    ensures Decode(Encode(s, place)) == s
  {
    UnescapeEncoded(s, place);
  }

  /** Encoded text holds only allowed characters and escapes. */
  lemma {:induction false} EncodePlain(s: Text, place: Place, c: Byte)
    requires !Allowed(c, place) && c != PERCENT && !(48 <= c <= 57 || 65 <= c <= 70)
    ensures c !in Encode(s, place)
  {
    if s != [] {
      EncodePlain(s[1..], place, c);
    }
  }

  lemma EncodeByteUrlText(b: Byte, place: Place)
    ensures UrlText(EncodeByte(b, place))
  {
    if Allowed(b, place) {
      UrlTextOne(b);
    } else {
      EscapeUrlText(b / 16, b % 16);
    }
  }

  lemma EscapeUrlText(high: Nibble, low: Nibble)
    ensures UrlText([PERCENT, Hex(high), Hex(low)])
  {
  }

  /** Encoded text can stand in a URL. */
  lemma {:induction false} EncodeUrlText(s: Text, place: Place)
    ensures UrlText(Encode(s, place))
  {
    if s != [] {
      EncodeByteUrlText(s[0], place);
      EncodeUrlText(s[1..], place);
      UrlTextConcat(EncodeByte(s[0], place), Encode(s[1..], place));
    }
  }

  lemma {:induction false} EncodeConcat(s: Text, t: Text, place: Place)
    ensures Encode(s + t, place) == Encode(s, place) + Encode(t, place)
  {
    if s == [] {
      assert s + t == t;
    } else {
      assert (s + t)[1..] == s[1..] + t;
      EncodeConcat(s[1..], t, place);
      assert EncodeByte(s[0], place) + (Encode(s[1..], place) + Encode(t, place))
          == (EncodeByte(s[0], place) + Encode(s[1..], place)) + Encode(t, place);
    }
  }

  /** Encoding neither adds nor removes a slash at the end. */
  lemma EncodeEnd(s: Text, b: Byte, place: Place)
    ensures var t := Encode(s + [b], place);
      && t != [] && (t[|t| - 1] == SLASH <==> b == SLASH)
      && (b == SLASH ==> t == Encode(s, place) + [SLASH])
  {
    EncodeConcat(s, [b], place);
    assert [b][1..] == [];
    assert Encode([b], place) == EncodeByte(b, place);
  }

  // ----- query strings -----

  function EncodePair(key: Text, value: Text): Text {
    Encode(key, QueryPart) + [EQUALS] + Encode(value, QueryPart)
  }

  /** A pair without "=" is ignored; a key met again overrides. */
  function AddPair(d: Dictionary, pair: Text): Dictionary {
    match Find(pair, EQUALS)
    case None => d
    case Some(i) => d[Decode(pair[..i]) := Decode(pair[i + 1..])]
  }

  function AddPairs(d: Dictionary, pairs: seq<Text>): Dictionary {
    if pairs == [] then d else AddPair(AddPairs(d, pairs[..|pairs| - 1]), pairs[|pairs| - 1])
  }

  /** What a query string says. */
  function ReadQuery(s: Text): Dictionary {
    AddPairs(map[], Split(s, AMPERSAND))
  }

  /** `toQueryDictionary`: the value is everything after the first "=", put together again. */
  method ToQueryDictionary(s: Text) returns (result: Dictionary)
    ensures result == ReadQuery(s)
  {
    result := map[];
    var pairs := Split(s, AMPERSAND);
    for i := 0 to |pairs|
      invariant result == AddPairs(map[], pairs[..i])
    {
      var comps := Split(pairs[i], EQUALS);
      AddPairSplit(result, pairs[i]);
      AddPairsTake(map[], pairs, i);
      if |comps| >= 2 {
        var key := comps[0];
        var value := Join(comps[1..], EQUALS);
        result := result[Decode(key) := Decode(value)];
      }
    }
    assert pairs[..|pairs|] == pairs;
  }

  lemma AddPairsTake(d: Dictionary, pairs: seq<Text>, n: nat)
    requires n < |pairs|
    ensures AddPairs(d, pairs[..n + 1]) == AddPair(AddPairs(d, pairs[..n]), pairs[n])
  {
    assert pairs[..n + 1][..n] == pairs[..n];
  }

  lemma AddPairSplit(d: Dictionary, pair: Text)
    ensures var comps := Split(pair, EQUALS);
            AddPair(d, pair)
            == if |comps| >= 2 then d[Decode(comps[0]) := Decode(Join(comps[1..], EQUALS))] else d
  {
    SplitFirst(pair, EQUALS);
  }

  lemma {:induction false} JoinSplit(s: Text, c: Byte)
    ensures Join(Split(s, c), c) == s
    decreases |s|
  {
    match Find(s, c) {
      case None =>
      case Some(i) =>
        JoinSplit(s[i + 1..], c);
        var parts := Split(s, c);
        assert parts[1..] == Split(s[i + 1..], c);
        assert s == s[..i] + [c] + s[i + 1..];
    }
  }

  /** Splitting everywhere and joining all but the first part cuts at the first separator. */
  lemma SplitFirst(s: Text, c: Byte)
    ensures |Split(s, c)| >= 2 <==> Find(s, c).Some?
    ensures Find(s, c).Some? ==>
      var i, parts := Find(s, c).value, Split(s, c); parts[0] == s[..i] && Join(parts[1..], c) == s[i + 1..]
  {
    if Find(s, c).Some? {
      var i := Find(s, c).value;
      JoinSplit(s[i + 1..], c);
      assert Split(s, c)[1..] == Split(s[i + 1..], c);
    }
  }

  predicate ValidDictionary(d: Dictionary) {
    forall k :: k in d ==> ValidUtf8(k) && ValidUtf8(d[k])
  }

  lemma AddEncodedPair(d: Dictionary, key: Text, value: Text)
    requires ValidUtf8(key) && ValidUtf8(value)
    ensures AddPair(d, EncodePair(key, value)) == d[key := value]
  {
    EncodePlain(key, QueryPart, EQUALS);
    PercentRoundTrip(key, QueryPart);
    PercentRoundTrip(value, QueryPart);
    AddCutPair(d, Encode(key, QueryPart), Encode(value, QueryPart), key, value);
  }

  lemma AddCutPair(d: Dictionary, a: Text, b: Text, key: Text, value: Text)
    requires EQUALS !in a && Decode(a) == key && Decode(b) == value
    ensures AddPair(d, a + [EQUALS] + b) == d[key := value]
  {
    FindSplits(a, EQUALS, b);
    Around(a, EQUALS, b);
  }

  /** Nothing that could end the query or a pair, and nothing that a URL may not contain. */
  predicate SafePart(t: Text) {
    AMPERSAND !in t && HASH !in t && UrlText(t)
  }

  lemma EncodedPairSafe(key: Text, value: Text)
    ensures SafePart(EncodePair(key, value))
  {
    EncodePlain(key, QueryPart, AMPERSAND);
    EncodePlain(value, QueryPart, AMPERSAND);
    EncodePlain(key, QueryPart, HASH);
    EncodePlain(value, QueryPart, HASH);
    EncodeUrlText(key, QueryPart);
    EncodeUrlText(value, QueryPart);
    UrlTextAround(Encode(key, QueryPart), EQUALS, Encode(value, QueryPart));
  }

  /** `queryString`: whatever order the dictionary is enumerated in, reading gives it back. */
  method QueryString(d: Dictionary) returns (s: Text)
    requires ValidDictionary(d)
    ensures ReadQuery(s) == d && HASH !in s && UrlText(s)
  {
    var parts: seq<Text>, rest := [], d;
    while rest.Keys != {}
      invariant Written(d, parts, rest)
      decreases |rest.Keys|
    {
      var key :| key in rest.Keys;
      WriteOne(d, parts, rest, key);
      parts := parts + [EncodePair(key, rest[key])];
      rest := rest - {key};
    }
    if parts == [] {
      return [];
    }
    s := Join(parts, AMPERSAND);
    SplitJoin(parts, AMPERSAND);
    SafeJoin(parts);
  }

  /** The parts say what the dictionary says, but for the rest. */
  ghost predicate Written(d: Dictionary, parts: seq<Text>, rest: Dictionary) {
    && rest.Keys <= d.Keys && (forall k :: k in rest ==> rest[k] == d[k])
    && AddPairs(map[], parts) == d - rest.Keys
    && forall i :: 0 <= i < |parts| ==> SafePart(parts[i])
  }

  lemma WriteOne(d: Dictionary, parts: seq<Text>, rest: Dictionary, key: Text)
    requires ValidDictionary(d) && Written(d, parts, rest) && key in rest
    ensures Written(d, parts + [EncodePair(key, rest[key])], rest - {key})
  {
    var pair := EncodePair(key, rest[key]);
    AddEncodedPair(AddPairs(map[], parts), key, rest[key]);
    EncodedPairSafe(key, rest[key]);
    assert (parts + [pair])[..|parts|] == parts;
    assert (d - rest.Keys)[key := d[key]] == d - (rest - {key}).Keys;
  }

  lemma {:induction false} SafeJoin(parts: seq<Text>)
    requires |parts| >= 1 && forall i :: 0 <= i < |parts| ==> SafePart(parts[i])
    ensures HASH !in Join(parts, AMPERSAND) && UrlText(Join(parts, AMPERSAND))
  {
    if |parts| > 1 {
      SafeJoin(parts[1..]);
      UrlTextAround(parts[0], AMPERSAND, Join(parts[1..], AMPERSAND));
    }
  }

  // ----- extending a query -----

  lemma {:induction false} SplitConcat(a: Text, c: Byte, b: Text)
    ensures Split(a + [c] + b, c) == Split(a, c) + Split(b, c)
    decreases |a|
  {
    match Find(a, c) {
      case None =>
        FindSplits(a, c, b);
        Around(a, c, b);
      case Some(i) =>
        var front, rest := a[..i], a[i + 1..];
        assert a == front + [c] + rest;
        assert a + [c] + b == front + [c] + (rest + [c] + b);
        FindSplits(front, c, rest + [c] + b);
        Around(front, c, rest + [c] + b);
        SplitConcat(rest, c, b);
    }
  }

  lemma {:induction false} AddPairsJoin(d: Dictionary, ps: seq<Text>, qs: seq<Text>)
    ensures AddPairs(d, ps + qs) == AddPairs(d, ps) + AddPairs(map[], qs)
    decreases |qs|
  {
    if qs == [] {
      assert ps + qs == ps;
    } else {
      assert (ps + qs)[..|ps + qs| - 1] == ps + qs[..|qs| - 1];
      AddPairsJoin(d, ps, qs[..|qs| - 1]);
      AddPairMerge(AddPairs(d, ps), AddPairs(map[], qs[..|qs| - 1]), qs[|qs| - 1]);
    }
  }

  lemma AddPairMerge(d: Dictionary, e: Dictionary, pair: Text)
    ensures AddPair(d + e, pair) == d + AddPair(e, pair)
  {
  }

  /** Appending a query to a query merges the dictionaries, the appended one winning. */
  lemma ReadQueryConcat(a: Text, b: Text)
    ensures ReadQuery(a + [AMPERSAND] + b) == ReadQuery(a) + ReadQuery(b)
  {
    SplitConcat(a, AMPERSAND, b);
    AddPairsJoin(map[], Split(a, AMPERSAND), Split(b, AMPERSAND));
  }
}
