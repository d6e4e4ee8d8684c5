/**
 Base64 as RFC 4648 section 4 defines it, the unpadded and partly URL-safe variant that proxy
 links use, and the lenient decoder that reads both.
 */
module Base64 {
  import opened Bytes
  import opened Strings

  type Sextet = v: int | 0 <= v < 64

  function Digit(v: Sextet): (c: Byte)
    ensures IsBase64(c) && c < 128
  {
    if v < 26 then 65 + v else if v < 52 then 71 + v else if v < 62 then v - 4
    else if v == 62 then PLUS else SLASH
  }

  predicate IsBase64(c: Byte) {
    65 <= c <= 90 || 97 <= c <= 122 || 48 <= c <= 57 || c == PLUS || c == SLASH
  }

  function DigitValue(c: Byte): (r: Option<Sextet>)
    ensures r.Some? <==> IsBase64(c)
  {
    if 65 <= c <= 90 then Some(c - 65)
    else if 97 <= c <= 122 then Some(c - 71)
    else if 48 <= c <= 57 then Some(c as int + 4)
    else if c == PLUS then Some(62)
    else if c == SLASH then Some(63)
    else None
  }

  lemma DigitRoundTrip(v: Sextet)
    ensures DigitValue(Digit(v)) == Some(v)
  {
  }

  /** Table 1 of RFC 4648: three runs of consecutive characters and two more. */
  lemma Alphabet(v: Sextet)
    ensures [Digit(0), Digit(25), Digit(26), Digit(51), Digit(52), Digit(61), Digit(62), Digit(63)] == Ascii("AZaz09+/")
    ensures v != 25 && v != 51 && v < 61 ==> Digit(v + 1) == Digit(v) + 1
  {
  }

  // ----- three bytes, four digits -----

  function First(a: Byte): Sextet { a / 4 }
  function Second(a: Byte, b: Byte): Sextet { a % 4 * 16 + b / 16 }
  function Third(b: Byte, c: Byte): Sextet { b % 16 * 4 + c / 64 }
  function Fourth(c: Byte): Sextet { c % 64 }

  function ByteA(p: Sextet, q: Sextet): Byte { p * 4 + q / 16 }
  function ByteB(q: Sextet, r: Sextet): Byte { q % 16 * 16 + r / 4 }
  function ByteC(r: Sextet, s: Sextet): Byte { r % 4 * 64 + s }

  lemma Regroup(a: Byte, b: Byte, c: Byte)
    ensures ByteA(First(a), Second(a, b)) == a
    ensures ByteB(Second(a, b), Third(b, c)) == b
    ensures ByteC(Third(b, c), Fourth(c)) == c
  {
  }

  /** Section 4 of RFC 4648: the four digits count the same number as the 24 bits of the bytes. */
  lemma SameNumber(a: Byte, b: Byte, c: Byte)
    ensures ((First(a) * 64 + Second(a, b)) * 64 + Third(b, c)) * 64 + Fourth(c) == (a * 256 + b) * 256 + c
  {
  }

  function One(a: Byte): (ss: seq<Sextet>)
    ensures |ss| == 2
  {
    [First(a), Second(a, 0)]
  }

  function Two(a: Byte, b: Byte): (ss: seq<Sextet>)
    ensures |ss| == 3
  {
    [First(a), Second(a, b), Third(b, 0)]
  }

  function Three(a: Byte, b: Byte, c: Byte): (ss: seq<Sextet>)
    ensures |ss| == 4
  {
    [First(a), Second(a, b), Third(b, c), Fourth(c)]
  }

  function Sextets(d: seq<Byte>): (ss: seq<Sextet>)
    ensures |ss| % 4 != 1
  {
    if d == [] then []
    else if |d| == 1 then One(d[0])
    else if |d| == 2 then Two(d[0], d[1])
    else Three(d[0], d[1], d[2]) + Sextets(d[3..])
  }

  function BytesOf(ss: seq<Sextet>): seq<Byte> {
    if |ss| <= 1 then []
    else if |ss| == 2 then [ByteA(ss[0], ss[1])]
    else if |ss| == 3 then [ByteA(ss[0], ss[1]), ByteB(ss[1], ss[2])]
    else [ByteA(ss[0], ss[1]), ByteB(ss[1], ss[2]), ByteC(ss[2], ss[3])] + BytesOf(ss[4..])
  }

  lemma {:induction false} RegroupAll(d: seq<Byte>)
    ensures BytesOf(Sextets(d)) == d
  {
    if |d| == 1 {
      RegroupOne(d[0]);
      assert d == [d[0]];
    } else if |d| == 2 {
      RegroupTwo(d[0], d[1]);
      assert d == [d[0], d[1]];
    } else if |d| > 2 {
      RegroupAll(d[3..]);
      RegroupThree(d[0], d[1], d[2], Sextets(d[3..]));
      assert d == [d[0], d[1], d[2]] + d[3..];
    }
  }

  lemma RegroupOne(a: Byte)
    ensures BytesOf(One(a)) == [a]
  {
    Regroup(a, 0, 0);
  }

  lemma RegroupTwo(a: Byte, b: Byte)
    ensures BytesOf(Two(a, b)) == [a, b]
  {
    Regroup(a, b, 0);
  }

  lemma RegroupThree(a: Byte, b: Byte, c: Byte, more: seq<Sextet>)
    ensures BytesOf(Three(a, b, c) + more) == [a, b, c] + BytesOf(more)
  {
    Regroup(a, b, c);
    assert (Three(a, b, c) + more)[4..] == more;
  }

  function Digits(ss: seq<Sextet>): (t: Text)
    ensures |t| == |ss| && forall i :: 0 <= i < |t| ==> IsBase64(t[i]) && t[i] < 128
  {
    seq(|ss|, i requires 0 <= i < |ss| => Digit(ss[i]))
  }

  /** The digits, without padding. */
  function Body(d: seq<Byte>): (t: Text)
    ensures forall i :: 0 <= i < |t| ==> IsBase64(t[i]) && t[i] < 128
  {
    Digits(Sextets(d))
  }

  /** As many `=` as are missing to a multiple of four. */
  function Padding(n: nat): (r: Text)
    ensures (n + |r|) % 4 == 0 && |r| < 4 && forall i :: 0 <= i < |r| ==> r[i] == EQUALS
  {
    if n % 4 == 0 then []
    else if n % 4 == 3 then [EQUALS]
    else if n % 4 == 2 then [EQUALS, EQUALS]
    else [EQUALS, EQUALS, EQUALS]
  }

  function Padded(t: Text): (r: Text)
    ensures |r| % 4 == 0
  {
    t + Padding(|t|)
  }

  /** `base64EncodedString()`. */
  function Encode(d: seq<Byte>): Text {
    Padded(Body(d))
  }

  function DecodeBody(t: Text): Option<seq<Byte>> {
    if t == [] then Some([])
    else if |t| == 1 then None
    else
      match (DigitValue(t[0]), DigitValue(t[1]))
      case (Some(p), Some(q)) =>
        if |t| == 2 then Some([ByteA(p, q)])
        else DecodeLater(t, p, q)
      case _ => None
  }

  function DecodeLater(t: Text, p: Sextet, q: Sextet): Option<seq<Byte>>
    requires |t| >= 3
    decreases t, 0
  {
    match DigitValue(t[2])
    case None => None
    case Some(r) =>
      if |t| == 3 then Some([ByteA(p, q), ByteB(q, r)])
      else
        match (DigitValue(t[3]), DecodeBody(t[4..]))
        case (Some(s), Some(rest)) => Some([ByteA(p, q), ByteB(q, r), ByteC(r, s)] + rest)
        case _ => None
  }

  /** At most two `=` at the end are padding; anywhere else they are not digits. */
  function Unpadded(t: Text): (r: Text)
    ensures r <= t
  {
    if t == [] || t[|t| - 1] != EQUALS then t
    else if |t| == 1 || t[|t| - 2] != EQUALS then t[..|t| - 1]
    else t[..|t| - 2]
  }

  /** `Data(base64Encoded:)` without options: a whole number of groups and no foreign character. */
  function Decode(t: Text): Option<seq<Byte>> {
    if |t| % 4 != 0 then None else DecodeBody(Unpadded(t))
  }

  lemma {:induction false} DigitsRoundTrip(ss: seq<Sextet>)
    requires |ss| % 4 != 1
    ensures DecodeBody(Digits(ss)) == Some(BytesOf(ss))
  {
    forall i | 0 <= i < |ss|
      ensures DigitValue(Digits(ss)[i]) == Some(ss[i])
    {
      DigitRoundTrip(ss[i]);
    }
    if |ss| > 3 {
      DigitsRoundTrip(ss[4..]);
      assert Digits(ss)[4..] == Digits(ss[4..]);
    }
  }

  lemma UnpaddedPadded(t: Text)
    requires EQUALS !in t && |t| % 4 != 1
    ensures Unpadded(Padded(t)) == t
  {
    var r := Padded(t);
    assert r[..|t|] == t;
    if |t| > 0 {
      assert t[|t| - 1] != EQUALS;
    }
  }

  lemma BodyHas(d: seq<Byte>, c: Byte)
    requires !IsBase64(c)
    ensures c !in Body(d)
  {
  }

  lemma PaddedRoundTrip(d: seq<Byte>)
    ensures Decode(Padded(Body(d))) == Some(d)
  {
    BodyHas(d, EQUALS);
    UnpaddedPadded(Body(d));
    DigitsRoundTrip(Sextets(d));
    RegroupAll(d);
  }

  // ----- in links -----

  /** Encoded, then `=` removed and `/` written as `_`; `+` stays as it is. */
  function LinkText(d: seq<Byte>): Text {
    Replace(Remove(Encode(d), EQUALS), SLASH, UNDERSCORE)
  }

  /**
   `base64DecodeIfNeeded`: a text with a colon is taken as it is; otherwise both alphabets and
   missing padding are accepted, and the result must be UTF-8.
   */
  function DecodeIfNeeded(text: Text): Option<Text> {
    if Find(text, COLON).Some? then Some(text)
    else
      match Decode(Padded(Replace(Replace(text, DASH, PLUS), UNDERSCORE, SLASH)))
      case Some(data) => if ValidUtf8(data) then Some(data) else None
      case None => None
  }

  /** Which byte strings are UTF-8, by section 4 of RFC 3629: every byte is part of a character. */
  predicate ValidUtf8(s: seq<Byte>) {
    forall i :: 0 <= i < |s| ==> InCharacter(s, i)
  }

  /** Byte `i` starts a character, or one of the three bytes before it starts one that is long enough. */
  predicate InCharacter(s: seq<Byte>, i: nat)
    requires i < |s|
  {
    || CharacterLength(s, i) >= 1
    || (i >= 1 && CharacterLength(s, i - 1) >= 2)
    || (i >= 2 && CharacterLength(s, i - 2) >= 3)
    || (i >= 3 && CharacterLength(s, i - 3) >= 4)
  }

  /** The length of the character that starts at `i`, or 0. */
  function CharacterLength(s: seq<Byte>, i: nat): nat
    requires i < |s|
  {
    var a, left := s[i], |s| - i;
    if a < 0x80 then 1
    else if left < 2 then 0
    else if 0xC2 <= a <= 0xDF && Tail(s[i + 1]) then 2
    else if left < 3 || !Tail(s[i + 2]) then 0
    else if a == 0xE0 && 0xA0 <= s[i + 1] <= 0xBF then 3
    else if 0xE1 <= a <= 0xEC && Tail(s[i + 1]) then 3
    else if a == 0xED && 0x80 <= s[i + 1] <= 0x9F then 3
    else if 0xEE <= a <= 0xEF && Tail(s[i + 1]) then 3
    else if left < 4 || !Tail(s[i + 3]) then 0
    else if a == 0xF0 && 0x90 <= s[i + 1] <= 0xBF then 4
    else if 0xF1 <= a <= 0xF3 && Tail(s[i + 1]) then 4
    else if a == 0xF4 && 0x80 <= s[i + 1] <= 0x8F then 4
    else 0
  }

  predicate Tail(b: Byte) {
    0x80 <= b <= 0xBF
  }

  lemma AsciiIsUtf8(s: seq<Byte>)
    requires IsAscii(s)
    ensures ValidUtf8(s)
  {
  }

  lemma Utf8Prepend(a: Byte, s: seq<Byte>)
    requires a < 128 && ValidUtf8(s)
    ensures ValidUtf8([a] + s)
  {
    var t := [a] + s;
    forall i | 0 <= i < |t|
      ensures InCharacter(t, i)
    {
      if i > 0 {
        assert InCharacter(s, i - 1);
        forall k: nat | k < |s|
          ensures CharacterLength(t, k + 1) == CharacterLength(s, k)
        {
        }
      }
    }
  }

  lemma Utf8DropLast(s: seq<Byte>)
    requires ValidUtf8(s) && s != [] && s[|s| - 1] < 128
    ensures ValidUtf8(s[..|s| - 1])
  {
    var t := s[..|s| - 1];
    forall i | 0 <= i < |t|
      ensures InCharacter(t, i)
    {
      assert InCharacter(s, i);
      forall k: nat | k < |t|
        ensures CharacterLength(t, k) == CharacterLength(s, k)
      {
      }
    }
  }

  lemma {:induction false} RemovePadding(t: Text, c: Byte, pad: Text)
    requires c !in t && forall i :: 0 <= i < |pad| ==> pad[i] == c
    ensures Remove(t + pad, c) == t
    decreases |pad|
  {
    if pad == [] {
      assert t + pad == t;
      RemoveNothing(t, c);
    } else {
      assert (t + pad)[..|t + pad| - 1] == t + pad[..|pad| - 1];
      RemovePadding(t, c, pad[..|pad| - 1]);
    }
  }

  lemma LinkTextIs(d: seq<Byte>)
    ensures LinkText(d) == Replace(Body(d), SLASH, UNDERSCORE)
  {
    var t := Body(d);
    BodyHas(d, EQUALS);
    RemovePadding(t, EQUALS, Padding(|t|));
  }

  /** Link text consists of letters, digits, `+` and `_`. */
  lemma LinkTextPlain(d: seq<Byte>, c: Byte)
    requires (!IsBase64(c) && c != UNDERSCORE) || c == SLASH
    ensures c !in LinkText(d)
    ensures IsAscii(LinkText(d))
  {
    LinkTextIs(d);
  }

  /** A text with a colon is no base64. */
  lemma PlainText(text: Text)
    requires COLON in text
    ensures DecodeIfNeeded(text) == Some(text)
  {
    Around([], COLON, []);
  }

  /** Digit by digit the standard or the URL-safe alphabet of section 5 of RFC 4648. */
  predicate EitherAlphabet(t: Text, body: Text) {
    && |t| == |body|
    && forall i :: 0 <= i < |t| ==>
         t[i] == body[i] || (body[i] == PLUS && t[i] == DASH) || (body[i] == SLASH && t[i] == UNDERSCORE)
  }

  /** However base64 is written, in either alphabet or both, padded or not, it is read back if the data is UTF-8. */
  lemma MixedRoundTrip(d: seq<Byte>, t: Text, padded: bool)
    requires EitherAlphabet(t, Body(d))
    ensures DecodeIfNeeded(if padded then Padded(t) else t) == if ValidUtf8(d) then Some(d) else None
  {
    var u := if padded then Padded(t) else t;
    var standard := Replace(Replace(u, DASH, PLUS), UNDERSCORE, SLASH);
    assert forall i :: 0 <= i < |t| ==> u[i] == t[i];
    assert standard == if padded then Padded(Body(d)) else Body(d);
    assert COLON !in u;
    PaddedTwice(Body(d));
    PaddedRoundTrip(d);
  }

  lemma PaddedTwice(t: Text)
    ensures Padded(Padded(t)) == Padded(t)
  {
  }

  lemma LinkRoundTrip(d: seq<Byte>)
    ensures DecodeIfNeeded(LinkText(d)) == if ValidUtf8(d) then Some(d) else None
  {
    LinkTextIs(d);
    MixedRoundTrip(d, LinkText(d), false);
  }

  lemma EncodeRoundTrip(d: seq<Byte>)
    ensures DecodeIfNeeded(Encode(d)) == if ValidUtf8(d) then Some(d) else None
  {
    MixedRoundTrip(d, Body(d), true);
  }
}
