/** Strings as their UTF-8 bytes: searching, splitting, case, and decimal numbers. */
module Strings {
  import opened Bytes

  type Text = seq<Byte>

  const HASH: Byte := 35
  const PERCENT: Byte := 37
  const AMPERSAND: Byte := 38
  const PLUS: Byte := 43
  const DASH: Byte := 45
  const SLASH: Byte := 47
  const COLON: Byte := 58
  const EQUALS: Byte := 61
  const QUESTION: Byte := 63
  const AT: Byte := 64
  const UNDERSCORE: Byte := 95

  /** The bytes of an ASCII literal. */
  function Ascii(s: string): (t: Text)
    requires forall i :: 0 <= i < |s| ==> s[i] as int < 128
    ensures |t| == |s| && forall i :: 0 <= i < |s| ==> t[i] == s[i] as int
  {
    seq(|s|, i requires 0 <= i < |s| => s[i] as int)
  }

  predicate IsAscii(t: Text) {
    forall i :: 0 <= i < |t| ==> t[i] < 128
  }

  predicate FirstAt(s: Text, c: Byte, i: nat) {
    i < |s| && s[i] == c && forall k :: 0 <= k < i ==> s[k] != c
  }

  predicate LastAt(s: Text, c: Byte, i: nat) {
    i < |s| && s[i] == c && forall k :: i < k < |s| ==> s[k] != c
  }

  /** `range(of:)` for one character. */
  function Find(s: Text, c: Byte): (r: Option<nat>)
    ensures r.None? <==> c !in s
    ensures r.Some? ==> FirstAt(s, c, r.value)
  {
    if c !in s then None
    else
      FirstExists(s, c);
      var i: nat :| i < |s| && FirstAt(s, c, i);
      Some(i)
  }

  /** `range(of:options: .backwards)` for one character. */
  function FindLast(s: Text, c: Byte): (r: Option<nat>)
    ensures r.None? <==> c !in s
    ensures r.Some? ==> LastAt(s, c, r.value)
  {
    if c !in s then None
    else
      LastExists(s, c);
      var i: nat :| i < |s| && LastAt(s, c, i);
      Some(i)
  }

  lemma {:induction false} FirstExists(s: Text, c: Byte)
    requires c in s
    ensures exists i: nat :: i < |s| && FirstAt(s, c, i)
  {
    if s[0] == c {
      assert FirstAt(s, c, 0);
    } else {
      assert c in s[1..];
      FirstExists(s[1..], c);
      var i: nat :| i < |s| - 1 && FirstAt(s[1..], c, i);
      assert forall k :: 0 < k < i + 1 ==> s[k] == s[1..][k - 1];
      assert FirstAt(s, c, i + 1);
    }
  }

  lemma {:induction false} LastExists(s: Text, c: Byte)
    requires c in s
    ensures exists i: nat :: i < |s| && LastAt(s, c, i)
  {
    var n := |s| - 1;
    if s[n] == c {
      assert LastAt(s, c, n);
    } else {
      assert s == s[..n] + [s[n]];
      LastExists(s[..n], c);
      var i: nat :| i < n && LastAt(s[..n], c, i);
      assert forall k :: i < k < n ==> s[k] == s[..n][k];
      assert LastAt(s, c, i);
    }
  }

  /** The text up to a separator, or all of it. */
  function Before(text: Text, end: Option<nat>): Text
    requires end.Some? ==> end.value <= |text|
  {
    if end.Some? then text[..end.value] else text
  }

  /** The text after a separator, if there is one. */
  function After(text: Text, end: Option<nat>): Option<Text>
    requires end.Some? ==> end.value < |text|
  {
    if end.Some? then Some(text[end.value + 1..]) else None
  }

  predicate StandsAt(s: Text, i: nat, part: Text) {
    i + |part| <= |s| && s[i..i + |part|] == part
  }

  /** `range(of:options: .backwards)` for a longer text: the last place where it stands. */
  function FindLastText(s: Text, part: Text): (r: Option<nat>)
    ensures r.Some? ==> StandsAt(s, r.value, part)
  {
    FindTextBefore(s, part, |s| + 1)
  }

  function FindTextBefore(s: Text, part: Text, end: nat): (r: Option<nat>)
    ensures r.Some? ==> r.value < end && StandsAt(s, r.value, part)
  {
    if end == 0 then None
    else if StandsAt(s, end - 1, part) then Some(end - 1)
    else FindTextBefore(s, part, end - 1)
  }

  /** Nothing stands behind the place that is found. */
  lemma {:induction false} FindTextLast(s: Text, part: Text, end: nat, i: nat)
    requires i < end && StandsAt(s, i, part)
    ensures FindTextBefore(s, part, end).Some? && i <= FindTextBefore(s, part, end).value
    decreases end
  {
    if !StandsAt(s, end - 1, part) {
      FindTextLast(s, part, end - 1, i);
    }
  }

  function Replace(s: Text, c: Byte, d: Byte): (r: Text)
    ensures |r| == |s| && forall i :: 0 <= i < |s| ==> r[i] == if s[i] == c then d else s[i]
  {
    seq(|s|, i requires 0 <= i < |s| => if s[i] == c then d else s[i])
  }

  /** `replacingOccurrences(of:with: "")`. */
  function Remove(s: Text, c: Byte): Text {
    if s == [] then [] else Remove(s[..|s| - 1], c) + if s[|s| - 1] == c then [] else [s[|s| - 1]]
  }

  lemma {:induction false} RemoveNothing(s: Text, c: Byte)
    requires c !in s
    ensures Remove(s, c) == s
  {
    if s != [] {
      var init, last := s[..|s| - 1], s[|s| - 1];
      assert s == init + [last];
      RemoveNothing(init, c);
    }
  }

  /** `lowercased()` on ASCII letters. */
  function Lower(s: Text): (r: Text)
    ensures |r| == |s|
    ensures forall i :: 0 <= i < |s| ==> r[i] == if 65 <= s[i] <= 90 then s[i] + 32 else s[i]
  {
    seq(|s|, i requires 0 <= i < |s| => if 65 <= s[i] <= 90 then s[i] + 32 else s[i])
  }

  // ----- splitting -----

  /** `components(separatedBy:)` for a one-character separator; never empty. */
  function Split(s: Text, c: Byte): (r: seq<Text>)
    ensures |r| >= 1
  {
    match Find(s, c)
    case None => [s]
    case Some(i) => [s[..i]] + Split(s[i + 1..], c)
  }

  function Join(parts: seq<Text>, c: Byte): Text
    requires |parts| >= 1
  {
    if |parts| == 1 then parts[0] else parts[0] + [c] + Join(parts[1..], c)
  }

  function Count(s: Text, c: Byte): nat {
    if s == [] then 0 else (if s[0] == c then 1 else 0) + Count(s[1..], c)
  }

  ghost predicate NoneContains(parts: seq<Text>, c: Byte) {
    forall i :: 0 <= i < |parts| ==> c !in parts[i]
  }

  lemma Around(a: Text, c: Byte, b: Text)
    ensures var s := a + [c] + b; s[..|a|] == a && s[|a|] == c && s[|a| + 1..] == b
  {
    assert a + [c] + b == (a + [c]) + b;
  }

  /** Cutting at the first separator. */
  lemma FindSplits(a: Text, c: Byte, b: Text)
    requires c !in a
    ensures Find(a + [c] + b, c) == Some(|a|)
  {
    var s := a + [c] + b;
    Around(a, c, b);
    forall k | 0 <= k < |a|
      ensures s[k] != c
    {
      assert s[k] == s[..|a|][k];
    }
  }

  /** Cutting at the last separator. */
  lemma FindLastSplits(a: Text, c: Byte, b: Text)
    requires c !in b
    ensures FindLast(a + [c] + b, c) == Some(|a|)
  {
    var s := a + [c] + b;
    Around(a, c, b);
    forall k | |a| < k < |s|
      ensures s[k] != c
    {
      assert s[k] == s[|a| + 1..][k - |a| - 1];
    }
  }

  /** Parts without the separator survive joining and splitting. */
  lemma {:induction false} SplitJoin(parts: seq<Text>, c: Byte)
    requires |parts| >= 1 && NoneContains(parts, c)
    ensures Split(Join(parts, c), c) == parts
  {
    if |parts| > 1 {
      FindSplits(parts[0], c, Join(parts[1..], c));
      Around(parts[0], c, Join(parts[1..], c));
      SplitJoin(parts[1..], c);
    }
  }

  lemma {:induction false} CountJoin(a: Text, b: Text, c: Byte)
    ensures Count(a + b, c) == Count(a, c) + Count(b, c)
  {
    if a == [] {
      assert a + b == b;
    } else {
      assert (a + b)[1..] == a[1..] + b;
      CountJoin(a[1..], b, c);
    }
  }

  lemma {:induction false} CountNone(s: Text, c: Byte)
    ensures Count(s, c) == 0 <==> c !in s
  {
    if s != [] {
      assert s == [s[0]] + s[1..];
      CountNone(s[1..], c);
    }
  }

  /** There is one more component than separators. */
  lemma {:induction false} SplitCount(s: Text, c: Byte)
    ensures |Split(s, c)| == Count(s, c) + 1
    decreases |s|
  {
    match Find(s, c) {
      case None => CountNone(s, c);
      case Some(i) =>
        assert s == s[..i] + ([c] + s[i + 1..]);
        CountJoin(s[..i], [c] + s[i + 1..], c);
        CountJoin([c], s[i + 1..], c);
        CountNone(s[..i], c);
        SplitCount(s[i + 1..], c);
    }
  }

  /** Joined parts split into as many components exactly when none of them contains the separator. */
  lemma {:induction false} JoinCount(parts: seq<Text>, c: Byte)
    requires |parts| >= 1
    ensures Count(Join(parts, c), c) >= |parts| - 1
    ensures Count(Join(parts, c), c) == |parts| - 1 <==> NoneContains(parts, c)
  {
    CountNone(parts[0], c);
    if |parts| > 1 {
      var rest := parts[1..];
      JoinCount(rest, c);
      CountJoin(parts[0] + [c], Join(rest, c), c);
      CountJoin(parts[0], [c], c);
      assert NoneContains(parts, c) <==> c !in parts[0] && NoneContains(rest, c) by {
        assert forall i :: 1 <= i < |parts| ==> parts[i] == rest[i - 1];
      }
    }
  }

  lemma SplitJoinIff(parts: seq<Text>, c: Byte)
    requires |parts| >= 1
    ensures |Split(Join(parts, c), c)| == |parts| <==> NoneContains(parts, c)
  {
    SplitCount(Join(parts, c), c);
    JoinCount(parts, c);
  }

  // ----- decimal numbers -----

  predicate IsDigit(b: Byte) {
    48 <= b <= 57
  }

  predicate AllDigits(t: Text) {
    t == [] || (AllDigits(t[..|t| - 1]) && IsDigit(t[|t| - 1]))
  }

  function Digits(n: nat): (t: Text)
    ensures |t| >= 1 && AllDigits(t)
  {
    if n < 10 then
      assert [48 + n][..0] == [];
      [48 + n]
    else
      var t := Digits(n / 10) + [48 + n % 10];
      assert t[..|t| - 1] == Digits(n / 10);
      t
  }

  lemma {:induction false} DigitsPlain(t: Text)
    requires AllDigits(t)
    ensures forall i :: 0 <= i < |t| ==> IsDigit(t[i])
  {
    if t != [] {
      DigitsPlain(t[..|t| - 1]);
      assert t == t[..|t| - 1] + [t[|t| - 1]];
    }
  }

  function DigitsValue(t: Text): nat
    requires AllDigits(t)
  {
    if t == [] then 0
    else
      DigitsValue(t[..|t| - 1]) * 10 + (t[|t| - 1] as int - 48)
  }

  lemma {:induction false} DigitsRoundTrip(n: nat)
    ensures DigitsValue(Digits(n)) == n
  {
    var t := Digits(n);
    if n < 10 {
      assert t[..0] == [];
    } else {
      DigitsRoundTrip(n / 10);
      assert t[..|t| - 1] == Digits(n / 10);
    }
  }

  /** A Swift `Int` on a 64-bit device. */
  type Int64 = i: int | -0x8000_0000_0000_0000 <= i < 0x8000_0000_0000_0000

  function PrintInt(n: Int64): Text {
    if n < 0 then [DASH] + Digits(-(n as int)) else Digits(n)
  }

  /** `Int(_:)`: an optional sign, at least one digit, and a value in range. */
  function ParseInt(t: Text): Option<Int64> {
    if t != [] && (t[0] == DASH || t[0] == PLUS) then ParseDigits(t[1..], t[0] == DASH)
    else ParseDigits(t, false)
  }

  function ParseDigits(digits: Text, negative: bool): Option<Int64> {
    if digits == [] || !AllDigits(digits) then None
    else
      var value := if negative then -(DigitsValue(digits) as int) else DigitsValue(digits) as int;
      if -0x8000_0000_0000_0000 <= value < 0x8000_0000_0000_0000 then Some(value) else None
  }

  lemma ParsePrintedDigits(n: Int64)
    ensures n >= 0 ==> ParseDigits(Digits(n), false) == Some(n)
    ensures n < 0 ==> ParseDigits(Digits(-(n as int)), true) == Some(n)
  {
    DigitsRoundTrip(if n < 0 then -(n as int) else n);
  }

  lemma IntRoundTrip(n: Int64)
    ensures ParseInt(PrintInt(n)) == Some(n)
    ensures COLON !in PrintInt(n) && AT !in PrintInt(n) && IsAscii(PrintInt(n))
  {
    ParsePrintedDigits(n);
    if n < 0 {
      NegativePlain(Digits(-(n as int)));
    } else {
      DigitsPlain(Digits(n));
    }
  }

  lemma NegativePlain(digits: Text)
    requires AllDigits(digits)
    ensures var t := [DASH] + digits; t[1..] == digits && COLON !in t && AT !in t && IsAscii(t)
  {
    DigitsPlain(digits);
  }
}
