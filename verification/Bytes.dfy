/** Bytes, 32-bit words with C's wrap-around arithmetic, and big-endian numbers. */
module Bytes {

  type Byte = b: int | 0 <= b < 256

  /** A `uint32_t`. */
  type Word = w: int | 0 <= w < 0x1_0000_0000

  datatype Option<+T> = None | Some(value: T)

  lemma TakeSnoc<T>(s: seq<T>, n: nat)
    requires n < |s|
    ensures s[..n + 1] == s[..n] + [s[n]]
  {
  }

  lemma Snoc<T>(s: seq<T>)
    requires s != []
    ensures s == s[..|s| - 1] + [s[|s| - 1]]
  {
  }

  // C's unsigned operators on uint32_t: every result is reduced modulo 2^32.

  function Wrap(x: int): (r: Word)
    ensures 0 <= x < 0x1_0000_0000 ==> r == x
  {
    x % 0x1_0000_0000
  }

  function Add32(a: Word, b: Word): (r: Word)
    ensures r == if a + b < 0x1_0000_0000 then a + b else a + b - 0x1_0000_0000
  {
    (a + b) % 0x1_0000_0000
  }

  function Sub32(a: Word, b: Word): (r: Word)
    ensures r == if b <= a then a - b else a - b + 0x1_0000_0000
  {
    (a - b) % 0x1_0000_0000
  }

  function Mul32(a: Word, b: Word): (r: Word)
    ensures 0 <= a * b < 0x1_0000_0000 ==> r == a * b
  {
    Wrap(a * b)
  }

  function Pow2(n: nat): (p: nat)
    ensures p >= 1
  {
    if n == 0 then 1 else 2 * Pow2(n - 1)
  }

  /** The number a byte string denotes, most significant byte first. */
  function BigEndian(s: seq<Byte>): nat {
    if s == [] then 0 else BigEndian(s[..|s| - 1]) * 256 + s[|s| - 1]
  }

  function Pow256(n: nat): (p: nat)
    ensures p >= 1
  {
    if n == 0 then 1 else Pow256(n - 1) * 256
  }

  lemma {:induction false} BigEndianBound(s: seq<Byte>)
    ensures BigEndian(s) < Pow256(|s|)
  {
    if s != [] {
      BigEndianBound(s[..|s| - 1]);
    }
  }

  /** A big-endian string of known length is determined by its value. */
  lemma {:induction false} BigEndianInjective(s: seq<Byte>, t: seq<Byte>)
    requires |s| == |t| && BigEndian(s) == BigEndian(t)
    ensures s == t
  {
    if s != [] {
      var s', t' := s[..|s| - 1], t[..|t| - 1];
      assert BigEndian(s') == BigEndian(t') && s[|s| - 1] == t[|t| - 1];
      BigEndianInjective(s', t');
      assert s == s' + [s[|s| - 1]] && t == t' + [t[|t| - 1]];
    }
  }

  /** The `n` low-order bytes of `v`, most significant first. */
  function ToBigEndian(v: nat, n: nat): (s: seq<Byte>)
    ensures |s| == n
    decreases n, v
  {
    if n == 0 then [] else ToBigEndian(v / 256, n - 1) + [v % 256]
  }

  lemma {:induction false} BigEndianRoundTrip(v: nat, n: nat)
    requires v < Pow256(n)
    ensures BigEndian(ToBigEndian(v, n)) == v
    decreases n
  {
    if n > 0 {
      BigEndianRoundTrip(v / 256, n - 1);
      assert ToBigEndian(v, n)[..n - 1] == ToBigEndian(v / 256, n - 1);
    }
  }

  lemma ToBigEndianInverse(s: seq<Byte>)
    ensures ToBigEndian(BigEndian(s), |s|) == s
  {
    BigEndianBound(s);
    BigEndianRoundTrip(BigEndian(s), |s|);
    BigEndianInjective(ToBigEndian(BigEndian(s), |s|), s);
  }

  lemma Two(s: seq<Byte>)
    requires |s| == 2
    ensures BigEndian(s) == s[0] as int * 256 + s[1]
  {
    assert BigEndian(s[..1]) == BigEndian([]) * 256 + s[0] by { assert s[..1][..0] == []; }
  }

  lemma Three(s: seq<Byte>)
    requires |s| == 3
    ensures BigEndian(s) == s[0] as int * 65536 + s[1] as int * 256 + s[2]
  {
    Two(s[..2]);
  }

  lemma Four(s: seq<Byte>)
    requires |s| == 4
    ensures BigEndian(s) == s[0] as int * 16777216 + s[1] as int * 65536 + s[2] as int * 256 + s[3]
  {
    Three(s[..3]);
  }

  // The fixed-width readers of the C code, each equal to the big-endian value.

  function GetUint16(p: seq<Byte>, at: nat): (r: Word)
    requires at + 2 <= |p|
    ensures r == BigEndian(p[at..at + 2])
  {
    Two(p[at..at + 2]);
    p[at] as int * 256 + p[at + 1]
  }

  function GetUint24(p: seq<Byte>, at: nat): (r: Word)
    requires at + 3 <= |p|
    ensures r == BigEndian(p[at..at + 3])
  {
    Three(p[at..at + 3]);
    p[at] as int * 65536 + p[at + 1] as int * 256 + p[at + 2]
  }

  function GetUint32(p: seq<Byte>, at: nat): (r: Word)
    requires at + 4 <= |p|
    ensures r == BigEndian(p[at..at + 4])
  {
    Four(p[at..at + 4]);
    p[at] as int * 16777216 + p[at + 1] as int * 65536 + p[at + 2] as int * 256 + p[at + 3]
  }

  /** One step of the loops below: `value = (value << 8) + digit` in an accumulator that holds less than `m`. */
  function ShiftAdd(value: nat, digit: Byte, m: nat): nat
    requires m > 0
  {
    (value * 256 % m + digit) % m
  }

  /**
   `get_uintX` (modulus 2^64) and `get_uint128` (modulus 2^128): shift by eight and add,
   in an accumulator of `width` bytes.
   */
  method GetUintX(p: seq<Byte>, at: nat, length: nat, width: nat) returns (value: nat)
    requires at + length <= |p|
    ensures value == BigEndian(p[at..at + length]) % Pow256(width)
    ensures length <= width ==> value == BigEndian(p[at..at + length])
  {
    var modulus := Pow256(width);
    ghost var field := p[at..at + length];
    value := 0;
    var i := 0;
    assert field[..0] == [];
    ModSmall(0, modulus);
    while i < length
      invariant i <= length
      invariant value == BigEndian(field[..i]) % modulus
    {
      UintStep(field, i, value, modulus);
      value := ShiftAdd(value, p[at + i], modulus);
      i := i + 1;
    }
    assert field[..length] == field;
    if length <= width {
      BigEndianBound(field);
      Pow256Monotone(length, width);
      ModSmall(BigEndian(field), modulus);
    }
  }

  lemma UintStep(s: seq<Byte>, i: nat, value: nat, m: nat)
    requires i < |s| && m > 0 && value == BigEndian(s[..i]) % m
    ensures ShiftAdd(value, s[i], m) == BigEndian(s[..i + 1]) % m
  {
    assert BigEndian(s[..i + 1]) == BigEndian(s[..i]) * 256 + s[i] by {
      assert s[..i + 1][..i] == s[..i];
    }
    AccumulateMod(BigEndian(s[..i]), value, s[i], m);
  }

  lemma ModSmall(x: nat, m: nat)
    requires x < m
    ensures x % m == x
  {
  }

  lemma {:induction false} Pow256Monotone(a: nat, b: nat)
    requires a <= b
    ensures Pow256(a) <= Pow256(b)
  {
    if a < b {
      Pow256Monotone(a, b - 1);
    }
  }

  lemma AddMultiple(x: int, q: int, m: int)
    requires m > 0
    ensures (x + q * m) % m == x % m
  {
    var d := x / m;
    assert x == d * m + x % m;
    assert x + q * m == (d + q) * m + x % m;
    DivModUnique(x + q * m, d + q, x % m, m);
  }

  lemma DivModUnique(x: int, q: int, r: int, m: int)
    requires m > 0 && 0 <= r < m && x == q * m + r
    ensures x / m == q && x % m == r
  {
    var q', r' := x / m, x % m;
    assert x == q' * m + r';
    assert (q - q') * m == r' - r;
    if q - q' >= 1 {
      AtLeastOneMultiple(q - q', m);
    } else if q - q' <= -1 {
      AtLeastOneMultiple(q' - q, m);
    }
  }

  lemma AtLeastOneMultiple(k: int, m: int)
    requires k >= 1 && m > 0
    ensures k * m >= m
  {
  }

  /** One shift-and-add step commutes with reduction modulo `m`. */
  lemma AccumulateMod(full: nat, reduced: nat, digit: Byte, m: nat)
    requires m > 0 && reduced == full % m
    ensures ShiftAdd(reduced, digit, m) == (full * 256 + digit) % m
  {
    var q := full / m;
    assert full == q * m + reduced;
    assert full * 256 + digit == (reduced * 256 + digit) + (q * 256) * m by {
      assert (q * m) * 256 == (q * 256) * m;
    }
    AddMultiple(reduced * 256 + digit, q * 256, m);
    var c := reduced * 256 / m;
    assert reduced * 256 == c * m + reduced * 256 % m;
    AddMultiple(reduced * 256 % m + digit, c, m);
  }
}
