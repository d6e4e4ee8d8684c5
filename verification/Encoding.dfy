/**
 An encoder written from the format's sections "Payload Size" and "Data Field Format", and its
 round trips through the decoder: sizes, pointers, and whole values.
 */
module Encoding {
  import opened Bytes
  import opened Decoder
  import opened ValueTree

  /** `part` stands in the section at `off`. */
  ghost predicate BytesAt(sec: Section, off: nat, part: seq<Byte>) {
    off + |part| <= |sec| && sec[off..off + |part|] == part
  }

  lemma BytesAtSplit(sec: Section, off: nat, a: seq<Byte>, b: seq<Byte>)
    requires BytesAt(sec, off, a + b)
    ensures BytesAt(sec, off, a) && BytesAt(sec, off + |a|, b)
  {
    var s := sec[off..off + |a| + |b|];
    assert s == a + b;
    assert sec[off..off + |a|] == s[..|a|] && sec[off + |a|..off + |a| + |b|] == s[|a|..];
  }

  // ----- payload sizes -----

  const SIZE_LIMIT := 65821 + 0x100_0000

  /** The size field of the control byte and the bytes that follow it. */
  function EncodeSize(n: nat): (r: (Byte, seq<Byte>))
    requires n < SIZE_LIMIT
    ensures r.0 < 32
  {
    if n < 29 then (n, [])
    else if n < 285 then (29, ToBigEndian(n - 29, 1))
    else if n < 65821 then (30, ToBigEndian(n - 285, 2))
    else (31, ToBigEndian(n - 65821, 3))
  }

  lemma Powers()
    ensures Pow256(0) == 1 && Pow256(1) == 0x100 && Pow256(2) == 0x1_0000 && Pow256(3) == 0x100_0000
    ensures Pow256(4) == 0x1_0000_0000
  {
    assert Pow256(1) == Pow256(0) * 256;
    assert Pow256(2) == Pow256(1) * 256;
    assert Pow256(3) == Pow256(2) * 256;
    assert Pow256(4) == Pow256(3) * 256;
  }

  /** The three longer forms: `k` bytes above a base. */
  lemma SizeForm(v: nat, k: nat)
    requires 1 <= k <= 3 && v < Pow256(k)
    ensures SizeBase(k) + v < SIZE_LIMIT
    ensures EncodeSize(SizeBase(k) + v) == (28 + k, ToBigEndian(v, k))
  {
    Powers();
  }

  lemma SizeFormOf(n: nat) returns (k: nat)
    requires 29 <= n < SIZE_LIMIT
    ensures 1 <= k <= 3 && SizeBase(k) <= n && n - SizeBase(k) < Pow256(k)
  {
    Powers();
    k := if n < 285 then 1 else if n < 65821 then 2 else 3;
  }

  lemma SizeAtForm(sec: Section, ctrl: Byte, body: nat, k: nat, extra: seq<Byte>)
    requires 1 <= k <= 3 && ctrl % 32 == 28 + k && |extra| == k && BytesAt(sec, body, extra)
    ensures SizeAt(sec, ctrl, body) == Some((SizeBase(k) + BigEndian(extra), body + k))
  {
  }

  lemma LongSize(sec: Section, ctrl: Byte, body: nat, n: nat, k: nat)
    requires 1 <= k <= 3 && SizeBase(k) <= n && n - SizeBase(k) < Pow256(k)
    requires ctrl % 32 == 28 + k && BytesAt(sec, body, ToBigEndian(n - SizeBase(k), k))
    ensures SizeAt(sec, ctrl, body) == Some((n, body + k))
  {
    BigEndianRoundTrip(n - SizeBase(k), k);
    SizeAtForm(sec, ctrl, body, k, ToBigEndian(n - SizeBase(k), k));
  }

  /** Every representable size is read back. */
  lemma SizeRoundTrip(sec: Section, ctrl: Byte, body: nat, n: nat)
    requires n < SIZE_LIMIT && ctrl % 32 == EncodeSize(n).0 && BytesAt(sec, body, EncodeSize(n).1)
    ensures SizeAt(sec, ctrl, body) == Some((n, body + |EncodeSize(n).1|))
  {
    if n >= 29 {
      var k := SizeFormOf(n);
      SizeForm(n - SizeBase(k), k);
      LongSize(sec, ctrl, body, n, k);
    }
  }

  /** Whatever is read as a size is that size's only encoding. */
  lemma SizeUnique(sec: Section, ctrl: Byte, body: nat)
    requires body <= |sec| && SizeAt(sec, ctrl, body).Some?
    ensures var (n, next) := SizeAt(sec, ctrl, body).value;
            n < SIZE_LIMIT && EncodeSize(n) == (ctrl % 32, sec[body..next])
  {
    var field := ctrl % 32;
    if field < 29 {
      assert sec[body..body] == [];
    } else {
      var extra := sec[body..body + (field - 28)];
      SizeUniqueIn(extra, field - 28);
      assert SizeAt(sec, ctrl, body) == Some((SizeBase(field - 28) + BigEndian(extra), body + (field - 28)));
    }
  }

  lemma SizeUniqueIn(extra: seq<Byte>, k: nat)
    requires 1 <= k <= 3 && |extra| == k
    ensures SizeBase(k) + BigEndian(extra) < SIZE_LIMIT
    ensures EncodeSize(SizeBase(k) + BigEndian(extra)) == (28 + k, extra)
  {
    BigEndianBound(extra);
    SizeForm(BigEndian(extra), k);
    ToBigEndianInverse(extra);
  }

  // ----- pointers -----

  /** The low bits of a pointer's control byte and the bytes that follow it. */
  function EncodePointer(p: Word): (r: (Byte, seq<Byte>))
    ensures r.0 < 32
  {
    if p < 2048 then (p / 0x100, ToBigEndian(p % 0x100, 1))
    else if p < 526336 then (8 + (p - 2048) / 0x1_0000, ToBigEndian((p - 2048) % 0x1_0000, 2))
    else if p < 134744064 then (16 + (p - 526336) / 0x100_0000, ToBigEndian((p - 526336) % 0x100_0000, 3))
    else (24, ToBigEndian(p, 4))
  }

  /** The three shorter forms: `k` bytes after three bits, above a base. */
  lemma PointerForm(p: Word, k: nat)
    requires 1 <= k <= 3 && PointerBase(k) <= p && p - PointerBase(k) < 8 * Pow256(k)
    ensures EncodePointer(p) ==
            ((k - 1) * 8 + (p - PointerBase(k)) / Pow256(k), ToBigEndian((p - PointerBase(k)) % Pow256(k), k))
  {
    Powers();
  }

  lemma FormOf(p: Word) returns (k: nat)
    ensures 1 <= k <= 4
    ensures k == 4 <==> p >= 134744064
    ensures k < 4 ==> PointerBase(k) <= p && p - PointerBase(k) < 8 * Pow256(k)
  {
    Powers();
    k := if p < 2048 then 1 else if p < 526336 then 2 else if p < 134744064 then 3 else 4;
  }

  /** Every pointer is read back. */
  lemma PointerRoundTrip(sec: Section, ctrl: Byte, body: nat, p: Word)
    requires ctrl % 32 == EncodePointer(p).0 && BytesAt(sec, body, EncodePointer(p).1)
    ensures PointerAt(sec, ctrl, body) == Some((p, body + |EncodePointer(p).1|))
  {
    var k := FormOf(p);
    if k < 4 {
      PointerForm(p, k);
      var high, low := HighBits(p - PointerBase(k), Pow256(k));
      ShortPointer(sec, ctrl, body, p, k, high, low);
    } else {
      LongPointer(sec, ctrl, body, p);
    }
  }

  lemma ShortPointer(sec: Section, ctrl: Byte, body: nat, p: Word, k: nat, high: nat, low: nat)
    requires 1 <= k <= 3 && high < 8 && low < Pow256(k) && p == PointerBase(k) + high * Pow256(k) + low
    requires ctrl % 32 == (k - 1) * 8 + high && BytesAt(sec, body, ToBigEndian(low, k))
    ensures PointerAt(sec, ctrl, body) == Some((p, body + k))
  {
    BigEndianRoundTrip(low, k);
    PointerAtForm(sec, ctrl, body, k, high, ToBigEndian(low, k));
  }

  lemma LongPointer(sec: Section, ctrl: Byte, body: nat, p: Word)
    requires ctrl % 32 == 24 && BytesAt(sec, body, ToBigEndian(p, 4))
    ensures PointerAt(sec, ctrl, body) == Some((p, body + 4))
  {
    Powers();
    BigEndianRoundTrip(p, 4);
    PointerAtForm(sec, ctrl, body, 4, 0, ToBigEndian(p, 4));
  }

  lemma HighBits(q: nat, m: nat) returns (high: nat, low: nat)
    requires 0 < m && q < 8 * m
    ensures high == q / m && low == q % m && high < 8 && high * m + low == q && low < m
  {
    high, low := q / m, q % m;
    assert q == m * (q / m) + q % m;
    if q / m >= 8 {
      MulAtMost(8, q / m, m);
    }
  }

  lemma PointerAtForm(sec: Section, ctrl: Byte, body: nat, k: nat, high: nat, raw: seq<Byte>)
    requires 1 <= k <= 4 && high < 8 && ctrl % 32 == (k - 1) * 8 + high
    requires |raw| == k && BytesAt(sec, body, raw)
    ensures PointerAt(sec, ctrl, body)
            == Some(((if k < 4 then PointerBase(k) + high * Pow256(k) else 0) + BigEndian(raw), body + k))
  {
    LowBits(ctrl, k, high);
  }

  lemma LowBits(ctrl: Byte, k: nat, high: nat)
    requires 1 <= k <= 4 && high < 8 && ctrl % 32 == (k - 1) * 8 + high
    ensures ctrl / 8 % 4 + 1 == k && ctrl % 8 == high
  {
  }

  lemma SplitBits(ctrl: Byte)
    ensures ctrl % 32 == ctrl / 8 % 4 * 8 + ctrl % 8
  {
  }

  /** The shorter forms cover contiguous ranges: each pointer has one encoding among them. */
  lemma PointerUnique(sec: Section, ctrl: Byte, body: nat)
    requires body <= |sec| && PointerAt(sec, ctrl, body).Some? && ctrl / 8 % 4 < 3
    ensures var (p, next) := PointerAt(sec, ctrl, body).value;
            p < 134744064 && EncodePointer(p) == (ctrl % 32, sec[body..next])
  {
    var k := ctrl / 8 % 4 + 1;
    var raw := sec[body..body + k];
    PointerUniqueIn(ctrl, raw, k, PointerBase(k) + ctrl % 8 * Pow256(k) + BigEndian(raw));
  }

  lemma PointerUniqueIn(ctrl: Byte, raw: seq<Byte>, k: nat, p: nat)
    requires 1 <= k <= 3 && k == ctrl / 8 % 4 + 1 && |raw| == k
    requires p == PointerBase(k) + ctrl % 8 * Pow256(k) + BigEndian(raw)
    ensures p < 134744064 && EncodePointer(p) == (ctrl % 32, raw)
  {
    BigEndianBound(raw);
    ToBigEndianInverse(raw);
    SplitBits(ctrl);
    PointerUniqueForm(k, ctrl % 8, BigEndian(raw), p);
  }

  lemma PointerUniqueForm(k: nat, high: nat, low: nat, p: nat)
    requires 1 <= k <= 3 && high < 8 && low < Pow256(k) && p == PointerBase(k) + high * Pow256(k) + low
    ensures p < 134744064 && EncodePointer(p) == ((k - 1) * 8 + high, ToBigEndian(low, k))
  {
    Powers();
    MulAtMost(high, 7, Pow256(k));
    DivModUnique(p - PointerBase(k), high, low, Pow256(k));
    PointerForm(p, k);
  }

  lemma MulAtMost(a: nat, b: nat, m: nat)
    requires a <= b
    ensures a * m <= b * m
  {
  }
}
