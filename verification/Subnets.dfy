/** A lookup seen from the number that an address is: each node halves a range of numbers. */
module Subnets {
  import opened Bytes
  import opened Decoder
  import opened SearchTree

  // ----- addresses as numbers -----

  ghost function NumberOf(bits: seq<bool>): nat {
    if bits == [] then 0 else 2 * NumberOf(bits[..|bits| - 1]) + if bits[|bits| - 1] then 1 else 0
  }

  lemma {:induction false} NumberJoin(a: seq<bool>, b: seq<bool>)
    ensures NumberOf(a + b) == NumberOf(a) * Pow2(|b|) + NumberOf(b)
    ensures NumberOf(b) < Pow2(|b|)
    decreases |b|
  {
    if b == [] {
      assert a + b == a;
    } else {
      var init := b[..|b| - 1];
      assert (a + b)[..|a + b| - 1] == a + init;
      NumberJoin(a, init);
      NumberSnoc(NumberOf(a), Pow2(|init|), NumberOf(init), if b[|init|] then 1 else 0);
      assert Pow2(|b|) == 2 * Pow2(|init|);
    }
  }

  lemma NumberSnoc(n: nat, m: nat, k: nat, bit: nat)
    ensures 2 * (n * m + k) + bit == n * (2 * m) + (2 * k + bit)
  {
  }

  lemma FirstBit(bits: seq<bool>)
    requires bits != []
    ensures NumberOf(bits[1..]) < Pow2(|bits| - 1)
    ensures NumberOf(bits) == (if bits[0] then Pow2(|bits| - 1) else 0) + NumberOf(bits[1..])
  {
    var first := [bits[0]];
    assert bits == first + bits[1..];
    assert first[..0] == [];
    assert NumberOf(first) == if bits[0] then 1 else 0;
    NumberJoin(first, bits[1..]);
  }

  /** The first `k` bits of a byte. */
  lemma {:induction false} ByteNumber(b: Byte, k: nat)
    requires k <= 8
    ensures NumberOf(Bits([b])[..k]) == b as int / Pow2(8 - k)
  {
    if k == 0 {
      assert Pow2(8) == 256;
    } else {
      ByteNumber(b, k - 1);
      assert Bits([b])[..k][..k - 1] == Bits([b])[..k - 1];
      Halved(b, 8 - k);
    }
  }

  lemma Halved(b: Byte, i: nat)
    requires i < 8
    ensures b as int / Pow2(i) == 2 * (b as int / Pow2(i + 1)) + b as int / Pow2(i) % 2
  {
    assert Pow2(1) == 2 && Pow2(2) == 4 && Pow2(3) == 8 && Pow2(4) == 16;
    assert Pow2(5) == 32 && Pow2(6) == 64 && Pow2(7) == 128 && Pow2(8) == 256;
  }

  /** The bits of an address, most significant first, count the number it is in network byte order. */
  lemma {:induction false} BitsNumber(address: seq<Byte>)
    ensures NumberOf(Bits(address)) == BigEndian(address)
  {
    if address != [] {
      var init, last := address[..|address| - 1], address[|address| - 1];
      assert Bits(address) == Bits(init) + Bits([last]);
      BitsNumber(init);
      NumberJoin(Bits(init), Bits([last]));
      ByteNumber(last, 8);
      assert Bits([last])[..8] == Bits([last]);
      assert Pow2(8) == 256 && Pow2(0) == 1;
    }
  }

  /** Equal numbers of equally many bits are the same bits. */
  lemma {:induction false} NumberInjective(a: seq<bool>, b: seq<bool>)
    requires |a| == |b| && NumberOf(a) == NumberOf(b)
    ensures a == b
  {
    if a != [] {
      NumberInjective(a[..|a| - 1], b[..|b| - 1]);
      assert a == a[..|a| - 1] + [a[|a| - 1]] && b == b[..|b| - 1] + [b[|b| - 1]];
    }
  }

  /** The first `n` bits are the number without its other bits. */
  lemma TopBits(bits: seq<bool>, n: nat)
    requires n <= |bits|
    ensures NumberOf(bits[..n]) == NumberOf(bits) / Pow2(|bits| - n)
  {
    assert bits == bits[..n] + bits[n..];
    NumberJoin(bits[..n], bits[n..]);
    DivModUnique(NumberOf(bits), NumberOf(bits[..n]), NumberOf(bits[n..]), Pow2(|bits| - n));
  }

  // ----- where a number leads -----

  /**
   The record for the number `v` among the `2^depth` below a node, and how many bits it took: the
   first record is for the lower half of the numbers, the second for the upper half.
   */
  ghost function RecordFor(index: Index, node: Word, depth: nat, v: nat): (Word, nat)
    requires node < |index.nodes| && depth >= 1
    decreases depth
  {
    var half := Pow2(depth - 1);
    var record := if v < half then index.nodes[node].0 else index.nodes[node].1;
    if depth == 1 || !(0 < record < |index.nodes|) then (record, 1)
    else
      var (r, n) := RecordFor(index, record, depth - 1, if v < half then v else v - half);
      (r, n + 1)
  }

  /** The report for a record: nothing at the record that equals the node count, data above it. */
  ghost function Report(index: Index, record: Word, netmask: nat): (Status, LookupResult)
    requires index.Valid()
  {
    var above := record as int - |index.nodes|;
    if 0 <= above < index.dataSectionSize || above == 0 then
      (Success, LookupResult(above > 0, (above - 16) % 0x1_0000_0000, netmask))
    else (CorruptSearchTree, LookupResult(false, 0, 0))
  }

  lemma ReportIs(index: Index, record: Word, netmask: nat)
    requires index.Valid()
    ensures Verdict(index, Hit(record, netmask)) == Report(index, record, netmask)
  {
  }

  lemma RecordForStep(index: Index, node: Word, depth: nat, bit: bool, low: nat)
    requires node < |index.nodes| && depth >= 1 && low < Pow2(depth - 1)
    ensures var record := index.Child(node, bit);
            RecordFor(index, node, depth, (if bit then Pow2(depth - 1) else 0) + low) ==
            if depth == 1 || !(0 < record < |index.nodes|) then (record, 1)
            else
              var (r, n) := RecordFor(index, record, depth - 1, low);
              (r, n + 1)
  {
  }

  /** Walking down by the bits of an address is halving by its number. */
  lemma {:induction false} WalkByNumber(index: Index, node: Word, bits: seq<bool>, taken: nat,
                                        v: nat, record: Word, n: nat)
    requires index.Valid() && node < |index.nodes| && bits != [] && v == NumberOf(bits)
    requires RecordFor(index, node, |bits|, v) == (record, n)
    ensures Verdict(index, Deeper(Find(index.Below(node, |bits|), bits), taken)) == Report(index, record, taken + n)
    decreases |bits|
  {
    var next, low := index.Child(node, bits[0]), NumberOf(bits[1..]);
    FirstBit(bits);
    RecordForStep(index, node, |bits|, bits[0], low);
    if |bits| > 1 && 0 < next < |index.nodes| {
      WalkByNumber(index, next, bits[1..], taken + 1, low, record, n - 1);
      WalkDown(index, node, bits, taken);
    } else {
      WalkEnds(index, node, bits, taken);
    }
  }

  lemma WalkDown(index: Index, node: Word, bits: seq<bool>, taken: nat)
    requires index.Valid() && node < |index.nodes| && |bits| > 1
    requires index.RecordType(index.Child(node, bits[0])) == SearchNode
    ensures Deeper(Find(index.Below(node, |bits|), bits), taken)
            == Deeper(Find(index.Below(index.Child(node, bits[0]), |bits| - 1), bits[1..]), taken + 1)
  {
    FindStep(index, node, |bits| - 1, bits);
  }

  lemma WalkEnds(index: Index, node: Word, bits: seq<bool>, taken: nat)
    requires index.Valid() && node < |index.nodes| && bits != []
    requires |bits| == 1 || index.RecordType(index.Child(node, bits[0])) != SearchNode
    ensures Verdict(index, Deeper(Find(index.Below(node, |bits|), bits), taken))
            == Report(index, index.Child(node, bits[0]), taken + 1)
  {
    FindStep(index, node, |bits| - 1, bits);
    ReportIs(index, index.Child(node, bits[0]), taken + 1);
  }

  /** What a lookup reports is determined by the number of the address. */
  lemma LookupByNumber(index: Index, address: seq<Byte>)
    requires index.Valid() && address != []
    ensures var (record, n) := RecordFor(index, 0, 8 * |address|, BigEndian(address));
            Verdict(index, Find(index.Below(0, 8 * |address|), Bits(address))) == Report(index, record, n)
  {
    var (record, n) := RecordFor(index, 0, 8 * |address|, BigEndian(address));
    BitsNumber(address);
    WalkByNumber(index, 0, Bits(address), 0, BigEndian(address), record, n);
  }

  /** The same number but for the last bits: the same first bits. */
  lemma SamePrefix(address: seq<Byte>, other: seq<Byte>, n: nat)
    requires |address| == |other| && n <= 8 * |address|
    requires BigEndian(other) / Pow2(8 * |address| - n) == BigEndian(address) / Pow2(8 * |address| - n)
    ensures Bits(other)[..n] == Bits(address)[..n]
  {
    BitsNumber(address);
    BitsNumber(other);
    TopBits(Bits(address), n);
    TopBits(Bits(other), n);
    NumberInjective(Bits(address)[..n], Bits(other)[..n]);
  }

  /** Every address with the same number but for the bits behind the netmask gets the same report. */
  lemma NetworkByNumber(index: Index, address: seq<Byte>, other: seq<Byte>, record: Word, n: nat)
    requires index.Valid() && |address| == |other| > 0
    requires RecordFor(index, 0, 8 * |address|, BigEndian(address)) == (record, n)
    requires Report(index, record, n).0 == Success
    requires var hosts := 8 * |address| - n;
             hosts >= 0 ==> BigEndian(other) / Pow2(hosts) == BigEndian(address) / Pow2(hosts)
    ensures n <= 8 * |address|
    ensures var (same, m) := RecordFor(index, 0, 8 * |address|, BigEndian(other));
            Report(index, same, m) == Report(index, record, n)
  {
    LookupByNumber(index, address);
    LookupByNumber(index, other);
    if n <= 8 * |address| {
      SamePrefix(address, other, n);
    }
    LookupNetwork(index, Bits(address), Bits(other));
  }

  /** Leading zero bits do not change the number. */
  lemma PaddedNumber(zeros: nat, address: seq<Byte>)
    ensures NumberOf(Zeros(zeros) + Bits(address)) == BigEndian(address)
  {
    BitsNumber(address);
    NumberJoin(Zeros(zeros), Bits(address));
    ZerosNumber(zeros);
  }

  lemma FullByNumber(index: Index, address: seq<Byte>, depth: nat, record: Word, n: nat)
    requires index.Valid() && |address| == 4 && depth == 128
    requires RecordFor(index, 0, depth, BigEndian(address)) == (record, n)
    ensures FullVerdict(index, Bits(address)) == Report(index, record, n)
  {
    PaddedNumber(96, address);
    WalkByNumber(index, 0, Zeros(96) + Bits(address), 0, BigEndian(address), record, n);
  }

  /**
   The IPv4 shortcut reports for `a.b.c.d` what that number gets among all 128-bit ones, unless a
   record on the way is zero; only the netmask of a start node that is a leaf differs.
   */
  lemma InetByNumber(index: Index, address: seq<Byte>, depth: nat, record: Word, n: nat)
    requires index.Valid() && |address| == 4 && NoZeroOnSpine(index, 0, 0)
    requires depth == 128 && RecordFor(index, 0, depth, BigEndian(address)) == (record, n)
    ensures var inet, full := InetVerdict(index, Bits(address)), Report(index, record, n);
      && inet.0 == full.0 && inet.1.foundEntry == full.1.foundEntry && inet.1.offset == full.1.offset
      && (index.RecordType(Spine(index, 0, 0).0) == SearchNode ==> inet == full)
  {
    FullByNumber(index, address, depth, record, n);
    InetIsFull(index, Bits(address));
  }

  lemma InetIsFull(index: Index, bits: seq<bool>)
    requires index.Valid() && |bits| == 32 && NoZeroOnSpine(index, 0, 0)
    ensures var inet, full := InetVerdict(index, bits), FullVerdict(index, bits);
      && inet.0 == full.0 && inet.1.foundEntry == full.1.foundEntry && inet.1.offset == full.1.offset
      && (index.RecordType(Spine(index, 0, 0).0) == SearchNode ==> inet == full)
  {
    ShortcutAgreesIff(index, bits);
    if FullVerdict(index, bits).0 == Success {
      ShortcutNetmask(index, bits);
    }
  }

  lemma {:induction false} ZerosNumber(n: nat)
    ensures NumberOf(Zeros(n)) == 0
  {
    if n > 0 {
      assert Zeros(n)[..n - 1] == Zeros(n - 1);
      ZerosNumber(n - 1);
    }
  }
}
