/**
 The bloom filter: a bit array refined to the set of its one bits.  The hash function is not part
 of this model, so everything here holds for every hash.
 */
module Bloom {
  import opened Bytes

  type Element = seq<Byte>

  /** `murmurhash2(buffer, len, seed)`. */
  type Hash = (Element, Word) -> Word

  const SEED: Word := 0x9747_b28c

  function Mask(k: nat): bv8
    requires k < 8
  {
    1 << k
  }

  predicate BitAt(s: seq<bv8>, x: nat)
    requires x < 8 * |s|
  {
    s[x / 8] & Mask(x % 8) != 0
  }

  /** The positions of the one bits. */
  ghost function BitsOf(s: seq<bv8>): set<nat> {
    set x: nat | x < 8 * |s| && BitAt(s, x)
  }

  lemma Masks(c: bv8, j: nat, k: nat)
    requires j < 8 && k < 8
    ensures (c | Mask(k)) & Mask(j) != 0 <==> j == k || c & Mask(j) != 0
  {
    assert Mask(0) == 1 && Mask(1) == 2 && Mask(2) == 4 && Mask(3) == 8;
    assert Mask(4) == 16 && Mask(5) == 32 && Mask(6) == 64 && Mask(7) == 128;
  }

  lemma SetOne(s: seq<bv8>, x: nat)
    requires x < 8 * |s|
    ensures BitsOf(s[x / 8 := s[x / 8] | Mask(x % 8)]) == BitsOf(s) + {x}
  {
    var t := s[x / 8 := s[x / 8] | Mask(x % 8)];
    forall y: nat | y < 8 * |s|
      ensures BitAt(t, y) <==> y == x || BitAt(s, y)
    {
      if y / 8 == x / 8 {
        Masks(s[x / 8], y % 8, x % 8);
      }
    }
  }

  lemma TestOne(s: seq<bv8>, x: nat, c: bv8, mask: bv8)
    requires x < 8 * |s| && c == s[x / 8] && mask == Mask(x % 8)
    ensures c & mask != 0 <==> x in BitsOf(s)
    ensures BitsOf(s[x / 8 := c | mask]) == BitsOf(s) + {x}
    ensures x in BitsOf(s) ==> BitsOf(s) + {x} == BitsOf(s)
  {
    SetOne(s, x);
  }

  /** The set determines the bytes. */
  lemma BitsDetermine(s: seq<bv8>, t: seq<bv8>)
    requires |s| == |t| && BitsOf(s) == BitsOf(t)
    ensures s == t
  {
    forall i | 0 <= i < |s|
      ensures s[i] == t[i]
    {
      forall k: nat | k < 8
        ensures s[i] & Mask(k) != 0 <==> t[i] & Mask(k) != 0
      {
        var x := 8 * i + k;
        assert x / 8 == i && x % 8 == k;
        assert x in BitsOf(s) <==> BitAt(s, x);
        assert x in BitsOf(t) <==> BitAt(t, x);
      }
      ByteExtensional(s[i], t[i]);
    }
  }

  lemma ByteExtensional(c: bv8, d: bv8)
    requires forall k: nat | k < 8 :: c & Mask(k) != 0 <==> d & Mask(k) != 0
    ensures c == d
  {
    assert Mask(0) == 1 && Mask(1) == 2 && Mask(2) == 4 && Mask(3) == 8;
    assert Mask(4) == 16 && Mask(5) == 32 && Mask(6) == 64 && Mask(7) == 128;
  }

  // ----- the positions of an element -----

  /** Double hashing: the `i`-th probe, in wrapping 32-bit arithmetic. */
  function Probe(hash: Hash, bits: Word, e: Element, i: Word): nat
    requires bits >= 1
  {
    var a := hash(e, SEED);
    var b := hash(e, a);
    Add32(a, Mul32(i, b)) % bits
  }

  /** The same without the wrapping: the hash seeded with the first hash is added `i` times to the first. */
  lemma ProbeIs(hash: Hash, bits: Word, e: Element, i: Word)
    requires bits >= 1
    ensures Probe(hash, bits, e, i) == (hash(e, 0x9747_b28c) + i * hash(e, hash(e, 0x9747_b28c))) % 0x1_0000_0000 % bits
  {
    var a := hash(e, SEED);
    var b := hash(e, a);
    AddMultiple(a + (i * b) % 0x1_0000_0000, (i * b) / 0x1_0000_0000, 0x1_0000_0000);
  }

  ghost function Positions(hash: Hash, bits: Word, hashes: Word, e: Element): set<nat>
    requires bits >= 1
  {
    set i: Word | 0 <= i < hashes :: Probe(hash, bits, e, i)
  }

  // ----- the filter -----

  class Filter {
    const hash: Hash
    var ready: bool
    var bits: Word
    var hashes: Word
    var bf: array<bv8>

    ghost predicate Valid()
      reads this
    {
      ready ==> bits >= 1 && bits <= 8 * bf.Length
    }

    ghost function Ones(): set<nat>
      reads this, bf
    {
      BitsOf(bf[..])
    }

    /** A struct that has been allocated and zeroed but not initialised. */
    constructor (hash: Hash)
      ensures Valid() && !ready && this.hash == hash && fresh(bf)
    {
      this.hash := hash;
      ready, bits, hashes := false, 0, 0;
      bf := new bv8[0];
    }

    /**
     `bloom_init`, given the sizes that its floating-point formulas produce; `memory` says if the bit
     array could be allocated.
     */
    method Init(entries: int, errorIsZero: bool, bits: Word, hashes: Word, memory: bool) returns (r: int)
      requires bits >= 1
      modifies this
      ensures Valid() && (r == 0 <==> ready) && (r == 0 || r == 1)
      ensures r == 0 <==> entries >= 1 && !errorIsZero && memory
      ensures r == 0 ==> fresh(bf) && Ones() == {} && this.bits == bits && this.hashes == hashes
      ensures r == 0 ==> bf.Length == (bits + 7) / 8
    {
      ready := false;
      if entries < 1 || errorIsZero {
        return 1;
      }
      this.bits, this.hashes := bits, hashes;
      var bytes := if bits % 8 != 0 then bits / 8 + 1 else bits / 8;
      if !memory {
        return 1;
      }
      bf := new bv8[bytes](_ => 0);
      assert forall x: nat | x < 8 * bf.Length :: !BitAt(bf[..], x);
      ready := true;
      r := 0;
    }

    method TestBitSetBit(x: nat, setBit: bool) returns (found: bool)
      requires x < 8 * bf.Length
      modifies bf
      ensures found <==> x in old(Ones())
      ensures Ones() == if setBit then old(Ones()) + {x} else old(Ones())
    {
      ghost var before := bf[..];
      var byte := x / 8;
      var c := bf[byte];
      var mask := Mask(x % 8);
      TestOne(before, x, c, mask);
      found := c & mask != 0;
      if !found && setBit {
        bf[byte] := c | mask;
        assert bf[..] == before[byte := c | mask];
      }
    }

    /**
     One call answers about the bits as they were before it, although `add` sets bits while it
     counts hits: an element whose own probes coincide is not mistaken for one already present.
     */
    method CheckAdd(e: Element, add: bool) returns (r: int)
      requires Valid()
      modifies bf
      ensures Valid()
      ensures !ready ==> r == -1 && Ones() == old(Ones())
      ensures ready ==> r == if Positions(hash, bits, hashes, e) <= old(Ones()) then 1 else 0
      ensures ready ==> Ones() == old(Ones()) + if add then Positions(hash, bits, hashes, e) else {}
    {
      if !ready {
        return -1;
      }
      var hits: Word := 0;
      var a := hash(e, SEED);
      var b := hash(e, a);
      var i: Word := 0;
      while i < hashes
        invariant i <= hashes && hits <= i
        invariant Ones() == old(Ones()) + if add then Positions(hash, bits, i, e) else {}
        invariant hits == i <==> Positions(hash, bits, i, e) <= old(Ones())
      {
        var x := Add32(a, Mul32(i, b)) % bits;
        MoreProbes(hash, bits, i, e);
        ProbeStep(old(Ones()), Ones(), Positions(hash, bits, i, e), x, add);
        var found := TestBitSetBit(x, add);
        if found {
          hits := hits + 1;
        }
        i := i + 1;
      }
      r := if hits == hashes then 1 else 0;
    }

    method Check(e: Element) returns (r: int)
      requires Valid()
      modifies bf
      ensures Valid() && Ones() == old(Ones())
      ensures ready ==> r == if Positions(hash, bits, hashes, e) <= Ones() then 1 else 0
      ensures !ready ==> r == -1
    {
      r := CheckAdd(e, false);
    }

    method Add(e: Element) returns (r: int)
      requires Valid()
      modifies bf
      ensures Valid()
      ensures ready ==> r == if Positions(hash, bits, hashes, e) <= old(Ones()) then 1 else 0
      ensures ready ==> Ones() == old(Ones()) + Positions(hash, bits, hashes, e)
      ensures !ready ==> r == -1 && Ones() == old(Ones())
    {
      r := CheckAdd(e, true);
    }

    /** Any history of calls on a fresh filter gives the answers and the bits of the specification. */
    method Replay(calls: seq<Call>) returns (answers: seq<int>)
      requires Valid() && ready && Ones() == {}
      modifies bf
      ensures answers == Answers(hash, bits, hashes, calls)
      ensures Ones() == Union(hash, bits, hashes, calls)
    {
      answers := [];
      for k := 0 to |calls|
        invariant Valid() && Ones() == Union(hash, bits, hashes, calls[..k])
        invariant answers == Answers(hash, bits, hashes, calls[..k])
      {
        var r := CheckAdd(calls[k].e, calls[k].Add?);
        answers := answers + [r];
        assert calls[..k + 1][..k] == calls[..k];
      }
      assert calls[..|calls|] == calls;
    }
  }

  /** One more position `x` after those in `p`: what is found, and what the bits become. */
  lemma ProbeStep(before: set<nat>, now: set<nat>, p: set<nat>, x: nat, add: bool)
    requires now == before + if add then p else {}
    ensures p <= before && x in now <==> p + {x} <= before
    ensures (if add then now + {x} else now) == before + if add then p + {x} else {}
  {
  }

  lemma MoreProbes(hash: Hash, bits: Word, i: Word, e: Element)
    requires bits >= 1 && i + 1 < 0x1_0000_0000
    ensures Positions(hash, bits, i + 1, e) == Positions(hash, bits, i, e) + {Probe(hash, bits, e, i)}
  {
  }

  // ----- histories -----

  datatype Call = Add(e: Element) | Check(e: Element)

  /** The bits after a history: the union of what was added. */
  ghost function Union(hash: Hash, bits: Word, hashes: Word, calls: seq<Call>): set<nat>
    requires bits >= 1
  {
    if calls == [] then {}
    else
      var last := calls[|calls| - 1];
      Union(hash, bits, hashes, calls[..|calls| - 1])
      + if last.Add? then Positions(hash, bits, hashes, last.e) else {}
  }

  /** What a check (or an add) of `e` reports after a history. */
  ghost function Answer(hash: Hash, bits: Word, hashes: Word, calls: seq<Call>, e: Element): int
    requires bits >= 1
  {
    if Positions(hash, bits, hashes, e) <= Union(hash, bits, hashes, calls) then 1 else 0
  }

  /** The answers to a whole history, each about what was added before it. */
  ghost function Answers(hash: Hash, bits: Word, hashes: Word, calls: seq<Call>): (r: seq<int>)
    requires bits >= 1
    ensures |r| == |calls|
  {
    if calls == [] then []
    else
      var init, last := calls[..|calls| - 1], calls[|calls| - 1];
      Answers(hash, bits, hashes, init) + [Answer(hash, bits, hashes, init, last.e)]
  }

  lemma {:induction false} UnionIff(hash: Hash, bits: Word, hashes: Word, calls: seq<Call>, x: nat)
    requires bits >= 1
    ensures x in Union(hash, bits, hashes, calls) <==>
            exists e: Element :: Add(e) in calls && x in Positions(hash, bits, hashes, e)
  {
    if calls != [] {
      var init, last := calls[..|calls| - 1], calls[|calls| - 1];
      UnionIff(hash, bits, hashes, init, x);
      assert calls == init + [last];
    }
  }

  /** No false negatives: whatever was added is reported present ever after. */
  lemma NoFalseNegatives(hash: Hash, bits: Word, hashes: Word, calls: seq<Call>, e: Element)
    requires bits >= 1 && Add(e) in calls
    ensures Answer(hash, bits, hashes, calls, e) == 1
  {
    forall x | x in Positions(hash, bits, hashes, e)
      ensures x in Union(hash, bits, hashes, calls)
    {
      UnionIff(hash, bits, hashes, calls, x);
    }
  }

  /** Only which elements were added matters, not in what order, how often, or between which checks. */
  lemma OrderIrrelevant(hash: Hash, bits: Word, hashes: Word, calls: seq<Call>, others: seq<Call>)
    requires bits >= 1
    requires forall e: Element :: Add(e) in calls <==> Add(e) in others
    ensures Union(hash, bits, hashes, calls) == Union(hash, bits, hashes, others)
  {
    forall x: nat
      ensures x in Union(hash, bits, hashes, calls) <==> x in Union(hash, bits, hashes, others)
    {
      UnionIff(hash, bits, hashes, calls, x);
      UnionIff(hash, bits, hashes, others, x);
    }
  }

  /** Two filters of one size that were given the same elements hold the same bytes. */
  lemma SameBytes(f: Filter, calls: seq<Call>, g: Filter, others: seq<Call>)
    requires f.bits >= 1 && f.hash == g.hash && f.bits == g.bits && f.hashes == g.hashes
    requires f.bf.Length == g.bf.Length
    requires f.Ones() == Union(f.hash, f.bits, f.hashes, calls)
    requires g.Ones() == Union(f.hash, f.bits, f.hashes, others)
    requires forall e: Element :: Add(e) in calls <==> Add(e) in others
    ensures f.bf[..] == g.bf[..]
  {
    OrderIrrelevant(f.hash, f.bits, f.hashes, calls, others);
    BitsDetermine(f.bf[..], g.bf[..]);
  }

  /** A positive answer is never withdrawn. */
  lemma AnswersPersist(hash: Hash, bits: Word, hashes: Word, calls: seq<Call>, later: seq<Call>, e: Element)
    requires bits >= 1 && Answer(hash, bits, hashes, calls, e) == 1
    ensures Answer(hash, bits, hashes, calls + later, e) == 1
  {
    forall x | x in Union(hash, bits, hashes, calls)
      ensures x in Union(hash, bits, hashes, calls + later)
    {
      UnionIff(hash, bits, hashes, calls, x);
      UnionIff(hash, bits, hashes, calls + later, x);
    }
  }
}
