/** The growing pool that `MMDB_entry_data_list_s` structs are taken from, and its linked list. */
module Pooling {
  import opened Bytes
  import opened Decoder

  const DATA_POOL_NUM_BLOCKS := 32
  const SIZE_MAX := 0xFFFF_FFFF_FFFF_FFFF

  /** `sizeof(MMDB_entry_data_list_s)` on a 64-bit system: 64 of them take 4 KiB. */
  const ENTRY_DATA_LIST_SIZE := 64

  /** Whether `m * n` stays within `max`, decided by a division that cannot overflow. */
  predicate CanMultiply(max: nat, m: nat, n: nat): (ok: bool)
    ensures ok <==> m != 0 && m * n <= max
  {
    if m == 0 then false
    else
      DivisionBound(max, m, n);
      n <= max / m
  }

  lemma DivisionBound(max: nat, m: nat, n: nat)
    requires m != 0
    ensures n <= max / m <==> m * n <= max
  {
    var q, r := max / m, max % m;
    assert max == m * q + r;
    if n <= q {
      MulMonotone(m, n, q);
    } else {
      MulMonotone(m, q + 1, n);
      assert m * (q + 1) == m * q + m;
    }
  }

  /** So many structs can be asked for in bytes. */
  predicate Fits(n: nat) {
    n * ENTRY_DATA_LIST_SIZE <= SIZE_MAX
  }

  lemma MulMonotone(m: nat, a: nat, b: nat)
    requires a <= b
    ensures m * a <= m * b
  {
  }

  class EntryDataList {
    var entryData: Entry
    var next: EntryDataList?

    /** A zeroed struct, as `calloc` hands out. */
    constructor ()
      ensures next == null
    {
      entryData := Entry(0, Other(0), 0);
      next := null;
    }
  }

  /** What the structs in `list` hold. */
  ghost predicate Holds(list: seq<EntryDataList>, data: seq<Entry>)
    reads list
  {
    && |list| == |data|
    && forall k {:trigger list[k].entryData} :: 0 <= k < |list| ==> list[k].entryData == data[k]
  }

  /** The nodes of `list` are chained in order and the last one ends the chain. */
  ghost predicate Linked(list: seq<EntryDataList>)
    reads list`next
  {
    forall k {:trigger list[k].next} :: 0 <= k < |list| ==>
      list[k].next == if k + 1 < |list| then list[k + 1] else null
  }

  ghost predicate Distinct<T>(s: seq<T>) {
    forall k, l :: 0 <= k < l < |s| ==> s[k] != s[l]
  }

  lemma DistinctConcat<T>(s: seq<T>, t: seq<T>)
    requires Distinct(s) && Distinct(t) && forall x :: x in s ==> x !in t
    ensures Distinct(s + t)
  {
    var all := s + t;
    forall k, l | 0 <= k < l < |all|
      ensures all[k] != all[l]
    {
      if k < |s| <= l {
        assert all[k] in s && t[l - |s|] in t;
      }
    }
  }

  /**
   The first `n` of `slots` are the structs handed out, and no link leads anywhere but to the next of
   them.
   */
  ghost predicate HandedOut(slots: seq<EntryDataList>, elements: seq<EntryDataList>, cells: set<EntryDataList>, n: nat)
    reads cells`next
  {
    && n <= |slots| && elements == slots[..n] && Distinct(elements)
    && Distinct(slots) && (forall k :: 0 <= k < |slots| ==> slots[k] in cells)
    && forall k {:trigger slots[k].next} :: 0 <= k < |slots| ==>
         slots[k].next == null || (k + 1 < n && slots[k].next == slots[k + 1])
  }

  /** The structs of a new block behind those of the others. */
  lemma NewStructs(slots: seq<EntryDataList>, elements: seq<EntryDataList>, cells: set<EntryDataList>,
                   grown: array<EntryDataList>)
    requires HandedOut(slots, elements, cells, |slots|) && Distinct(grown[..])
    requires forall j :: 0 <= j < grown.Length ==> grown[j].next == null && grown[j] !in slots
    ensures HandedOut(slots + grown[..], elements, cells + (set j | 0 <= j < grown.Length :: grown[j]), |slots|)
  {
    var all := slots + grown[..];
    DistinctConcat(slots, grown[..]);
    forall k | 0 <= k < |all|
      ensures all[k] in cells + (set j | 0 <= j < grown.Length :: grown[j])
      ensures all[k].next == null || (k + 1 < |slots| && all[k].next == all[k + 1])
    {
      if k >= |slots| {
        assert all[k] == grown[k - |slots|];
      }
    }
  }

  lemma DistinctPrefix<T>(s: seq<T>, n: nat)
    requires Distinct(s) && n <= |s|
    ensures Distinct(s[..n])
  {
  }

  /** One more struct is handed out. */
  lemma NextStruct(slots: seq<EntryDataList>, elements: seq<EntryDataList>, cells: set<EntryDataList>, n: nat)
    requires HandedOut(slots, elements, cells, n) && n < |slots|
    ensures HandedOut(slots, elements + [slots[n]], cells, n + 1)
  {
    TakeSnoc(slots, n);
    DistinctPrefix(slots, n + 1);
  }

  class DataPool {
    var index: nat
    var size: nat
    var used: nat
    var block: array<EntryDataList>
    /** The entries in use of the two tables with room for `DATA_POOL_NUM_BLOCKS` blocks. */
    var sizes: seq<nat>
    var blocks: seq<array<EntryDataList>>

    /** Whether the allocator grants the `n`-th request for memory, and how many there have been. */
    const memory: nat -> bool
    var asked: nat

    /** The size asked for at the start. */
    ghost const initial: nat
    /** All structs of all blocks, in block order, and where each block starts among them. */
    ghost var slots: seq<EntryDataList>
    ghost var starts: seq<nat>
    /** The structs handed out so far, in the order they were handed out. */
    ghost var elements: seq<EntryDataList>
    /** Every struct of the pool. */
    ghost var cells: set<EntryDataList>

    ghost predicate Valid()
      reads this, blocks, cells`next
    {
      Layout() && used <= size && (index > 0 ==> used >= 1) && HandedOut(slots, elements, cells, Count())
    }

    /** `Valid`, for clients that only pass the pool on; `Here` marks the proofs that need what it says. */
    ghost predicate Sound()
      reads this, blocks, cells`next
    {
      forall off: Word {:trigger Here(off)} :: Here(off) ==> Valid()
    }

    /**
     The blocks, each twice as large as the one before, partition the structs.  No block has ever been
     too large for its size in bytes to be a `size_t`.
     */
    ghost predicate Layout()
      reads this`sizes, this`blocks, this`starts, this`slots, this`index, this`size, this`block, blocks
    {
      && |sizes| == |blocks| == |starts| == index + 1 <= DATA_POOL_NUM_BLOCKS
      && size == sizes[index] && block == blocks[index]
      && Fits(size)
      && |slots| == starts[index] + size
      && forall i :: 0 <= i <= index ==> BlockAt(i)
    }

    /** Block `i` is the stretch of structs from `starts[i]` on. */
    ghost predicate BlockAt(i: nat)
      requires i < |sizes| == |blocks| == |starts|
      reads this`slots, this`sizes, this`blocks, this`starts, blocks
    {
      && 1 <= sizes[i] == blocks[i].Length
      && starts[i] + sizes[i] <= |slots|
      && (if i == 0 then starts[0] == 0 && sizes[0] == initial
          else starts[i] == starts[i - 1] + sizes[i - 1] && sizes[i] == 2 * sizes[i - 1])
      && forall j {:trigger blocks[i][j]} :: 0 <= j < sizes[i] ==> blocks[i][j] == slots[starts[i] + j]
    }

    /** Why there may be no next struct: all blocks are in use, or a request for memory was refused. */
    ghost predicate Starved()
      reads this
    {
      && used == size
      && (index + 1 == DATA_POOL_NUM_BLOCKS || !Fits(2 * size) || exists n: nat :: n < asked && !memory(n))
    }

    /** How many structs have been handed out. */
    ghost function Count(): nat
      requires index < |starts|
      reads this`starts, this`index, this`used
    {
      starts[index] + used
    }

    /** What the `k`-th struct links to once it is linked. */
    ghost function Successor(k: nat): EntryDataList?
      requires index < |starts|
      reads this
    {
      if k + 1 < Count() && k + 1 < |slots| then slots[k + 1] else null
    }

    constructor FromBlock(initial: nat, first: array<EntryDataList>, memory: nat -> bool, asked: nat)
      requires initial >= 1 && first.Length == initial && Fits(initial)
      requires forall j :: 0 <= j < initial ==> first[j].next == null
      requires Distinct(first[..])
      ensures Valid() && elements == [] && this.initial == initial && used < size
      ensures this.memory == memory && this.asked == asked
      ensures cells == set j | 0 <= j < initial :: first[j]
    {
      this.initial, this.memory, this.asked := initial, memory, asked;
      index, size, used := 0, initial, 0;
      block := first;
      slots, starts, elements := first[..], [0], [];
      cells := set j | 0 <= j < initial :: first[j];
      sizes, blocks := [initial], [first];
    }

    /** `data_pool_new`: the pool, or null for an unusable size or when memory runs out. */
    static method New(size: nat, memory: nat -> bool) returns (pool: DataPool?)
      requires size <= SIZE_MAX
      ensures pool == null <==> size == 0 || !Fits(size) || !memory(0) || !memory(1)
      ensures pool != null ==> fresh(pool) && fresh(pool.cells) && pool.memory == memory
      ensures pool != null ==> pool.Valid() && pool.elements == [] && pool.initial == size
      ensures pool != null ==> pool.used < pool.size
    {
      if !memory(0) {
        return null;
      }
      if size == 0 || !CanMultiply(SIZE_MAX, size, ENTRY_DATA_LIST_SIZE) {
        return null;
      }
      var first := Calloc(size, memory(1));
      if first == null {
        return null;
      }
      pool := new DataPool.FromBlock(size, first, memory, 2);
    }

    /** `data_pool_alloc`: the next struct, or null if the pool is full and cannot grow. */
    method Alloc() returns (element: EntryDataList?)
      requires Valid()
      modifies this
      ensures Valid()
      ensures old(cells) <= cells && fresh(cells - old(cells))
      ensures element == null ==> Starved() && unchanged(this`index, this`used, this`slots, this`elements, this`cells)
      ensures element != null ==> elements == old(elements) + [element]
      ensures old(used) < old(size) ==> element != null
    {
      if used < size {
        element := TakeNext();
        return;
      }
      var grown := Grow();
      if grown == null {
        return null;
      }
      element := TakeFrom(grown);
    }

    /** The next struct of the current block is handed out. */
    method TakeNext() returns (element: EntryDataList)
      requires Valid() && used < size
      modifies this`used, this`elements
      ensures Valid() && elements == old(elements) + [element]
    {
      assert BlockAt(index);
      element := block[used];
      assert element == slots[Count()];
      NextStruct(slots, elements, cells, Count());
      used := used + 1;
      elements := elements + [element];
    }

    /** A block twice as large as the current one, if there may be one and the allocator grants it. */
    method Grow() returns (grown: array?<EntryDataList>)
      requires Valid() && used == size
      modifies this`asked
      ensures Valid() && (grown == null ==> Starved())
      ensures grown != null ==> fresh(grown) && index + 1 < DATA_POOL_NUM_BLOCKS
      ensures grown != null ==> grown.Length == 2 * size && Fits(grown.Length) && Distinct(grown[..])
      ensures grown != null ==> forall j :: 0 <= j < grown.Length ==> fresh(grown[j]) && grown[j].next == null
    {
      assert BlockAt(index);
      var newIndex := index + 1;
      if newIndex == DATA_POOL_NUM_BLOCKS {
        return null;
      }
      if !CanMultiply(SIZE_MAX, size, 2) {
        return null;
      }
      var newSize := size * 2;
      if !CanMultiply(SIZE_MAX, newSize, ENTRY_DATA_LIST_SIZE) {
        return null;
      }
      var granted := memory(asked);
      asked := asked + 1;
      grown := Calloc(newSize, granted);
      assert grown == null ==> !memory(asked - 1);
    }

    /** The first struct of a new block is handed out. */
    method TakeFrom(grown: array<EntryDataList>) returns (element: EntryDataList)
      requires Valid() && used == size && index + 1 < DATA_POOL_NUM_BLOCKS
      requires grown.Length == 2 * size && Distinct(grown[..]) && Fits(grown.Length)
      requires forall j :: 0 <= j < grown.Length ==> grown[j].next == null && grown[j] !in slots
      modifies this
      ensures Valid() && elements == old(elements) + [element]
      ensures cells == old(cells) + set j | 0 <= j < grown.Length :: grown[j]
    {
      ghost var before := slots;
      Install(grown);
      element := TakeFirst(grown, before);
    }

    method TakeFirst(grown: array<EntryDataList>, ghost before: seq<EntryDataList>) returns (element: EntryDataList)
      requires Layout() && index > 0 && starts[index] == |before| && slots == before + grown[..]
      requires HandedOut(before, elements, cells, |before|) && Distinct(grown[..])
      requires forall j :: 0 <= j < grown.Length ==> grown[j].next == null && grown[j] !in before
      modifies this`used, this`elements, this`cells
      ensures Valid() && elements == old(elements) + [element]
      ensures cells == old(cells) + set j | 0 <= j < grown.Length :: grown[j]
    {
      ghost var handed, owned := elements, cells;
      assert BlockAt(index);
      element := block[0];
      used := 1;
      elements := elements + [element];
      cells := cells + set j | 0 <= j < grown.Length :: grown[j];
      NewStructs(before, handed, owned, grown);
      NextStruct(slots, handed, cells, |before|);
    }

    /** The new block becomes the current one. */
    method Install(grown: array<EntryDataList>)
      requires Layout() && index + 1 < DATA_POOL_NUM_BLOCKS
      requires grown.Length == 2 * size && Fits(grown.Length)
      modifies this`slots, this`starts, this`index, this`size, this`block, this`sizes, this`blocks
      ensures Layout()
      ensures index == old(index) + 1 && slots == old(slots) + grown[..]
      ensures starts[index] == |old(slots)|
    {
      var newIndex := index + 1;
      var newSize := size * 2;
      assert BlockAt(index);
      blocks := blocks + [grown];
      index := newIndex;
      block := blocks[index];
      size := newSize;
      sizes := sizes + [size];
      starts := starts + [|slots|];
      slots := slots + grown[..];
      forall i | 0 <= i < index
        ensures BlockAt(i)
      {
        assert old(BlockAt(i));
      }
    }

    /**
     `data_pool_to_list`: the structs handed out, chained in the order they were handed out.
     Nothing but `next` links is written, so a list built earlier is a prefix of one built later.
     */
    method ToList() returns (list: EntryDataList?)
      requires Valid()
      modifies cells`next
      ensures Valid()
      ensures list == null <==> elements == []
      ensures list != null ==> list == elements[0] && Linked(elements)
    {
      if index == 0 && used == 0 {
        assert BlockAt(0);
        return null;
      }
      var i := 0;
      assert BlockAt(0);
      while i <= index
        invariant 0 <= i <= index + 1 && Valid()
        invariant Chained(if i <= index then starts[i] else Count())
      {
        LinkBlock(i);
        i := i + 1;
      }
      list := blocks[0][0];
    }

    /** The first `m` structs are linked. */
    ghost predicate Chained(m: nat)
      requires index < |starts|
      reads this, cells`next
    {
      && (forall k :: 0 <= k < |slots| ==> slots[k] in cells)
      && forall k {:trigger slots[k].next} :: 0 <= k < |slots| && k < m ==> slots[k].next == Successor(k)
    }

    /** The body of the outer loop of `data_pool_to_list`. */
    method LinkBlock(i: nat)
      requires Valid() && i <= index && Count() > 0 && Chained(starts[i])
      modifies cells`next
      ensures Valid()
      ensures Chained(if i < index then starts[i + 1] else Count())
    {
      assert BlockAt(i);
      StartWithin(i);
      LinkWithin(i, if i == index then used else sizes[i]);
      if i < index {
        LinkAcross(i);
      }
    }

    /** The inner loop: the first `size` structs of block `i`. */
    method LinkWithin(i: nat, size: nat)
      requires Valid() && i <= index && 1 <= size <= sizes[i] && Chained(starts[i])
      requires starts[i] + size <= Count()
      modifies cells`next
      ensures Valid() && Chained(starts[i] + size - 1)
    {
      assert BlockAt(i);
      var block := blocks[i];
      var j := 0;
      while j < size - 1
        invariant 0 <= j <= size - 1 && Valid()
        invariant Chained(starts[i] + j)
      {
        assert BlockAt(i);
        LinkOne(block[j], block[j + 1], starts[i] + j);
        j := j + 1;
      }
    }

    /** The last struct of a full block links to the first one of the next block. */
    method LinkAcross(i: nat)
      requires Valid() && i < index && BlockAt(i) && Chained(starts[i] + sizes[i] - 1)
      modifies cells`next
      ensures Valid() && Chained(starts[i + 1])
    {
      var next := i + 1;
      assert BlockAt(i) && BlockAt(next);
      StartWithin(next);
      assert BlockAt(index);
      LinkOne(blocks[i][sizes[i] - 1], blocks[next][0], starts[i] + sizes[i] - 1);
    }

    /** One `next` link, of the `k`-th struct. */
    method LinkOne(cur: EntryDataList, following: EntryDataList, ghost k: nat)
      requires Valid() && Chained(k) && k + 1 < Count()
      requires k + 1 < |slots| && cur == slots[k] && following == slots[k + 1]
      modifies cur`next
      ensures Valid() && Chained(k + 1)
    {
      cur.next := following;
    }

    /** Blocks before the current one are full, and used up before it. */
    lemma {:induction false} StartWithin(i: nat)
      requires Layout() && i <= index
      ensures i < index ==> starts[i] + sizes[i] <= starts[index]
      decreases index - i
    {
      if i < index {
        assert BlockAt(i) && BlockAt(i + 1);
        StartWithin(i + 1);
      }
    }

    /** Every block is a power of two times the initial size, and starts where the ones before end. */
    lemma {:induction false} BlockPowers(i: nat)
      requires Layout() && i <= index
      ensures sizes[i] == initial * Pow2(i)
      ensures starts[i] == initial * (Pow2(i) - 1)
    {
      assert BlockAt(i);
      if i > 0 {
        BlockPowers(i - 1);
        DoublePower(initial, Pow2(i - 1));
      }
    }

    /** Where the pool stands after `n` allocations is determined by `n` and the initial size. */
    lemma Arithmetic()
      requires Valid()
      ensures |elements| == initial * (Pow2(index) - 1) + used
      ensures |elements| > 0 ==> initial >= 1 && index == FloorLog2(CeilDiv(|elements|, initial))
    {
      BlockPowers(index);
      assert BlockAt(0) && BlockAt(index);
      if Count() > 0 {
        BlockCount(initial, index, used);
      }
    }
  }

  lemma {:induction false} Pow2Monotone(a: nat, b: nat)
    requires a <= b
    ensures Pow2(a) <= Pow2(b)
  {
    if a < b {
      Pow2Monotone(a, b - 1);
    }
  }

  lemma Pow2At31()
    ensures Pow2(31) == 0x8000_0000 && Pow2(32) == 0x1_0000_0000
  {
    assert Pow2(8) == 256;
    assert Pow2(16) == 65536;
    assert Pow2(24) == 0x100_0000;
  }

  /** A pool that starts with few structs runs dry only for lack of memory or after all its blocks. */
  lemma StarvedOnlyWhenFull(pool: DataPool)
    requires pool.Valid() && pool.Starved() && pool.initial <= 1024
    requires forall n: nat :: n < pool.asked ==> pool.memory(n)
    ensures |pool.elements| == pool.initial * (Pow2(32) - 1)
  {
    Pow2At31();
    pool.BlockPowers(pool.index);
    pool.Arithmetic();
    Pow2Monotone(pool.index, 31);
    MulMonotone(pool.initial, Pow2(pool.index), Pow2(31));
    Distribute(pool.initial, Pow2(31), Pow2(31) - 1);
  }

  /**
   Allocations and list builds in any order: whatever was handed out stays where it was, and the
   last list is everything handed out, in order.
   */
  method Interleave(pool: DataPool, builds: seq<bool>) returns (list: EntryDataList?)
    requires pool.Valid()
    modifies pool, pool.cells`next
    ensures pool.Valid() && old(pool.elements) <= pool.elements && fresh(pool.cells - old(pool.cells))
    ensures list == null <==> pool.elements == []
    ensures list != null ==> list == pool.elements[0] && Linked(pool.elements)
  {
    for i := 0 to |builds|
      invariant pool.Valid() && old(pool.elements) <= pool.elements && fresh(pool.cells - old(pool.cells))
    {
      if builds[i] {
        list := pool.ToList();
      } else {
        var element := pool.Alloc();
      }
    }
    list := pool.ToList();
  }

  lemma DoublePower(s: nat, p: nat)
    requires p >= 1
    ensures 2 * (s * p) == s * (2 * p)
    ensures s * (p - 1) + s * p == s * (2 * p - 1)
  {
  }

  function CeilDiv(n: nat, d: nat): nat
    requires d >= 1
  {
    (n + d - 1) / d
  }

  function FloorLog2(n: nat): nat
    requires n >= 1
  {
    if n == 1 then 0 else 1 + FloorLog2(n / 2)
  }

  lemma {:induction false} FloorLog2Between(n: nat, k: nat)
    requires Pow2(k) <= n < Pow2(k + 1)
    ensures FloorLog2(n) == k
  {
    if k > 0 {
      FloorLog2Between(n / 2, k - 1);
    }
  }

  lemma Distribute(a: int, b: int, c: int)
    ensures a * (b + c) == a * b + a * c
  {
  }

  lemma CeilDivBetween(n: nat, d: nat, lo: nat, hi: nat)
    requires d >= 1 && d * lo < n <= d * hi
    ensures lo < CeilDiv(n, d) <= hi
  {
    var m := n + d - 1;
    var c, r := m / d, m % d;
    assert m == d * c + r;
    if c <= lo {
      MulMonotone(d, c, lo);
    } else if c > hi {
      Distribute(d, hi, 1);
      MulMonotone(d, hi + 1, c);
    }
  }

  /** The last block in use is the floor of the logarithm of how often the initial size fits. */
  lemma BlockCount(initial: nat, index: nat, used: nat)
    requires initial >= 1 && 1 <= used <= initial * Pow2(index)
    ensures FloorLog2(CeilDiv(initial * (Pow2(index) - 1) + used, initial)) == index
  {
    CountBetween(initial, Pow2(index), used);
    FloorLog2Between(CeilDiv(initial * (Pow2(index) - 1) + used, initial), index);
  }

  lemma CountBetween(initial: nat, p: nat, used: nat)
    requires initial >= 1 && p >= 1 && 1 <= used <= initial * p
    ensures 0 <= initial * (p - 1) && p <= CeilDiv(initial * (p - 1) + used, initial) < 2 * p
  {
    Distribute(initial, p - 1, p);
    CeilDivBetween(initial * (p - 1) + used, initial, p - 1, 2 * p - 1);
  }

  /** `calloc` of an array of structs: distinct zeroed structs, or null if the request is refused. */
  method Calloc(n: nat, granted: bool) returns (block: array?<EntryDataList>)
    requires n >= 1
    ensures block != null <==> granted
    ensures block != null ==> fresh(block) && block.Length == n
    ensures block != null ==> forall j :: 0 <= j < n ==> fresh(block[j]) && block[j].next == null
    ensures block != null ==> Distinct(block[..])
  {
    if !granted {
      return null;
    }
    var node := new EntryDataList();
    var made := new EntryDataList[n](_ => node);
    var i := 1;
    while i < n
      invariant 1 <= i <= n
      invariant forall j :: 0 <= j < n ==> fresh(made[j]) && made[j].next == null
      invariant forall j, k :: 0 <= j < k < i ==> made[j] != made[k]
    {
      node := new EntryDataList();
      made[i] := node;
      i := i + 1;
    }
    block := made;
  }
}
