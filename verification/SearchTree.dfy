/**
 The search tree: what it means as a binary trie, and the loop that walks it.  The trie is a
 specification; the walk reads packed records out of the file in 32-bit arithmetic.
 */
module SearchTree {
  import opened Bytes
  import opened Decoder

  const MMDB_DATA_SECTION_SEPARATOR := 16

  // ----- tries -----

  /** `Cut` is a search node that was reached when no address bits are left. */
  datatype Trie = Leaf(record: Word) | Branch(left: Trie, right: Trie) | Cut

  /** Where an address leads: a leaf and the number of bits that led there, or nowhere. */
  datatype Hit = Hit(record: Word, bits: nat) | Exhausted

  ghost function Find(t: Trie, address: seq<bool>): Hit
    decreases t
  {
    match t
    case Leaf(record) => Hit(record, 0)
    case Cut => Exhausted
    case Branch(l, r) =>
      if address == [] then Exhausted
      else Deeper(Find(if address[0] then r else l, address[1..]), 1)
  }

  function Deeper(h: Hit, n: nat): Hit {
    if h.Hit? then h.(bits := h.bits + n) else h
  }

  /** The path of bits `p` leads from the root to the leaf `record`. */
  ghost predicate LeafAt(t: Trie, p: seq<bool>, record: Word)
    decreases t
  {
    match t
    case Leaf(r) => p == [] && r == record
    case Cut => false
    case Branch(l, r) => p != [] && LeafAt(if p[0] then r else l, p[1..], record)
  }

  /** An address finds a leaf exactly if that leaf's path is a prefix of it. */
  lemma {:induction false} FindIff(t: Trie, address: seq<bool>, record: Word, n: nat)
    ensures Find(t, address) == Hit(record, n) <==> n <= |address| && LeafAt(t, address[..n], record)
    decreases t
  {
    if t.Branch? && address != [] {
      var next := if address[0] then t.right else t.left;
      if n > 0 {
        assert n <= |address| ==> address[..n][1..] == address[1..][..n - 1];
        FindIff(next, address[1..], record, n - 1);
      }
    }
  }

  /** No leaf's path is a prefix of another's. */
  lemma {:induction false} PrefixFree(t: Trie, p: seq<bool>, record: Word, q: seq<bool>, other: Word)
    requires LeafAt(t, p, record) && LeafAt(t, q, other) && p <= q
    ensures p == q && record == other
    decreases t
  {
    if t.Branch? {
      assert p[0] == q[0] && p[1..] <= q[1..];
      PrefixFree(if p[0] then t.right else t.left, p[1..], record, q[1..], other);
      assert p == [p[0]] + p[1..] && q == [q[0]] + q[1..];
    }
  }

  /** The bits consumed name the network: every address that shares them gets the same answer. */
  lemma SameNetwork(t: Trie, address: seq<bool>, other: seq<bool>)
    requires Find(t, address).Hit?
    requires var n := Find(t, address).bits; n <= |address| ==> n <= |other| && other[..n] == address[..n]
    ensures Find(t, other) == Find(t, address)
  {
    var Hit(record, n) := Find(t, address);
    FindIff(t, address, record, n);
    FindIff(t, other, record, n);
  }

  /** Two addresses with different answers are told apart within the shorter of the two networks. */
  lemma NetworksDisjoint(t: Trie, address: seq<bool>, other: seq<bool>)
    requires Find(t, address).Hit? && Find(t, other).Hit?
    requires Find(t, address) != Find(t, other)
    requires Find(t, address).bits <= Find(t, other).bits
    ensures Find(t, address).bits <= |address| && Find(t, other).bits <= |other|
    ensures var n := Find(t, address).bits; address[..n] != other[..n]
  {
    var Hit(r, n) := Find(t, address);
    var Hit(s, m) := Find(t, other);
    FindIff(t, address, r, n);
    FindIff(t, other, s, m);
    if address[..n] == other[..n] {
      SameNetwork(t, address, other);
    }
  }

  // ----- record pairs -----

  datatype RecordType = SearchNode | Empty | Data | Invalid

  /** `record_type` */
  function TypeOfRecord(nodeCount: Word, dataSectionSize: Word, record: Word): RecordType {
    if record == 0 then Invalid
    else if record < nodeCount then SearchNode
    else if record == nodeCount then Empty
    else if record - nodeCount < dataSectionSize then Data
    else Invalid
  }

  /** A search tree as its nodes' pairs of records, next to a data section of known size. */
  datatype Index = Index(nodes: seq<(Word, Word)>, dataSectionSize: Word)
  {
    predicate Valid() {
      1 <= |nodes| < 0x1_0000_0000
    }

    function Child(node: Word, bit: bool): Word
      requires node < |nodes|
    {
      if bit then nodes[node].1 else nodes[node].0
    }

    function RecordType(record: Word): RecordType
      requires Valid()
    {
      TypeOfRecord(|nodes|, dataSectionSize, record)
    }

    /** `data_section_offset_for_record` */
    function DataSectionOffset(record: Word): Word
      requires Valid()
    {
      Sub32(Sub32(record, |nodes|), MMDB_DATA_SECTION_SEPARATOR)
    }

    /** The trie below a record, as far as `bits` more bits can lead. */
    ghost function Unfold(record: Word, bits: nat): Trie
      requires Valid()
      decreases bits, this
    {
      if RecordType(record) != SearchNode then Leaf(record)
      else if bits == 0 then Cut
      else Branch(Unfold(Child(record, false), bits - 1), Unfold(Child(record, true), bits - 1))
    }

    /** The trie below a node. */
    ghost function Below(node: Word, bits: nat): Trie
      requires Valid() && node < |nodes| && bits > 0
    {
      Branch(Unfold(Child(node, false), bits - 1), Unfold(Child(node, true), bits - 1))
    }
  }

  // ----- packed records -----

  /** What is fixed about an opened database. */
  datatype Layout = Layout(file: seq<Byte>, nodeCount: Word, recordLength: nat, ipVersion: nat)
  {
    /**
     What `MMDB_open` and `read_metadata` have checked, for files below 4 GiB in which the size of
     the search tree does not overflow 32 bits.
     */
    ghost predicate Opened() {
      && nodeCount >= 1
      && (recordLength == 6 || recordLength == 7 || recordLength == 8)
      && (ipVersion == 4 || ipVersion == 6)
      && TreeSize() + MMDB_DATA_SECTION_SEPARATOR + 3 <= |file| < 0x1_0000_0000
    }

    function TreeSize(): nat {
      nodeCount * recordLength
    }

    function DataSection(): Section
      requires Opened()
    {
      file[TreeSize() + MMDB_DATA_SECTION_SEPARATOR..]
    }

    function Depth(): nat {
      if ipVersion == 4 then 32 else 128
    }

    lemma NodeInTree(node: Word)
      requires Opened() && node < nodeCount
      ensures node * recordLength + recordLength <= TreeSize()
    {
      MulLe(node + 1, nodeCount, recordLength);
      assert (node + 1) * recordLength == node * recordLength + recordLength;
    }

    /** The record that the bytes of a node hold for a bit. */
    ghost function RecordAt(node: Word, bit: bool): Word
      requires Opened() && node < nodeCount
    {
      NodeInTree(node);
      RecordOf(file[node * recordLength..node * recordLength + recordLength], bit)
    }

    /** The pairs of records that the file packs. */
    ghost function Unpacked(): (index: Index)
      requires Opened()
      ensures index.Valid() && |index.nodes| == nodeCount && index.dataSectionSize == |DataSection()|
    {
      UnpackedExists();
      var nodes: seq<(Word, Word)> :| |nodes| == nodeCount && IsUnpacked(nodes);
      Index(nodes, |DataSection()|)
    }

    ghost predicate IsUnpacked(nodes: seq<(Word, Word)>)
      requires Opened() && |nodes| == nodeCount
    {
      forall node: Word {:trigger Here(node)} :: Here(node) && node < nodeCount ==>
        nodes[node] == (RecordAt(node, false), RecordAt(node, true))
    }

    lemma UnpackedExists()
      requires Opened()
      ensures exists nodes: seq<(Word, Word)> :: |nodes| == nodeCount && IsUnpacked(nodes)
    {
      var nodes: seq<(Word, Word)> := seq(nodeCount, node requires 0 <= node < nodeCount =>
        (RecordAt(node, false), RecordAt(node, true)));
      assert IsUnpacked(nodes);
    }

    lemma UnpackedAt(node: Word, bit: bool)
      requires Opened() && node < nodeCount
      ensures Unpacked().Child(node, bit) == RecordAt(node, bit)
    {
      assert Here(node);
    }
  }

  lemma MulLe(a: nat, b: nat, c: nat)
    requires a <= b
    ensures a * c <= b * c
  {
  }

  /** The format's section "Node Layout": two records side by side; 28-bit ones share byte 3. */
  function RecordOf(b: seq<Byte>, right: bool): (r: Word)
    requires |b| == 6 || |b| == 7 || |b| == 8
  {
    if |b| == 6 then
      assert Pow256(3) == 0x100_0000;
      BigEndianBound(b[..3]); BigEndianBound(b[3..]);
      BigEndian(if right then b[3..] else b[..3])
    else if |b| == 7 then
      assert Pow256(4) == 0x1_0000_0000;
      BigEndianBound([b[3] / 16] + b[..3]); BigEndianBound([b[3] % 16] + b[4..]);
      BigEndian(if right then [b[3] % 16] + b[4..] else [b[3] / 16] + b[..3])
    else
      assert Pow256(4) == 0x1_0000_0000;
      BigEndianBound(b[..4]); BigEndianBound(b[4..]);
      BigEndian(if right then b[4..] else b[..4])
  }

  /** A node packed as the format says. */
  function PackNode(left: nat, right: nat, recordLength: nat): (b: seq<Byte>)
    requires recordLength == 6 || recordLength == 7 || recordLength == 8
    requires var limit := if recordLength == 7 then 0x1000_0000 else Pow256(recordLength / 2);
             left < limit && right < limit
    ensures |b| == recordLength
  {
    if recordLength == 7 then
      ToBigEndian(left % 0x100_0000, 3) + [left / 0x100_0000 * 16 + right / 0x100_0000]
      + ToBigEndian(right % 0x100_0000, 3)
    else
      ToBigEndian(left, recordLength / 2) + ToBigEndian(right, recordLength / 2)
  }

  lemma BigEndianPrepend(d: Byte, s: seq<Byte>)
    requires |s| == 3
    ensures BigEndian([d] + s) == d * 0x100_0000 + BigEndian(s)
  {
    Four([d] + s);
    Three(s);
  }

  lemma SharedByte(high: nat, low: nat)
    requires high < 16 && low < 16
    ensures (high * 16 + low) / 16 == high && (high * 16 + low) % 16 == low
  {
  }

  /** Both records of every packed node read back. */
  lemma NodeRoundTrip(left: nat, right: nat, recordLength: nat)
    requires recordLength == 6 || recordLength == 7 || recordLength == 8
    requires var limit := if recordLength == 7 then 0x1000_0000 else Pow256(recordLength / 2);
             left < limit && right < limit
    ensures RecordOf(PackNode(left, right, recordLength), false) == left
    ensures RecordOf(PackNode(left, right, recordLength), true) == right
  {
    var b := PackNode(left, right, recordLength);
    if recordLength == 7 {
      SharedByte(left / 0x100_0000, right / 0x100_0000);
      assert Pow256(3) == 0x100_0000;
      var l, r := ToBigEndian(left % 0x100_0000, 3), ToBigEndian(right % 0x100_0000, 3);
      BigEndianRoundTrip(left % 0x100_0000, 3);
      BigEndianRoundTrip(right % 0x100_0000, 3);
      assert b[..3] == l && b[4..] == r;
      BigEndianPrepend(b[3] / 16, l);
      BigEndianPrepend(b[3] % 16, r);
    } else {
      var half := recordLength / 2;
      BigEndianRoundTrip(left, half);
      BigEndianRoundTrip(right, half);
      assert b[..half] == ToBigEndian(left, half) && b[half..] == ToBigEndian(right, half);
    }
  }

  /** `get_left_28_bit_record`, its mask and shift written as a division and a product. */
  function LeftRecord28(p: seq<Byte>, at: nat): (r: Word)
    requires at + 7 <= |p|
    ensures r == RecordOf(p[at..at + 7], false)
  {
    var b := p[at..at + 7];
    BigEndianPrepend(b[3] / 16, b[..3]);
    Three(b[..3]);
    p[at] as int * 65536 + p[at + 1] as int * 256 + p[at + 2] + p[at + 3] as int / 16 * 16 * 0x10_0000
  }

  /** `get_right_28_bit_record`, which starts at the shared byte. */
  function RightRecord28(p: seq<Byte>, at: nat): (r: Word)
    requires 3 <= at && at + 4 <= |p|
    ensures r == RecordOf(p[at - 3..at + 4], true)
  {
    var b := p[at - 3..at + 4];
    BigEndianPrepend(b[3] % 16, b[4..]);
    Three(b[4..]);
    GetUint32(p, at) % 0x1000_0000
  }

  // ----- what a lookup reports -----

  /** `MMDB_lookup_result_s` */
  datatype LookupResult = LookupResult(foundEntry: bool, offset: Word, netmask: nat)

  const NOTHING_FOUND := LookupResult(false, 0, 0)

  /** The bits of an address, most significant first. */
  function Bits(address: seq<Byte>): (bits: seq<bool>)
    ensures |bits| == 8 * |address|
  {
    seq(8 * |address|, i requires 0 <= i < 8 * |address| => BitAt(address, i))
  }

  function BitAt(address: seq<Byte>, i: nat): bool
    requires i < 8 * |address|
  {
    address[i / 8] / Pow2(7 - i % 8) % 2 == 1
  }

  /** Status and result for where an address leads. */
  function Verdict(index: Index, h: Hit): (r: (Status, LookupResult))
    requires index.Valid()
    ensures r.0 == Success || r == (CorruptSearchTree, NOTHING_FOUND)
  {
    if h.Exhausted? then (CorruptSearchTree, NOTHING_FOUND)
    else
      match index.RecordType(h.record)
      case Data => (Success, LookupResult(true, index.DataSectionOffset(h.record), h.bits))
      case Empty => (Success, LookupResult(false, index.DataSectionOffset(h.record), h.bits))
      case _ => (CorruptSearchTree, NOTHING_FOUND)
  }

  /** The netmask that a lookup reports names a network all of whose addresses get the same report. */
  lemma LookupNetwork(index: Index, address: seq<bool>, other: seq<bool>)
    requires index.Valid() && |address| == |other| > 0
    requires var r := Verdict(index, Find(index.Below(0, |address|), address));
             r.0 == Success && (r.1.netmask <= |address| ==> other[..r.1.netmask] == address[..r.1.netmask])
    ensures Verdict(index, Find(index.Below(0, |address|), address)).1.netmask <= |address|
    ensures Verdict(index, Find(index.Below(0, |address|), other))
            == Verdict(index, Find(index.Below(0, |address|), address))
  {
    var t := index.Below(0, |address|);
    FindIff(t, address, Find(t, address).record, Find(t, address).bits);
    SameNetwork(t, address, other);
  }

  // ----- the IPv4 start node -----

  /** The record on the left spine where the walk over zero bits, `taken` of them done, ends. */
  function Spine(index: Index, node: Word, taken: nat): (r: (Word, nat))
    requires index.Valid() && node < |index.nodes| && taken <= 96
    ensures r.1 <= 96 && (r.0 < |index.nodes| ==> r.1 == 96)
    decreases 96 - taken, index
  {
    if taken == 96 then (node, 96)
    else
      var next := index.Child(node, false);
      if next >= |index.nodes| then (next, taken) else Spine(index, next, taken + 1)
  }

  /** What an IPv4 address gets in an IPv6 tree by way of the start node. */
  ghost function InetVerdict(index: Index, address: seq<bool>): (r: (Status, LookupResult))
    requires index.Valid() && |address| == 32
    ensures r.0 == Success || r == (CorruptSearchTree, NOTHING_FOUND)
  {
    var (start, netmask) := Spine(index, 0, 0);
    match index.RecordType(start)
    case SearchNode => Verdict(index, Deeper(Find(index.Below(start, 32), address), 96))
    case _ => Verdict(index, Hit(start, 128 - netmask))
  }

  /** No record on the first `96 - taken` steps of the left spine below `node` is zero. */
  ghost predicate NoZeroOnSpine(index: Index, node: Word, taken: nat)
    requires index.Valid() && node < |index.nodes| && taken <= 96
    decreases 96 - taken, index
  {
    taken == 96 ||
    (var next := index.Child(node, false);
     next != 0 && (next >= |index.nodes| || NoZeroOnSpine(index, next, taken + 1)))
  }

  function Zeros(n: nat): (z: seq<bool>)
    ensures |z| == n
  {
    seq(n, _ => false)
  }

  /** One step down the trie: a leaf, the end of the address, or a node below. */
  lemma FindStep(index: Index, node: Word, left: nat, address: seq<bool>)
    requires index.Valid() && node < |index.nodes| && address != []
    ensures var record := index.Child(node, address[0]);
            Find(index.Below(node, left + 1), address) ==
            if index.RecordType(record) != SearchNode then Hit(record, 1)
            else Deeper(Find(if left == 0 then Cut else index.Below(record, left), address[1..]), 1)
  {
  }

  /** The full walk over zero bits and then `rest` follows the spine and then continues below it. */
  lemma {:induction false} SpineWalk(index: Index, node: Word, taken: nat, rest: seq<bool>)
    requires index.Valid() && node < |index.nodes| && taken <= 96 && |rest| == 32
    requires NoZeroOnSpine(index, node, taken) && (taken == 96 ==> node != 0)
    ensures var (start, netmask) := Spine(index, node, taken);
            && taken <= netmask && start != 0
            && Find(index.Below(node, 128 - taken), Zeros(96 - taken) + rest) ==
               if start < |index.nodes| then Deeper(Find(index.Below(start, 32), rest), 96 - taken)
               else Hit(start, netmask + 1 - taken)
    decreases 96 - taken, index
  {
    var address := Zeros(96 - taken) + rest;
    if taken == 96 {
      assert address == rest;
    } else {
      var next := index.Child(node, false);
      assert address[1..] == Zeros(96 - (taken + 1)) + rest;
      FindStep(index, node, 127 - taken, address);
      if next < |index.nodes| {
        SpineWalk(index, next, taken + 1, rest);
      }
    }
  }

  /** A zero record on the spine sends the full walk nowhere. */
  lemma {:induction false} ZeroOnSpineWalk(index: Index, node: Word, taken: nat, rest: seq<bool>)
    requires index.Valid() && node < |index.nodes| && taken <= 96 && |rest| == 32
    requires !NoZeroOnSpine(index, node, taken)
    ensures Verdict(index, Find(index.Below(node, 128 - taken), Zeros(96 - taken) + rest)).0 == CorruptSearchTree
    decreases 96 - taken, index
  {
    var address := Zeros(96 - taken) + rest;
    var next := index.Child(node, false);
    assert address[1..] == Zeros(96 - (taken + 1)) + rest;
    FindStep(index, node, 127 - taken, address);
    if next != 0 {
      ZeroOnSpineWalk(index, next, taken + 1, rest);
    }
  }

  /** The full 128-bit lookup of the IPv6 address `::a.b.c.d`. */
  ghost function FullVerdict(index: Index, address: seq<bool>): (Status, LookupResult)
    requires index.Valid() && |address| == 32
  {
    Verdict(index, Find(index.Below(0, 128), Zeros(96) + address))
  }

  /** The same for an IPv4 address in an IPv6 tree; a start node that is a leaf answers for all of them. */
  lemma InetNetwork(index: Index, address: seq<bool>, other: seq<bool>)
    requires index.Valid() && |address| == |other| == 32 && InetVerdict(index, address).0 == Success
    requires var n := InetVerdict(index, address).1.netmask;
             index.RecordType(Spine(index, 0, 0).0) == SearchNode && 96 <= n <= 128 ==>
               other[..n - 96] == address[..n - 96]
    ensures index.RecordType(Spine(index, 0, 0).0) == SearchNode ==> 96 < InetVerdict(index, address).1.netmask <= 128
    ensures InetVerdict(index, other) == InetVerdict(index, address)
  {
    var start := Spine(index, 0, 0).0;
    if index.RecordType(start) == SearchNode {
      var t := index.Below(start, 32);
      FindIff(t, address, Find(t, address).record, Find(t, address).bits);
      SameNetwork(t, address, other);
    }
  }

  predicate Terminal(index: Index, record: Word)
    requires index.Valid()
  {
    index.RecordType(record) == Data || index.RecordType(record) == Empty
  }

  /** Below the 96-step spine the tree has an answer for an IPv4 address. */
  ghost predicate Serves(index: Index, address: seq<bool>)
    requires index.Valid() && |address| == 32
  {
    var start := Spine(index, 0, 0).0;
    if index.RecordType(start) == SearchNode then
      exists n: nat, record: Word ::
        n <= 32 && LeafAt(index.Below(start, 32), address[..n], record) && Terminal(index, record)
    else Terminal(index, start)
  }

  lemma ServesIff(index: Index, address: seq<bool>)
    requires index.Valid() && |address| == 32
    ensures InetVerdict(index, address).0 == Success <==> Serves(index, address)
  {
    var start := Spine(index, 0, 0).0;
    if index.RecordType(start) == SearchNode {
      var t := index.Below(start, 32);
      if InetVerdict(index, address).0 == Success {
        var Hit(record, n) := Find(t, address);
        FindIff(t, address, record, n);
        assert n <= 32 && LeafAt(index.Below(start, 32), address[..n], record) && Terminal(index, record);
      }
      forall n: nat, record: Word | n <= 32 && LeafAt(t, address[..n], record)
        ensures Find(t, address) == Hit(record, n)
      {
        FindIff(t, address, record, n);
      }
    }
  }

  /**
   The shortcut through the start node and the full lookup agree on status, on whether there is an
   entry and on its offset, for an address, if and only if the spine has no zero record or the tree
   has no answer for the address below the spine either.
   */
  lemma ShortcutAgreesIff(index: Index, address: seq<bool>)
    requires index.Valid() && |address| == 32
    ensures var inet, full := InetVerdict(index, address), FullVerdict(index, address);
            (inet.0 == full.0 && inet.1.foundEntry == full.1.foundEntry && inet.1.offset == full.1.offset)
            <==> NoZeroOnSpine(index, 0, 0) || !Serves(index, address)
  {
    ServesIff(index, address);
    if NoZeroOnSpine(index, 0, 0) {
      SpineWalk(index, 0, 0, address);
    } else {
      ZeroOnSpineWalk(index, 0, 0, address);
    }
  }

  /**
   When they agree on success, the netmask is the same below a start node that is a search node;
   above it, where one record covers all IPv4 addresses, the shortcut reports `129 - n` for `n`.
   */
  lemma ShortcutNetmask(index: Index, address: seq<bool>)
    requires index.Valid() && |address| == 32 && NoZeroOnSpine(index, 0, 0)
    requires FullVerdict(index, address).0 == Success
    ensures var inet, full := InetVerdict(index, address), FullVerdict(index, address);
            if index.RecordType(Spine(index, 0, 0).0) == SearchNode then inet.1.netmask == full.1.netmask
            else inet.1.netmask == 129 - full.1.netmask != full.1.netmask
  {
    SpineWalk(index, 0, 0, address);
  }

  /** Both lookups of an address whose start node is a leaf other than zero. */
  lemma LeafStart(index: Index, address: seq<bool>, record: Word, n: nat)
    requires index.Valid() && |address| == 32 && NoZeroOnSpine(index, 0, 0)
    requires Spine(index, 0, 0) == (record, n) && record >= |index.nodes|
    ensures n <= 96 && InetVerdict(index, address) == Verdict(index, Hit(record, 128 - n))
    ensures FullVerdict(index, address) == Verdict(index, Hit(record, n + 1))
  {
    SpineWalk(index, 0, 0, address);
  }

  // ----- the reader -----

  class MMDB {
    const db: Layout

    // ipv4_start_node
    var startValue: Word
    var startNetmask: nat

    ghost predicate Valid()
      reads this
    {
      db.Opened() && (startValue != 0 ==> (startValue, startNetmask) == Spine(db.Unpacked(), 0, 0))
    }

    /** The end of `MMDB_open`, once the metadata is read and checked. */
    constructor (db: Layout)
      requires db.Opened()
      ensures Valid() && this.db == db
      ensures db.ipVersion == 6 ==> (startValue, startNetmask) == Spine(db.Unpacked(), 0, 0)
    {
      this.db := db;
      startValue, startNetmask := 0, 0;
      new;
      if db.ipVersion == 6 {
        var status := FindIpv4StartNode();
      }
    }

    /** One record of a node, by the getters for its width; none outside the tree. */
    method ReadRecord(node: Word, bit: bool) returns (record: Option<Word>)
      requires db.Opened()
      ensures node < db.nodeCount ==> record == Some(db.Unpacked().Child(node, bit))
    {
      if node < db.nodeCount {
        db.NodeInTree(node);
        db.UnpackedAt(node, bit);
      }
      var file, length := db.file, db.recordLength;
      var at := Mul32(node, length);
      if at + length > db.TreeSize() + MMDB_DATA_SECTION_SEPARATOR {
        return None;
      }
      Slice(file, at, length, if length == 8 then 4 else 3);
      if length == 6 {
        record := Some(if bit then GetUint24(file, at + 3) else GetUint24(file, at));
      } else if length == 7 {
        record := Some(if bit then RightRecord28(file, at + 3) else LeftRecord28(file, at));
      } else {
        record := Some(if bit then GetUint32(file, at + 4) else GetUint32(file, at));
      }
    }

    /** `find_ipv4_start_node` */
    method FindIpv4StartNode() returns (status: Status)
      requires Valid()
      modifies this`startValue, this`startNetmask
      ensures status == Success
      ensures Valid() && (startValue, startNetmask) == Spine(db.Unpacked(), 0, 0)
    {
      if startValue != 0 {
        return Success;
      }
      var nodeValue: Word := 0;
      var netmask := 0;
      while netmask < 96
        invariant netmask <= 96 && nodeValue < db.nodeCount
        invariant Spine(db.Unpacked(), nodeValue, netmask) == Spine(db.Unpacked(), 0, 0)
      {
        var record := ReadRecord(nodeValue, false);
        if record.None? {
          return CorruptSearchTree;
        }
        nodeValue := record.value;
        if nodeValue >= db.nodeCount {
          break;
        }
        netmask := netmask + 1;
      }
      startValue, startNetmask := nodeValue, netmask;
      return Success;
    }

    /** `maybe_populate_result`, where `netmask` counts the bits not consumed. */
    method MaybePopulateResult(record: Word, netmask: nat, result: LookupResult)
      returns (typ: RecordType, populated: LookupResult)
      requires db.Opened() && netmask <= db.Depth()
      ensures typ == db.Unpacked().RecordType(record)
      ensures typ == SearchNode || typ == Invalid ==> populated == result
      ensures typ == Empty || typ == Data ==>
        (Success, populated) == Verdict(db.Unpacked(), Hit(record, db.Depth() - netmask))
    {
      typ, populated := TypeOfRecord(db.nodeCount, |db.DataSection()|, record), result;
      if typ == SearchNode || typ == Invalid {
        return;
      }
      populated := LookupResult(typ == Data, Sub32(Sub32(record, db.nodeCount), MMDB_DATA_SECTION_SEPARATOR),
                                db.Depth() - netmask);
    }

    /**
     `find_address_in_search_tree`: the loop refines the trie; for an IPv4 address in an IPv6 tree
     it starts below the cached start node.
     */
    method FindAddressInSearchTree(address: seq<Byte>, inet: bool) returns (status: Status, result: LookupResult)
      requires Valid() && 8 * |address| == db.Depth()
      modifies this`startValue, this`startNetmask
      ensures Valid()
      ensures (status, result) ==
              if inet && db.ipVersion == 6 then InetVerdict(db.Unpacked(), Bits(address)[96..])
              else Verdict(db.Unpacked(), Find(db.Unpacked().Below(0, db.Depth()), Bits(address)))
    {
      result := NOTHING_FOUND;
      var value: Word := 0;
      var maxDepth0 := db.Depth() - 1;
      var startBit := maxDepth0;
      if db.ipVersion == 6 && inet {
        status := FindIpv4StartNode();
        if status != Success {
          return;
        }
        var typ;
        typ, result := MaybePopulateResult(startValue, startNetmask, result);
        if typ == Invalid {
          return CorruptSearchTree, result;
        }
        if typ != SearchNode {
          return Success, result;
        }
        value := startValue;
        startBit := startBit - startNetmask;
      }
      assert Bits(address)[0..] == Bits(address);
      status, result := WalkTree(address, value, startBit);
    }

    /** The loop of `find_address_in_search_tree`, from the node `start` on. */
    method WalkTree(address: seq<Byte>, start: Word, startBit: nat) returns (status: Status, result: LookupResult)
      requires db.Opened() && 8 * |address| == db.Depth() && startBit < db.Depth() && start < db.nodeCount
      ensures var taken := db.Depth() - 1 - startBit;
              (status, result)
              == Verdict(db.Unpacked(), Remaining(db.Unpacked(), start, startBit, Bits(address), taken))
    {
      ghost var index, bits := db.Unpacked(), Bits(address);
      result := NOTHING_FOUND;
      var maxDepth0 := db.Depth() - 1;
      ghost var goal := Verdict(index, Remaining(index, start, startBit, bits, maxDepth0 - startBit));
      var value: Word := start;
      var currentBit: int := startBit;
      while currentBit >= 0
        invariant -1 <= currentBit <= startBit && value < db.nodeCount
        invariant goal == Verdict(index, Remaining(index, value, currentBit, bits, maxDepth0 - currentBit))
      {
        var done;
        done, status, value, result := WalkStep(address, value, currentBit);
        if done {
          return;
        }
        currentBit := currentBit - 1;
      }
      RemainingEnd(index, value, bits, maxDepth0 + 1);
      return CorruptSearchTree, NOTHING_FOUND;
    }

    /** The body of the loop: read a record, and stop unless it is a search node. */
    method WalkStep(address: seq<Byte>, node: Word, currentBit: nat)
      returns (done: bool, status: Status, value: Word, result: LookupResult)
      requires db.Opened() && 8 * |address| == db.Depth() && currentBit < db.Depth() && node < db.nodeCount
      ensures !done ==> value < db.nodeCount
      ensures var index, taken := db.Unpacked(), db.Depth() - 1 - currentBit;
              Verdict(index, Remaining(index, node, currentBit, Bits(address), taken)) ==
              if done then (status, result)
              else Verdict(index, Remaining(index, value, currentBit - 1, Bits(address), taken + 1))
    {
      var maxDepth0 := db.Depth() - 1;
      ghost var index, bits := db.Unpacked(), Bits(address);
      var bit := BitAt(address, maxDepth0 - currentBit);
      RemainingStep(index, node, currentBit, bits, maxDepth0 - currentBit);
      var record := ReadRecord(node, bit);
      assert record == Some(index.Child(node, bits[maxDepth0 - currentBit]));
      if record.None? {
        return true, CorruptSearchTree, node, NOTHING_FOUND;
      }
      var typ;
      typ, result := MaybePopulateResult(record.value, currentBit, NOTHING_FOUND);
      done := typ != SearchNode;
      status := if typ == Invalid then CorruptSearchTree else Success;
      value := record.value;
    }

    /**
     `MMDB_lookup_sockaddr` on the bytes of the address: an IPv4 address is looked up in an IPv6
     tree as `::a.b.c.d`.
     */
    method LookupSockaddr(address: seq<Byte>, inet: bool) returns (error: Status, result: LookupResult)
      requires Valid() && |address| == if inet then 4 else 16
      modifies this`startValue, this`startNetmask
      ensures Valid()
      ensures (error, result) ==
              if inet && db.ipVersion == 6 then InetVerdict(db.Unpacked(), Bits(address))
              else if inet || db.ipVersion == 6 then
                Verdict(db.Unpacked(), Find(db.Unpacked().Below(0, db.Depth()), Bits(address)))
              else (Ipv6LookupInIpv4Database, NOTHING_FOUND)
    {
      var mapped := address;
      if db.ipVersion == 4 {
        if !inet {
          return Ipv6LookupInIpv4Database, NOTHING_FOUND;
        }
      } else if inet {
        mapped := seq(12, _ => 0) + address;
        assert Bits(mapped)[96..] == Bits(address);
      }
      error, result := FindAddressInSearchTree(mapped, inet);
    }
  }

  /** Where the address leads when the walk has come to `node` with bits `currentBit`, ..., 0 left. */
  ghost function Remaining(index: Index, node: Word, currentBit: int, bits: seq<bool>, taken: nat): Hit
    requires index.Valid() && node < |index.nodes| && currentBit >= -1 && taken <= |bits|
  {
    Deeper(Find(if currentBit == -1 then Cut else index.Below(node, currentBit + 1), bits[taken..]), taken)
  }

  /** No bits are left. */
  lemma RemainingEnd(index: Index, node: Word, bits: seq<bool>, taken: nat)
    requires index.Valid() && node < |index.nodes| && taken <= |bits|
    ensures Verdict(index, Remaining(index, node, -1, bits, taken)) == (CorruptSearchTree, NOTHING_FOUND)
  {
  }

  lemma RemainingStep(index: Index, node: Word, currentBit: nat, bits: seq<bool>, taken: nat)
    requires index.Valid() && node < |index.nodes| && taken < |bits|
    ensures var record := index.Child(node, bits[taken]);
            Verdict(index, Remaining(index, node, currentBit, bits, taken)) ==
            if index.RecordType(record) != SearchNode then Verdict(index, Hit(record, taken + 1))
            else Verdict(index, Remaining(index, record, currentBit - 1, bits, taken + 1))
  {
    assert bits[taken..][0] == bits[taken] && bits[taken..][1..] == bits[taken + 1..];
    FindStep(index, node, currentBit, bits[taken..]);
  }

  lemma Slice(s: seq<Byte>, at: nat, length: nat, cut: nat)
    requires cut <= length && at + length <= |s|
    ensures s[at..at + length][..cut] == s[at..at + cut]
    ensures s[at..at + length][cut..] == s[at + cut..at + length]
  {
  }

  /**
   Every record classed as data names an offset inside the data section, or is one of the fifteen
   records just above the empty one; those name an offset that the decoder refuses.
   */
  lemma DataRecordOffset(db: Layout, record: Word)
    requires db.Opened() && db.Unpacked().RecordType(record) == Data
    ensures if record - db.nodeCount >= MMDB_DATA_SECTION_SEPARATOR
            then db.Unpacked().DataSectionOffset(record) == record - db.nodeCount - 16 < |db.DataSection()|
            else db.Unpacked().DataSectionOffset(record) == 0x1_0000_0000 - (16 - (record - db.nodeCount)) &&
                 db.Unpacked().DataSectionOffset(record) !in FieldsOf(db.DataSection())
  {
    FieldsOfAt(db.DataSection(), db.Unpacked().DataSectionOffset(record));
  }
}
