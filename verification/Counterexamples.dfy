/** Inputs on which the database reader does other than one would expect. */
module Counterexamples {
  import opened Bytes
  import opened Decoder
  import opened ValueTree
  import opened Skipping
  import opened Encoding
  import opened ValueEncoding
  import opened SearchTree
  import opened TreeFile

  // ----- a zero record on the spine -----

  /** Five nodes down the left, the last of which leads back to the root; on the right, no data. */
  const LOOP: seq<(Word, Word)> := [(1, 5), (2, 5), (3, 5), (4, 5), (0, 5)]

  lemma {:induction false} LoopSpine(index: Index, node: Word, taken: nat)
    requires index.nodes == LOOP && taken <= 96 && node == taken % 5
    ensures Spine(index, node, taken) == (1, 96)
    ensures taken < 5 ==> !NoZeroOnSpine(index, node, taken)
    decreases 96 - taken
  {
    if taken < 96 {
      var next := (taken + 1) % 5;
      assert index.Child(node, false) == next;
      LoopSpine(index, next, taken + 1);
    }
  }

  lemma LoopVerdicts(index: Index, address: seq<bool>)
    requires index.nodes == LOOP && |address| == 32 && address[0]
    ensures FullVerdict(index, address).0 == CorruptSearchTree
    ensures InetVerdict(index, address).0 == Success
  {
    LoopSpine(index, 0, 0);
    ZeroOnSpineWalk(index, 0, 0, address);
    FindStep(index, 1, 31, address);
  }

  /**
   A file that opens, whatever data and metadata follow its tree, and in which the full lookup of an
   address fails where the shortcut succeeds.
   */
  lemma ShortcutDiffers(address: seq<bool>, data: Section) returns (db: Layout)
    requires |address| == 32 && address[0] && 46 + |data| < 0x1_0000_0000
    ensures db.Opened() && db.ipVersion == 6 && db.DataSection() == data
    ensures FullVerdict(db.Unpacked(), address).0 == CorruptSearchTree
    ensures InetVerdict(db.Unpacked(), address).0 == Success
  {
    assert Pow256(3) == 0x100_0000;
    db := FileRoundTrip(LOOP, 6, 6, data);
    LoopVerdicts(db.Unpacked(), address);
  }

  // ----- a start node that is a leaf -----

  /** A file with a single node that leads nowhere: the two lookups report the netmasks 128 and 1. */
  lemma NetmaskDiffers(address: seq<bool>, data: Section) returns (db: Layout)
    requires |address| == 32 && 22 + |data| < 0x1_0000_0000
    ensures db.Opened() && db.ipVersion == 6 && db.DataSection() == data
    ensures InetVerdict(db.Unpacked(), address).0 == Success && InetVerdict(db.Unpacked(), address).1.netmask == 128
    ensures FullVerdict(db.Unpacked(), address).0 == Success && FullVerdict(db.Unpacked(), address).1.netmask == 1
  {
    assert Pow256(3) == 0x100_0000;
    db := FileRoundTrip([(1, 1)], 6, 6, data);
    SingleNode(db.Unpacked(), address);
  }

  lemma SingleNode(index: Index, address: seq<bool>)
    requires index.nodes == [(1, 1)] && |address| == 32
    ensures InetVerdict(index, address).0 == Success && InetVerdict(index, address).1.netmask == 128
    ensures FullVerdict(index, address).0 == Success && FullVerdict(index, address).1.netmask == 1
  {
    SingleNodeSpine(index);
    EmptyStart(index, address, 1, 0);
  }

  /** A start node that is the empty record, `n` steps down the spine. */
  lemma EmptyStart(index: Index, address: seq<bool>, record: Word, n: nat)
    requires index.Valid() && |address| == 32 && NoZeroOnSpine(index, 0, 0)
    requires Spine(index, 0, 0) == (record, n) && index.RecordType(record) == Empty
    ensures n <= 96
    ensures InetVerdict(index, address).0 == Success && InetVerdict(index, address).1.netmask == 128 - n
    ensures FullVerdict(index, address).0 == Success && FullVerdict(index, address).1.netmask == n + 1
  {
    LeafStart(index, address, record, n);
    EmptyVerdict(index, record, 128 - n);
    EmptyVerdict(index, record, n + 1);
  }

  lemma EmptyVerdict(index: Index, record: Word, n: nat)
    requires index.Valid() && index.RecordType(record) == Empty
    ensures Verdict(index, Hit(record, n)) == (Success, LookupResult(false, index.DataSectionOffset(record), n))
  {
  }

  lemma SingleNodeSpine(index: Index)
    requires index.nodes == [(1, 1)]
    ensures Spine(index, 0, 0) == (1, 0) && NoZeroOnSpine(index, 0, 0) && index.RecordType(1) == Empty
  {
    assert index.Child(0, false) == 1;
  }

  // ----- a container as a map key -----

  /** In every map whose first key is written in place and has members, skipping stops short of the end. */
  lemma SkipStopsShort(sec: Section, off: Word, f: Form) returns (t: Tree)
    requires Encodable(f) && BytesAt(sec, off, Encode(f)) && Shares(sec, f)
    requires f.Inline? && f.item.Map? && f.kids != [] && f.kids[0].Inline? && f.kids[0].item.Arity() > 0
    ensures Denotes(FieldsOf(sec), off, t) && Erase(t) == Content(f)
    ensures SkipField(FieldsOf(sec), FieldsOf(sec)[off]).Some?
    ensures SkipField(FieldsOf(sec), FieldsOf(sec)[off]).value.pos < t.entry.next
  {
    t := ValueRoundTrip(sec, off, f);
    var start := ValueStarts(sec, off, f);
    KeyStands(sec, start, f.kids);
    KeyUnsafe(FieldsOf(sec), off, t);
    SkipAgreesIff(FieldsOf(sec), off, t);
  }

  /** The first of a run of encoded values starts where the run does. */
  lemma KeyStands(sec: Section, start: Word, fs: seq<Form>)
    requires AllEncodable(fs) && fs != [] && fs[0].Inline? && BytesAt(sec, start, EncodeSeq(fs))
    ensures start in FieldsOf(sec) && FieldsOf(sec)[start].item == fs[0].item
  {
    FirstField(fs);
    BytesAtPrefix(sec, start, EncodeField(fs[0].item), EncodeSeq(fs));
    FieldStands(sec, start, fs[0].item, Entry(start, fs[0].item, start + |EncodeField(fs[0].item)|));
  }

  lemma BytesAtPrefix(sec: Section, off: nat, a: seq<Byte>, b: seq<Byte>)
    requires a <= b && BytesAt(sec, off, b)
    ensures BytesAt(sec, off, a)
  {
    assert sec[off..off + |a|] == sec[off..off + |b|][..|a|];
  }

  lemma {:induction false} FirstField(fs: seq<Form>)
    requires AllEncodable(fs) && fs != [] && fs[0].Inline?
    ensures EncodableItem(fs[0].item) && EncodeField(fs[0].item) <= EncodeSeq(fs)
    decreases |fs|
  {
    var init := fs[..|fs| - 1];
    if init == [] {
      assert EncodeSeq(fs) == [] + Encode(fs[0]);
    } else {
      FirstField(init);
    }
  }

  lemma KeyUnsafe(fields: Fields, off: Word, t: Tree)
    requires Denotes(fields, off, t) && fields[off].item.Map? && fields[off].item.Arity() > 0
    requires fields[off].next in fields && fields[fields[off].next].item.Arity() > 0
    ensures !SkipSafe(fields, off, t)
  {
    KeyUnsafeRun(fields, fields[off].next, t.kids, |t.kids|);
  }

  lemma {:induction false} KeyUnsafeRun(fields: Fields, start: Word, ts: seq<Tree>, n: nat)
    requires 1 <= n <= |ts| && DenotesSeq(fields, start, ts)
    requires start in fields && fields[start].item.Arity() > 0
    ensures !SkipSafeRun(fields, start, ts, n, true)
    decreases n
  {
    if n > 1 {
      KeyUnsafeRun(fields, start, ts, n - 1);
    }
  }

  /** `{{"a": "b"}: "c"}`: eight bytes that are read in full and skipped only in part. */
  const INLINE_KEY: Form :=
    Inline(Map(1), [Inline(Map(1), [Inline(Utf8String([97]), []), Inline(Utf8String([98]), [])]),
                   Inline(Utf8String([99]), [])])

  lemma OneEncodable(p: Form)
    requires Encodable(p)
    ensures AllEncodable([p]) && EncodeSeq([p]) == Encode(p)
  {
    assert [p][..0] == [];
    assert EncodeSeq([p]) == [] + Encode(p);
  }

  lemma PairEncodable(p: Form, q: Form)
    requires Encodable(p) && Encodable(q)
    ensures AllEncodable([p, q]) && EncodeSeq([p, q]) == Encode(p) + Encode(q)
  {
    assert [p, q][..1] == [p];
    OneEncodable(p);
  }

  lemma LetterBytes(c: Byte)
    ensures Encodable(Inline(Utf8String([c]), [])) && Encode(Inline(Utf8String([c]), [])) == [0x41, c]
  {
  }

  lemma PairBytes(p: Form, q: Form)
    requires Encodable(p) && Encodable(q)
    ensures Encodable(Inline(Map(1), [p, q])) && Encode(Inline(Map(1), [p, q])) == [0xE1] + (Encode(p) + Encode(q))
  {
    PairEncodable(p, q);
  }

  lemma InnerMapBytes(a: Form, b: Form)
    requires a == Inline(Utf8String([97]), []) && b == Inline(Utf8String([98]), [])
    ensures Encodable(Inline(Map(1), [a, b])) && Encode(Inline(Map(1), [a, b])) == [0xE1, 0x41, 97, 0x41, 98]
  {
    LetterBytes(97);
    LetterBytes(98);
    PairBytes(a, b);
  }

  lemma InlineKeyBytes()
    ensures Encodable(INLINE_KEY) && Encode(INLINE_KEY) == [0xE1, 0xE1, 0x41, 97, 0x41, 98, 0x41, 99]
  {
    InnerMapBytes(INLINE_KEY.kids[0].kids[0], INLINE_KEY.kids[0].kids[1]);
    LetterBytes(99);
    OuterMapBytes(INLINE_KEY.kids[0], INLINE_KEY.kids[1]);
  }

  lemma OuterMapBytes(key: Form, value: Form)
    requires Encodable(key) && Encode(key) == [0xE1, 0x41, 97, 0x41, 98]
    requires Encodable(value) && Encode(value) == [0x41, 99]
    ensures Encodable(Inline(Map(1), [key, value]))
    ensures Encode(Inline(Map(1), [key, value])) == [0xE1, 0xE1, 0x41, 97, 0x41, 98, 0x41, 99]
  {
    PairBytes(key, value);
  }

  lemma PairShares(sec: Section, f: Form, g: Form)
    requires Encodable(f) && Encodable(g) && Shares(sec, f) && Shares(sec, g)
    requires Encodable(Inline(Map(1), [f, g]))
    ensures Shares(sec, Inline(Map(1), [f, g]))
  {
    assert [f, g][..1] == [f] && [f][..0] == [];
    assert AllShares(sec, [f]);
    assert AllShares(sec, [f, g]);
  }

  lemma InlineKeyShares(sec: Section)
    requires Encodable(INLINE_KEY)
    ensures Shares(sec, INLINE_KEY)
  {
    LetterBytes(97);
    LetterBytes(98);
    LetterBytes(99);
    InnerMapBytes(INLINE_KEY.kids[0].kids[0], INLINE_KEY.kids[0].kids[1]);
    PairShares(sec, INLINE_KEY.kids[0].kids[0], INLINE_KEY.kids[0].kids[1]);
    PairShares(sec, INLINE_KEY.kids[0], INLINE_KEY.kids[1]);
  }

  /** These bytes denote that value, and skipping it ends before it does. */
  lemma SkipDiffers() returns (t: Tree)
    ensures var fields := FieldsOf([0xE1, 0xE1, 0x41, 97, 0x41, 98, 0x41, 99]);
      && Denotes(fields, 0, t) && Erase(t) == Content(INLINE_KEY)
      && SkipField(fields, fields[0]).Some? && SkipField(fields, fields[0]).value.pos < t.entry.next
  {
    var sec: Section := [0xE1, 0xE1, 0x41, 97, 0x41, 98, 0x41, 99];
    InlineKeyBytes();
    assert sec[0..8] == sec;
    InlineKeyShares(sec);
    t := SkipStopsShort(sec, 0, INLINE_KEY);
  }
}
