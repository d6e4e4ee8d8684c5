/** Whole values, written one field after the other or as pointers to where they stand, and read back. */
module ValueEncoding {
  import opened Bytes
  import opened Decoder
  import opened ValueTree
  import opened Encoding

  /** A value on its own, without positions. */
  datatype Plain = Plain(item: Item, kids: seq<Plain>)

  /** How a value is written: in place, or as a pointer to `at`, where it is written in place. */
  datatype Form = Inline(item: Item, kids: seq<Form>) | Shared(at: Word, value: Form)

  predicate EncodableItem(item: Item) {
    match item
    case Utf8String(text) => |text| < SIZE_LIMIT
    case ByteString(bytes) => |bytes| < SIZE_LIMIT
    case Double(bits) => |bits| == 8
    case Float(bits) => |bits| == 4
    case UInt16(v) => v < Pow256(2)
    case UInt32(v) => v < Pow256(4)
    case Int32(v) => -0x8000_0000 <= v < 0x8000_0000
    case UInt64(v) => v < Pow256(8)
    case UInt128(v) => v < Pow256(16)
    case Map(n) => n < SIZE_LIMIT
    case Array(n) => n < SIZE_LIMIT
    case Boolean(_) => true
    case _ => false
  }

  predicate Encodable(f: Form)
    decreases f, 0
  {
    match f
    case Inline(item, kids) => EncodableItem(item) && |kids| == item.Arity() && AllEncodable(kids)
    case Shared(_, value) => value.Inline? && Encodable(value)
  }

  predicate AllEncodable(fs: seq<Form>)
    decreases fs, 1
  {
    fs == [] || (AllEncodable(fs[..|fs| - 1]) && Encodable(fs[|fs| - 1]))
  }

  /** The type numbers of the format's section "Output Data Section". */
  function TypeNumber(item: Item): (t: nat)
    requires EncodableItem(item)
    ensures 2 <= t <= 15
  {
    match item
    case Utf8String(_) => 2
    case Double(_) => 3
    case ByteString(_) => 4
    case UInt16(_) => 5
    case UInt32(_) => 6
    case Map(_) => 7
    case Int32(_) => 8
    case UInt64(_) => 9
    case UInt128(_) => 10
    case Array(_) => 11
    case Boolean(_) => 14
    case Float(_) => 15
  }

  function Payload(item: Item): (b: seq<Byte>)
    requires EncodableItem(item)
    ensures |b| < SIZE_LIMIT
  {
    match item
    case Utf8String(text) => text
    case ByteString(bytes) => bytes
    case Double(bits) => bits
    case Float(bits) => bits
    case UInt16(v) => ToBigEndian(v, 2)
    case UInt32(v) => ToBigEndian(v, 4)
    case Int32(v) => ToBigEndian(v % 0x1_0000_0000, 4)
    case UInt64(v) => ToBigEndian(v, 8)
    case UInt128(v) => ToBigEndian(v, 16)
    case _ => []
  }

  /** The number in the size field: for containers the count, for booleans the value. */
  function SizeField(item: Item): (n: nat)
    requires EncodableItem(item)
    ensures n < SIZE_LIMIT
  {
    if item.IsContainer() then item.count
    else if item.Boolean? then (if item.b then 1 else 0)
    else |Payload(item)|
  }

  /** The control byte, for types above 7 with a zero type and a second type byte. */
  function ControlBytes(item: Item): (b: seq<Byte>)
    requires EncodableItem(item)
    ensures 1 <= |b| <= 2
  {
    var t, field := TypeNumber(item), EncodeSize(SizeField(item)).0;
    if t <= 7 then [t * 32 + field] else [field, t - 7]
  }

  function EncodeField(item: Item): seq<Byte>
    requires EncodableItem(item)
  {
    ControlBytes(item) + (EncodeSize(SizeField(item)).1 + Payload(item))
  }

  /** Reading the payload of a scalar gives back the item. */
  lemma ScalarRoundTrip(item: Item)
    requires EncodableItem(item) && !item.IsContainer() && !item.Boolean?
    ensures ScalarOf(TypeNumber(item), Payload(item)) == Some(item)
  {
    match item {
      case UInt16(v) => IntegerRoundTrip(v, Payload(item));
      case UInt32(v) => IntegerRoundTrip(v, Payload(item));
      case Int32(v) =>
        Powers();
        IntegerRoundTrip(v % 0x1_0000_0000, Payload(item));
        SignedRoundTrip(v);
      case UInt64(v) => IntegerRoundTrip(v, Payload(item));
      case UInt128(v) => IntegerRoundTrip(v, Payload(item));
      case Utf8String(_) =>
      case ByteString(_) =>
      case Double(_) =>
      case Float(_) =>
    }
  }

  /** Integers may be written with any number of bytes up to their width, none included. */
  lemma IntegerRoundTrip(v: nat, payload: seq<Byte>)
    requires v < Pow256(|payload|) && payload == ToBigEndian(v, |payload|)
    ensures ScalarOf(5, payload) == if |payload| <= 2 then Some(UInt16(v)) else None
    ensures ScalarOf(6, payload) == if |payload| <= 4 then Some(UInt32(v)) else None
    ensures ScalarOf(8, payload) == if |payload| <= 4 then Some(Int32(Signed32(v))) else None
    ensures ScalarOf(9, payload) == if |payload| <= 8 then Some(UInt64(v)) else None
    ensures ScalarOf(10, payload) == if |payload| <= 16 then Some(UInt128(v)) else None
  {
    BigEndianRoundTrip(v, |payload|);
  }

  /** Floats and doubles have one size each; a boolean is its size field. */
  lemma FixedSizes(payload: seq<Byte>, sec: Section, off: Word, size: Word, start: Word)
    ensures ScalarOf(15, payload) == if |payload| == 4 then Some(Float(payload)) else None
    ensures ScalarOf(3, payload) == if |payload| == 8 then Some(Double(payload)) else None
    ensures off < start <= |sec| ==> ValueAt(sec, off, 14, size, start) == Some(Entry(off, Boolean(size > 0), start))
  {
  }

  lemma SignedRoundTrip(v: int)
    requires -0x8000_0000 <= v < 0x8000_0000
    ensures Signed32(v % 0x1_0000_0000) == v
  {
  }

  lemma ControlRoundTrip(sec: Section, off: Word, item: Item)
    requires EncodableItem(item) && BytesAt(sec, off, ControlBytes(item))
    ensures ControlAt(sec, off) == Some(Control(TypeNumber(item), sec[off], off + |ControlBytes(item)|))
    ensures sec[off] % 32 == EncodeSize(SizeField(item)).0
  {
    var b := ControlBytes(item);
    assert sec[off..off + |b|][0] == b[0];
    if |b| == 2 {
      assert sec[off..off + |b|][1] == b[1];
    }
  }

  /** Every field is read back where it was written. */
  lemma FieldRoundTrip(sec: Section, off: Word, item: Item)
    requires EncodableItem(item) && BytesAt(sec, off, EncodeField(item))
    ensures off + |EncodeField(item)| <= |sec|
    ensures DecodeAt(sec, off) == Some(Entry(off, item, off + |EncodeField(item)|))
  {
    var body, start, end := FieldParts(sec, off, item);
    FieldReads(sec, off, item, body, start, Entry(off, item, off + |EncodeField(item)|));
  }

  /** A field is read from its three parts. */
  lemma FieldReads(sec: Section, off: Word, item: Item, body: Word, start: Word, field: Entry)
    requires EncodableItem(item) && BytesAt(sec, off, ControlBytes(item)) && body == off + |ControlBytes(item)|
    requires BytesAt(sec, body, EncodeSize(SizeField(item)).1) && start == body + |EncodeSize(SizeField(item)).1|
    requires BytesAt(sec, start, Payload(item)) && field == Entry(off, item, start + |Payload(item)|)
    ensures DecodeAt(sec, off) == Some(field)
  {
    var size := SizeField(item);
    ControlRoundTrip(sec, off, item);
    SizeReads(sec, sec[off], body, size, start);
    PayloadRoundTrip(sec, off, item, start);
    DecodeFrom(sec, off, TypeNumber(item), sec[off], body, size, start, field);
  }

  lemma SizeReads(sec: Section, ctrl: Byte, body: Word, n: nat, start: Word)
    requires n < SIZE_LIMIT && ctrl % 32 == EncodeSize(n).0
    requires BytesAt(sec, body, EncodeSize(n).1) && start == body + |EncodeSize(n).1|
    ensures SizeAt(sec, ctrl, body) == Some((n, start))
  {
    SizeRoundTrip(sec, ctrl, body, n);
  }

  /** Where the parts of a field stand. */
  lemma FieldParts(sec: Section, off: Word, item: Item) returns (body: Word, start: Word, end: Word)
    requires EncodableItem(item) && BytesAt(sec, off, EncodeField(item))
    ensures off < body == off + |ControlBytes(item)| && BytesAt(sec, off, ControlBytes(item))
    ensures body <= start == body + |EncodeSize(SizeField(item)).1|
    ensures BytesAt(sec, body, EncodeSize(SizeField(item)).1)
    ensures end == start + |Payload(item)| == off + |EncodeField(item)| <= |sec| && BytesAt(sec, start, Payload(item))
  {
    var control, extra, payload := ControlBytes(item), EncodeSize(SizeField(item)).1, Payload(item);
    BytesAtSplit(sec, off, control, extra + payload);
    body := off + |control|;
    BytesAtSplit(sec, body, extra, payload);
    start := body + |extra|;
    end := start + |payload|;
  }

  lemma DecodeFrom(sec: Section, off: Word, typ: nat, ctrl: Byte, body: Word, size: Word, start: Word, field: Entry)
    requires ControlAt(sec, off) == Some(Control(typ, ctrl, body)) && typ != TYPE_POINTER
    requires SizeAt(sec, ctrl, body) == Some((size, start))
    requires off < start <= |sec| && ValueAt(sec, off, typ, size, start) == Some(field)
    ensures DecodeAt(sec, off) == Some(field)
  {
  }

  lemma PayloadRoundTrip(sec: Section, off: Word, item: Item, start: Word)
    requires EncodableItem(item) && off < start && BytesAt(sec, start, Payload(item))
    ensures ValueAt(sec, off, TypeNumber(item), SizeField(item), start) ==
            Some(Entry(off, item, start + |Payload(item)|))
  {
    if !item.IsContainer() && !item.Boolean? {
      ScalarRoundTrip(item);
    }
  }

  /** A pointer field: the type in the three high bits of its control byte. */
  function EncodePointerField(at: Word): (b: seq<Byte>)
    ensures |b| >= 2
  {
    [32 + EncodePointer(at).0] + EncodePointer(at).1
  }

  /** Wherever the bytes of a pointer stand, they are that pointer and nothing more. */
  lemma PointerStands(sec: Section, off: Word, at: Word)
    requires BytesAt(sec, off, EncodePointerField(at))
    ensures DecodeAt(sec, off) == Some(Entry(off, Pointer(at), off + |EncodePointerField(at)|))
    ensures off in FieldsOf(sec) && FieldsOf(sec)[off] == Entry(off, Pointer(at), off + |EncodePointerField(at)|)
  {
    var low, raw := EncodePointer(at).0, EncodePointer(at).1;
    assert sec[off..off + 1 + |raw|][0] == 32 + low;
    BytesAtSplit(sec, off, [32 + low], raw);
    PointerRoundTrip(sec, sec[off], off + 1, at);
    PointerFrom(sec, off, sec[off], at, off + 1 + |raw|);
    FieldsOfAt(sec, off);
  }

  lemma PointerFrom(sec: Section, off: Word, ctrl: Byte, at: Word, next: Word)
    requires off < |sec| && sec[off] == ctrl && ctrl / 32 == 1
    requires PointerAt(sec, ctrl, off + 1) == Some((at, next)) && off < next <= |sec|
    ensures DecodeAt(sec, off) == Some(Entry(off, Pointer(at), next))
  {
  }

  function Encode(f: Form): seq<Byte>
    requires Encodable(f)
    decreases f, 0
  {
    match f
    case Inline(item, kids) => EncodeField(item) + EncodeSeq(kids)
    case Shared(at, _) => EncodePointerField(at)
  }

  function EncodeSeq(fs: seq<Form>): seq<Byte>
    requires AllEncodable(fs)
    decreases fs, 1
  {
    if fs == [] then [] else EncodeSeq(fs[..|fs| - 1]) + Encode(fs[|fs| - 1])
  }

  /** Every value that is pointed to stands at the offset that its pointer names. */
  ghost predicate Shares(sec: Section, f: Form)
    requires Encodable(f)
    decreases f, 0
  {
    match f
    case Inline(_, kids) => AllShares(sec, kids)
    case Shared(at, value) => BytesAt(sec, at, Encode(value)) && Shares(sec, value)
  }

  ghost predicate AllShares(sec: Section, fs: seq<Form>)
    requires AllEncodable(fs)
    decreases fs, 1
  {
    fs == [] || (AllShares(sec, fs[..|fs| - 1]) && Shares(sec, fs[|fs| - 1]))
  }

  /** The value that is written. */
  function Content(f: Form): Plain
    decreases f, 0
  {
    match f
    case Inline(item, kids) => Plain(item, ContentSeq(kids))
    case Shared(_, value) => Content(value)
  }

  function ContentSeq(fs: seq<Form>): seq<Plain>
    decreases fs, 1
  {
    if fs == [] then [] else ContentSeq(fs[..|fs| - 1]) + [Content(fs[|fs| - 1])]
  }

  /** The value that a resolved tree holds, without positions. */
  function Erase(t: Tree): Plain
    decreases t, 0
  {
    Plain(t.entry.item, EraseSeq(t.kids))
  }

  function EraseSeq(ts: seq<Tree>): seq<Plain>
    decreases ts, 1
  {
    if ts == [] then [] else EraseSeq(ts[..|ts| - 1]) + [Erase(ts[|ts| - 1])]
  }

  /**
   Wherever an encoded value stands in a section, with whatever it points to, those bytes denote that
   value, and reading continues just after them.
   */
  lemma {:induction false} ValueRoundTrip(sec: Section, off: Word, f: Form) returns (t: Tree)
    requires Encodable(f) && BytesAt(sec, off, Encode(f)) && Shares(sec, f)
    ensures Denotes(FieldsOf(sec), off, t) && Erase(t) == Content(f)
    ensures t.entry.offset == (if f.Shared? then f.at else off) && t.entry.next == off + |Encode(f)|
    decreases f, 0
  {
    match f
    case Inline(item, kids) =>
      var body := ValueStarts(sec, off, f);
      var ts := RunRoundTrip(sec, body, kids);
      var end := KidPos(body, ts, |ts|);
      t := Node(Entry(off, item, end), ts);
      DenotesInline(FieldsOf(sec), off, item, body, ts, end);
    case Shared(at, value) =>
      var u := ValueRoundTrip(sec, at, value);
      var body := ValueStarts(sec, at, value);
      PointerStands(sec, off, at);
      t := Node(u.entry.(next := off + |EncodePointerField(at)|), u.kids);
      DenotesShared(FieldsOf(sec), off, at, off + |EncodePointerField(at)|, u, t);
  }

  /** The field at the start of a value written in place, and the bytes of its members behind it. */
  lemma ValueStarts(sec: Section, off: Word, f: Form) returns (body: Word)
    requires f.Inline? && Encodable(f) && BytesAt(sec, off, Encode(f))
    ensures off in FieldsOf(sec) && FieldsOf(sec)[off] == Entry(off, f.item, body)
    ensures BytesAt(sec, body, EncodeSeq(f.kids)) && body + |EncodeSeq(f.kids)| == off + |Encode(f)|
  {
    BytesAtSplit(sec, off, EncodeField(f.item), EncodeSeq(f.kids));
    body := off + |EncodeField(f.item)|;
    FieldStands(sec, off, f.item, Entry(off, f.item, body));
  }

  lemma FieldStands(sec: Section, off: Word, item: Item, field: Entry)
    requires EncodableItem(item) && BytesAt(sec, off, EncodeField(item))
    requires field == Entry(off, item, off + |EncodeField(item)|)
    ensures off in FieldsOf(sec) && FieldsOf(sec)[off] == field
  {
    FieldRoundTrip(sec, off, item);
    FieldsOfAt(sec, off);
  }

  /** A field that is no pointer, and its members behind it. */
  lemma DenotesInline(fields: Fields, off: Word, item: Item, body: Word, ts: seq<Tree>, end: Word)
    requires off in fields && fields[off] == Entry(off, item, body) && !item.Pointer? && |ts| == item.Arity()
    requires DenotesSeq(fields, body, ts) && end == KidPos(body, ts, |ts|)
    ensures Denotes(fields, off, Node(Entry(off, item, end), ts))
  {
  }

  /** A pointer to a field that is none denotes what stands there, and ends behind itself. */
  lemma DenotesShared(fields: Fields, off: Word, at: Word, end: Word, u: Tree, t: Tree)
    requires off in fields && fields[off] == Entry(off, Pointer(at), end)
    requires at in fields && !fields[at].item.Pointer? && Denotes(fields, at, u)
    requires t == Node(u.entry.(next := end), u.kids)
    ensures Denotes(fields, off, t)
  {
    if !fields[at].item.IsContainer() {
      assert u.kids == [];
    }
  }

  lemma {:induction false} RunRoundTrip(sec: Section, start: Word, fs: seq<Form>) returns (ts: seq<Tree>)
    requires AllEncodable(fs) && BytesAt(sec, start, EncodeSeq(fs)) && AllShares(sec, fs)
    ensures DenotesSeq(FieldsOf(sec), start, ts) && |ts| == |fs| && EraseSeq(ts) == ContentSeq(fs)
    ensures KidPos(start, ts, |ts|) == start + |EncodeSeq(fs)|
    decreases fs, 1
  {
    if fs == [] {
      return [];
    }
    var init, last := fs[..|fs| - 1], fs[|fs| - 1];
    var middle := RunParts(sec, start, fs);
    var us := RunRoundTrip(sec, start, init);
    var t := ValueRoundTrip(sec, middle, last);
    assert |us| == |fs| - 1;
    assert KidPos(start, us, |us|) == middle;
    ts := us + [t];
    RunSnoc(FieldsOf(sec), start, fs, us, t, middle);
  }

  /** One more value behind a run. */
  lemma RunSnoc(fields: Fields, start: Word, fs: seq<Form>, us: seq<Tree>, t: Tree, middle: Word)
    requires fs != [] && |us| == |fs| - 1 && KidPos(start, us, |us|) == middle
    requires DenotesSeq(fields, start, us) && EraseSeq(us) == ContentSeq(fs[..|fs| - 1])
    requires Denotes(fields, middle, t) && Erase(t) == Content(fs[|fs| - 1])
    ensures DenotesSeq(fields, start, us + [t]) && EraseSeq(us + [t]) == ContentSeq(fs)
    ensures |us + [t]| == |fs| && KidPos(start, us + [t], |us + [t]|) == t.entry.next
  {
    DenotesSnoc(fields, start, us, t);
    EraseSnoc(us, t);
  }

  /** Where the last value of a run stands. */
  lemma RunParts(sec: Section, start: Word, fs: seq<Form>) returns (middle: Word)
    requires AllEncodable(fs) && fs != [] && BytesAt(sec, start, EncodeSeq(fs))
    ensures AllEncodable(fs[..|fs| - 1]) && Encodable(fs[|fs| - 1])
    ensures BytesAt(sec, start, EncodeSeq(fs[..|fs| - 1])) && middle == start + |EncodeSeq(fs[..|fs| - 1])|
    ensures BytesAt(sec, middle, Encode(fs[|fs| - 1])) && middle + |Encode(fs[|fs| - 1])| == start + |EncodeSeq(fs)|
  {
    BytesAtSplit(sec, start, EncodeSeq(fs[..|fs| - 1]), Encode(fs[|fs| - 1]));
    middle := start + |EncodeSeq(fs[..|fs| - 1])|;
  }

  lemma EraseSnoc(ts: seq<Tree>, t: Tree)
    ensures EraseSeq(ts + [t]) == EraseSeq(ts) + [Erase(t)]
  {
    assert (ts + [t])[..|ts|] == ts;
  }
}
