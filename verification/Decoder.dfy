/**
 One field of the data section.  `DecodeAt` says what the MaxMind DB File Format
 (section "Data Field Format") makes of the bytes at an offset, in plain arithmetic;
 `DecodeOne` is the reader itself, in 32-bit unsigned arithmetic that can wrap.
 */
module Decoder {
  import opened Bytes

  /**
   A data section (or metadata section).  The library refuses smaller ones when a file
   is opened, because the bounds checks below subtract up to 3 from the size.
   */
  type Section = s: seq<Byte> | 3 <= |s| < 0x1_0000_0000 witness [0, 0, 0]

  datatype Status =
    | Success
    | CorruptSearchTree
    | InvalidMetadata
    | OutOfMemory
    | UnknownDatabaseFormat
    | InvalidData
    | InvalidLookupPath
    | LookupPathDoesNotMatchData
    | InvalidNodeNumber
    | Ipv6LookupInIpv4Database

  const TYPE_EXTENDED := 0
  const TYPE_POINTER := 1
  const TYPE_UTF8_STRING := 2
  const TYPE_DOUBLE := 3
  const TYPE_BYTES := 4
  const TYPE_UINT16 := 5
  const TYPE_UINT32 := 6
  const TYPE_MAP := 7
  const TYPE_INT32 := 8
  const TYPE_UINT64 := 9
  const TYPE_UINT128 := 10
  const TYPE_ARRAY := 11
  const TYPE_BOOLEAN := 14
  const TYPE_FLOAT := 15

  /** The typed union inside an `MMDB_entry_data_s`; floats stay opaque bytes. */
  datatype Item =
    | Pointer(target: Word)
    | Utf8String(text: seq<Byte>)
    | Double(bits: seq<Byte>)
    | ByteString(bytes: seq<Byte>)
    | UInt16(u16: nat)
    | UInt32(u32: nat)
    | Map(count: Word)
    | Int32(i32: int)
    | UInt64(u64: nat)
    | UInt128(u128: nat)
    | Array(count: Word)
    | Boolean(b: bool)
    | Float(bits: seq<Byte>)
    | Other(typ: nat)
  {
    predicate IsContainer() {
      Map? || Array?
    }

    /** How many fields follow the header of a container. */
    function Arity(): nat {
      match this
      case Map(n) => 2 * n
      case Array(n) => n
      case _ => 0
    }
  }

  /** `MMDB_entry_data_s`: where the field starts, what it holds, where the next one starts. */
  datatype Entry = Entry(offset: Word, item: Item, next: Word)

  // ----- what the format says -----

  /** The type of a field, its control byte, and where its body starts. */
  datatype Control = Control(typ: nat, ctrl: Byte, body: nat)

  function ControlAt(sec: Section, off: nat): Option<Control> {
    if off >= |sec| then None
    else if sec[off] / 32 != TYPE_EXTENDED then Some(Control(sec[off] / 32, sec[off], off + 1))
    else if off + 1 >= |sec| then None
    else Some(Control(7 + sec[off + 1] as int, sec[off], off + 2))
  }

  /** The first payload size that needs `n` extra bytes. */
  function SizeBase(n: nat): nat
    requires 1 <= n <= 3
  {
    if n == 1 then 29 else if n == 2 then 285 else 65821
  }

  /** The first pointer that needs `n + 1` value bytes; the widest form has no base. */
  function PointerBase(n: nat): nat
    requires 1 <= n <= 4
  {
    if n == 1 then 0 else if n == 2 then 2048 else if n == 3 then 526336 else 0
  }

  /** The payload size and the offset just after it. */
  function SizeAt(sec: Section, ctrl: Byte, body: nat): (r: Option<(Word, nat)>)
    ensures r.Some? && body <= |sec| ==> body <= r.value.1 <= |sec|
  {
    var field := ctrl % 32;
    if field < 29 then Some((field, body))
    else
      var n := field - 28;
      if body + n > |sec| then None
      else
        var extra := sec[body..body + n];
        BigEndianBound(extra);
        assert Pow256(n) <= 16777216 by { Pow256Monotone(n, 3); }
        Some((SizeBase(n) + BigEndian(extra), body + n))
  }

  /** The offset a pointer names and the offset just after the pointer. */
  function PointerAt(sec: Section, ctrl: Byte, body: nat): Option<(Word, nat)> {
    var n := ctrl / 8 % 4 + 1;
    if body + n > |sec| then None
    else
      var raw := sec[body..body + n];
      BigEndianBound(raw);
      if n == 4 then Some((BigEndian(raw), body + n))
      else Some((PointerBase(n) + ctrl % 8 * Pow256(n) + BigEndian(raw), body + n))
  }

  /** The value of a scalar of the given type, if its payload has an admissible size. */
  function ScalarOf(typ: nat, payload: seq<Byte>): Option<Item> {
    var size, value := |payload|, BigEndian(payload);
    if typ == TYPE_UTF8_STRING then Some(Utf8String(payload))
    else if typ == TYPE_BYTES then Some(ByteString(payload))
    else if typ == TYPE_UINT16 then if size > 2 then None else Some(UInt16(value))
    else if typ == TYPE_UINT32 then if size > 4 then None else Some(UInt32(value))
    else if typ == TYPE_INT32 then if size > 4 then None else Some(Int32(Signed32(value)))
    else if typ == TYPE_UINT64 then if size > 8 then None else Some(UInt64(value))
    else if typ == TYPE_UINT128 then if size > 16 then None else Some(UInt128(value))
    else if typ == TYPE_FLOAT then if size != 4 then None else Some(Float(payload))
    else if typ == TYPE_DOUBLE then if size != 8 then None else Some(Double(payload))
    else Some(Other(typ))
  }

  /** The conversion of an unsigned value to `int32_t`. */
  function Signed32(v: int): int {
    var w := v % 0x1_0000_0000;
    if w < 0x8000_0000 then w else w - 0x1_0000_0000
  }

  /** The field at `off` once its type and payload size are known and its payload starts at `start`. */
  function ValueAt(sec: Section, off: Word, typ: nat, size: Word, start: Word): (r: Option<Entry>)
    requires off < start <= |sec|
    ensures r.Some? ==> r.value.offset == off < r.value.next <= |sec|
  {
    if typ == TYPE_MAP then Some(Entry(off, Map(size), start))
    else if typ == TYPE_ARRAY then Some(Entry(off, Array(size), start))
    else if typ == TYPE_BOOLEAN then Some(Entry(off, Boolean(size != 0), start))
    else if start + size > |sec| then None
    else
      match ScalarOf(typ, sec[start..start + size])
      case None => None
      case Some(item) => Some(Entry(off, item, start + size))
  }

  /** The field that starts at `off`, if the bytes there are one. */
  function DecodeAt(sec: Section, off: nat): (r: Option<Entry>)
    ensures r.Some? ==> r.value.offset == off < r.value.next <= |sec|
  {
    match ControlAt(sec, off)
    case None => None
    case Some(Control(typ, ctrl, body)) =>
      if typ == TYPE_POINTER then
        match PointerAt(sec, ctrl, body)
        case None => None
        case Some((target, next)) => Some(Entry(off, Pointer(target), next))
      else
        match SizeAt(sec, ctrl, body)
        case None => None
        case Some((size, start)) => ValueAt(sec, off, typ, size, start)
  }

  /**
   A data section seen as a partial map from offsets to the fields that start there.  All
   that reading relies on is that a field ends after it starts and inside the section.
   */
  type Fields = m: map<Word, Entry> |
    forall off :: off in m ==> m[off].offset == off < m[off].next
    witness map[]

  ghost function FieldsOf(sec: Section): Fields {
    FieldsExist(sec);
    var m: Fields :| IsFieldsOf(sec, m);
    m
  }

  /** `m` holds exactly what can be decoded.  `Here` marks the offsets a proof needs this for. */
  ghost predicate IsFieldsOf(sec: Section, m: Fields) {
    forall off: Word {:trigger Here(off)} :: Here(off) ==>
      && (off in m <==> DecodeAt(sec, off).Some?)
      && (off in m ==> Some(m[off]) == DecodeAt(sec, off))
  }

  ghost predicate Here(off: Word) {
    true
  }

  lemma FieldsExist(sec: Section)
    ensures exists m: Fields :: IsFieldsOf(sec, m)
  {
    var m: map<Word, Entry> :=
      map off: Word | 0 <= off < |sec| && DecodeAt(sec, off).Some? :: DecodeAt(sec, off).value;
    assert IsFieldsOf(sec, m);
  }

  /** The map holds exactly what can be decoded, and every field ends inside the section. */
  lemma FieldsOfAt(sec: Section, off: Word)
    ensures off in FieldsOf(sec) <==> DecodeAt(sec, off).Some?
    ensures off in FieldsOf(sec) ==> Some(FieldsOf(sec)[off]) == DecodeAt(sec, off)
    ensures off in FieldsOf(sec) ==> off < FieldsOf(sec)[off].next <= |sec|
  {
    assert Here(off);
  }

  /** Following one pointer: scalars continue after the pointer, containers inside the target. */
  function Follow(fields: Fields, off: Word): (r: Option<Entry>)
    ensures r.Some? ==> !r.value.item.Pointer?
  {
    if off !in fields then None
    else if !fields[off].item.Pointer? then Some(fields[off])
    else
      var to := fields[off].item.target;
      if to !in fields || fields[to].item.Pointer? then None
      else if fields[to].item.IsContainer() then Some(fields[to])
      else Some(fields[to].(next := fields[off].next))
  }

  // ----- the reader -----

  /** `get_ptr_from`, whose masks and shifts are written as divisions and products. */
  function GetPtrFrom(ctrl: Byte, p: seq<Byte>, at: nat, ptrSize: nat): (r: Word)
    requires 1 <= ptrSize <= 4 && at + ptrSize <= |p|
    ensures r == (if ptrSize == 4 then 0 else PointerBase(ptrSize) + ctrl % 8 * Pow256(ptrSize))
                 + BigEndian(p[at..at + ptrSize])
  {
    BigEndianBound(p[at..at + ptrSize]);
    if ptrSize == 1 then
      assert BigEndian(p[at..at + 1]) == p[at] by { assert p[at..at + 1][..0] == []; }
      ctrl % 8 * 256 + p[at]
    else if ptrSize == 2 then
      Two(p[at..at + 2]);
      2048 + ctrl % 8 * 65536 + p[at] as int * 256 + p[at + 1]
    else if ptrSize == 3 then
      2048 + 524288 + ctrl % 8 * 16777216 + GetUint24(p, at)
    else
      GetUint32(p, at)
  }

  /**
   The body of `decode_one`.  Every bound is tested with a 32-bit subtraction from the section
   size; where that subtraction can wrap, a second test catches it.  The reader never indexes
   outside the section, and it accepts exactly the fields `DecodeAt` describes.
   */
  method ReadField(sec: Section, start: Word) returns (r: Option<Entry>)
    ensures r == DecodeAt(sec, start)
  {
    var control := ReadControl(sec, start);
    if control.None? {
      return None;
    }
    var Control(typ, ctrl, offset) := control.value;
    if typ == TYPE_POINTER {
      var pointer := ReadPointer(sec, ctrl, offset);
      return match pointer
        case None => None
        case Some((target, next)) => Some(Entry(start, Pointer(target), next));
    }
    var sized := ReadSize(sec, ctrl, offset);
    if sized.None? {
      return None;
    }
    r := ReadValue(sec, start, typ, sized.value.0, sized.value.1);
  }

  /** The control byte and, for an extended type, the byte after it. */
  method ReadControl(sec: Section, start: Word) returns (r: Option<Control>)
    ensures r == ControlAt(sec, start)
  {
    var sectionSize: Word := |sec|;
    var offset := start;
    if offset > Sub32(sectionSize, 1) {
      return None;
    }
    var ctrl := sec[offset];
    offset := Add32(offset, 1);
    var typ: nat := ctrl / 32 % 8;
    if typ == TYPE_EXTENDED {
      if offset > Sub32(sectionSize, 1) {
        return None;
      }
      typ := 7 + sec[offset] as int;
      offset := Add32(offset, 1);
    }
    r := Some(Control(typ, ctrl, offset));
  }

  /** What `decode_one` does once it knows type and payload size. */
  method ReadValue(sec: Section, start: Word, typ: nat, size: Word, offset: Word) returns (r: Option<Entry>)
    requires start < offset <= |sec|
    ensures r == ValueAt(sec, start, typ, size, offset)
  {
    var sectionSize: Word := |sec|;
    if typ == TYPE_MAP {
      return Some(Entry(start, Map(size), offset));
    }
    if typ == TYPE_ARRAY {
      return Some(Entry(start, Array(size), offset));
    }
    if typ == TYPE_BOOLEAN {
      return Some(Entry(start, Boolean(size != 0), offset));
    }
    if offset > Sub32(sectionSize, size) || sectionSize < size {
      return None;
    }
    var item := ReadScalar(sec, offset, size, typ);
    match item {
      case None => r := None;
      case Some(i) => r := Some(Entry(start, i, Add32(offset, size)));
    }
  }

  /** The pointer case of `decode_one`. */
  method ReadPointer(sec: Section, ctrl: Byte, offset: Word) returns (r: Option<(Word, Word)>)
    requires offset <= |sec|
    ensures r == PointerAt(sec, ctrl, offset)
  {
    var sectionSize: Word := |sec|;
    var psize := ctrl / 8 % 4 + 1;
    if offset > Sub32(sectionSize, psize) || sectionSize < psize {
      return None;
    }
    r := Some((GetPtrFrom(ctrl, sec, offset, psize), Add32(offset, psize)));
  }

  /** The size switch in the middle of `decode_one`. */
  method ReadSize(sec: Section, ctrl: Byte, body: Word) returns (r: Option<(Word, Word)>)
    requires body <= |sec|
    ensures r == SizeAt(sec, ctrl, body)
  {
    var sectionSize: Word := |sec|;
    var offset := body;
    var size: Word := ctrl % 32;
    if size == 29 {
      if offset > Sub32(sectionSize, 1) {
        return None;
      }
      assert BigEndian(sec[offset..offset + 1]) == sec[offset] by {
        assert sec[offset..offset + 1][..0] == [];
      }
      size := 29 + sec[offset] as int;
      offset := Add32(offset, 1);
    } else if size == 30 {
      if offset > Sub32(sectionSize, 2) {
        return None;
      }
      BigEndianBound(sec[offset..offset + 2]);
      size := 285 + GetUint16(sec, offset);
      offset := Add32(offset, 2);
    } else if size == 31 {
      if offset > Sub32(sectionSize, 3) {
        return None;
      }
      BigEndianBound(sec[offset..offset + 3]);
      size := 65821 + GetUint24(sec, offset);
      offset := Add32(offset, 3);
    }
    r := Some((size, offset));
  }

  /** The type switch at the end of `decode_one`, on a payload already known to be in bounds. */
  method ReadScalar(sec: Section, at: Word, size: Word, typ: nat) returns (item: Option<Item>)
    requires at + size <= |sec|
    ensures item == ScalarOf(typ, sec[at..at + size])
  {
    ghost var payload := sec[at..at + size];
    if typ == TYPE_UINT16 {
      if size > 2 { return None; }
      var v := GetUintX(sec, at, size, 8);
      BigEndianBound(payload);
      Pow256Monotone(size, 2);
      item := Some(UInt16(v % 0x1_0000));
    } else if typ == TYPE_UINT32 {
      if size > 4 { return None; }
      var v := GetUintX(sec, at, size, 8);
      BigEndianBound(payload);
      Pow256Monotone(size, 4);
      item := Some(UInt32(v % 0x1_0000_0000));
    } else if typ == TYPE_INT32 {
      if size > 4 { return None; }
      var v := GetUintX(sec, at, size, 8);
      item := Some(Int32(Signed32(v)));
    } else if typ == TYPE_UINT64 {
      if size > 8 { return None; }
      var v := GetUintX(sec, at, size, 8);
      item := Some(UInt64(v));
    } else if typ == TYPE_UINT128 {
      if size > 16 { return None; }
      var v := GetUintX(sec, at, size, 16);
      item := Some(UInt128(v));
    } else if typ == TYPE_FLOAT {
      item := if size != 4 then None else Some(Float(sec[at..at + 4]));
    } else if typ == TYPE_DOUBLE {
      item := if size != 8 then None else Some(Double(sec[at..at + 8]));
    } else if typ == TYPE_UTF8_STRING {
      item := Some(Utf8String(if size == 0 then [] else sec[at..at + size]));
    } else if typ == TYPE_BYTES {
      item := Some(ByteString(sec[at..at + size]));
    } else {
      item := Some(Other(typ));
    }
  }

  /** `decode_one`, stated on the map of fields that the traversals work with. */
  method DecodeOne(sec: Section, start: Word) returns (status: Status, entry: Entry)
    ensures status == Success || status == InvalidData
    ensures status == Success <==> start in FieldsOf(sec)
    ensures status == Success ==> entry == FieldsOf(sec)[start]
    ensures status == Success ==> entry.offset == start < entry.next <= |sec|
  {
    FieldsOfAt(sec, start);
    var field := ReadField(sec, start);
    if field.None? {
      return InvalidData, Entry(start, Other(0), start);
    }
    return Success, field.value;
  }

  /** `decode_one_follow`: a pointer to a pointer is refused. */
  method DecodeOneFollow(sec: Section, offset: Word) returns (status: Status, entry: Entry)
    ensures status == Success || status == InvalidData
    ensures status == Success <==> Follow(FieldsOf(sec), offset).Some?
    ensures status == Success ==> Follow(FieldsOf(sec), offset) == Some(entry)
  {
    status, entry := DecodeOne(sec, offset);
    if status != Success {
      return;
    }
    if entry.item.Pointer? {
      var next := entry.next;
      status, entry := DecodeOne(sec, entry.item.target);
      if status != Success {
        return;
      }
      if entry.item.Pointer? {
        status := InvalidData;
        return;
      }
      if !entry.item.Map? && !entry.item.Array? {
        entry := entry.(next := next);
      }
    }
  }
}
