/**
 Flattening a value into the pool's list: every field of the value tree, pointers resolved,
 in preorder.
 */
module EntryList {
  import opened Bytes
  import opened Decoder
  import opened ValueTree
  import opened Pooling

  const MMDB_POOL_INIT_SIZE := 64

  function Preorder(t: Tree): seq<Entry> {
    [t.entry] + PreorderSeq(t.kids)
  }

  function PreorderSeq(ts: seq<Tree>): seq<Entry> {
    if ts == [] then [] else PreorderSeq(ts[..|ts| - 1]) + Preorder(ts[|ts| - 1])
  }

  lemma {:induction false} ResolveSeqFails(fields: Fields, start: Word, i: nat, n: nat, fuel: nat)
    requires i <= n && ResolveSeq(fields, start, i, fuel).None?
    ensures ResolveSeq(fields, start, n, fuel).None?
    decreases n
  {
    if i < n {
      ResolveSeqFails(fields, start, i, n - 1, fuel);
    }
  }

  /** The entries held before are still held, except possibly the one at `at`. */
  ghost predicate Keeps(before: seq<Entry>, after: seq<Entry>, at: nat) {
    && |before| <= |after|
    && forall k :: 0 <= k < |before| && k != at ==> after[k] == before[k]
  }

  /**
   `get_entry_data_list`: fills `node` with the field at `offset` and claims a struct for every
   field below it.  It ends on every input, cyclic pointers included, because each nested call is
   one deeper and the depth is limited.
   */
  method GetEntryDataList(sec: Section, offset: Word, node: EntryDataList, pool: DataPool, depth: nat,
                          ghost at: nat, ghost before: seq<Entry>)
    returns (status: Status, ghost after: seq<Entry>)
    requires pool.Sound() && at < |pool.elements| && pool.elements[at] == node
    requires Holds(pool.elements, before) && depth <= MAXIMUM_DATA_STRUCTURE_DEPTH
    modifies pool, pool.cells`entryData
    ensures status == Success || status == InvalidData || (status == OutOfMemory && pool.Starved())
    ensures pool.Sound() && fresh(pool.cells - old(pool.cells)) && old(pool.elements) <= pool.elements
    ensures Holds(pool.elements, after) && Keeps(before, after, at)
    ensures Filled(Resolve(FieldsOf(sec), offset, MAXIMUM_DATA_STRUCTURE_DEPTH - depth), status, before, after, at)
    decreases MAXIMUM_DATA_STRUCTURE_DEPTH - depth, 0
  {
    after := before;
    if depth >= MAXIMUM_DATA_STRUCTURE_DEPTH {
      return InvalidData, after;
    }
    var field;
    status, field := DecodeOne(sec, offset);
    if status != Success {
      return;
    }
    Owned(pool, at);
    after := Store(field, node, pool, at, after);
    if field.item.Pointer? {
      status, after := GetTarget(sec, field, node, pool, depth + 1, at, before, after);
    } else if field.item.Array? || field.item.Map? {
      status, after := GetContainer(sec, field, node, pool, depth + 1, at, before, after);
    } else {
      FilledLeaf(FieldsOf(sec), offset, MAXIMUM_DATA_STRUCTURE_DEPTH - depth, before, after, at);
    }
  }

  /** The array and map cases: the members follow the struct, whose field ends where they end. */
  method GetContainer(sec: Section, field: Entry, node: EntryDataList, pool: DataPool, depth: nat,
                      ghost at: nat, ghost before: seq<Entry>, ghost stored: seq<Entry>)
    returns (status: Status, ghost after: seq<Entry>)
    requires pool.Sound() && at < |pool.elements| && pool.elements[at] == node
    requires at < |before| && stored == before[at := field]
    requires Holds(pool.elements, stored) && 1 <= depth <= MAXIMUM_DATA_STRUCTURE_DEPTH
    requires field.item.IsContainer() && field.offset in FieldsOf(sec) && field == FieldsOf(sec)[field.offset]
    modifies pool, pool.cells`entryData
    ensures status == Success || status == InvalidData || (status == OutOfMemory && pool.Starved())
    ensures pool.Sound() && fresh(pool.cells - old(pool.cells)) && old(pool.elements) <= pool.elements
    ensures Holds(pool.elements, after) && Keeps(before, after, at)
    ensures Filled(Resolve(FieldsOf(sec), field.offset, MAXIMUM_DATA_STRUCTURE_DEPTH - depth + 1), status, before,
                   after, at)
    decreases MAXIMUM_DATA_STRUCTURE_DEPTH - depth, 5
  {
    var end;
    ghost var mid;
    if field.item.Array? {
      status, end, mid := GetArray(sec, field, pool, depth, stored);
    } else {
      status, end, mid := GetMap(sec, field, pool, depth, stored);
    }
    after := mid;
    if status == Success {
      Owned(pool, at);
      after := Store(node.entryData.(next := end), node, pool, at, after);
    }
    FilledContainer(FieldsOf(sec), field.offset, MAXIMUM_DATA_STRUCTURE_DEPTH - depth + 1, status, end,
                    before, mid, after, at);
  }

  /** The pointer case: the struct ends up holding the target, followed by what follows the pointer. */
  method GetTarget(sec: Section, field: Entry, node: EntryDataList, pool: DataPool, depth: nat,
                   ghost at: nat, ghost before: seq<Entry>, ghost stored: seq<Entry>)
    returns (status: Status, ghost after: seq<Entry>)
    requires pool.Sound() && at < |pool.elements| && pool.elements[at] == node
    requires at < |before| && stored == before[at := field]
    requires Holds(pool.elements, stored) && 1 <= depth <= MAXIMUM_DATA_STRUCTURE_DEPTH
    requires field.item.Pointer? && field.offset in FieldsOf(sec) && field == FieldsOf(sec)[field.offset]
    modifies pool, pool.cells`entryData
    ensures status == Success || status == InvalidData || (status == OutOfMemory && pool.Starved())
    ensures pool.Sound() && fresh(pool.cells - old(pool.cells)) && old(pool.elements) <= pool.elements
    ensures Holds(pool.elements, after) && Keeps(before, after, at)
    ensures Filled(Resolve(FieldsOf(sec), field.offset, MAXIMUM_DATA_STRUCTURE_DEPTH - depth + 1), status, before,
                   after, at)
    decreases MAXIMUM_DATA_STRUCTURE_DEPTH - depth, 3
  {
    after := stored;
    var target;
    status, target := DecodeOne(sec, field.item.target);
    if status != Success {
      return;
    }
    Owned(pool, at);
    after := Store(target, node, pool, at, after);
    if target.item.Pointer? {
      return InvalidData, after;
    }
    if target.item.Array? || target.item.Map? {
      status, after := GetEntryDataList(sec, field.item.target, node, pool, depth, at, after);
      if status != Success {
        return;
      }
    }
    Owned(pool, at);
    after := FinishTarget(sec, field, node, pool, depth, at, before, stored, after);
  }

  /** Once the target is in the struct, reading continues after the pointer. */
  method FinishTarget(sec: Section, field: Entry, node: EntryDataList, pool: DataPool, depth: nat,
                      ghost at: nat, ghost before: seq<Entry>, ghost stored: seq<Entry>, ghost inner: seq<Entry>)
    returns (ghost after: seq<Entry>)
    requires pool.Sound() && at < |pool.elements| && pool.elements[at] == node && Holds(pool.elements, inner)
    requires 1 <= depth <= MAXIMUM_DATA_STRUCTURE_DEPTH
    requires at < |before| && stored == before[at := field] && |inner| == |pool.elements|
    requires field.item.Pointer? && field.offset in FieldsOf(sec) && field == FieldsOf(sec)[field.offset]
    requires HoldsTarget(FieldsOf(sec), field.item.target, MAXIMUM_DATA_STRUCTURE_DEPTH - depth, stored, inner, at)
    modifies node`entryData
    ensures pool.Sound() && Holds(pool.elements, after)
    ensures after == inner[at := inner[at].(next := field.next)]
    ensures Filled(Resolve(FieldsOf(sec), field.offset, MAXIMUM_DATA_STRUCTURE_DEPTH - depth + 1), Success, before,
                   after, at)
  {
    FilledTarget(FieldsOf(sec), field.offset, MAXIMUM_DATA_STRUCTURE_DEPTH - depth + 1, before, stored, inner, at);
    after := Store(node.entryData.(next := field.next), node, pool, at, inner);
  }

  /** On success the struct at `at` holds the value's own field and what is below it was appended. */
  ghost predicate Filled(resolved: Option<Tree>, status: Status, before: seq<Entry>, after: seq<Entry>, at: nat)
    requires at < |before|
  {
    && (status == InvalidData ==> resolved.None?)
    && (status == Success ==>
          resolved.Some? && after == before[at := resolved.value.entry] + PreorderSeq(resolved.value.kids))
  }

  /** On success one value was appended, and `next` is where it ends. */
  ghost predicate Claimed(resolved: Option<Tree>, status: Status, next: Word, before: seq<Entry>, after: seq<Entry>) {
    && (status == InvalidData ==> resolved.None?)
    && (status == Success ==>
          && resolved.Some? && next == resolved.value.entry.next
          && after == before + Preorder(resolved.value))
  }

  /** On success a whole run of values was appended, and `end` is where it ends. */
  ghost predicate Appended(resolved: Option<seq<Tree>>, start: Word, status: Status, end: Word,
                           before: seq<Entry>, after: seq<Entry>)
  {
    && (status == InvalidData ==> resolved.None?)
    && (status == Success ==>
          && resolved.Some?
          && end == KidPos(start, resolved.value, |resolved.value|)
          && after == before + PreorderSeq(resolved.value))
  }

  lemma AppendedNothing(fields: Fields, start: Word, fuel: nat, before: seq<Entry>)
    ensures Appended(ResolveSeq(fields, start, 0, fuel), start, Success, start, before, before)
  {
    assert before == before + PreorderSeq([]);
  }

  /** A struct that was handed out is one of the pool's. */
  lemma Owned(pool: DataPool, at: nat)
    requires pool.Sound() && at < |pool.elements|
    ensures pool.elements[at] in pool.cells
  {
    assert Here(0);
  }

  /** Writing one entry through a pointer to its struct. */
  method Store(e: Entry, node: EntryDataList, pool: DataPool, ghost at: nat, ghost before: seq<Entry>)
    returns (ghost after: seq<Entry>)
    requires pool.Sound() && Holds(pool.elements, before) && at < |before| && pool.elements[at] == node
    modifies node`entryData
    ensures pool.Sound() && after == before[at := e] && Holds(pool.elements, after)
  {
    assert Here(0);
    node.entryData := e;
    after := before[at := e];
  }

  /** The elements of an array, each in a struct of its own. */
  method GetArray(sec: Section, header: Entry, pool: DataPool, depth: nat, ghost before: seq<Entry>)
    returns (status: Status, end: Word, ghost after: seq<Entry>)
    requires pool.Sound() && Holds(pool.elements, before)
    requires header.item.Array? && depth <= MAXIMUM_DATA_STRUCTURE_DEPTH
    modifies pool, pool.cells`entryData
    ensures status == Success || status == InvalidData || (status == OutOfMemory && pool.Starved())
    ensures pool.Sound() && fresh(pool.cells - old(pool.cells)) && old(pool.elements) <= pool.elements
    ensures Holds(pool.elements, after) && before <= after
    ensures Appended(ResolveSeq(FieldsOf(sec), header.next, header.item.Arity(), MAXIMUM_DATA_STRUCTURE_DEPTH - depth),
                     header.next, status, end, before, after)
    decreases MAXIMUM_DATA_STRUCTURE_DEPTH - depth, 3
  {
    ghost var fields, fuel := FieldsOf(sec), MAXIMUM_DATA_STRUCTURE_DEPTH - depth;
    status, end, after := Success, header.next, before;
    AppendedNothing(fields, header.next, fuel, before);
    var size: nat, done: nat := header.item.count, 0;
    while done < size
      invariant done <= size && status == Success
      invariant pool.Sound() && fresh(pool.cells - old(pool.cells)) && old(pool.elements) <= pool.elements
      invariant Holds(pool.elements, after)
      invariant Appended(ResolveSeq(fields, header.next, done, fuel), header.next, Success, end, before, after)
    {
      status, end, after := NextMember(sec, end, pool, depth, header, done, before, after);
      if status != Success {
        return;
      }
      done := done + 1;
    }
  }

  /** The keys and values of a map, each in a struct of its own. */
  method GetMap(sec: Section, header: Entry, pool: DataPool, depth: nat, ghost before: seq<Entry>)
    returns (status: Status, end: Word, ghost after: seq<Entry>)
    requires pool.Sound() && Holds(pool.elements, before)
    requires header.item.Map? && depth <= MAXIMUM_DATA_STRUCTURE_DEPTH
    modifies pool, pool.cells`entryData
    ensures status == Success || status == InvalidData || (status == OutOfMemory && pool.Starved())
    ensures pool.Sound() && fresh(pool.cells - old(pool.cells)) && old(pool.elements) <= pool.elements
    ensures Holds(pool.elements, after) && before <= after
    ensures Appended(ResolveSeq(FieldsOf(sec), header.next, header.item.Arity(), MAXIMUM_DATA_STRUCTURE_DEPTH - depth),
                     header.next, status, end, before, after)
    decreases MAXIMUM_DATA_STRUCTURE_DEPTH - depth, 4
  {
    ghost var fields, fuel := FieldsOf(sec), MAXIMUM_DATA_STRUCTURE_DEPTH - depth;
    status, end, after := Success, header.next, before;
    AppendedNothing(fields, header.next, fuel, before);
    var size: nat, done: nat := header.item.count, 0;
    while done < size
      invariant done <= size && status == Success
      invariant pool.Sound() && fresh(pool.cells - old(pool.cells)) && old(pool.elements) <= pool.elements
      invariant Holds(pool.elements, after)
      invariant Appended(ResolveSeq(fields, header.next, 2 * done, fuel), header.next, Success, end, before, after)
    {
      status, end, after := NextPair(sec, end, pool, depth, header, done, before, after);
      if status != Success {
        return;
      }
      done := done + 1;
    }
  }

  /** One more key and its value. */
  method NextPair(sec: Section, offset: Word, pool: DataPool, depth: nat, ghost header: Entry, ghost done: nat,
                  ghost before: seq<Entry>, ghost mid: seq<Entry>)
    returns (status: Status, next: Word, ghost after: seq<Entry>)
    requires pool.Sound() && Holds(pool.elements, mid)
    requires 2 * done + 1 < header.item.Arity() && depth <= MAXIMUM_DATA_STRUCTURE_DEPTH
    requires Appended(ResolveSeq(FieldsOf(sec), header.next, 2 * done, MAXIMUM_DATA_STRUCTURE_DEPTH - depth),
                      header.next, Success, offset, before, mid)
    modifies pool, pool.cells`entryData
    ensures status == Success || status == InvalidData || (status == OutOfMemory && pool.Starved())
    ensures pool.Sound() && fresh(pool.cells - old(pool.cells)) && old(pool.elements) <= pool.elements
    ensures Holds(pool.elements, after) && mid <= after
    ensures status == InvalidData ==>
      ResolveSeq(FieldsOf(sec), header.next, header.item.Arity(), MAXIMUM_DATA_STRUCTURE_DEPTH - depth).None?
    ensures status == Success ==>
      Appended(ResolveSeq(FieldsOf(sec), header.next, 2 * (done + 1), MAXIMUM_DATA_STRUCTURE_DEPTH - depth),
               header.next, Success, next, before, after)
    decreases MAXIMUM_DATA_STRUCTURE_DEPTH - depth, 3
  {
    status, next, after := NextMember(sec, offset, pool, depth, header, 2 * done, before, mid);
    if status == Success {
      status, next, after := NextMember(sec, next, pool, depth, header, 2 * done + 1, before, after);
    }
  }

  /** One more member of a container, after the `done` ones already in the list. */
  method NextMember(sec: Section, offset: Word, pool: DataPool, depth: nat, ghost header: Entry, ghost done: nat,
                    ghost before: seq<Entry>, ghost mid: seq<Entry>)
    returns (status: Status, next: Word, ghost after: seq<Entry>)
    requires pool.Sound() && Holds(pool.elements, mid)
    requires done < header.item.Arity() && depth <= MAXIMUM_DATA_STRUCTURE_DEPTH
    requires Appended(ResolveSeq(FieldsOf(sec), header.next, done, MAXIMUM_DATA_STRUCTURE_DEPTH - depth),
                      header.next, Success, offset, before, mid)
    modifies pool, pool.cells`entryData
    ensures status == Success || status == InvalidData || (status == OutOfMemory && pool.Starved())
    ensures pool.Sound() && fresh(pool.cells - old(pool.cells)) && old(pool.elements) <= pool.elements
    ensures Holds(pool.elements, after) && mid <= after
    ensures status == InvalidData ==>
      ResolveSeq(FieldsOf(sec), header.next, header.item.Arity(), MAXIMUM_DATA_STRUCTURE_DEPTH - depth).None?
    ensures status == Success ==>
      Appended(ResolveSeq(FieldsOf(sec), header.next, done + 1, MAXIMUM_DATA_STRUCTURE_DEPTH - depth),
               header.next, Success, next, before, after)
    decreases MAXIMUM_DATA_STRUCTURE_DEPTH - depth, 2
  {
    status, next, after := GetMember(sec, offset, pool, depth, mid);
    AppendMember(FieldsOf(sec), header.next, done, header.item.Arity(), MAXIMUM_DATA_STRUCTURE_DEPTH - depth,
                 offset, next, status, before, mid, after);
  }

  /** The next struct of the pool. */
  method Claim(pool: DataPool, ghost before: seq<Entry>) returns (node: EntryDataList?, ghost after: seq<Entry>)
    requires pool.Sound() && Holds(pool.elements, before)
    modifies pool
    ensures pool.Sound() && fresh(pool.cells - old(pool.cells)) && old(pool.elements) <= pool.elements
    ensures node == null ==> pool.Starved() && after == before
    ensures node != null ==> pool.elements == old(pool.elements) + [node] && after == before + [node.entryData]
    ensures Holds(pool.elements, after)
  {
    assert Here(0);
    node := pool.Alloc();
    after := if node == null then before else before + [node.entryData];
  }

  /** Claims the next struct of the pool and fills it with the value at `offset`. */
  method GetMember(sec: Section, offset: Word, pool: DataPool, depth: nat, ghost before: seq<Entry>)
    returns (status: Status, next: Word, ghost after: seq<Entry>)
    requires pool.Sound() && Holds(pool.elements, before) && depth <= MAXIMUM_DATA_STRUCTURE_DEPTH
    modifies pool, pool.cells`entryData
    ensures status == Success || status == InvalidData || (status == OutOfMemory && pool.Starved())
    ensures pool.Sound() && fresh(pool.cells - old(pool.cells)) && old(pool.elements) <= pool.elements
    ensures Holds(pool.elements, after) && before <= after
    ensures Claimed(Resolve(FieldsOf(sec), offset, MAXIMUM_DATA_STRUCTURE_DEPTH - depth), status, next, before, after)
    decreases MAXIMUM_DATA_STRUCTURE_DEPTH - depth, 1
  {
    var node;
    next := 0;
    node, after := Claim(pool, before);
    if node == null {
      return OutOfMemory, 0, after;
    }
    status, after := GetEntryDataList(sec, offset, node, pool, depth, |before|, after);
    if status == Success {
      next := node.entryData.next;
      assert node.entryData == after[|before|];
    }
  }

  /** What one more member adds to a run, or that the whole run fails. */
  lemma AppendMember(fields: Fields, start: Word, done: nat, n: nat, fuel: nat, from: Word, next: Word,
                     status: Status, before: seq<Entry>, mid: seq<Entry>, after: seq<Entry>)
    requires done < n
    requires Appended(ResolveSeq(fields, start, done, fuel), start, Success, from, before, mid)
    requires Claimed(Resolve(fields, from, fuel), status, next, mid, after)
    ensures status == InvalidData ==> ResolveSeq(fields, start, n, fuel).None?
    ensures status == Success ==>
      Appended(ResolveSeq(fields, start, done + 1, fuel), start, Success, next, before, after)
  {
    var ts := ResolveSeq(fields, start, done, fuel).value;
    if status == InvalidData {
      ResolveSeqFails(fields, start, done + 1, n, fuel);
    } else if status == Success {
      assert (ts + [Resolve(fields, from, fuel).value])[..done] == ts;
    }
  }

  /** The struct at `at` holds the field at `to`, and if that is a container its members were appended. */
  ghost predicate HoldsTarget(fields: Fields, to: Word, fuel: nat, stored: seq<Entry>, inner: seq<Entry>, at: nat)
    requires at < |stored|
  {
    && to in fields && !fields[to].item.Pointer?
    && if fields[to].item.IsContainer() then
         Filled(Resolve(fields, to, fuel), Success, stored[at := fields[to]], inner, at)
       else inner == stored[at := fields[to]]
  }

  /** Once its target is in place, a pointer's struct only needs to end after the pointer. */
  lemma FilledTarget(fields: Fields, offset: Word, fuel: nat, before: seq<Entry>, stored: seq<Entry>,
                     inner: seq<Entry>, at: nat)
    requires fuel > 0 && at < |before| && offset in fields && fields[offset].item.Pointer?
    requires stored == before[at := fields[offset]]
    requires HoldsTarget(fields, fields[offset].item.target, fuel - 1, stored, inner, at)
    ensures at < |inner|
    ensures Filled(Resolve(fields, offset, fuel), Success, before,
                   inner[at := inner[at].(next := fields[offset].next)], at)
  {
    var to, next := fields[offset].item.target, fields[offset].next;
    if fields[to].item.IsContainer() {
      var t := Resolve(fields, to, fuel - 1).value;
      assert inner == before[at := t.entry] + PreorderSeq(t.kids);
      assert inner[at := t.entry.(next := next)] == before[at := t.entry.(next := next)] + PreorderSeq(t.kids);
    } else {
      assert inner[at := fields[to].(next := next)] == before[at := fields[to].(next := next)] + PreorderSeq([]);
    }
  }

  lemma FilledLeaf(fields: Fields, offset: Word, fuel: nat, before: seq<Entry>, after: seq<Entry>, at: nat)
    requires fuel > 0 && at < |before| && offset in fields
    requires !fields[offset].item.Pointer? && fields[offset].item.Arity() == 0
    requires after == before[at := fields[offset]]
    ensures Filled(Resolve(fields, offset, fuel), Success, before, after, at)
  {
    assert after == after + PreorderSeq([]);
  }

  /** A container is filled once its members are appended and its end is known. */
  lemma FilledContainer(fields: Fields, offset: Word, fuel: nat, status: Status, end: Word,
                        before: seq<Entry>, mid: seq<Entry>, after: seq<Entry>, at: nat)
    requires fuel > 0 && at < |before| && offset in fields && fields[offset].item.IsContainer()
    requires var field := fields[offset];
      Appended(ResolveSeq(fields, field.next, field.item.Arity(), fuel - 1), field.next, status, end,
               before[at := field], mid)
    requires at < |mid| && after == if status == Success then mid[at := mid[at].(next := end)] else mid
    ensures Filled(Resolve(fields, offset, fuel), status, before, after, at)
  {
    if status == Success {
      var kids := ResolveSeq(fields, fields[offset].next, fields[offset].item.Arity(), fuel - 1).value;
      assert before[at := fields[offset]][at := fields[offset].(next := end)]
             == before[at := fields[offset].(next := end)];
      assert after == before[at := fields[offset].(next := end)] + PreorderSeq(kids);
    }
  }

  /**
   `MMDB_get_entry_data_list`.  On success the list is the preorder of the value the bytes denote,
   whose nesting is within the limit; the format error is reported only when they denote no such
   value, and exhausted memory only when a request for memory was refused or every block is full.
   */
  method MMDBGetEntryDataList(sec: Section, start: Word, memory: nat -> bool)
    returns (status: Status, list: EntryDataList?, ghost elements: seq<EntryDataList>)
    ensures status == Success || status == InvalidData || status == OutOfMemory
    ensures status == OutOfMemory ==>
      (exists n: nat :: !memory(n)) || |elements| == 64 * (Pow2(32) - 1)
    ensures list != null ==> |elements| > 0 && list == elements[0] && Linked(elements)
    ensures status == Success ==> list != null
    ensures status == Success ==>
      var t := Resolve(FieldsOf(sec), start, MAXIMUM_DATA_STRUCTURE_DEPTH);
      && t.Some?
      && Holds(elements, Preorder(t.value))
      && Denotes(FieldsOf(sec), start, t.value)
      && Calls(FieldsOf(sec), start, t.value) <= 512
    ensures status == InvalidData ==>
      forall t: Tree {:trigger Denotes(FieldsOf(sec), start, t)} :: Denotes(FieldsOf(sec), start, t) ==>
        Calls(FieldsOf(sec), start, t) > 512
  {
    elements := [];
    var pool, node := NewList(memory);
    if pool == null || node == null {
      return OutOfMemory, null, [];
    }
    status := FillList(sec, start, pool, node);
    assert Here(0);
    list := pool.ToList();
    elements := pool.elements;
    ResolveReports(FieldsOf(sec), start);
  }

  /** Everything from the first struct on. */
  method FillList(sec: Section, start: Word, pool: DataPool, node: EntryDataList) returns (status: Status)
    requires pool.Sound() && pool.elements == [node] && pool.initial == MMDB_POOL_INIT_SIZE
    modifies pool, pool.cells`entryData
    ensures status == Success || status == InvalidData || status == OutOfMemory
    ensures pool.Sound() && fresh(pool.cells - old(pool.cells)) && |pool.elements| > 0
    ensures status == OutOfMemory ==>
      (exists n: nat :: !pool.memory(n)) || |pool.elements| == MMDB_POOL_INIT_SIZE * (Pow2(32) - 1)
    ensures var resolved := Resolve(FieldsOf(sec), start, MAXIMUM_DATA_STRUCTURE_DEPTH);
      && (status == InvalidData ==> resolved.None?)
      && (status == Success ==> resolved.Some? && Holds(pool.elements, Preorder(resolved.value)))
  {
    ghost var data := [node.entryData];
    status, data := GetEntryDataList(sec, start, node, pool, 0, 0, data);
    if status == Success {
      assert data == Preorder(Resolve(FieldsOf(sec), start, MAXIMUM_DATA_STRUCTURE_DEPTH).value);
    }
    if status == OutOfMemory && forall n: nat :: pool.memory(n) {
      assert Here(0);
      StarvedOnlyWhenFull(pool);
    }
  }

  /** The pool and its first struct. */
  method NewList(memory: nat -> bool) returns (pool: DataPool?, node: EntryDataList?)
    ensures pool == null || node == null ==> exists n: nat :: !memory(n)
    ensures pool != null && node != null ==>
      && fresh(pool) && fresh(pool.cells) && pool.Sound() && pool.elements == [node]
      && pool.memory == memory && pool.initial == MMDB_POOL_INIT_SIZE
  {
    pool := DataPool.New(MMDB_POOL_INIT_SIZE, memory);
    node := null;
    if pool != null {
      node := pool.Alloc();
    }
  }

  /** The depth-limited resolver in terms of what the bytes denote. */
  lemma ResolveReports(fields: Fields, start: Word)
    ensures match Resolve(fields, start, MAXIMUM_DATA_STRUCTURE_DEPTH)
            case Some(t) => Denotes(fields, start, t) && Calls(fields, start, t) <= MAXIMUM_DATA_STRUCTURE_DEPTH
            case None =>
              forall t: Tree {:trigger Denotes(fields, start, t)} :: Denotes(fields, start, t) ==>
                Calls(fields, start, t) > MAXIMUM_DATA_STRUCTURE_DEPTH
  {
    match Resolve(fields, start, MAXIMUM_DATA_STRUCTURE_DEPTH) {
      case Some(t) => ResolveSound(fields, start, MAXIMUM_DATA_STRUCTURE_DEPTH);
      case None =>
        forall t: Tree | Denotes(fields, start, t)
          ensures Calls(fields, start, t) > MAXIMUM_DATA_STRUCTURE_DEPTH
        {
          ResolveIff(fields, start, t, MAXIMUM_DATA_STRUCTURE_DEPTH);
        }
    }
  }
}
