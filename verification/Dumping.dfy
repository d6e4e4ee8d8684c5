/**
 Reading the flattened list back: the list determines the tree it came from, and the dump's
 walk along the `next` links visits exactly that tree.
 */
module Dumping {
  import opened Bytes
  import opened Decoder
  import opened ValueTree
  import opened Pooling
  import opened EntryList
  import Lookup

  /** `part` stands in `data` from `i` on. */
  ghost predicate Occurs(data: seq<Entry>, i: nat, part: seq<Entry>) {
    i + |part| <= |data| && data[i..i + |part|] == part
  }

  /** The `k`-th member of a run stands after the members before it. */
  lemma {:induction false} KidOccurs(data: seq<Entry>, i: nat, ts: seq<Tree>, k: nat)
    requires k < |ts| && Occurs(data, i, PreorderSeq(ts))
    ensures Occurs(data, i + |PreorderSeq(ts[..k])|, Preorder(ts[k]))
    ensures |PreorderSeq(ts[..k + 1])| == |PreorderSeq(ts[..k])| + |Preorder(ts[k])|
    ensures |PreorderSeq(ts[..k + 1])| <= |PreorderSeq(ts)|
    decreases |ts|
  {
    var last := |ts| - 1;
    OccursSplit(data, i, PreorderSeq(ts[..last]), Preorder(ts[last]));
    if k == last {
      assert ts[..k + 1] == ts;
    } else {
      assert ts[..last][..k] == ts[..k] && ts[..last][..k + 1] == ts[..k + 1];
      KidOccurs(data, i, ts[..last], k);
    }
  }

  // ----- the list determines the tree -----

  /** Reads one tree from position `i`, taking as many members as each header announces. */
  ghost function Rebuild(data: seq<Entry>, i: nat): (r: Option<(Tree, nat)>)
    ensures r.Some? ==> i < r.value.1 <= |data|
    decreases |data| - i, 0, 0
  {
    if i >= |data| then None
    else
      match RebuildSeq(data, i + 1, data[i].item.Arity())
      case None => None
      case Some((kids, end)) => Some((Node(data[i], kids), end))
  }

  ghost function RebuildSeq(data: seq<Entry>, i: nat, n: nat): (r: Option<(seq<Tree>, nat)>)
    requires i <= |data|
    ensures r.Some? ==> i <= r.value.1 <= |data|
    decreases |data| - i, 1, n
  {
    if n == 0 then Some(([], i))
    else
      match RebuildSeq(data, i, n - 1)
      case None => None
      case Some((ts, j)) =>
        match Rebuild(data, j)
        case None => None
        case Some((t, end)) => Some((ts + [t], end))
  }

  /** Wherever the preorder of a tree stands, that tree is read back, and nothing more. */
  lemma {:induction false} RebuildPreorder(data: seq<Entry>, i: nat, t: Tree)
    requires Shaped(t) && Occurs(data, i, Preorder(t))
    ensures Rebuild(data, i) == Some((t, i + |Preorder(t)|))
    decreases t
  {
    Members(data, i, t);
    RebuildRun(data, i + 1, t.kids);
  }

  /** A tree's own field comes first, its members after it. */
  lemma Members(data: seq<Entry>, i: nat, t: Tree)
    requires Occurs(data, i, Preorder(t))
    ensures i < |data| && data[i] == t.entry
    ensures Occurs(data, i + 1, PreorderSeq(t.kids))
  {
    var p, first := Preorder(t), i + 1;
    assert data[i] == data[i..i + |p|][0];
    assert data[first..first + |PreorderSeq(t.kids)|] == data[i..i + |p|][1..];
  }

  lemma {:induction false} RebuildRun(data: seq<Entry>, i: nat, ts: seq<Tree>)
    requires i <= |data| && (forall k :: 0 <= k < |ts| ==> Shaped(ts[k])) && Occurs(data, i, PreorderSeq(ts))
    ensures RebuildSeq(data, i, |ts|) == Some((ts, i + |PreorderSeq(ts)|))
    decreases ts
  {
    if ts != [] {
      var init, last := ts[..|ts| - 1], ts[|ts| - 1];
      OccursSplit(data, i, PreorderSeq(init), Preorder(last));
      RebuildRun(data, i, init);
      RebuildPreorder(data, i + |PreorderSeq(init)|, last);
      Snoc(ts);
    }
  }

  lemma OccursSplit(data: seq<Entry>, i: nat, p: seq<Entry>, q: seq<Entry>)
    requires Occurs(data, i, p + q)
    ensures Occurs(data, i, p) && Occurs(data, i + |p|, q)
  {
    var s := data[i..i + |p + q|];
    assert data[i..i + |p|] == s[..|p|] && data[i + |p|..i + |p| + |q|] == s[|p|..];
  }

  /** Two trees with the same list are the same tree. */
  lemma PreorderInjective(t: Tree, u: Tree)
    requires Shaped(t) && Shaped(u) && Preorder(t) == Preorder(u)
    ensures t == u
  {
    RebuildPreorder(Preorder(t), 0, t);
    RebuildPreorder(Preorder(t), 0, u);
  }

  // ----- the dump -----

  /** What the dump can print: only string keys, and no field of an unknown type. */
  predicate Dumpable(t: Tree)
    requires Shaped(t)
    decreases t, |t.kids| + 1
  {
    !t.entry.item.Other? && !t.entry.item.Pointer? && DumpableKids(t, |t.kids|)
  }

  predicate DumpableKids(t: Tree, n: nat)
    requires Shaped(t) && n <= |t.kids|
    decreases t, n
  {
    n == 0 ||
    (DumpableKids(t, n - 1) &&
     if t.entry.item.Map? && (n - 1) % 2 == 0 then t.kids[n - 1].entry.item.Utf8String?
     else Dumpable(t.kids[n - 1]))
  }

  /** No field of a type that the format does not define. */
  ghost predicate Printable(t: Tree)
    decreases t
  {
    && (match t.entry.item
        case Map(_) | Array(_) | Utf8String(_) | ByteString(_) | Boolean(_) => true
        case Double(_) | Float(_) | UInt16(_) | UInt32(_) | UInt64(_) | UInt128(_) | Int32(_) => true
        case Pointer(_) | Other(_) => false)
    && forall i :: 0 <= i < |t.kids| ==> Printable(t.kids[i])
  }

  /** A tree can be dumped exactly if its keys are strings and all its fields are of defined types. */
  lemma {:induction false} DumpableIff(t: Tree)
    requires Shaped(t)
    ensures Dumpable(t) <==> Lookup.StringKeys(t) && Printable(t)
    decreases t, 1
  {
    DumpableKidsIff(t, |t.kids|);
    forall i | 0 <= i < |t.kids|
      ensures DumpsAs(t, i) ==> Lookup.StringKeys(t.kids[i]) && Printable(t.kids[i])
      ensures DumpsAs(t, i) && t.entry.item.Map? && i % 2 == 0 ==> t.kids[i].entry.item.Utf8String?
      ensures Lookup.StringKeys(t) && Printable(t) ==> DumpsAs(t, i)
    {
      assert i % 2 == 0 ==> i == 2 * (i / 2);
    }
    if forall i :: 0 <= i < |t.kids| ==> DumpsAs(t, i) {
      forall i | 0 <= 2 * i < |t.kids|
        ensures t.entry.item.Map? ==> t.kids[2 * i].entry.item.Utf8String?
      {
        assert DumpsAs(t, 2 * i);
      }
    }
  }

  /** What a member has to be: a key a string, anything else dumpable. */
  ghost predicate DumpsAs(t: Tree, i: nat)
    requires Shaped(t) && i < |t.kids|
    decreases t, 0
  {
    if t.entry.item.Map? && i % 2 == 0 then t.kids[i].entry.item.Utf8String?
    else Lookup.StringKeys(t.kids[i]) && Printable(t.kids[i])
  }

  lemma {:induction false} DumpableKidsIff(t: Tree, n: nat)
    requires Shaped(t) && n <= |t.kids|
    ensures DumpableKids(t, n) <==> forall i :: 0 <= i < n ==> DumpsAs(t, i)
    decreases t, 0, n
  {
    if n > 0 {
      DumpableKidsIff(t, n - 1);
      DumpableIff(t.kids[n - 1]);
      assert (forall i :: 0 <= i < n ==> DumpsAs(t, i))
             <==> (forall i :: 0 <= i < n - 1 ==> DumpsAs(t, i)) && DumpsAs(t, n - 1);
    }
  }

  lemma {:induction false} DumpableKidsFails(t: Tree, i: nat, n: nat)
    requires Shaped(t) && i <= n <= |t.kids|
    ensures !DumpableKids(t, i) ==> !DumpableKids(t, n)
    decreases n
  {
    if i < n {
      DumpableKidsFails(t, i, n - 1);
    }
  }

  /** Where a walk that read everything before position `i` of the list stands. */
  ghost function NodeAt(list: seq<EntryDataList>, i: nat): EntryDataList? {
    if i < |list| then list[i] else null
  }

  /**
   `dump_entry_data_list`, without the printing.  On a list that holds the tree `t` from position
   `i` on, it succeeds exactly if `t` is dumpable, and then stops right behind `t`.
   */
  method DumpEntryDataList(node: EntryDataList, ghost list: seq<EntryDataList>, ghost i: nat,
                           ghost data: seq<Entry>, ghost t: Tree)
    returns (next: EntryDataList?, status: Status)
    requires Linked(list) && Holds(list, data) && i < |list| && list[i] == node
    requires Shaped(t) && Occurs(data, i, Preorder(t))
    ensures status == if Dumpable(t) then Success else InvalidData
    ensures status == Success ==> next == NodeAt(list, i + |Preorder(t)|)
    decreases t, 2
  {
    assert node.entryData == data[i] == data[i..i + |Preorder(t)|][0] == t.entry;
    assert node.next == NodeAt(list, i + 1);
    match node.entryData.item {
      case Map(count) =>
        next, status := DumpPairs(node.next, count, list, i, data, t);
      case Array(count) =>
        next, status := DumpElements(node.next, count, list, i, data, t);
      case Pointer(_) =>
        return null, InvalidData;
      case Other(_) =>
        return null, InvalidData;
      case _ =>
        next, status := node.next, Success;
    }
  }

  /** The position of the `k`-th member of the tree at `i`. */
  ghost function MemberPos(i: nat, t: Tree, k: nat): nat
    requires k <= |t.kids|
  {
    i + 1 + |PreorderSeq(t.kids[..k])|
  }

  lemma MemberOccurs(data: seq<Entry>, i: nat, t: Tree, k: nat)
    requires Occurs(data, i, Preorder(t)) && k < |t.kids|
    ensures Occurs(data, MemberPos(i, t, k), Preorder(t.kids[k]))
    ensures MemberPos(i, t, k + 1) == MemberPos(i, t, k) + |Preorder(t.kids[k])|
  {
    Members(data, i, t);
    KidOccurs(data, i + 1, t.kids, k);
  }

  lemma MembersEnd(i: nat, t: Tree)
    ensures MemberPos(i, t, 0) == i + 1
    ensures MemberPos(i, t, |t.kids|) == i + |Preorder(t)|
  {
    assert t.kids[..|t.kids|] == t.kids;
  }

  method DumpElements(first: EntryDataList?, count: Word, ghost list: seq<EntryDataList>, ghost i: nat,
                      ghost data: seq<Entry>, ghost t: Tree)
    returns (next: EntryDataList?, status: Status)
    requires Linked(list) && Holds(list, data) && i < |list| && first == NodeAt(list, i + 1)
    requires Shaped(t) && t.entry.item == Array(count) && Occurs(data, i, Preorder(t))
    ensures status == if Dumpable(t) then Success else InvalidData
    ensures status == Success ==> next == NodeAt(list, i + |Preorder(t)|)
    decreases t, 0
  {
    MembersEnd(i, t);
    next, status := first, Success;
    var size: nat := count;
    ghost var k := 0;
    while size > 0 && next != null
      invariant k + size == count && status == Success
      invariant next == NodeAt(list, MemberPos(i, t, k))
      invariant DumpableKids(t, k)
      decreases size
    {
      MemberOccurs(data, i, t, k);
      DumpableKidsFails(t, k + 1, count);
      next, status := DumpEntryDataList(next, list, MemberPos(i, t, k), data, t.kids[k]);
      if status != Success {
        return null, status;
      }
      size := size - 1;
      k := k + 1;
    }
    if k < |t.kids| {
      MemberOccurs(data, i, t, k);
      assert false;
    }
  }

  method DumpPairs(first: EntryDataList?, count: Word, ghost list: seq<EntryDataList>, ghost i: nat,
                   ghost data: seq<Entry>, ghost t: Tree)
    returns (next: EntryDataList?, status: Status)
    requires Linked(list) && Holds(list, data) && i < |list| && first == NodeAt(list, i + 1)
    requires Shaped(t) && t.entry.item == Map(count) && Occurs(data, i, Preorder(t))
    ensures status == if Dumpable(t) then Success else InvalidData
    ensures status == Success ==> next == NodeAt(list, i + |Preorder(t)|)
    decreases t, 1
  {
    MembersEnd(i, t);
    next, status := first, Success;
    var size: nat := count;
    ghost var k := 0;
    while size > 0 && next != null
      invariant k + size == count && status == Success
      invariant next == NodeAt(list, MemberPos(i, t, 2 * k))
      invariant DumpableKids(t, 2 * k)
      decreases size
    {
      MemberOccurs(data, i, t, 2 * k);
      next, status := DumpPair(next, list, i, data, t, k);
      if status != Success {
        return null, status;
      }
      size := size - 1;
      k := k + 1;
    }
    if 2 * k < |t.kids| {
      MemberOccurs(data, i, t, 2 * k);
      assert false;
    }
  }

  method DumpPair(key: EntryDataList, ghost list: seq<EntryDataList>, ghost i: nat, ghost data: seq<Entry>,
                  ghost t: Tree, ghost k: nat)
    returns (next: EntryDataList?, status: Status)
    requires Linked(list) && Holds(list, data) && i < |list|
    requires Shaped(t) && t.entry.item.Map? && Occurs(data, i, Preorder(t))
    requires 2 * k + 1 < |t.kids| && key == NodeAt(list, MemberPos(i, t, 2 * k)) && DumpableKids(t, 2 * k)
    ensures status == Success || status == InvalidData
    ensures status == Success <==> DumpableKids(t, 2 * (k + 1))
    ensures status == InvalidData ==> !Dumpable(t)
    ensures status == Success ==> next == NodeAt(list, MemberPos(i, t, 2 * (k + 1)))
    decreases t, 0
  {
    ghost var at := MemberPos(i, t, 2 * k);
    PairPositions(list, i, data, t, k);
    PairDumpable(t, k);
    if !key.entryData.item.Utf8String? {
      return null, InvalidData;
    }
    next, status := DumpEntryDataList(key.next, list, at + 1, data, t.kids[2 * k + 1]);
  }

  lemma PairPositions(list: seq<EntryDataList>, i: nat, data: seq<Entry>, t: Tree, k: nat)
    requires Linked(list) && Holds(list, data) && Shaped(t) && Occurs(data, i, Preorder(t))
    requires 2 * k + 1 < |t.kids|
    ensures var at, key, value := MemberPos(i, t, 2 * k), t.kids[2 * k], t.kids[2 * k + 1];
            && at < |list| && list[at].entryData == key.entry && list[at].next == NodeAt(list, at + 1)
            && (key.entry.item.Utf8String? ==>
                  && at + 1 < |list|
                  && Occurs(data, at + 1, Preorder(value))
                  && MemberPos(i, t, 2 * (k + 1)) == at + 1 + |Preorder(value)|)
  {
    var at := MemberPos(i, t, 2 * k);
    MemberOccurs(data, i, t, 2 * k);
    MemberOccurs(data, i, t, 2 * k + 1);
    HeadOf(list, data, at, t.kids[2 * k]);
    if t.kids[2 * k].entry.item.Utf8String? {
      HeadOf(list, data, at + 1, t.kids[2 * k + 1]);
    }
  }

  lemma PairDumpable(t: Tree, k: nat)
    requires Shaped(t) && t.entry.item.Map? && 2 * k + 1 < |t.kids|
    ensures DumpableKids(t, 2 * (k + 1)) <==>
            DumpableKids(t, 2 * k) && t.kids[2 * k].entry.item.Utf8String? && Dumpable(t.kids[2 * k + 1])
    ensures !DumpableKids(t, 2 * (k + 1)) ==> !Dumpable(t)
  {
    assert 2 * k % 2 == 0 && (2 * k + 1) % 2 == 1;
    assert DumpableKids(t, 2 * k + 2) <==> DumpableKids(t, 2 * k + 1) && Dumpable(t.kids[2 * k + 1]);
    DumpableKidsFails(t, 2 * (k + 1), |t.kids|);
  }

  /** The struct where a tree starts holds its field; a tree without members is that struct alone. */
  lemma HeadOf(list: seq<EntryDataList>, data: seq<Entry>, i: nat, t: Tree)
    requires Linked(list) && Holds(list, data) && Shaped(t) && Occurs(data, i, Preorder(t))
    ensures i < |list| && list[i].entryData == t.entry && list[i].next == NodeAt(list, i + 1)
    ensures t.entry.item.Arity() == 0 ==> |Preorder(t)| == 1
  {
    assert data[i] == data[i..i + |Preorder(t)|][0];
  }

  /** `MMDB_dump_entry_data_list` on a whole list: all of it is visited, or an error is returned. */
  method DumpList(list: EntryDataList, ghost elements: seq<EntryDataList>, ghost t: Tree)
    returns (status: Status, ghost end: EntryDataList?)
    requires |elements| > 0 && elements[0] == list && Linked(elements)
    requires Shaped(t) && Holds(elements, Preorder(t))
    ensures status == if Dumpable(t) then Success else InvalidData
    ensures status == Success ==> end == null
  {
    assert Preorder(t)[0..|Preorder(t)|] == Preorder(t);
    var next;
    next, status := DumpEntryDataList(list, elements, 0, Preorder(t), t);
    end := next;
  }
}
