/** Looking a value up by path, and what navigating the resolved tree would give. */
module Lookup {
  import opened Bytes
  import opened Decoder
  import opened ValueTree
  import opened Skipping

  /**
   A path element is one C string.  Maps compare its bytes with their keys; arrays use what
   `strtol` makes of it: a 64-bit `long`, whether text was left over, and whether it overflowed.
   */
  datatype PathElem = PathElem(text: seq<Byte>, number: int, leftover: bool, overflow: bool)

  /** The `long` result of `strtol` stored in an `int`. */
  function ArrayIndex(elem: PathElem): int {
    Signed32(elem.number)
  }

  datatype Outcome = Found(node: Tree) | Failed(status: Status)

  /** One step down the tree: the first pair with an equal key, or the array element. */
  ghost function Step(t: Tree, elem: PathElem): (r: Outcome)
    requires |t.kids| == t.entry.item.Arity()
    ensures r.Failed? ==> r.status != Success
  {
    match t.entry.item
    case Map(n) => FirstMatch(t.kids, elem.text, 0)
    case Array(n) =>
      var i := ArrayIndex(elem);
      if i < 0 || elem.overflow then Failed(InvalidLookupPath)
      else if elem.leftover || i >= n then Failed(LookupPathDoesNotMatchData)
      else Found(t.kids[i])
    case _ => Failed(LookupPathDoesNotMatchData)
  }

  /** The value after the first key, from pair `i` on, that is the string `text`. */
  ghost function FirstMatch(kids: seq<Tree>, text: seq<Byte>, i: nat): (r: Outcome)
    ensures r.Failed? ==> r.status == LookupPathDoesNotMatchData
    decreases |kids| - 2 * i
  {
    if 2 * i + 1 >= |kids| then Failed(LookupPathDoesNotMatchData)
    else if kids[2 * i].entry.item == Utf8String(text) then Found(kids[2 * i + 1])
    else FirstMatch(kids, text, i + 1)
  }

  ghost predicate KeyAt(kids: seq<Tree>, text: seq<Byte>, i: nat) {
    2 * i + 1 < |kids| && kids[2 * i].entry.item == Utf8String(text)
  }

  /** The first matching key wins ... */
  lemma {:induction false} FirstMatchWins(kids: seq<Tree>, text: seq<Byte>, from: nat, i: nat)
    requires from <= i && KeyAt(kids, text, i)
    requires forall j :: from <= j < i ==> !KeyAt(kids, text, j)
    ensures FirstMatch(kids, text, from) == Found(kids[2 * i + 1])
    decreases i - from
  {
    if from < i {
      assert !KeyAt(kids, text, from);
      FirstMatchWins(kids, text, from + 1, i);
    }
  }

  /** ... and only if no key matches is there no match. */
  lemma {:induction false} NoMatchIff(kids: seq<Tree>, text: seq<Byte>, from: nat)
    ensures FirstMatch(kids, text, from).Failed? <==> forall i :: i >= from ==> !KeyAt(kids, text, i)
    decreases |kids| - 2 * from
  {
    if 2 * from + 1 < |kids| && !KeyAt(kids, text, from) {
      NoMatchIff(kids, text, from + 1);
    } else if KeyAt(kids, text, from) {
      assert FirstMatch(kids, text, from).Found?;
    }
  }

  /** All the steps of a path from its `i`-th on. */
  ghost function Navigate(t: Tree, path: seq<PathElem>, i: nat := 0): Outcome
    requires Shaped(t) && i <= |path|
    decreases |path| - i
  {
    if i == |path| then Found(t)
    else
      match Step(t, path[i])
      case Failed(status) => Failed(status)
      case Found(node) =>
        StepShaped(t, path[i]);
        Navigate(node, path, i + 1)
  }

  /** A path in two parts: the second is navigated from where the first ends. */
  lemma {:induction false} NavigateJoin(t: Tree, path: seq<PathElem>, more: seq<PathElem>, i: nat)
    requires Shaped(t) && i <= |path|
    ensures match Navigate(t, path, i)
            case Failed(status) => Navigate(t, path + more, i) == Failed(status)
            case Found(node) => Shaped(node) && Navigate(t, path + more, i) == Navigate(node, more)
    decreases |path| - i
  {
    if i == |path| {
      NavigateSuffix(t, path, more, 0);
    } else {
      assert (path + more)[i] == path[i];
      if Step(t, path[i]).Found? {
        StepShaped(t, path[i]);
        NavigateJoin(Step(t, path[i]).node, path, more, i + 1);
      }
    }
  }

  lemma {:induction false} NavigateSuffix(t: Tree, path: seq<PathElem>, more: seq<PathElem>, i: nat)
    requires Shaped(t) && i <= |more|
    ensures Navigate(t, path + more, |path| + i) == Navigate(t, more, i)
    decreases |more| - i
  {
    if i < |more| {
      assert (path + more)[|path| + i] == more[i];
      if Step(t, more[i]).Found? {
        StepShaped(t, more[i]);
        NavigateSuffix(Step(t, more[i]).node, path, more, i + 1);
      }
    }
  }

  /** A path of one element is one step, and no path stays. */
  lemma NavigateOne(t: Tree, elem: PathElem)
    requires Shaped(t)
    ensures Navigate(t, []) == Found(t)
    ensures Navigate(t, [elem]) == Step(t, elem)
  {
    if Step(t, elem).Found? {
      StepShaped(t, elem);
      assert Navigate(Step(t, elem).node, [elem], 1) == Found(Step(t, elem).node);
    }
  }

  /**
   Indexing an array on the flat stream of fields: the element is the value that starts after `index`
   complete values.  The index is the `long` wrapped into an `int`.
   */
  lemma ArrayStep(fields: Fields, off: Word, t: Tree, elem: PathElem)
    requires Denotes(fields, off, t) && t.entry.item.Array?
    ensures var index := (elem.number + 0x8000_0000) % 0x1_0000_0000 - 0x8000_0000;
      var r, pos := Step(t, elem), Scan(fields, Follow(fields, off).value.next, if index < 0 then 0 else index);
      && (r == Failed(InvalidLookupPath) <==> index < 0 || elem.overflow)
      && (r.Found? <==> 0 <= index < t.entry.item.count && !elem.overflow && !elem.leftover)
      && (r.Found? ==> pos.Some? && Denotes(fields, pos.value, r.node))
      && (r.Failed? ==> r.status == InvalidLookupPath || r.status == LookupPathDoesNotMatchData)
  {
    var index := ArrayIndex(elem);
    if 0 <= index < t.entry.item.count {
      ElementAt(fields, Follow(fields, off).value.next, t.kids, index);
    }
  }

  lemma ElementAt(fields: Fields, start: Word, ts: seq<Tree>, i: nat)
    requires DenotesSeq(fields, start, ts) && i < |ts|
    ensures var pos := Scan(fields, start, i); pos.Some? && Denotes(fields, pos.value, ts[i])
  {
    ScanRun(fields, start, ts, i, 0);
    assert Scan(fields, KidPos(start, ts, i), 0) == Some(KidPos(start, ts, i));
  }

  /** In a map the value behind the first key that is the string asked for, if there is one; a scalar has no members. */
  lemma MapStep(t: Tree, elem: PathElem, i: nat)
    requires |t.kids| == t.entry.item.Arity() && !t.entry.item.Array?
    ensures Step(t, elem).Failed? ==> Step(t, elem).status == LookupPathDoesNotMatchData
    ensures Step(t, elem).Found? ==> t.entry.item.Map? && exists j :: KeyAt(t.kids, elem.text, j)
    ensures t.entry.item.Map? && KeyAt(t.kids, elem.text, i)
            && (forall j :: 0 <= j < i ==> !KeyAt(t.kids, elem.text, j))
            ==> Step(t, elem) == Found(t.kids[2 * i + 1])
  {
    NoMatchIff(t.kids, elem.text, 0);
    if KeyAt(t.kids, elem.text, i) && forall j :: 0 <= j < i ==> !KeyAt(t.kids, elem.text, j) {
      FirstMatchWins(t.kids, elem.text, 0, i);
    }
  }

  lemma StepShaped(t: Tree, elem: PathElem)
    requires Shaped(t) && Step(t, elem).Found?
    ensures Step(t, elem).node in t.kids && Shaped(Step(t, elem).node)
  {
    if t.entry.item.Map? {
      FirstMatchIsKid(t.kids, elem.text, 0);
    }
  }

  lemma {:induction false} FirstMatchIsKid(kids: seq<Tree>, text: seq<Byte>, i: nat)
    requires FirstMatch(kids, text, i).Found?
    ensures FirstMatch(kids, text, i).node in kids
    decreases |kids| - 2 * i
  {
    if kids[2 * i].entry.item != Utf8String(text) {
      FirstMatchIsKid(kids, text, i + 1);
    }
  }

  /** Every map key in the tree is a string, possibly behind a pointer. */
  ghost predicate StringKeys(t: Tree)
    decreases t
  {
    && (t.entry.item.Map? ==>
          forall i :: 0 <= 2 * i < |t.kids| ==> t.kids[2 * i].entry.item.Utf8String?)
    && forall i :: 0 <= i < |t.kids| ==> StringKeys(t.kids[i])
  }

  /** Skipping is exact in a tree whose keys are strings. */
  lemma {:induction false} StringKeysSkipSafe(fields: Fields, off: Word, t: Tree)
    requires Denotes(fields, off, t) && StringKeys(t)
    ensures SkipSafe(fields, off, t)
    decreases t, 1, 0
  {
    if !fields[off].item.Pointer? {
      StringKeysSkipSafeRun(fields, off, t, |t.kids|);
    }
  }

  lemma {:induction false} StringKeysSkipSafeRun(fields: Fields, off: Word, t: Tree, n: nat)
    requires Denotes(fields, off, t) && StringKeys(t) && !fields[off].item.Pointer? && n <= |t.kids|
    ensures SkipSafeRun(fields, fields[off].next, t.kids, n, t.entry.item.Map?)
    decreases t, 0, n
  {
    if n > 0 {
      StringKeysSkipSafeRun(fields, off, t, n - 1);
      var pos := KidPos(fields[off].next, t.kids, n - 1);
      assert Denotes(fields, pos, t.kids[n - 1]);
      if t.entry.item.Map? && (n - 1) % 2 == 0 {
        assert t.kids[2 * ((n - 1) / 2)].entry.item.Utf8String?;
        assert Follow(fields, pos).value.item.Utf8String?;
      } else {
        StringKeysSkipSafe(fields, pos, t.kids[n - 1]);
      }
    }
  }

  /** Where a lookup is, when the data there denotes a tree with string keys. */
  datatype Place = Place(off: Word, tree: Tree)

  ghost predicate At(fields: Fields, entry: Entry, here: Option<Place>) {
    here.Some? ==>
      && Denotes(fields, here.value.off, here.value.tree)
      && StringKeys(here.value.tree)
      && Follow(fields, here.value.off) == Some(entry)
  }

  /** `status`, `entry` and `there` report the outcome of a step or of a whole path. */
  ghost predicate Reports(fields: Fields, outcome: Outcome, status: Status, entry: Entry, there: Option<Place>) {
    match outcome
    case Failed(s) => status == s
    case Found(node) => status == Success && there.Some? && there.value.tree == node && At(fields, entry, there)
  }

  /** Decoding and skipping the `i`-th member of the container `here` leads to the next member. */
  lemma SkipMember(fields: Fields, here: Place, i: nat)
    requires Denotes(fields, here.off, here.tree) && StringKeys(here.tree) && i < |here.tree.kids|
    ensures var start := Follow(fields, here.off).value.next;
            var pos := KidPos(start, here.tree.kids, i);
            && pos in fields
            && Denotes(fields, pos, here.tree.kids[i])
            && StringKeys(here.tree.kids[i])
            && SkipField(fields, fields[pos]).Some?
            && SkipField(fields, fields[pos]).value.pos == KidPos(start, here.tree.kids, i + 1)
  {
    var pos, kid := KidPos(Follow(fields, here.off).value.next, here.tree.kids, i), here.tree.kids[i];
    StringKeysSkipSafe(fields, pos, kid);
    SkipAgreesIff(fields, pos, kid);
  }

  /**
   The `i`-th pair of a map: following the key leads to its value, and skipping the value to
   the next pair.
   */
  lemma PairMember(fields: Fields, here: Place, elem: PathElem, i: nat)
    requires Denotes(fields, here.off, here.tree) && StringKeys(here.tree)
    requires here.tree.entry.item.Map? && 2 * i + 1 < |here.tree.kids|
    ensures var start, kids := Follow(fields, here.off).value.next, here.tree.kids;
            var head := Follow(fields, KidPos(start, kids, 2 * i));
            && head.Some? && head.value.item.Utf8String?
            && FirstMatch(kids, elem.text, i) == (if head.value.item.text == elem.text
               then Found(kids[2 * i + 1]) else FirstMatch(kids, elem.text, i + 1))
            && head.value.next in fields
            && Denotes(fields, head.value.next, kids[2 * i + 1])
            && StringKeys(kids[2 * i + 1])
            && SkipField(fields, fields[head.value.next]).Some?
            && SkipField(fields, fields[head.value.next]).value.pos == KidPos(start, kids, 2 * (i + 1))
  {
    var start, kids := Follow(fields, here.off).value.next, here.tree.kids;
    var pos := KidPos(start, kids, 2 * i);
    assert Denotes(fields, pos, kids[2 * i]);
    assert kids[2 * i].entry.item.Utf8String?;
    assert Follow(fields, pos).value.next == KidPos(start, kids, 2 * i + 1);
    SkipMember(fields, here, 2 * i + 1);
  }

  /** `e` is a field of the data, followed if it is a pointer. */
  ghost predicate IsField(fields: Fields, e: Entry) {
    exists off: Word :: Follow(fields, off) == Some(e)
  }

  /** The statuses of a lookup, on any data. */
  predicate LookupStatus(s: Status) {
    s == Success || s == InvalidData || s == InvalidLookupPath || s == LookupPathDoesNotMatchData
  }

  /** `lookup_path_in_array` */
  method LookupPathInArray(elem: PathElem, sec: Section, e: Entry, ghost here: Option<Place>)
    returns (status: Status, entry: Entry, ghost there: Option<Place>)
    requires e.item.Array? && At(FieldsOf(sec), e, here)
    ensures here.Some? ==>
      Shaped(here.value.tree) && Reports(FieldsOf(sec), Step(here.value.tree, elem), status, entry, there)
    ensures LookupStatus(status) && (status == Success ==> IsField(FieldsOf(sec), entry))
    ensures here.None? ==> there.None?
  {
    ghost var fields := FieldsOf(sec);
    if here.Some? {
      DenotesShaped(fields, here.value.off, here.value.tree);
    }
    entry, there := e, None;
    var arrayIndex := ArrayIndex(elem);
    if arrayIndex < 0 || elem.overflow {
      return InvalidLookupPath, entry, None;
    }
    if elem.leftover || arrayIndex >= e.item.count {
      return LookupPathDoesNotMatchData, entry, None;
    }
    var i := 0;
    while i < arrayIndex
      invariant 0 <= i <= arrayIndex
      invariant here.Some? ==> entry.next == KidPos(e.next, here.value.tree.kids, i)
    {
      if here.Some? {
        SkipMember(fields, here.value, i);
      }
      status, entry := DecodeOne(sec, entry.next);
      if status != Success {
        return;
      }
      status, entry := SkipMapOrArray(sec, entry);
      if status != Success {
        return;
      }
      i := i + 1;
    }
    if here.Some? {
      SkipMember(fields, here.value, i);
      there := Some(Place(entry.next, here.value.tree.kids[i]));
    }
    status, entry := DecodeOneFollow(sec, entry.next);
  }

  /** `lookup_path_in_map` */
  method LookupPathInMap(elem: PathElem, sec: Section, e: Entry, ghost here: Option<Place>)
    returns (status: Status, entry: Entry, ghost there: Option<Place>)
    requires e.item.Map? && At(FieldsOf(sec), e, here)
    ensures here.Some? ==>
      Reports(FieldsOf(sec), FirstMatch(here.value.tree.kids, elem.text, 0), status, entry, there)
    ensures LookupStatus(status) && (status == Success ==> IsField(FieldsOf(sec), entry))
    ensures here.None? ==> there.None?
  {
    ghost var fields := FieldsOf(sec);
    entry, there := e, None;
    var size: nat, done: nat, offset := e.item.count, 0, e.next;
    while done < size
      invariant done <= size
      invariant here.Some? ==>
        && offset == KidPos(e.next, here.value.tree.kids, 2 * done)
        && FirstMatch(here.value.tree.kids, elem.text, 0) == FirstMatch(here.value.tree.kids, elem.text, done)
    {
      if here.Some? {
        PairMember(fields, here.value, elem, done);
      }
      var key;
      status, key := DecodeOneFollow(sec, offset);
      if status != Success {
        return;
      }
      if !key.item.Utf8String? {
        return InvalidData, entry, None;
      }
      if key.item.text == elem.text {
        if here.Some? {
          there := Some(Place(key.next, here.value.tree.kids[2 * done + 1]));
        }
        status, entry := DecodeOneFollow(sec, key.next);
        return;
      }
      var value;
      status, value := DecodeOne(sec, key.next);
      if status != Success {
        return;
      }
      status, value := SkipMapOrArray(sec, value);
      if status != Success {
        return;
      }
      offset := value.next;
      done := done + 1;
    }
    status := LookupPathDoesNotMatchData;
  }

  /** The branch on the type of the current field in the loop of `MMDB_aget_value`. */
  method LookupStep(elem: PathElem, sec: Section, e: Entry, ghost here: Option<Place>)
    returns (status: Status, entry: Entry, ghost there: Option<Place>)
    requires At(FieldsOf(sec), e, here)
    ensures here.Some? ==>
      Shaped(here.value.tree) && Reports(FieldsOf(sec), Step(here.value.tree, elem), status, entry, there)
    ensures LookupStatus(status) && (status == Success ==> IsField(FieldsOf(sec), entry))
    ensures here.None? ==> there.None?
    ensures status == Success && there.Some? ==> Shaped(there.value.tree)
  {
    if here.Some? {
      DenotesShaped(FieldsOf(sec), here.value.off, here.value.tree);
      StepShapedIf(here.value.tree, elem);
    }
    if e.item.Array? {
      status, entry, there := LookupPathInArray(elem, sec, e, here);
    } else if e.item.Map? {
      status, entry, there := LookupPathInMap(elem, sec, e, here);
    } else {
      status, entry, there := LookupPathDoesNotMatchData, e, None;
    }
  }

  lemma StepShapedIf(t: Tree, elem: PathElem)
    requires Shaped(t)
    ensures Step(t, elem).Found? ==> Shaped(Step(t, elem).node)
  {
    if Step(t, elem).Found? {
      StepShaped(t, elem);
    }
  }

  /** The tree with string keys that the data denotes, if there is one. */
  lemma RootPlace(fields: Fields, start: Word) returns (root: Option<Place>)
    ensures root.Some? ==>
      && root.value.off == start
      && Denotes(fields, start, root.value.tree) && StringKeys(root.value.tree) && Shaped(root.value.tree)
    ensures forall t: Tree {:trigger Denotes(fields, start, t)} ::
      Denotes(fields, start, t) && StringKeys(t) ==> root == Some(Place(start, t))
  {
    root := None;
    if t: Tree :| Denotes(fields, start, t) && StringKeys(t) {
      root := Some(Place(start, t));
      DenotesShaped(fields, start, t);
      forall u: Tree | Denotes(fields, start, u)
        ensures u == t
      {
        DenotesUnique(fields, start, t, u);
      }
    }
  }

  /**
   `MMDB_aget_value`.  Whenever the data denotes a tree with string keys, the path is looked up
   in that tree: the same field, or the same error.
   */
  method AgetValue(sec: Section, start: Word, path: seq<PathElem>) returns (status: Status, entry: Entry)
    ensures LookupStatus(status) && (status == Success ==> IsField(FieldsOf(sec), entry))
    ensures forall t: Tree {:trigger Denotes(FieldsOf(sec), start, t)} ::
              Denotes(FieldsOf(sec), start, t) && StringKeys(t) ==>
                && Shaped(t)
                && match Navigate(t, path)
                   case Failed(s) => status == s
                   case Found(node) =>
                     status == Success && entry.offset == node.entry.offset && entry.item == node.entry.item
  {
    ghost var fields := FieldsOf(sec);
    ghost var root := RootPlace(fields, start);
    status, entry := DecodeOneFollow(sec, start);
    if status != Success {
      return;
    }
    ghost var here := root;
    var i := 0;
    while i < |path|
      invariant i <= |path| && status == Success && IsField(fields, entry)
      invariant At(fields, entry, here) && (here.Some? <==> root.Some?)
      invariant here.Some? ==>
        && Shaped(here.value.tree)
        && Navigate(root.value.tree, path) == Navigate(here.value.tree, path, i)
    {
      status, entry, here := LookupStep(path[i], sec, entry, here);
      if status != Success {
        return;
      }
      i := i + 1;
    }
  }
}
