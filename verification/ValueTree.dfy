/**
 What the bytes at an offset mean: a finite tree of fields with every pointer resolved.
 `Denotes` is a specification only.  It has no depth limit and no fuel, and is defined by
 recursion on the tree, so bytes that reach themselves through pointers denote nothing.
 */
module ValueTree {
  import opened Bytes
  import opened Decoder

  /**
   One value.  `entry` is the field that holds it (the target, when a pointer stood in its
   place), except that `entry.next` is where reading continues after the whole value.
   */
  datatype Tree = Node(entry: Entry, kids: seq<Tree>)

  /** Where the `i`-th of a run of values starts, the first starting at `start`. */
  function KidPos(start: Word, kids: seq<Tree>, i: nat): Word
    requires i <= |kids|
  {
    if i == 0 then start else kids[i - 1].entry.next
  }

  ghost predicate Denotes(fields: Fields, off: Word, t: Tree)
    decreases t
  {
    var head := Follow(fields, off);
    && head.Some?
    && t.entry.offset == head.value.offset
    && t.entry.item == head.value.item
    && |t.kids| == head.value.item.Arity()
    && DenotesSeq(fields, head.value.next, t.kids)
    && t.entry.next ==
       if fields[off].item.Pointer? then fields[off].next
       else KidPos(head.value.next, t.kids, |t.kids|)
  }

  /** A run of values laid out one after the other from `start`. */
  ghost predicate DenotesSeq(fields: Fields, start: Word, ts: seq<Tree>)
    decreases ts
  {
    forall i {:trigger KidPos(start, ts, i)} :: 0 <= i < |ts| ==> Denotes(fields, KidPos(start, ts, i), ts[i])
  }

  /** Containers have as many members as they announce. */
  ghost predicate Shaped(t: Tree)
    decreases t
  {
    && |t.kids| == t.entry.item.Arity()
    && forall i :: 0 <= i < |t.kids| ==> Shaped(t.kids[i])
  }

  lemma {:induction false} DenotesShaped(fields: Fields, off: Word, t: Tree)
    requires Denotes(fields, off, t)
    ensures Shaped(t)
    decreases t
  {
    var start := Follow(fields, off).value.next;
    forall i | 0 <= i < |t.kids|
      ensures Shaped(t.kids[i])
    {
      DenotesShaped(fields, KidPos(start, t.kids, i), t.kids[i]);
    }
  }

  /** Bytes denote at most one tree. */
  lemma {:induction false} DenotesUnique(fields: Fields, off: Word, t: Tree, u: Tree)
    requires Denotes(fields, off, t) && Denotes(fields, off, u)
    ensures t == u
    decreases t
  {
    var head := Follow(fields, off).value;
    KidsUnique(fields, head.next, t.kids, u.kids, |t.kids|);
    assert t.kids == t.kids[..|t.kids|] && u.kids == u.kids[..|u.kids|];
  }

  lemma {:induction false} KidsUnique(fields: Fields, start: Word, ts: seq<Tree>, us: seq<Tree>, n: nat)
    requires n <= |ts| == |us|
    requires DenotesSeq(fields, start, ts) && DenotesSeq(fields, start, us)
    ensures ts[..n] == us[..n]
    decreases ts, n
  {
    if n > 0 {
      KidsUnique(fields, start, ts, us, n - 1);
      assert ts[..n] == ts[..n - 1] + [ts[n - 1]] && us[..n] == us[..n - 1] + [us[n - 1]];
      assert n > 1 ==> ts[n - 2] == ts[..n - 1][n - 2] && us[n - 2] == us[..n - 1][n - 2];
      assert KidPos(start, ts, n - 1) == KidPos(start, us, n - 1);
      DenotesUnique(fields, KidPos(start, ts, n - 1), ts[n - 1], us[n - 1]);
    }
  }

  // ----- the recursion of get_entry_data_list, as a function of the remaining call depth -----

  const MAXIMUM_DATA_STRUCTURE_DEPTH := 512

  ghost function Resolve(fields: Fields, off: Word, fuel: nat): Option<Tree>
    decreases fuel, 0, off
  {
    if fuel == 0 || off !in fields then None
    else
      var field := fields[off];
      if field.item.Pointer? then
        var to := field.item.target;
        if to !in fields || fields[to].item.Pointer? then None
        else if fields[to].item.IsContainer() then
          match Resolve(fields, to, fuel - 1)
          case None => None
          case Some(t) => Some(Node(t.entry.(next := field.next), t.kids))
        else Some(Node(fields[to].(next := field.next), []))
      else
        match ResolveSeq(fields, field.next, field.item.Arity(), fuel - 1)
        case None => None
        case Some(kids) => Some(Node(field.(next := KidPos(field.next, kids, |kids|)), kids))
  }

  ghost function ResolveSeq(fields: Fields, start: Word, n: nat, fuel: nat): (r: Option<seq<Tree>>)
    ensures r.Some? ==> |r.value| == n
    decreases fuel, 1 + n, start
  {
    if n == 0 then Some([])
    else
      match ResolveSeq(fields, start, n - 1, fuel)
      case None => None
      case Some(ts) =>
        match Resolve(fields, KidPos(start, ts, |ts|), fuel)
        case None => None
        case Some(t) => Some(ts + [t])
  }

  /** Nested calls that resolving the value at `off` takes: a container behind a pointer takes two. */
  ghost function Calls(fields: Fields, off: Word, t: Tree): (c: nat)
    requires Denotes(fields, off, t)
    ensures c >= 1
    decreases t, 0
  {
    var field, head := fields[off], Follow(fields, off).value;
    var below := 1 + CallsSeq(fields, head.next, t.kids, |t.kids|);
    if field.item.Pointer? && head.item.IsContainer() then 1 + below else below
  }

  ghost function CallsSeq(fields: Fields, start: Word, ts: seq<Tree>, n: nat): nat
    requires n <= |ts| && DenotesSeq(fields, start, ts)
    decreases ts, n
  {
    if n == 0 then 0
    else
      var last := Calls(fields, KidPos(start, ts, n - 1), ts[n - 1]);
      var before := CallsSeq(fields, start, ts, n - 1);
      if last > before then last else before
  }

  /** What is resolved within the depth limit is what the bytes denote. */
  lemma {:induction false} ResolveSound(fields: Fields, off: Word, fuel: nat)
    requires Resolve(fields, off, fuel).Some?
    ensures Denotes(fields, off, Resolve(fields, off, fuel).value)
    ensures Calls(fields, off, Resolve(fields, off, fuel).value) <= fuel
    decreases fuel, 0
  {
    var field := fields[off];
    if !field.item.Pointer? {
      ResolveSeqSound(fields, field.next, field.item.Arity(), fuel - 1);
    } else if Follow(fields, off).value.item.IsContainer() {
      ResolveSound(fields, field.item.target, fuel - 1);
    }
  }

  lemma {:induction false} ResolveSeqSound(fields: Fields, start: Word, n: nat, fuel: nat)
    requires ResolveSeq(fields, start, n, fuel).Some?
    ensures DenotesSeq(fields, start, ResolveSeq(fields, start, n, fuel).value)
    ensures CallsSeq(fields, start, ResolveSeq(fields, start, n, fuel).value, n) <= fuel
    decreases fuel, 1 + n
  {
    if n > 0 {
      var ts := ResolveSeq(fields, start, n - 1, fuel).value;
      var pos := KidPos(start, ts, |ts|);
      ResolveSeqSound(fields, start, n - 1, fuel);
      ResolveSound(fields, pos, fuel);
      DenotesSnoc(fields, start, ts, Resolve(fields, pos, fuel).value);
      CallsSnoc(fields, start, ts, Resolve(fields, pos, fuel).value);
    }
  }

  /** A run extended by one value is a run. */
  lemma DenotesSnoc(fields: Fields, start: Word, ts: seq<Tree>, t: Tree)
    requires DenotesSeq(fields, start, ts) && Denotes(fields, KidPos(start, ts, |ts|), t)
    ensures DenotesSeq(fields, start, ts + [t])
  {
    var all := ts + [t];
    forall i {:trigger KidPos(start, all, i)} | 0 <= i < |all|
      ensures Denotes(fields, KidPos(start, all, i), all[i])
    {
      assert KidPos(start, all, i) == KidPos(start, ts, i);
      assert i < |ts| ==> all[i] == ts[i];
    }
  }

  /** The extended run nests as deep as the deeper of its two parts. */
  lemma CallsSnoc(fields: Fields, start: Word, ts: seq<Tree>, t: Tree)
    requires DenotesSeq(fields, start, ts) && DenotesSeq(fields, start, ts + [t])
    requires Denotes(fields, KidPos(start, ts, |ts|), t)
    ensures CallsSeq(fields, start, ts + [t], |ts| + 1) ==
            var last, before := Calls(fields, KidPos(start, ts, |ts|), t), CallsSeq(fields, start, ts, |ts|);
            if last > before then last else before
  {
    var all := ts + [t];
    CallsSeqPrefix(fields, start, all, ts, |ts|);
    assert all[|ts|] == t && KidPos(start, all, |ts|) == KidPos(start, ts, |ts|);
  }

  lemma {:induction false} CallsSeqPrefix(fields: Fields, start: Word, ts: seq<Tree>, us: seq<Tree>, n: nat)
    requires DenotesSeq(fields, start, ts) && DenotesSeq(fields, start, us)
    requires n <= |ts| && n <= |us| && ts[..n] == us[..n]
    ensures CallsSeq(fields, start, ts, n) == CallsSeq(fields, start, us, n)
    decreases n
  {
    if n > 0 {
      assert ts[n - 1] == ts[..n][n - 1] == us[..n][n - 1] == us[n - 1];
      assert n > 1 ==> ts[n - 2] == ts[..n][n - 2] == us[..n][n - 2] == us[n - 2];
      assert ts[..n - 1] == ts[..n][..n - 1] == us[..n][..n - 1] == us[..n - 1];
      CallsSeqPrefix(fields, start, ts, us, n - 1);
    }
  }

  /** Every denoted tree whose nesting fits the depth limit is resolved. */
  lemma {:induction false} ResolveComplete(fields: Fields, off: Word, t: Tree, fuel: nat)
    requires Denotes(fields, off, t) && Calls(fields, off, t) <= fuel
    ensures Resolve(fields, off, fuel) == Some(t)
    decreases t, 1
  {
    var field, head := fields[off], Follow(fields, off).value;
    assert DenotesSeq(fields, head.next, t.kids);
    if !field.item.Pointer? {
      ResolveSeqComplete(fields, head.next, t.kids, |t.kids|, fuel - 1);
      assert t.kids[..|t.kids|] == t.kids;
    } else if head.item.IsContainer() {
      ResolveSeqComplete(fields, head.next, t.kids, |t.kids|, fuel - 2);
      assert t.kids[..|t.kids|] == t.kids;
      assert Resolve(fields, field.item.target, fuel - 1) ==
             Some(Node(head.(next := KidPos(head.next, t.kids, |t.kids|)), t.kids));
    }
  }

  lemma CallsSeqStep(fields: Fields, start: Word, ts: seq<Tree>, n: nat, pos: Word, last: Tree, fuel: nat)
    requires n < |ts| && DenotesSeq(fields, start, ts) && pos == KidPos(start, ts, n) && last == ts[n]
    requires CallsSeq(fields, start, ts, n + 1) <= fuel
    ensures Denotes(fields, pos, last) && Calls(fields, pos, last) <= fuel
    ensures CallsSeq(fields, start, ts, n) <= fuel
  {
  }

  lemma ResolveSeqStep(fields: Fields, start: Word, ts: seq<Tree>, n: nat, fuel: nat)
    requires n < |ts|
    requires ResolveSeq(fields, start, n, fuel) == Some(ts[..n])
    requires Resolve(fields, KidPos(start, ts, n), fuel) == Some(ts[n])
    ensures ResolveSeq(fields, start, n + 1, fuel) == Some(ts[..n + 1])
  {
    TakeSnoc(ts, n);
    assert KidPos(start, ts[..n], n) == KidPos(start, ts, n);
  }

  lemma {:induction false} ResolveSeqComplete(fields: Fields, start: Word, ts: seq<Tree>, n: nat, fuel: nat)
    requires n <= |ts| && DenotesSeq(fields, start, ts)
    requires CallsSeq(fields, start, ts, n) <= fuel
    ensures ResolveSeq(fields, start, n, fuel) == Some(ts[..n])
    decreases ts, n
  {
    if n > 0 {
      var pos, last := KidPos(start, ts, n - 1), ts[n - 1];
      CallsSeqStep(fields, start, ts, n - 1, pos, last, fuel);
      ResolveSeqComplete(fields, start, ts, n - 1, fuel);
      ResolveComplete(fields, pos, last, fuel);
      ResolveSeqStep(fields, start, ts, n - 1, fuel);
    }
  }

  /** The depth-limited resolver succeeds exactly on bytes that denote a shallow enough tree. */
  lemma ResolveIff(fields: Fields, off: Word, t: Tree, fuel: nat)
    ensures Resolve(fields, off, fuel) == Some(t) <==> Denotes(fields, off, t) && Calls(fields, off, t) <= fuel
  {
    if Resolve(fields, off, fuel) == Some(t) {
      ResolveSound(fields, off, fuel);
    }
    if Denotes(fields, off, t) && Calls(fields, off, t) <= fuel {
      ResolveComplete(fields, off, t, fuel);
    }
  }
}
