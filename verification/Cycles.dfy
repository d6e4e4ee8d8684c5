/**
 Pointers may form cycles.  "Contains" is defined on the bytes, by counting fields, so it makes
 sense of cyclic data too; a value in which some container contains itself is never resolved.
 */
module Cycles {
  import opened Bytes
  import opened Decoder
  import opened ValueTree
  import opened Skipping

  /** Container `b` is the `i`-th member of container `a`, in place or behind a pointer. */
  ghost predicate Member(fields: Fields, a: Word, b: Word, i: nat) {
    && a in fields && i < fields[a].item.Arity()
    && Scan(fields, fields[a].next, i).Some?
    && (var head := Follow(fields, Scan(fields, fields[a].next, i).value);
        head.Some? && head.value.item.IsContainer() && head.value.offset == b)
  }

  /** `chain` leads from the container that the value at `off` is, each the member of the one before. */
  ghost predicate Chain(fields: Fields, off: Word, chain: seq<Word>, members: seq<nat>) {
    && |chain| == |members| + 1
    && Follow(fields, off).Some?
    && Follow(fields, off).value.item.IsContainer()
    && chain[0] == Follow(fields, off).value.offset
    && forall i :: 0 <= i < |members| ==> Member(fields, chain[i], chain[i + 1], members[i])
  }

  function Height(t: Tree): nat {
    1 + HeightSeq(t.kids)
  }

  function HeightSeq(ts: seq<Tree>): nat {
    if ts == [] then 0
    else
      var before, last := HeightSeq(ts[..|ts| - 1]), Height(ts[|ts| - 1]);
      if last > before then last else before
  }

  lemma {:induction false} KidLower(ts: seq<Tree>, i: nat)
    requires i < |ts|
    ensures Height(ts[i]) <= HeightSeq(ts)
  {
    if i < |ts| - 1 {
      assert ts[..|ts| - 1][i] == ts[i];
      KidLower(ts[..|ts| - 1], i);
    }
  }

  /** The members of a container do not depend on how it was reached. */
  lemma SameContainer(fields: Fields, off1: Word, t1: Tree, off2: Word, t2: Tree)
    requires Denotes(fields, off1, t1) && Denotes(fields, off2, t2)
    requires t1.entry.item.IsContainer() && t1.entry.offset == t2.entry.offset
    ensures t1.kids == t2.kids
  {
    KidsUnique(fields, fields[t1.entry.offset].next, t1.kids, t2.kids, |t1.kids|);
    assert t1.kids[..|t1.kids|] == t1.kids && t2.kids[..|t1.kids|] == t2.kids;
  }

  lemma MemberTree(fields: Fields, off: Word, t: Tree, b: Word, i: nat)
    returns (pos: Word, kid: Tree)
    requires Denotes(fields, off, t) && t.entry.item.IsContainer()
    requires Member(fields, t.entry.offset, b, i)
    ensures Denotes(fields, pos, kid) && kid.entry.item.IsContainer() && kid.entry.offset == b
    ensures Height(kid) < Height(t)
  {
    var start := fields[t.entry.offset].next;
    ScanRun(fields, start, t.kids, i, 0);
    pos, kid := KidPos(start, t.kids, i), t.kids[i];
    KidLower(t.kids, i);
  }

  lemma {:induction false} ChainTree(fields: Fields, off: Word, t: Tree, chain: seq<Word>,
                                     members: seq<nat>, i: nat, j: nat)
    returns (pos: Word, u: Tree, pos': Word, u': Tree)
    requires Denotes(fields, off, t) && Chain(fields, off, chain, members)
    requires i <= j < |chain|
    ensures Denotes(fields, pos, u) && u.entry.item.IsContainer() && u.entry.offset == chain[i]
    ensures Denotes(fields, pos', u') && u'.entry.item.IsContainer() && u'.entry.offset == chain[j]
    ensures if i < j then Height(u') < Height(u) else u' == u
    decreases j
  {
    if j == 0 {
      pos, u, pos', u' := off, t, off, t;
    } else if i < j {
      pos, u, pos', u' := ChainTree(fields, off, t, chain, members, i, j - 1);
      pos', u' := MemberTree(fields, pos', u', chain[j], members[j - 1]);
    } else {
      pos, u, pos', u' := ChainTree(fields, off, t, chain, members, i - 1, j - 1);
      pos, u := MemberTree(fields, pos, u, chain[j], members[j - 1]);
      pos', u' := pos, u;
    }
  }

  /** A value with a container inside itself denotes no tree ... */
  lemma CycleDenotesNothing(fields: Fields, off: Word, t: Tree, chain: seq<Word>, members: seq<nat>,
                            i: nat, j: nat)
    requires Chain(fields, off, chain, members)
    requires i < j < |chain| && chain[i] == chain[j]
    ensures !Denotes(fields, off, t)
  {
    if Denotes(fields, off, t) {
      var pos, u, pos', u' := ChainTree(fields, off, t, chain, members, i, j);
      SameContainer(fields, pos, u, pos', u');
    }
  }

  /** ... and so is refused however deep the recursion is allowed to go. */
  lemma CycleNeverResolves(fields: Fields, off: Word, chain: seq<Word>, members: seq<nat>,
                           i: nat, j: nat, fuel: nat)
    requires Chain(fields, off, chain, members)
    requires i < j < |chain| && chain[i] == chain[j]
    ensures Resolve(fields, off, fuel).None?
  {
    if Resolve(fields, off, fuel).Some? {
      ResolveSound(fields, off, fuel);
      CycleDenotesNothing(fields, off, Resolve(fields, off, fuel).value, chain, members, i, j);
    }
  }
}
