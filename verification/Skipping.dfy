/**
 Stepping over a value without resolving its pointers, and exactly when that lands where a
 full reading of the value ends.
 */
module Skipping {
  import opened Bytes
  import opened Decoder
  import opened ValueTree

  // ----- fields as a flat token stream -----

  /**
   Reads `k` complete values with nothing but a counter: every field read pays one and owes
   as many as its header announces.
   */
  ghost function Scan(fields: Fields, off: Word, k: nat): Option<Word>
    decreases 0x1_0000_0000 - off
  {
    if k == 0 then Some(off)
    else if off !in fields then None
    else Scan(fields, fields[off].next, k - 1 + fields[off].item.Arity())
  }

  lemma {:induction false} ScanAdvances(fields: Fields, off: Word, k: nat)
    requires k > 0 && Scan(fields, off, k).Some?
    ensures Scan(fields, off, k).value > off
    decreases 0x1_0000_0000 - off
  {
    var k' := k - 1 + fields[off].item.Arity();
    if k' > 0 {
      ScanAdvances(fields, fields[off].next, k');
    }
  }

  /** A denoted value is one value of the token stream. */
  lemma {:induction false} ScanTree(fields: Fields, off: Word, t: Tree, m: nat)
    requires Denotes(fields, off, t)
    ensures Scan(fields, off, 1 + m) == Scan(fields, t.entry.next, m)
    decreases t
  {
    if !fields[off].item.Pointer? {
      ScanRun(fields, fields[off].next, t.kids, |t.kids|, m);
    }
  }

  lemma {:induction false} ScanRun(fields: Fields, start: Word, ts: seq<Tree>, i: nat, m: nat)
    requires i <= |ts| && DenotesSeq(fields, start, ts)
    ensures Scan(fields, start, i + m) == Scan(fields, KidPos(start, ts, i), m)
    decreases ts, i
  {
    if i > 0 {
      ScanRun(fields, start, ts, i - 1, 1 + m);
      ScanTree(fields, KidPos(start, ts, i - 1), ts[i - 1], m);
    }
  }

  // ----- what skip_map_or_array does -----

  /**
   A position reached by skipping, and how many values it has left unread: the members of
   every container that was taken for a map key, since keys are not skipped into.
   */
  datatype Landing = Landing(pos: Word, unread: nat)

  ghost function SkipField(fields: Fields, e: Entry): (r: Option<Landing>)
    ensures r.Some? ==> r.value.pos >= e.next
    decreases 0x1_0000_0000 - e.next, 1, 0
  {
    SkipRun(fields, e.next, e.item.Arity(), e.item.Map?)
  }

  /** The first `n` fields of a container body; in `pairs`, those at even positions are keys. */
  ghost function SkipRun(fields: Fields, start: Word, n: nat, pairs: bool): (r: Option<Landing>)
    ensures r.Some? ==> r.value.pos >= start
    decreases 0x1_0000_0000 - start, 0, n
  {
    if n == 0 then Some(Landing(start, 0))
    else
      match SkipRun(fields, start, n - 1, pairs)
      case None => None
      case Some(Landing(pos, unread)) =>
        if pos !in fields then None
        else if pairs && (n - 1) % 2 == 0 then
          Some(Landing(fields[pos].next, unread + fields[pos].item.Arity()))
        else
          match SkipField(fields, fields[pos])
          case None => None
          case Some(inner) => Some(Landing(inner.pos, unread + inner.unread))
  }

  /** Skipping follows the token stream, except for the members it leaves unread. */
  lemma {:induction false} SkipScan(fields: Fields, start: Word, n: nat, i: nat, pairs: bool, m: nat)
    requires i <= n && Scan(fields, start, n + m).Some?
    ensures SkipRun(fields, start, i, pairs).Some?
    ensures var landing := SkipRun(fields, start, i, pairs).value;
            Scan(fields, start, n + m) == Scan(fields, landing.pos, n - i + m + landing.unread)
    decreases 0x1_0000_0000 - start, i
  {
    if i > 0 {
      SkipScan(fields, start, n, i - 1, pairs, m);
      var Landing(pos, unread) := SkipRun(fields, start, i - 1, pairs).value;
      var field, rest := fields[pos], n - i + m + unread;
      if !(pairs && (i - 1) % 2 == 0) {
        SkipScan(fields, field.next, field.item.Arity(), field.item.Arity(), field.item.Map?, rest);
      }
    }
  }

  /** No map key, anywhere skipping looks, is an inline container with members. */
  ghost predicate SkipSafe(fields: Fields, off: Word, t: Tree)
    requires Denotes(fields, off, t)
    decreases t, 0, 0
  {
    fields[off].item.Pointer? ||
    SkipSafeRun(fields, fields[off].next, t.kids, |t.kids|, t.entry.item.Map?)
  }

  ghost predicate SkipSafeRun(fields: Fields, start: Word, ts: seq<Tree>, n: nat, pairs: bool)
    requires n <= |ts| && DenotesSeq(fields, start, ts)
    decreases ts, 1, n
  {
    n == 0 ||
    (var pos := KidPos(start, ts, n - 1);
     assert Denotes(fields, pos, ts[n - 1]);
     && SkipSafeRun(fields, start, ts, n - 1, pairs)
     && if pairs && (n - 1) % 2 == 0 then fields[pos].item.Arity() == 0
        else SkipSafe(fields, pos, ts[n - 1]))
  }

  /** Nothing is left unread exactly when every key is safe; then the landing is the value's end. */
  lemma {:induction false} UnreadTree(fields: Fields, off: Word, t: Tree)
    requires Denotes(fields, off, t) && SkipField(fields, fields[off]).Some?
    ensures var landing := SkipField(fields, fields[off]).value;
            && (landing.unread == 0 <==> SkipSafe(fields, off, t))
            && (landing.unread == 0 ==> landing.pos == t.entry.next)
    decreases t, 0, 0
  {
    if !fields[off].item.Pointer? {
      UnreadRun(fields, fields[off].next, t.kids, |t.kids|, t.entry.item.Map?);
    }
  }

  lemma {:induction false} UnreadRun(fields: Fields, start: Word, ts: seq<Tree>, n: nat, pairs: bool)
    requires n <= |ts| && DenotesSeq(fields, start, ts) && SkipRun(fields, start, n, pairs).Some?
    ensures var landing := SkipRun(fields, start, n, pairs).value;
            && (landing.unread == 0 <==> SkipSafeRun(fields, start, ts, n, pairs))
            && (landing.unread == 0 ==> landing.pos == KidPos(start, ts, n))
    decreases ts, 1, n
  {
    if n > 0 {
      UnreadRun(fields, start, ts, n - 1, pairs);
      var pos := KidPos(start, ts, n - 1);
      if SkipRun(fields, start, n - 1, pairs).value.unread == 0 {
        if pairs && (n - 1) % 2 == 0 {
          ChildlessEnd(fields, pos, ts[n - 1]);
        } else {
          UnreadTree(fields, pos, ts[n - 1]);
        }
      }
    }
  }

  lemma ChildlessEnd(fields: Fields, off: Word, t: Tree)
    requires Denotes(fields, off, t)
    ensures fields[off].item.Arity() == 0 ==> t.entry.next == fields[off].next
  {
  }

  /**
   On every value that can be read in full, skipping succeeds, never overshoots, and lands on
   the value's end if and only if no map key it meets is an inline container with members.
   */
  lemma SkipAgreesIff(fields: Fields, off: Word, t: Tree)
    requires Denotes(fields, off, t)
    ensures SkipField(fields, fields[off]).Some?
    ensures SkipField(fields, fields[off]).value.pos <= t.entry.next
    ensures SkipField(fields, fields[off]).value.pos == t.entry.next <==> SkipSafe(fields, off, t)
  {
    var field := fields[off];
    ScanTree(fields, off, t, 0);
    SkipScan(fields, field.next, field.item.Arity(), field.item.Arity(), field.item.Map?, 0);
    var landing := SkipField(fields, field).value;
    assert Scan(fields, landing.pos, landing.unread) == Some(t.entry.next);
    UnreadTree(fields, off, t);
    if landing.unread > 0 {
      ScanAdvances(fields, landing.pos, landing.unread);
    }
  }

  /**
   `skip_map_or_array`.  There is no depth limit: what bounds the recursion, and the loops, is
   that every field read ends further into the section.
   */
  method SkipMapOrArray(sec: Section, e: Entry) returns (status: Status, entry: Entry)
    ensures status == Success || status == InvalidData
    ensures status == Success <==> SkipField(FieldsOf(sec), e).Some?
    ensures status == Success ==> entry.next == SkipField(FieldsOf(sec), e).value.pos
    decreases 0x1_0000_0000 - e.next
  {
    ghost var fields := FieldsOf(sec);
    status, entry := Success, e;
    if e.item.Map? {
      var size: nat, done: nat := e.item.count, 0;
      while done < size
        invariant 0 <= done <= size && status == Success
        invariant SkipRun(fields, e.next, 2 * done, true).Some?
        invariant entry.next == SkipRun(fields, e.next, 2 * done, true).value.pos
      {
        SkipPairStep(fields, e.next, done, size);
        status, entry := DecodeOne(sec, entry.next);
        if status != Success {
          return;
        }
        status, entry := DecodeOne(sec, entry.next);
        if status != Success {
          return;
        }
        status, entry := SkipMapOrArray(sec, entry);
        if status != Success {
          return;
        }
        done := done + 1;
      }
    } else if e.item.Array? {
      var size: nat, done: nat := e.item.count, 0;
      while done < size
        invariant 0 <= done <= size && status == Success
        invariant SkipRun(fields, e.next, done, false).Some?
        invariant entry.next == SkipRun(fields, e.next, done, false).value.pos
      {
        SkipRunStep(fields, e.next, done, size, false);
        status, entry := DecodeOne(sec, entry.next);
        if status != Success {
          return;
        }
        status, entry := SkipMapOrArray(sec, entry);
        if status != Success {
          return;
        }
        done := done + 1;
      }
    }
  }

  /** One more field of a container body: where it leads, or that the whole body fails. */
  lemma SkipRunStep(fields: Fields, start: Word, n: nat, total: nat, pairs: bool)
    requires n < total && SkipRun(fields, start, n, pairs).Some?
    ensures var pos := SkipRun(fields, start, n, pairs).value.pos;
            if pos !in fields then SkipRun(fields, start, total, pairs).None?
            else if pairs && n % 2 == 0 then
              && SkipRun(fields, start, n + 1, pairs).Some?
              && SkipRun(fields, start, n + 1, pairs).value.pos == fields[pos].next
            else
              match SkipField(fields, fields[pos])
              case None => SkipRun(fields, start, total, pairs).None?
              case Some(inner) =>
                && SkipRun(fields, start, n + 1, pairs).Some?
                && SkipRun(fields, start, n + 1, pairs).value.pos == inner.pos
  {
    SkipRunFails(fields, start, n + 1, total, pairs);
  }

  /** One more key and value of a map body. */
  lemma SkipPairStep(fields: Fields, start: Word, done: nat, size: nat)
    requires done < size && SkipRun(fields, start, 2 * done, true).Some?
    ensures var key := SkipRun(fields, start, 2 * done, true).value.pos;
            if key !in fields || fields[key].next !in fields then
              SkipRun(fields, start, 2 * size, true).None?
            else
              match SkipField(fields, fields[fields[key].next])
              case None => SkipRun(fields, start, 2 * size, true).None?
              case Some(inner) =>
                && SkipRun(fields, start, 2 * (done + 1), true).Some?
                && SkipRun(fields, start, 2 * (done + 1), true).value.pos == inner.pos
  {
    assert 2 * done % 2 == 0 && (2 * done + 1) % 2 == 1;
    SkipRunStep(fields, start, 2 * done, 2 * size, true);
    if SkipRun(fields, start, 2 * done, true).value.pos in fields {
      SkipRunStep(fields, start, 2 * done + 1, 2 * size, true);
    }
  }

  lemma {:induction false} SkipRunFails(fields: Fields, start: Word, i: nat, n: nat, pairs: bool)
    requires i <= n
    ensures SkipRun(fields, start, i, pairs).None? ==> SkipRun(fields, start, n, pairs).None?
    decreases n
  {
    if i < n {
      SkipRunFails(fields, start, i, n - 1, pairs);
    }
  }
}
