/**
 Fetching changes from the cloud into the local store, in batches behind a change token.
 A fetch may stop anywhere; the token moves only after a whole batch has been applied.
 */
module Sync {
  import opened Bytes

  type Id = string

  /** The three object tables of the local database. */
  datatype Kind = Proxies | RuleSets | Groups

  type Key = (Kind, Id)

  /** A stored object; everything but the two fields that merging looks at is opaque. */
  datatype Local = Local(updatedAt: real, synced: bool, payload: seq<Byte>)

  type Store = map<Key, Local>

  /** A `CKRecord`. */
  datatype Record = Record(recordType: string, id: Id, updatedAt: real, payload: seq<Byte>)

  datatype Batch = Batch(changed: seq<Record>, deleted: seq<Id>)

  /** `realmClassType`: rule sets are looked up under a name that their records do not carry. */
  function ClassType(recordType: string): Option<Kind> {
    if recordType == "Proxy" then Some(Proxies)
    else if recordType == "RuleSet" then Some(RuleSets)
    else if recordType == "ConfigurationGroup" then Some(Groups)
    else None
  }

  // ----- what one write does, seen from one key -----

  datatype Write = Change(record: Record) | Delete(key: Key)

  ghost predicate Concerns(w: Write, key: Key) {
    match w
    case Change(r) => ClassType(r.recordType) == Some(key.0) && r.id == key.1
    case Delete(k) => k == key
  }

  /** The merge rule: the newer version wins, ties keep the local one, and the winner says if it is synced. */
  ghost function Merged(cell: Option<Local>, r: Record): Local {
    match cell
    case None => Local(r.updatedAt, true, r.payload)
    case Some(local) =>
      if local.updatedAt > r.updatedAt then local.(synced := false)
      else if local.updatedAt == r.updatedAt then local.(synced := true)
      else Local(r.updatedAt, true, r.payload)
  }

  ghost function WriteCell(cell: Option<Local>, w: Write, key: Key): Option<Local> {
    if !Concerns(w, key) then cell
    else if w.Delete? then None
    else Some(Merged(cell, w.record))
  }

  ghost function WriteAll(cell: Option<Local>, ws: seq<Write>, key: Key): Option<Local> {
    if ws == [] then cell
    else WriteCell(WriteAll(cell, ws[..|ws| - 1], key), ws[|ws| - 1], key)
  }

  ghost function Cell(store: Store, key: Key): Option<Local> {
    if key in store then Some(store[key]) else None
  }

  /** `after` is `before` with the writes applied, key by key. */
  ghost predicate Applied(before: Store, ws: seq<Write>, after: Store) {
    forall key: Key :: Cell(after, key) == WriteAll(Cell(before, key), ws, key)
  }

  /** No write is newer than `local`, and none deletes it. */
  ghost predicate Dominates(local: Local, ws: seq<Write>, key: Key) {
    forall w :: w in ws && Concerns(w, key) ==> w.Change? && w.record.updatedAt <= local.updatedAt
  }

  ghost predicate Deletes(ws: seq<Write>, key: Key) {
    exists w :: w in ws && w.Delete? && Concerns(w, key)
  }

  lemma {:induction false} WriteAllJoin(cell: Option<Local>, a: seq<Write>, b: seq<Write>, key: Key)
    ensures WriteAll(cell, a + b, key) == WriteAll(WriteAll(cell, a, key), b, key)
    decreases |b|
  {
    if b == [] {
      assert a + b == a;
    } else {
      assert (a + b)[..|a + b| - 1] == a + b[..|b| - 1];
      WriteAllJoin(cell, a, b[..|b| - 1], key);
    }
  }

  /** Writes that are not newer can only touch the synced flag. */
  lemma {:induction false} DominatedKeeps(local: Local, ws: seq<Write>, key: Key)
    requires Dominates(local, ws, key)
    ensures WriteAll(Some(local), ws, key).Some?
    ensures WriteAll(Some(local), ws, key).value.(synced := true) == local.(synced := true)
  {
    if ws != [] {
      var init, last := ws[..|ws| - 1], ws[|ws| - 1];
      assert ws == init + [last];
      DominatedKeeps(local, init, key);
    }
  }

  /** Nothing before a deletion matters after it. */
  lemma {:induction false} DeletionForgets(c: Option<Local>, d: Option<Local>, ws: seq<Write>, key: Key)
    requires Deletes(ws, key)
    ensures WriteAll(c, ws, key) == WriteAll(d, ws, key)
  {
    var init, last := ws[..|ws| - 1], ws[|ws| - 1];
    assert ws == init + [last];
    if !(last.Delete? && Concerns(last, key)) {
      assert Deletes(init, key);
      DeletionForgets(c, d, init, key);
    }
  }

  /** Without a deletion the newest version ends up stored, the local one or one of those written. */
  lemma {:induction false} NewestWins(cell: Option<Local>, ws: seq<Write>, key: Key)
    requires !Deletes(ws, key)
    requires cell.Some? || exists w :: w in ws && Concerns(w, key)
    ensures var r := WriteAll(cell, ws, key);
      && r.Some?
      && Dominates(r.value, ws, key)
      && (cell.Some? ==> cell.value.updatedAt <= r.value.updatedAt)
      && ((cell.Some? && r.value.(synced := true) == cell.value.(synced := true))
          || exists w :: w in ws && Concerns(w, key) && r.value.updatedAt == w.record.updatedAt
                         && r.value.payload == w.record.payload)
  {
    if ws != [] {
      var init, last := ws[..|ws| - 1], ws[|ws| - 1];
      assert ws == init + [last];
      assert forall w :: w in init ==> w in ws;
      assert last in ws;
      if cell.Some? || exists w :: w in init && Concerns(w, key) {
        NewestWins(cell, init, key);
      } else {
        Untouched(cell, init, key);
      }
    }
  }

  /** An object is left marked as synced exactly if the last fetched version is as new as what is stored. */
  lemma SyncedIff(cell: Option<Local>, ws: seq<Write>, r: Record, key: Key)
    requires Concerns(Change(r), key)
    ensures var stored := WriteAll(cell, ws + [Change(r)], key);
            stored.Some? && (stored.value.synced <==> r.updatedAt == stored.value.updatedAt)
  {
    assert (ws + [Change(r)])[..|ws|] == ws;
  }

  lemma {:induction false} Untouched(cell: Option<Local>, ws: seq<Write>, key: Key)
    requires forall w :: w in ws ==> !Concerns(w, key)
    ensures WriteAll(cell, ws, key) == cell
  {
    if ws != [] {
      var init, last := ws[..|ws| - 1], ws[|ws| - 1];
      assert ws == init + [last];
      Untouched(cell, init, key);
    }
  }

  /** Writing the same things a second time changes nothing, in whatever order they came. */
  lemma {:induction false} Idempotent(cell: Option<Local>, ws: seq<Write>, key: Key)
    ensures WriteAll(WriteAll(cell, ws, key), ws, key) == WriteAll(cell, ws, key)
  {
    if ws != [] {
      var init, last := ws[..|ws| - 1], ws[|ws| - 1];
      assert ws == init + [last];
      var once := WriteAll(cell, ws, key);
      if !Concerns(last, key) {
        Idempotent(cell, init, key);
      } else if last.Change? {
        if Deletes(init, key) {
          DeletionForgets(once, cell, init, key);
        } else {
          assert last in ws;
          assert !Deletes(ws, key);
          NewestWins(cell, ws, key);
          assert Dominates(once.value, init, key);
          DominatedKeeps(once.value, init, key);
        }
      }
    }
  }

  /** An applied prefix is absorbed when everything is applied again. */
  lemma PrefixAbsorbed(cell: Option<Local>, ws: seq<Write>, n: nat, key: Key)
    requires n <= |ws|
    ensures WriteAll(WriteAll(cell, ws[..n], key), ws, key) == WriteAll(cell, ws, key)
  {
    var p, q := ws[..n], ws[n..];
    assert ws == p + q;
    WriteAllJoin(WriteAll(cell, p, key), p, q, key);
    WriteAllJoin(cell, p, q, key);
    Idempotent(cell, p, key);
  }

  // ----- batches -----

  /** The tables in the order in which a deletion visits them, one transaction each. */
  const TABLES: seq<Kind> := [Proxies, RuleSets, Groups]

  /** All changed records of a batch are written before any deletion. */
  ghost function Writes(batch: Batch): (ws: seq<Write>)
    ensures |ws| == |batch.changed| + 3 * |batch.deleted|
  {
    seq(|batch.changed|, i requires 0 <= i < |batch.changed| => Change(batch.changed[i]))
    + seq(3 * |batch.deleted|, i requires 0 <= i < 3 * |batch.deleted| =>
        Delete((TABLES[i % 3], batch.deleted[i / 3])))
  }

  /** What all batches from the token on write. */
  ghost function Rest(batches: seq<Batch>, token: nat): seq<Write>
    requires token <= |batches|
    decreases |batches| - token
  {
    if token == |batches| then [] else Writes(batches[token]) + Rest(batches, token + 1)
  }

  /** The store that the remaining batches lead to. */
  ghost predicate LeadsTo(store: Store, batches: seq<Batch>, token: nat, goal: Store)
    requires token <= |batches|
  {
    Applied(store, Rest(batches, token), goal)
  }

  /** Stopping inside a batch and starting that batch over leads to the same store. */
  lemma PartialBatch(before: Store, after: Store, batches: seq<Batch>, token: nat, n: nat, goal: Store)
    requires token < |batches| && n <= |Writes(batches[token])|
    requires Applied(before, Writes(batches[token])[..n], after)
    ensures LeadsTo(before, batches, token, goal) <==> LeadsTo(after, batches, token, goal)
  {
    var ws, more := Writes(batches[token]), Rest(batches, token + 1);
    forall key: Key
      ensures WriteAll(Cell(after, key), ws + more, key) == WriteAll(Cell(before, key), ws + more, key)
    {
      PrefixAbsorbed(Cell(before, key), ws, n, key);
      WriteAllJoin(Cell(after, key), ws, more, key);
      WriteAllJoin(Cell(before, key), ws, more, key);
    }
  }

  /** A whole batch may be left behind. */
  lemma WholeBatch(before: Store, after: Store, batches: seq<Batch>, token: nat, goal: Store)
    requires token < |batches| && Applied(before, Writes(batches[token]), after)
    ensures LeadsTo(before, batches, token, goal) <==> LeadsTo(after, batches, token + 1, goal)
  {
    var ws, more := Writes(batches[token]), Rest(batches, token + 1);
    forall key: Key
      ensures WriteAll(Cell(after, key), more, key) == WriteAll(Cell(before, key), ws + more, key)
    {
      WriteAllJoin(Cell(before, key), ws, more, key);
    }
  }

  /** Only one store lies at the end. */
  lemma GoalUnique(store: Store, batches: seq<Batch>, token: nat, goal: Store, other: Store)
    requires token <= |batches|
    requires LeadsTo(store, batches, token, goal) && LeadsTo(store, batches, token, other)
    ensures goal == other
  {
    forall key: Key
      ensures key in goal <==> key in other
      ensures key in goal ==> goal[key] == other[key]
    {
      assert Cell(goal, key) == Cell(other, key);
    }
  }

  /** The store after some writes. */
  ghost function Written(store: Store, ws: seq<Write>): Store {
    if ws == [] then store
    else
      var init, last := Written(store, ws[..|ws| - 1]), ws[|ws| - 1];
      match last
      case Delete(key) => init - {key}
      case Change(r) =>
        match ClassType(r.recordType)
        case None => init
        case Some(kind) => init[(kind, r.id) := Merged(Cell(init, (kind, r.id)), r)]
  }

  /** From every store and token the remaining batches do lead somewhere. */
  lemma {:induction false} GoalExists(store: Store, ws: seq<Write>)
    ensures Applied(store, ws, Written(store, ws))
  {
    if ws != [] {
      GoalExists(store, ws[..|ws| - 1]);
    }
  }

  // ----- what is in the store then -----

  ghost function Deletions(id: Id): seq<Write> {
    [Delete((Proxies, id)), Delete((RuleSets, id)), Delete((Groups, id))]
  }

  /** The table a record belongs to, by the name of its type. */
  predicate Files(r: Record, key: Key) {
    && r.id == key.1
    && ((r.recordType == "Proxy" && key.0 == Proxies)
        || (r.recordType == "RuleSet" && key.0 == RuleSets)
        || (r.recordType == "ConfigurationGroup" && key.0 == Groups))
  }

  lemma FilesIff(r: Record, key: Key)
    ensures Concerns(Change(r), key) <==> Files(r, key)
  {
  }

  /** The newer version stays; what was stored stays on a tie; the flag says if it is the fetched one. */
  function Winner(cell: Option<Local>, r: Record): Local {
    if cell.None? || cell.value.updatedAt < r.updatedAt then Local(r.updatedAt, true, r.payload)
    else cell.value.(synced := cell.value.updatedAt == r.updatedAt)
  }

  lemma OneWrite(cell: Option<Local>, w: Write, key: Key)
    ensures WriteAll(cell, [w], key) == WriteCell(cell, w, key)
  {
    assert [w][..0] == [];
  }

  /** What one record does to the store: the newer version stays, and only under the record's own key. */
  lemma RecordStored(before: Store, r: Record, after: Store)
    requires Applied(before, [Change(r)], after)
    ensures forall key: Key :: !Files(r, key) ==> (key in after <==> key in before)
                                                  && (key in after ==> after[key] == before[key])
    ensures forall key: Key :: Files(r, key) ==> key in after && after[key] == Winner(Cell(before, key), r)
  {
    forall key: Key
      ensures Cell(after, key) == WriteCell(Cell(before, key), Change(r), key)
      ensures Concerns(Change(r), key) <==> Files(r, key)
    {
      OneWrite(Cell(before, key), Change(r), key);
    }
  }

  /** A record type without a table leaves the store as it was. */
  lemma NotStored(before: Store, r: Record, after: Store)
    requires Applied(before, [Change(r)], after)
    requires r.recordType != "Proxy" && r.recordType != "RuleSet" && r.recordType != "ConfigurationGroup"
    ensures after == before
  {
    RecordStored(before, r, after);
  }

  /** A deletion removes the identifier from the three tables, and nothing else. */
  lemma AllDeleted(before: Store, id: Id, after: Store)
    requires Applied(before, Deletions(id), after)
    ensures after == before - {(Proxies, id), (RuleSets, id), (Groups, id)}
  {
    var rest := before - {(Proxies, id), (RuleSets, id), (Groups, id)};
    forall key: Key
      ensures Cell(after, key) == Cell(rest, key)
    {
      DeletionsCell(Cell(before, key), id, key);
    }
    SameStore(after, rest);
  }

  lemma DeletionsCell(cell: Option<Local>, id: Id, key: Key)
    ensures WriteAll(cell, Deletions(id), key)
            == if key == (Proxies, id) || key == (RuleSets, id) || key == (Groups, id) then None else cell
  {
    var x, y, z := Delete((Proxies, id)), Delete((RuleSets, id)), Delete((Groups, id));
    assert Deletions(id) == [x] + [y] + [z];
    WriteAllJoin(cell, [x] + [y], [z], key);
    WriteAllJoin(cell, [x], [y], key);
    OneWrite(cell, x, key);
    OneWrite(WriteCell(cell, x, key), y, key);
    OneWrite(WriteCell(WriteCell(cell, x, key), y, key), z, key);
  }

  lemma SameStore(a: Store, b: Store)
    requires forall key: Key :: Cell(a, key) == Cell(b, key)
    ensures a == b
  {
    forall key: Key
      ensures key in a <==> key in b
      ensures key in a ==> a[key] == b[key]
    {
      assert Cell(a, key) == Cell(b, key);
    }
  }

  /** What is left to write ends with the `k`-th write of a batch and what comes after it. */
  lemma {:induction false} RestSplit(batches: seq<Batch>, token: nat, b: nat, k: nat) returns (before: seq<Write>)
    requires token <= b < |batches| && k < |Writes(batches[b])|
    ensures Rest(batches, token)
            == before + [Writes(batches[b])[k]] + (Writes(batches[b])[k + 1..] + Rest(batches, b + 1))
    ensures b == token ==> before == Writes(batches[b])[..k]
    decreases b - token
  {
    var ws := Writes(batches[b]);
    if token == b {
      before := ws[..k];
      assert ws == ws[..k] + [ws[k]] + ws[k + 1..];
    } else {
      var more := RestSplit(batches, token + 1, b, k);
      before := Writes(batches[token]) + more;
    }
  }

  /** The last write to a key decides what is stored there. */
  lemma LastWrite(store: Store, batches: seq<Batch>, token: nat, goal: Store, b: nat, k: nat, key: Key)
    returns (cell: Option<Local>)
    requires token <= b < |batches| && k < |Writes(batches[b])| && LeadsTo(store, batches, token, goal)
    requires forall w :: w in Writes(batches[b])[k + 1..] + Rest(batches, b + 1) ==> !Concerns(w, key)
    ensures Cell(goal, key) == WriteCell(cell, Writes(batches[b])[k], key)
    ensures b == token ==> cell == WriteAll(Cell(store, key), Writes(batches[b])[..k], key)
  {
    var before := RestSplit(batches, token, b, k);
    var w, later := Writes(batches[b])[k], Writes(batches[b])[k + 1..] + Rest(batches, b + 1);
    cell := WriteAll(Cell(store, key), before, key);
    assert Cell(goal, key) == WriteAll(Cell(store, key), before + [w] + later, key);
    WriteAllJoin(Cell(store, key), before + [w], later, key);
    Untouched(WriteAll(Cell(store, key), before + [w], key), later, key);
    assert (before + [w])[..|before|] == before;
  }

  /** Nothing in the batches from `b` on changes or deletes what is stored under `key`. */
  ghost predicate Silence(batches: seq<Batch>, b: nat, key: Key) {
    forall c, j :: b <= c < |batches| ==>
      && (0 <= j < |batches[c].changed| ==> !Files(batches[c].changed[j], key))
      && (0 <= j < |batches[c].deleted| ==> batches[c].deleted[j] != key.1)
  }

  lemma {:induction false} SilentRest(batches: seq<Batch>, b: nat, key: Key)
    requires b <= |batches| && Silence(batches, b, key)
    ensures forall w :: w in Rest(batches, b) ==> !Concerns(w, key)
    decreases |batches| - b
  {
    if b < |batches| {
      SilentRest(batches, b + 1, key);
      var batch := batches[b];
      SilentWrites(batch, 0, key);
      assert Writes(batch)[0..] == Writes(batch);
    }
  }

  /** The writes of a batch from its `i`-th on, when nothing in it touches the key. */
  lemma SilentWrites(batch: Batch, i: nat, key: Key)
    requires i <= |batch.changed|
    requires forall j :: i <= j < |batch.changed| ==> !Files(batch.changed[j], key)
    requires forall j :: 0 <= j < |batch.deleted| ==> batch.deleted[j] != key.1
    ensures forall w :: w in Writes(batch)[i..] ==> !Concerns(w, key)
  {
    forall k | i <= k < |Writes(batch)|
      ensures !Concerns(Writes(batch)[k], key)
    {
      if k < |batch.changed| {
        FilesIff(batch.changed[k], key);
      } else {
        assert batch.deleted[(k - |batch.changed|) / 3] != key.1;
      }
    }
  }

  /** A record that no later one replaces and no later deletion removes is in the store, unless a newer one is. */
  lemma FetchedIsStored(store: Store, batches: seq<Batch>, token: nat, goal: Store, b: nat, i: nat, key: Key)
    returns (cell: Option<Local>)
    requires token <= b < |batches| && i < |batches[b].changed| && LeadsTo(store, batches, token, goal)
    requires Files(batches[b].changed[i], key) && Silence(batches, b + 1, key)
    requires forall j :: i < j < |batches[b].changed| ==> !Files(batches[b].changed[j], key)
    requires forall j :: 0 <= j < |batches[b].deleted| ==> batches[b].deleted[j] != key.1
    ensures key in goal && goal[key] == Winner(cell, batches[b].changed[i])
    ensures key !in store && b == token && (forall j :: 0 <= j < i ==> !Files(batches[b].changed[j], key))
            ==> cell.None?
  {
    SilentWrites(batches[b], i + 1, key);
    SilentRest(batches, b + 1, key);
    FilesIff(batches[b].changed[i], key);
    cell := LastWrite(store, batches, token, goal, b, i, key);
    if b == token && forall j :: 0 <= j < i ==> !Files(batches[b].changed[j], key) {
      forall j | 0 <= j < i
        ensures !Concerns(Writes(batches[b])[j], key)
      {
        FilesIff(batches[b].changed[j], key);
      }
      Untouched(Cell(store, key), Writes(batches[b])[..i], key);
    }
  }

  /** An identifier that is deleted and not written again later is in no table, even if the same batch changed it. */
  lemma DeletedIsGone(store: Store, batches: seq<Batch>, token: nat, goal: Store, b: nat, i: nat, key: Key)
    requires token <= b < |batches| && i < |batches[b].deleted| && LeadsTo(store, batches, token, goal)
    requires batches[b].deleted[i] == key.1 && Silence(batches, b + 1, key)
    requires forall j :: i < j < |batches[b].deleted| ==> batches[b].deleted[j] != key.1
    ensures key !in goal
  {
    var batch, t := batches[b], if key.0 == Proxies then 0 else if key.0 == RuleSets then 1 else 2;
    var k := |batch.changed| + 3 * i + t;
    assert (3 * i + t) / 3 == i && (3 * i + t) % 3 == t;
    assert Writes(batch)[k] == Delete(key);
    forall m | k < m < |Writes(batch)|
      ensures !Concerns(Writes(batch)[m], key)
    {
      var n := m - |batch.changed|;
      assert Writes(batch)[m] == Delete((TABLES[n % 3], batch.deleted[n / 3]));
    }
    SilentRest(batches, b + 1, key);
    var cell := LastWrite(store, batches, token, goal, b, k, key);
  }

  // ----- what goes wrong -----

  /** How a fetch ended; an operation that was cut off, or asked for a full resync, never reports. */
  datatype Outcome = Finished | Failed | Silent

  /** What a CloudKit error code leads to. */
  datatype FetchError = Retryable | Fatal | TokenExpired

  /**
   What becomes of one request to the server: it is never answered, it ends in an error, or a batch
   arrives.  Of the writes of that batch those numbered in `stops` cannot be committed; the commit
   throws, unless the application is killed: there, or else right before the token is saved.
   */
  datatype Attempt = Cut | Error(error: FetchError) | Reply(stops: set<nat>, killed: bool)

  /** Every batch arrives and is written; errors are temporary, no more of them than may be retried. */
  ghost predicate Benign(script: seq<Attempt>, retries: nat) {
    script == []
    || (script[0] == Reply({}, false) && Benign(script[1..], retries))
    || (script[0] == Error(Retryable) && retries > 0 && Benign(script[1..], retries - 1))
  }

  /** Only a write that opens a transaction can be refused: nothing is committed for an object that is not there. */
  ghost predicate Refused(first: Store, ws: seq<Write>, stops: set<nat>, j: nat)
    requires j < |ws|
  {
    j in stops
    && match ws[j]
       case Change(r) => ClassType(r.recordType).Some?
       case Delete(key) => WriteAll(Cell(first, key), ws[..j], key).Some?
  }

  ghost predicate AllCommitted(first: Store, ws: seq<Write>, stops: set<nat>) {
    forall j :: 0 <= j < |ws| ==> !Refused(first, ws, stops, j)
  }

  /** What the server sends to a client that has seen the first `token` of the `visible` batches. */
  function NextBatch(batches: seq<Batch>, token: nat, visible: nat): Batch
    requires visible <= |batches|
  {
    if token < visible then batches[token] else Batch([], [])
  }

  /** Exactly the writes before the first refused one were made. */
  ghost predicate Reached(first: Store, ws: seq<Write>, stops: set<nat>, done: nat, now: Store) {
    && done <= |ws|
    && Applied(first, ws[..done], now)
    && (forall j :: 0 <= j < done ==> !Refused(first, ws, stops, j))
  }

  /** The store and the writes left off where one was refused, or went through. */
  ghost predicate Stopped(first: Store, ws: seq<Write>, stops: set<nat>, done: nat, now: Store, ok: bool) {
    && Reached(first, ws, stops, done, now)
    && (ok <==> done == |ws|)
    && (!ok ==> Refused(first, ws, stops, done))
  }

  lemma WritesChanged(batch: Batch, i: nat)
    requires i < |batch.changed|
    ensures Writes(batch)[i..i + 1] == [Change(batch.changed[i])]
  {
  }

  lemma WritesDeleted(batch: Batch, i: nat)
    requires i < |batch.deleted|
    ensures var k := |batch.changed| + 3 * i;
            k + 3 <= |Writes(batch)| && Writes(batch)[k..k + 3] == Deletions(batch.deleted[i])
  {
    var k := |batch.changed| + 3 * i;
    forall j | 0 <= j < 3
      ensures Writes(batch)[k + j] == Deletions(batch.deleted[i])[j]
    {
      assert (3 * i + j) / 3 == i && (3 * i + j) % 3 == j;
    }
  }

  lemma AppliedJoin(before: Store, ws: seq<Write>, n: nat, middle: Store, part: seq<Write>, after: Store)
    requires n + |part| <= |ws| && ws[n..n + |part|] == part
    requires Applied(before, ws[..n], middle) && Applied(middle, part, after)
    ensures Applied(before, ws[..n + |part|], after)
  {
    assert ws[..n + |part|] == ws[..n] + part;
    forall key: Key
      ensures Cell(after, key) == WriteAll(Cell(before, key), ws[..n + |part|], key)
    {
      WriteAllJoin(Cell(before, key), ws[..n], part, key);
    }
  }

  /** The stops that concern the `n` writes from the `k`-th on. */
  function StopsFrom(stops: set<nat>, k: nat, n: nat): (r: set<nat>)
    ensures forall j: nat :: j in r <==> j < n && k + j in stops
  {
    set i | i in stops && k <= i < k + n :: i - k
  }

  lemma RefusedInside(first: Store, ws: seq<Write>, stops: set<nat>, k: nat, before: Store, part: seq<Write>, j: nat)
    requires k + |part| <= |ws| && ws[k..k + |part|] == part && j < |part|
    requires Applied(first, ws[..k], before)
    ensures Refused(first, ws, stops, k + j) <==> Refused(before, part, StopsFrom(stops, k, |part|), j)
  {
    assert ws[k + j] == part[j];
    assert ws[..k + j] == ws[..k] + part[..j];
    if part[j].Delete? {
      var key := part[j].key;
      WriteAllJoin(Cell(first, key), ws[..k], part[..j], key);
    }
  }

  /** A stretch of the writes goes on where the writes before it went through. */
  lemma StoppedJoin(first: Store, ws: seq<Write>, stops: set<nat>, k: nat, before: Store,
                    part: seq<Write>, made: nat, after: Store, ok: bool)
    requires k + |part| <= |ws| && ws[k..k + |part|] == part
    requires Reached(first, ws, stops, k, before)
    requires Stopped(before, part, StopsFrom(stops, k, |part|), made, after, ok)
    ensures Reached(first, ws, stops, k + made, after)
    ensures !ok ==> Refused(first, ws, stops, k + made)
  {
    assert ws[k..k + made] == part[..made];
    AppliedJoin(first, ws, k, before, part[..made], after);
    forall j | 0 <= j < k + made
      ensures !Refused(first, ws, stops, j)
    {
      if j >= k {
        RefusedInside(first, ws, stops, k, before, part, j - k);
      }
    }
    if !ok {
      RefusedInside(first, ws, stops, k, before, part, made);
    }
  }

  lemma DeletionJoin(first: Store, batch: Batch, stops: set<nat>, i: nat, k: nat, before: Store,
                     made: nat, after: Store, ok: bool)
    requires i < |batch.deleted| && k == |batch.changed| + 3 * i
    requires Reached(first, Writes(batch), stops, k, before)
    requires Stopped(before, Deletions(batch.deleted[i]), StopsFrom(stops, k, 3), made, after, ok)
    ensures Reached(first, Writes(batch), stops, k + made, after)
    ensures ok <==> made == 3
    ensures !ok ==> k + made < |Writes(batch)| && Refused(first, Writes(batch), stops, k + made)
  {
    WritesDeleted(batch, i);
    var part := Deletions(batch.deleted[i]);
    assert |part| == 3;
    StoppedJoin(first, Writes(batch), stops, k, before, part, made, after, ok);
  }

  // ----- the operation -----

  /** The local database and the token saved next to it. */
  class Device {
    var store: Store
    var zoneToken: nat

    constructor (store: Store, zoneToken: nat)
      ensures this.store == store && this.zoneToken == zoneToken
    {
      this.store, this.zoneToken := store, zoneToken;
    }

    function Get(key: Key): Option<Local>
      reads this
    {
      if key in store then Some(store[key]) else None
    }

    /** One write transaction; its commit may throw, and then it did nothing. */
    method Commit(key: Key, local: Option<Local>, throws: bool) returns (ok: bool)
      modifies this`store
      ensures ok <==> !throws
      ensures !ok ==> store == old(store)
      ensures ok ==> store == if local.Some? then old(store)[key := local.value] else old(store) - {key}
    {
      if throws {
        return false;
      }
      store := if local.Some? then store[key := local.value] else store - {key};
      ok := true;
    }

    method Mark(key: Key, synced: bool, throws: bool) returns (ok: bool)
      modifies this`store
      ensures ok <==> !(throws && key in old(store))
      ensures ok && key in old(store) ==> store == old(store)[key := old(store)[key].(synced := synced)]
      ensures !ok || key !in old(store) ==> store == old(store)
    {
      var local := Get(key);
      if local.None? {
        return true;
      }
      ok := Commit(key, Some(local.value.(synced := synced)), throws);
    }

    method HardDelete(key: Key, throws: bool) returns (ok: bool)
      modifies this`store
      ensures ok <==> !(throws && key in old(store))
      ensures !ok ==> store == old(store)
      ensures ok ==> Applied(old(store), [Delete(key)], store)
    {
      var local := Get(key);
      if local.None? {
        return true;
      }
      ok := Commit(key, None, throws);
    }

    method ChangeLocalRecord(record: Record, throws: bool) returns (ok: bool)
      modifies this`store
      ensures ok <==> !(throws && ClassType(record.recordType).Some?)
      ensures !ok ==> store == old(store)
      ensures ok ==> Applied(old(store), [Change(record)], store)
    {
      var kind := ClassType(record.recordType);
      if kind.None? {
        return true;
      }
      var key := (kind.value, record.id);
      var local := Get(key);
      if local.Some? {
        if local.value.updatedAt > record.updatedAt {
          ok := Mark(key, false, throws);
          return;
        } else if local.value.updatedAt == record.updatedAt {
          ok := Mark(key, true, throws);
          return;
        }
      }
      ok := Commit(key, Some(Local(record.updatedAt, true, record.payload)), throws);
    }

    /** Each of the three deletions is a transaction of its own: the first `done` of them were made. */
    method DeleteLocalRecord(id: Id, stops: set<nat>) returns (ok: bool, ghost done: nat)
      modifies this`store
      ensures Stopped(old(store), Deletions(id), stops, done, store, ok)
    {
      ghost var first, ws := store, Deletions(id);
      done := 0;
      for i := 0 to 3
        invariant done == i && Reached(first, ws, stops, done, store)
      {
        ghost var before := store;
        assert Cell(before, ws[i].key) == WriteAll(Cell(first, ws[i].key), ws[..i], ws[i].key);
        ok := HardDelete((TABLES[i], id), i in stops);
        if !ok { return; }
        AppliedJoin(first, ws, i, before, [ws[i]], store);
        done := done + 1;
      }
      ok := true;
    }

    /** Whatever stops it, what has been written is a prefix of the batch, in order. */
    method ProcessFetchResults(results: Batch, stops: set<nat>) returns (ok: bool, ghost done: nat)
      modifies this`store
      ensures Stopped(old(store), Writes(results), stops, done, store, ok)
    {
      ghost var first, ws := store, Writes(results);
      done := 0;
      for i := 0 to |results.changed|
        invariant done == i && Reached(first, ws, stops, done, store)
      {
        ghost var before := store;
        assert ws[i] == Change(results.changed[i]);
        ok := ChangeLocalRecord(results.changed[i], i in stops);
        if !ok { return; }
        WritesChanged(results, i);
        AppliedJoin(first, ws, i, before, [ws[i]], store);
        done := done + 1;
      }
      ok, done := ProcessDeleted(results, stops, first);
    }

    method ProcessDeleted(results: Batch, stops: set<nat>, ghost first: Store) returns (ok: bool, ghost done: nat)
      requires Reached(first, Writes(results), stops, |results.changed|, store)
      modifies this`store
      ensures Stopped(first, Writes(results), stops, done, store, ok)
    {
      done := |results.changed|;
      for i := 0 to |results.deleted|
        invariant done == |results.changed| + 3 * i
        invariant Reached(first, Writes(results), stops, |results.changed| + 3 * i, store)
      {
        ok, done := ProcessDeletion(results, i, stops, first);
        if !ok { return; }
      }
      ok := true;
    }

    method ProcessDeletion(results: Batch, i: nat, stops: set<nat>, ghost first: Store)
      returns (ok: bool, ghost done: nat)
      requires i < |results.deleted|
      requires Reached(first, Writes(results), stops, |results.changed| + 3 * i, store)
      modifies this`store
      ensures Reached(first, Writes(results), stops, done, store)
      ensures if ok then done == |results.changed| + 3 * i + 3
              else done < |Writes(results)| && Refused(first, Writes(results), stops, done)
    {
      ghost var before := store;
      ghost var made;
      ok, made := DeleteLocalRecord(results.deleted[i], StopsFrom(stops, |results.changed| + 3 * i, 3));
      done := |results.changed| + 3 * i + made;
      DeletionJoin(first, results, stops, i, |results.changed| + 3 * i, before, made, store, ok);
    }
  }

  class FetchCloudChangesOperation {
    const device: Device
    const maximumRetryAttempts: nat
    var changeToken: nat
    var retryAttempts: nat

    constructor (device: Device, maximumRetryAttempts: nat)
      ensures this.device == device && this.maximumRetryAttempts == maximumRetryAttempts && retryAttempts == 0
    {
      this.device, this.maximumRetryAttempts := device, maximumRetryAttempts;
      changeToken, retryAttempts := 0, 0;
    }

    /** The operation is between two requests, with everything that `goal` still needs ahead of it. */
    ghost predicate Underway(batches: seq<Batch>, visible: nat, goal: Store)
      reads this, device
    {
      && changeToken == device.zoneToken <= visible <= |batches|
      && retryAttempts <= maximumRetryAttempts
      && LeadsTo(device.store, batches, device.zoneToken, goal)
    }

    /** What holds however a fetch ended. */
    twostate predicate Advanced(batches: seq<Batch>, visible: nat, goal: Store, outcome: Outcome)
      reads this, device
    {
      && old(device.zoneToken) <= device.zoneToken <= visible <= |batches|
      && old(retryAttempts) <= retryAttempts <= maximumRetryAttempts
      && LeadsTo(device.store, batches, device.zoneToken, goal)
      && (outcome == Finished ==> device.zoneToken == visible)
    }

    /**
     One request and all that it triggers.  `batches` is what the server will ever have, of which
     `visible` exist now; `goal` is any store that the remaining batches lead to.  The requests meet
     the attempts of the script one after the other; once it is exhausted every batch simply arrives.
     */
    method FetchCloudChanges(batches: seq<Batch>, visible: nat, script: seq<Attempt>, ghost goal: Store)
      returns (outcome: Outcome)
      requires Underway(batches, visible, goal)
      modifies this, device
      ensures Advanced(batches, visible, goal, outcome)
      ensures Benign(script, maximumRetryAttempts - old(retryAttempts)) ==> outcome == Finished
      ensures script != [] && script[0] == Cut ==>
                outcome == Silent && device.store == old(device.store) && device.zoneToken == old(device.zoneToken)
      decreases visible - changeToken, maximumRetryAttempts - retryAttempts, 1
    {
      var attempt := if script == [] then Reply({}, false) else script[0];
      var rest := if script == [] then [] else script[1..];
      match attempt
      case Cut => outcome := Silent;
      case Error(error) => outcome := HandleFetchError(error, batches, visible, rest, goal);
      case Reply(stops, killed) => outcome := CompleteFetch(stops, killed, batches, visible, rest, goal);
    }

    /**
     A batch has arrived; the server answers a token that is up to date with an empty one.  The token
     moves only behind a batch that was written as a whole.
     */
    method CompleteFetch(stops: set<nat>, killed: bool, batches: seq<Batch>, visible: nat, rest: seq<Attempt>,
                         ghost goal: Store)
      returns (outcome: Outcome)
      requires Underway(batches, visible, goal)
      modifies this, device
      ensures Advanced(batches, visible, goal, outcome)
      ensures var ws := Writes(NextBatch(batches, old(changeToken), visible));
        var written := AllCommitted(old(device.store), ws, stops);
        && (killed ==> outcome == Silent)
        && (!killed && !written ==> outcome == Failed)
        && (killed || !written ==> device.zoneToken == old(device.zoneToken))
      ensures stops == {} && !killed && Benign(rest, maximumRetryAttempts - old(retryAttempts)) ==> outcome == Finished
      decreases visible - changeToken, maximumRetryAttempts - retryAttempts, 0
    {
      var results := NextBatch(batches, changeToken, visible);
      var serverChangeToken := if changeToken < visible then changeToken + 1 else changeToken;
      var ok := WriteResults(results, stops, batches, visible, goal);
      if !ok || killed {
        return if killed then Silent else Failed;
      }
      device.zoneToken := serverChangeToken;
      changeToken := serverChangeToken;
      if serverChangeToken < visible {
        outcome := FetchCloudChanges(batches, visible, rest, goal);
      } else {
        outcome := Finished;
      }
    }

    /** Writing what was fetched, as a whole or in part, leaves the same store ahead. */
    method WriteResults(results: Batch, stops: set<nat>, batches: seq<Batch>, visible: nat, ghost goal: Store)
      returns (ok: bool)
      requires Underway(batches, visible, goal)
      requires results == NextBatch(batches, changeToken, visible)
      modifies device`store
      ensures LeadsTo(device.store, batches, changeToken, goal)
      ensures ok && changeToken < visible ==> LeadsTo(device.store, batches, changeToken + 1, goal)
      ensures ok <==> AllCommitted(old(device.store), Writes(results), stops)
    {
      ghost var before, done := device.store, 0;
      ok, done := device.ProcessFetchResults(results, stops);
      if changeToken < visible {
        PartialBatch(before, device.store, batches, changeToken, done, goal);
        if ok {
          assert Writes(results)[..done] == Writes(results);
          WholeBatch(before, device.store, batches, changeToken, goal);
        }
      } else {
        assert Writes(results)[..done] == [];
        SameCells(before, device.store, batches, changeToken, goal);
      }
    }

    /** Only a temporary error is tried again, and only while attempts are left. */
    method HandleFetchError(error: FetchError, batches: seq<Batch>, visible: nat, rest: seq<Attempt>,
                            ghost goal: Store)
      returns (outcome: Outcome)
      requires Underway(batches, visible, goal)
      modifies this, device
      ensures Advanced(batches, visible, goal, outcome)
      ensures (error != Retryable || old(retryAttempts) == maximumRetryAttempts) ==>
                && outcome == (if error == TokenExpired then Silent else Failed)
                && device.store == old(device.store) && device.zoneToken == old(device.zoneToken)
                && retryAttempts == old(retryAttempts)
      ensures error == Retryable && old(retryAttempts) < maximumRetryAttempts ==> old(retryAttempts) < retryAttempts
      ensures (error == Retryable && old(retryAttempts) < maximumRetryAttempts
               && Benign(rest, maximumRetryAttempts - old(retryAttempts) - 1)) ==> outcome == Finished
      decreases visible - changeToken, maximumRetryAttempts - retryAttempts, 0
    {
      match error
      case Retryable =>
        if retryAttempts < maximumRetryAttempts {
          retryAttempts := retryAttempts + 1;
          outcome := FetchCloudChanges(batches, visible, rest, goal);
        } else {
          outcome := Failed;
        }
      case Fatal => outcome := Failed;
      case TokenExpired => outcome := Silent;
    }

    /** A whole operation: it starts from the saved token. */
    method Execute(batches: seq<Batch>, visible: nat, script: seq<Attempt>, ghost goal: Store)
      returns (outcome: Outcome)
      requires device.zoneToken <= visible <= |batches|
      requires retryAttempts <= maximumRetryAttempts
      requires LeadsTo(device.store, batches, device.zoneToken, goal)
      modifies this, device
      ensures Advanced(batches, visible, goal, outcome)
      ensures Benign(script, maximumRetryAttempts - old(retryAttempts)) ==> outcome == Finished
      ensures outcome == Finished && visible == |batches| ==> device.store == goal
    {
      changeToken := device.zoneToken;
      outcome := FetchCloudChanges(batches, visible, script, goal);
      if device.zoneToken == |batches| {
        AtTheEnd(device.store, batches, goal);
      }
    }
  }

  lemma SameCells(before: Store, after: Store, batches: seq<Batch>, token: nat, goal: Store)
    requires token <= |batches| && Applied(before, [], after)
    ensures LeadsTo(before, batches, token, goal) <==> LeadsTo(after, batches, token, goal)
  {
    forall key: Key
      ensures Cell(after, key) == Cell(before, key)
    {
    }
  }

  /** With nothing left to fetch, the store is the one that lay ahead. */
  lemma AtTheEnd(store: Store, batches: seq<Batch>, goal: Store)
    requires LeadsTo(store, batches, |batches|, goal)
    ensures store == goal
  {
    GoalUnique(store, batches, |batches|, goal, store);
  }

  /** A start of the operation, and what its requests meet while `visible` batches exist. */
  datatype Launch = Launch(visible: nat, script: seq<Attempt>)

  /** Batches are never taken back. */
  ghost predicate Growing(launches: seq<Launch>, from: nat, to: nat) {
    && from <= to
    && (forall i :: 0 <= i < |launches| ==> from <= launches[i].visible <= to)
    && (forall i, j :: 0 <= i < j < |launches| ==> launches[i].visible <= launches[j].visible)
  }

  /** The last launch meets nothing worse than errors that may be retried. */
  ghost predicate EndsWell(launches: seq<Launch>) {
    launches != [] && Benign(launches[|launches| - 1].script, MAXIMUM_RETRY_ATTEMPTS)
  }

  const MAXIMUM_RETRY_ATTEMPTS: nat := 3

  /**
   Any number of operations, each cut off or failing anywhere, against a server that meanwhile gains
   batches: none of them loses or repeats the effect of anything, and the first one that meets
   nothing worse than errors that may be retried catches up.
   */
  method SyncUntilDone(device: Device, batches: seq<Batch>, launches: seq<Launch>, ghost goal: Store)
    returns (outcome: Outcome)
    requires Growing(launches, device.zoneToken, |batches|)
    requires LeadsTo(device.store, batches, device.zoneToken, goal)
    modifies device
    ensures device.zoneToken <= |batches| && LeadsTo(device.store, batches, device.zoneToken, goal)
    ensures device.zoneToken == |batches| ==> device.store == goal
    ensures outcome == Finished ==> launches != [] && device.zoneToken == launches[|launches| - 1].visible
    ensures EndsWell(launches) ==> outcome == Finished
  {
    outcome := Silent;
    for i := 0 to |launches|
      invariant i < |launches| ==> device.zoneToken <= launches[i].visible
      invariant device.zoneToken <= |batches| && LeadsTo(device.store, batches, device.zoneToken, goal)
      invariant outcome == Finished ==> i > 0 && device.zoneToken == launches[i - 1].visible
      invariant i > 0 && Benign(launches[i - 1].script, MAXIMUM_RETRY_ATTEMPTS) ==> outcome == Finished
    {
      var operation := new FetchCloudChangesOperation(device, MAXIMUM_RETRY_ATTEMPTS);
      outcome := operation.Execute(batches, launches[i].visible, launches[i].script, goal);
    }
    if device.zoneToken == |batches| {
      AtTheEnd(device.store, batches, goal);
    }
  }

  /**
   Two devices in the same state: one is stopped again and again until an operation gets through to
   the end, the other fetches everything in one go.  They end up the same.
   */
  method StoppedOrNot(device: Device, twin: Device, batches: seq<Batch>, launches: seq<Launch>)
    requires device != twin && device.store == twin.store && device.zoneToken == twin.zoneToken
    requires Growing(launches, device.zoneToken, |batches|) && EndsWell(launches)
    requires launches[|launches| - 1].visible == |batches|
    modifies device, twin
    ensures device.zoneToken == twin.zoneToken == |batches|
    ensures device.store == twin.store
  {
    ghost var ws := Rest(batches, device.zoneToken);
    ghost var goal := Written(device.store, ws);
    GoalExists(device.store, ws);
    var operation := new FetchCloudChangesOperation(twin, MAXIMUM_RETRY_ATTEMPTS);
    var whole := operation.Execute(batches, |batches|, [], goal);
    var last := SyncUntilDone(device, batches, launches, goal);
  }
}
