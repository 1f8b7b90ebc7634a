/**
 * The database as a transition system.  A writer takes a transaction id
 * (Acquire), stamps one row with it and commits (Commit) or gives up (Finish);
 * ids are handed out in order but finish in any order.  Row locks are held from
 * the UPDATE or INSERT until COMMIT, so the effect on the table is atomic at
 * COMMIT.  Compaction is one statement.
 */
module Protocol {
  import opened Wrappers
  import opened Sql
  import opened Lifecycle

  datatype Db = Db(
    next: nat,                  // the next transaction id to hand out
    active: set<nat>,           // ids handed out and not finished
    table: map<Key, Row>,       // committed rows
    horizon: map<string, nat>,  // compaction_horizon
    used: set<nat>)             // uids gen_random_uuid has returned

  /** One request to the writer; Create is a Write with ExpectedVersion 0. */
  datatype Write =
    | Create(spec: string, status: Option<string>, metadata: Metadata, deletion: Option<int>)
    | Replace(expected: int, expectedUid: Option<nat>, spec: string, status: Option<string>,
              metadata: Metadata, deletion: Option<int>)
    | StatusOnly(expected: int, expectedUid: Option<nat>, newStatus: string)
    | ObjectOnly(expected: int, expectedUid: Option<nat>, spec: string, metadata: Metadata, deletion: Option<int>)

  datatype Outcome = Committed(row: Row) | Conflict | AlreadyExists | Rejected

  function OrElse<T>(o: Option<T>, default: T): T {
    if o.Some? then o.value else default
  }

  predicate CasMatches(table: map<Key, Row>, k: Key, expected: int, expectedUid: Option<nat>) {
    && k in table
    && table[k].version == expected
    && (expectedUid.None? || table[k].uid == expectedUid.value)
  }

  /** What the upsert statement of a transaction with id xid does to row k. */
  function Upsert(table: map<Key, Row>, k: Key, w: Write, xid: nat, uid: nat): Outcome {
    match w
    case Create(spec, status, metadata, deletion) =>
      if status.None? then Rejected  // status is NOT NULL, checked before the primary key
      else if k !in table then Committed(Row(uid, xid, 1, spec, status.value, metadata, deletion))
      else if TombstoneFilter(table[k]) == True then Committed(Row(uid, xid, 1, spec, status.value, metadata, None))
      else AlreadyExists
    case Replace(expected, expectedUid, spec, status, metadata, deletion) =>
      if expected == 0 then Rejected
      else if !CasMatches(table, k, expected, expectedUid) then Conflict
      else Committed(Row(table[k].uid, xid, table[k].version + 1, spec, OrElse(status, table[k].status), metadata, deletion))
    case StatusOnly(expected, expectedUid, newStatus) =>
      if expected == 0 then Rejected
      else if !CasMatches(table, k, expected, expectedUid) then Conflict
      else Committed(table[k].(stamp := xid, version := table[k].version + 1, status := newStatus))
    case ObjectOnly(expected, expectedUid, spec, metadata, deletion) =>
      if expected == 0 then Rejected
      else if !CasMatches(table, k, expected, expectedUid) then Conflict
      else Committed(table[k].(stamp := xid, version := table[k].version + 1, spec := spec,
                               metadata := metadata, deletion := deletion))
  }

  /**
   * What a committed request leaves in row k: every column it carries, every other
   * column of the row that was there, and the identity of its kind.
   */
  ghost predicate Stores(table: map<Key, Row>, k: Key, w: Write, xid: nat, uid: nat, r: Row) {
    && r.stamp == xid
    && (w.Create? ==>
          && r.uid == uid && r.version == 1
          && r.spec == w.spec && Some(r.status) == w.status && r.metadata == w.metadata
          && (if k in table then PhaseOf(table[k]) == Tombstone && PhaseOf(r) == Live else r.deletion == w.deletion))
    && (!w.Create? ==> k in table && r.uid == table[k].uid && r.version == table[k].version + 1)
    && (w.StatusOnly? ==>
          && r.status == w.newStatus
          && r.spec == table[k].spec && r.metadata == table[k].metadata && r.deletion == table[k].deletion)
    && (w.Replace? || w.ObjectOnly? ==> r.spec == w.spec && r.metadata == w.metadata && r.deletion == w.deletion)
    && (w.ObjectOnly? ==> r.status == table[k].status)
    && (w.Replace? ==> r.status == if w.status.Some? then w.status.value else table[k].status)
  }

  /** Which requests commit, and why the others fail. */
  lemma UpsertOutcomes(table: map<Key, Row>, k: Key, w: Write, xid: nat, uid: nat)
    ensures var o := Upsert(table, k, w, xid, uid);
      && (o.Committed? ==> Stores(table, k, w, xid, uid, o.row))
      && (o.Rejected? <==> if w.Create? then w.status.None? else w.expected == 0)
      && (o.AlreadyExists? <==> w.Create? && w.status.Some? && k in table && PhaseOf(table[k]) != Tombstone)
      && (o.Conflict? <==>
            && !w.Create? && w.expected != 0
            && !(k in table && table[k].version == w.expected && (w.expectedUid == None || w.expectedUid == Some(table[k].uid))))
  {
    if k in table {
      FiltersAgreeExactly(table[k]);
    }
  }

  /** Requests whose metadata came from extractMetadata or was copied from a row. */
  predicate RegularWrite(w: Write) {
    w.StatusOnly? || Regular(w.metadata)
  }

  datatype Step =
    | Acquire
    | Finish(xid: nat)
    | Commit(xid: nat, key: Key, write: Write, uid: nat)
    | Compact(victims: seq<Key>)

  predicate Enabled(db: Db, s: Step) {
    match s
    case Acquire => true
    case Finish(xid) => xid in db.active
    case Commit(xid, key, write, uid) =>
      && xid in db.active
      && uid !in db.used
      && RegularWrite(write)
      && Upsert(db.table, key, write, xid, uid).Committed?
    case Compact(victims) =>
      && Distinct(victims)
      && forall k :: k in victims ==> k in db.table && TombstoneFilter(db.table[k]) == True
  }

  /** GREATEST of the stored horizon (if any) and a deleted row's stamp. */
  function Raise(horizon: map<string, nat>, gvk: string, stamp: nat): map<string, nat> {
    if gvk in horizon && horizon[gvk] >= stamp then horizon else horizon[gvk := stamp]
  }

  /** The horizon table after the rows named by victims were deleted. */
  function RaiseAll(horizon: map<string, nat>, table: map<Key, Row>, victims: seq<Key>): map<string, nat>
    requires forall k :: k in victims ==> k in table
  {
    if victims == [] then horizon
    else
      var k := victims[|victims| - 1];
      Raise(RaiseAll(horizon, table, victims[..|victims| - 1]), k.gvk, table[k].stamp)
  }

  function Apply(db: Db, s: Step): Db
    requires Enabled(db, s)
  {
    match s
    case Acquire => db.(next := db.next + 1, active := db.active + {db.next})
    case Finish(xid) => db.(active := db.active - {xid})
    case Commit(xid, key, write, uid) =>
      db.(active := db.active - {xid},
          table := db.table[key := Upsert(db.table, key, write, xid, uid).row],
          used := db.used + {uid})
    case Compact(victims) =>
      db.(table := db.table - (set k | k in victims),
          horizon := RaiseAll(db.horizon, db.table, victims))
  }

  // ---- Runs ----

  predicate Runs(db: Db, steps: seq<Step>)
    decreases |steps|
  {
    steps == [] || (Enabled(db, steps[0]) && Runs(Apply(db, steps[0]), steps[1..]))
  }

  function Exec(db: Db, steps: seq<Step>): Db
    requires Runs(db, steps)
    decreases |steps|
  {
    if steps == [] then db else Exec(Apply(db, steps[0]), steps[1..])
  }

  function Initial(): Db {
    Db(1, {}, map[], map[], {})
  }

  predicate RowOk(db: Db, r: Row) {
    && 0 < r.stamp < db.next
    && r.stamp !in db.active
    && r.uid in db.used
    && Regular(r.metadata)
    && r.version > 0
  }

  /** What every step keeps. */
  ghost predicate Inv(db: Db) {
    && db.next > 0
    && (forall x :: x in db.active ==> 0 < x < db.next)
    && (forall k :: k in db.table ==> RowOk(db, db.table[k]))
    && (forall k, k' :: k in db.table && k' in db.table && db.table[k].stamp == db.table[k'].stamp ==> k == k')
    && (forall g :: g in db.horizon ==> db.horizon[g] < db.next)
  }

  // ---- pg_snapshot_xmin ----

  ghost function Least(s: set<nat>, bound: nat): (m: nat)
    ensures m <= bound && (forall x :: x in s ==> m <= x)
    ensures m == bound || m in s
  {
    if s == {} then bound
    else
      var x :| x in s;
      var rest := Least(s - {x}, bound);
      assert forall y :: y in s ==> y == x || y in s - {x};
      if x < rest then x else rest
  }

  /** The oldest transaction still in progress, or the next id if there is none. */
  ghost function Xmin(db: Db): nat {
    Least(db.active, db.next)
  }

  lemma XminNeverDecreases(db: Db, s: Step)
    requires Inv(db) && Enabled(db, s)
    ensures Xmin(db) <= Xmin(Apply(db, s))
  {
  }

  /** No horizon falls and each reaches the stamp of every row deleted under it. */
  lemma {:induction false} RaiseAllCovers(horizon: map<string, nat>, table: map<Key, Row>, victims: seq<Key>)
    requires forall k :: k in victims ==> k in table
    ensures var h := RaiseAll(horizon, table, victims);
      && (forall g :: g in horizon ==> g in h && horizon[g] <= h[g])
      && (forall k :: k in victims ==> k.gvk in h && table[k].stamp <= h[k.gvk])
  {
    if victims != [] {
      var front, last := victims[..|victims| - 1], victims[|victims| - 1];
      RaiseAllCovers(horizon, table, front);
      forall k | k in victims
        ensures k.gvk in RaiseAll(horizon, table, victims) && table[k].stamp <= RaiseAll(horizon, table, victims)[k.gvk]
      {
        assert k == last || k in front;
      }
    }
  }

  /** A horizon moves only to the stamp of a row deleted under it. */
  lemma {:induction false} RaiseAllTight(horizon: map<string, nat>, table: map<Key, Row>, victims: seq<Key>, g: string)
    requires forall k :: k in victims ==> k in table
    requires g in RaiseAll(horizon, table, victims)
    ensures var top := RaiseAll(horizon, table, victims)[g];
      || (g in horizon && top == horizon[g])
      || (exists k :: k in victims && k.gvk == g && table[k].stamp == top)
  {
    if victims != [] {
      var front, last := victims[..|victims| - 1], victims[|victims| - 1];
      var before := RaiseAll(horizon, table, front);
      if RaiseAll(horizon, table, victims) == before || last.gvk != g {
        RaiseAllTight(horizon, table, front, g);
      } else {
        assert last in victims;
      }
    }
  }

  lemma InvStep(db: Db, s: Step)
    requires Inv(db) && Enabled(db, s)
    ensures Inv(Apply(db, s))
  {
    match s
    case Acquire =>
    case Finish(_) =>
    case Commit(_, _, _, _) => InvCommit(db, s);
    case Compact(victims) =>
      forall g | g in Apply(db, s).horizon
        ensures Apply(db, s).horizon[g] < db.next
      {
        RaiseAllTight(db.horizon, db.table, victims, g);
      }
  }

  lemma InvCommit(db: Db, s: Step)
    requires Inv(db) && Enabled(db, s) && s.Commit?
    ensures Inv(Apply(db, s))
  {
    var after := Apply(db, s);
    forall k | k in after.table
      ensures RowOk(after, after.table[k]) && (after.table[k].stamp == s.xid ==> k == s.key)
    {
      assert k in db.table ==> RowOk(db, db.table[k]);
    }
  }

  lemma {:induction false} InvRun(db: Db, steps: seq<Step>)
    requires Inv(db) && Runs(db, steps)
    ensures Inv(Exec(db, steps))
    ensures Xmin(db) <= Xmin(Exec(db, steps))
    decreases |steps|
  {
    if steps != [] {
      InvStep(db, steps[0]);
      XminNeverDecreases(db, steps[0]);
      InvRun(Apply(db, steps[0]), steps[1..]);
    }
  }

  lemma {:induction false} HorizonNeverFalls(db: Db, steps: seq<Step>, g: string)
    requires Runs(db, steps) && g in db.horizon
    ensures g in Exec(db, steps).horizon && db.horizon[g] <= Exec(db, steps).horizon[g]
    decreases |steps|
  {
    if steps != [] {
      if steps[0].Compact? { RaiseAllCovers(db.horizon, db.table, steps[0].victims); }
      HorizonNeverFalls(Apply(db, steps[0]), steps[1..], g);
    }
  }

  /** However a run goes on, the horizon stays at or above the stamp of every tombstone ever compacted. */
  lemma HorizonCoversCompacted(db: Db, victims: seq<Key>, rest: seq<Step>, k: Key)
    requires Enabled(db, Compact(victims)) && k in victims
    requires Runs(Apply(db, Compact(victims)), rest)
    ensures var h := Exec(Apply(db, Compact(victims)), rest).horizon;
      k.gvk in h && db.table[k].stamp <= h[k.gvk]
  {
    RaiseAllCovers(db.horizon, db.table, victims);
    HorizonNeverFalls(Apply(db, Compact(victims)), rest, k.gvk);
  }

  lemma RunCons(db: Db, s: Step, rest: seq<Step>)
    requires Enabled(db, s) && Runs(Apply(db, s), rest)
    ensures Runs(db, [s] + rest) && Exec(db, [s] + rest) == Exec(Apply(db, s), rest)
  {
    assert ([s] + rest)[1..] == rest;
  }

  lemma FreshUid(used: set<nat>) returns (uid: nat)
    ensures forall u :: u in used ==> u < uid
  {
    if used == {} {
      uid := 0;
    } else {
      var u :| u in used;
      var rest := FreshUid(used - {u});
      uid := if u < rest then rest else u + 1;
      assert forall v :: v in used ==> v == u || v in used - {u};
    }
  }

  /** A step leaves an object that is no tombstone in place, as the same incarnation. */
  lemma StepKeepsIncarnation(db: Db, s: Step, k: Key)
    requires Enabled(db, s) && k in db.table && PhaseOf(db.table[k]) != Tombstone
    ensures k in Apply(db, s).table && Apply(db, s).table[k].uid == db.table[k].uid
  {
    FiltersAgreeExactly(db.table[k]);
    if s.Commit? { UpsertOutcomes(db.table, s.key, s.write, s.xid, s.uid); }
  }

  /** In some state of the run incarnation u of k is a tombstone. */
  ghost predicate EverTombstone(db: Db, steps: seq<Step>, k: Key, u: nat)
    requires Runs(db, steps)
    decreases |steps|
  {
    || (k in db.table && db.table[k].uid == u && PhaseOf(db.table[k]) == Tombstone)
    || (steps != [] && EverTombstone(Apply(db, steps[0]), steps[1..], k, u))
  }

  /**
   * No create, revival, compaction or other client's write ends an object: in every run
   * an incarnation that is no longer under its key has been a tombstone before.
   */
  lemma {:induction false} IncarnationsEndAsTombstones(db: Db, steps: seq<Step>, k: Key)
    requires Runs(db, steps) && k in db.table
    ensures var u, table := db.table[k].uid, Exec(db, steps).table;
      (k in table && table[k].uid == u) || EverTombstone(db, steps, k, u)
    decreases |steps|
  {
    if steps != [] && PhaseOf(db.table[k]) != Tombstone {
      StepKeepsIncarnation(db, steps[0], k);
      IncarnationsEndAsTombstones(Apply(db, steps[0]), steps[1..], k);
    }
  }

  /** The write that made row k what it is, after one that made it what it was. */
  function LastWrite(steps: seq<Step>, k: Key, before: Option<Write>): Option<Write>
    decreases |steps|
  {
    if steps == [] then before
    else
      var s := steps[0];
      LastWrite(steps[1..], k,
                if s.Commit? && s.key == k then Some(s.write) else if s.Compact? && k in s.victims then None else before)
  }

  /** A row has version 1 exactly if it was created and not written since. */
  lemma {:induction false} FirstVersionIsCreated(db: Db, steps: seq<Step>, k: Key, before: Option<Write>)
    requires Inv(db) && Runs(db, steps)
    requires k in db.table <==> before.Some?
    requires k in db.table ==> (db.table[k].version == 1 <==> before.value.Create?)
    ensures var table, last := Exec(db, steps).table, LastWrite(steps, k, before);
      && (k in table <==> last.Some?)
      && (k in table ==> (table[k].version == 1 <==> last.value.Create?))
    decreases |steps|
  {
    if steps != [] {
      var s := steps[0];
      InvStep(db, s);
      if s.Commit? && s.key == k {
        UpsertOutcomes(db.table, k, s.write, s.xid, s.uid);
        if k in db.table { assert RowOk(db, db.table[k]); }
      }
      FirstVersionIsCreated(Apply(db, s), steps[1..], k,
        if s.Commit? && s.key == k then Some(s.write) else if s.Compact? && k in s.victims then None else before);
    }
  }

  ghost predicate Reachable(db: Db) {
    exists steps :: Runs(Initial(), steps) && Exec(Initial(), steps) == db
  }

  /** s changes row k, or removes it. */
  predicate Writes(s: Step, k: Key) {
    (s.Commit? && s.key == k) || (s.Compact? && k in s.victims)
  }

  ghost predicate Untouched(steps: seq<Step>, from: nat, k: Key) {
    forall j :: from <= j < |steps| ==> !Writes(steps[j], k)
  }

  /** Step i commits transaction xid to row k, and no later step touches the row. */
  ghost predicate LastCommit(steps: seq<Step>, i: int, k: Key, xid: nat) {
    0 <= i < |steps| && steps[i].Commit? && steps[i].xid == xid && steps[i].key == k && Untouched(steps, i + 1, k)
  }

  lemma TailUntouched(steps: seq<Step>, i: nat, k: Key)
    requires steps != []
    ensures Untouched(steps, i + 1, k) <==> Untouched(steps[1..], i, k)
  {
    if Untouched(steps, i + 1, k) {
      forall j | i <= j < |steps[1..]| ensures !Writes(steps[1..][j], k) {
        assert !Writes(steps[j + 1], k);
      }
    }
    if Untouched(steps[1..], i, k) {
      forall j | i + 1 <= j < |steps| ensures !Writes(steps[j], k) {
        assert !Writes(steps[1..][j - 1], k);
      }
    }
  }

  lemma TailLastCommit(steps: seq<Step>, k: Key, xid: nat)
    requires steps != []
    ensures (exists i :: LastCommit(steps, i, k, xid)) <==>
      LastCommit(steps, 0, k, xid) || exists i :: LastCommit(steps[1..], i, k, xid)
  {
    forall i: nat ensures LastCommit(steps, i + 1, k, xid) <==> LastCommit(steps[1..], i, k, xid) {
      TailUntouched(steps, i + 1, k);
    }
    if i :| LastCommit(steps, i, k, xid) {
      assert i > 0 ==> LastCommit(steps[1..], i - 1, k, xid);
    }
    if i :| LastCommit(steps[1..], i, k, xid) {
      assert LastCommit(steps, i + 1, k, xid);
    }
  }

  /** A row carries a stamp exactly if that transaction was the last to touch it. */
  lemma {:induction false} StampTells(db: Db, steps: seq<Step>, k: Key, xid: nat)
    requires Runs(db, steps)
    ensures var table := Exec(db, steps).table;
      (k in table && table[k].stamp == xid) <==>
        || (k in db.table && db.table[k].stamp == xid && Untouched(steps, 0, k))
        || exists i :: LastCommit(steps, i, k, xid)
    decreases |steps|
  {
    if steps != [] {
      var after := Apply(db, steps[0]);
      StampTells(after, steps[1..], k, xid);
      TailLastCommit(steps, k, xid);
      TailUntouched(steps, 0, k);
      assert Untouched(steps, 0, k) <==> !Writes(steps[0], k) && Untouched(steps, 1, k);
      StampStep(db, steps[0], k, xid);
    }
  }

  lemma StampStep(db: Db, s: Step, k: Key, xid: nat)
    requires Enabled(db, s)
    ensures (k in Apply(db, s).table && Apply(db, s).table[k].stamp == xid) <==>
      if Writes(s, k) then s.Commit? && s.xid == xid else k in db.table && db.table[k].stamp == xid
  {
  }
}
