/**
 * Optimistic concurrency: object versions restart at 1 with every incarnation of
 * a name, and uids tell incarnations apart.
 */
module Versions {
  import opened Wrappers
  import opened Sql
  import opened Lifecycle
  import opened Protocol

  /** Incarnation u of k has reached version v or is over; both last for ever. */
  predicate Passed(db: Db, k: Key, u: nat, v: int) {
    u in db.used && (k in db.table && db.table[k].uid == u ==> db.table[k].version >= v)
  }

  /** r was row k at some time: it still is, or its incarnation went past it. */
  predicate Since(db: Db, k: Key, r: Row) {
    (k in db.table && db.table[k] == r && r.uid in db.used) || Passed(db, k, r.uid, r.version + 1)
  }

  /** Transaction x is over. */
  predicate Over(db: Db, x: nat) { x < db.next && x !in db.active }

  lemma {:induction false} PassedRun(db: Db, steps: seq<Step>, k: Key, u: nat, v: int)
    requires Runs(db, steps) && Passed(db, k, u, v)
    ensures Passed(Exec(db, steps), k, u, v)
    decreases |steps|
  {
    if steps != [] { PassedRun(Apply(db, steps[0]), steps[1..], k, u, v); }
  }

  lemma SinceStep(db: Db, s: Step, k: Key, r: Row)
    requires Enabled(db, s) && Since(db, k, r)
    ensures Since(Apply(db, s), k, r)
  {
  }

  lemma {:induction false} SinceRun(db: Db, steps: seq<Step>, k: Key, r: Row)
    requires Runs(db, steps) && Since(db, k, r)
    ensures Since(Exec(db, steps), k, r)
    decreases |steps|
  {
    if steps != [] {
      SinceStep(db, steps[0], k, r);
      SinceRun(Apply(db, steps[0]), steps[1..], k, r);
    }
  }

  lemma {:induction false} OverRun(db: Db, steps: seq<Step>, x: nat)
    requires Runs(db, steps) && Over(db, x)
    ensures Over(Exec(db, steps), x)
    decreases |steps|
  {
    if steps != [] { OverRun(Apply(db, steps[0]), steps[1..], x); }
  }

  /** Two commits of one run, with anything between them. */
  ghost predicate TwoCommits(db: Db, first: Step, between: seq<Step>, second: Step) {
    && Inv(db) && first.Commit? && second.Commit?
    && Enabled(db, first) && Runs(Apply(db, first), between)
    && Enabled(Exec(Apply(db, first), between), second)
  }

  /** No two commits share a stamp, and no (uid, version) pair is ever produced twice for a key. */
  lemma NothingIsProducedTwice(db: Db, first: Step, between: seq<Step>, second: Step)
    requires TwoCommits(db, first, between, second)
    ensures first.xid != second.xid
    ensures first.key == second.key ==>
      var a := Apply(db, first).table[first.key];
      var b := Apply(Exec(Apply(db, first), between), second).table[first.key];
      a.uid != b.uid || a.version < b.version
  {
    var after := Apply(db, first);
    OverRun(after, between, first.xid);
    if first.key == second.key {
      var a := after.table[first.key];
      if first.key in db.table { assert RowOk(db, db.table[first.key]); }
      PassedRun(after, between, first.key, a.uid, a.version);
    }
  }

  /**
   * A client reads row k and later presents its version and uid: the CAS matches
   * exactly when the row is still the row that was read.
   */
  lemma CasMatchesOnlyTheRowRead(db: Db, k: Key, steps: seq<Step>)
    requires Inv(db) && k in db.table && Runs(db, steps)
    ensures var r, table := db.table[k], Exec(db, steps).table;
      CasMatches(table, k, r.version, Some(r.uid)) <==> k in table && table[k] == r
  {
    assert RowOk(db, db.table[k]);
    SinceRun(db, steps, k, db.table[k]);
  }

  /** A database with one object, committed by transaction 1 while 2 and 3 are open. */
  function OneObject(k: Key, m: Metadata): Db {
    Db(4, {2, 3}, map[k := Row(0, 1, 1, "", "", m, None)], map[], {0})
  }

  lemma OneObjectIsReachable(k: Key, m: Metadata)
    requires Regular(m)
    ensures Reachable(OneObject(k, m)) && Inv(OneObject(k, m))
  {
    var create := Commit(1, k, Create("", Some(""), m, None), 0);
    var d1 := Apply(Initial(), Acquire);
    var d2 := Apply(d1, Acquire);
    var d3 := Apply(d2, Acquire);
    assert Apply(d3, create) == OneObject(k, m);
    RunCons(d3, create, []);
    RunCons(d2, Acquire, [create] + []);
    RunCons(d1, Acquire, [Acquire] + ([create] + []));
    RunCons(Initial(), Acquire, [Acquire] + ([Acquire] + ([create] + [])));
    InvRun(Initial(), [Acquire] + ([Acquire] + ([Acquire] + ([create] + []))));
  }

  /** Without the uid the CAS can hit a later incarnation of the same name. */
  lemma VersionAloneIsNotEnough() returns (db: Db, k: Key, steps: seq<Step>)
    ensures Reachable(db) && k in db.table && Runs(db, steps)
    ensures var r, table := db.table[k], Exec(db, steps).table;
      CasMatches(table, k, r.version, None) && table[k].uid != r.uid
  {
    k := Key("g", "n", "a");
    var m := Extracted(None, [], "");
    db := OneObject(k, m);
    OneObjectIsReachable(k, m);
    var delete := Commit(2, k, Replace(1, Some(0), "", Some(""), m, Some(0)), 1);
    var revive := Commit(3, k, Create("", Some(""), m, None), 2);
    RunCons(Apply(db, delete), revive, []);
    RunCons(db, delete, [revive] + []);
    steps := [delete] + ([revive] + []);
  }

  // ---- Ambiguous commits ----

  /**
   * Read-back of a transaction that did commit: found exactly as long as its row
   * is untouched.
   */
  lemma ReadBackOfCommitted(db: Db, s: Step, later: seq<Step>)
    requires Inv(db) && s.Commit? && Enabled(db, s) && Runs(Apply(db, s), later)
    ensures var row, table := Apply(db, s).table[s.key], Exec(Apply(db, s), later).table;
      (s.key in table && table[s.key].stamp == s.xid) <==> (s.key in table && table[s.key] == row)
  {
    InvStep(db, s);
    StampRun(Apply(db, s), later, s.key, s.xid, Some(Apply(db, s).table[s.key]));
  }

  /** Read-back of a transaction that did not commit never finds a row. */
  lemma ReadBackOfAborted(db: Db, xid: nat, later: seq<Step>, k: Key)
    requires Inv(db) && xid in db.active && Runs(Apply(db, Finish(xid)), later)
    ensures var table := Exec(Apply(db, Finish(xid)), later).table;
      !(k in table && table[k].stamp == xid)
  {
    if k in db.table { assert RowOk(db, db.table[k]); }
    StampRun(Apply(db, Finish(xid)), later, k, xid, None);
  }

  /** A row stamped by a finished transaction is the row it left behind, if it left one. */
  lemma {:induction false} StampRun(db: Db, steps: seq<Step>, k: Key, x: nat, left: Option<Row>)
    requires Runs(db, steps) && Over(db, x)
    requires k in db.table && db.table[k].stamp == x ==> left == Some(db.table[k])
    ensures var table := Exec(db, steps).table;
      k in table && table[k].stamp == x ==> left == Some(table[k])
    decreases |steps|
  {
    if steps != [] { StampRun(Apply(db, steps[0]), steps[1..], k, x, left); }
  }

  /** The stored-procedure path reports ambiguous commits with id 0: read-back then never finds the row. */
  lemma ReadBackOfZero(steps: seq<Step>, k: Key)
    requires Runs(Initial(), steps)
    ensures var table := Exec(Initial(), steps).table;
      !(k in table && table[k].stamp == 0)
  {
    InvRun(Initial(), steps);
    var db := Exec(Initial(), steps);
    if k in db.table { assert RowOk(db, db.table[k]); }
  }

  // ---- The client's Update: a read of the current row, then a CAS ----

  /** An Update under way: the row the client had read, and the row Update itself read. */
  datatype Window = Window(key: Key, read: Row, current: Row)

  /** seen holds the rows whose version and uid some client knows, from a read or from the response to a write. */
  datatype World = World(db: Db, seen: set<(Key, Row)>, windows: set<Window>)

  datatype ClientStep =
    | Server(step: Step)                       // Acquire, Finish, Compact
    | Read(key: Key)                           // Get, List or a watch event
    | OpenUpdate(key: Key, read: Row)          // readCurrentResource inside Update
    | CommitUpdate(xid: nat, window: Window, spec: string, metadata: Metadata, uid: nat)
    | CommitDelete(xid: nat, key: Key, expected: int, expectedUid: nat, spec: string, status: string,
                   metadata: Metadata, at: int, uid: nat)
    | CommitStatus(xid: nat, key: Key, expected: int, expectedUid: nat, status: string, uid: nat)
    | CommitCreate(xid: nat, key: Key, spec: string, status: string, metadata: Metadata, uid: nat)

  /** The database step of a client step; reads have none. */
  function DbStepOf(s: ClientStep): Option<Step> {
    match s
    case Server(step) => Some(step)
    case Read(_) => None
    case OpenUpdate(_, _) => None
    case CommitUpdate(xid, win, spec, metadata, uid) =>
      Some(Commit(xid, win.key, ObjectOnly(win.read.version, Some(win.read.uid), spec, metadata, win.current.deletion), uid))
    case CommitDelete(xid, key, expected, expectedUid, spec, status, metadata, at, uid) =>
      Some(Commit(xid, key, Replace(expected, Some(expectedUid), spec, Some(status), metadata, Some(at)), uid))
    case CommitStatus(xid, key, expected, expectedUid, status, uid) =>
      Some(Commit(xid, key, StatusOnly(expected, Some(expectedUid), status), uid))
    case CommitCreate(xid, key, spec, status, metadata, uid) =>
      Some(Commit(xid, key, Create(spec, Some(status), metadata, None), uid))
  }

  predicate ClientEnabled(world: World, s: ClientStep) {
    && (DbStepOf(s).Some? ==> Enabled(world.db, DbStepOf(s).value))
    && (s.Server? ==> !s.step.Commit?)
    && (s.Read? ==> s.key in world.db.table)
    && (s.OpenUpdate? ==>
          && (s.key, s.read) in world.seen && s.key in world.db.table
          && CurrentFilter(world.db.table[s.key]) == True
          && world.db.table[s.key].uid == s.read.uid)
    && (s.CommitUpdate? ==> s.window in world.windows)
  }

  function ClientApply(world: World, s: ClientStep): World
    requires ClientEnabled(world, s)
  {
    if s.Read? then world.(seen := world.seen + {(s.key, world.db.table[s.key])})
    else if s.OpenUpdate? then world.(windows := world.windows + {Window(s.key, s.read, world.db.table[s.key])})
    else
      var step := DbStepOf(s).value;
      var after := Apply(world.db, step);
      world.(db := after, seen := if step.Commit? then world.seen + {(step.key, after.table[step.key])} else world.seen)
  }

  predicate WindowOk(db: Db, win: Window) {
    && Since(db, win.key, win.read) && PhaseOf(win.current) != Tombstone
    && (win.current == win.read || Passed(db, win.key, win.read.uid, win.read.version + 1))
  }

  ghost predicate WorldInv(world: World) {
    && Inv(world.db)
    && (forall p :: p in world.seen ==> Since(world.db, p.0, p.1))
    && (forall win :: win in world.windows ==> WindowOk(world.db, win))
  }

  lemma WorldStep(world: World, s: ClientStep)
    requires WorldInv(world) && ClientEnabled(world, s)
    ensures WorldInv(ClientApply(world, s))
  {
    var world' := ClientApply(world, s);
    if DbStepOf(s).Some? {
      var step := DbStepOf(s).value;
      InvStep(world.db, step);
      forall p | p in world'.seen ensures Since(world'.db, p.0, p.1) {
        if p in world.seen { SinceStep(world.db, step, p.0, p.1); }
        if step.Commit? { assert RowOk(world'.db, world'.db.table[step.key]); }
      }
      forall win | win in world'.windows ensures WindowOk(world'.db, win) {
        SinceStep(world.db, step, win.key, win.read);
        assert WindowOk(world.db, win);
      }
    } else {
      assert RowOk(world.db, world.db.table[s.key]);
      if s.OpenUpdate? {
        assert Since(world.db, s.key, s.read);
        FiltersAgreeExactly(world.db.table[s.key]);
      }
    }
  }

  /** A CAS of Update that succeeds finds the row of its window. */
  lemma MatchedWindowIsCurrent(world: World, s: ClientStep)
    requires WorldInv(world) && s.CommitUpdate? && ClientEnabled(world, s)
    ensures var k := s.window.key;
      && k in world.db.table
      && world.db.table[k] == s.window.read == s.window.current
      && ClientApply(world, s).db.table[k].deletion == world.db.table[k].deletion
      && ClientApply(world, s).db.table[k].uid == world.db.table[k].uid
  {
    assert WindowOk(world.db, s.window);
  }

  predicate ClientRuns(world: World, steps: seq<ClientStep>)
    decreases |steps|
  {
    steps == [] || (ClientEnabled(world, steps[0]) && ClientRuns(ClientApply(world, steps[0]), steps[1..]))
  }

  function ClientExec(world: World, steps: seq<ClientStep>): World
    requires ClientRuns(world, steps)
    decreases |steps|
  {
    if steps == [] then world else ClientExec(ClientApply(world, steps[0]), steps[1..])
  }

  /** Incarnation u of k is deleted: every row it still has carries a deletion timestamp. */
  predicate Doomed(db: Db, k: Key, u: nat) {
    u in db.used && (k in db.table && db.table[k].uid == u ==> db.table[k].deletion.Some?)
  }

  lemma DoomedStep(world: World, s: ClientStep, k: Key, u: nat)
    requires WorldInv(world) && ClientEnabled(world, s) && Doomed(world.db, k, u)
    ensures Doomed(ClientApply(world, s).db, k, u)
  {
    if s.CommitUpdate? { MatchedWindowIsCurrent(world, s); }
  }

  lemma {:induction false} DoomedRun(world: World, steps: seq<ClientStep>, k: Key, u: nat)
    requires WorldInv(world) && ClientRuns(world, steps) && Doomed(world.db, k, u)
    ensures Doomed(ClientExec(world, steps).db, k, u)
    decreases |steps|
  {
    if steps != [] {
      WorldStep(world, steps[0]);
      DoomedStep(world, steps[0], k, u);
      DoomedRun(ClientApply(world, steps[0]), steps[1..], k, u);
    }
  }

  /** The empty database, before any client has done anything. */
  function NewWorld(): World { World(Initial(), {}, {}) }

  lemma {:induction false} WorldRun(world: World, steps: seq<ClientStep>)
    requires WorldInv(world) && ClientRuns(world, steps)
    ensures WorldInv(ClientExec(world, steps))
    decreases |steps|
  {
    if steps != [] {
      WorldStep(world, steps[0]);
      WorldRun(ClientApply(world, steps[0]), steps[1..]);
    }
  }

  /**
   * Update's window is closed by its CAS.  In every run of any number of clients, when
   * the CAS succeeds, the row it overwrites is the row the client knew and the row
   * Update read on the way, and no tombstone; the new row has the client's spec and
   * metadata and keeps status, deletion timestamp and uid.
   */
  lemma UpdateOverwritesWhatWasRead(steps: seq<ClientStep>, s: ClientStep)
    requires ClientRuns(NewWorld(), steps) && s.CommitUpdate? && ClientEnabled(ClientExec(NewWorld(), steps), s)
    ensures var world, k := ClientExec(NewWorld(), steps), s.window.key;
      && k in world.db.table && PhaseOf(world.db.table[k]) != Tombstone
      && world.db.table[k] == s.window.read == s.window.current
      && ClientApply(world, s).db.table[k] ==
           world.db.table[k].(stamp := s.xid, version := s.window.read.version + 1, spec := s.spec, metadata := s.metadata)
  {
    var world := ClientExec(NewWorld(), steps);
    WorldRun(NewWorld(), steps);
    MatchedWindowIsCurrent(world, s);
    assert WindowOk(world.db, s.window);
    UpsertOutcomes(world.db.table, s.window.key, DbStepOf(s).value.write, s.xid, s.uid);
  }

  /** The other writes of a client, each on the row its version and uid name. */
  lemma ClientWritesStore(world: World, s: ClientStep)
    requires ClientEnabled(world, s) && (s.CommitDelete? || s.CommitStatus? || s.CommitCreate?)
    ensures var before, after := world.db.table, ClientApply(world, s).db.table;
      && s.key in after && after[s.key].stamp == s.xid
      && (forall k :: k != s.key ==> (k in after <==> k in before) && (k in before ==> after[k] == before[k]))
      && (!s.CommitCreate? ==> s.key in before && before[s.key].uid == s.expectedUid && before[s.key].version == s.expected)
      && (s.CommitStatus? ==> after[s.key] == before[s.key].(stamp := s.xid, version := s.expected + 1, status := s.status))
      && (s.CommitDelete? ==>
            after[s.key] == Row(s.expectedUid, s.xid, s.expected + 1, s.spec, s.status, s.metadata, Some(s.at)))
      && (s.CommitCreate? ==>
            && after[s.key] == Row(s.uid, s.xid, 1, s.spec, s.status, s.metadata, None)
            && (s.key in before ==> PhaseOf(before[s.key]) == Tombstone))
  {
    UpsertOutcomes(world.db.table, s.key, DbStepOf(s).value.write, s.xid, s.uid);
  }

  /**
   * Deletion is for ever: once an incarnation carries a deletion timestamp, every
   * later row of the same uid does, through updates, status updates, repeated
   * deletes, revival and compaction, in every run of any number of clients.
   */
  lemma DeletionIsForEver(steps: seq<ClientStep>, later: seq<ClientStep>, k: Key, u: nat)
    requires ClientRuns(NewWorld(), steps) && ClientRuns(ClientExec(NewWorld(), steps), later)
    requires Doomed(ClientExec(NewWorld(), steps).db, k, u)
    ensures Doomed(ClientExec(ClientExec(NewWorld(), steps), later).db, k, u)
  {
    WorldRun(NewWorld(), steps);
    DoomedRun(ClientExec(NewWorld(), steps), later, k, u);
  }

  // ---- Versions that were not read ----

  lemma {:induction false} ClientSince(world: World, steps: seq<ClientStep>, k: Key, r: Row)
    requires ClientRuns(world, steps) && Since(world.db, k, r)
    ensures Since(ClientExec(world, steps).db, k, r)
    decreases |steps|
  {
    if steps != [] {
      if DbStepOf(steps[0]).Some? { SinceStep(world.db, DbStepOf(steps[0]).value, k, r); }
      ClientSince(ClientApply(world, steps[0]), steps[1..], k, r);
    }
  }

  lemma ClientRunCons(world: World, s: ClientStep, steps: seq<ClientStep>)
    requires ClientEnabled(world, s) && ClientRuns(ClientApply(world, s), steps)
    ensures ClientRuns(world, [s] + steps) && ClientExec(world, [s] + steps) == ClientExec(ClientApply(world, s), steps)
  {
    assert ([s] + steps)[1..] == steps;
  }

  /** Status updates that bring row k to version v. */
  lemma {:induction false} ReachVersion(world: World, k: Key, v: int) returns (steps: seq<ClientStep>)
    requires k in world.db.table && 0 < world.db.table[k].version <= v
    ensures ClientRuns(world, steps)
    ensures var r, table := world.db.table[k], ClientExec(world, steps).db.table;
      k in table && table[k].uid == r.uid && table[k].version == v && table[k].deletion == r.deletion
    decreases v - world.db.table[k].version
  {
    steps := [];
    var r := world.db.table[k];
    if r.version < v {
      var uid := FreshUid(world.db.used);
      var open := ClientApply(world, Server(Acquire));
      var update := CommitStatus(world.db.next, k, r.version, r.uid, r.status, uid);
      assert ClientEnabled(open, update);
      var rest := ReachVersion(ClientApply(open, update), k, v);
      ClientRunCons(open, update, rest);
      ClientRunCons(world, Server(Acquire), [update] + rest);
      steps := [Server(Acquire)] + ([update] + rest);
    }
  }

  /** A delete of row k, then status updates up to version v. */
  lemma DeleteAndReach(world: World, k: Key, v: int) returns (steps: seq<ClientStep>)
    requires Inv(world.db) && k in world.db.table && world.db.table[k].version < v
    ensures ClientRuns(world, steps)
    ensures var r, table := world.db.table[k], ClientExec(world, steps).db.table;
      k in table && table[k].uid == r.uid && table[k].version == v && table[k].deletion.Some? && table[k].deletion != r.deletion
  {
    var r := world.db.table[k];
    assert RowOk(world.db, r);
    var uid := FreshUid(world.db.used);
    var at := if r.deletion.Some? then r.deletion.value + 1 else 0;
    var open := ClientApply(world, Server(Acquire));
    var delete := CommitDelete(world.db.next, k, r.version, r.uid, r.spec, r.status, r.metadata, at, uid);
    assert ClientEnabled(open, delete);
    var rest := ReachVersion(ClientApply(open, delete), k, v);
    ClientRunCons(open, delete, rest);
    ClientRunCons(world, Server(Acquire), [delete] + rest);
    steps := [Server(Acquire)] + ([delete] + rest);
  }

  /**
   * Update has just read row k and will present version v: whenever its CAS matches,
   * now or after anything other clients do, the deletion timestamp it read is still
   * the one it overwrites.
   */
  ghost predicate WritesBackWhatItOverwrites(world: World, k: Key, v: int)
    requires k in world.db.table
  {
    forall steps :: ClientRuns(world, steps) ==>
      var r, table := world.db.table[k], ClientExec(world, steps).db.table;
      CasMatches(table, k, v, Some(r.uid)) ==> table[k].deletion == r.deletion
  }

  /**
   * Update keeps the deletion timestamp exactly if the version it was given is not
   * above the version of the row it reads, whether or not that version was ever read.
   */
  lemma GuessIsSafeExactly(world: World, k: Key, v: int)
    requires Inv(world.db) && k in world.db.table
    ensures WritesBackWhatItOverwrites(world, k, v) <==> v <= world.db.table[k].version
  {
    var r := world.db.table[k];
    assert RowOk(world.db, r);
    if v <= r.version {
      forall steps | ClientRuns(world, steps)
        ensures var table := ClientExec(world, steps).db.table;
          CasMatches(table, k, v, Some(r.uid)) ==> table[k].deletion == r.deletion
      {
        ClientSince(world, steps, k, r);
      }
    } else {
      var steps := DeleteAndReach(world, k, v);
      assert CasMatches(ClientExec(world, steps).db.table, k, v, Some(r.uid));
    }
  }

  /**
   * With a larger version an object can come back to life: Update reads a live row, a
   * delete commits the version that was guessed, and Update writes the live row's empty
   * deletion timestamp back.
   */
  lemma GuessedVersionCanUndelete() returns (db: Db, k: Key, delete: Step, update: Step)
    ensures Reachable(db) && k in db.table && db.table[k].deletion.None?
    ensures Enabled(db, delete) && Apply(db, delete).table[k].deletion.Some?
    ensures update.Commit? && update.write.ObjectOnly? && update.write.expected == db.table[k].version + 1
    ensures update.write.deletion == db.table[k].deletion && update.write.expectedUid == Some(db.table[k].uid)
    ensures Enabled(Apply(db, delete), update)
    ensures var after := Apply(Apply(db, delete), update).table[k];
      after.uid == db.table[k].uid && after.deletion.None?
  {
    k := Key("g", "n", "a");
    var m := Extracted(None, ["f"], "");
    db := OneObject(k, m);
    OneObjectIsReachable(k, m);
    delete := Commit(2, k, Replace(1, Some(0), "", Some(""), m, Some(0)), 1);
    update := Commit(3, k, ObjectOnly(2, Some(0), "", m, None), 2);
  }
}
