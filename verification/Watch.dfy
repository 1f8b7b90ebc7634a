/**
 * List, the watcher's poll, the relay to the informer and the informer's folded
 * view, over the transition system of Protocol.
 */
module Watch {
  import opened Wrappers
  import opened Sql
  import opened Lifecycle
  import opened Protocol

  /** What a list or a watch covers: one GVK and the namespaces this replica owns. */
  datatype Scope = Scope(gvk: string, owns: string -> bool)

  predicate InScope(sc: Scope, k: Key) {
    k.gvk == sc.gvk && sc.owns(k.namespace)
  }

  /** The rows a List returns on a snapshot. */
  function Listed(table: map<Key, Row>, sc: Scope): map<Key, Row> {
    map k | k in table && InScope(sc, k) && ListFilter(table[k]) == True :: table[k]
  }

  /** A watcher's high-water mark and the informer store its events are folded into. */
  datatype Watcher = Watcher(scope: Scope, hwm: nat, view: map<Key, Row>)

  /** The poll's horizon check: 410 Gone. */
  predicate Gone(db: Db, w: Watcher) {
    w.scope.gvk in db.horizon && w.hwm < db.horizon[w.scope.gvk]
  }

  /** The rows a poll selects: txid_stamp > hwm. */
  predicate Selected(db: Db, w: Watcher, k: Key) {
    k in db.table && InScope(w.scope, k) && db.table[k].stamp > w.hwm
  }

  /** The informer store after all events of a poll were folded in. */
  function PollView(db: Db, w: Watcher): map<Key, Row> {
    map k | k in w.view.Keys + db.table.Keys &&
            (if Selected(db, w, k) then !IsFullyDeleted(db.table[k]) else k in w.view) ::
      if Selected(db, w, k) then db.table[k] else w.view[k]
  }

  ghost function PollHwm(db: Db, w: Watcher): nat {
    if Xmin(db) > 0 && Xmin(db) - 1 > w.hwm then Xmin(db) - 1 else w.hwm
  }

  ghost function Polled(db: Db, w: Watcher): Watcher {
    Watcher(w.scope, PollHwm(db, w), PollView(db, w))
  }

  /** List: the snapshot's rows with the watermark xmin - 1. */
  ghost function ListAndWatch(db: Db, sc: Scope): Watcher {
    Watcher(sc, if Xmin(db) > 0 then Xmin(db) - 1 else 0, Listed(db.table, sc))
  }

  // ---- What a watcher knows ----

  /** The view is right about k, unless a poll would select k or refuse. */
  predicate AgreesOn(db: Db, w: Watcher, k: Key) {
    if k !in db.table then k in w.view ==> Gone(db, w)
    else db.table[k].stamp <= w.hwm ==>
      (k in w.view <==> ListFilter(db.table[k]) == True) && (k in w.view ==> w.view[k] == db.table[k])
  }

  ghost predicate Agrees(db: Db, w: Watcher) {
    && (forall k :: k in w.view ==> InScope(w.scope, k))
    && (forall k :: InScope(w.scope, k) ==> AgreesOn(db, w, k))
  }

  ghost predicate Tracks(db: Db, w: Watcher) {
    w.hwm < Xmin(db) && Agrees(db, w)
  }

  lemma RowsAreRegular(db: Db, k: Key)
    requires Inv(db) && k in db.table
    ensures OneLine(db.table[k])
  {
    assert RowOk(db, db.table[k]);
    FiltersAgreeExactly(db.table[k]);
  }

  /** A poll that is not refused brings the view to exactly what List returns on the same snapshot. */
  lemma PollEqualsList(db: Db, w: Watcher)
    requires Inv(db) && Agrees(db, w) && !Gone(db, w)
    ensures PollView(db, w) == Listed(db.table, w.scope)
  {
    forall k
      ensures k in PollView(db, w) <==> k in Listed(db.table, w.scope)
      ensures k in PollView(db, w) ==> PollView(db, w)[k] == Listed(db.table, w.scope)[k]
    {
      if k in db.table {
        RowsAreRegular(db, k);
      }
      assert InScope(w.scope, k) ==> AgreesOn(db, w, k);
    }
  }

  /** Conversely a view that a poll makes right was right about every row the poll did not select. */
  lemma ListEqualsPollOnlyIfAgrees(db: Db, w: Watcher)
    requires Inv(db) && !Gone(db, w)
    requires PollView(db, w) == Listed(db.table, w.scope)
    ensures Agrees(db, w)
  {
    var v, l := PollView(db, w), Listed(db.table, w.scope);
    forall k
      ensures k in w.view ==> InScope(w.scope, k)
      ensures InScope(w.scope, k) ==> AgreesOn(db, w, k)
    {
      assert k in v <==> k in l;
      if !Selected(db, w, k) {
        assert k in v <==> k in w.view;
        if k in v { assert v[k] == l[k]; }
      }
    }
  }

  /**
   * The event type of a relayed row says what happened: Deleted for tombstones, Added
   * for an object whose last write created it, Modified for every other.
   */
  lemma EventTypesTell(steps: seq<Step>, k: Key)
    requires Runs(Initial(), steps) && k in Exec(Initial(), steps).table
    ensures var r, last := Exec(Initial(), steps).table[k], LastWrite(steps, k, None);
      && last.Some?
      && RelayEvent(r) ==
           if PhaseOf(r) == Tombstone then Deleted
           else if PhaseOf(r) == Live && last.value.Create? then Added
           else Modified
  {
    InvRun(Initial(), steps);
    FirstVersionIsCreated(Initial(), steps, k, None);
    RowsAreRegular(Exec(Initial(), steps), k);
    FiltersAgreeExactly(Exec(Initial(), steps).table[k]);
  }

  lemma TrackStep(db: Db, w: Watcher, s: Step)
    requires Inv(db) && Tracks(db, w) && Enabled(db, s)
    ensures Tracks(Apply(db, s), w)
  {
    var db' := Apply(db, s);
    XminNeverDecreases(db, s);
    if s.Compact? { RaiseAllCovers(db.horizon, db.table, s.victims); }
    forall k | InScope(w.scope, k)
      ensures AgreesOn(db', w, k)
    {
      assert AgreesOn(db, w, k);
      match s
      case Acquire =>
      case Finish(_) =>
      case Commit(xid, key, _, _) =>
        assert Xmin(db) <= xid;
      case Compact(victims) =>
        if k in victims { RowsAreRegular(db, k); }
    }
  }

  // ---- Runs of the database together with its watchers ----

  datatype System = System(db: Db, watchers: map<nat, Watcher>)

  datatype SystemStep =
    | DbStep(step: Step)
    | List(id: nat, scope: Scope)    // relist: replaces the informer store
    | Start(id: nat, scope: Scope)   // watch without a resource version, from an empty store
    | Poll(id: nat)
    | Stop(id: nat)

  predicate SystemEnabled(sys: System, s: SystemStep) {
    match s
    case DbStep(step) => Enabled(sys.db, step)
    case List(_, _) => true
    case Start(_, _) => true
    case Poll(id) => id in sys.watchers
    case Stop(id) => true
  }

  ghost function SystemApply(sys: System, s: SystemStep): System
    requires SystemEnabled(sys, s)
  {
    match s
    case DbStep(step) => sys.(db := Apply(sys.db, step))
    case List(id, scope) => sys.(watchers := sys.watchers[id := ListAndWatch(sys.db, scope)])
    case Start(id, scope) => sys.(watchers := sys.watchers[id := Watcher(scope, 0, map[])])
    case Poll(id) =>
      if Gone(sys.db, sys.watchers[id]) then sys.(watchers := sys.watchers - {id})
      else sys.(watchers := sys.watchers[id := Polled(sys.db, sys.watchers[id])])
    case Stop(id) => sys.(watchers := sys.watchers - {id})
  }

  ghost predicate SystemRuns(sys: System, steps: seq<SystemStep>)
    decreases |steps|
  {
    steps == [] || (SystemEnabled(sys, steps[0]) && SystemRuns(SystemApply(sys, steps[0]), steps[1..]))
  }

  ghost function SystemExec(sys: System, steps: seq<SystemStep>): System
    requires SystemRuns(sys, steps)
    decreases |steps|
  {
    if steps == [] then sys else SystemExec(SystemApply(sys, steps[0]), steps[1..])
  }

  ghost predicate SystemInv(sys: System) {
    && Inv(sys.db)
    && forall id :: id in sys.watchers ==> Tracks(sys.db, sys.watchers[id])
  }

  lemma SystemStepKeeps(sys: System, s: SystemStep)
    requires SystemInv(sys) && SystemEnabled(sys, s)
    ensures SystemInv(SystemApply(sys, s))
  {
    match s
    case DbStep(step) =>
      InvStep(sys.db, step);
      forall id | id in sys.watchers
        ensures Tracks(Apply(sys.db, step), sys.watchers[id])
      {
        TrackStep(sys.db, sys.watchers[id], step);
      }
    case List(_, scope) =>
      ListTracks(sys.db, scope);
    case Start(_, scope) =>
      StartTracks(sys.db, scope);
    case Poll(id) =>
      if !Gone(sys.db, sys.watchers[id]) { PollTracks(sys.db, sys.watchers[id]); }
    case Stop(_) =>
  }

  lemma ListTracks(db: Db, sc: Scope)
    requires Inv(db)
    ensures Tracks(db, ListAndWatch(db, sc))
  {
  }

  /**
   * When a relist recovers: the poll after it is not refused again exactly when every
   * transaction up to the kind's horizon has finished.
   */
  lemma RelistRecoversExactly(db: Db, sc: Scope)
    requires Inv(db)
    ensures !Gone(db, ListAndWatch(db, sc)) <==>
      sc.gvk !in db.horizon || forall x :: x in db.active ==> x > db.horizon[sc.gvk]
  {
  }

  lemma CompactOne(db: Db, k: Key)
    requires k in db.table && TombstoneFilter(db.table[k]) == True && db.horizon == map[]
    ensures Enabled(db, Compact([k])) && Apply(db, Compact([k])).horizon == map[k.gvk := db.table[k].stamp]
  {
    assert [k][..0] == [];
    assert RaiseAll(db.horizon, db.table, []) == map[];
    assert RaiseAll(db.horizon, db.table, [k]) == Raise(map[], k.gvk, db.table[k].stamp);
  }

  /** Three open transactions, and the state once 2 has created an object, 3 has deleted it and it is compacted. */
  const THREE_OPEN := Db(4, {1, 2, 3}, map[], map[], {})
  const COMPACTED := Db(4, {1}, map[], map["g" := 3], {0, 1})

  lemma ReachThreeOpen(steps: seq<Step>)
    requires Runs(THREE_OPEN, steps)
    ensures Runs(Initial(), [Acquire] + ([Acquire] + ([Acquire] + steps)))
    ensures Exec(Initial(), [Acquire] + ([Acquire] + ([Acquire] + steps))) == Exec(THREE_OPEN, steps)
  {
    var d1 := Apply(Initial(), Acquire);
    var d2 := Apply(d1, Acquire);
    assert Apply(d2, Acquire) == THREE_OPEN;
    RunCons(d2, Acquire, steps);
    RunCons(d1, Acquire, [Acquire] + steps);
    RunCons(Initial(), Acquire, [Acquire] + ([Acquire] + steps));
  }

  lemma ReachCompacted() returns (steps: seq<Step>)
    ensures Runs(THREE_OPEN, steps) && Exec(THREE_OPEN, steps) == COMPACTED
  {
    var k := Key("g", "n", "a");
    var m := Extracted(None, [], "");
    var create := Commit(2, k, Create("", Some(""), m, None), 0);
    var delete := Commit(3, k, Replace(1, Some(0), "", Some(""), m, Some(0)), 1);
    var created := Apply(THREE_OPEN, create);
    var deleted := Apply(created, delete);
    CompactOne(deleted, k);
    assert Apply(deleted, Compact([k])) == COMPACTED;
    RunCons(deleted, Compact([k]), []);
    RunCons(created, delete, [Compact([k])] + []);
    RunCons(THREE_OPEN, create, [delete] + ([Compact([k])] + []));
    steps := [create] + ([delete] + ([Compact([k])] + []));
  }

  /**
   * A relist can be refused again: there transaction 1 is still open, so the list's mark
   * is 0, below the horizon 3, and the poll after it is refused like the one before.
   */
  lemma RelistCanBeRefused() returns (db: Db, sc: Scope)
    ensures Reachable(db) && Gone(db, ListAndWatch(db, sc))
  {
    var steps := ReachCompacted();
    ReachThreeOpen(steps);
    InvRun(Initial(), [Acquire] + ([Acquire] + ([Acquire] + steps)));
    db, sc := COMPACTED, Scope("g", _ => true);
    RelistRecoversExactly(db, sc);
    assert 1 in db.active;
  }

  lemma StartTracks(db: Db, sc: Scope)
    requires Inv(db)
    ensures Tracks(db, Watcher(sc, 0, map[]))
  {
    forall k | k in db.table
      ensures db.table[k].stamp > 0
    {
      assert RowOk(db, db.table[k]);
    }
  }

  lemma PollTracks(db: Db, w: Watcher)
    requires Inv(db) && Tracks(db, w) && !Gone(db, w)
    ensures Tracks(db, Polled(db, w))
  {
    PollEqualsList(db, w);
  }

  lemma {:induction false} SystemRunKeeps(sys: System, steps: seq<SystemStep>)
    requires SystemInv(sys) && SystemRuns(sys, steps)
    ensures SystemInv(SystemExec(sys, steps))
    decreases |steps|
  {
    if steps != [] {
      SystemStepKeeps(sys, steps[0]);
      SystemRunKeeps(SystemApply(sys, steps[0]), steps[1..]);
    }
  }

  /**
   * The main theorem.  In every run from an empty database, with any number of
   * writers committing in any order, compactions, lists and watches, a poll that
   * is not answered with 410 Gone leaves the informer store equal to what List
   * returns on the poll's own snapshot, and the mark equal to List's watermark.
   */
  lemma PolledViewIsList(steps: seq<SystemStep>, id: nat)
    requires SystemRuns(System(Initial(), map[]), steps)
    requires var sys := SystemExec(System(Initial(), map[]), steps);
      id in sys.watchers && !Gone(sys.db, sys.watchers[id])
    ensures var sys := SystemExec(System(Initial(), map[]), steps);
      SystemApply(sys, Poll(id)).watchers[id] == ListAndWatch(sys.db, sys.watchers[id].scope)
  {
    var sys := SystemExec(System(Initial(), map[]), steps);
    SystemRunKeeps(System(Initial(), map[]), steps);
    PollEqualsList(sys.db, sys.watchers[id]);
  }

  /**
   * Compaction never hides a deletion: an object that is gone from the table but
   * still in some watcher's view makes that watcher's next poll fail.
   */
  lemma CompactedObjectForcesRelist(steps: seq<SystemStep>, id: nat, k: Key)
    requires SystemRuns(System(Initial(), map[]), steps)
    requires var sys := SystemExec(System(Initial(), map[]), steps);
      id in sys.watchers && k in sys.watchers[id].view && k !in sys.db.table
    ensures var sys := SystemExec(System(Initial(), map[]), steps);
      Gone(sys.db, sys.watchers[id])
  {
    var sys := SystemExec(System(Initial(), map[]), steps);
    SystemRunKeeps(System(Initial(), map[]), steps);
    assert AgreesOn(sys.db, sys.watchers[id], k);
  }
}
