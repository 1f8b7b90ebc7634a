/**
 * Delivery of a poll's events one by one, the resource version the relay stamps
 * on them, and exactly from which marks a watch can be resumed.
 */
module Resume {
  import opened Wrappers
  import opened Sql
  import opened Lifecycle
  import opened Protocol
  import opened Watch

  /** The rows of a poll in the order of the query: each selected row once, by ascending stamp. */
  ghost predicate IsScan(db: Db, w: Watcher, keys: seq<Key>) {
    && (forall i :: 0 <= i < |keys| ==> Selected(db, w, keys[i]))
    && (forall k :: Selected(db, w, k) ==> k in keys)
    && (forall i, j :: 0 <= i < j < |keys| ==>
          keys[i] in db.table && keys[j] in db.table && db.table[keys[i]].stamp < db.table[keys[j]].stamp)
  }

  /** The informer store after one relayed event. */
  function Informed(view: map<Key, Row>, k: Key, r: Row): map<Key, Row> {
    if RelayEvent(r) == Deleted then view - {k} else view[k := r]
  }

  function Delivered(view: map<Key, Row>, table: map<Key, Row>, keys: seq<Key>): map<Key, Row>
    requires forall k :: k in keys ==> k in table
  {
    if keys == [] then view
    else
      var last := keys[|keys| - 1];
      Informed(Delivered(view, table, keys[..|keys| - 1]), last, table[last])
  }

  /** The watermark the relay has stamped after these events: the largest stamp so far. */
  function RelayMark(mark: nat, table: map<Key, Row>, keys: seq<Key>): nat
    requires forall k :: k in keys ==> k in table
  {
    if keys == [] then mark
    else
      var last := keys[|keys| - 1];
      var before := RelayMark(mark, table, keys[..|keys| - 1]);
      if table[last].stamp > before then table[last].stamp else before
  }

  lemma {:induction false} DeliveredOn(view: map<Key, Row>, table: map<Key, Row>, keys: seq<Key>, k: Key)
    requires forall k :: k in keys ==> k in table
    ensures var v := Delivered(view, table, keys);
      if k in keys then (k in v <==> RelayEvent(table[k]) != Deleted) && (k in v ==> v[k] == table[k])
      else (k in v <==> k in view) && (k in v ==> v[k] == view[k])
  {
    if keys != [] {
      var front, last := keys[..|keys| - 1], keys[|keys| - 1];
      DeliveredOn(view, table, front, k);
      assert k in keys <==> k in front || k == last;
    }
  }

  /** Folding all events of a poll one by one gives the poll's view. */
  lemma DeliveryIsPollView(db: Db, w: Watcher, keys: seq<Key>)
    requires Inv(db) && IsScan(db, w, keys)
    ensures Delivered(w.view, db.table, keys) == PollView(db, w)
  {
    forall k
      ensures k in Delivered(w.view, db.table, keys) <==> k in PollView(db, w)
      ensures k in PollView(db, w) ==> Delivered(w.view, db.table, keys)[k] == PollView(db, w)[k]
    {
      DeliveredOn(w.view, db.table, keys, k);
      if k in db.table { RowsAreRegular(db, k); }
    }
  }

  // ---- Where a watch may resume ----

  /**
   * Resuming with this mark and this store is safe: however the database runs on,
   * the first poll is refused or makes the store equal to a List.
   */
  ghost predicate ResumeSafe(db: Db, w: Watcher) {
    forall steps :: Runs(db, steps) ==>
      Gone(Exec(db, steps), w) || PollView(Exec(db, steps), w) == Listed(Exec(db, steps).table, w.scope)
  }

  lemma {:induction false} TrackRun(db: Db, w: Watcher, steps: seq<Step>)
    requires Inv(db) && Tracks(db, w) && Runs(db, steps)
    ensures Tracks(Exec(db, steps), w)
    decreases |steps|
  {
    if steps != [] {
      TrackStep(db, w, steps[0]);
      InvStep(db, steps[0]);
      TrackRun(Apply(db, steps[0]), w, steps[1..]);
    }
  }

  lemma FreshName(keys: set<Key>) returns (name: string)
    ensures forall k :: k in keys ==> |k.name| < |name|
  {
    if keys == {} {
      name := "";
    } else {
      var k :| k in keys;
      var rest := FreshName(keys - {k});
      name := if |k.name| < |rest| then rest else k.name + "x";
      assert forall j :: j in keys ==> j == k || j in keys - {k};
    }
  }

  /** A mark at or above xmin loses: the oldest open transaction commits a new object below the mark. */
  lemma MarkAtXminLoses(db: Db, w: Watcher, namespace: string)
    requires Inv(db) && !Gone(db, w) && w.scope.owns(namespace)
    requires w.hwm >= Xmin(db)
    ensures !ResumeSafe(db, w)
  {
    var open := if Xmin(db) in db.active then db else Apply(db, Acquire);
    var name := FreshName(db.table.Keys + w.view.Keys);
    var key := Key(w.scope.gvk, namespace, name);
    var uid := FreshUid(db.used);
    var commit := Commit(Xmin(db), key, Create("", Some(""), Metadata(None, Missing, Some([]), ""), None), uid);
    assert key !in db.table && key !in w.view;
    assert Enabled(open, commit);
    var after := Apply(open, commit);
    RunCons(open, commit, []);
    var steps := [commit] + [];
    if open != db {
      steps := [Acquire] + steps;
      RunCons(db, Acquire, [commit] + []);
    }
    assert Runs(db, steps) && Exec(db, steps) == after;
    assert key in Listed(after.table, w.scope);
    assert key !in PollView(after, w);
  }

  /**
   * Exactly where a watch may resume: the horizon already refuses the mark, or the
   * mark is below the oldest open transaction and the store is right about every
   * row at or below the mark.
   */
  lemma ResumeSafeExactly(db: Db, w: Watcher, namespace: string)
    requires Inv(db) && w.scope.owns(namespace)
    ensures ResumeSafe(db, w) <==> Gone(db, w) || (w.hwm < Xmin(db) && Agrees(db, w))
  {
    if Gone(db, w) {
      forall steps | Runs(db, steps)
        ensures Gone(Exec(db, steps), w)
      {
        HorizonNeverFalls(db, steps, w.scope.gvk);
      }
    } else if w.hwm >= Xmin(db) {
      MarkAtXminLoses(db, w, namespace);
    } else if Agrees(db, w) {
      forall steps | Runs(db, steps)
        ensures Gone(Exec(db, steps), w) || PollView(Exec(db, steps), w) == Listed(Exec(db, steps).table, w.scope)
      {
        TrackRun(db, w, steps);
        InvRun(db, steps);
        if !Gone(Exec(db, steps), w) { PollEqualsList(Exec(db, steps), w); }
      }
    } else {
      assert Runs(db, []) && Exec(db, []) == db;
      if PollView(db, w) == Listed(db.table, w.scope) { ListEqualsPollOnlyIfAgrees(db, w); }
    }
  }

  /** Resuming from the old watcher's own mark, with its store, is always safe. */
  lemma ResumeFromHwm(db: Db, w: Watcher, namespace: string)
    requires Inv(db) && Tracks(db, w) && w.scope.owns(namespace)
    ensures ResumeSafe(db, w)
  {
    ResumeSafeExactly(db, w, namespace);
  }

  /**
   * Resuming from the version the relay stamped on the last event of a fully
   * delivered poll: safe exactly when that version is below the delivering
   * snapshot's xmin (or the horizon refuses it).
   */
  lemma ResumeFromRelay(db: Db, w: Watcher, keys: seq<Key>, mark: nat, namespace: string)
    requires Inv(db) && Tracks(db, w) && !Gone(db, w) && w.scope.owns(namespace)
    requires IsScan(db, w, keys)
    ensures var stamped := RelayMark(mark, db.table, keys);
      var resumed := Watcher(w.scope, stamped, Delivered(w.view, db.table, keys));
      ResumeSafe(db, resumed) <==> Gone(db, resumed) || stamped < Xmin(db)
  {
    DeliveryIsPollView(db, w, keys);
    PollEqualsList(db, w);
    var resumed := Watcher(w.scope, RelayMark(mark, db.table, keys), Delivered(w.view, db.table, keys));
    assert Agrees(db, resumed);
    ResumeSafeExactly(db, resumed, namespace);
  }

  lemma {:induction false} RelayMarkIsMax(mark: nat, table: map<Key, Row>, keys: seq<Key>)
    requires forall k :: k in keys ==> k in table
    ensures var m := RelayMark(mark, table, keys);
      && mark <= m
      && (forall k :: k in keys ==> table[k].stamp <= m)
      && (m == mark || exists k :: k in keys && table[k].stamp == m)
  {
    if keys != [] {
      var front, last := keys[..|keys| - 1], keys[|keys| - 1];
      RelayMarkIsMax(mark, table, front);
      assert forall k :: k in keys ==> k == last || k in front;
      assert last in keys;
    }
  }

  /** The informer store already shows row k as List would. */
  predicate Shown(db: Db, view: map<Key, Row>, k: Key)
    requires k in db.table
  {
    (k in view <==> ListFilter(db.table[k]) == True) && (k in view ==> view[k] == db.table[k])
  }

  /** No row that was not sent and that the mark passes over is missing or stale in the store. */
  ghost predicate UnsentAreShown(db: Db, w: Watcher, keys: seq<Key>, n: nat, mark: nat)
    requires IsScan(db, w, keys)
  {
    forall i :: n <= i < |keys| && db.table[keys[i]].stamp <= mark ==> Shown(db, w.view, keys[i])
  }

  /** What the broken-off delivery leaves is right about k, in terms of what was and was not sent. */
  lemma PartialAgreesOn(db: Db, w: Watcher, keys: seq<Key>, n: nat, mark: nat, k: Key)
    requires Inv(db) && Tracks(db, w) && !Gone(db, w) && IsScan(db, w, keys) && n <= |keys| && InScope(w.scope, k)
    ensures var resumed := Watcher(w.scope, mark, Delivered(w.view, db.table, keys[..n]));
      AgreesOn(db, resumed, k) <==>
        (k in keys[n..] && db.table[k].stamp <= mark ==> Shown(db, w.view, k))
  {
    DeliveredOn(w.view, db.table, keys[..n], k);
    assert AgreesOn(db, w, k);
    assert keys == keys[..n] + keys[n..];
    if k in db.table {
      RowsAreRegular(db, k);
      assert Selected(db, w, k) <==> k in keys;
      SentOnce(db, w, keys, n, k);
    }
  }

  lemma SentOnce(db: Db, w: Watcher, keys: seq<Key>, n: nat, k: Key)
    requires IsScan(db, w, keys) && n <= |keys|
    ensures !(k in keys[..n] && k in keys[n..])
  {
    forall j | n <= j < |keys| ensures keys[j] !in keys[..n] {
      assert forall i :: 0 <= i < n ==> db.table[keys[i]].stamp < db.table[keys[j]].stamp;
    }
  }

  lemma UnsentAreShownOn(db: Db, w: Watcher, keys: seq<Key>, n: nat, mark: nat)
    requires IsScan(db, w, keys) && n <= |keys|
    ensures UnsentAreShown(db, w, keys, n, mark) <==>
      forall k :: k in keys[n..] && db.table[k].stamp <= mark ==> Shown(db, w.view, k)
  {
    forall i | n <= i < |keys| ensures keys[i] in keys[n..] {
      assert keys[n..][i - n] == keys[i];
    }
    forall k | k in keys[n..] ensures exists i :: n <= i < |keys| && keys[i] == k {
      var j :| 0 <= j < |keys[n..]| && keys[n..][j] == k;
      assert keys[n + j] == k;
    }
  }

  /**
   * A watch that breaks after the first n of a poll's events, resumed from any mark:
   * safe exactly when the horizon refuses the mark, or it is below xmin and every
   * unsent row it passes over was already shown.
   */
  lemma ResumeMidDeliveryExactly(db: Db, w: Watcher, keys: seq<Key>, n: nat, mark: nat, namespace: string)
    requires Inv(db) && Tracks(db, w) && !Gone(db, w) && w.scope.owns(namespace)
    requires IsScan(db, w, keys) && n <= |keys|
    ensures var resumed := Watcher(w.scope, mark, Delivered(w.view, db.table, keys[..n]));
      ResumeSafe(db, resumed) <==> Gone(db, resumed) || (mark < Xmin(db) && UnsentAreShown(db, w, keys, n, mark))
  {
    var resumed := Watcher(w.scope, mark, Delivered(w.view, db.table, keys[..n]));
    forall k
      ensures k in resumed.view ==> InScope(w.scope, k)
      ensures InScope(w.scope, k) ==>
        (AgreesOn(db, resumed, k) <==> (k in keys[n..] && db.table[k].stamp <= mark ==> Shown(db, w.view, k)))
    {
      DeliveredOn(w.view, db.table, keys[..n], k);
      if InScope(w.scope, k) { PartialAgreesOn(db, w, keys, n, mark, k); }
    }
    UnsentAreShownOn(db, w, keys, n, mark);
    AgreesExactly(db, w, resumed, keys, n, mark);
    ResumeSafeExactly(db, resumed, namespace);
  }

  lemma AgreesExactly(db: Db, w: Watcher, resumed: Watcher, keys: seq<Key>, n: nat, mark: nat)
    requires IsScan(db, w, keys) && n <= |keys| && resumed.scope == w.scope
    requires forall k :: k in resumed.view ==> InScope(w.scope, k)
    requires forall k :: InScope(w.scope, k) ==>
      (AgreesOn(db, resumed, k) <==> (k in keys[n..] && db.table[k].stamp <= mark ==> Shown(db, w.view, k)))
    ensures Agrees(db, resumed) <==> forall k :: k in keys[n..] && db.table[k].stamp <= mark ==> Shown(db, w.view, k)
  {
    if Agrees(db, resumed) {
      forall k | k in keys[n..] && db.table[k].stamp <= mark ensures Shown(db, w.view, k) {
        assert k in keys && InScope(w.scope, k);
        assert AgreesOn(db, resumed, k);
      }
    }
  }

  /** The relay's own version: safe in particular if it is the n-th event's stamp and below xmin. */
  lemma ResumeMidDelivery(db: Db, w: Watcher, keys: seq<Key>, n: nat, mark: nat, namespace: string)
    requires Inv(db) && Tracks(db, w) && !Gone(db, w) && w.scope.owns(namespace)
    requires IsScan(db, w, keys) && 0 < n <= |keys|
    requires mark <= db.table[keys[n - 1]].stamp < Xmin(db)
    ensures RelayMark(mark, db.table, keys[..n]) == db.table[keys[n - 1]].stamp
    ensures ResumeSafe(db, Watcher(w.scope, RelayMark(mark, db.table, keys[..n]), Delivered(w.view, db.table, keys[..n])))
  {
    RelayMarkIsMax(mark, db.table, keys[..n]);
    assert keys[..n][n - 1] == keys[n - 1];
    ResumeMidDeliveryExactly(db, w, keys, n, RelayMark(mark, db.table, keys[..n]), namespace);
  }

  // ---- A run in which a broken-off delivery loses an object ----

  predicate Anywhere(namespace: string) { true }

  function Object(name: string): Key { Key("g", "n", name) }

  function NewRow(xid: nat, uid: nat): Row { Row(uid, xid, 1, "", "", Metadata(None, Missing, Some([]), ""), None) }

  function NewObject(xid: nat, name: string, uid: nat): Step {
    Commit(xid, Object(name), Create("", Some(""), Metadata(None, Missing, Some([]), ""), None), uid)
  }

  /** A watcher starts; transactions 1, 2 and 3 open and 3 commits c; the watcher polls; 1 and 2 commit a and b. */
  function BeforePoll(): seq<SystemStep> {
    [Start(0, Scope("g", Anywhere)), DbStep(Acquire), DbStep(Acquire), DbStep(Acquire), DbStep(NewObject(3, "c", 0))]
  }

  function AfterPoll(): seq<SystemStep> {
    [DbStep(NewObject(1, "a", 1)), DbStep(NewObject(2, "b", 2))]
  }

  /** What the first part leaves: c is committed, 1 and 2 are open. */
  function OneRow(): Db {
    Db(4, {1, 2}, map[Object("c") := NewRow(3, 0)], map[], {0})
  }

  function ThreeRows(): Db {
    Db(4, {}, map[Object("a") := NewRow(1, 1), Object("b") := NewRow(2, 2), Object("c") := NewRow(3, 0)], map[], {0, 1, 2})
  }

  function Fresh(): Watcher { Watcher(Scope("g", Anywhere), 0, map[]) }

  /** The watcher that has relayed c only. */
  function RelayedC(): Watcher { Watcher(Scope("g", Anywhere), 0, map[Object("c") := NewRow(3, 0)]) }

  lemma SystemRunCons(sys: System, s: SystemStep, steps: seq<SystemStep>)
    requires SystemEnabled(sys, s) && SystemRuns(SystemApply(sys, s), steps)
    ensures SystemRuns(sys, [s] + steps) && SystemExec(sys, [s] + steps) == SystemExec(SystemApply(sys, s), steps)
  {
    assert ([s] + steps)[1..] == steps;
  }

  lemma ReachOneRow()
    ensures SystemRuns(System(Initial(), map[]), BeforePoll())
    ensures SystemExec(System(Initial(), map[]), BeforePoll()) == System(OneRow(), map[0 := Fresh()])
  {
    var ws := map[0 := Fresh()];
    var d1 := Apply(Initial(), Acquire);
    var d2 := Apply(d1, Acquire);
    var d3 := Apply(d2, Acquire);
    assert Apply(d3, NewObject(3, "c", 0)) == OneRow();
    SystemRunCons(System(d3, ws), DbStep(NewObject(3, "c", 0)), []);
    SystemRunCons(System(d2, ws), DbStep(Acquire), [DbStep(NewObject(3, "c", 0))]);
    SystemRunCons(System(d1, ws), DbStep(Acquire), [DbStep(Acquire), DbStep(NewObject(3, "c", 0))]);
    SystemRunCons(System(Initial(), ws), DbStep(Acquire), [DbStep(Acquire), DbStep(Acquire), DbStep(NewObject(3, "c", 0))]);
    SystemRunCons(System(Initial(), map[]), Start(0, Scope("g", Anywhere)), BeforePoll()[1..]);
  }

  lemma PollRelaysC()
    ensures IsScan(OneRow(), Fresh(), [Object("c")]) && RelayMark(0, OneRow().table, [Object("c")]) == 3
    ensures SystemApply(System(OneRow(), map[0 := Fresh()]), Poll(0)) == System(OneRow(), map[0 := RelayedC()])
  {
    assert Xmin(OneRow()) == 1;
    assert PollView(OneRow(), Fresh()) == RelayedC().view;
    assert RelayMark(0, OneRow().table, []) == 0;
  }

  lemma ReachThreeRows()
    ensures var sys := System(OneRow(), map[0 := RelayedC()]);
      SystemRuns(sys, AfterPoll()) && SystemExec(sys, AfterPoll()) == System(ThreeRows(), map[0 := RelayedC()])
  {
    var ws := map[0 := RelayedC()];
    var d := Apply(OneRow(), NewObject(1, "a", 1));
    assert Apply(d, NewObject(2, "b", 2)) == ThreeRows();
    SystemRunCons(System(d, ws), DbStep(NewObject(2, "b", 2)), []);
    SystemRunCons(System(OneRow(), ws), DbStep(NewObject(1, "a", 1)), [DbStep(NewObject(2, "b", 2))]);
  }

  lemma ScanThreeRows()
    ensures !Gone(ThreeRows(), RelayedC()) && Xmin(ThreeRows()) == 4 && PollHwm(ThreeRows(), RelayedC()) == 3
    ensures IsScan(ThreeRows(), RelayedC(), [Object("a"), Object("b"), Object("c")])
  {
  }

  /** The run is one of the system's, and the second state is reached through the first one's poll. */
  ghost predicate RunsThrough(first: System, second: System) {
    && SystemRuns(System(Initial(), map[]), BeforePoll())
    && first == SystemExec(System(Initial(), map[]), BeforePoll())
    && SystemEnabled(first, Poll(0)) && SystemRuns(SystemApply(first, Poll(0)), AfterPoll())
    && second == SystemExec(SystemApply(first, Poll(0)), AfterPoll())
  }

  /**
   * Below xmin is not enough in the middle of a delivery.  In the run above the first
   * poll relayed c and stamped 3; the next one redelivers a, b, c and breaks after a.
   * The stamped version stays 3, below xmin 4, and resuming from it loses b.  So does
   * resuming from the watcher's mark, which the poll had already raised to 3.
   */
  lemma MidDeliveryCanLose() returns (first: System, sent: seq<Key>, second: System, keys: seq<Key>, mark: nat)
    ensures RunsThrough(first, second) && 0 in first.watchers && 0 in second.watchers
    ensures IsScan(first.db, first.watchers[0], sent) && mark == RelayMark(0, first.db.table, sent)
    ensures !Gone(second.db, second.watchers[0]) && |keys| == 3 && IsScan(second.db, second.watchers[0], keys)
    ensures mark < Xmin(second.db) && RelayMark(mark, second.db.table, keys[..1]) == mark
    ensures var w := second.watchers[0];
      var partial := Delivered(w.view, second.db.table, keys[..1]);
      && !ResumeSafe(second.db, Watcher(w.scope, mark, partial))
      && !ResumeSafe(second.db, Watcher(w.scope, PollHwm(second.db, w), partial))
  {
    ReachOneRow();
    PollRelaysC();
    ReachThreeRows();
    first, second := System(OneRow(), map[0 := Fresh()]), System(ThreeRows(), map[0 := RelayedC()]);
    sent, keys, mark := [Object("c")], [Object("a"), Object("b"), Object("c")], 3;
    ScanThreeRows();
    LosesB(keys);
  }

  lemma ThreeRowsTracked()
    ensures Inv(ThreeRows()) && Tracks(ThreeRows(), RelayedC())
  {
    ReachOneRow();
    PollRelaysC();
    ReachThreeRows();
    SystemRunKeeps(System(Initial(), map[]), BeforePoll());
    SystemStepKeeps(System(OneRow(), map[0 := Fresh()]), Poll(0));
    SystemRunKeeps(System(OneRow(), map[0 := RelayedC()]), AfterPoll());
    assert System(ThreeRows(), map[0 := RelayedC()]).watchers[0] == RelayedC();
  }

  lemma LosesB(keys: seq<Key>)
    requires keys == [Object("a"), Object("b"), Object("c")]
    ensures RelayMark(3, ThreeRows().table, keys[..1]) == 3
    ensures !ResumeSafe(ThreeRows(), Watcher(RelayedC().scope, 3, Delivered(RelayedC().view, ThreeRows().table, keys[..1])))
  {
    ThreeRowsTracked();
    ScanThreeRows();
    assert RelayMark(3, ThreeRows().table, keys[..1][..0]) == 3;
    assert !Shown(ThreeRows(), RelayedC().view, keys[1]);
    assert !UnsentAreShown(ThreeRows(), RelayedC(), keys, 1, 3);
    ResumeMidDeliveryExactly(ThreeRows(), RelayedC(), keys, 1, 3, "n");
  }
}
