/**
 * Claiming a DNS reservation for a cluster, releasing the claim when the cluster goes,
 * and deleting the reservation through the API: retry loops over compare-and-swap
 * writes, run by any number of callers at once.
 */
module Claims {
  import opened Wrappers

  /** What the loops look at; version is the object version the CAS compares. */
  datatype Reservation = Reservation(uid: nat, version: nat, claimedBy: string, deleting: bool, ready: bool)

  /** What has happened to one incarnation, in the order of the commits. */
  datatype Event =
    | ClaimLanded(uid: nat, cluster: string)
    | ClaimReleased(uid: nat, cluster: string)
    | ApiDeleted(uid: nat)

  /**
   * row is the object under the reservation's name as reads see it (None while
   * absent or a tombstone); seen holds every state a reader has ever loaded.
   */
  datatype World = World(row: Option<Reservation>, used: set<nat>, seen: set<Reservation>, log: seq<Event>)

  const START := World(None, {}, {}, [])

  datatype Step =
    | Load
    | SaveClaim(read: Reservation, cluster: string)
    | SaveRelease(read: Reservation)                    // the cluster controller, when the cluster is deleted
    | SaveDelete(read: Reservation, finalized: bool)    // finalized: no finalizers, so the row disappears
    | Status(ready: bool)                               // status updates by the operator
    | Touch                                             // other metadata updates
    | OperatorDelete                                    // deletion that is not through the API
    | Vanish                                            // the last finalizer of a deleted object goes
    | Create(uid: nat, claimedBy: string)

  /** The CAS on version and uid. */
  predicate Unchanged(w: World, read: Reservation) {
    w.row.Some? && w.row.value.uid == read.uid && w.row.value.version == read.version
  }

  predicate ReadyForClaim(r: Reservation) { !r.deleting && r.ready }

  predicate Enabled(w: World, s: Step) {
    match s
    case Load => true
    case SaveClaim(read, cluster) => read in w.seen && read.claimedBy == "" && ReadyForClaim(read) && cluster != ""
    case SaveRelease(read) => read in w.seen && read.claimedBy != ""
    case SaveDelete(read, _) => read in w.seen && read.claimedBy == ""
    case Status(_) => w.row.Some?
    case Touch => w.row.Some?
    case OperatorDelete => w.row.Some?
    case Vanish => w.row.Some? && w.row.value.deleting
    case Create(uid, _) => w.row.None? && uid !in w.used
  }

  function Bump(r: Reservation): Reservation { r.(version := r.version + 1) }

  function Apply(w: World, s: Step): World
    requires Enabled(w, s)
  {
    match s
    case Load => if w.row.None? then w else w.(seen := w.seen + {w.row.value})
    case SaveClaim(read, cluster) =>
      if !Unchanged(w, read) then w
      else w.(row := Some(Bump(read).(claimedBy := cluster)), log := w.log + [ClaimLanded(read.uid, cluster)])
    case SaveRelease(read) =>
      if !Unchanged(w, read) then w
      else w.(row := Some(Bump(read).(claimedBy := "")), log := w.log + [ClaimReleased(read.uid, read.claimedBy)])
    case SaveDelete(read, finalized) =>
      if !Unchanged(w, read) then w
      else w.(row := if finalized then None else Some(Bump(read).(deleting := true)), log := w.log + [ApiDeleted(read.uid)])
    case Status(ready) => w.(row := Some(Bump(w.row.value).(ready := ready)))
    case Touch => w.(row := Some(Bump(w.row.value)))
    case OperatorDelete => w.(row := Some(Bump(w.row.value).(deleting := true)))
    case Vanish => w.(row := None)
    case Create(uid, claimedBy) =>
      w.(row := Some(Reservation(uid, 1, claimedBy, false, false)), used := w.used + {uid},
         log := if claimedBy == "" then w.log else w.log + [ClaimLanded(uid, claimedBy)])
  }

  predicate Runs(w: World, steps: seq<Step>)
    decreases |steps|
  {
    steps == [] || (Enabled(w, steps[0]) && Runs(Apply(w, steps[0]), steps[1..]))
  }

  function Exec(w: World, steps: seq<Step>): World
    requires Runs(w, steps)
    decreases |steps|
  {
    if steps == [] then w else Exec(Apply(w, steps[0]), steps[1..])
  }

  // ---- What the events of a run look like ----

  /** The cluster whose claim on u landed last and has not been released. */
  function Holder(log: seq<Event>, u: nat): string {
    if log == [] then ""
    else
      match log[|log| - 1]
      case ClaimLanded(v, cluster) => if v == u then cluster else Holder(log[..|log| - 1], u)
      case ClaimReleased(v, _) => if v == u then "" else Holder(log[..|log| - 1], u)
      case ApiDeleted(_) => Holder(log[..|log| - 1], u)
  }

  /** e may follow log: claims on unclaimed incarnations that were not deleted, releases by the holder, deletes of unclaimed ones. */
  predicate Follows(log: seq<Event>, e: Event) {
    match e
    case ClaimLanded(u, cluster) => cluster != "" && Holder(log, u) == "" && ApiDeleted(u) !in log
    case ClaimReleased(u, cluster) => cluster != "" && Holder(log, u) == cluster
    case ApiDeleted(u) => Holder(log, u) == ""
  }

  ghost predicate Orderly(log: seq<Event>) {
    forall i :: 0 <= i < |log| ==> Follows(log[..i], log[i])
  }

  lemma OrderlyAppend(log: seq<Event>, e: Event)
    requires Orderly(log) && Follows(log, e)
    ensures Orderly(log + [e])
  {
    forall i | 0 <= i < |log + [e]| ensures Follows((log + [e])[..i], (log + [e])[i]) {
      assert (log + [e])[..i] == log[..i];
      assert i == |log| ==> log[..i] == log;
    }
  }

  lemma HolderAppend(log: seq<Event>, e: Event, u: nat)
    ensures Holder(log + [e], u) ==
      if e.uid != u || e.ApiDeleted? then Holder(log, u) else if e.ClaimLanded? then e.cluster else ""
  {
    assert (log + [e])[..|log|] == log;
  }

  lemma {:induction false} HolderOfNew(log: seq<Event>, u: nat)
    requires forall e :: e in log ==> e.uid != u
    ensures Holder(log, u) == ""
  {
    if log != [] {
      assert log[|log| - 1] in log;
      HolderOfNew(log[..|log| - 1], u);
    }
  }

  /** e neither deletes u nor claims it. */
  predicate Spares(e: Event, u: nat) {
    e != ApiDeleted(u) && !(e.ClaimLanded? && e.uid == u)
  }

  lemma HeldStep(log: seq<Event>, e: Event, u: nat, h: string)
    requires Follows(log, e) && Holder(log, u) == h != "" && e != ClaimReleased(u, h)
    ensures Holder(log + [e], u) == h && Spares(e, u)
  {
    HolderAppend(log, e, u);
  }

  lemma HeldNext(log: seq<Event>, i: nat, u: nat, h: string)
    requires i < |log| && Follows(log[..i], log[i]) && Holder(log[..i], u) == h != "" && log[i] != ClaimReleased(u, h)
    ensures Holder(log[..i + 1], u) == h && Spares(log[i], u)
  {
    assert log[..i + 1] == log[..i] + [log[i]];
    HeldStep(log[..i], log[i], u, h);
  }

  /** A claim is held until it is released. */
  lemma {:induction false} HeldUntilReleased(log: seq<Event>, i: nat, j: nat, u: nat, h: string)
    requires Orderly(log) && i <= j <= |log| && Holder(log[..i], u) == h != ""
    requires forall k :: i <= k < j ==> log[k] != ClaimReleased(u, h)
    ensures Holder(log[..j], u) == h
    ensures forall k :: i <= k < j ==> Spares(log[k], u)
    decreases j - i
  {
    if i < j {
      HeldNext(log, i, u, h);
      HeldUntilReleased(log, i + 1, j, u, h);
    }
  }

  lemma HeldAfterClaim(log: seq<Event>, i: nat, u: nat, a: string)
    requires Orderly(log) && i < |log| && log[i] == ClaimLanded(u, a)
    ensures Holder(log[..i + 1], u) == a != ""
  {
    assert Follows(log[..i], log[i]);
    assert log[..i + 1] == log[..i] + [log[i]];
    HolderAppend(log[..i], log[i], u);
  }

  /** Between a landed claim and the next claim on, or API deletion of, the incarnation its holder released it. */
  lemma ReleasedBetween(log: seq<Event>, i: nat, j: nat, u: nat, a: string)
    requires Orderly(log) && i < j < |log| && log[i] == ClaimLanded(u, a)
    requires log[j] == ApiDeleted(u) || (log[j].ClaimLanded? && log[j].uid == u)
    ensures exists k :: i < k < j && log[k] == ClaimReleased(u, a)
  {
    assert !Spares(log[j], u);
    HeldAfterClaim(log, i, u, a);
    if forall k :: i + 1 <= k < j + 1 ==> log[k] != ClaimReleased(u, a) {
      HeldUntilReleased(log, i + 1, j + 1, u, a);
    }
  }

  /** No claim lands on an incarnation after the API deleted it. */
  lemma NoClaimAfterDelete(log: seq<Event>, i: nat, j: nat, u: nat)
    requires Orderly(log) && i < j < |log| && log[i] == ApiDeleted(u)
    ensures !(log[j].ClaimLanded? && log[j].uid == u)
  {
    assert Follows(log[..j], log[j]);
    assert log[..j][i] == ApiDeleted(u);
  }

  lemma {:induction false} DeletedIsUnclaimed(log: seq<Event>, u: nat)
    requires Orderly(log) && ApiDeleted(u) in log
    ensures Holder(log, u) == ""
  {
    var n := |log| - 1;
    var front, last := log[..n], log[n];
    assert Follows(log[..n], log[n]);
    assert log == front + [last];
    HolderAppend(front, last, u);
    if ApiDeleted(u) in front {
      assert Orderly(front) by {
        forall i | 0 <= i < n ensures Follows(front[..i], front[i]) {
          assert Follows(log[..i], log[i]) && front[..i] == log[..i];
        }
      }
      DeletedIsUnclaimed(front, u);
    }
  }

  // ---- What every step keeps ----

  /** A state once loaded is the current one or older: versions grow and uids are not reused. */
  predicate ReadOk(w: World, r: Reservation) {
    && r.uid in w.used
    && (w.row.Some? && w.row.value.uid == r.uid ==>
          r.version < w.row.value.version || r == w.row.value)
  }

  /** The label on the current row is the holder of the record. */
  predicate RowOk(w: World, r: Reservation) {
    && r.uid in w.used
    && r.claimedBy == Holder(w.log, r.uid)
    && (ApiDeleted(r.uid) in w.log ==> r.deleting)
  }

  ghost predicate Inv(w: World) {
    && (w.row.Some? ==> RowOk(w, w.row.value))
    && (forall r :: r in w.seen ==> ReadOk(w, r))
    && (forall e :: e in w.log ==> e.uid in w.used)
    && Orderly(w.log)
  }

  predicate IsSave(s: Step) { s.SaveClaim? || s.SaveRelease? || s.SaveDelete? }

  /** What a save that lands leaves behind. */
  function Saved(s: Step): Option<Reservation>
    requires IsSave(s)
  {
    match s
    case SaveClaim(read, cluster) => Some(Bump(read).(claimedBy := cluster))
    case SaveRelease(read) => Some(Bump(read).(claimedBy := ""))
    case SaveDelete(read, finalized) => if finalized then None else Some(Bump(read).(deleting := true))
  }

  function EventOf(s: Step): Event
    requires IsSave(s)
  {
    match s
    case SaveClaim(read, cluster) => ClaimLanded(read.uid, cluster)
    case SaveRelease(read) => ClaimReleased(read.uid, read.claimedBy)
    case SaveDelete(read, _) => ApiDeleted(read.uid)
  }

  lemma InvStep(w: World, s: Step)
    requires Inv(w) && Enabled(w, s)
    ensures Inv(Apply(w, s)) && w.log <= Apply(w, s).log
  {
    match s
    case SaveClaim(read, _) => if Unchanged(w, read) { InvLanded(w, s); }
    case SaveRelease(read) => if Unchanged(w, read) { InvLanded(w, s); }
    case SaveDelete(read, _) => if Unchanged(w, read) { InvLanded(w, s); }
    case Create(uid, claimedBy) =>
      HolderOfNew(w.log, uid);
      if claimedBy != "" { LogStep(w, ClaimLanded(uid, claimedBy)); }
    case _ =>
  }

  lemma LandedIs(w: World, s: Step)
    requires IsSave(s) && Enabled(w, s) && Unchanged(w, s.read)
    ensures Apply(w, s) == w.(row := Saved(s), log := w.log + [EventOf(s)])
  {
  }

  /** A save that lands was made from the current row, and its event may follow the record. */
  lemma LandedFollows(w: World, s: Step)
    requires Inv(w) && IsSave(s) && Enabled(w, s) && Unchanged(w, s.read)
    ensures w.row == Some(s.read) && Follows(w.log, EventOf(s))
  {
    assert ReadOk(w, s.read);
    assert RowOk(w, s.read);
  }

  lemma LandedRowOk(w: World, s: Step)
    requires IsSave(s) && Enabled(w, s) && RowOk(w, s.read) && Saved(s).Some?
    ensures RowOk(w.(row := Saved(s), log := w.log + [EventOf(s)]), Saved(s).value)
  {
    HolderAppend(w.log, EventOf(s), s.read.uid);
  }

  lemma LandedReadOk(w: World, s: Step, r: Reservation)
    requires IsSave(s) && w.row == Some(s.read) && ReadOk(w, r)
    ensures ReadOk(w.(row := Saved(s), log := w.log + [EventOf(s)]), r)
  {
  }

  lemma LandedUsed(w: World, s: Step)
    requires IsSave(s) && s.read.uid in w.used && forall e :: e in w.log ==> e.uid in w.used
    ensures forall e :: e in w.log + [EventOf(s)] ==> e.uid in w.used
  {
  }

  lemma InvLanded(w: World, s: Step)
    requires Inv(w) && IsSave(s) && Enabled(w, s) && Unchanged(w, s.read)
    ensures Inv(Apply(w, s))
  {
    LandedIs(w, s);
    LandedFollows(w, s);
    OrderlyAppend(w.log, EventOf(s));
    if Saved(s).Some? { LandedRowOk(w, s); }
    forall r | r in w.seen ensures ReadOk(Apply(w, s), r) {
      LandedReadOk(w, s, r);
    }
    LandedUsed(w, s);
  }

  lemma LogStep(w: World, e: Event)
    requires Orderly(w.log) && Follows(w.log, e)
    ensures Orderly(w.log + [e])
    ensures Holder(w.log + [e], e.uid) == if e.ClaimLanded? then e.cluster else if e.ClaimReleased? then "" else Holder(w.log, e.uid)
  {
    OrderlyAppend(w.log, e);
    HolderAppend(w.log, e, e.uid);
  }

  lemma {:induction false} InvRun(w: World, steps: seq<Step>)
    requires Inv(w) && Runs(w, steps)
    ensures Inv(Exec(w, steps)) && w.log <= Exec(w, steps).log
    decreases |steps|
  {
    if steps != [] {
      InvStep(w, steps[0]);
      InvRun(Apply(w, steps[0]), steps[1..]);
    }
  }

  /** Claims on one incarnation follow each other only through releases, and none follows an API deletion. */
  ghost predicate Exclusive(log: seq<Event>) {
    && (forall i, j :: 0 <= i < j < |log| && log[i].ClaimLanded? && log[j].uid == log[i].uid && !log[j].ClaimReleased? ==>
          exists k :: i < k < j && log[k] == ClaimReleased(log[i].uid, log[i].cluster))
    && (forall i, j :: 0 <= i < j < |log| && log[i].ApiDeleted? && log[j].uid == log[i].uid ==> !log[j].ClaimLanded?)
  }

  /**
   * For every interleaving: a cluster's claim on an incarnation ends only by its
   * release, and until then no other claim lands on it and no API delete does; after an
   * API delete no claim lands.  The label on the object is the claim in force, and an
   * object deleted through the API carries none.
   */
  lemma ClaimsAreExclusive(steps: seq<Step>)
    requires Runs(START, steps)
    ensures var w := Exec(START, steps);
      && Exclusive(w.log)
      && (w.row.Some? ==> w.row.value.claimedBy == Holder(w.log, w.row.value.uid))
      && (w.row.Some? && ApiDeleted(w.row.value.uid) in w.log ==> w.row.value.deleting && w.row.value.claimedBy == "")
  {
    InvRun(START, steps);
    var w := Exec(START, steps);
    var log := w.log;
    forall i, j | 0 <= i < j < |log| && log[i].ClaimLanded? && log[j].uid == log[i].uid && !log[j].ClaimReleased?
      ensures exists k :: i < k < j && log[k] == ClaimReleased(log[i].uid, log[i].cluster)
    {
      ReleasedBetween(log, i, j, log[i].uid, log[i].cluster);
    }
    forall i, j | 0 <= i < j < |log| && log[i].ApiDeleted? && log[j].uid == log[i].uid ensures !log[j].ClaimLanded? {
      NoClaimAfterDelete(log, i, j, log[i].uid);
    }
    if w.row.Some? && ApiDeleted(w.row.value.uid) in log { DeletedIsUnclaimed(log, w.row.value.uid); }
  }

  /** A claim that lands was made on an unclaimed reservation that is ready and not being deleted. */
  lemma ClaimsLandOnReady(w: World, read: Reservation, cluster: string)
    requires Inv(w) && Enabled(w, SaveClaim(read, cluster)) && Unchanged(w, read)
    ensures w.row.value.claimedBy == "" && w.row.value.ready && !w.row.value.deleting
  {
    assert ReadOk(w, read);
  }

  /** A released reservation can be claimed by another cluster, or deleted. */
  lemma ReleaseReopens(w: World, read: Reservation)
    requires Inv(w) && Enabled(w, SaveRelease(read)) && Unchanged(w, read)
    ensures var after := Apply(w, SaveRelease(read));
      Holder(after.log, read.uid) == "" && after.row.Some? && after.row.value.claimedBy == ""
  {
    HolderAppend(w.log, ClaimReleased(read.uid, read.claimedBy), read.uid);
  }

  // ---- The retry loops ----

  /** How a write is reported: a write that landed may still be reported as a conflict or an error. */
  datatype Report = Truthful | AsConflict | AsError

  /** What other callers do before the load and between the load and the write. */
  datatype Interference = Interference(before: seq<Step>, between: seq<Step>, report: Report)

  method Environment(w: World, steps: seq<Step>) returns (w': World)
    requires Inv(w)
    ensures Inv(w') && w.log <= w'.log && w.seen <= w'.seen
    ensures steps == [] ==> w' == w
  {
    w' := w;
    for i := 0 to |steps|
      invariant Inv(w') && w.log <= w'.log && w.seen <= w'.seen
      invariant i == 0 ==> w' == w
    {
      if Enabled(w', steps[i]) {
        InvStep(w', steps[i]);
        w' := Apply(w', steps[i]);
      }
    }
  }

  /** Others act, then the caller loads the object. */
  method Reload(w: World, others: seq<Step>) returns (w': World)
    requires Inv(w)
    ensures Inv(w') && w.log <= w'.log && (w'.row.Some? ==> w'.row.value in w'.seen)
    ensures others == [] ==> w'.row == w.row && w'.log == w.log
  {
    w' := Environment(w, others);
    InvStep(w', Load);
    w' := Apply(w', Load);
  }

  /** Others act, then the caller saves what it made of the object it had loaded. */
  method Save(w: World, others: seq<Step>, s: Step) returns (w': World, landed: bool)
    requires Inv(w) && IsSave(s) && Enabled(w, s)
    ensures Inv(w') && w.log <= w'.log
    ensures landed ==> w'.row == Saved(s) && w'.log != [] && w'.log[|w'.log| - 1] == EventOf(s)
    ensures others == [] && w.row == Some(s.read) ==> landed && w'.log == w.log + [EventOf(s)]
  {
    w' := Environment(w, others);
    landed := Unchanged(w', s.read);
    InvStep(w', s);
    w' := Apply(w', s);
  }

  const ATTEMPTS := 5

  /** The current object is this incarnation with this claim label. */
  predicate Labelled(w: World, uid: nat, cluster: string) {
    w.row.Some? && w.row.value.uid == uid && w.row.value.claimedBy == cluster
  }

  /** cluster held the claim at w and has lost it since. */
  predicate LostSince(w: World, w': World, uid: nat, cluster: string) {
    w.log <= w'.log && ClaimReleased(uid, cluster) in w'.log[|w.log|..]
  }

  lemma HeldOrLost(w: World, w': World, uid: nat, cluster: string)
    requires Inv(w') && w.log <= w'.log && cluster != "" && Holder(w.log, uid) == cluster
    ensures Holder(w'.log, uid) == cluster || LostSince(w, w', uid, cluster)
  {
    if !LostSince(w, w', uid, cluster) {
      assert w'.log[..|w.log|] == w.log && w'.log[..|w'.log|] == w'.log;
      forall k | |w.log| <= k < |w'.log| ensures w'.log[k] != ClaimReleased(uid, cluster) {
        assert w'.log[|w.log|..][k - |w.log|] == w'.log[k];
      }
      HeldUntilReleased(w'.log, |w.log|, |w'.log|, uid, cluster);
    }
  }

  /** Nobody interferes with the first attempt, whose write is reported truly or, with a quiet reload, as a conflict. */
  predicate Quiet(others: seq<Interference>)
    requires |others| == 5
  {
    && others[0].before == [] && others[0].between == []
    && (others[0].report == Truthful || (others[0].report == AsConflict && others[1].before == []))
  }

  /** Nothing comes between the load and the save of an attempt, and the save is reported as it was. */
  predicate Calm(o: Interference) { o.between == [] && o.report == Truthful }

  /** The loop may give up: a save was reported as an error, or none of five attempts was calm. */
  predicate MayGiveUp(others: seq<Interference>)
    requires |others| == 5
  {
    (exists i :: 0 <= i < 5 && others[i].report == AsError) || (forall i :: 0 <= i < 5 ==> !Calm(others[i]))
  }

  datatype ClaimOutcome = Claimed | NotFound | InUse | NotReady | ClaimFailed

  /** What an outcome says about the object at the moment the caller looked at it or changed it. */
  predicate ClaimOutcomeOk(w: World, requested: nat, cluster: string, outcome: ClaimOutcome) {
    match outcome
    case Claimed => Labelled(w, requested, cluster)
    case NotFound => w.row.None? || w.row.value.uid != requested
    case InUse => w.row.Some? && w.row.value.uid == requested && w.row.value.claimedBy !in {"", cluster}
    case NotReady => Labelled(w, requested, "") && (w.row.value.deleting || !w.row.value.ready)
    case ClaimFailed => true
  }

  predicate Free(w: World, uid: nat) { Labelled(w, uid, "") && !w.row.value.deleting && w.row.value.ready }

  predicate Unready(w: World, uid: nat) { Labelled(w, uid, "") && (w.row.value.deleting || !w.row.value.ready) }

  /** What an undisturbed attempt does. */
  ghost predicate UndisturbedOk(w: World, w': World, uid: nat, cluster: string, o: Interference, outcome: Option<ClaimOutcome>) {
    && (o.before == [] && Labelled(w, uid, cluster) ==> outcome == Some(Claimed) && w'.log == w.log)
    && (o.before == [] && Unready(w, uid) ==> outcome == Some(NotReady) && w'.log == w.log)
    && (o.before == [] && o.between == [] && Free(w, uid) ==>
          && w'.log == w.log + [ClaimLanded(uid, cluster)] && Labelled(w', uid, cluster)
          && (o.report == Truthful ==> outcome == Some(Claimed)) && (o.report == AsConflict ==> outcome == None))
  }

  /** What any attempt means; an outcome None asks for another. */
  ghost predicate AttemptOk(w: World, w': World, uid: nat, cluster: string, o: Interference, outcome: Option<ClaimOutcome>) {
    && w.log <= w'.log
    && (outcome.Some? ==> ClaimOutcomeOk(w', uid, cluster, outcome.value))
    && (outcome == Some(InUse) || outcome == Some(NotReady) ==> Holder(w'.log, uid) != cluster)
    && (outcome == Some(ClaimFailed) ==> o.report == AsError)
    && (outcome.None? ==> !Calm(o))
    && (Holder(w.log, uid) == cluster ==>
          outcome == Some(Claimed) || outcome == Some(NotFound) || LostSince(w, w', uid, cluster))
  }

  method ClaimAttempt(w: World, requested: nat, cluster: string, o: Interference)
    returns (w': World, outcome: Option<ClaimOutcome>)
    requires Inv(w) && cluster != ""
    ensures Inv(w') && AttemptOk(w, w', requested, cluster, o, outcome)
    ensures UndisturbedOk(w, w', requested, cluster, o, outcome)
  {
    w' := Reload(w, o.before);
    if w'.row.None? || w'.row.value.uid != requested { return w', Some(NotFound); }
    var read := w'.row.value;
    if read.claimedBy == cluster { return w', Some(Claimed); }
    if Holder(w.log, requested) == cluster { HeldOrLost(w, w', requested, cluster); }
    if read.claimedBy != "" { return w', Some(InUse); }
    if !ReadyForClaim(read) { return w', Some(NotReady); }
    ghost var loaded := w';
    var landed;
    w', landed := Save(w', o.between, SaveClaim(read, cluster));
    LostStays(w, loaded, w', requested, cluster);
    match o.report
    case AsError => return w', Some(ClaimFailed);
    case AsConflict => return w', None;
    case Truthful => return w', if landed then Some(Claimed) else None;
  }

  /** The state of the loop after n attempts. */
  ghost predicate Trying(w: World, w': World, uid: nat, cluster: string, others: seq<Interference>, n: nat)
    requires |others| == 5
  {
    && n <= 5 && w.log <= w'.log
    && (forall i :: 0 <= i < n ==> !Calm(others[i]))
    && (n == 0 ==> w' == w)
    && (n > 0 && Holder(w.log, uid) == cluster ==> LostSince(w, w', uid, cluster))
    && (n > 0 && Quiet(others) ==> !Unready(w, uid))
    && (n > 0 && Quiet(others) && Free(w, uid) ==>
          n == 1 && others[1].before == [] && Labelled(w', uid, cluster) && w'.log == w.log + [ClaimLanded(uid, cluster)])
  }

  /** What the loop's answer means. */
  ghost predicate ClaimOk(w: World, w': World, uid: nat, cluster: string, others: seq<Interference>, outcome: ClaimOutcome)
    requires |others| == 5
  {
    && w.log <= w'.log && ClaimOutcomeOk(w', uid, cluster, outcome)
    && (outcome == ClaimFailed ==> MayGiveUp(others))
    && (outcome == InUse || outcome == NotReady ==> Holder(w'.log, uid) != cluster)
    && (Holder(w.log, uid) == cluster && !LostSince(w, w', uid, cluster) ==> outcome == Claimed || outcome == NotFound)
    && (Quiet(others) && Unready(w, uid) ==> outcome == NotReady && w'.log == w.log)
    && (Quiet(others) && Free(w, uid) ==> outcome == Claimed && w'.log == w.log + [ClaimLanded(uid, cluster)])
  }

  lemma TryAgain(w: World, mid: World, w': World, uid: nat, cluster: string, others: seq<Interference>, n: nat)
    requires |others| == 5 && n < 5 && Trying(w, mid, uid, cluster, others, n)
    requires AttemptOk(mid, w', uid, cluster, others[n], None) && UndisturbedOk(mid, w', uid, cluster, others[n], None)
    ensures Trying(w, w', uid, cluster, others, n + 1)
  {
    LostStays(w, mid, w', uid, cluster);
  }

  lemma Answered(w: World, mid: World, w': World, uid: nat, cluster: string, others: seq<Interference>, n: nat, outcome: ClaimOutcome)
    requires |others| == 5 && n < 5 && Trying(w, mid, uid, cluster, others, n)
    requires AttemptOk(mid, w', uid, cluster, others[n], Some(outcome)) && UndisturbedOk(mid, w', uid, cluster, others[n], Some(outcome))
    ensures ClaimOk(w, w', uid, cluster, others, outcome)
  {
    LostStays(w, mid, w', uid, cluster);
  }

  /** claimResource: up to five attempts to load, check and save. */
  method ClaimResource(w: World, requested: nat, cluster: string, others: seq<Interference>)
    returns (w': World, outcome: ClaimOutcome)
    requires Inv(w) && cluster != "" && |others| == 5
    ensures Inv(w') && ClaimOk(w, w', requested, cluster, others, outcome)
  {
    w' := w;
    for attempt := 0 to ATTEMPTS
      invariant Inv(w') && Trying(w, w', requested, cluster, others, attempt)
    {
      var result;
      ghost var mid := w';
      w', result := ClaimAttempt(w', requested, cluster, others[attempt]);
      if result.Some? {
        Answered(w, mid, w', requested, cluster, others, attempt, result.value);
        return w', result.value;
      }
      TryAgain(w, mid, w', requested, cluster, others, attempt);
    }
    return w', ClaimFailed;
  }

  lemma LostStays(w: World, mid: World, later: World, uid: nat, cluster: string)
    requires w.log <= mid.log <= later.log
    ensures LostSince(w, mid, uid, cluster) ==> LostSince(w, later, uid, cluster)
  {
    if LostSince(w, mid, uid, cluster) {
      var i :| 0 <= i < |mid.log[|w.log|..]| && mid.log[|w.log|..][i] == ClaimReleased(uid, cluster);
      assert later.log[|w.log|..][i] == mid.log[|w.log| + i];
    }
  }

  ghost predicate ReleaseAttemptOk(w: World, w': World, uid: nat, cluster: string, o: Interference, outcome: Option<bool>) {
    && w.log <= w'.log
    && (outcome == Some(true) ==> !Labelled(w', uid, cluster))
    && (outcome == Some(false) ==> o.report == AsError)
    && (outcome.None? ==> !Calm(o))
    && (o.before == [] && !Labelled(w, uid, cluster) ==> outcome == Some(true) && w'.log == w.log)
    && (o.before == [] && o.between == [] && Labelled(w, uid, cluster) ==>
          && w'.log == w.log + [ClaimReleased(uid, cluster)] && Labelled(w', uid, "")
          && (o.report == Truthful ==> outcome == Some(true)) && (o.report == AsConflict ==> outcome == None))
  }

  method ReleaseAttempt(w: World, uid: nat, cluster: string, o: Interference) returns (w': World, outcome: Option<bool>)
    requires Inv(w) && cluster != ""
    ensures Inv(w') && ReleaseAttemptOk(w, w', uid, cluster, o, outcome)
  {
    w' := Reload(w, o.before);
    if w'.row.None? || w'.row.value.uid != uid || w'.row.value.claimedBy != cluster { return w', Some(true); }
    var read := w'.row.value;
    var landed;
    w', landed := Save(w', o.between, SaveRelease(read));
    match o.report
    case AsError => return w', Some(false);
    case AsConflict => return w', None;
    case Truthful => return w', if landed then Some(true) else None;
  }

  /** releaseDNSReservationClaim: when it succeeds, the cluster's label is off the incarnation. */
  method ReleaseClaim(w: World, uid: nat, cluster: string, others: seq<Interference>) returns (w': World, done: bool)
    requires Inv(w) && |others| == 5
    ensures Inv(w') && w.log <= w'.log
    ensures done && cluster != "" ==> !Labelled(w', uid, cluster)
    ensures !done ==> MayGiveUp(others)
    ensures Quiet(others) && cluster != "" && Labelled(w, uid, cluster) ==> done && w'.log == w.log + [ClaimReleased(uid, cluster)]
    ensures Quiet(others) && !Labelled(w, uid, cluster) ==> done && w'.log == w.log
  {
    w' := w;
    if cluster == "" { return w', true; }
    for attempt := 0 to ATTEMPTS
      invariant Inv(w') && w.log <= w'.log
      invariant forall i :: 0 <= i < attempt ==> !Calm(others[i])
      invariant attempt == 0 ==> w' == w
      invariant Quiet(others) && attempt > 0 ==>
        attempt == 1 && others[1].before == [] && Labelled(w, uid, cluster) && Labelled(w', uid, "")
        && w'.log == w.log + [ClaimReleased(uid, cluster)]
    {
      var result;
      w', result := ReleaseAttempt(w', uid, cluster, others[attempt]);
      if result.Some? { return w', result.value; }
    }
    return w', false;
  }

  datatype DeleteOutcome = Accepted(uid: nat) | NoSuchReservation | StillClaimed | DeleteFailed

  predicate DeleteOutcomeOk(w: World, outcome: DeleteOutcome) {
    match outcome
    case Accepted(uid) =>
      && ApiDeleted(uid) in w.log && Holder(w.log, uid) == ""
      && (w.row.Some? ==> w.row.value.uid == uid && w.row.value.deleting && w.row.value.claimedBy == "")
    case NoSuchReservation => w.row.None?
    case StillClaimed => w.row.Some? && w.row.value.claimedBy != ""
    case DeleteFailed => true
  }

  lemma LandedDeleteIsAccepted(w: World, read: Reservation, finalized: bool)
    requires Inv(w) && read.claimedBy == "" && w.row == Saved(SaveDelete(read, finalized))
    requires w.log != [] && w.log[|w.log| - 1] == ApiDeleted(read.uid)
    ensures DeleteOutcomeOk(w, Accepted(read.uid))
  {
    assert ApiDeleted(read.uid) in w.log;
    DeletedIsUnclaimed(w.log, read.uid);
  }

  /** One attempt to read, check the claim and delete that snapshot; None asks for another. */
  method DeleteAttempt(w: World, finalized: bool, o: Interference) returns (w': World, outcome: Option<DeleteOutcome>)
    requires Inv(w)
    ensures Inv(w') && w.log <= w'.log
    ensures outcome.Some? ==> DeleteOutcomeOk(w', outcome.value)
    ensures outcome == Some(DeleteFailed) ==> o.report == AsError
    ensures outcome.None? ==> !Calm(o)
    ensures o.before == [] && Calm(o) && w.row.Some? && w.row.value.claimedBy == "" ==>
      outcome == Some(Accepted(w.row.value.uid)) && w'.log == w.log + [ApiDeleted(w.row.value.uid)]
  {
    w' := Reload(w, o.before);
    if w'.row.None? { return w', Some(NoSuchReservation); }
    var read := w'.row.value;
    if read.claimedBy != "" { return w', Some(StillClaimed); }
    var landed;
    w', landed := Save(w', o.between, SaveDelete(read, finalized));
    if landed { LandedDeleteIsAccepted(w', read, finalized); }
    match o.report
    case AsError => return w', Some(DeleteFailed);
    case AsConflict => return w', None;
    case Truthful => return w', if landed then Some(Accepted(read.uid)) else None;
  }

  /** The handler's Delete: up to five attempts. */
  method DeleteReservation(w: World, finalized: bool, others: seq<Interference>)
    returns (w': World, outcome: DeleteOutcome)
    requires Inv(w) && |others| == 5
    ensures Inv(w') && w.log <= w'.log
    ensures DeleteOutcomeOk(w', outcome)
    ensures outcome == DeleteFailed ==> MayGiveUp(others)
    ensures others[0].before == [] && Calm(others[0]) && w.row.Some? && w.row.value.claimedBy == "" ==>
      outcome == Accepted(w.row.value.uid) && w'.log == w.log + [ApiDeleted(w.row.value.uid)]
  {
    w' := w;
    for attempt := 0 to ATTEMPTS
      invariant Inv(w') && w.log <= w'.log
      invariant forall i :: 0 <= i < attempt ==> !Calm(others[i])
      invariant attempt == 0 ==> w' == w
    {
      var result;
      w', result := DeleteAttempt(w', finalized, others[attempt]);
      if result.Some? { return w', result.value; }
    }
    return w', DeleteFailed;
  }
}
