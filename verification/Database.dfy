/** The writer and the compactor in the form of the code: methods that change the table in place. */
module Database {
  import opened Wrappers
  import opened Sql
  import opened Lifecycle
  import opened Protocol

  datatype WriteResult = Written(xid: nat, version: int, uid: nat) | Suppressed(version: int, uid: nat) | Failed(outcome: Outcome)

  /** contentChecker: the request carries exactly what the row already holds. */
  predicate SameContent(r: Row, w: Write) {
    match w
    case Create(_, _, _, _) => false
    case Replace(_, _, spec, status, metadata, deletion) =>
      r.spec == spec && status == Some(r.status) && r.metadata == metadata && r.deletion == deletion
    case StatusOnly(_, _, newStatus) => r.status == newStatus
    case ObjectOnly(_, _, spec, metadata, deletion) =>
      r.spec == spec && r.metadata == metadata && r.deletion == deletion
  }

  function ExpectedVersion(w: Write): int {
    if w.Create? then 0 else w.expected
  }

  function ExpectedUid(w: Write): Option<nat> {
    if w.Create? then None else w.expectedUid
  }

  class Store {
    var next: nat
    var active: set<nat>
    var table: map<Key, Row>
    var horizon: map<string, nat>
    var used: set<nat>

    function Value(): Db
      reads this
    {
      Db(next, active, table, horizon, used)
    }

    constructor ()
      ensures Value() == Initial()
    {
      next, active, table, horizon, used := 1, {}, map[], map[], {};
    }

    /** pg_current_xact_id() */
    method Begin() returns (xid: nat)
      modifies this
      ensures Value() == Apply(old(Value()), Acquire) && xid == old(next)
    {
      xid := next;
      active := active + {next};
      next := next + 1;
    }

    /** The upsert of one transaction and its COMMIT, or its ROLLBACK when the upsert fails. */
    method UpsertAndCommit(xid: nat, k: Key, w: Write, uid: nat) returns (o: Outcome)
      requires xid in active && uid !in used && RegularWrite(w)
      modifies this
      ensures o == Upsert(old(table), k, w, xid, uid)
      ensures o.Committed? ==> table == old(table)[k := o.row] && Stores(old(table), k, w, xid, uid, o.row)
      ensures o.Committed? ==> Value() == Apply(old(Value()), Commit(xid, k, w, uid))
      ensures !o.Committed? ==> Value() == Apply(old(Value()), Finish(xid))
    {
      UpsertOutcomes(table, k, w, xid, uid);
      active := active - {xid};
      if w.Create? {
        if w.status.None? {
          return Rejected;
        }
        if k !in table {
          o := Committed(Row(uid, xid, 1, w.spec, w.status.value, w.metadata, w.deletion));
        } else if TombstoneFilter(table[k]) == True {
          o := Committed(Row(uid, xid, 1, w.spec, w.status.value, w.metadata, None));
        } else {
          return AlreadyExists;
        }
      } else if w.expected == 0 {
        return Rejected;
      } else if k !in table || table[k].version != w.expected || (w.expectedUid.Some? && table[k].uid != w.expectedUid.value) {
        return Conflict;
      } else {
        var row := table[k].(stamp := xid, version := table[k].version + 1);
        if w.StatusOnly? {
          row := row.(status := w.newStatus);
        } else {
          row := row.(spec := w.spec, metadata := w.metadata, deletion := w.deletion);
          if w.Replace? && w.status.Some? { row := row.(status := w.status.value); }
        }
        o := Committed(row);
      }
      table := table[k := o.row];
      used := used + {uid};
    }

    /** execWriteInner: the suppression check, then a transaction. */
    method ExecWrite(k: Key, w: Write, forceWrite: bool, uid: nat) returns (r: WriteResult)
      requires uid !in used && RegularWrite(w)
      modifies this
      ensures r.Suppressed? <==>
        && !forceWrite && ExpectedVersion(w) > 0
        && CasMatches(old(table), k, ExpectedVersion(w), ExpectedUid(w)) && SameContent(old(table)[k], w)
      ensures r.Suppressed? ==> unchanged(this) && r.version == table[k].version && r.uid == table[k].uid
      ensures r.Written? ==>
        && r.xid == old(next) && Upsert(old(table), k, w, r.xid, uid).Committed?
        && Value() == Apply(Apply(old(Value()), Acquire), Commit(r.xid, k, w, uid))
        && k in table && Stores(old(table), k, w, r.xid, uid, table[k])
        && table[k].stamp == r.xid && table[k].version == r.version && table[k].uid == r.uid
      ensures r.Failed? ==>
        && table == old(table) && horizon == old(horizon)
        && !r.outcome.Committed? && r.outcome == Upsert(old(table), k, w, old(next), uid)
    {
      if !forceWrite && ExpectedVersion(w) > 0 && k in table {
        var existing := table[k];
        if existing.version != ExpectedVersion(w) || (ExpectedUid(w).Some? && existing.uid != ExpectedUid(w).value) {
          return Failed(Conflict);
        }
        if SameContent(existing, w) {
          return Suppressed(existing.version, existing.uid);
        }
      }
      var xid := Begin();
      var o := UpsertAndCommit(xid, k, w, uid);
      if !o.Committed? { return Failed(o); }
      return Written(xid, o.row.version, o.row.uid);
    }

    /** The compaction statement: deletes the given tombstones and raises the horizons of their GVKs. */
    method CompactTombstones(victims: seq<Key>)
      requires Enabled(Value(), Compact(victims))
      modifies this
      ensures Value() == Apply(old(Value()), Compact(victims))
    {
      ghost var before, done := Value(), {};
      for i := 0 to |victims|
        invariant next == before.next && active == before.active && used == before.used
        invariant done == KeySet(victims[..i])
        invariant table == before.table - done
        invariant horizon == RaiseAll(before.horizon, before.table, victims[..i])
      {
        var k := victims[i];
        NextVictim(victims, i);
        RaiseAllNext(before.horizon, before.table, victims, i);
        if k.gvk !in horizon || horizon[k.gvk] < table[k].stamp {
          horizon := horizon[k.gvk := table[k].stamp];
        }
        table := table - {k};
        done := done + {k};
      }
      assert victims[..|victims|] == victims;
    }

    /**
     * ReadBack after any history: a row comes back exactly if transaction xid did commit
     * to k and nothing has touched the row since, and it is then the row it committed.
     */
    method ReadBack(k: Key, xid: nat, ghost history: seq<Step>) returns (r: Option<Row>)
      requires Runs(Initial(), history) && Value() == Exec(Initial(), history)
      ensures r.Some? <==> exists i :: LastCommit(history, i, k, xid)
      ensures r.Some? ==> r.value.stamp == xid && k in table && r.value == table[k]
    {
      StampTells(Initial(), history, k, xid);
      if k in table && table[k].stamp == xid { return Some(table[k]); }
      return None;
    }
  }

  /**
   * Suppression is exact.  A write is taken for a repetition if and only if it would
   * commit and change nothing but stamp and version; a full write without a status is
   * never suppressed, although it keeps the old one.
   */
  lemma SuppressedWriteIsNoOp(table: map<Key, Row>, k: Key, w: Write, xid: nat, uid: nat)
    requires !w.Create? && w.expected != 0 && CasMatches(table, k, w.expected, w.expectedUid)
    ensures var o := Upsert(table, k, w, xid, uid);
      SameContent(table[k], w) <==>
        && o.Committed? && o.row == table[k].(stamp := xid, version := table[k].version + 1)
        && !(w.Replace? && w.status.None?)
    ensures SameContent(table[k], w) ==> ListFilter(Upsert(table, k, w, xid, uid).row) == ListFilter(table[k])
  {
    UpsertOutcomes(table, k, w, xid, uid);
  }

  lemma RaiseAllNext(horizon: map<string, nat>, table: map<Key, Row>, victims: seq<Key>, i: nat)
    requires i < |victims| && forall k :: k in victims ==> k in table
    ensures victims[i] in table
    ensures RaiseAll(horizon, table, victims[..i + 1]) ==
      Raise(RaiseAll(horizon, table, victims[..i]), victims[i].gvk, table[victims[i]].stamp)
  {
    assert victims[..i + 1][..i] == victims[..i];
  }

  function KeySet(keys: seq<Key>): set<Key> { set k | k in keys }

  lemma NextVictim(victims: seq<Key>, i: nat)
    requires i < |victims| && Distinct(victims)
    ensures victims[i] !in victims[..i]
    ensures KeySet(victims[..i + 1]) == KeySet(victims[..i]) + {victims[i]}
  {
    assert victims[..i + 1] == victims[..i] + [victims[i]];
  }
}
