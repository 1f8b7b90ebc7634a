/** The poll and the relay in the form of the code: loops that advance hwm and the stamped version. */
module WatchLoop {
  import opened Wrappers
  import opened Sql
  import opened Lifecycle
  import opened Protocol
  import opened Watch
  import opened Resume

  datatype Event = Event(kind: EventType, key: Key, row: Row)

  datatype PollResult = Events(events: seq<Event>) | ErrGone

  /** A relayed event with its composite resource version. */
  datatype WatchEvent = WatchEvent(kind: EventType, key: Key, row: Row, objectVersion: int, watermark: nat)

  ghost predicate EventsOf(events: seq<Event>, table: map<Key, Row>, keys: seq<Key>) {
    && |events| == |keys|
    && forall i :: 0 <= i < |keys| ==> keys[i] in table && events[i] == Event(ReaderEvent(table[keys[i]]), keys[i], table[keys[i]])
  }

  class Poller {
    const scope: Scope
    var hwm: nat

    constructor (scope: Scope, start: nat)
      ensures this.scope == scope && hwm == start
    {
      this.scope, hwm := scope, start;
    }

    /** pollAll on one snapshot; scan is the result of its row query. */
    method PollAll(db: Db, xmin: nat, scan: seq<Key>, ghost view: map<Key, Row>) returns (r: PollResult)
      requires xmin == Xmin(db) && IsScan(db, Watcher(scope, hwm, view), scan)
      modifies this
      ensures r.ErrGone? <==> Gone(db, Watcher(scope, old(hwm), view))
      ensures r.ErrGone? ==> hwm == old(hwm)
      ensures r.Events? ==> hwm == PollHwm(db, Watcher(scope, old(hwm), view)) && EventsOf(r.events, db.table, scan)
    {
      if scope.gvk in db.horizon && hwm < db.horizon[scope.gvk] {
        return ErrGone;
      }
      var events := [];
      for i := 0 to |scan|
        invariant EventsOf(events, db.table, scan[..i])
      {
        assert Selected(db, Watcher(scope, hwm, view), scan[i]);
        var row := db.table[scan[i]];
        var kind: EventType;
        if row.deletion.Some? {
          kind := Deleted;
        } else if row.version == 1 {
          kind := Added;
        } else {
          kind := Modified;
        }
        events := events + [Event(kind, scan[i], row)];
        assert scan[..i + 1] == scan[..i] + [scan[i]];
      }
      assert scan[..|scan|] == scan;
      if xmin > 0 && xmin - 1 > hwm {
        hwm := xmin - 1;
      }
      return Events(events);
    }
  }

  /** The i-th relayed event: the row as read, its type reclassified, and the largest stamp so far. */
  ghost predicate IsRelayed(e: WatchEvent, start: nat, table: map<Key, Row>, keys: seq<Key>, i: nat)
    requires i < |keys| && forall k :: k in keys ==> k in table
  {
    e == WatchEvent(RelayEvent(table[keys[i]]), keys[i], table[keys[i]], table[keys[i]].version,
                    RelayMark(start, table, keys[..i + 1]))
  }

  lemma RelayMarkNext(start: nat, table: map<Key, Row>, keys: seq<Key>, i: nat)
    requires i < |keys| && forall k :: k in keys ==> k in table
    ensures var before, stamp := RelayMark(start, table, keys[..i]), table[keys[i]].stamp;
      RelayMark(start, table, keys[..i + 1]) == if stamp > before then stamp else before
  {
    assert keys[..i + 1][..i] == keys[..i];
  }

  class Relay {
    var watermark: nat

    constructor (start: nat)
      ensures watermark == start
    {
      watermark := start;
    }

    /** relay: stamps each event with the largest stamp so far and reclassifies dying objects. */
    method RelayAll(events: seq<Event>, ghost table: map<Key, Row>, ghost keys: seq<Key>) returns (out: seq<WatchEvent>)
      requires EventsOf(events, table, keys)
      modifies this
      ensures watermark == RelayMark(old(watermark), table, keys)
      ensures |out| == |keys|
      ensures forall i :: 0 <= i < |out| ==> IsRelayed(out[i], old(watermark), table, keys, i)
    {
      out := [];
      for i := 0 to |events|
        invariant |out| == i
        invariant watermark == RelayMark(old(watermark), table, keys[..i])
        invariant forall j :: 0 <= j < i ==> IsRelayed(out[j], old(watermark), table, keys, j)
      {
        var ev := events[i];
        RelayMarkNext(old(watermark), table, keys, i);
        if ev.row.stamp > watermark {
          watermark := ev.row.stamp;
        }
        var kind := ev.kind;
        if kind == Deleted && HasFinalizers(ev.row) {
          kind := Modified;
        }
        out := out + [WatchEvent(kind, ev.key, ev.row, ev.row.version, watermark)];
      }
      assert keys[..|events|] == keys;
    }
  }

  /** The informer folds relayed events into its store. */
  method Fold(store: map<Key, Row>, out: seq<WatchEvent>, ghost table: map<Key, Row>, ghost keys: seq<Key>)
    returns (result: map<Key, Row>)
    requires |out| == |keys|
    requires forall i :: 0 <= i < |out| ==> keys[i] in table && out[i].key == keys[i] && out[i].row == table[keys[i]]
    requires forall i :: 0 <= i < |out| ==> out[i].kind == RelayEvent(table[keys[i]])
    ensures result == Delivered(store, table, keys)
  {
    result := store;
    for i := 0 to |out|
      invariant result == Delivered(store, table, keys[..i])
    {
      if out[i].kind == Deleted {
        result := result - {out[i].key};
      } else {
        result := result[out[i].key := out[i].row];
      }
      assert keys[..i + 1][..i] == keys[..i];
    }
    assert keys[..|out|] == keys;
  }

  /**
   * One cycle of the code, poll, relay and informer together: refused, or the store
   * is what List returns on the poll's snapshot and the watcher keeps tracking.
   */
  method Cycle(poller: Poller, relay: Relay, store: map<Key, Row>, db: Db, xmin: nat, scan: seq<Key>)
    returns (gone: bool, result: map<Key, Row>)
    requires Inv(db) && xmin == Xmin(db)
    requires Tracks(db, Watcher(poller.scope, poller.hwm, store))
    requires IsScan(db, Watcher(poller.scope, poller.hwm, store), scan)
    modifies poller, relay
    ensures gone <==> Gone(db, Watcher(poller.scope, old(poller.hwm), store))
    ensures gone ==> result == store && poller.hwm == old(poller.hwm)
    ensures !gone ==> result == Listed(db.table, poller.scope) && Tracks(db, Watcher(poller.scope, poller.hwm, result))
  {
    var r := poller.PollAll(db, xmin, scan, store);
    if r.ErrGone? { return true, store; }
    ghost var w := Watcher(poller.scope, old(poller.hwm), store);
    var out := relay.RelayAll(r.events, db.table, scan);
    result := Fold(store, out, db.table, scan);
    DeliveryIsPollView(db, w, scan);
    PollEqualsList(db, w);
    PollTracks(db, w);
    gone := false;
  }
}
