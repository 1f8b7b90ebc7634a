/** Sharding by namespace hash: the same predicate in List and Watch, and replicas that partition the rows. */
module Shards {
  import opened Wrappers
  import opened Sql
  import opened Lifecycle
  import opened Protocol
  import opened Watch
  import opened Selectors
  import opened Queries

  datatype ShardSpec = ShardSpec(mod: int, owned: seq<int>)

  predicate Valid(s: ShardSpec) {
    && s.mod > 0 && s.owned != []
    && (forall r :: r in s.owned ==> 0 <= r < s.mod)
    && Distinct(s.owned)
  }

  method Validate(s: ShardSpec) returns (ok: bool)
    ensures ok <==> Valid(s)
  {
    if s.mod <= 0 || |s.owned| == 0 { return false; }
    var seen: set<int> := {};
    for i := 0 to |s.owned|
      invariant seen == set r | r in s.owned[..i]
      invariant forall r :: r in s.owned[..i] ==> 0 <= r < s.mod
      invariant Distinct(s.owned[..i])
    {
      var r := s.owned[i];
      if r < 0 || r >= s.mod || r in seen {
        if r in seen {
          var j :| 0 <= j < i && s.owned[..i][j] == r;
          assert s.owned[j] == s.owned[i];
        } else {
          assert s.owned[i] in s.owned;
        }
        return false;
      }
      assert s.owned[..i + 1] == s.owned[..i] + [r];
      seen := seen + {r};
    }
    assert s.owned[..|s.owned|] == s.owned;
    return true;
  }

  /** The replica owns the namespace with this hash. */
  predicate Owns(s: ShardSpec, hash: int)
    requires s.mod > 0
  {
    (if hash < 0 then 0 - hash else hash) % s.mod in s.owned
  }

  function ShardArgs(s: ShardSpec): seq<Arg> { [Number(s.mod), Residues(s.owned)] }

  /** AppendQuery on the watcher's arguments: the GVK and the high-water mark. */
  function WatchArgs(s: ShardSpec, gvk: string, hwm: nat): seq<Arg> {
    [Text(gvk), Number(hwm)] + ShardArgs(s)
  }

  function WatchClause(): Clause { ShardOwns(3, 4) }

  /** ToListFilter: its placeholders follow the GVK. */
  function ToListFilter(s: ShardSpec): Filter {
    Filter([ShardOwns(2, 3)], ShardArgs(s), 0, 0)
  }

  /** List and Watch apply the same predicate, whatever the numbering. */
  lemma OnePredicate(s: ShardSpec, gvk: string, hwm: nat, row: Columns)
    requires Valid(s)
    ensures Eval(WatchClause(), row, WatchArgs(s, gvk, hwm)) == Truth(Owns(s, row.hash))
    ensures var q := ListQuery(gvk, Built(ToListFilter(s)));
      EvalAll(q.clauses, row, q.args) == Truth(Owns(s, row.hash))
  {
    var q := ListQuery(gvk, Built(ToListFilter(s)));
    EvalAllCons(ShardOwns(2, 3), [], row, q.args);
    assert q.args[1] == Number(s.mod) && q.args[2] == Residues(s.owned);
    assert WatchArgs(s, gvk, hwm)[2] == Number(s.mod) && WatchArgs(s, gvk, hwm)[3] == Residues(s.owned);
  }

  ghost predicate OwnedBySome(specs: seq<ShardSpec>, r: int) {
    exists i :: 0 <= i < |specs| && r in specs[i].owned
  }

  /** Replicas with one modulus whose residues partition [0, mod): invariant I7 and no overlap. */
  ghost predicate Partition(mod: int, specs: seq<ShardSpec>) {
    && (forall i :: 0 <= i < |specs| ==> Valid(specs[i]) && specs[i].mod == mod)
    && (forall r :: 0 <= r < mod ==> OwnedBySome(specs, r))
    && (forall i, j :: 0 <= i < j < |specs| ==> forall r :: r in specs[i].owned ==> r !in specs[j].owned)
  }

  /** n replicas, replica i with residue i. */
  lemma OneResidueEach(n: nat)
    requires n > 0
    ensures Partition(n, seq(n, (i: nat) => ShardSpec(n, [i])))
  {
    var specs := seq(n, (i: nat) => ShardSpec(n, [i]));
    forall r | 0 <= r < n ensures OwnedBySome(specs, r) {
      assert r in specs[r].owned;
    }
  }

  /** w watches one GVK restricted to the namespaces of shard s, under hash function h. */
  ghost predicate Covers(w: Watcher, gvk: string, s: ShardSpec, h: string -> int)
    requires s.mod > 0
  {
    w.scope.gvk == gvk && forall ns :: w.scope.owns(ns) <==> Owns(s, h(ns))
  }

  function Merge(views: seq<map<Key, Row>>): map<Key, Row> {
    if views == [] then map[] else Merge(views[..|views| - 1]) + views[|views| - 1]
  }

  lemma {:induction false} MergeOn(views: seq<map<Key, Row>>, k: Key)
    ensures k in Merge(views) <==> exists i :: 0 <= i < |views| && k in views[i]
    ensures k in Merge(views) ==> exists i :: 0 <= i < |views| && k in views[i] && views[i][k] == Merge(views)[k]
  {
    if views != [] {
      var front, last := views[..|views| - 1], |views| - 1;
      MergeOn(front, k);
      if k in views[last] {
        assert views[last][k] == Merge(views)[k];
      } else if k in Merge(views) {
        var i :| 0 <= i < |front| && k in front[i] && front[i][k] == Merge(front)[k];
        assert views[i] == front[i];
      }
    }
  }

  /** The stores of all replicas after polls on one snapshot. */
  ghost function PollViews(db: Db, ws: seq<Watcher>): seq<map<Key, Row>> {
    seq(|ws|, i requires 0 <= i < |ws| => PollView(db, ws[i]))
  }

  /**
   * The replicas' stores, polled at a common snapshot, are disjoint and together
   * are what an unsharded List returns: every object is held by exactly one replica.
   */
  lemma ReplicasPartitionTheView(db: Db, gvk: string, mod: int, specs: seq<ShardSpec>, h: string -> int, ws: seq<Watcher>)
    requires Inv(db) && mod > 0 && Partition(mod, specs) && |ws| == |specs|
    requires forall i :: 0 <= i < |ws| ==> Covers(ws[i], gvk, specs[i], h) && Tracks(db, ws[i]) && !Gone(db, ws[i])
    ensures forall i, j :: 0 <= i < j < |ws| ==> PollView(db, ws[i]).Keys !! PollView(db, ws[j]).Keys
    ensures Merge(PollViews(db, ws)) == Listed(db.table, Scope(gvk, _ => true))
  {
    var views := PollViews(db, ws);
    forall i | 0 <= i < |ws| ensures views[i] == Listed(db.table, ws[i].scope) {
      PollEqualsList(db, ws[i]);
    }
    forall i, j | 0 <= i < j < |ws| ensures PollView(db, ws[i]).Keys !! PollView(db, ws[j]).Keys {
      ShardsAreDisjoint(db.table, specs[i], specs[j], h, ws[i], ws[j]);
      assert views[i] == PollView(db, ws[i]) && views[j] == PollView(db, ws[j]);
    }
    forall k
      ensures k in Merge(views) <==> k in Listed(db.table, Scope(gvk, _ => true))
      ensures k in Merge(views) ==> Merge(views)[k] == db.table[k]
    {
      MergedOn(db, gvk, mod, specs, h, ws, views, k);
    }
  }

  lemma MergedOn(db: Db, gvk: string, mod: int, specs: seq<ShardSpec>, h: string -> int, ws: seq<Watcher>,
                 views: seq<map<Key, Row>>, k: Key)
    requires mod > 0 && Partition(mod, specs) && |ws| == |specs| == |views|
    requires forall i :: 0 <= i < |ws| ==> Covers(ws[i], gvk, specs[i], h) && views[i] == Listed(db.table, ws[i].scope)
    ensures k in Merge(views) <==> k in Listed(db.table, Scope(gvk, _ => true))
    ensures k in Merge(views) ==> Merge(views)[k] == db.table[k]
  {
    MergeOn(views, k);
    if k in Listed(db.table, Scope(gvk, _ => true)) {
      var r := Abs(h(k.namespace)) % mod;
      assert OwnedBySome(specs, r);
      var i :| 0 <= i < |specs| && r in specs[i].owned;
      assert Owns(specs[i], h(k.namespace));
      assert k in views[i];
    }
  }

  lemma ShardsAreDisjoint(table: map<Key, Row>, s: ShardSpec, t: ShardSpec, h: string -> int, w: Watcher, v: Watcher)
    requires s.mod == t.mod > 0 && (forall r :: r in s.owned ==> r !in t.owned)
    requires Covers(w, w.scope.gvk, s, h) && Covers(v, v.scope.gvk, t, h)
    ensures Listed(table, w.scope).Keys !! Listed(table, v.scope).Keys
  {
    forall k | k in Listed(table, w.scope) ensures k !in Listed(table, v.scope) {
      assert Owns(s, h(k.namespace));
      assert !Owns(t, h(k.namespace));
    }
  }
}
