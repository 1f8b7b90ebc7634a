/**
 * PreserveServiceSet: after a merge, every platform-managed field of the candidate
 * is put back to its stored value, one field at a time in map iteration order.
 */
module Preserve {
  import opened Wrappers

  /** Decoded JSON; Leaf stands for scalars and arrays. */
  datatype Json = Null | Leaf(text: string) | Obj(fields: map<string, Json>)

  type Path = seq<string>

  function Lookup(t: Json, p: Path): Option<Json>
    decreases |p|
  {
    if p == [] then Some(t)
    else if t.Obj? && p[0] in t.fields then Lookup(t.fields[p[0]], p[1..])
    else None
  }

  datatype Written = Done(fields: map<string, Json>) | NotAnObject

  /** setPath: writes the value, or deletes it when there is none, creating objects on the way. */
  function SetPath(m: map<string, Json>, p: Path, value: Option<Json>): Written
    requires p != []
    decreases |p|
  {
    if |p| == 1 then Done(if value.None? then m - {p[0]} else m[p[0] := value.value])
    else if p[0] !in m || m[p[0]].Null? then
      if value.None? then Done(m)
      else
        var child := SetPath(map[], p[1..], value);
        if child.NotAnObject? then NotAnObject else Done(m[p[0] := Obj(child.fields)])
    else if !m[p[0]].Obj? then NotAnObject
    else
      var child := SetPath(m[p[0]].fields, p[1..], value);
      if child.NotAnObject? then NotAnObject else Done(m[p[0] := Obj(child.fields)])
  }

  /** One iteration of the loop. */
  function Restore(got: map<string, Json>, want: Json, p: Path): Written
    requires p != []
  {
    if Lookup(want, p) == Lookup(Obj(got), p) then Done(got) else SetPath(got, p, Lookup(want, p))
  }

  function RestoreAll(got: map<string, Json>, want: Json, order: seq<Path>): Written
    requires [] !in order
  {
    if order == [] then Done(got)
    else
      var before := RestoreAll(got, want, order[..|order| - 1]);
      if before.NotAnObject? then NotAnObject else Restore(before.fields, want, order[|order| - 1])
  }

  // ---- Trees are determined by what is at each path ----

  datatype Shape = Absent | NullShape | LeafShape(text: string) | ObjShape

  function ShapeAt(t: Json, p: Path): Shape {
    match Lookup(t, p)
    case None => Absent
    case Some(Null) => NullShape
    case Some(Leaf(text)) => LeafShape(text)
    case Some(Obj(_)) => ObjShape
  }

  lemma ShapeBelow(t: Json, q: Path)
    requires q != []
    ensures ShapeAt(t, q) == (if t.Obj? && q[0] in t.fields then ShapeAt(t.fields[q[0]], q[1..]) else Absent)
  {
  }

  lemma {:induction false} LookupAppend(t: Json, p: Path, q: Path)
    ensures Lookup(t, p + q) == (if Lookup(t, p).None? then None else Lookup(Lookup(t, p).value, q))
    decreases |p|
  {
    if p == [] {
      assert p + q == q;
    } else {
      assert (p + q)[1..] == p[1..] + q;
      if t.Obj? && p[0] in t.fields { LookupAppend(t.fields[p[0]], p[1..], q); }
    }
  }

  lemma {:induction false} SameShapesSameTree(a: Json, b: Json)
    requires forall p :: ShapeAt(a, p) == ShapeAt(b, p)
    ensures a == b
    decreases a
  {
    assert ShapeAt(a, []) == ShapeAt(b, []);
    if a.Obj? {
      forall k
        ensures k in a.fields <==> k in b.fields
        ensures k in a.fields ==> a.fields[k] == b.fields[k]
      {
        assert ShapeAt(a, [k]) == ShapeAt(b, [k]);
        ShapeBelow(a, [k]);
        ShapeBelow(b, [k]);
        if k in a.fields {
          forall p ensures ShapeAt(a.fields[k], p) == ShapeAt(b.fields[k], p) {
            assert ShapeAt(a, [k] + p) == ShapeAt(b, [k] + p);
            LookupAppend(a, [k], p);
            LookupAppend(b, [k], p);
          }
          SameShapesSameTree(a.fields[k], b.fields[k]);
        }
      }
    }
  }

  // ---- What one write does ----

  predicate Above(q: Path, p: Path) { q <= p && q != p }

  /** The shape a write to p leaves at q. */
  function ShapeAfterSet(m: map<string, Json>, p: Path, value: Option<Json>, q: Path): Shape {
    if p <= q then (if value.None? then Absent else ShapeAt(value.value, q[|p|..]))
    else if Above(q, p) && value.Some? then ObjShape
    else ShapeAt(Obj(m), q)
  }

  lemma {:induction false} SetPathShape(m: map<string, Json>, p: Path, value: Option<Json>, q: Path)
    requires p != [] && SetPath(m, p, value).Done?
    ensures ShapeAt(Obj(SetPath(m, p, value).fields), q) == ShapeAfterSet(m, p, value, q)
    decreases |p|
  {
    var after := SetPath(m, p, value).fields;
    if q != [] {
      ShapeBelow(Obj(m), q);
      ShapeBelow(Obj(after), q);
      if q[0] != p[0] {
        assert !(p <= q) && !Above(q, p);
      } else if |p| == 1 {
        assert p <= q;
      } else {
        PrefixBelow(p, q);
        var isObj := p[0] in m && m[p[0]].Obj?;
        if isObj || value.Some? {
          var child := if isObj then m[p[0]].fields else map[];
          SetPathShape(child, p[1..], value, q[1..]);
          if q[1..] != [] { ShapeBelow(Obj(map[]), q[1..]); }
        }
        if p[0] in m && q[1..] != [] { ShapeBelow(m[p[0]], q[1..]); }
      }
    }
  }

  lemma PrefixBelow(p: Path, q: Path)
    requires p != [] && q != [] && p[0] == q[0]
    ensures p <= q <==> p[1..] <= q[1..]
    ensures Above(p, q) <==> Above(p[1..], q[1..])
    ensures Above(q, p) <==> Above(q[1..], p[1..])
    ensures p <= q ==> q[|p|..] == q[1..][|p| - 1..]
  {
    assert p == [p[0]] + p[1..] && q == [q[0]] + q[1..];
  }

  /** A write fails exactly when something strictly above p is a scalar or an array. */
  lemma {:induction false} SetPathFails(m: map<string, Json>, p: Path, value: Option<Json>)
    requires p != []
    ensures SetPath(m, p, value).NotAnObject? <==> exists q :: Above(q, p) && ShapeAt(Obj(m), q).LeafShape?
    decreases |p|
  {
    var below: map<string, Json> := if p[0] in m && m[p[0]].Obj? then m[p[0]].fields else map[];
    if |p| > 1 { SetPathFails(below, p[1..], value); }
    forall q | Above(q, p) && q != []
      ensures |p| > 1 && q[0] == p[0] && Above(q[1..], p[1..])
      ensures ShapeAt(Obj(m), q).LeafShape? ==> SetPath(m, p, value).NotAnObject?
    {
      PrefixBelow(q, p);
      ShapeBelow(Obj(m), q);
      if p[0] in m && q[1..] != [] { ShapeBelow(m[p[0]], q[1..]); }
      assert ShapeAt(Obj(below), q[1..]).LeafShape? ==> SetPath(below, p[1..], value).NotAnObject?;
    }
    if SetPath(m, p, value).NotAnObject? {
      if p[0] in m && m[p[0]].Leaf? {
        ShapeBelow(Obj(m), [p[0]]);
        assert Above([p[0]], p) && ShapeAt(Obj(m), [p[0]]).LeafShape?;
      } else {
        var q :| Above(q, p[1..]) && ShapeAt(Obj(below), q).LeafShape?;
        if q != [] { ShapeBelow(Obj(below), q); }
        PrefixBelow([p[0]] + q, p);
        ShapeBelow(Obj(m), [p[0]] + q);
        assert ([p[0]] + q)[1..] == q;
        assert Above([p[0]] + q, p) && ShapeAt(Obj(m), [p[0]] + q).LeafShape?;
      }
    }
  }

  // ---- What the loop does ----

  predicate Present(want: Json, p: Path) { Lookup(want, p).Some? }

  /**
   * The shape at q once the fields in done were restored, in whatever order: the
   * stored one below a restored field, an object above a restored field that is
   * stored, and the candidate's own everywhere else.
   */
  ghost function Final(got: Json, want: Json, done: set<Path>, q: Path): Shape {
    if exists p :: p in done && p <= q then ShapeAt(want, q)
    else if exists p :: p in done && Above(q, p) && Present(want, p) then ObjShape
    else ShapeAt(got, q)
  }

  lemma PresentBelowObject(t: Json, q: Path, p: Path)
    requires Above(q, p) && Present(t, p)
    ensures ShapeAt(t, q) == ObjShape
  {
    var rest := p[|q|..];
    assert p == q + rest && rest != [];
    LookupAppend(t, q, rest);
  }

  lemma RestoreShape(got: map<string, Json>, want: Json, p: Path, q: Path)
    requires p != [] && Restore(got, want, p).Done?
    ensures ShapeAt(Obj(Restore(got, want, p).fields), q) ==
      if p <= q then ShapeAt(want, q)
      else if Above(q, p) && Present(want, p) then ObjShape
      else ShapeAt(Obj(got), q)
  {
    if p <= q {
      assert q == p + q[|p|..];
      LookupAppend(want, p, q[|p|..]);
      LookupAppend(Obj(got), p, q[|p|..]);
    }
    if Lookup(want, p) == Lookup(Obj(got), p) {
      if Above(q, p) && Present(want, p) { PresentBelowObject(Obj(got), q, p); }
    } else {
      SetPathShape(got, p, Lookup(want, p), q);
    }
  }

  function Elements(order: seq<Path>): set<Path> { set p | p in order }

  /** What the loop leaves at every path depends on the set of fields only. */
  lemma {:induction false} LoopShape(got: map<string, Json>, want: Json, order: seq<Path>, q: Path)
    requires [] !in order && RestoreAll(got, want, order).Done?
    ensures ShapeAt(Obj(RestoreAll(got, want, order).fields), q) == Final(Obj(got), want, Elements(order), q)
    decreases |order|
  {
    if order != [] {
      var front, last := order[..|order| - 1], order[|order| - 1];
      var before := RestoreAll(got, want, front).fields;
      LoopShape(got, want, front, q);
      RestoreShape(before, want, last, q);
      assert Elements(order) == Elements(front) + {last};
      if Above(q, last) && Present(want, last) { PresentBelowObject(want, q, last); }
    }
  }

  /** Two iteration orders that both succeed give the same candidate. */
  lemma OrderDoesNotMatter(got: map<string, Json>, want: Json, order: seq<Path>, other: seq<Path>)
    requires [] !in order && [] !in other && Elements(order) == Elements(other)
    requires RestoreAll(got, want, order).Done? && RestoreAll(got, want, other).Done?
    ensures RestoreAll(got, want, order) == RestoreAll(got, want, other)
  {
    var a, b := Obj(RestoreAll(got, want, order).fields), Obj(RestoreAll(got, want, other).fields);
    forall q ensures ShapeAt(a, q) == ShapeAt(b, q) {
      LoopShape(got, want, order, q);
      LoopShape(got, want, other, q);
    }
    SameShapesSameTree(a, b);
  }

  /** Every restored field holds exactly its stored value or absence, nested restored fields included. */
  lemma RestoredFieldsEqualStored(got: map<string, Json>, want: Json, order: seq<Path>, p: Path)
    requires [] !in order && RestoreAll(got, want, order).Done?
    requires exists d :: d in order && d <= p
    ensures Lookup(Obj(RestoreAll(got, want, order).fields), p) == Lookup(want, p)
  {
    var after := Obj(RestoreAll(got, want, order).fields);
    var d :| d in order && d <= p;
    forall q ensures ShapeAt(after, p + q) == ShapeAt(want, p + q) {
      LoopShape(got, want, order, p + q);
      assert d in Elements(order) && d <= p + q;
    }
    assert p + [] == p;
    assert ShapeAt(after, p + []) == ShapeAt(want, p + []);
    if Lookup(want, p).Some? {
      var a, b := Lookup(after, p).value, Lookup(want, p).value;
      forall q ensures ShapeAt(a, q) == ShapeAt(b, q) {
        LookupAppend(after, p, q);
        LookupAppend(want, p, q);
        assert ShapeAt(after, p + q) == ShapeAt(want, p + q);
      }
      SameShapesSameTree(a, b);
    }
  }

  lemma PrefixOfAppend(d: Path, p: Path, q: Path)
    ensures d <= p + q ==> d <= p || p <= d
    ensures p + q <= d ==> p <= d
  {
    if d <= p + q && |d| <= |p| { assert d <= p; }
  }

  /** A path that no restored field is above, at or below keeps what the candidate had. */
  lemma OtherPathsAreUntouched(got: map<string, Json>, want: Json, order: seq<Path>, p: Path)
    requires [] !in order && RestoreAll(got, want, order).Done?
    requires forall d :: d in order ==> !(d <= p) && !(p <= d)
    ensures Lookup(Obj(RestoreAll(got, want, order).fields), p) == Lookup(Obj(got), p)
  {
    var after, before := Obj(RestoreAll(got, want, order).fields), Obj(got);
    forall q ensures ShapeAt(after, p + q) == ShapeAt(before, p + q) {
      LoopShape(got, want, order, p + q);
      forall d | d in Elements(order) ensures !(d <= p + q) && !(p + q <= d) {
        PrefixOfAppend(d, p, q);
      }
    }
    assert p + [] == p;
    assert ShapeAt(after, p + []) == ShapeAt(before, p + []);
    if Lookup(before, p).Some? {
      var a, b := Lookup(after, p).value, Lookup(before, p).value;
      forall q ensures ShapeAt(a, q) == ShapeAt(b, q) {
        LookupAppend(after, p, q);
        LookupAppend(before, p, q);
        assert ShapeAt(after, p + q) == ShapeAt(before, p + q);
      }
      SameShapesSameTree(a, b);
    }
  }

  /**
   * A second run, in any order, changes nothing.  The same fact for one field
   * says that nothing below an already restored field is ever written, so the
   * subtrees that the code shares with the stored object stay as they are.
   */
  lemma {:induction false} SecondRunChangesNothing(got: map<string, Json>, want: Json, order: seq<Path>, again: seq<Path>)
    requires [] !in order && [] !in again && RestoreAll(got, want, order).Done?
    requires forall p :: p in again ==> exists d :: d in order && d <= p
    ensures RestoreAll(RestoreAll(got, want, order).fields, want, again) == RestoreAll(got, want, order)
    decreases |again|
  {
    if again != [] {
      var front, last := again[..|again| - 1], again[|again| - 1];
      assert forall p :: p in front ==> p in again;
      SecondRunChangesNothing(got, want, order, front);
      assert last in again;
      RestoredFieldsEqualStored(got, want, order, last);
    }
  }

  // ---- When the loop succeeds ----

  /** No scalar or array of the candidate stands strictly above a restored field that is stored. */
  ghost predicate NothingInTheWay(got: Json, want: Json, fields: set<Path>) {
    forall p, q :: p in fields && Present(want, p) && Above(q, p) ==> !ShapeAt(got, q).LeafShape?
  }

  lemma {:induction false} ClearWaySucceeds(got: map<string, Json>, want: Json, order: seq<Path>, fields: set<Path>)
    requires [] !in order && Elements(order) <= fields && NothingInTheWay(Obj(got), want, fields)
    ensures RestoreAll(got, want, order).Done?
    decreases |order|
  {
    if order != [] {
      var front, last := order[..|order| - 1], order[|order| - 1];
      assert last in order && forall p :: p in front ==> p in order;
      ClearWaySucceeds(got, want, front, fields);
      var before := RestoreAll(got, want, front).fields;
      if Lookup(want, last) != Lookup(Obj(before), last) {
        forall q | Above(q, last) ensures !ShapeAt(Obj(before), q).LeafShape? {
          LoopShape(got, want, front, q);
          if Present(want, last) {
            PresentBelowObject(want, q, last);
          } else {
            PresentBelowObject(Obj(before), q, last);
          }
        }
        SetPathFails(before, last, Lookup(want, last));
      }
    }
  }

  /** The orders in which a map iteration can visit the fields. */
  predicate IsOrder(order: seq<Path>, fields: set<Path>) {
    Distinct(order) && Elements(order) == fields
  }

  lemma MoveFirst(listing: seq<Path>, fields: set<Path>, p: Path) returns (rest: seq<Path>)
    requires IsOrder(listing, fields) && p in fields
    ensures IsOrder([p] + rest, fields) && (forall q :: q in rest ==> q in fields)
  {
    assert p in listing;
    var i :| 0 <= i < |listing| && listing[i] == p;
    rest := listing[..i] + listing[i + 1..];
    assert forall q :: q in rest ==> q in listing;
    forall q ensures q in [p] + rest <==> q in listing {
      if q in listing {
        var j :| 0 <= j < |listing| && listing[j] == q;
        assert j < i ==> rest[j] == q;
        assert j > i ==> rest[j - 1] == q;
      }
    }
    forall q ensures q in Elements([p] + rest) <==> q in fields {
      assert q in fields <==> q in Elements(listing);
    }
  }

  /**
   * Whether the loop succeeds can depend on the order.  Every order in which the fields
   * can be visited succeeds exactly when nothing is in the way.
   */
  lemma EveryOrderSucceedsExactly(got: map<string, Json>, want: Json, fields: set<Path>, listing: seq<Path>)
    requires [] !in fields && IsOrder(listing, fields)
    ensures NothingInTheWay(Obj(got), want, fields)
      <==> (forall order :: [] !in order && IsOrder(order, fields) ==> RestoreAll(got, want, order).Done?)
  {
    if NothingInTheWay(Obj(got), want, fields) {
      forall order | [] !in order && IsOrder(order, fields) ensures RestoreAll(got, want, order).Done? {
        ClearWaySucceeds(got, want, order, fields);
      }
    } else {
      var p, q :| p in fields && Present(want, p) && Above(q, p) && ShapeAt(Obj(got), q).LeafShape?;
      var rest := MoveFirst(listing, fields, p);
      assert [] !in rest && [] !in [p] + rest;
      FirstFails(got, want, p, q, rest);
    }
  }

  /** Every scalar of the candidate above a stored restored field is itself replaced by a restored field. */
  ghost predicate Replaced(got: Json, want: Json, fields: set<Path>) {
    forall p, q :: p in fields && Present(want, p) && Above(q, p) && ShapeAt(got, q).LeafShape? ==> CoveredBy(fields, q)
  }

  ghost predicate CoveredBy(fields: set<Path>, q: Path) {
    exists d :: d in fields && d <= q
  }

  /** A loop that succeeds had every scalar in its way replaced first. */
  lemma {:induction false} SuccessNeedsReplacement(got: map<string, Json>, want: Json, order: seq<Path>, p: Path, q: Path)
    requires [] !in order && RestoreAll(got, want, order).Done?
    requires p in order && Present(want, p) && Above(q, p) && ShapeAt(Obj(got), q).LeafShape?
    ensures CoveredBy(Elements(order), q)
    decreases |order|
  {
    var front, last := order[..|order| - 1], order[|order| - 1];
    assert Elements(order) == Elements(front) + {last};
    if p' :| p' in front && Present(want, p') && Above(q, p') {
      SuccessNeedsReplacement(got, want, front, p', q);
      var d :| d in Elements(front) && d <= q;
      assert d in Elements(order);
    } else if !CoveredBy(Elements(order), q) {
      var before := RestoreAll(got, want, front).fields;
      LoopShape(got, want, front, q);
      assert forall d :: d in Elements(front) ==> d in front && d in Elements(order);
      if Lookup(want, p) == Lookup(Obj(before), p) { PresentBelowObject(Obj(before), q, p); }
      SetPathFails(before, p, Lookup(want, p));
    }
  }

  predicate ByLength(order: seq<Path>) {
    forall i, j :: 0 <= i < j < |order| ==> |order[i]| <= |order[j]|
  }

  /** Once all shorter fields are restored no scalar is left above a field that is about to be written. */
  lemma WayIsCleared(got: map<string, Json>, want: Json, front: seq<Path>, last: Path, fields: set<Path>, q: Path)
    requires [] !in front && RestoreAll(got, want, front).Done? && Replaced(Obj(got), want, fields)
    requires last in fields && Above(q, last) && forall d :: d in fields && |d| < |last| ==> d in front
    requires Lookup(want, last) != Lookup(Obj(RestoreAll(got, want, front).fields), last)
    ensures !ShapeAt(Obj(RestoreAll(got, want, front).fields), q).LeafShape?
  {
    LoopShape(got, want, front, q);
    if !Present(want, last) {
      PresentBelowObject(Obj(RestoreAll(got, want, front).fields), q, last);
    } else {
      PresentBelowObject(want, q, last);
      if ShapeAt(Obj(got), q).LeafShape? {
        var d :| d in fields && d <= q;
        assert d in front && d in Elements(front);
      }
    }
  }

  /** Outer fields before inner ones never fails when what is in the way gets replaced. */
  lemma {:induction false} OuterFirstSucceeds(got: map<string, Json>, want: Json, order: seq<Path>, fields: set<Path>)
    requires [] !in order && ByLength(order) && Elements(order) <= fields && Replaced(Obj(got), want, fields)
    requires forall d, p :: d in fields && p in order && |d| < |p| ==> d in order
    ensures RestoreAll(got, want, order).Done?
    decreases |order|
  {
    if order != [] {
      var front, last := order[..|order| - 1], order[|order| - 1];
      assert last in order && last in Elements(order) && forall p :: p in front ==> p in order && p in Elements(order);
      forall d | d in fields && |d| < |last| ensures d in front {
        assert d in order;
      }
      assert forall p :: p in front ==> |p| <= |last|;
      OuterFirstSucceeds(got, want, front, fields);
      var before := RestoreAll(got, want, front).fields;
      if Lookup(want, last) != Lookup(Obj(before), last) {
        forall q | Above(q, last) ensures !ShapeAt(Obj(before), q).LeafShape? {
          WayIsCleared(got, want, front, last, fields, q);
        }
        SetPathFails(before, last, Lookup(want, last));
      }
    }
  }

  lemma Longest(fields: set<Path>) returns (p: Path)
    requires fields != {}
    ensures p in fields && forall q :: q in fields ==> |q| <= |p|
  {
    p :| p in fields;
    if fields != {p} {
      var rest := Longest(fields - {p});
      assert forall q :: q in fields ==> q == p || q in fields - {p};
      if |p| < |rest| { p := rest; }
    }
  }

  lemma OuterFirst(fields: set<Path>) returns (order: seq<Path>)
    ensures IsOrder(order, fields) && ByLength(order)
  {
    order := [];
    if fields != {} {
      var p := Longest(fields);
      var front := OuterFirst(fields - {p});
      assert forall q :: q in front ==> q in Elements(front);
      order := front + [p];
      assert Elements(order) == Elements(front) + {p} == fields;
    }
  }

  /** Some order succeeds exactly when every scalar in the way is itself replaced. */
  lemma SomeOrderSucceedsExactly(got: map<string, Json>, want: Json, fields: set<Path>)
    requires [] !in fields
    ensures Replaced(Obj(got), want, fields)
      <==> (exists order :: [] !in order && IsOrder(order, fields) && RestoreAll(got, want, order).Done?)
  {
    if Replaced(Obj(got), want, fields) {
      var order := OuterFirst(fields);
      assert forall p :: p in order <==> p in Elements(order);
      OuterFirstSucceeds(got, want, order, fields);
    }
    if order :| [] !in order && IsOrder(order, fields) && RestoreAll(got, want, order).Done? {
      forall p, q | p in fields && Present(want, p) && Above(q, p) && ShapeAt(Obj(got), q).LeafShape?
        ensures CoveredBy(fields, q)
      {
        assert p in Elements(order);
        SuccessNeedsReplacement(got, want, order, p, q);
      }
    }
  }

  /** No restored field lies below another. */
  predicate Flat(fields: set<Path>) {
    forall p, q :: p in fields && q in fields ==> !Above(p, q)
  }

  lemma NothingAboveIsCovered(fields: set<Path>, p: Path, q: Path)
    requires Flat(fields) && p in fields && Above(q, p)
    ensures !CoveredBy(fields, q)
  {
    forall d | d in fields ensures !(d <= q) {
      assert !Above(d, p);
    }
  }

  /** Without nested restored fields no order matters: each succeeds exactly when nothing is in the way. */
  lemma FlatSucceedsExactly(got: map<string, Json>, want: Json, fields: set<Path>, order: seq<Path>)
    requires [] !in order && Elements(order) == fields && Flat(fields)
    ensures RestoreAll(got, want, order).Done? <==> NothingInTheWay(Obj(got), want, fields)
  {
    if NothingInTheWay(Obj(got), want, fields) {
      ClearWaySucceeds(got, want, order, fields);
    }
    if RestoreAll(got, want, order).Done? {
      forall p, q | p in fields && Present(want, p) && Above(q, p) ensures !ShapeAt(Obj(got), q).LeafShape? {
        NothingAboveIsCovered(fields, p, q);
        assert p in Elements(order);
        if ShapeAt(Obj(got), q).LeafShape? {
          SuccessNeedsReplacement(got, want, order, p, q);
        }
      }
    }
  }

  lemma {:induction false} FirstFails(got: map<string, Json>, want: Json, p: Path, q: Path, rest: seq<Path>)
    requires p != [] && [] !in rest
    requires Present(want, p) && Above(q, p) && ShapeAt(Obj(got), q).LeafShape?
    ensures RestoreAll(got, want, [p] + rest).NotAnObject?
    decreases |rest|
  {
    var order := [p] + rest;
    if rest == [] {
      assert order[..0] == [] && order[0] == p;
      if Lookup(want, p) == Lookup(Obj(got), p) { PresentBelowObject(Obj(got), q, p); }
      SetPathFails(got, p, Lookup(want, p));
    } else {
      assert order[..|order| - 1] == [p] + rest[..|rest| - 1];
      FirstFails(got, want, p, q, rest[..|rest| - 1]);
    }
  }

  // ---- Which fields are restored ----

  datatype WriteMode = ServiceSet | Immutable | Mutable | Unset

  datatype Override = Override(gate: string, mode: WriteMode)

  datatype FieldMeta = FieldMeta(mode: WriteMode, overrides: seq<Override>)

  /** The first override whose gate is enabled, else the first without a gate, else the field's own mode. */
  function EffectiveMode(meta: FieldMeta, enabled: set<string>): WriteMode {
    var gated := FirstMode(meta.overrides, (o: Override) => o.gate != "" && o.gate in enabled);
    var open := FirstMode(meta.overrides, (o: Override) => o.gate == "");
    if gated.Some? then gated.value else if open.Some? then open.value else meta.mode
  }

  function FirstMode(overrides: seq<Override>, matches: Override -> bool): Option<WriteMode> {
    if overrides == [] then None
    else if matches(overrides[0]) then Some(overrides[0].mode)
    else FirstMode(overrides[1..], matches)
  }

  /** Some field below it is customer-visible in its own mode. */
  predicate IsContainer(path: Path, registry: map<Path, FieldMeta>) {
    exists child :: child in registry && Above(path, child) && (registry[child].mode == Mutable || registry[child].mode == Immutable)
  }

  predicate IsRestored(path: Path, registry: map<Path, FieldMeta>, enabled: set<string>) {
    path in registry && EffectiveMode(registry[path], enabled) == ServiceSet && !IsContainer(path, registry)
  }

  function RestoredOf(order: seq<Path>, registry: map<Path, FieldMeta>, enabled: set<string>): (r: seq<Path>)
    ensures forall p :: p in r ==> p in order
  {
    if order == [] then []
    else
      var last := order[|order| - 1];
      var front := RestoredOf(order[..|order| - 1], registry, enabled);
      if IsRestored(last, registry, enabled) then front + [last] else front
  }

  /** An override's gate is named and enabled. */
  predicate GateOn(o: Override, enabled: set<string>) { o.gate != "" && o.gate in enabled }

  predicate IsFirstGate(overrides: seq<Override>, enabled: set<string>, i: int) {
    0 <= i < |overrides| && GateOn(overrides[i], enabled) && forall j :: 0 <= j < i ==> !GateOn(overrides[j], enabled)
  }

  predicate IsFirstOpen(overrides: seq<Override>, i: int) {
    0 <= i < |overrides| && overrides[i].gate == "" && forall j :: 0 <= j < i ==> overrides[j].gate != ""
  }

  /** The mode in force, by position: the first enabled gate, else the first without a gate, else the field's own. */
  ghost predicate InForce(meta: FieldMeta, enabled: set<string>, mode: WriteMode) {
    var os := meta.overrides;
    var noGate := forall o :: o in os ==> !GateOn(o, enabled);
    || (exists i :: IsFirstGate(os, enabled, i) && os[i].mode == mode)
    || (noGate && exists i :: IsFirstOpen(os, i) && os[i].mode == mode)
    || (noGate && (forall o :: o in os ==> o.gate != "") && meta.mode == mode)
  }

  ghost predicate IsFirst(os: seq<Override>, matches: Override -> bool, i: int) {
    0 <= i < |os| && matches(os[i]) && forall j :: 0 <= j < i ==> !matches(os[j])
  }

  lemma IsFirstBelow(os: seq<Override>, matches: Override -> bool, i: nat)
    requires os != [] && !matches(os[0])
    ensures IsFirst(os, matches, i + 1) <==> IsFirst(os[1..], matches, i)
  {
    if IsFirst(os, matches, i + 1) {
      forall j | 0 <= j < i ensures !matches(os[1..][j]) { assert os[1..][j] == os[j + 1]; }
    }
    if IsFirst(os[1..], matches, i) {
      forall j | 0 <= j < i + 1 ensures !matches(os[j]) { assert j > 0 ==> os[j] == os[1..][j - 1]; }
    }
  }

  lemma {:induction false} FirstModeTells(os: seq<Override>, matches: Override -> bool, mode: WriteMode)
    ensures FirstMode(os, matches).None? <==> forall o :: o in os ==> !matches(o)
    ensures FirstMode(os, matches) == Some(mode) <==> exists i :: IsFirst(os, matches, i) && os[i].mode == mode
  {
    if os != [] {
      assert os == [os[0]] + os[1..];
      FirstModeTells(os[1..], matches, mode);
      if matches(os[0]) {
        assert IsFirst(os, matches, 0);
      } else {
        forall i: nat ensures IsFirst(os, matches, i + 1) <==> IsFirst(os[1..], matches, i) {
          IsFirstBelow(os, matches, i);
        }
        if i :| IsFirst(os[1..], matches, i) && os[1..][i].mode == mode { assert IsFirst(os, matches, i + 1); }
        if i :| IsFirst(os, matches, i) && os[i].mode == mode { assert i > 0 && IsFirst(os[1..], matches, i - 1); }
      }
    }
  }

  lemma EffectiveModeExactly(meta: FieldMeta, enabled: set<string>, mode: WriteMode)
    ensures EffectiveMode(meta, enabled) == mode <==> InForce(meta, enabled, mode)
  {
    var os := meta.overrides;
    var gated, open := (o: Override) => o.gate != "" && o.gate in enabled, (o: Override) => o.gate == "";
    GatesTell(os, enabled, mode, gated);
    OpenTells(os, mode, open);
  }

  lemma GatesTell(os: seq<Override>, enabled: set<string>, mode: WriteMode, gated: Override -> bool)
    requires forall o :: gated(o) <==> GateOn(o, enabled)
    ensures FirstMode(os, gated) == Some(mode) <==> exists i :: IsFirstGate(os, enabled, i) && os[i].mode == mode
    ensures FirstMode(os, gated).None? <==> forall o :: o in os ==> !GateOn(o, enabled)
  {
    FirstModeTells(os, gated, mode);
    forall i ensures IsFirst(os, gated, i) <==> IsFirstGate(os, enabled, i) {
    }
  }

  lemma OpenTells(os: seq<Override>, mode: WriteMode, open: Override -> bool)
    requires forall o :: open(o) <==> o.gate == ""
    ensures FirstMode(os, open) == Some(mode) <==> exists i :: IsFirstOpen(os, i) && os[i].mode == mode
    ensures FirstMode(os, open).None? <==> forall o :: o in os ==> o.gate != ""
  {
    FirstModeTells(os, open, mode);
    forall i ensures IsFirst(os, open, i) <==> IsFirstOpen(os, i) {
    }
  }

  /** effectiveWriteMode: two passes over the overrides. */
  method EffectiveWriteMode(meta: FieldMeta, enabled: set<string>) returns (mode: WriteMode)
    ensures InForce(meta, enabled, mode) && mode == EffectiveMode(meta, enabled)
  {
    mode := meta.mode;
    var os := meta.overrides;
    for i := 0 to |os|
      invariant mode == meta.mode && forall j :: 0 <= j < i ==> !GateOn(os[j], enabled)
    {
      if os[i].gate != "" && os[i].gate in enabled {
        assert IsFirstGate(os, enabled, i);
        mode := os[i].mode;
        EffectiveModeExactly(meta, enabled, mode);
        return;
      }
    }
    for i := 0 to |os|
      invariant mode == meta.mode && forall j :: 0 <= j < i ==> os[j].gate != ""
    {
      if os[i].gate == "" {
        assert IsFirstOpen(os, i);
        mode := os[i].mode;
        EffectiveModeExactly(meta, enabled, mode);
        return;
      }
    }
    EffectiveModeExactly(meta, enabled, mode);
  }

  /** A registered field that the platform sets, with no field below it that a customer may set. */
  ghost predicate PlatformField(p: Path, registry: map<Path, FieldMeta>, enabled: set<string>) {
    && p in registry && InForce(registry[p], enabled, ServiceSet)
    && forall c :: c in registry && |c| > |p| && c[..|p|] == p ==> registry[c].mode != Mutable && registry[c].mode != Immutable
  }

  lemma RestoredIsPlatform(p: Path, registry: map<Path, FieldMeta>, enabled: set<string>)
    ensures IsRestored(p, registry, enabled) <==> PlatformField(p, registry, enabled)
  {
    if p in registry {
      EffectiveModeExactly(registry[p], enabled, ServiceSet);
      assert forall c :: c in registry ==> (Above(p, c) <==> |c| > |p| && c[..|p|] == p);
    }
  }

  /** What a successful call leaves: stored values at platform fields, the candidate's where none is near. */
  ghost predicate Preserved(before: map<string, Json>, after: map<string, Json>, stored: Json,
                            registry: map<Path, FieldMeta>, enabled: set<string>) {
    && (forall p :: PlatformField(p, registry, enabled) ==> Lookup(Obj(after), p) == Lookup(stored, p))
    && (forall p :: (forall d :: PlatformField(d, registry, enabled) ==> !(d <= p) && !(p <= d)) ==>
          Lookup(Obj(after), p) == Lookup(Obj(before), p))
  }

  lemma SuccessPreserves(got: map<string, Json>, stored: Json, registry: map<Path, FieldMeta>, enabled: set<string>, order: seq<Path>)
    requires [] !in registry && Elements(order) == registry.Keys
    requires RestoreAll(got, stored, RestoredOf(order, registry, enabled)).Done?
    ensures Preserved(got, RestoreAll(got, stored, RestoredOf(order, registry, enabled)).fields, stored, registry, enabled)
  {
    var fields := RestoredOf(order, registry, enabled);
    RestoredOfElements(order, registry, enabled);
    forall p ensures p in fields <==> PlatformField(p, registry, enabled) {
      assert p in order <==> p in Elements(order);
      RestoredIsPlatform(p, registry, enabled);
    }
    forall p | PlatformField(p, registry, enabled)
      ensures Lookup(Obj(RestoreAll(got, stored, fields).fields), p) == Lookup(stored, p)
    {
      RestoredFieldsEqualStored(got, stored, fields, p);
    }
    forall p | forall d :: PlatformField(d, registry, enabled) ==> !(d <= p) && !(p <= d)
      ensures Lookup(Obj(RestoreAll(got, stored, fields).fields), p) == Lookup(Obj(got), p)
    {
      OtherPathsAreUntouched(got, stored, fields, p);
    }
  }

  /** PreserveServiceSet's loop; order is the iteration order of the registry map. */
  method PreserveServiceSet(candidate: map<string, Json>, stored: Json, registry: map<Path, FieldMeta>,
                            enabled: set<string>, order: seq<Path>) returns (r: Written, isChanged: bool)
    requires [] !in registry && Elements(order) == registry.Keys
    ensures r == RestoreAll(candidate, stored, RestoredOf(order, registry, enabled))
    ensures r.Done? ==> Preserved(candidate, r.fields, stored, registry, enabled)
    ensures r.Done? ==> (isChanged <==> r.fields != candidate)
  {
    assert [] !in Elements(order);
    var got := candidate;
    isChanged := false;
    ghost var first: Path := [];
    for i := 0 to |order|
      invariant RestoreAll(candidate, stored, RestoredOf(order[..i], registry, enabled)) == Done(got)
      invariant !isChanged ==> got == candidate
      invariant isChanged ==> first in order && IsRestored(first, registry, enabled)
      invariant isChanged ==> Lookup(stored, first) != Lookup(Obj(candidate), first)
    {
      var path := order[i];
      assert order[..i + 1][..i] == order[..i];
      ghost var done := RestoredOf(order[..i], registry, enabled);
      assert path in Elements(order);
      var mode := EffectiveWriteMode(registry[path], enabled);
      if mode != ServiceSet || IsContainer(path, registry) {
        continue;
      }
      assert (done + [path])[..|done|] == done;
      var storedValue, currentValue := Lookup(stored, path), Lookup(Obj(got), path);
      if storedValue == currentValue {
        continue;
      }
      var outcome := SetPath(got, path, storedValue);
      if outcome.NotAnObject? {
        FailureStays(candidate, stored, order, i, registry, enabled);
        return NotAnObject, isChanged;
      }
      if !isChanged { first := path; }
      got := outcome.fields;
      isChanged := true;
    }
    assert order[..|order|] == order;
    SuccessPreserves(candidate, stored, registry, enabled, order);
    if isChanged { RestoredIsPlatform(first, registry, enabled); }
    return Done(got), isChanged;
  }

  lemma {:induction false} FailureStays(got: map<string, Json>, want: Json, order: seq<Path>, i: nat,
                                        registry: map<Path, FieldMeta>, enabled: set<string>)
    requires i < |order| && [] !in order
    requires RestoreAll(got, want, RestoredOf(order[..i + 1], registry, enabled)).NotAnObject?
    ensures RestoreAll(got, want, RestoredOf(order, registry, enabled)).NotAnObject?
    decreases |order|
  {
    if i + 1 == |order| {
      assert order[..i + 1] == order;
    } else {
      var front := order[..|order| - 1];
      assert front[..i + 1] == order[..i + 1];
      FailureStays(got, want, front, i, registry, enabled);
      var done := RestoredOf(front, registry, enabled);
      assert (done + [order[|order| - 1]])[..|done|] == done;
    }
  }

  /**
   * Customer fields survive: a field whose own mode is mutable or immutable and
   * that is not itself restored is never at or below a restored field, so it and
   * everything below it that no restored field touches is unchanged.
   */
  lemma CustomerFieldsAreNotBelowRestored(registry: map<Path, FieldMeta>, enabled: set<string>, field: Path, p: Path)
    requires field in registry && (registry[field].mode == Mutable || registry[field].mode == Immutable)
    requires !IsRestored(field, registry, enabled) && IsRestored(p, registry, enabled)
    ensures !(p <= field)
  {
    assert Above(p, field) ==> IsContainer(p, registry);
  }

  lemma {:induction false} RestoredOfElements(order: seq<Path>, registry: map<Path, FieldMeta>, enabled: set<string>)
    ensures forall p :: p in RestoredOf(order, registry, enabled) <==> p in order && IsRestored(p, registry, enabled)
  {
    if order != [] {
      RestoredOfElements(order[..|order| - 1], registry, enabled);
      assert order == order[..|order| - 1] + [order[|order| - 1]];
    }
  }

  /** Whatever order Go's map iteration takes, two runs that succeed leave the same candidate. */
  lemma PreserveIsDeterministic(candidate: map<string, Json>, stored: Json, registry: map<Path, FieldMeta>,
                                enabled: set<string>, order: seq<Path>, other: seq<Path>)
    requires [] !in registry && Elements(order) == registry.Keys == Elements(other)
    requires RestoreAll(candidate, stored, RestoredOf(order, registry, enabled)).Done?
    requires RestoreAll(candidate, stored, RestoredOf(other, registry, enabled)).Done?
    ensures RestoreAll(candidate, stored, RestoredOf(order, registry, enabled))
      == RestoreAll(candidate, stored, RestoredOf(other, registry, enabled))
  {
    RestoredOfElements(order, registry, enabled);
    RestoredOfElements(other, registry, enabled);
    assert forall p :: (p in order <==> p in Elements(order)) && (p in other <==> p in Elements(other));
    assert Elements(RestoredOf(order, registry, enabled)) == Elements(RestoredOf(other, registry, enabled));
    OrderDoesNotMatter(candidate, stored, RestoredOf(order, registry, enabled), RestoredOf(other, registry, enabled));
  }

  /**
   * With nested restored fields a and a.b, a candidate with a scalar at a and a stored
   * object there: restoring a first succeeds, a.b first fails.
   */
  lemma SuccessDependsOnOrder()
    ensures var got: map<string, Json>, want := map["a" := Leaf("x")], Obj(map["a" := Obj(map["b" := Leaf("y")])]);
      && RestoreAll(got, want, [["a"], ["a", "b"]]).Done?
      && RestoreAll(got, want, [["a", "b"], ["a"]]).NotAnObject?
  {
    var got: map<string, Json>, want := map["a" := Leaf("x")], Obj(map["a" := Obj(map["b" := Leaf("y")])]);
    var a, ab := ["a"], ["a", "b"];
    assert ab[1..] == ["b"] && a[1..] == [] && ["b"][1..] == [];
    assert ShapeAt(Obj(got), a) == LeafShape("x") && Above(a, ab) && Present(want, ab);
    FirstFails(got, want, ab, a, [a]);
    assert [ab, a] == [ab] + [a];
    assert [a, ab][..1] == [a] && [a][..0] == [];
    var first := RestoreAll(got, want, [a]);
    var ob := Obj(map["b" := Leaf("y")]);
    assert Lookup(want, a) == Some(ob) && Lookup(Obj(got), a) == Some(Leaf("x"));
    assert RestoreAll(got, want, []) == Done(got);
    assert first == Restore(got, want, a) == SetPath(got, a, Some(ob)) == Done(got["a" := ob]);
    assert got["a" := ob] == map["a" := ob];
    assert Restore(first.fields, want, ab) == first;
  }
}
