/** The List and Watch queries: where their clauses, arguments, limit and offset come from. */
module Queries {
  import opened Wrappers
  import opened Sql
  import opened Selectors

  // ---- Field selectors ----

  /** One term of a field selector; path is the field split at its dots. */
  datatype FieldTerm = FieldTerm(path: seq<string>, op: Operator, value: string)

  predicate SegmentOk(s: string) {
    && s != ""
    && !('0' <= s[0] <= '9')
    && forall c :: c in s ==> 'a' <= c <= 'z' || 'A' <= c <= 'Z' || '0' <= c <= '9' || c == '_'
  }

  /** The SQL expression of a field: a column of its own or a path into a JSON column. */
  datatype Column = NameColumn | NamespaceColumn | UidColumn | JsonPath(column: string, segments: seq<string>)

  /** jsonbPathToSQL */
  function JsonColumn(column: string, segments: seq<string>): Option<Column> {
    if forall i :: 0 <= i < |segments| ==> SegmentOk(segments[i]) then Some(JsonPath(column, segments)) else None
  }

  /** fieldPathToSQL and metadataFieldToSQL */
  function FieldColumn(path: seq<string>): Option<Column> {
    if |path| < 2 then None
    else if path[0] == "spec" || path[0] == "status" then JsonColumn(path[0], path[1..])
    else if path[0] != "metadata" then None
    else if path[1..] == ["name"] then Some(NameColumn)
    else if path[1..] == ["namespace"] then Some(NamespaceColumn)
    else if path[1..] == ["uid"] then Some(UidColumn)
    else JsonColumn("metadata", path[1..])
  }

  predicate TermOk(t: FieldTerm) {
    (t.op == Equals || t.op == DoubleEquals || t.op == NotEquals) && FieldColumn(t.path).Some?
  }

  /** Which paths can be selected on: below metadata, spec or status, through plain segments. */
  ghost predicate Selectable(path: seq<string>) {
    |path| >= 2 && path[0] in {"metadata", "spec", "status"} && forall s :: s in path[1..] ==> SegmentOk(s)
  }

  lemma FieldColumnExactly(path: seq<string>)
    ensures FieldColumn(path).Some? <==> Selectable(path)
    ensures Selectable(path) ==>
      var rest := path[1..];
      FieldColumn(path).value ==
        if path == ["metadata", "name"] then NameColumn
        else if path == ["metadata", "namespace"] then NamespaceColumn
        else if path == ["metadata", "uid"] then UidColumn
        else JsonPath(path[0], rest)
  {
    if |path| >= 2 {
      assert path == [path[0]] + path[1..];
      assert SegmentOk("name") && SegmentOk("namespace") && SegmentOk("uid");
      if |path| == 2 { assert path[1..] == [path[1]]; }
    }
  }

  /** What SQL makes of a term: a missing field satisfies neither = nor !=. */
  predicate TermHolds(t: FieldTerm, row: Columns) {
    t.path in row.fields && (row.fields[t.path] == t.value <==> t.op != NotEquals)
  }

  function TermClause(t: FieldTerm, param: nat): Clause {
    if t.op == NotEquals then FieldIsNot(t.path, param) else FieldIs(t.path, param)
  }

  function CompileFields(terms: seq<FieldTerm>, start: nat): Compiled
    decreases |terms|
  {
    if terms == [] then Ok([], [])
    else if !TermOk(terms[0]) then Bad
    else Join(Ok([TermClause(terms[0], start)], [Text(terms[0].value)]), CompileFields(terms[1..], start + 1))
  }

  /** buildFieldSelectorFilter: one clause and one argument per term. */
  method BuildFieldSelectorFilter(terms: seq<FieldTerm>, startParam: nat) returns (r: Compiled)
    ensures r == CompileFields(terms, startParam)
  {
    var clauses, args, paramIdx := [], [], startParam;
    for i := 0 to |terms|
      invariant paramIdx == startParam + i
      invariant CompileFields(terms, startParam) == Join(Ok(clauses, args), CompileFields(terms[i..], paramIdx))
    {
      assert terms[i..][0] == terms[i] && terms[i..][1..] == terms[i + 1..];
      if !TermOk(terms[i]) { return Bad; }
      ghost var one := Ok([TermClause(terms[i], paramIdx)], [Text(terms[i].value)]);
      JoinAssociates(Ok(clauses, args), one, CompileFields(terms[i + 1..], paramIdx + 1));
      clauses, args := clauses + [TermClause(terms[i], paramIdx)], args + [Text(terms[i].value)];
      paramIdx := paramIdx + 1;
    }
    assert terms[|terms|..] == [];
    return Ok(clauses, args);
  }

  lemma {:induction false} FieldsMean(terms: seq<FieldTerm>, row: Columns, before: seq<Arg>, after: seq<Arg>)
    requires CompileFields(terms, |before| + 1).Ok?
    ensures var c := CompileFields(terms, |before| + 1);
      EvalAll(c.clauses, row, before + c.args + after) == True <==> forall t :: t in terms ==> TermHolds(t, row)
    decreases |terms|
  {
    if terms != [] {
      var rest := CompileFields(terms[1..], |before| + 2);
      var c := CompileFields(terms, |before| + 1);
      var text := Text(terms[0].value);
      var args := before + c.args + after;
      assert c == Join(Ok([TermClause(terms[0], |before| + 1)], [text]), rest);
      assert args == (before + [text]) + rest.args + after;
      assert args[|before|] == text;
      assert Eval(TermClause(terms[0], |before| + 1), row, args) == True <==> TermHolds(terms[0], row);
      FieldsMean(terms[1..], row, before + [text], after);
      EvalAllCons(TermClause(terms[0], |before| + 1), rest.clauses, row, args);
      assert forall t :: t in terms <==> t == terms[0] || t in terms[1..];
    }
  }

  // ---- buildListFilter and List ----

  /** client.ListOptions; offset is the decoded continue token, None when it does not decode. */
  datatype ListOptions = ListOptions(namespace: string, fields: seq<FieldTerm>, selector: Option<Selector>,
                                     limit: int, offset: Option<int>)

  datatype Filter = Filter(clauses: seq<Clause>, args: seq<Arg>, limit: int, offset: int)

  datatype FilterResult = NoFilter | Built(filter: Filter) | FilterError

  /** No selector and the empty selector add no clause. */
  predicate Unrestricted(o: ListOptions) {
    o.selector.None? || o.selector.value == All([])
  }

  /** The clauses of the namespace, the field selector and the label selector, numbered on from $2. */
  method BuildClauses(o: ListOptions) returns (r: Compiled)
    ensures r == Join(Join(NamespacePart(o), FieldPart(o)), SelectorPart(o))
  {
    var clauses, args, paramIdx := [], [], 2;
    if o.namespace != "" {
      clauses, args, paramIdx := [NamespaceIs(paramIdx)], [Text(o.namespace)], 3;
    }
    assert Ok(clauses, args) == NamespacePart(o);
    if o.fields != [] {
      var f := BuildFieldSelectorFilter(o.fields, paramIdx);
      if f.Bad? { return Bad; }
      clauses, args, paramIdx := clauses + f.clauses, args + f.args, paramIdx + |f.args|;
    }
    assert Ok(clauses, args) == Join(NamespacePart(o), FieldPart(o));
    if !Unrestricted(o) {
      var l := BuildLabelSelectorFilter(o.selector.value, paramIdx);
      if l.Bad? { return Bad; }
      clauses, args := clauses + l.clauses, args + l.args;
    }
    return Ok(clauses, args);
  }

  /** buildListFilter: $1 is the GVK, so placeholders start at $2. */
  method BuildListFilter(o: ListOptions) returns (r: FilterResult)
    ensures r == ListFilterOf(o)
  {
    var built := BuildClauses(o);
    if built.Bad? { return FilterError; }
    var limit, offset := 0, 0;
    if o.limit > 0 {
      if o.offset.None? { return FilterError; }
      limit, offset := o.limit, o.offset.value;
    }
    if limit == 0 && |built.clauses| == 0 { return NoFilter; }
    return Built(Filter(built.clauses, built.args, limit, offset));
  }

  function NamespacePart(o: ListOptions): Compiled {
    if o.namespace == "" then Ok([], []) else Ok([NamespaceIs(2)], [Text(o.namespace)])
  }

  function FieldPart(o: ListOptions): Compiled {
    CompileFields(o.fields, 2 + |NamespacePart(o).args|)
  }

  function SelectorPart(o: ListOptions): Compiled {
    if FieldPart(o).Bad? then Bad
    else if Unrestricted(o) then Ok([], [])
    else CompileSelector(o.selector.value, 2 + |NamespacePart(o).args| + |FieldPart(o).args|)
  }

  function ListFilterOf(o: ListOptions): FilterResult {
    var all := Join(Join(NamespacePart(o), FieldPart(o)), SelectorPart(o));
    if all.Bad? || (o.limit > 0 && o.offset.None?) then FilterError
    else
      var limit := if o.limit > 0 then o.limit else 0;
      var offset := if o.limit > 0 then o.offset.value else 0;
      if limit == 0 && all.clauses == [] then NoFilter else Built(Filter(all.clauses, all.args, limit, offset))
  }

  /** The assembled List query; the fixed clauses gvk = $1 and the tombstone filter come first. */
  datatype Query = Query(clauses: seq<Clause>, args: seq<Arg>, limitParam: Option<nat>, offsetParam: Option<nat>)

  method AssembleList(gvk: string, r: FilterResult) returns (q: Query)
    requires !r.FilterError?
    ensures q == ListQuery(gvk, r)
  {
    var clauses, args := [], [Text(gvk)];
    var limitParam: Option<nat>, offsetParam: Option<nat> := None, None;
    if r.Built? {
      for i := 0 to |r.filter.clauses|
        invariant clauses == r.filter.clauses[..i]
      {
        clauses := clauses + [r.filter.clauses[i]];
      }
      args := args + r.filter.args;
      if r.filter.limit > 0 {
        args := args + [Number(r.filter.limit)];
        limitParam := Some(|args|);
        if r.filter.offset > 0 {
          args := args + [Number(r.filter.offset)];
          offsetParam := Some(|args|);
        }
      }
    }
    q := Query(clauses, args, limitParam, offsetParam);
  }

  function ListQuery(gvk: string, r: FilterResult): Query
    requires !r.FilterError?
  {
    if r.NoFilter? then Query([], [Text(gvk)], None, None)
    else
      var f := r.filter;
      var base := [Text(gvk)] + f.args;
      if f.limit <= 0 then Query(f.clauses, base, None, None)
      else if f.offset <= 0 then Query(f.clauses, base + [Number(f.limit)], Some(|base| + 1), None)
      else Query(f.clauses, base + [Number(f.limit), Number(f.offset)], Some(|base| + 1), Some(|base| + 2))
  }

  /** The objects the caller asked for, stated without placeholders. */
  predicate Wanted(o: ListOptions, row: Columns) {
    && (o.namespace == "" || row.namespace == o.namespace)
    && (forall t :: t in o.fields ==> TermHolds(t, row))
    && (o.selector.None? || SelectorMatches(o.selector.value, LabelsOf(row)))
  }

  lemma {:induction false} EvalAllAppend(a: seq<Clause>, b: seq<Clause>, row: Columns, args: seq<Arg>)
    ensures EvalAll(a + b, row, args) == True <==> EvalAll(a, row, args) == True && EvalAll(b, row, args) == True
    decreases |a|
  {
    if a == [] {
      assert a + b == b;
    } else {
      assert a + b == [a[0]] + (a[1..] + b);
      EvalAllCons(a[0], a[1..] + b, row, args);
      EvalAllAppend(a[1..], b, row, args);
    }
  }

  predicate ComparesFields(op: Operator) { op == Equals || op == DoubleEquals || op == NotEquals }

  lemma {:induction false} FieldsFailExactly(terms: seq<FieldTerm>, start: nat)
    ensures CompileFields(terms, start).Bad? <==> exists t :: t in terms && !(ComparesFields(t.op) && Selectable(t.path))
    decreases |terms|
  {
    if terms != [] {
      FieldsFailExactly(terms[1..], start + 1);
      FieldColumnExactly(terms[0].path);
      assert forall t :: t in terms <==> t == terms[0] || t in terms[1..];
    }
  }

  /**
   * A list is refused exactly for a field term with another operator or path, a
   * malformed label requirement, or a continue token that does not decode on a paged list.
   */
  lemma ListFailsExactly(o: ListOptions)
    ensures ListFilterOf(o).FilterError? <==>
      || (exists t :: t in o.fields && !(ComparesFields(t.op) && Selectable(t.path)))
      || (o.selector.Some? && o.selector.value.All? && exists req :: req in o.selector.value.requirements && Malformed(req))
      || (o.limit > 0 && o.offset.None?)
  {
    FieldsFailExactly(o.fields, 2 + |NamespacePart(o).args|);
    if FieldPart(o).Ok? && o.selector.Some? && o.selector.value.All? {
      CompileFailsExactly(o.selector.value.requirements, 2 + |NamespacePart(o).args| + |FieldPart(o).args|);
    }
  }

  /** Without options the plain query is used, and only then. */
  lemma NoFilterExactly(o: ListOptions)
    requires !ListFilterOf(o).FilterError?
    ensures ListFilterOf(o).NoFilter? <==> o.namespace == "" && o.fields == [] && Unrestricted(o) && o.limit <= 0
  {
    if !Unrestricted(o) && o.selector.value.All? {
      FirstClause(o.selector.value.requirements, 2 + |NamespacePart(o).args| + |FieldPart(o).args|);
    }
  }

  lemma FirstClause(reqs: seq<Requirement>, start: nat)
    requires reqs != [] && CompileAll(reqs, start).Ok?
    ensures CompileAll(reqs, start).clauses != []
  {
    var first := CompileRequirement(reqs[0], start);
    assert first.Ok? && |first.clauses| == 1;
  }

  lemma NamespaceMeans(o: ListOptions, row: Columns, gvk: string, after: seq<Arg>)
    ensures EvalAll(NamespacePart(o).clauses, row, [Text(gvk)] + NamespacePart(o).args + after) == True
      <==> o.namespace == "" || row.namespace == o.namespace
  {
    if o.namespace != "" { EvalAllCons(NamespaceIs(2), [], row, [Text(gvk)] + NamespacePart(o).args + after); }
  }

  lemma SelectorPartMeans(o: ListOptions, row: Columns, before: seq<Arg>, after: seq<Arg>)
    requires SelectorPart(o).Ok? && FieldPart(o).Ok?
    requires |before| == 1 + |NamespacePart(o).args| + |FieldPart(o).args|
    ensures EvalAll(SelectorPart(o).clauses, row, before + SelectorPart(o).args + after) == True
      <==> o.selector.None? || SelectorMatches(o.selector.value, LabelsOf(row))
  {
    if !Unrestricted(o) && o.selector.value.All? {
      SelectorMeans(o.selector.value.requirements, row, before, after);
    }
  }

  /** The argument list is the GVK, then the parts in order, then limit and offset where their placeholders say. */
  lemma ListQueryShape(gvk: string, o: ListOptions) returns (tail: seq<Arg>)
    requires !ListFilterOf(o).FilterError?
    ensures NamespacePart(o).Ok? && FieldPart(o).Ok? && SelectorPart(o).Ok?
    ensures var q := ListQuery(gvk, ListFilterOf(o));
      && q.clauses == NamespacePart(o).clauses + FieldPart(o).clauses + SelectorPart(o).clauses
      && q.args == [Text(gvk)] + NamespacePart(o).args + FieldPart(o).args + SelectorPart(o).args + tail
      && (q.limitParam.Some? <==> o.limit > 0)
      && (q.limitParam.Some? ==> Bound(q.args, q.limitParam.value) == Some(Number(o.limit)))
      && (q.offsetParam.Some? <==> o.limit > 0 && o.offset.value > 0)
      && (q.offsetParam.Some? ==> Bound(q.args, q.offsetParam.value) == Some(Number(o.offset.value)))
  {
    tail := if o.limit <= 0 then []
            else if o.offset.value <= 0 then [Number(o.limit)]
            else [Number(o.limit), Number(o.offset.value)];
    var n, f, l := NamespacePart(o), FieldPart(o), SelectorPart(o);
    assert [Text(gvk)] + (n.args + f.args + l.args) + tail == [Text(gvk)] + n.args + f.args + l.args + tail;
  }

  /**
   * The assembled query selects exactly the objects asked for, for every
   * combination of namespace, field terms, selector, limit and offset, and its
   * LIMIT and OFFSET placeholders name the limit and the offset.
   */
  lemma ListQueryMeans(gvk: string, o: ListOptions, row: Columns)
    requires !ListFilterOf(o).FilterError?
    ensures var q := ListQuery(gvk, ListFilterOf(o));
      && q.args[0] == Text(gvk)
      && (EvalAll(q.clauses, row, q.args) == True <==> Wanted(o, row))
      && (q.limitParam.Some? <==> o.limit > 0)
      && (q.limitParam.Some? ==> Bound(q.args, q.limitParam.value) == Some(Number(o.limit)))
      && (q.offsetParam.Some? <==> o.limit > 0 && o.offset.value > 0)
      && (q.offsetParam.Some? ==> Bound(q.args, q.offsetParam.value) == Some(Number(o.offset.value)))
  {
    var tail := ListQueryShape(gvk, o);
    var q := ListQuery(gvk, ListFilterOf(o));
    PartsMean(gvk, o, row, tail, q.args);
  }

  lemma PartsMean(gvk: string, o: ListOptions, row: Columns, tail: seq<Arg>, args: seq<Arg>)
    requires NamespacePart(o).Ok? && FieldPart(o).Ok? && SelectorPart(o).Ok?
    requires args == [Text(gvk)] + NamespacePart(o).args + FieldPart(o).args + SelectorPart(o).args + tail
    ensures EvalAll(NamespacePart(o).clauses + FieldPart(o).clauses + SelectorPart(o).clauses, row, args) == True
      <==> Wanted(o, row)
  {
    var n, f, l := NamespacePart(o), FieldPart(o), SelectorPart(o);
    var g := [Text(gvk)];
    assert args == g + n.args + (f.args + l.args + tail);
    assert args == (g + n.args) + f.args + (l.args + tail);
    NamespaceMeans(o, row, gvk, f.args + l.args + tail);
    FieldsMean(o.fields, row, g + n.args, l.args + tail);
    SelectorPartMeans(o, row, g + n.args + f.args, tail);
    EvalAllAppend(n.clauses, f.clauses, row, args);
    EvalAllAppend(n.clauses + f.clauses, l.clauses, row, args);
  }
}
