/**
 * Label selectors, field selectors and list options compiled to SQL clauses with
 * numbered placeholders.  Clauses are kept as syntax trees; a placeholder is the
 * number that the code prints after the dollar sign.
 */
module Selectors {
  import opened Wrappers
  import opened Sql
  import opened Decimal

  // ---- Target: SQL over one row ----

  datatype Arg = Text(text: string) | LabelDoc(key: string, value: string) | Number(n: int) | Residues(residues: seq<int>)

  datatype Clause =
    | Always                                          // TRUE
    | Never                                           // FALSE
    | ContainsAny(params: seq<nat>)                   // (labels @> $a OR labels @> $b ...)
    | HasLabel(param: nat)                            // (labels ? $n)
    | Compare(keyParam: nat, valueParam: nat, greater: bool)  // (CASE WHEN ... THEN ... ELSE FALSE END)
    | NotTrue(inner: Clause)                          // NOT COALESCE(c, FALSE)
    | NamespaceIs(param: nat)                         // namespace = $n
    | FieldIs(path: seq<string>, param: nat)          // col = $n
    | FieldIsNot(path: seq<string>, param: nat)       // col != $n
    | ShardOwns(modParam: nat, ownedParam: nat)       // abs(hashtext(namespace)::bigint) % $m = ANY($o)

  /** The columns the clauses look at; hash is hashtext(namespace), labels is None when the JSON has no labels. */
  datatype Columns = Columns(namespace: string, hash: int, labels: Option<map<string, string>>, fields: map<seq<string>, string>)

  /** The argument a placeholder names. */
  function Bound(args: seq<Arg>, param: nat): Option<Arg> {
    if 0 < param <= |args| then Some(args[param - 1]) else None
  }

  function EvalContains(param: nat, row: Columns, args: seq<Arg>): Tri {
    var doc := Bound(args, param);
    if row.labels.None? || doc.None? || !doc.value.LabelDoc? then Unknown
    else Truth(doc.value.key in row.labels.value && row.labels.value[doc.value.key] == doc.value.value)
  }

  function EvalAny(params: seq<nat>, row: Columns, args: seq<Arg>): Tri {
    if params == [] then False else Or(EvalContains(params[0], row, args), EvalAny(params[1..], row, args))
  }

  /** s ~ '^[+-]?[0-9]+$' */
  predicate IntegerText(s: string) {
    var digits := if s != "" && (s[0] == '+' || s[0] == '-') then s[1..] else s;
    digits != "" && AllDigits(digits)
  }

  /** The integer a text of that form denotes. */
  function IntegerValue(s: string): int
    requires IntegerText(s)
  {
    if s[0] == '-' then 0 - Value(s[1..]) else if s[0] == '+' then Value(s[1..]) else Value(s)
  }

  /** pg_input_is_valid(s, 'bigint') for a text of that form. */
  predicate FitsBigint(s: string)
    requires IntegerText(s)
  {
    0 - TWO_63 <= IntegerValue(s) < TWO_63
  }

  function EvalCompare(keyParam: nat, valueParam: nat, greater: bool, row: Columns, args: seq<Arg>): Tri {
    var key, value := Bound(args, keyParam), Bound(args, valueParam);
    if key.None? || value.None? || !key.value.Text? || !value.value.Text? then Unknown
    else if row.labels.None? || key.value.text !in row.labels.value then False  // CASE WHEN NULL
    else
      var text := row.labels.value[key.value.text];
      if IntegerText(text) && FitsBigint(text) && IntegerText(value.value.text) then
        var a, b := IntegerValue(text), IntegerValue(value.value.text);
        Truth(if greater then a > b else a < b)
      else False
  }

  function Abs(x: int): nat { if x < 0 then -x else x }

  function Eval(c: Clause, row: Columns, args: seq<Arg>): Tri {
    match c
    case Always => True
    case Never => False
    case ContainsAny(params) => EvalAny(params, row, args)
    case HasLabel(param) =>
      var key := Bound(args, param);
      if row.labels.None? || key.None? || !key.value.Text? then Unknown else Truth(key.value.text in row.labels.value)
    case Compare(keyParam, valueParam, greater) => EvalCompare(keyParam, valueParam, greater, row, args)
    case NotTrue(inner) => Not(OrElseFalse(Eval(inner, row, args)))
    case NamespaceIs(param) =>
      var ns := Bound(args, param);
      if ns.None? || !ns.value.Text? then Unknown else Truth(row.namespace == ns.value.text)
    case FieldIs(path, param) =>
      var v := Bound(args, param);
      if path !in row.fields || v.None? || !v.value.Text? then Unknown else Truth(row.fields[path] == v.value.text)
    case FieldIsNot(path, param) =>
      var v := Bound(args, param);
      if path !in row.fields || v.None? || !v.value.Text? then Unknown else Truth(row.fields[path] != v.value.text)
    case ShardOwns(modParam, ownedParam) =>
      var m, owned := Bound(args, modParam), Bound(args, ownedParam);
      if m.None? || owned.None? || !m.value.Number? || m.value.n == 0 || !owned.value.Residues? then Unknown
      else Truth(Abs(row.hash) % m.value.n in owned.value.residues)
  }

  /** WHERE a AND b AND ...: the row is selected when the conjunction is TRUE. */
  function EvalAll(cs: seq<Clause>, row: Columns, args: seq<Arg>): Tri {
    if cs == [] then True else And(Eval(cs[0], row, args), EvalAll(cs[1..], row, args))
  }

  // ---- Source: Kubernetes label selectors ----

  datatype Operator = Equals | DoubleEquals | In | NotEquals | NotIn | GreaterThan | LessThan | Exists | DoesNotExist | Unsupported

  datatype Requirement = Requirement(op: Operator, key: string, values: seq<string>)

  /** Nothing is the selector without requirements that matches no object. */
  datatype Selector = Nothing | All(requirements: seq<Requirement>)

  /** labels.Requirement.Matches. */
  predicate Matches(req: Requirement, labels: map<string, string>) {
    match req.op
    case Equals => req.key in labels && labels[req.key] in req.values
    case DoubleEquals => req.key in labels && labels[req.key] in req.values
    case In => req.key in labels && labels[req.key] in req.values
    case NotEquals => req.key !in labels || labels[req.key] !in req.values
    case NotIn => req.key !in labels || labels[req.key] !in req.values
    case Exists => req.key in labels
    case DoesNotExist => req.key !in labels
    case GreaterThan =>
      && req.key in labels && |req.values| == 1
      && ParseInt(labels[req.key]).Some? && ParseInt(req.values[0]).Some?
      && ParseInt(labels[req.key]).value > ParseInt(req.values[0]).value
    case LessThan =>
      && req.key in labels && |req.values| == 1
      && ParseInt(labels[req.key]).Some? && ParseInt(req.values[0]).Some?
      && ParseInt(labels[req.key]).value < ParseInt(req.values[0]).value
    case Unsupported => false
  }

  predicate SelectorMatches(sel: Selector, labels: map<string, string>) {
    match sel
    case Nothing => false
    case All(reqs) => forall req :: req in reqs ==> Matches(req, labels)
  }

  /** Missing labels match like no labels. */
  function LabelsOf(row: Columns): map<string, string> {
    if row.labels.None? then map[] else row.labels.value
  }

  // ---- The compiler ----

  datatype Compiled = Ok(clauses: seq<Clause>, args: seq<Arg>) | Bad

  function Params(start: nat, n: nat): seq<nat>
    decreases n
  {
    if n == 0 then [] else [start] + Params(start + 1, n - 1)
  }

  function Docs(key: string, values: seq<string>): (docs: seq<Arg>)
    ensures |docs| == |values|
  {
    if values == [] then [] else [LabelDoc(key, values[0])] + Docs(key, values[1..])
  }

  function CompileRequirement(req: Requirement, start: nat): Compiled {
    match req.op
    case GreaterThan => CompileNumeric(req, start)
    case LessThan => CompileNumeric(req, start)
    case Exists => Ok([HasLabel(start)], [Text(req.key)])
    case DoesNotExist => Ok([NotTrue(HasLabel(start))], [Text(req.key)])
    case NotEquals => CompileNotIn(req, start)
    case NotIn => CompileNotIn(req, start)
    case Unsupported => Bad
    case _ =>
      if req.values == [] then Bad
      else Ok([ContainsAny(Params(start, |req.values|))], Docs(req.key, req.values))
  }

  function CompileNotIn(req: Requirement, start: nat): Compiled {
    if req.values == [] then Ok([Always], [])
    else Ok([NotTrue(ContainsAny(Params(start, |req.values|)))], Docs(req.key, req.values))
  }

  function CompileNumeric(req: Requirement, start: nat): Compiled {
    if |req.values| != 1 || ParseInt(req.values[0]).None? then Bad
    else Ok([Compare(start, start + 1, req.op == GreaterThan)], [Text(req.key), Text(req.values[0])])
  }

  function Join(first: Compiled, rest: Compiled): Compiled {
    if first.Bad? || rest.Bad? then Bad else Ok(first.clauses + rest.clauses, first.args + rest.args)
  }

  /** Compiling a list item by item, whatever the items are. */
  function CompileSeq<R>(compile: (R, nat) -> Compiled, items: seq<R>, start: nat): Compiled
    decreases |items|
  {
    if items == [] then Ok([], [])
    else
      var first := compile(items[0], start);
      if first.Bad? then Bad else Join(first, CompileSeq(compile, items[1..], start + |first.args|))
  }

  function CompileAll(reqs: seq<Requirement>, start: nat): Compiled {
    CompileSeq(CompileRequirement, reqs, start)
  }

  function CompileSelector(sel: Selector, start: nat): Compiled {
    match sel
    case Nothing => Ok([Never], [])
    case All(reqs) => CompileAll(reqs, start)
  }

  /** buildLabelSelectorFilter: one pass that appends clauses and arguments and advances the placeholder. */
  method BuildLabelSelectorFilter(sel: Selector, startParam: nat) returns (r: Compiled)
    ensures r == CompileSelector(sel, startParam)
  {
    if sel.Nothing? {
      return Ok([Never], []);
    }
    var reqs := sel.requirements;
    var clauses, args, paramIdx: nat := [], [], startParam;
    for i := 0 to |reqs|
      invariant paramIdx == startParam + |args|
      invariant CompileAll(reqs[..i], startParam) == Ok(clauses, args)
    {
      var one := BuildNext(reqs, i, startParam, paramIdx, clauses, args);
      if one.Bad? { return Bad; }
      clauses, args, paramIdx := clauses + one.clauses, args + one.args, paramIdx + |one.args|;
    }
    assert reqs[..|reqs|] == reqs;
    return Ok(clauses, args);
  }

  /** One turn of the loop. */
  method BuildNext(reqs: seq<Requirement>, i: nat, ghost start: nat, paramIdx: nat, ghost clauses: seq<Clause>, ghost args: seq<Arg>)
    returns (one: Compiled)
    requires i < |reqs| && paramIdx == start + |args| && CompileAll(reqs[..i], start) == Ok(clauses, args)
    ensures one.Bad? ==> CompileAll(reqs, start) == Bad
    ensures one.Ok? ==> CompileAll(reqs[..i + 1], start) == Ok(clauses + one.clauses, args + one.args)
  {
    one := BuildRequirement(reqs[i], paramIdx);
    SeqNext(CompileRequirement, reqs, i, start);
  }

  lemma SeqNext<R>(compile: (R, nat) -> Compiled, items: seq<R>, i: nat, start: nat)
    requires i < |items| && CompileSeq(compile, items[..i], start).Ok?
    ensures var front := CompileSeq(compile, items[..i], start);
      var one := compile(items[i], start + |front.args|);
      && CompileSeq(compile, items[..i + 1], start) == Join(front, one)
      && (one.Bad? ==> CompileSeq(compile, items, start) == Bad)
  {
    var front := CompileSeq(compile, items[..i], start);
    assert items[..i + 1] == items[..i] + [items[i]];
    SeqSnoc(compile, items[..i], items[i], start);
    if compile(items[i], start + |front.args|).Bad? {
      assert items == items[..i + 1] + items[i + 1..];
      SeqBadStays(compile, items[..i + 1], items[i + 1..], start);
    }
  }

  lemma SeqCons<R>(compile: (R, nat) -> Compiled, r: R, rest: seq<R>, start: nat)
    ensures var first := compile(r, start);
      CompileSeq(compile, [r] + rest, start) ==
        if first.Bad? then Bad else Join(first, CompileSeq(compile, rest, start + |first.args|))
  {
    assert ([r] + rest)[1..] == rest;
  }

  /** Compiling one more item appends its clauses and arguments. */
  lemma {:induction false} SeqSnoc<R>(compile: (R, nat) -> Compiled, items: seq<R>, r: R, start: nat)
    ensures var front := CompileSeq(compile, items, start);
      CompileSeq(compile, items + [r], start) ==
        if front.Bad? then Bad else Join(front, compile(r, start + |front.args|))
    decreases |items|
  {
    if items == [] {
      assert items + [r] == [r] + [];
      SeqCons(compile, r, [], start);
    } else {
      var first := compile(items[0], start);
      assert items + [r] == [items[0]] + (items[1..] + [r]);
      SeqCons(compile, items[0], items[1..] + [r], start);
      if first.Ok? {
        var rest := CompileSeq(compile, items[1..], start + |first.args|);
        SeqSnoc(compile, items[1..], r, start + |first.args|);
        if rest.Ok? {
          JoinAssociates(first, rest, compile(r, start + |first.args| + |rest.args|));
          assert start + |Join(first, rest).args| == start + |first.args| + |rest.args|;
        }
      }
    }
  }

  lemma {:induction false} SeqBadStays<R>(compile: (R, nat) -> Compiled, items: seq<R>, more: seq<R>, start: nat)
    requires CompileSeq(compile, items, start).Bad?
    ensures CompileSeq(compile, items + more, start).Bad?
    decreases |items|
  {
    var first := compile(items[0], start);
    assert items + more == [items[0]] + (items[1..] + more);
    SeqCons(compile, items[0], items[1..] + more, start);
    if first.Ok? { SeqBadStays(compile, items[1..], more, start + |first.args|); }
  }

  lemma JoinAssociates(a: Compiled, b: Compiled, c: Compiled)
    ensures Join(a, Join(b, c)) == Join(Join(a, b), c)
  {
    if a.Ok? && b.Ok? && c.Ok? {
      assert a.clauses + (b.clauses + c.clauses) == (a.clauses + b.clauses) + c.clauses;
      assert a.args + (b.args + c.args) == (a.args + b.args) + c.args;
    }
  }

  /** The branches for one requirement. */
  method BuildRequirement(req: Requirement, paramIdx: nat) returns (r: Compiled)
    ensures r == CompileRequirement(req, paramIdx)
  {
    match req.op
    case Equals | DoubleEquals | In =>
      if |req.values| == 0 { return Bad; }
      var matches, docs := BuildMatches(req, paramIdx);
      return Ok([ContainsAny(matches)], docs);
    case NotEquals | NotIn =>
      if |req.values| == 0 { return Ok([Always], []); }
      var matches, docs := BuildMatches(req, paramIdx);
      return Ok([NotTrue(ContainsAny(matches))], docs);
    case GreaterThan | LessThan =>
      if |req.values| != 1 { return Bad; }
      if ParseInt(req.values[0]).None? { return Bad; }
      return Ok([Compare(paramIdx, paramIdx + 1, req.op == GreaterThan)], [Text(req.key), Text(req.values[0])]);
    case Exists =>
      return Ok([HasLabel(paramIdx)], [Text(req.key)]);
    case DoesNotExist =>
      return Ok([NotTrue(HasLabel(paramIdx))], [Text(req.key)]);
    case Unsupported =>
      return Bad;
  }

  method BuildMatches(req: Requirement, start: nat) returns (matches: seq<nat>, docs: seq<Arg>)
    ensures matches == Params(start, |req.values|) && docs == Docs(req.key, req.values)
  {
    matches, docs := [], [];
    for i := 0 to |req.values|
      invariant |docs| == i
      invariant Params(start, |req.values|) == matches + Params(start + i, |req.values| - i)
      invariant Docs(req.key, req.values) == docs + Docs(req.key, req.values[i..])
    {
      DocsNext(req.key, req.values, i, docs);
      ParamsNext(start + i, |req.values| - i, matches);
      matches, docs := matches + [start + i], docs + [LabelDoc(req.key, req.values[i])];
    }
    assert req.values[|req.values|..] == [];
  }

  lemma DocsNext(key: string, values: seq<string>, i: nat, docs: seq<Arg>)
    requires i < |values|
    ensures docs + Docs(key, values[i..]) == (docs + [LabelDoc(key, values[i])]) + Docs(key, values[i + 1..])
  {
    assert values[i..][1..] == values[i + 1..];
  }

  lemma ParamsNext(start: nat, n: nat, matches: seq<nat>)
    requires n > 0
    ensures matches + Params(start, n) == (matches + [start]) + Params(start + 1, n - 1)
  {
  }

  // ---- Meaning is preserved ----

  /** PostgreSQL's regular expression and range test accept what strconv.ParseInt accepts, with the same value. */
  lemma IntegersAgree(s: string)
    ensures ParseInt(s).Some? <==> IntegerText(s) && FitsBigint(s)
    ensures ParseInt(s).Some? ==> ParseInt(s).value == IntegerValue(s)
  {
    if s != "" {
      assert s[0] in s;
    }
  }

  lemma {:induction false} AnyMeans(key: string, values: seq<string>, row: Columns, before: seq<Arg>, after: seq<Arg>)
    ensures var t := EvalAny(Params(|before| + 1, |values|), row, before + Docs(key, values) + after);
      if row.labels.None? then t != True
      else t == Truth(key in row.labels.value && row.labels.value[key] in values)
    decreases |values|
  {
    if values != [] {
      var doc := LabelDoc(key, values[0]);
      assert before + Docs(key, values) + after == (before + [doc]) + Docs(key, values[1..]) + after;
      AnyMeans(key, values[1..], row, before + [doc], after);
      var params := Params(|before| + 1, |values|);
      assert params[0] == |before| + 1 && params[1..] == Params(|before| + 2, |values| - 1);
      assert values == [values[0]] + values[1..];
    }
  }

  lemma RequirementMeans(req: Requirement, row: Columns, before: seq<Arg>, after: seq<Arg>)
    requires CompileRequirement(req, |before| + 1).Ok?
    ensures var c := CompileRequirement(req, |before| + 1);
      |c.clauses| == 1 && (Eval(c.clauses[0], row, before + c.args + after) == True <==> Matches(req, LabelsOf(row)))
  {
    var c := CompileRequirement(req, |before| + 1);
    var args := before + c.args + after;
    match req.op
    case Exists => assert args[|before|] == Text(req.key);
    case DoesNotExist => assert args[|before|] == Text(req.key);
    case GreaterThan => NumericMeans(req, row, before, after);
    case LessThan => NumericMeans(req, row, before, after);
    case _ => AnyMeans(req.key, req.values, row, before, after);
  }

  lemma NumericMeans(req: Requirement, row: Columns, before: seq<Arg>, after: seq<Arg>)
    requires req.op == GreaterThan || req.op == LessThan
    requires CompileNumeric(req, |before| + 1).Ok?
    ensures var c := CompileNumeric(req, |before| + 1);
      Eval(c.clauses[0], row, before + c.args + after) == True <==> Matches(req, LabelsOf(row))
  {
    var c := CompileNumeric(req, |before| + 1);
    var args := before + c.args + after;
    assert args[|before|] == Text(req.key) && args[|before| + 1] == Text(req.values[0]);
    IntegersAgree(req.values[0]);
    if row.labels.Some? && req.key in row.labels.value { IntegersAgree(row.labels.value[req.key]); }
  }

  /**
   * For every selector, every label map (or none), every starting placeholder and
   * whatever arguments stand before and after: the compiled clauses are TRUE
   * exactly when the selector matches.
   */
  lemma {:induction false} SelectorMeans(reqs: seq<Requirement>, row: Columns, before: seq<Arg>, after: seq<Arg>)
    requires CompileAll(reqs, |before| + 1).Ok?
    ensures var c := CompileAll(reqs, |before| + 1);
      EvalAll(c.clauses, row, before + c.args + after) == True <==> SelectorMatches(All(reqs), LabelsOf(row))
    decreases |reqs|
  {
    if reqs != [] {
      var first := CompileRequirement(reqs[0], |before| + 1);
      SelectorMeans(reqs[1..], row, before + first.args, after);
      FirstMeans(reqs, first, CompileAll(reqs[1..], |before| + 1 + |first.args|), row, before, after);
      AllCons(reqs, LabelsOf(row));
    }
  }

  /** The first requirement's clause and the others', over one argument list. */
  lemma FirstMeans(reqs: seq<Requirement>, first: Compiled, rest: Compiled, row: Columns, before: seq<Arg>, after: seq<Arg>)
    requires reqs != [] && first == CompileRequirement(reqs[0], |before| + 1) && first.Ok? && rest.Ok?
    ensures var c := Join(first, rest);
      EvalAll(c.clauses, row, before + c.args + after) == True <==>
        Matches(reqs[0], LabelsOf(row)) && EvalAll(rest.clauses, row, (before + first.args) + rest.args + after) == True
  {
    var c := Join(first, rest);
    var args := before + c.args + after;
    assert args == before + first.args + (rest.args + after);
    assert args == (before + first.args) + rest.args + after;
    RequirementMeans(reqs[0], row, before, rest.args + after);
    assert c.clauses == [first.clauses[0]] + rest.clauses;
    EvalAllCons(first.clauses[0], rest.clauses, row, args);
  }

  lemma EvalAllCons(c: Clause, cs: seq<Clause>, row: Columns, args: seq<Arg>)
    ensures EvalAll([c] + cs, row, args) == And(Eval(c, row, args), EvalAll(cs, row, args))
  {
    assert ([c] + cs)[1..] == cs;
  }

  lemma AllCons(reqs: seq<Requirement>, labels: map<string, string>)
    requires reqs != []
    ensures SelectorMatches(All(reqs), labels) <==> Matches(reqs[0], labels) && SelectorMatches(All(reqs[1..]), labels)
  {
    assert forall req :: req in reqs <==> req == reqs[0] || req in reqs[1..];
  }

  /** The requirements the code refuses to translate. */
  predicate Malformed(req: Requirement) {
    match req.op
    case Equals => req.values == []
    case DoubleEquals => req.values == []
    case In => req.values == []
    case GreaterThan => |req.values| != 1 || ParseInt(req.values[0]).None?
    case LessThan => |req.values| != 1 || ParseInt(req.values[0]).None?
    case Unsupported => true
    case _ => false
  }

  lemma {:induction false} CompileFailsExactly(reqs: seq<Requirement>, start: nat)
    ensures CompileAll(reqs, start).Bad? <==> exists req :: req in reqs && Malformed(req)
    decreases |reqs|
  {
    if reqs != [] {
      var first := CompileRequirement(reqs[0], start);
      if first.Ok? { CompileFailsExactly(reqs[1..], start + |first.args|); }
      assert first.Bad? <==> Malformed(reqs[0]);
      assert forall req :: req in reqs <==> req == reqs[0] || req in reqs[1..];
    }
  }
}
