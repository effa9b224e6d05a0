// csv-sql's callback for each row and its printing after the sort (src/sql.c),
// running compiled code, against the plan of the query.

module SqlRun {
  import opened Wrappers
  import opened Rpn
  import opened SqlCompile
  import opened SqlQuery
  import opened SqlOrder

  // Printing lines one after the other.
  ghost function PrintAll(env: Env, plan: Plan<Expr>, lines: seq<Line>, p: Progress): Option<Progress>
    requires GoodPlan(plan)
  {
    if lines == [] then Some(p)
    else
      match PrintAll(env, plan, lines[..|lines| - 1], p)
      case None => None
      case Some(q) =>
        match ValuesOf(env, ColumnExprs(plan.columns), lines[|lines| - 1].row, q.counters)
        case None => None
        case Some(Values(vs, after)) => Some(Progress(q.lines, q.printed + [vs], after))
  }

  // Each line is printed as the values its columns' code computes for its row,
  // line after line, the counters going from one to the next.
  lemma {:induction false} PrintedInOrder(env: Env, plan: Plan<Expr>, lines: seq<Line>, p: Progress)
      returns (between: seq<Counters>)
    requires GoodPlan(plan) && PrintAll(env, plan, lines, p).Some?
    ensures var q := PrintAll(env, plan, lines, p).value;
            && q.lines == p.lines
            && |q.printed| == |p.printed| + |lines| && q.printed[..|p.printed|] == p.printed
            && |between| == |lines| + 1 && between[0] == p.counters && between[|lines|] == q.counters
            && forall a :: 0 <= a < |lines| ==>
                 PrintsLine(env, plan, lines[a].row, between[a], q.printed[|p.printed| + a], between[a + 1])
    decreases |lines|
  {
    hide PrintsLine, ValuesOf, GoodPlan;
    if lines == [] {
      between := [p.counters];
    } else {
      var n := |lines| - 1;
      var before := PrintedInOrder(env, plan, lines[..n], p);
      var mid, q := PrintAll(env, plan, lines[..n], p).value, PrintAll(env, plan, lines, p).value;
      LinePrints(env, plan, lines[n].row, mid.counters);
      between := before + [q.counters];
      forall a | 0 <= a < |lines|
        ensures PrintsLine(env, plan, lines[a].row, between[a], q.printed[|p.printed| + a], between[a + 1])
      {
        if a < n {
          assert lines[..n][a] == lines[a] && q.printed[|p.printed| + a] == mid.printed[|p.printed| + a];
        }
      }
    }
  }

  ghost predicate PrintsLine(env: Env, plan: Plan<Expr>, row: Row, c: Counters, vs: seq<Variant>, after: Counters) {
    exists states ::
      && RunInTurn(env, row, ColumnExprs(plan.columns), vs, states)
      && states[0] == c
      && states[|plan.columns|] == after
  }

  lemma LinePrints(env: Env, plan: Plan<Expr>, row: Row, c: Counters)
    requires GoodPlan(plan)
    ensures match ValuesOf(env, ColumnExprs(plan.columns), row, c)
            case None => true
            case Some(Values(vs, after)) => PrintsLine(env, plan, row, c, vs, after)
  {
    hide ValuesOf, GoodExprs;
    if ValuesOf(env, ColumnExprs(plan.columns), row, c).Some? {
      var states := ValuesInTurn(env, ColumnExprs(plan.columns), row, c);
    }
  }

  lemma ImplementsGood(plan: Plan<Expr>, code: Plan<seq<Token>>)
    requires Implements(plan, code)
    ensures GoodPlan(plan)
  {
  }

  // A list of expressions and its code.
  ghost predicate Codes(es: seq<Expr>, code: seq<seq<Token>>) {
    GoodExprs(es) && |code| == |es| && forall i :: 0 <= i < |es| ==> code[i] == Postfix(es[i])
  }

  class Select {
    const env: Env
    const code: Plan<seq<Token>>
    var lines: seq<Line>
    var printed: seq<seq<Variant>>
    var counters: Counters

    constructor (env: Env, code: Plan<seq<Token>>, counters: Counters)
      ensures this.env == env && this.code == code && Value() == Progress([], [], counters)
    {
      this.env, this.code := env, code;
      lines, printed, this.counters := [], [], counters;
    }

    function Value(): Progress
      reads this
    {
      Progress(lines, printed, counters)
    }

    // The values of compiled expressions, evaluated in turn until one fails.
    method EvalInTurn(exps: seq<seq<Token>>, row: Row, ghost es: seq<Expr>) returns (vs: Option<seq<Variant>>)
      requires Codes(es, exps)
      modifies this`counters
      ensures match ValuesOf(env, es, row, old(counters))
              case None => vs == None
              case Some(Values(all, after)) => vs == Some(all) && counters == after
    {
      hide Evaluate, Eval;
      var values: seq<Variant> := [];
      var i := 0;
      assert es[..0] == [];
      while i < |exps|
        invariant 0 <= i <= |exps|
        invariant ValuesOf(env, es[..i], row, old(counters)) == Some(Values(values, counters))
      {
        assert es[..i + 1][..i] == es[..i] && es[..i + 1][i] == es[i];
        CompiledEvaluates(env, row, es[i], counters);
        var r := Evaluate(env, row, exps[i], counters);
        if r.None? {
          FailsEarly(env, es, i + 1, row, old(counters));
          return None;
        }
        values := values + [r.value.0];
        counters := r.value.1;
        i := i + 1;
      }
      assert es[..i] == es;
      return Some(values);
    }

    method PrintRow(row: Row, ghost plan: Plan<Expr>) returns (ok: bool)
      requires Implements(plan, code)
      modifies this`printed, this`counters
      ensures GoodPlan(plan)
      ensures match ValuesOf(env, ColumnExprs(plan.columns), row, old(counters))
              case None => !ok
              case Some(Values(vs, after)) => ok && printed == old(printed) + [vs] && counters == after
    {
      hide ValuesOf;
      ImplementsGood(plan, code);
      var exps := seq(|code.columns|, i requires 0 <= i < |code.columns| => code.columns[i].def);
      var vs := EvalInTurn(exps, row, ColumnExprs(plan.columns));
      if vs.None? {
        return false;
      }
      printed := printed + [vs.value];
      return true;
    }

    method NextRow(row: Row, ghost plan: Plan<Expr>) returns (ok: bool)
      requires Implements(plan, code)
      modifies this
      ensures GoodPlan(plan)
      ensures match ReadRow(env, plan, row, old(Value()))
              case None => !ok
              case Some(after) => ok && Value() == after
    {
      hide ValuesOf, Evaluate, Eval;
      ImplementsGood(plan, code);
      if code.cond.Some? {
        CompiledEvaluates(env, row, plan.cond.value, counters);
        var r := Evaluate(env, row, code.cond.value, counters);
        if r.None? {
          return false;
        }
        if !r.value.0.Int? {
          return false;
        }
        counters := r.value.1;
        if r.value.0.i == 0 {
          return true;
        }
      }
      if |code.keys| != 0 {
        var exps := seq(|code.keys|, i requires 0 <= i < |code.keys| => code.keys[i].e);
        var order := EvalInTurn(exps, row, KeyExprs(plan.keys));
        if order.None? {
          return false;
        }
        lines := lines + [Line(row, order.value)];
        return true;
      }
      ok := PrintRow(row, plan);
    }

    method ReadAll(rows: seq<Row>, ghost plan: Plan<Expr>) returns (ok: bool)
      requires Implements(plan, code) && lines == [] && printed == []
      modifies this
      ensures GoodPlan(plan)
      ensures match ReadRows(env, plan, rows, old(counters))
              case None => !ok
              case Some(after) => ok && Value() == after
    {
      hide ReadRow;
      ImplementsGood(plan, code);
      var i := 0;
      assert rows[..0] == [];
      while i < |rows|
        invariant 0 <= i <= |rows|
        invariant ReadRows(env, plan, rows[..i], old(counters)) == Some(Value())
      {
        assert rows[..i + 1][..i] == rows[..i];
        ok := NextRow(rows[i], plan);
        if !ok {
          StopsEarly(env, plan, rows, i + 1, old(counters));
          return;
        }
        i := i + 1;
      }
      assert rows[..i] == rows;
      return true;
    }

    // Printing in the order the sort left the row indices in.
    method PrintSorted(rowIdx: seq<nat>, ghost plan: Plan<Expr>) returns (ok: bool)
      requires Implements(plan, code) && forall i :: 0 <= i < |rowIdx| ==> rowIdx[i] < |lines|
      modifies this`printed, this`counters
      ensures GoodPlan(plan)
      ensures match PrintAll(env, plan, Pick(lines, rowIdx), old(Value()))
              case None => !ok
              case Some(after) => ok && Value() == after
    {
      hide ValuesOf, PrintAll, Implements, GoodPlan, ColumnExprs;
      ImplementsGood(plan, code);
      NothingPrinted(env, plan, Value());
      ghost var sorted := Pick(lines, rowIdx);
      var i := 0;
      assert sorted[..0] == [];
      while i < |rowIdx|
        invariant 0 <= i <= |rowIdx|
        invariant PrintAll(env, plan, sorted[..i], old(Value())) == Some(Value())
      {
        OneMorePrinted(env, plan, sorted, i, old(Value()));
        ok := PrintRow(lines[rowIdx[i]].row, plan);
        if !ok {
          PrintStops(env, plan, sorted, i + 1, old(Value()));
          return;
        }
        i := i + 1;
      }
      assert sorted[..i] == sorted;
      return true;
    }
  }

  lemma NothingPrinted(env: Env, plan: Plan<Expr>, p: Progress)
    requires GoodPlan(plan)
    ensures PrintAll(env, plan, [], p) == Some(p)
  {
  }

  lemma OneMorePrinted(env: Env, plan: Plan<Expr>, lines: seq<Line>, i: nat, p: Progress)
    requires GoodPlan(plan) && i < |lines|
    ensures PrintAll(env, plan, lines[..i + 1], p) ==
            match PrintAll(env, plan, lines[..i], p)
            case None => None
            case Some(q) =>
              match ValuesOf(env, ColumnExprs(plan.columns), lines[i].row, q.counters)
              case None => None
              case Some(Values(vs, after)) => Some(Progress(q.lines, q.printed + [vs], after))
  {
    assert lines[..i + 1][..i] == lines[..i] && lines[..i + 1][i] == lines[i];
  }

  lemma {:induction false} FailsEarly(env: Env, es: seq<Expr>, n: nat, row: Row, c: Counters)
    requires GoodExprs(es) && n <= |es| && ValuesOf(env, es[..n], row, c) == None
    ensures ValuesOf(env, es, row, c) == None
    decreases |es| - n
  {
    if n == |es| {
      assert es[..n] == es;
    } else {
      assert es[..n + 1][..n] == es[..n];
      FailsEarly(env, es, n + 1, row, c);
    }
  }

  lemma {:induction false} StopsEarly(env: Env, plan: Plan<Expr>, rows: seq<Row>, n: nat, c: Counters)
    requires GoodPlan(plan) && n <= |rows| && ReadRows(env, plan, rows[..n], c) == None
    ensures ReadRows(env, plan, rows, c) == None
    decreases |rows| - n
  {
    if n == |rows| {
      assert rows[..n] == rows;
    } else {
      assert rows[..n + 1][..n] == rows[..n];
      StopsEarly(env, plan, rows, n + 1, c);
    }
  }

  lemma {:induction false} PrintStops(env: Env, plan: Plan<Expr>, lines: seq<Line>, n: nat, p: Progress)
    requires GoodPlan(plan) && n <= |lines| && PrintAll(env, plan, lines[..n], p) == None
    ensures PrintAll(env, plan, lines, p) == None
    decreases |lines| - n
  {
    if n == |lines| {
      assert lines[..n] == lines;
    } else {
      assert lines[..n + 1][..n] == lines[..n];
      PrintStops(env, plan, lines, n + 1, p);
    }
  }
}
