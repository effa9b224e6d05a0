// Whole queries: columns with aliases, WHERE and ORDER BY (src/sql.y.in,
// src/sql.c), the meaning of aliases, and the compiler's mutable state.

module SqlQuery {
  import opened Wrappers
  import opened Rpn
  import opened SqlCompile

  // ---------------------------------------------------------------- aliases as columns

  // The calls of `next` that one evaluation of the expression makes; a name makes none.
  function NextOps(e: Expr): nat {
    match e
    case Name(_) | Const(_) | Field(_, _) => 0
    case Negate(x) => NextOps(x)
    case Call(op, args) => NextOpsAll(args) + (if op == NextOf then 1 else 0)
    case Short(op, args) => NextOpsAll(args) + (if op == NextOf then 1 else 0)
  }

  function NextOpsAll(args: Args): nat {
    match args
    case Nil => 0
    case Cons(head, tail) => NextOps(head) + NextOpsAll(tail)
  }

  predicate UsesNext(e: Expr) {
    NextOps(e) > 0
  }

  lemma ApplyPure(env: Env, op: Oper, a: seq<Variant>, c: Counters, d: Counters)
    requires |a| == Arity(op) && op != NextOf
    ensures match Apply(env, op, a, d)
            case None => Apply(env, op, a, c) == None
            case Some((v, e)) => Apply(env, op, a, c) == Some((v, c)) && e == d
  {
    hide Compute, Accepts, Logical;
  }

  // Without `next`, a value does not depend on the counters nor move them.
  lemma {:induction false} EvalPure(
      env: Env, row: Row, names: string -> Option<Variant>, e: Expr, c: Counters, d: Counters)
    requires Grammatical(e) && !UsesNext(e)
    ensures match Eval(env, row, names, e, d)
            case None => Eval(env, row, names, e, c) == None
            case Some((v, after)) => Eval(env, row, names, e, c) == Some((v, c)) && after == d
    decreases e
  {
    hide Apply, FieldValue, Default;
    match e {
      case Name(_) =>
      case Const(_) =>
      case Field(_, _) =>
      case Negate(x) =>
        EvalPure(env, row, names, x, c, d);
        var r := Eval(env, row, names, x, d);
        if r.Some? {
          ApplyPure(env, Sub, [Int(0), r.value.0], c, d);
        }
      case Call(op, args) =>
        EvalAllPure(env, row, names, args, c, d);
        var r := EvalAll(env, row, names, args, d);
        if r.Some? {
          ApplyPure(env, op, r.value.vs, c, d);
        }
      case Short(op, args) =>
        EvalAllPure(env, row, names, args, c, d);
        var r := EvalAll(env, row, names, args, d);
        if r.Some? {
          ApplyPure(env, op, r.value.vs + [Default(op)], c, d);
        }
    }
  }

  lemma {:induction false} EvalAllPure(
      env: Env, row: Row, names: string -> Option<Variant>, args: Args, c: Counters, d: Counters)
    requires AllGrammatical(args) && NextOpsAll(args) == 0
    ensures match EvalAll(env, row, names, args, d)
            case None => EvalAll(env, row, names, args, c) == None
            case Some(Values(vs, after)) => EvalAll(env, row, names, args, c) == Some(Values(vs, c)) && after == d
    decreases args
  {
    match args {
      case Nil =>
      case Cons(head, tail) =>
        EvalPure(env, row, names, head, c, d);
        EvalAllPure(env, row, names, tail, c, d);
    }
  }

  lemma ApplyCalls(env: Env, op: Oper, a: seq<Variant>, c: Counters)
    requires |a| == Arity(op)
    ensures match Apply(env, op, a, c)
            case None => true
            case Some((_, after)) => after.calls == c.calls + (if op == NextOf then 1 else 0)
  {
    hide Compute, Accepts, Logical;
  }

  // A successful evaluation calls `next` exactly as often as the operator
  // occurs, whatever the names stand for.
  lemma {:induction false} EvalCalls(env: Env, row: Row, names: string -> Option<Variant>, e: Expr, c: Counters)
    requires Grammatical(e)
    ensures match Eval(env, row, names, e, c)
            case None => true
            case Some((_, after)) => after.calls == c.calls + NextOps(e)
    decreases e
  {
    hide Apply, FieldValue, Default;
    match e {
      case Name(_) =>
      case Const(_) =>
      case Field(_, _) =>
      case Negate(x) =>
        EvalCalls(env, row, names, x, c);
        var r := Eval(env, row, names, x, c);
        if r.Some? {
          ApplyCalls(env, Sub, [Int(0), r.value.0], r.value.1);
        }
      case Call(op, args) =>
        EvalAllCalls(env, row, names, args, c);
        var r := EvalAll(env, row, names, args, c);
        if r.Some? {
          ApplyCalls(env, op, r.value.vs, r.value.counters);
        }
      case Short(op, args) =>
        EvalAllCalls(env, row, names, args, c);
        var r := EvalAll(env, row, names, args, c);
        if r.Some? {
          ApplyCalls(env, op, r.value.vs + [Default(op)], r.value.counters);
        }
    }
  }

  lemma {:induction false} EvalAllCalls(
      env: Env, row: Row, names: string -> Option<Variant>, args: Args, c: Counters)
    requires AllGrammatical(args)
    ensures match EvalAll(env, row, names, args, c)
            case None => true
            case Some(Values(_, after)) => after.calls == c.calls + NextOpsAll(args)
    decreases args
  {
    match args {
      case Nil =>
      case Cons(head, tail) =>
        EvalCalls(env, row, names, head, c);
        var r := Eval(env, row, names, head, c);
        if r.Some? {
          EvalAllCalls(env, row, names, tail, r.value.1);
        }
    }
  }

  // A name read as a column: the value of the first query column with the
  // name, or else the field of the first input column with it.
  function ColumnValue(env: Env, row: Row, headers: seq<Header>, values: seq<Col<Option<Variant>>>, name: string)
      : Option<Variant>
  {
    match FindAlias(values, name, 0)
    case At(i) => values[i].def
    case Unnamed => None
    case Absent =>
      match FindHeader(headers, name, 0)
      case None => None
      case Some(num) => FieldValue(env, row, num, headers[num].ty)
  }

  function ValueOf(env: Env, row: Row, e: Expr, c: Counters): Option<Variant>
    requires Grammatical(e)
  {
    match Eval(env, row, Nameless, e, c)
    case None => None
    case Some((v, _)) => Some(v)
  }

  // The query's earlier columns, as a row of their values.
  function ColumnValues(env: Env, row: Row, columns: seq<Col<Expr>>, c: Counters): (values: seq<Col<Option<Variant>>>)
    requires forall i :: 0 <= i < |columns| ==> Grammatical(columns[i].def)
    ensures |values| == |columns|
  {
    seq(|columns|, i requires 0 <= i < |columns| => Col(columns[i].name, ValueOf(env, row, columns[i].def, c)))
  }

  ghost predicate PlainColumns(columns: seq<Col<Expr>>) {
    forall i :: 0 <= i < |columns| ==> Grammatical(columns[i].def) && NameFree(columns[i].def)
  }

  ghost predicate PureColumns(columns: seq<Col<Expr>>) {
    PlainColumns(columns) && forall i :: 0 <= i < |columns| ==> !UsesNext(columns[i].def)
  }

  // Some name in the expression stands for a query column that uses `next`.
  predicate ReadsNext(columns: seq<Col<Expr>>, e: Expr) {
    match e
    case Name(name) =>
      (match FindAlias(columns, name, 0)
       case At(i) => UsesNext(columns[i].def)
       case _ => false)
    case Const(_) | Field(_, _) => false
    case Negate(x) => ReadsNext(columns, x)
    case Call(_, args) => AnyReadsNext(columns, args)
    case Short(_, args) => AnyReadsNext(columns, args)
  }

  predicate AnyReadsNext(columns: seq<Col<Expr>>, args: Args) {
    match args
    case Nil => false
    case Cons(head, tail) => ReadsNext(columns, head) || AnyReadsNext(columns, tail)
  }

  // Substitution adds calls of `next` exactly where a column that uses it is read.
  lemma {:induction false} ResolveCounts(headers: seq<Header>, columns: seq<Col<Expr>>, e: Expr)
    requires PlainColumns(columns) && Grammatical(e)
    ensures match Resolve(headers, columns, e)
            case Ended(_) => true
            case Done(r) =>
              Grammatical(r) && NameFree(r) && NextOps(r) >= NextOps(e) &&
              (NextOps(r) > NextOps(e) <==> ReadsNext(columns, e))
    decreases e
  {
    match e {
      case Negate(x) => ResolveCounts(headers, columns, x);
      case Call(_, args) => ResolveAllCounts(headers, columns, args);
      case Short(_, args) => ResolveAllCounts(headers, columns, args);
      case _ =>
    }
  }

  lemma {:induction false} ResolveAllCounts(headers: seq<Header>, columns: seq<Col<Expr>>, args: Args)
    requires PlainColumns(columns) && AllGrammatical(args)
    ensures match ResolveAll(headers, columns, args)
            case Ended(_) => true
            case Done(r) =>
              AllGrammatical(r) && AllNameFree(r) && Count(r) == Count(args) && NextOpsAll(r) >= NextOpsAll(args) &&
              (NextOpsAll(r) > NextOpsAll(args) <==> AnyReadsNext(columns, args))
    decreases args
  {
    match args {
      case Nil =>
      case Cons(head, tail) =>
        ResolveCounts(headers, columns, head);
        ResolveAllCounts(headers, columns, tail);
    }
  }

  // The values belong to the columns, except for columns that use `next`, whose
  // values do not matter.
  ghost predicate Holds(
      env: Env, row: Row, columns: seq<Col<Expr>>, values: seq<Col<Option<Variant>>>, at: Counters)
    requires PlainColumns(columns)
  {
    |values| == |columns| &&
    forall i :: 0 <= i < |columns| ==>
      values[i].name == columns[i].name &&
      (UsesNext(columns[i].def) || values[i].def == ValueOf(env, row, columns[i].def, at))
  }

  lemma ColumnValuesHold(env: Env, row: Row, columns: seq<Col<Expr>>, at: Counters)
    requires PlainColumns(columns)
    ensures Holds(env, row, columns, ColumnValues(env, row, columns, at), at)
  {
    hide Eval;
  }

  lemma {:induction false} SameAlias(
      columns: seq<Col<Expr>>, values: seq<Col<Option<Variant>>>, name: string, from: nat)
    requires |values| == |columns| && forall i :: 0 <= i < |columns| ==> values[i].name == columns[i].name
    requires from <= |columns|
    ensures FindAlias(values, name, from) == FindAlias(columns, name, from)
    decreases |columns| - from
  {
    if from < |columns| {
      SameAlias(columns, values, name, from + 1);
    }
  }

  // An alias means a column: an expression that reads no column that uses
  // `next` has, with the aliased expressions substituted, the value it has when
  // every alias is read as a column holding that expression's value, first match
  // first. The expression and the columns it does not read may use `next`.
  lemma {:induction false} AliasIsColumn(
      env: Env, row: Row, headers: seq<Header>, columns: seq<Col<Expr>>, values: seq<Col<Option<Variant>>>, e: Expr,
      c: Counters, at: Counters)
    requires PlainColumns(columns) && Grammatical(e) && !ReadsNext(columns, e)
    requires Holds(env, row, columns, values, at)
    ensures match Resolve(headers, columns, e)
            case Ended(_) => true
            case Done(r) =>
              Grammatical(r) &&
              Eval(env, row, Nameless, r, c) == Eval(env, row, n => ColumnValue(env, row, headers, values, n), e, c)
    decreases e
  {
    hide Apply, FieldValue, Default, FindAlias, FindHeader, NextOps;
    match e {
      case Name(name) =>
        SameAlias(columns, values, name, 0);
        var f := FindAlias(columns, name, 0);
        if f.At? {
          EvalPure(env, row, Nameless, columns[f.index].def, c, at);
        }
      case Const(_) =>
      case Field(_, _) =>
      case Negate(x) => AliasIsColumn(env, row, headers, columns, values, x, c, at);
      case Call(_, args) => AliasesAreColumns(env, row, headers, columns, values, args, c, at);
      case Short(_, args) => AliasesAreColumns(env, row, headers, columns, values, args, c, at);
    }
  }

  lemma {:induction false} AliasesAreColumns(
      env: Env, row: Row, headers: seq<Header>, columns: seq<Col<Expr>>, values: seq<Col<Option<Variant>>>,
      args: Args, c: Counters, at: Counters)
    requires PlainColumns(columns) && AllGrammatical(args) && !AnyReadsNext(columns, args)
    requires Holds(env, row, columns, values, at)
    ensures match ResolveAll(headers, columns, args)
            case Ended(_) => true
            case Done(r) =>
              AllGrammatical(r) && Count(r) == Count(args) &&
              EvalAll(env, row, Nameless, r, c) ==
              EvalAll(env, row, n => ColumnValue(env, row, headers, values, n), args, c)
    decreases args
  {
    hide Holds, ColumnValue;
    match args {
      case Nil =>
      case Cons(head, tail) =>
        AliasIsColumn(env, row, headers, columns, values, head, c, at);
        if Resolve(headers, columns, head).Done? {
          var r := Eval(env, row, Nameless, Resolve(headers, columns, head).value, c);
          AliasesAreColumns(env, row, headers, columns, values, tail, if r.Some? then r.value.1 else c, at);
        }
    }
  }

  // Where an expression reads a column that uses `next`, no values for the
  // columns, nor for any name, give it what its substituted form evaluates to:
  // substitution makes more calls.
  lemma ReadingNextCounts(
      env: Env, row: Row, headers: seq<Header>, columns: seq<Col<Expr>>, names: string -> Option<Variant>, e: Expr,
      c: Counters)
    requires PlainColumns(columns) && Grammatical(e) && Resolve(headers, columns, e).Done? && ReadsNext(columns, e)
    ensures var r := Resolve(headers, columns, e).value;
            Grammatical(r) &&
            var substituted, read := Eval(env, row, Nameless, r, c), Eval(env, row, names, e, c);
            (substituted.Some? && read.Some? ==> substituted.value.1.calls > read.value.1.calls)
  {
    hide Eval, Resolve, ReadsNext, PlainColumns, NextOps;
    ResolveCounts(headers, columns, e);
    EvalCalls(env, row, Nameless, Resolve(headers, columns, e).value, c);
    EvalCalls(env, row, names, e, c);
  }

  // When an alias is a column, exactly: an expression that evaluates has the
  // same value, and leaves the same counters, with its aliases substituted and
  // with them read as columns if and only if none of them stands for a column
  // that uses `next`.
  lemma AliasExact(
      env: Env, row: Row, headers: seq<Header>, columns: seq<Col<Expr>>, values: seq<Col<Option<Variant>>>, e: Expr,
      c: Counters, at: Counters)
    requires PlainColumns(columns) && Grammatical(e) && Resolve(headers, columns, e).Done?
    requires Holds(env, row, columns, values, at)
    ensures var r := Resolve(headers, columns, e).value;
            Grammatical(r) &&
            (Eval(env, row, Nameless, r, c).Some? ==>
               (Eval(env, row, Nameless, r, c) ==
                Eval(env, row, n => ColumnValue(env, row, headers, values, n), e, c)
                <==> !ReadsNext(columns, e)))
  {
    hide Eval, Resolve, ReadsNext, PlainColumns, Holds;
    if ReadsNext(columns, e) {
      ReadingNextCounts(env, row, headers, columns, n => ColumnValue(env, row, headers, values, n), e, c);
    } else {
      AliasIsColumn(env, row, headers, columns, values, e, c, at);
    }
  }

  // An alias of `next` is not a column: `NEXT() AS n` followed by `n - n` counts twice.
  lemma AliasOfNextCountsTwice(env: Env, row: Row, headers: seq<Header>)
    ensures var n := Short(NextOf, Nil);
            var columns := [Col(Some("n"), n)];
            Grammatical(n) &&
            ValueOf(env, row, n, NextCounters.Start()) == Some(Int(1)) &&
            Resolve(headers, columns, Call(Sub, Cons(Name("n"), Cons(Name("n"), Nil)))) ==
            Done(Call(Sub, Cons(n, Cons(n, Nil)))) &&
            ValueOf(env, row, Call(Sub, Cons(n, Cons(n, Nil))), NextCounters.Start()) == Some(Int(-1))
  {
    var n, c := Short(NextOf, Nil), NextCounters.Start();
    TwoNames(headers, n);
    FirstNext(env, row);
    SecondNext(env, row);
    var once := NextCounters.Next(env.hash, c, "").0;
    hide NextCounters.Next, Resolve, ResolveAll;
    var one, two := Cons(n, Nil), Cons(n, Cons(n, Nil));
    assert EvalAll(env, row, Nameless, Nil, NextCounters.Next(env.hash, once, "").0).Some?;
    assert EvalAll(env, row, Nameless, one, once).value.vs == [Int(2)];
    assert EvalAll(env, row, Nameless, two, c).value.vs == [Int(1), Int(2)];
    assert Wrap(1 - 2) == -1;
  }

  lemma TwoNames(headers: seq<Header>, n: Expr)
    ensures Resolve(headers, [Col(Some("n"), n)], Call(Sub, Cons(Name("n"), Cons(Name("n"), Nil)))) ==
            Done(Call(Sub, Cons(n, Cons(n, Nil))))
  {
    var columns := [Col(Some("n"), n)];
    assert Resolve(headers, columns, Name("n")) == Done(n);
    assert ResolveAll(headers, columns, Nil) == Done(Nil);
    assert ResolveAll(headers, columns, Cons(Name("n"), Nil)) == Done(Cons(n, Nil));
  }

  lemma FirstNext(env: Env, row: Row)
    ensures var c := NextCounters.Start();
            Eval(env, row, Nameless, Short(NextOf, Nil), c) == Some((Int(1), NextCounters.Next(env.hash, c, "").0))
  {
    NextCounters.NextCounts(env.hash, [], "");
    assert Wrap(1) == 1;
    assert Str("") == ([] + [Default(NextOf)])[0];
  }

  lemma SecondNext(env: Env, row: Row)
    ensures var c := NextCounters.Next(env.hash, NextCounters.Start(), "").0;
            Eval(env, row, Nameless, Short(NextOf, Nil), c) == Some((Int(2), NextCounters.Next(env.hash, c, "").0))
  {
    assert [""][..0] == [];
    assert NextCounters.Run(env.hash, [""]) == NextCounters.Next(env.hash, NextCounters.Start(), "").0;
    assert NextCounters.Calls([""])[..0] == [];
    NextCounters.NextCounts(env.hash, [""], "");
    assert NextCounters.Occurrences([""], "") == 1;
    assert Wrap(2) == 2;
    assert Str("") == ([] + [Default(NextOf)])[0];
  }

  // ---------------------------------------------------------------- queries

  datatype Item = Item(e: Expr, alias: Option<string>)

  datatype Key<T> = Key(e: T, asc: bool)

  datatype Query = Query(
    star: bool, items: seq<Item>, table: Option<string>, cond: Option<Expr>, keys: seq<Key<Expr>>)

  // A query with its names replaced by what they stand for.
  datatype Plan<T> = Plan(columns: seq<Col<T>>, cond: Option<T>, keys: seq<Key<T>>)

  predicate GrammaticalQuery(q: Query) {
    && (forall i :: 0 <= i < |q.items| ==> Grammatical(q.items[i].e))
    && (q.cond.Some? ==> Grammatical(q.cond.value))
    && (forall i :: 0 <= i < |q.keys| ==> Grammatical(q.keys[i].e))
  }

  function StarColumns(headers: seq<Header>): (columns: seq<Col<Expr>>)
    ensures |columns| == |headers|
  {
    seq(|headers|, i requires 0 <= i < |headers| => Col(Some(headers[i].name), Field(i, headers[i].ty)))
  }

  // A column that is just an input column keeps that column's name.
  function OwnName(headers: seq<Header>, e: Expr): Option<string> {
    if e.Field? && e.num < |headers| then Some(headers[e.num].name) else None
  }

  function AddItem(headers: seq<Header>, columns: seq<Col<Expr>>, item: Item): Outcome<seq<Col<Expr>>> {
    match Resolve(headers, columns, item.e)
    case Ended(why) => Ended(why)
    case Done(r) => Done(columns + [Col(if item.alias.Some? then item.alias else OwnName(headers, r), r)])
  }

  // Each item sees the columns before it.
  function PlanColumns(headers: seq<Header>, columns: seq<Col<Expr>>, items: seq<Item>): Outcome<seq<Col<Expr>>>
    decreases |items|
  {
    if items == [] then Done(columns)
    else
      match AddItem(headers, columns, items[0])
      case Ended(why) => Ended(why)
      case Done(more) => PlanColumns(headers, more, items[1..])
  }

  function PlanKeys(headers: seq<Header>, columns: seq<Col<Expr>>, keys: seq<Key<Expr>>): Outcome<seq<Key<Expr>>> {
    if keys == [] then Done([])
    else
      match Resolve(headers, columns, keys[0].e)
      case Ended(why) => Ended(why)
      case Done(r) =>
        match PlanKeys(headers, columns, keys[1..])
        case Ended(why) => Ended(why)
        case Done(rest) => Done([Key(r, keys[0].asc)] + rest)
  }

  function FirstColumns(headers: seq<Header>, q: Query): seq<Col<Expr>> {
    if q.star then StarColumns(headers) else []
  }

  function PlanCond(headers: seq<Header>, columns: seq<Col<Expr>>, cond: Option<Expr>): Outcome<Option<Expr>> {
    match cond
    case None => Done(None)
    case Some(e) =>
      match Resolve(headers, columns, e)
      case Ended(why) => Ended(why)
      case Done(r) => Done(Some(r))
  }

  // What a query asks for, or why compiling it ends the program.
  function PlanOf(headers: seq<Header>, q: Query): Outcome<Plan<Expr>> {
    match PlanColumns(headers, FirstColumns(headers, q), q.items)
    case Ended(why) => Ended(why)
    case Done(columns) =>
      if q.table.Some? && q.table.value != "input" then Ended(UnknownTable)
      else
        match PlanCond(headers, columns, q.cond)
        case Ended(why) => Ended(why)
        case Done(cond) =>
          match PlanKeys(headers, columns, q.keys)
          case Ended(why) => Ended(why)
          case Done(keys) => Done(Plan(columns, cond, keys))
  }

  // SELECT a + 1, b compares b with the missing name of the first column.
  lemma UnnamedFirstColumn(headers: seq<Header>)
    requires |headers| > 0 && headers[0].name == "a"
    ensures var sum := Call(Add, Cons(Name("a"), Cons(Const(Int(1)), Nil)));
            PlanOf(headers, Query(false, [Item(sum, None), Item(Name("b"), None)], None, None, [])) == Ended(NullName)
  {
    var sum := Call(Add, Cons(Name("a"), Cons(Const(Int(1)), Nil)));
    var items := [Item(sum, None), Item(Name("b"), None)];
    var a := Field(0, headers[0].ty);
    assert FindHeader(headers, "a", 0) == Some(0);
    assert Resolve(headers, [], Name("a")) == Done(a);
    assert ResolveAll(headers, [], Cons(Const(Int(1)), Nil)) == Done(Cons(Const(Int(1)), Nil));
    assert ResolveAll(headers, [], sum.args) == Done(Cons(a, Cons(Const(Int(1)), Nil)));
    var first := [Col(None, Call(Add, Cons(a, Cons(Const(Int(1)), Nil))))];
    assert [] + first == first;
    assert AddItem(headers, [], items[0]) == Done(first);
    assert items[1..] == [items[1]];
    assert AddItem(headers, first, items[1]) == Ended(NullName);
  }

  // ---------------------------------------------------------------- aliases in a query

  ghost predicate PlainItems(items: seq<Item>) {
    forall i :: 0 <= i < |items| ==> Grammatical(items[i].e)
  }

  ghost predicate PureItems(items: seq<Item>) {
    PlainItems(items) && forall i :: 0 <= i < |items| ==> !UsesNext(items[i].e)
  }

  // Every item makes a column, defined by it with the columns before it
  // substituted.
  lemma {:induction false} PlanPlain(headers: seq<Header>, columns: seq<Col<Expr>>, items: seq<Item>)
    requires PlainColumns(columns) && PlainItems(items)
    ensures match PlanColumns(headers, columns, items)
            case Ended(_) => true
            case Done(all) =>
              PlainColumns(all) && columns <= all && |all| == |columns| + |items| &&
              forall k :: 0 <= k < |items| ==>
                Resolve(headers, all[..|columns| + k], items[k].e) == Done(all[|columns| + k].def)
    decreases |items|
  {
    hide Resolve;
    if items != [] && PlanColumns(headers, columns, items).Done? {
      ResolveCounts(headers, columns, items[0].e);
      var more := AddItem(headers, columns, items[0]).value;
      PlanPlain(headers, more, items[1..]);
      var all := PlanColumns(headers, columns, items).value;
      assert all[..|columns|] == columns;
      forall k | 0 <= k < |items|
        ensures Resolve(headers, all[..|columns| + k], items[k].e) == Done(all[|columns| + k].def)
      {
        if k > 0 {
          assert items[1..][k - 1] == items[k];
        }
      }
    }
  }

  lemma {:induction false} PureReadsNothing(columns: seq<Col<Expr>>, e: Expr)
    requires PureColumns(columns)
    ensures !ReadsNext(columns, e)
    decreases e
  {
    hide NextOps;
    match e {
      case Negate(x) => PureReadsNothing(columns, x);
      case Call(_, args) => PureReadsNothingAll(columns, args);
      case Short(_, args) => PureReadsNothingAll(columns, args);
      case _ =>
    }
  }

  lemma {:induction false} PureReadsNothingAll(columns: seq<Col<Expr>>, args: Args)
    requires PureColumns(columns)
    ensures !AnyReadsNext(columns, args)
    decreases args
  {
    match args {
      case Nil =>
      case Cons(head, tail) =>
        PureReadsNothing(columns, head);
        PureReadsNothingAll(columns, tail);
    }
  }

  // Items without `next` make columns without `next`.
  lemma {:induction false} PlanPure(headers: seq<Header>, columns: seq<Col<Expr>>, items: seq<Item>)
    requires PureColumns(columns) && PureItems(items)
    ensures match PlanColumns(headers, columns, items)
            case Ended(_) => true
            case Done(all) =>
              PureColumns(all) && columns <= all && |all| == |columns| + |items| &&
              forall k :: 0 <= k < |items| ==>
                Resolve(headers, all[..|columns| + k], items[k].e) == Done(all[|columns| + k].def)
    decreases |items|
  {
    hide Resolve, NextOps;
    PlanPlain(headers, columns, items);
    if items != [] && PlanColumns(headers, columns, items).Done? {
      ResolveCounts(headers, columns, items[0].e);
      PureReadsNothing(columns, items[0].e);
      PlanPure(headers, AddItem(headers, columns, items[0]).value, items[1..]);
    }
  }

  lemma StarPure(headers: seq<Header>)
    ensures PureColumns(StarColumns(headers))
  {
  }

  // The values of the query's columns, one after the other from the text of the
  // query: each item is evaluated with the columns before it as a row of values.
  ghost function ItemValues(env: Env, row: Row, headers: seq<Header>, q: Query, names: seq<Option<string>>, n: nat,
                            c: Counters): (values: seq<Col<Option<Variant>>>)
    requires n <= |names| == |FirstColumns(headers, q)| + |q.items| && PlainItems(q.items)
    ensures |values| == n
  {
    if n == 0 then []
    else
      var before, first := ItemValues(env, row, headers, q, names, n - 1, c), FirstColumns(headers, q);
      var value :=
        if n - 1 < |first| then FieldValue(env, row, n - 1, headers[n - 1].ty)
        else Valued(Eval(env, row, x => ColumnValue(env, row, headers, before, x), q.items[n - 1 - |first|].e, c));
      before + [Col(names[n - 1], value)]
  }

  function Valued(r: Option<(Variant, Counters)>): Option<Variant> {
    match r
    case None => None
    case Some((v, _)) => Some(v)
  }

  function ColumnNames(columns: seq<Col<Expr>>): (names: seq<Option<string>>)
    ensures |names| == |columns|
  {
    seq(|columns|, i requires 0 <= i < |columns| => columns[i].name)
  }

  // The columns of a query, fully substituted, have exactly the values its text
  // gives them, alias after alias, unless they use `next`; so all of them have if
  // no item uses it.
  lemma {:induction false} ColumnsAreItems(env: Env, row: Row, headers: seq<Header>, q: Query, n: nat, c: Counters)
    requires PlainItems(q.items) && PlanColumns(headers, FirstColumns(headers, q), q.items).Done?
    ensures var all := PlanColumns(headers, FirstColumns(headers, q), q.items).value;
            PlainColumns(all) && |all| == |FirstColumns(headers, q)| + |q.items| &&
            (n <= |all| ==>
               Holds(env, row, all[..n], ItemValues(env, row, headers, q, ColumnNames(all), n, c), c) &&
               (PureItems(q.items) ==>
                  ColumnValues(env, row, all[..n], c) == ItemValues(env, row, headers, q, ColumnNames(all), n, c)))
    decreases n
  {
    hide Eval, Resolve, PlanColumns, FieldValue, FindAlias, NextOps, ItemValues;
    var first := FirstColumns(headers, q);
    StarPure(headers);
    PlanPlain(headers, first, q.items);
    var all := PlanColumns(headers, first, q.items).value;
    if 0 < n <= |all| {
      ColumnsAreItems(env, row, headers, q, n - 1, c);
      ColumnIsItem(env, row, headers, q, n - 1, c);
      assert all[..n] == all[..n - 1] + [all[n - 1]];
    }
    if PureItems(q.items) {
      PlanPure(headers, first, q.items);
    }
  }

  // One column, given that those before it have the values of their items.
  lemma ColumnIsItem(env: Env, row: Row, headers: seq<Header>, q: Query, k: nat, c: Counters)
    requires PlainItems(q.items) && PlanColumns(headers, FirstColumns(headers, q), q.items).Done?
    requires var all := PlanColumns(headers, FirstColumns(headers, q), q.items).value;
             PlainColumns(all) && k < |all| == |FirstColumns(headers, q)| + |q.items| &&
             Holds(env, row, all[..k], ItemValues(env, row, headers, q, ColumnNames(all), k, c), c)
    ensures var all := PlanColumns(headers, FirstColumns(headers, q), q.items).value;
            var values := ItemValues(env, row, headers, q, ColumnNames(all), k + 1, c);
            values[..k] == ItemValues(env, row, headers, q, ColumnNames(all), k, c) &&
            values[k].name == all[k].name &&
            (UsesNext(all[k].def) || values[k].def == ValueOf(env, row, all[k].def, c))
  {
    hide Eval, Resolve, PlanColumns, FieldValue, FindAlias, PlainColumns, PlainItems, Holds, NextOps, UsesNext;
    var first := FirstColumns(headers, q);
    StarPure(headers);
    EmptyPure();
    PlanPlain(headers, first, q.items);
    var all := PlanColumns(headers, first, q.items).value;
    if k < |first| {
      StarValue(env, row, headers, k, c);
      assert all[k] == first[k];
    } else if !UsesNext(all[k].def) {
      var before := ItemValues(env, row, headers, q, ColumnNames(all), k, c);
      ItemMeaning(env, row, headers, all, before, q.items, |first|, k, c);
    }
  }

  lemma EmptyPure()
    ensures PureColumns([])
  {
  }

  lemma StarValue(env: Env, row: Row, headers: seq<Header>, k: nat, c: Counters)
    requires k < |headers|
    ensures var e := StarColumns(headers)[k].def;
            Grammatical(e) && ValueOf(env, row, e, c) == FieldValue(env, row, k, headers[k].ty)
  {
  }

  lemma ItemMeaning(env: Env, row: Row, headers: seq<Header>, all: seq<Col<Expr>>, before: seq<Col<Option<Variant>>>,
                    items: seq<Item>, first: nat, k: nat, c: Counters)
    requires PlainColumns(all) && PlainItems(items) && first <= k < |all| == first + |items|
    requires Resolve(headers, all[..k], items[k - first].e) == Done(all[k].def) && !UsesNext(all[k].def)
    requires Holds(env, row, all[..k], before, c)
    ensures ValueOf(env, row, all[k].def, c) ==
            Valued(Eval(env, row, x => ColumnValue(env, row, headers, before, x), items[k - first].e, c))
  {
    hide Eval, Resolve, FieldValue, FindAlias, NextOps, Holds;
    ResolveCounts(headers, all[..k], items[k - first].e);
    AliasIsColumn(env, row, headers, all[..k], before, items[k - first].e, c, c);
  }

  // Token for token the code of a plan.
  ghost predicate Implements(plan: Plan<Expr>, code: Plan<seq<Token>>) {
    && Compiled(plan.columns, code.columns)
    && (match plan.cond
        case None => code.cond == None
        case Some(e) => code.cond == Some(Postfix(e)) && NameFree(e) && Grammatical(e))
    && KeysCompiled(plan.keys, code.keys)
  }

  ghost predicate KeysCompiled(keys: seq<Key<Expr>>, code: seq<Key<seq<Token>>>) {
    |code| == |keys| &&
    forall i :: 0 <= i < |keys| ==>
      code[i] == Key(Postfix(keys[i].e), keys[i].asc) && NameFree(keys[i].e) && Grammatical(keys[i].e)
  }

  // What an expression of a query means: its value when every name is read as a
  // column, the query's own ones (`before`, evaluated item by item) first.
  ghost function Meaning(env: Env, row: Row, headers: seq<Header>, before: seq<Col<Option<Variant>>>, e: Expr,
                         c: Counters): Option<(Variant, Counters)>
    requires Grammatical(e)
  {
    Eval(env, row, x => ColumnValue(env, row, headers, before, x), e, c)
  }

  // The code has the expression's meaning over the columns if it reads no
  // column that uses `next`, and if it evaluates at all, only then.
  ghost predicate Means(env: Env, row: Row, headers: seq<Header>, columns: seq<Col<Expr>>,
                        values: seq<Col<Option<Variant>>>, e: Expr, code: seq<Token>, c: Counters)
    requires Grammatical(e)
  {
    var got, meant := Evaluate(env, row, code, c), Meaning(env, row, headers, values, e, c);
    (!ReadsNext(columns, e) ==> got == meant) &&
    (got.Some? ==> (got == meant <==> !ReadsNext(columns, e)))
  }

  lemma CompiledMeaning(env: Env, row: Row, headers: seq<Header>, columns: seq<Col<Expr>>,
                        values: seq<Col<Option<Variant>>>, e: Expr, c: Counters)
    requires PlainColumns(columns) && Grammatical(e) && Resolve(headers, columns, e).Done?
    requires Holds(env, row, columns, values, c)
    ensures Means(env, row, headers, columns, values, e, Postfix(Resolve(headers, columns, e).value), c)
  {
    hide Eval, Evaluate, Resolve, Holds, ReadsNext, PlainColumns, Postfix;
    ResolveCounts(headers, columns, e);
    AliasExact(env, row, headers, columns, values, e, c, c);
    if !ReadsNext(columns, e) {
      AliasIsColumn(env, row, headers, columns, values, e, c, c);
    }
    CompiledEvaluates(env, row, Resolve(headers, columns, e).value, c);
  }

  lemma {:induction false} PlanKeysAt(headers: seq<Header>, columns: seq<Col<Expr>>, keys: seq<Key<Expr>>, k: nat)
    requires PlanKeys(headers, columns, keys).Done?
    ensures var planned := PlanKeys(headers, columns, keys).value;
            |planned| == |keys| &&
            (k < |keys| ==> Resolve(headers, columns, keys[k].e) == Done(planned[k].e) && planned[k].asc == keys[k].asc)
    decreases |keys|
  {
    hide Resolve;
    if keys != [] {
      PlanKeysAt(headers, columns, keys[1..], if k > 0 then k - 1 else 0);
    }
  }

  // From the text of a query to the value of its compiled code, through chains
  // of aliases: the code of every item computes the item's meaning over the
  // columns before it, and the code of WHERE and of every sort key its meaning
  // over all columns, exactly if it reads no column that uses `next`.
  lemma QueryMeans(env: Env, row: Row, headers: seq<Header>, q: Query, code: Plan<seq<Token>>, k: nat, c: Counters)
    requires GrammaticalQuery(q)
    requires PlanOf(headers, q).Done? && Implements(PlanOf(headers, q).value, code)
    ensures var all, first := PlanOf(headers, q).value.columns, |FirstColumns(headers, q)|;
            && |code.columns| == |all| == first + |q.items|
            && (k < |q.items| ==>
                  Means(env, row, headers, all[..first + k],
                        ItemValues(env, row, headers, q, ColumnNames(all), first + k, c),
                        q.items[k].e, code.columns[first + k].def, c))
            && (q.cond.Some? ==>
                  code.cond.Some? &&
                  Means(env, row, headers, all, ItemValues(env, row, headers, q, ColumnNames(all), |all|, c),
                        q.cond.value, code.cond.value, c))
            && |code.keys| == |q.keys|
            && (k < |q.keys| ==>
                  code.keys[k].asc == q.keys[k].asc &&
                  Means(env, row, headers, all, ItemValues(env, row, headers, q, ColumnNames(all), |all|, c),
                        q.keys[k].e, code.keys[k].e, c))
  {
    hide Eval, Evaluate, Resolve, PlanColumns, Means, ItemValues, PlanKeys, Postfix, Holds, UsesNext;
    var plan, first := PlanOf(headers, q).value, FirstColumns(headers, q);
    var all := plan.columns;
    assert all == PlanColumns(headers, first, q.items).value;
    StarPure(headers);
    PlanPlain(headers, first, q.items);
    if k < |q.items| {
      ColumnsAreItems(env, row, headers, q, |first| + k, c);
      assert Resolve(headers, all[..|first| + k], q.items[k].e) == Done(all[|first| + k].def);
      var values := ItemValues(env, row, headers, q, ColumnNames(all), |first| + k, c);
      CompiledMeaning(env, row, headers, all[..|first| + k], values, q.items[k].e, c);
    }
    ColumnsAreItems(env, row, headers, q, |all|, c);
    assert all[..|all|] == all;
    var values := ItemValues(env, row, headers, q, ColumnNames(all), |all|, c);
    if q.cond.Some? {
      CompiledMeaning(env, row, headers, all, values, q.cond.value, c);
    }
    PlanKeysAt(headers, all, q.keys, k);
    if k < |q.keys| {
      CompiledMeaning(env, row, headers, all, values, q.keys[k].e, c);
    }
  }
}

module SqlParser {
  import opened Wrappers
  import opened Rpn
  import opened SqlCompile
  import opened SqlQuery

  // The compiler's global state and the actions of the grammar.
  class Parser {
    const headers: seq<Header>
    var tokens: seq<Token>
    var columns: seq<Col<seq<Token>>>
    var cond: Option<seq<Token>>
    var keys: seq<Key<seq<Token>>>

    constructor (headers: seq<Header>)
      ensures this.headers == headers && tokens == [] && columns == [] && cond == None && keys == []
    {
      this.headers := headers;
      tokens, columns, cond, keys := [], [], None, [];
    }

    // sql_stack_push
    method Push(token: Token)
      modifies this`tokens
      ensures tokens == old(tokens) + [token]
    {
      tokens := tokens + [token];
    }

    // sql_stack_push_string
    method PushString(name: string) returns (stop: Option<Stop>)
      modifies this`tokens
      ensures match NameTokens(headers, columns, name)
              case Ended(why) => stop == Some(why)
              case Done(code) => stop == None && tokens == old(tokens) + code
    {
      var i := 0;
      while i < |columns|
        invariant 0 <= i <= |columns|
        invariant FindAlias(columns, name, 0) == FindAlias(columns, name, i)
        invariant tokens == old(tokens)
      {
        if columns[i].name.None? {
          return Some(NullName);
        }
        if columns[i].name.value == name {
          PushTokens(columns[i].def);
          return None;
        }
        i := i + 1;
      }
      i := 0;
      while i < |headers|
        invariant 0 <= i <= |headers|
        invariant FindHeader(headers, name, 0) == FindHeader(headers, name, i)
      {
        if headers[i].name == name {
          Push(Column(i, headers[i].ty));
          return None;
        }
        i := i + 1;
      }
      return Some(NoColumn(name));
    }

    method PushTokens(code: seq<Token>)
      modifies this`tokens
      ensures tokens == old(tokens) + code
    {
      var i := 0;
      while i < |code|
        invariant 0 <= i <= |code|
        invariant tokens == old(tokens) + code[..i]
      {
        Push(code[i]);
        i := i + 1;
      }
      assert code[..|code|] == code;
    }

    // The actions of `expr`, in the order the grammar runs them.
    method Expression(e: Expr) returns (stop: Option<Stop>)
      modifies this`tokens
      ensures match Code(headers, columns, e)
              case Ended(why) => stop == Some(why)
              case Done(code) => stop == None && tokens == old(tokens) + code
      decreases e
    {
      stop := None;
      match e {
        case Name(name) => stop := PushString(name);
        case Const(v) => Push(Constant(v));
        case Field(num, ty) => Push(Column(num, ty));
        case Negate(x) =>
          Push(Constant(Int(0)));
          stop := Expression(x);
          if stop.None? {
            Push(Operator(Sub));
          }
        case Call(op, args) =>
          stop := Arguments(args);
          if stop.None? {
            Push(Operator(op));
          }
        case Short(op, args) =>
          stop := Arguments(args);
          if stop.None? {
            Push(Constant(Default(op)));
            Push(Operator(op));
          }
      }
    }

    method Arguments(args: Args) returns (stop: Option<Stop>)
      modifies this`tokens
      ensures match CodeAll(headers, columns, args)
              case Ended(why) => stop == Some(why)
              case Done(code) => stop == None && tokens == old(tokens) + code
      decreases args
    {
      match args {
        case Nil => stop := None;
        case Cons(head, tail) =>
          stop := Expression(head);
          if stop.None? {
            stop := Arguments(tail);
          }
      }
    }

    // sql_column_done
    method ColumnDone()
      modifies this`tokens, this`columns
      ensures tokens == []
      ensures columns == old(columns) + [Col(
                if |old(tokens)| == 1 && old(tokens)[0].Column? && old(tokens)[0].num < |headers|
                then Some(headers[old(tokens)[0].num].name) else None, old(tokens))]
    {
      var name := None;
      if |tokens| == 1 && tokens[0].Column? && tokens[0].num < |headers| {
        name := Some(headers[tokens[0].num].name);
      }
      columns := columns + [Col(name, tokens)];
      tokens := [];
    }

    // sql_named_column_done
    method NamedColumnDone(name: string)
      modifies this`tokens, this`columns
      ensures tokens == [] && columns == old(columns) + [Col(Some(name), old(tokens))]
    {
      columns := columns + [Col(Some(name), tokens)];
      tokens := [];
    }

    // sql_all_columns
    method AllColumns()
      modifies this`columns
      ensures Compiled(StarColumns(headers), columns)
    {
      columns := [];
      var i := 0;
      while i < |headers|
        invariant 0 <= i <= |headers|
        invariant Compiled(StarColumns(headers)[..i], columns)
      {
        columns := columns + [Col(Some(headers[i].name), [Column(i, headers[i].ty)])];
        i := i + 1;
      }
      assert StarColumns(headers)[..i] == StarColumns(headers);
    }

    method ParseItem(item: Item, ghost plan: seq<Col<Expr>>) returns (stop: Option<Stop>)
      requires tokens == [] && Compiled(plan, columns) && Grammatical(item.e)
      modifies this`tokens, this`columns
      ensures match AddItem(headers, plan, item)
              case Ended(why) => stop == Some(why)
              case Done(more) => stop == None && tokens == [] && Compiled(more, columns)
    {
      CodeIsSubstitution(headers, plan, columns, item.e);
      stop := Expression(item.e);
      if stop.None? {
        ghost var r := Resolve(headers, plan, item.e).value;
        assert |Postfix(r)| == 1 && Postfix(r)[0].Column? <==> r.Field? by {
          OneColumn(r);
        }
        assert tokens == Postfix(r);
        if item.alias.Some? {
          NamedColumnDone(item.alias.value);
        } else {
          ColumnDone();
        }
      }
    }

    // The query: columns, FROM, WHERE, ORDER BY.
    method ParseQuery(q: Query) returns (stop: Option<Stop>)
      requires tokens == [] && columns == [] && cond == None && keys == [] && GrammaticalQuery(q)
      modifies this
      ensures match PlanOf(headers, q)
              case Ended(why) => stop == Some(why)
              case Done(plan) => stop == None && Implements(plan, Plan(columns, cond, keys))
    {
      hide Resolve, PlanKeys, Postfix, Grammatical, NameFree;
      ghost var plan: seq<Col<Expr>> := [];
      if q.star {
        plan := StarColumns(headers);
        AllColumns();
      }
      var i := 0;
      while i < |q.items|
        invariant 0 <= i <= |q.items|
        invariant tokens == [] && cond == None && keys == []
        invariant Compiled(plan, columns)
        invariant PlanColumns(headers, FirstColumns(headers, q), q.items) == PlanColumns(headers, plan, q.items[i..])
      {
        assert q.items[i..][1..] == q.items[i + 1..];
        stop := ParseItem(q.items[i], plan);
        if stop.Some? {
          return;
        }
        plan := AddItem(headers, plan, q.items[i]).value;
        i := i + 1;
      }
      // sql_from
      if q.table.Some? && q.table.value != "input" {
        return Some(UnknownTable);
      }
      if q.cond.Some? {
        CodeIsSubstitution(headers, plan, columns, q.cond.value);
        stop := Expression(q.cond.value);
        if stop.Some? {
          return;
        }
        // sql_end_of_conditions
        assert tokens == Postfix(Resolve(headers, plan, q.cond.value).value);
        cond := Some(tokens);
        tokens := [];
      }
      stop := ParseKeys(q.keys, plan);
    }

    method ParseKeys(order: seq<Key<Expr>>, ghost plan: seq<Col<Expr>>) returns (stop: Option<Stop>)
      requires tokens == [] && keys == [] && Compiled(plan, columns)
      requires forall i :: 0 <= i < |order| ==> Grammatical(order[i].e)
      modifies this`tokens, this`keys
      ensures match PlanKeys(headers, plan, order)
              case Ended(why) => stop == Some(why)
              case Done(planned) => stop == None && KeysCompiled(planned, keys)
    {
      hide Resolve, Code, Postfix, Grammatical, NameFree, Prefixed, PlanKeys;
      ghost var done: seq<Key<Expr>> := [];
      NothingPrefixed(PlanKeys(headers, plan, order));
      assert order[0..] == order;
      var i := 0;
      while i < |order|
        invariant 0 <= i <= |order| && tokens == []
        invariant KeysCompiled(done, keys)
        invariant PlanKeys(headers, plan, order) == Prefixed(done, PlanKeys(headers, plan, order[i..]))
      {
        assert order[i..][1..] == order[i + 1..];
        PrefixedStep(done, headers, plan, order[i..]);
        CodeIsSubstitution(headers, plan, columns, order[i].e);
        stop := Expression(order[i].e);
        if stop.Some? {
          return;
        }
        ghost var r := Resolve(headers, plan, order[i].e).value;
        assert tokens == Postfix(r);
        // sql_order_by_expr_done
        keys := keys + [Key(tokens, order[i].asc)];
        tokens := [];
        done := done + [Key(r, order[i].asc)];
        i := i + 1;
      }
      NothingLeft(done, headers, plan, order[i..]);
      return None;
    }
  }

  ghost function Prefixed(done: seq<Key<Expr>>, rest: Outcome<seq<Key<Expr>>>): Outcome<seq<Key<Expr>>> {
    match rest
    case Ended(why) => Ended(why)
    case Done(keys) => Done(done + keys)
  }

  lemma NothingPrefixed(rest: Outcome<seq<Key<Expr>>>)
    ensures Prefixed([], rest) == rest
  {
    if rest.Done? {
      assert [] + rest.value == rest.value;
    }
  }

  lemma NothingLeft(done: seq<Key<Expr>>, headers: seq<Header>, plan: seq<Col<Expr>>, keys: seq<Key<Expr>>)
    requires keys == []
    ensures Prefixed(done, PlanKeys(headers, plan, keys)) == Done(done)
  {
    assert done + [] == done;
  }

  lemma PrefixedStep(done: seq<Key<Expr>>, headers: seq<Header>, plan: seq<Col<Expr>>, keys: seq<Key<Expr>>)
    requires keys != []
    ensures Prefixed(done, PlanKeys(headers, plan, keys)) ==
            match Resolve(headers, plan, keys[0].e)
            case Ended(why) => Ended(why)
            case Done(r) => Prefixed(done + [Key(r, keys[0].asc)], PlanKeys(headers, plan, keys[1..]))
  {
    var r, rest := Resolve(headers, plan, keys[0].e), PlanKeys(headers, plan, keys[1..]);
    if r.Done? && rest.Done? {
      assert done + ([Key(r.value, keys[0].asc)] + rest.value) == done + [Key(r.value, keys[0].asc)] + rest.value;
    }
  }

  lemma OneColumn(e: Expr)
    requires NameFree(e)
    ensures |Postfix(e)| == 1 && Postfix(e)[0].Column? <==> e.Field?
  {
  }
}
