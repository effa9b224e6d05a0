// What the pieces of a query stand for, in plain terms: calls whose last
// argument is left out, negation, names, column names and tables
// (src/sql.y.in, src/sql-shared.h, src/sql.c).

module SqlMeaning {
  import opened Wrappers
  import opened IntText
  import opened Rpn
  import opened RpnFacts
  import opened OperLaws
  import opened SqlCompile
  import opened SqlQuery

  // ---------------------------------------------------------------- calls without their last argument

  function With(args: Args, last: Expr): Args {
    match args
    case Nil => Cons(last, Nil)
    case Cons(head, tail) => Cons(head, With(tail, last))
  }

  // What the grammar supplies: the largest number as a length, 1 for a search
  // that heeds case, the empty name.
  ghost predicate Supplied(op: Oper, last: Variant) {
    || (op == Substr && last == Int(0x7fff_ffff_ffff_ffff))
    || (op in {Replace, ReplaceBre, ReplaceEre, MatchesBre, MatchesEre} && last == Int(1))
    || (op == NextOf && last == Str(""))
  }

  lemma {:induction false} WithCompiles(headers: seq<Header>, columns: seq<Col<seq<Token>>>, args: Args, last: Variant)
    ensures AllGrammatical(With(args, Const(last))) == AllGrammatical(args)
    ensures Count(With(args, Const(last))) == Count(args) + 1
    ensures CodeAll(headers, columns, With(args, Const(last))) ==
            Join(CodeAll(headers, columns, args), Done([Constant(last)]))
    decreases args
  {
    match args {
      case Nil =>
        assert [Constant(last)] + [] == [] + [Constant(last)];
      case Cons(head, tail) =>
        WithCompiles(headers, columns, tail, last);
        var a, b := Code(headers, columns, head), CodeAll(headers, columns, tail);
        if a.Done? && b.Done? {
          assert a.value + (b.value + [Constant(last)]) == a.value + b.value + [Constant(last)];
        }
    }
  }

  lemma {:induction false} WithEvaluates(
      env: Env, row: Row, names: string -> Option<Variant>, args: Args, last: Variant, c: Counters)
    requires AllGrammatical(args) && AllGrammatical(With(args, Const(last)))
    ensures EvalAll(env, row, names, With(args, Const(last)), c) ==
            match EvalAll(env, row, names, args, c)
            case None => None
            case Some(Values(vs, after)) => Some(Values(vs + [last], after))
    decreases args
  {
    match args {
      case Nil =>
        assert [last] + [] == [] + [last];
      case Cons(head, tail) =>
        var r := Eval(env, row, names, head, c);
        if r.Some? {
          WithEvaluates(env, row, names, tail, last, r.value.1);
          var s := EvalAll(env, row, names, tail, r.value.1);
          if s.Some? {
            assert [r.value.0] + (s.value.vs + [last]) == [r.value.0] + s.value.vs + [last];
          }
        }
    }
  }

  // A call that leaves its last argument out compiles to the tokens of the full
  // call with what the grammar supplies.
  lemma ShortCode(headers: seq<Header>, columns: seq<Col<seq<Token>>>, op: Oper, args: Args, last: Variant)
    requires Grammatical(Short(op, args)) && Supplied(op, last)
    ensures Grammatical(Call(op, With(args, Const(last))))
    ensures Code(headers, columns, Short(op, args)) == Code(headers, columns, Call(op, With(args, Const(last))))
  {
    WithCompiles(headers, columns, args, last);
    var code := CodeAll(headers, columns, args);
    if code.Done? {
      assert code.value + [Constant(last), Operator(op)] == code.value + [Constant(last)] + [Operator(op)];
    }
  }

  // And it has the value of the full call.
  lemma ShortValue(env: Env, row: Row, names: string -> Option<Variant>, op: Oper, args: Args, last: Variant,
                   c: Counters)
    requires Grammatical(Short(op, args)) && Supplied(op, last)
    requires Grammatical(Call(op, With(args, Const(last))))
    ensures Eval(env, row, names, Short(op, args), c) ==
            Eval(env, row, names, Call(op, With(args, Const(last))), c)
  {
    hide Apply;
    WithEvaluates(env, row, names, args, last, c);
    assert Default(op) == last;
  }

  // The operators with such a form, and how many arguments it has.
  lemma ShortForms(op: Oper, args: Args)
    ensures Grammatical(Short(op, args)) <==>
            AllGrammatical(args) && (exists last :: Supplied(op, last)) &&
            Count(args) == if op in {Replace, ReplaceBre, ReplaceEre} then 3 else if op == NextOf then 0 else 2
  {
    assert HasShort(op) ==> Supplied(op, Default(op));
  }

  // The rest of a string from character n on, counted from 1, or from the end
  // for a negative n; all of it from 0 or from before its start.
  function RestFrom(s: string, n: int): string {
    if n > |s| then ""
    else if n > 0 then s[n - 1..]
    else if n < 0 && n + |s| >= 0 then s[|s| + n..]
    else s
  }

  lemma SubstrRest(env: Env, s: string, n: Long, c: Counters)
    requires |s| < LLONG_MAX
    ensures Leaves(env, Substr, [Str(s), Int(n), Int(LLONG_MAX)], c, Some(Str(RestFrom(s, n))))
  {
    hide Leaves;
    SubstrTakes(env, s, n, LLONG_MAX, c);
    assert s[..|s|] == s && s[|s|..|s|] == "";
  }

  lemma TwoValues(env: Env, row: Row, names: string -> Option<Variant>, x: Expr, y: Expr, v: Variant, w: Variant,
                  c: Counters, d: Counters, e: Counters)
    requires Grammatical(x) && Grammatical(y)
    requires Eval(env, row, names, x, c) == Some((v, d)) && Eval(env, row, names, y, d) == Some((w, e))
    ensures AllGrammatical(Cons(y, Nil)) && AllGrammatical(Cons(x, Cons(y, Nil)))
    ensures EvalAll(env, row, names, Cons(x, Cons(y, Nil)), c) == Some(Values([v, w], e))
  {
    hide Eval, Grammatical;
    assert AllGrammatical(Nil) && AllGrammatical(Cons(y, Nil));
    assert EvalAll(env, row, names, Nil, e) == Some(Values([], e));
    assert [w] + [] == [w] && [v] + [w] == [v, w];
    assert EvalAll(env, row, names, Cons(y, Nil), d) == Some(Values([w], e));
  }

  // SUBSTR(s, n) without a length is the rest of the string.
  lemma ShortSubstr(env: Env, row: Row, names: string -> Option<Variant>, x: Expr, y: Expr, s: string, n: Long,
                    c: Counters, d: Counters, e: Counters)
    requires Grammatical(x) && Grammatical(y) && |s| < LLONG_MAX
    requires Eval(env, row, names, x, c) == Some((Str(s), d)) && Eval(env, row, names, y, d) == Some((Int(n), e))
    ensures Grammatical(Short(Substr, Cons(x, Cons(y, Nil))))
    ensures Eval(env, row, names, Short(Substr, Cons(x, Cons(y, Nil))), c) == Some((Str(RestFrom(s, n)), e))
  {
    hide Apply, EvalAll, RestFrom;
    var args := Cons(x, Cons(y, Nil));
    TwoValues(env, row, names, x, y, Str(s), Int(n), c, d, e);
    SubstrRest(env, s, n, e);
    assert [Str(s), Int(n)] + [Int(LLONG_MAX)] == [Str(s), Int(n), Int(LLONG_MAX)];
    assert Count(Cons(y, Nil)) == 1;
  }

  // ---------------------------------------------------------------- negation

  // A minus sign negates; only -2^63 stays what it is. Strings have no negation.
  lemma NegateMeans(env: Env, row: Row, names: string -> Option<Variant>, x: Expr, v: Variant, c: Counters, d: Counters)
    requires Grammatical(x) && Eval(env, row, names, x, c) == Some((v, d))
    ensures Eval(env, row, names, Negate(x), c) ==
            match v
            case Int(i) => Some((Int(if i == LLONG_MIN then i else -i), d))
            case Flt(f) => Some((Flt(env.arith(Sub, env.ofInt(0), f)), d))
            case Str(_) => None
  {
    if v.Int? {
      SumLaws(env, 0, v.i, d);
      hide Apply;
      NegatedInt(env, v.i, d);
    } else {
      FloatArithmetic(env, Sub, Int(0), v, d);
    }
  }

  lemma NegatedInt(env: Env, i: Long, c: Counters)
    ensures Apply(env, Sub, [Int(0), Int(i)], c) == Some((Int(if i == LLONG_MIN then i else -i), c))
  {
  }

  // ---------------------------------------------------------------- names

  // The column is the first with the name, and all before it have other names.
  ghost predicate FirstColumn<T(!new)>(columns: seq<Col<T>>, name: string, i: nat) {
    i < |columns| && columns[i].name == Some(name) &&
    forall j :: 0 <= j < i ==> columns[j].name.Some? && columns[j].name.value != name
  }

  ghost predicate OtherNames<T(!new)>(columns: seq<Col<T>>, name: string) {
    forall j :: 0 <= j < |columns| ==> columns[j].name.Some? && columns[j].name.value != name
  }

  ghost predicate FirstHeader(headers: seq<Header>, name: string, num: nat) {
    num < |headers| && headers[num].name == name && forall j :: 0 <= j < num ==> headers[j].name != name
  }

  lemma {:induction false} FoundFirst<T(!new)>(columns: seq<Col<T>>, name: string, from: nat)
    requires from <= |columns|
    requires forall j :: 0 <= j < from ==> columns[j].name.Some? && columns[j].name.value != name
    ensures forall i: nat :: FindAlias(columns, name, from) == At(i) <==> FirstColumn(columns, name, i)
    ensures FindAlias(columns, name, from) == Absent <==> OtherNames(columns, name)
    decreases |columns| - from
  {
    if from < |columns| && columns[from].name.Some? && columns[from].name.value != name {
      FoundFirst(columns, name, from + 1);
    }
  }

  lemma {:induction false} FoundHeader(headers: seq<Header>, name: string, from: nat)
    requires from <= |headers|
    requires forall j :: 0 <= j < from ==> headers[j].name != name
    ensures forall num: nat :: FindHeader(headers, name, from) == Some(num) <==> FirstHeader(headers, name, num)
    ensures FindHeader(headers, name, from) == None <==> forall j :: 0 <= j < |headers| ==> headers[j].name != name
    decreases |headers| - from
  {
    if from < |headers| && headers[from].name != name {
      FoundHeader(headers, name, from + 1);
    }
  }

  // A name stands for the first query column with it, or else for the first
  // input column with it; without either it is reported.
  lemma NameStandsFor(headers: seq<Header>, columns: seq<Col<Expr>>, name: string)
    ensures forall i: nat :: FirstColumn(columns, name, i) ==>
              Resolve(headers, columns, Name(name)) == Done(columns[i].def)
    ensures OtherNames(columns, name) ==>
              (forall num: nat :: FirstHeader(headers, name, num) ==>
                 Resolve(headers, columns, Name(name)) == Done(Field(num, headers[num].ty))) &&
              ((forall j :: 0 <= j < |headers| ==> headers[j].name != name) ==>
                 Resolve(headers, columns, Name(name)) == Ended(NoColumn(name)))
  {
    hide FindAlias, FindHeader;
    FoundFirst(columns, name, 0);
    FoundHeader(headers, name, 0);
  }

  // ---------------------------------------------------------------- columns and tables

  // `*` is every input column under its own name, and each item is one more
  // column: under its alias, or the input column's name if it is just one, or none.
  lemma {:induction false} ColumnNamed(headers: seq<Header>, columns: seq<Col<Expr>>, items: seq<Item>, k: nat)
    requires k < |items| && PlanColumns(headers, columns, items).Done?
    ensures var all := PlanColumns(headers, columns, items).value;
            && columns <= all && |all| == |columns| + |items|
            && var col := all[|columns| + k];
            col.name ==
              if items[k].alias.Some? then items[k].alias
              else if col.def.Field? && col.def.num < |headers| then Some(headers[col.def.num].name)
              else None
    decreases |items|
  {
    hide Resolve;
    var more := AddItem(headers, columns, items[0]).value;
    Appended(headers, columns, items);
    if k > 0 {
      ColumnNamed(headers, more, items[1..], k - 1);
    } else {
      Appended(headers, more, items[1..]);
    }
  }

  lemma {:induction false} Appended(headers: seq<Header>, columns: seq<Col<Expr>>, items: seq<Item>)
    requires PlanColumns(headers, columns, items).Done?
    ensures var all := PlanColumns(headers, columns, items).value; columns <= all && |all| == |columns| + |items|
    decreases |items|
  {
    hide Resolve;
    if items != [] {
      Appended(headers, AddItem(headers, columns, items[0]).value, items[1..]);
    }
  }

  lemma StarNames(headers: seq<Header>, q: Query)
    requires q.star
    ensures var first := FirstColumns(headers, q);
            |first| == |headers| &&
            forall i :: 0 <= i < |headers| ==> first[i] == Col(Some(headers[i].name), Field(i, headers[i].ty))
  {
  }

  // A query that names another table than `input` does not compile, and no other
  // query is refused for its table.
  lemma OtherTable(headers: seq<Header>, q: Query)
    ensures q.table.Some? && q.table.value != "input" ==> PlanOf(headers, q).Ended?
    ensures PlanOf(headers, q) == Ended(UnknownTable) ==> q.table.Some? && q.table.value != "input"
  {
    hide PlanKeys, PlanColumns, Resolve;
    ItemsNoTable(headers, FirstColumns(headers, q), q.items);
    var columns := PlanColumns(headers, FirstColumns(headers, q), q.items);
    if columns.Done? {
      KeysNoTable(headers, columns.value, q.keys);
      if q.cond.Some? {
        NoTable(headers, columns.value, q.cond.value);
      }
    }
  }

  lemma {:induction false} NoTable(headers: seq<Header>, columns: seq<Col<Expr>>, e: Expr)
    ensures Resolve(headers, columns, e) != Ended(UnknownTable)
    decreases e
  {
    match e {
      case Negate(x) => NoTable(headers, columns, x);
      case Call(_, args) => NoTableAll(headers, columns, args);
      case Short(_, args) => NoTableAll(headers, columns, args);
      case _ =>
    }
  }

  lemma {:induction false} NoTableAll(headers: seq<Header>, columns: seq<Col<Expr>>, args: Args)
    ensures ResolveAll(headers, columns, args) != Ended(UnknownTable)
    decreases args
  {
    match args {
      case Nil =>
      case Cons(head, tail) =>
        NoTable(headers, columns, head);
        NoTableAll(headers, columns, tail);
    }
  }

  lemma {:induction false} ItemsNoTable(headers: seq<Header>, columns: seq<Col<Expr>>, items: seq<Item>)
    ensures PlanColumns(headers, columns, items) != Ended(UnknownTable)
    decreases |items|
  {
    hide Resolve;
    if items != [] {
      NoTable(headers, columns, items[0].e);
      if AddItem(headers, columns, items[0]).Done? {
        ItemsNoTable(headers, AddItem(headers, columns, items[0]).value, items[1..]);
      }
    }
  }

  lemma {:induction false} KeysNoTable(headers: seq<Header>, columns: seq<Col<Expr>>, keys: seq<Key<Expr>>)
    ensures PlanKeys(headers, columns, keys) != Ended(UnknownTable)
    decreases |keys|
  {
    hide Resolve;
    if keys != [] {
      NoTable(headers, columns, keys[0].e);
      KeysNoTable(headers, columns, keys[1..]);
    }
  }
}
