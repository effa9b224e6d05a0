// WHERE and ORDER BY at run time (src/sql.c): which rows are kept, how two
// rows compare, and what a correct sort by that comparison prints.

module Permutations {
  // The images of the elements, in order.
  function Map<A, B>(f: A -> B, s: seq<A>): (r: seq<B>)
    ensures |r| == |s| && forall i :: 0 <= i < |s| ==> r[i] == f(s[i])
  {
    if s == [] then [] else Map(f, s[..|s| - 1]) + [f(s[|s| - 1])]
  }

  lemma Snoc<T>(s: seq<T>, x: T)
    ensures multiset(s + [x]) == multiset(s) + multiset{x}
  {
  }

  lemma {:induction false} Without<T>(s: seq<T>, k: nat)
    requires k < |s|
    ensures multiset(s) == multiset(s[..k] + s[k + 1..]) + multiset{s[k]}
  {
    assert s == s[..k] + [s[k]] + s[k + 1..];
  }

  // Leaving out one element leaves out one image.
  lemma {:induction false} MapWithout<A, B>(f: A -> B, s: seq<A>, k: nat)
    requires k < |s|
    ensures multiset(Map(f, s)) == multiset(Map(f, s[..k] + s[k + 1..])) + multiset{f(s[k])}
  {
    hide Map;
    var rest := s[..k] + s[k + 1..];
    var images := Map(f, s);
    assert Map(f, rest) == images[..k] + images[k + 1..];
    Without(images, k);
  }

  // The images of a permutation are a permutation of the images.
  lemma {:induction false} MapPermutation<A, B>(f: A -> B, a: seq<A>, b: seq<A>)
    requires multiset(a) == multiset(b)
    ensures multiset(Map(f, a)) == multiset(Map(f, b))
    decreases |a|
  {
    if a == [] {
      assert |b| == |multiset(b)| == 0;
    } else {
      var k := Place(a, b);
      var last := |a| - 1;
      Without(b, k);
      Snoc(a[..last], a[last]);
      assert a == a[..last] + [a[last]];
      Cancel(multiset(a[..last]), multiset(b[..k] + b[k + 1..]), a[last]);
      MapPermutation(f, a[..last], b[..k] + b[k + 1..]);
      MapWithout(f, b, k);
      Snoc(Map(f, a[..last]), f(a[last]));
    }
  }

  lemma Cancel<T>(m: multiset<T>, n: multiset<T>, x: T)
    requires m + multiset{x} == n + multiset{x}
    ensures m == n
  {
    assert m == m + multiset{x} - multiset{x};
    assert n == n + multiset{x} - multiset{x};
  }

  // Where the last element of a stands in b.
  lemma Place<A>(a: seq<A>, b: seq<A>) returns (k: nat)
    requires a != [] && multiset(a) == multiset(b)
    ensures k < |b| && b[k] == a[|a| - 1]
  {
    assert a[|a| - 1] in multiset(b);
    k :| 0 <= k < |b| && b[k] == a[|a| - 1];
  }
}

module SqlOrder {
  import opened Wrappers
  import opened Rpn
  import opened RpnFacts
  import opened OperLaws
  import opened Permutations
  import opened SqlCompile
  import opened SqlQuery
  import opened SqlTypes

  // ---------------------------------------------------------------- comparing two keys

  predicate NotNan(env: Env, v: Variant) {
    v.Flt? ==> env.equal(v.d, v.d)
  }

  predicate Same(env: Env, v: Variant, w: Variant) {
    match (v, w)
    case (Int(i), Int(j)) => i == j
    case (Str(s), Str(t)) => s == t
    case (Flt(d), Flt(e)) => env.equal(d, e)
    case _ => false
  }

  predicate Less(env: Env, v: Variant, w: Variant) {
    match (v, w)
    case (Int(i), Int(j)) => i < j
    case (Str(s), Str(t)) => StrLess(s, t)
    case (Flt(d), Flt(e)) => env.less(d, e)
    case _ => false
  }

  // One key of two rows: the same, or in one of the two orders, consistently.
  lemma KeyOrder(env: Env, rank: Double -> int, v: Variant, w: Variant, x: Variant)
    requires DoublesOrdered(env, rank)
    requires TypeOf(v) == TypeOf(w) == TypeOf(x)
    requires NotNan(env, v) && NotNan(env, w) && NotNan(env, x)
    ensures Same(env, v, v) && (Same(env, v, w) <==> Same(env, w, v))
    ensures Same(env, v, w) || Less(env, v, w) || Less(env, w, v)
    ensures !(Less(env, v, w) && Less(env, w, v)) && !(Same(env, v, w) && Less(env, v, w))
    ensures Less(env, v, w) && Less(env, w, x) ==> Less(env, v, x)
    ensures Same(env, v, w) && Less(env, w, x) ==> Less(env, v, x)
    ensures Less(env, v, w) && Same(env, w, x) ==> Less(env, v, x)
    ensures Same(env, v, w) && Same(env, w, x) ==> Same(env, v, x)
  {
    if v.Str? {
      StrLessOrder(v.s, w.s, x.s);
    }
  }

  // ---------------------------------------------------------------- comparing two rows

  // Keys of two rows that can be compared.
  ghost predicate Comparable(x: seq<Variant>, y: seq<Variant>, n: nat) {
    |x| == |y| == n && forall i :: 0 <= i < n ==> TypeOf(x[i]) == TypeOf(y[i])
  }

  ghost predicate NoNan(env: Env, x: seq<Variant>) {
    forall i :: 0 <= i < |x| ==> NotNan(env, x[i])
  }

  // Lexicographic order with the descending keys flipped: the first key that
  // tells the rows apart decides.
  predicate Precedes(env: Env, asc: bool, v: Variant, w: Variant) {
    if asc then Less(env, v, w) else Less(env, w, v)
  }

  ghost predicate Before(env: Env, asc: seq<bool>, x: seq<Variant>, y: seq<Variant>)
    requires Comparable(x, y, |asc|)
  {
    exists i :: 0 <= i < |asc| && Precedes(env, asc[i], x[i], y[i]) && Tied(env, x, y, i)
  }

  // The first n keys are the same.
  ghost predicate Tied(env: Env, x: seq<Variant>, y: seq<Variant>, n: nat)
    requires n <= |x| && n <= |y|
  {
    forall j :: 0 <= j < n ==> Same(env, x[j], y[j])
  }

  // What the comparator computes from key i on.
  function CmpFrom(env: Env, asc: seq<bool>, x: seq<Variant>, y: seq<Variant>, i: nat): int
    requires |x| == |y| == |asc| && i <= |asc|
    decreases |asc| - i
  {
    if i == |asc| then 0
    else if Same(env, x[i], y[i]) then CmpFrom(env, asc, x, y, i + 1)
    else if Less(env, x[i], y[i]) == asc[i] then -1
    else 1
  }

  // The loop of the comparator.
  method Cmp(env: Env, asc: seq<bool>, order1: seq<Variant>, order2: seq<Variant>) returns (r: int)
    requires Comparable(order1, order2, |asc|)
    ensures r == CmpFrom(env, asc, order1, order2, 0)
  {
    var i := 0;
    while i < |asc|
      invariant 0 <= i <= |asc|
      invariant CmpFrom(env, asc, order1, order2, 0) == CmpFrom(env, asc, order1, order2, i)
    {
      var v1, v2 := order1[i], order2[i];
      var less: bool;
      if v1.Int? {
        if v1.i == v2.i {
          i := i + 1;
          continue;
        }
        less := v1.i < v2.i;
      } else if v1.Str? {
        if v1.s == v2.s {
          i := i + 1;
          continue;
        }
        less := StrLess(v1.s, v2.s);
      } else {
        if env.equal(v1.d, v2.d) {
          i := i + 1;
          continue;
        }
        less := env.less(v1.d, v2.d);
      }
      return if less == asc[i] then -1 else 1;
    }
    return 0;
  }

  // What the comparator's answers mean, from any key on.
  lemma {:induction false} CmpMeans(
      env: Env, rank: Double -> int, asc: seq<bool>, x: seq<Variant>, y: seq<Variant>, i: nat)
    requires DoublesOrdered(env, rank) && i <= |asc| && Comparable(x, y, |asc|)
    requires NoNan(env, x) && NoNan(env, y) && Tied(env, x, y, i)
    ensures CmpFrom(env, asc, x, y, i) < 0 <==> Before(env, asc, x, y)
    ensures CmpFrom(env, asc, x, y, i) > 0 <==> Before(env, asc, y, x)
    ensures CmpFrom(env, asc, x, y, i) == 0 <==> Tied(env, x, y, |asc|)
    decreases |asc| - i
  {
    forall j | 0 <= j < |asc|
      ensures Same(env, x[j], y[j]) <==> Same(env, y[j], x[j])
      ensures Same(env, x[j], y[j]) ==> !Less(env, x[j], y[j]) && !Less(env, y[j], x[j])
    {
      KeyOrder(env, rank, x[j], y[j], x[j]);
      KeyOrder(env, rank, y[j], x[j], y[j]);
    }
    if i < |asc| {
      if Same(env, x[i], y[i]) {
        CmpMeans(env, rank, asc, x, y, i + 1);
      } else {
        Decided(env, rank, asc, x, y, i);
      }
    }
  }

  lemma Decided(env: Env, rank: Double -> int, asc: seq<bool>, x: seq<Variant>, y: seq<Variant>, i: nat)
    requires DoublesOrdered(env, rank) && i < |asc| && Comparable(x, y, |asc|)
    requires NoNan(env, x) && NoNan(env, y) && Tied(env, x, y, i) && !Same(env, x[i], y[i])
    ensures Before(env, asc, x, y) <==> Precedes(env, asc[i], x[i], y[i])
    ensures Before(env, asc, y, x) <==> Precedes(env, asc[i], y[i], x[i])
    ensures Precedes(env, asc[i], x[i], y[i]) <==> !Precedes(env, asc[i], y[i], x[i])
    ensures Less(env, x[i], y[i]) <==> !Less(env, y[i], x[i])
  {
    KeyOrder(env, rank, x[i], y[i], x[i]);
    forall j | 0 <= j < i
      ensures Same(env, y[j], x[j]) && !Precedes(env, asc[j], x[j], y[j]) && !Precedes(env, asc[j], y[j], x[j])
    {
      KeyOrder(env, rank, x[j], y[j], x[j]);
      KeyOrder(env, rank, y[j], x[j], y[j]);
    }
    assert Tied(env, y, x, i);
    if Before(env, asc, x, y) {
      var k :| 0 <= k < |asc| && Precedes(env, asc[k], x[k], y[k]) && Tied(env, x, y, k);
      assert k == i;
    }
    if Before(env, asc, y, x) {
      var k :| 0 <= k < |asc| && Precedes(env, asc[k], y[k], x[k]) && Tied(env, y, x, k);
      assert k <= i;
      assert k == i;
    }
  }

  // The comparator is a total preorder: antisymmetric as a sign, and transitive.
  lemma {:induction false} CmpPreorder(
      env: Env, rank: Double -> int, asc: seq<bool>, x: seq<Variant>, y: seq<Variant>, z: seq<Variant>, i: nat)
    requires DoublesOrdered(env, rank) && i <= |asc|
    requires Comparable(x, y, |asc|) && Comparable(y, z, |asc|)
    requires NoNan(env, x) && NoNan(env, y) && NoNan(env, z)
    ensures CmpFrom(env, asc, x, x, i) == 0
    ensures CmpFrom(env, asc, y, x, i) == -CmpFrom(env, asc, x, y, i)
    ensures CmpFrom(env, asc, x, y, i) <= 0 && CmpFrom(env, asc, y, z, i) <= 0 ==> CmpFrom(env, asc, x, z, i) <= 0
    decreases |asc| - i
  {
    if i < |asc| {
      KeyOrder(env, rank, x[i], y[i], z[i]);
      KeyOrder(env, rank, z[i], y[i], x[i]);
      KeyOrder(env, rank, y[i], x[i], z[i]);
      KeyOrder(env, rank, x[i], z[i], y[i]);
      CmpPreorder(env, rank, asc, x, y, z, i + 1);
    }
  }

  lemma SameMeans(env: Env, v: Variant, w: Variant)
    requires TypeOf(v) == TypeOf(w)
    ensures Same(env, v, w) <==> if v.Flt? then env.equal(v.d, w.d) else v == w
  {
  }

  // What decides, in plain terms: while keys tie the next one is looked at, and
  // the first pair that does not tie gives the sign, smaller first if the key is
  // ascending; 0 is left for rows that tie on every key.
  lemma {:induction false} KeyDecides(env: Env, asc: seq<bool>, x: seq<Variant>, y: seq<Variant>, i: nat, k: nat)
    requires Comparable(x, y, |asc|) && i <= k <= |asc|
    requires forall j :: i <= j < k ==> Same(env, x[j], y[j])
    ensures k == |asc| ==> CmpFrom(env, asc, x, y, i) == 0
    ensures k < |asc| ==>
              match (x[k], y[k])
              case (Int(v), Int(w)) => v != w ==> CmpFrom(env, asc, x, y, i) == if (v < w) == asc[k] then -1 else 1
              case (Str(s), Str(t)) =>
                s != t ==> CmpFrom(env, asc, x, y, i) == if StringBefore(s, t) == asc[k] then -1 else 1
              case (Flt(d), Flt(e)) =>
                !env.equal(d, e) ==> CmpFrom(env, asc, x, y, i) == if env.less(d, e) == asc[k] then -1 else 1
              case _ => false
    decreases k - i
  {
    hide StringBefore, StrLess;
    if i < k {
      KeyDecides(env, asc, x, y, i + 1, k);
    } else if k < |asc| && x[k].Str? && y[k].Str? {
      StrLessMeans(x[k].s, y[k].s);
    }
  }

  // Comparing a row with itself gives 0 exactly when none of its keys is NaN.
  lemma {:induction false} CmpReflexive(env: Env, asc: seq<bool>, x: seq<Variant>, i: nat)
    requires |x| == |asc| && i <= |asc|
    ensures CmpFrom(env, asc, x, x, i) == 0 <==> forall j :: i <= j < |x| ==> NotNan(env, x[j])
    decreases |asc| - i
  {
    if i < |asc| {
      CmpReflexive(env, asc, x, i + 1);
    }
  }

  // ---------------------------------------------------------------- next_row

  // A kept line with the values of its sort keys.
  datatype Line = Line(row: Row, order: seq<Variant>)

  // Whether a row passes WHERE; None where the program exits or aborts.
  function Passes(env: Env, cond: Option<Expr>, row: Row, c: Counters): Option<(bool, Counters)>
    requires cond.Some? ==> Grammatical(cond.value)
  {
    if cond.None? then Some((true, c))
    else
      match Eval(env, row, Nameless, cond.value, c)
      case None => None
      case Some((v, after)) => if v.Int? then Some((v.i != 0, after)) else None
  }

  // The abort the source takes to be impossible is reached, for a condition
  // that evaluates, if and only if the condition is no integer expression.
  lemma AbortsExactly(env: Env, cond: Expr, row: Row, c: Counters)
    requires Grammatical(cond) && NameFree(cond) && Eval(env, row, Nameless, cond, c).Some?
    ensures Passes(env, Some(cond), row, c) == None <==> TrueType(cond) != IntType
  {
    EvalType(env, row, cond, c);
  }

  ghost predicate GoodExprs(es: seq<Expr>) {
    forall i :: 0 <= i < |es| ==> Grammatical(es[i]) && NameFree(es[i])
  }

  // The values of expressions evaluated one after the other.
  ghost function ValuesOf(env: Env, es: seq<Expr>, row: Row, c: Counters): (r: Option<Values>)
    requires GoodExprs(es)
    ensures r.Some? ==> |r.value.vs| == |es|
  {
    if es == [] then Some(Values([], c))
    else
      match ValuesOf(env, es[..|es| - 1], row, c)
      case None => None
      case Some(Values(vs, after)) =>
        match Eval(env, row, Nameless, es[|es| - 1], after)
        case None => None
        case Some((v, last)) => Some(Values(vs + [v], last))
  }

  function KeyExprs(keys: seq<Key<Expr>>): (es: seq<Expr>)
    ensures |es| == |keys| && forall i :: 0 <= i < |keys| ==> es[i] == keys[i].e
  {
    seq(|keys|, i requires 0 <= i < |keys| => keys[i].e)
  }

  function Directions<T>(keys: seq<Key<T>>): (asc: seq<bool>)
    ensures |asc| == |keys| && forall i :: 0 <= i < |keys| ==> asc[i] == keys[i].asc
  {
    seq(|keys|, i requires 0 <= i < |keys| => keys[i].asc)
  }

  function ColumnExprs(columns: seq<Col<Expr>>): (es: seq<Expr>)
    ensures |es| == |columns| && forall i :: 0 <= i < |columns| ==> es[i] == columns[i].def
  {
    seq(|columns|, i requires 0 <= i < |columns| => columns[i].def)
  }

  ghost predicate GoodPlan(plan: Plan<Expr>) {
    && GoodExprs(KeyExprs(plan.keys))
    && GoodExprs(ColumnExprs(plan.columns))
    && (plan.cond.Some? ==> Grammatical(plan.cond.value) && NameFree(plan.cond.value))
  }

  // What reading rows leaves behind: with ORDER BY the lines kept, without it
  // the rows printed, each in the order read.
  datatype Progress = Progress(lines: seq<Line>, printed: seq<seq<Variant>>, counters: Counters)

  // What is evaluated for a row that passes: its sort keys, or without ORDER BY
  // the columns to print.
  function Wanted(plan: Plan<Expr>): seq<Expr> {
    if plan.keys == [] then ColumnExprs(plan.columns) else KeyExprs(plan.keys)
  }

  ghost function ReadRow(env: Env, plan: Plan<Expr>, row: Row, p: Progress): Option<Progress>
    requires GoodPlan(plan)
  {
    match Passes(env, plan.cond, row, p.counters)
    case None => None
    case Some((passes, after)) =>
      if !passes then Some(p.(counters := after))
      else
        match ValuesOf(env, Wanted(plan), row, after)
        case None => None
        case Some(Values(vs, last)) =>
          Some(if plan.keys == [] then Progress(p.lines, p.printed + [vs], last)
               else Progress(p.lines + [Line(row, vs)], p.printed, last))
  }

  // The code of the expressions, run one after the other, gives the values, each
  // with the counters that the one before it left.
  ghost predicate RunInTurn(
      env: Env, row: Row, es: seq<Expr>, vs: seq<Variant>, states: seq<Counters>)
  {
    |vs| == |es| && |states| == |es| + 1 &&
    forall m :: 0 <= m < |es| ==>
      Evaluate(env, row, Postfix(es[m]), states[m]) == Some((vs[m], states[m + 1]))
  }

  lemma {:induction false} ValuesInTurn(env: Env, es: seq<Expr>, row: Row, c: Counters) returns (states: seq<Counters>)
    requires GoodExprs(es) && ValuesOf(env, es, row, c).Some?
    ensures var r := ValuesOf(env, es, row, c).value;
            |states| == |es| + 1 && RunInTurn(env, row, es, r.vs, states) &&
            states[0] == c && states[|es|] == r.counters
    decreases |es|
  {
    hide Evaluate, Eval, Grammatical, NameFree;
    if es == [] {
      states := [c];
    } else {
      var n := |es| - 1;
      var before := ValuesInTurn(env, es[..n], row, c);
      CompiledEvaluates(env, row, es[n], before[n]);
      states := before + [ValuesOf(env, es, row, c).value.counters];
      var vs := ValuesOf(env, es, row, c).value.vs;
      forall m | 0 <= m < |es|
        ensures Evaluate(env, row, Postfix(es[m]), states[m]) == Some((vs[m], states[m + 1]))
      {
        if m < n {
          assert es[..n][m] == es[m] && before[m] == states[m] && before[m + 1] == states[m + 1];
        }
      }
    }
  }

  // What one row does, read off its code: without WHERE, or if the code of WHERE
  // gives a number other than 0, the row is taken with the counters left; 0 drops
  // it and keeps those counters; anything else ends the program.
  lemma WhereJudges(env: Env, plan: Plan<Expr>, row: Row, p: Progress)
    requires GoodPlan(plan)
    ensures var all := plan.(cond := None);
            match plan.cond
            case None => true
            case Some(cond) =>
              match Evaluate(env, row, Postfix(cond), p.counters)
              case Some((Int(i), after)) =>
                ReadRow(env, plan, row, p) ==
                if i == 0 then Some(p.(counters := after)) else ReadRow(env, all, row, p.(counters := after))
              case _ => ReadRow(env, plan, row, p) == None
  {
    hide Evaluate, Eval, ValuesOf, GoodExprs;
    if plan.cond.Some? {
      CompiledEvaluates(env, row, plan.cond.value, p.counters);
    }
  }

  // What taking a row does: with ORDER BY it is kept with the values of its keys,
  // without it the values of its columns are printed.
  lemma RowTaken(env: Env, plan: Plan<Expr>, row: Row, p: Progress) returns (states: seq<Counters>)
    requires GoodPlan(plan) && plan.cond == None && ReadRow(env, plan, row, p).Some?
    ensures var q := ReadRow(env, plan, row, p).value;
            |states| == |Wanted(plan)| + 1 && states[0] == p.counters && q.counters == states[|Wanted(plan)|] &&
            if plan.keys != [] then
              |q.lines| == |p.lines| + 1 && q.lines[..|p.lines|] == p.lines && q.printed == p.printed &&
              q.lines[|p.lines|].row == row &&
              RunInTurn(env, row, KeyExprs(plan.keys), q.lines[|p.lines|].order, states)
            else
              |q.printed| == |p.printed| + 1 && q.printed[..|p.printed|] == p.printed && q.lines == p.lines &&
              RunInTurn(env, row, ColumnExprs(plan.columns), q.printed[|p.printed|], states)
  {
    hide RunInTurn, ValuesOf, GoodExprs;
    states := ValuesInTurn(env, Wanted(plan), row, p.counters);
    assert RunInTurn(env, row, Wanted(plan), ValuesOf(env, Wanted(plan), row, p.counters).value.vs, states);
  }

  // SELECT a WHERE 'x' compiles, its condition evaluates, and the first row aborts.
  lemma TextConditionAborts(env: Env, headers: seq<Header>, row: Row, p: Progress)
    requires |headers| > 0 && headers[0].name == "a"
    ensures var q := Query(false, [Item(Name("a"), None)], None, Some(Const(Str("x"))), []);
            PlanOf(headers, q).Done? &&
            var plan := PlanOf(headers, q).value;
            GoodPlan(plan) && Eval(env, row, Nameless, plan.cond.value, p.counters).Some? &&
            ReadRow(env, plan, row, p) == None
  {
    var q := Query(false, [Item(Name("a"), None)], None, Some(Const(Str("x"))), []);
    assert FindHeader(headers, "a", 0) == Some(0);
    var a := Field(0, headers[0].ty);
    assert AddItem(headers, [], q.items[0]) == Done([] + [Col(Some("a"), a)]);
    assert [] + [Col(Some("a"), a)] == [Col(Some("a"), a)];
    assert q.items[1..] == [];
    assert PlanOf(headers, q) == Done(Plan([Col(Some("a"), a)], Some(Const(Str("x"))), []));
    AbortsExactly(env, Const(Str("x")), row, p.counters);
  }

  ghost function ReadRows(env: Env, plan: Plan<Expr>, rows: seq<Row>, c: Counters): Option<Progress>
    requires GoodPlan(plan)
  {
    if rows == [] then Some(Progress([], [], c))
    else
      match ReadRows(env, plan, rows[..|rows| - 1], c)
      case None => None
      case Some(p) => ReadRow(env, plan, rows[|rows| - 1], p)
  }

  ghost predicate KeyTypes(es: seq<Expr>, vs: seq<Variant>) {
    |vs| == |es| && forall i :: 0 <= i < |es| ==> TypeOf(vs[i]) == TrueType(es[i])
  }

  lemma {:induction false} ValueTypes(env: Env, es: seq<Expr>, row: Row, c: Counters)
    requires GoodExprs(es)
    ensures ValuesOf(env, es, row, c).Some? ==> KeyTypes(es, ValuesOf(env, es, row, c).value.vs)
    decreases |es|
  {
    hide Eval, TrueType, Grammatical, NameFree;
    if es != [] {
      ValueTypes(env, es[..|es| - 1], row, c);
      var r := ValuesOf(env, es[..|es| - 1], row, c);
      if r.Some? {
        EvalType(env, row, es[|es| - 1], r.value.counters);
      }
    }
  }

  ghost predicate LinesTyped(es: seq<Expr>, lines: seq<Line>) {
    forall k :: 0 <= k < |lines| ==> KeyTypes(es, lines[k].order)
  }

  lemma OneMoreLine(es: seq<Expr>, lines: seq<Line>, line: Line)
    requires LinesTyped(es, lines) && KeyTypes(es, line.order)
    ensures LinesTyped(es, lines + [line])
  {
  }

  // The keys of a kept line have the types of the ORDER BY expressions, so the
  // comparator's assertion that two lines' keys have equal types holds.
  lemma {:induction false} LineTypes(env: Env, plan: Plan<Expr>, rows: seq<Row>, c: Counters)
    requires GoodPlan(plan)
    ensures match ReadRows(env, plan, rows, c)
            case None => true
            case Some(p) => LinesTyped(KeyExprs(plan.keys), p.lines)
    decreases |rows|
  {
    hide Passes, ValuesOf, KeyTypes, KeyExprs, ColumnExprs;
    if rows != [] {
      LineTypes(env, plan, rows[..|rows| - 1], c);
      var before := ReadRows(env, plan, rows[..|rows| - 1], c);
      if before.Some? {
        var row := rows[|rows| - 1];
        var p := Passes(env, plan.cond, row, before.value.counters);
        if p.Some? {
          var r := ValuesOf(env, KeyExprs(plan.keys), row, p.value.1);
          if r.Some? {
            ValueTypes(env, KeyExprs(plan.keys), row, p.value.1);
            OneMoreLine(KeyExprs(plan.keys), before.value.lines, Line(row, r.value.vs));
          }
        }
      }
    }
  }

  // The rows that pass WHERE, each judged with the counters that reading the
  // rows before it left.
  ghost function Passing(env: Env, plan: Plan<Expr>, rows: seq<Row>, c: Counters): seq<Row>
    requires GoodPlan(plan)
  {
    if rows == [] then []
    else
      var earlier, row := rows[..|rows| - 1], rows[|rows| - 1];
      match ReadRows(env, plan, earlier, c)
      case None => Passing(env, plan, earlier, c)
      case Some(p) =>
        var passes := Passes(env, plan.cond, row, p.counters);
        if passes.Some? && passes.value.0 then Passing(env, plan, earlier, c) + [row]
        else Passing(env, plan, earlier, c)
  }

  // WHERE is missing or its code gives a number other than 0.
  ghost predicate Meets(env: Env, plan: Plan<Expr>, row: Row, c: Counters) {
    plan.cond == None ||
    match Evaluate(env, row, Postfix(plan.cond.value), c)
    case Some((Int(i), _)) => i != 0
    case _ => false
  }

  // Row k meets WHERE with the counters that reading the rows before it leaves.
  ghost predicate Taken(env: Env, plan: Plan<Expr>, rows: seq<Row>, c: Counters, k: nat)
    requires GoodPlan(plan)
  {
    k < |rows| &&
    match ReadRows(env, plan, rows[..k], c)
    case None => false
    case Some(before) => Meets(env, plan, rows[k], before.counters)
  }

  lemma TakenEarlier(env: Env, plan: Plan<Expr>, rows: seq<Row>, c: Counters, k: nat)
    requires GoodPlan(plan) && k < |rows| - 1
    ensures Taken(env, plan, rows[..|rows| - 1], c, k) == Taken(env, plan, rows, c, k)
  {
    hide Meets, ReadRows, GoodPlan;
    assert rows[..|rows| - 1][..k] == rows[..k];
  }

  // The rows that pass, in input order, are those at the positions taken.
  lemma {:induction false} PassingMeans(env: Env, plan: Plan<Expr>, rows: seq<Row>, c: Counters)
      returns (kept: seq<nat>)
    requires GoodPlan(plan)
    ensures forall a, b :: 0 <= a < b < |kept| ==> kept[a] < kept[b]
    ensures forall k: nat :: k in kept <==> Taken(env, plan, rows, c, k)
    ensures |Passing(env, plan, rows, c)| == |kept|
    ensures forall a :: 0 <= a < |kept| ==> kept[a] < |rows| && Passing(env, plan, rows, c)[a] == rows[kept[a]]
    decreases |rows|
  {
    hide Taken, Passing, GoodPlan;
    if rows == [] {
      kept := [];
      NothingTaken(env, plan, c);
    } else {
      var n := |rows| - 1;
      var before := PassingMeans(env, plan, rows[..n], c);
      LastPasses(env, plan, rows, c);
      TakenLast(env, plan, rows, c, before);
      kept := if Taken(env, plan, rows, c, n) then before + [n] else before;
    }
  }

  // One more row, given the positions taken among the rows before it.
  lemma TakenLast(env: Env, plan: Plan<Expr>, rows: seq<Row>, c: Counters, before: seq<nat>)
    requires GoodPlan(plan) && rows != []
    requires forall k: nat :: k in before <==> Taken(env, plan, rows[..|rows| - 1], c, k)
    ensures var n := |rows| - 1;
            var kept := if Taken(env, plan, rows, c, n) then before + [n] else before;
            forall k: nat :: k in kept <==> Taken(env, plan, rows, c, k)
    ensures forall a :: 0 <= a < |before| ==> before[a] < |rows| - 1
  {
    hide Taken, GoodPlan;
    var n := |rows| - 1;
    var kept := if Taken(env, plan, rows, c, n) then before + [n] else before;
    forall k: nat
      ensures k in kept <==> Taken(env, plan, rows, c, k)
    {
      assert k in kept <==> k in before || (k == n && Taken(env, plan, rows, c, n));
      OnlyRows(env, plan, rows, c, k);
      OnlyRows(env, plan, rows[..n], c, k);
      if k < n {
        TakenEarlier(env, plan, rows, c, k);
      }
    }
    forall a | 0 <= a < |before|
      ensures before[a] < n
    {
      assert before[a] in before;
      OnlyRows(env, plan, rows[..n], c, before[a]);
    }
  }

  lemma NothingTaken(env: Env, plan: Plan<Expr>, c: Counters)
    requires GoodPlan(plan)
    ensures Passing(env, plan, [], c) == [] && forall k: nat :: !Taken(env, plan, [], c, k)
  {
  }

  lemma OnlyRows(env: Env, plan: Plan<Expr>, rows: seq<Row>, c: Counters, k: nat)
    requires GoodPlan(plan)
    ensures Taken(env, plan, rows, c, k) ==> k < |rows|
  {
  }

  lemma LastPasses(env: Env, plan: Plan<Expr>, rows: seq<Row>, c: Counters)
    requires GoodPlan(plan) && rows != []
    ensures var n := |rows| - 1;
            Passing(env, plan, rows, c) ==
            Passing(env, plan, rows[..n], c) + if Taken(env, plan, rows, c, n) then [rows[n]] else []
  {
    hide Meets, ReadRows, Passes, GoodPlan;
    var before := ReadRows(env, plan, rows[..|rows| - 1], c);
    if before.Some? {
      PassesMeets(env, plan, rows[|rows| - 1], before.value.counters);
    }
  }

  lemma PassesMeets(env: Env, plan: Plan<Expr>, row: Row, c: Counters)
    requires GoodPlan(plan)
    ensures var p := Passes(env, plan.cond, row, c); Meets(env, plan, row, c) <==> p.Some? && p.value.0
  {
    hide Evaluate, Eval, GoodExprs;
    if plan.cond.Some? {
      CompiledEvaluates(env, row, plan.cond.value, c);
    }
  }

  function RowOf(line: Line): Row {
    line.row
  }

  function RowsOf(lines: seq<Line>): (rows: seq<Row>)
    ensures |rows| == |lines|
  {
    Map(RowOf, lines)
  }

  // With ORDER BY, exactly the rows that pass WHERE are kept, in input order;
  // without it one line is printed for each of them.
  lemma {:induction false} KeepsThePassing(env: Env, plan: Plan<Expr>, rows: seq<Row>, c: Counters)
    requires GoodPlan(plan)
    ensures match ReadRows(env, plan, rows, c)
            case None => true
            case Some(p) =>
              if plan.keys != [] then RowsOf(p.lines) == Passing(env, plan, rows, c) && p.printed == []
              else p.lines == [] && |p.printed| == |Passing(env, plan, rows, c)|
    decreases |rows|
  {
    hide Passes, ValuesOf, KeyExprs, ColumnExprs, Wanted;
    if rows != [] {
      KeepsThePassing(env, plan, rows[..|rows| - 1], c);
    }
  }

  ghost predicate Computes(env: Env, row: Row, es: seq<Expr>, vs: seq<Variant>) {
    exists states :: RunInTurn(env, row, es, vs, states)
  }

  // What is kept or printed for each of them: the values that the code of the
  // sort keys, or of the columns, computes for that very row.
  ghost predicate Recorded(env: Env, plan: Plan<Expr>, rows: seq<Row>, p: Progress) {
    if plan.keys != [] then
      |p.lines| == |rows| && p.printed == [] &&
      forall a :: 0 <= a < |rows| ==>
        p.lines[a].row == rows[a] && Computes(env, rows[a], KeyExprs(plan.keys), p.lines[a].order)
    else
      |p.printed| == |rows| && p.lines == [] &&
      forall a :: 0 <= a < |rows| ==> Computes(env, rows[a], ColumnExprs(plan.columns), p.printed[a])
  }

  lemma RecordMore(env: Env, plan: Plan<Expr>, rows: seq<Row>, row: Row, p: Progress, c: Counters)
    requires GoodPlan(plan) && Recorded(env, plan, rows, p) && ValuesOf(env, Wanted(plan), row, c).Some?
    ensures var r := ValuesOf(env, Wanted(plan), row, c).value;
            Recorded(env, plan, rows + [row],
                     if plan.keys == [] then Progress(p.lines, p.printed + [r.vs], r.counters)
                     else Progress(p.lines + [Line(row, r.vs)], p.printed, r.counters))
  {
    hide RunInTurn, ValuesOf, GoodExprs;
    var states := ValuesInTurn(env, Wanted(plan), row, c);
    assert Computes(env, row, Wanted(plan), ValuesOf(env, Wanted(plan), row, c).value.vs);
    hide Computes;
  }

  lemma NothingRecorded(env: Env, plan: Plan<Expr>, c: Counters)
    ensures Recorded(env, plan, [], Progress([], [], c))
  {
  }

  lemma RecordNone(env: Env, plan: Plan<Expr>, rows: seq<Row>, p: Progress, c: Counters)
    requires Recorded(env, plan, rows, p)
    ensures Recorded(env, plan, rows, p.(counters := c))
  {
  }

  lemma {:induction false} RecordsThePassing(env: Env, plan: Plan<Expr>, rows: seq<Row>, c: Counters)
    requires GoodPlan(plan)
    ensures match ReadRows(env, plan, rows, c)
            case None => true
            case Some(p) => Recorded(env, plan, Passing(env, plan, rows, c), p)
    decreases |rows|
  {
    hide Passes, ValuesOf, KeyExprs, ColumnExprs, Computes, GoodExprs, Recorded;
    NothingRecorded(env, plan, c);
    if rows != [] {
      var n := |rows| - 1;
      RecordsThePassing(env, plan, rows[..n], c);
      var before := ReadRows(env, plan, rows[..n], c);
      if before.Some? {
        var passes := Passes(env, plan.cond, rows[n], before.value.counters);
        if passes.Some? && !passes.value.0 {
          RecordNone(env, plan, Passing(env, plan, rows[..n], c), before.value, passes.value.1);
        }
        if passes.Some? && passes.value.0 && ValuesOf(env, Wanted(plan), rows[n], passes.value.1).Some? {
          RecordMore(env, plan, Passing(env, plan, rows[..n], c), rows[n], before.value, passes.value.1);
        }
      }
    }
  }

  // A condition that does not use `next` judges each row by itself.
  ghost function PassingAlone(env: Env, cond: Option<Expr>, rows: seq<Row>, c: Counters): seq<Row>
    requires cond.Some? ==> Grammatical(cond.value)
  {
    if rows == [] then []
    else
      var before := PassingAlone(env, cond, rows[..|rows| - 1], c);
      var p := Passes(env, cond, rows[|rows| - 1], c);
      if p.Some? && p.value.0 then before + [rows[|rows| - 1]] else before
  }

  lemma PassesPure(env: Env, cond: Option<Expr>, row: Row, c: Counters, d: Counters)
    requires cond.Some? ==> Grammatical(cond.value) && !UsesNext(cond.value)
    ensures match Passes(env, cond, row, d)
            case None => Passes(env, cond, row, c) == None
            case Some((passes, _)) => Passes(env, cond, row, c).Some? && Passes(env, cond, row, c).value.0 == passes
  {
    hide Eval;
    if cond.Some? {
      EvalPure(env, row, Nameless, cond.value, c, d);
    }
  }

  lemma {:induction false} PassingIsAlone(env: Env, plan: Plan<Expr>, rows: seq<Row>, c: Counters)
    requires GoodPlan(plan) && (plan.cond.Some? ==> !UsesNext(plan.cond.value))
    requires ReadRows(env, plan, rows, c).Some?
    ensures Passing(env, plan, rows, c) == PassingAlone(env, plan.cond, rows, c)
    decreases |rows|
  {
    hide Passes, ReadRow;
    if rows != [] {
      var earlier := rows[..|rows| - 1];
      PassingIsAlone(env, plan, earlier, c);
      PassesPure(env, plan.cond, rows[|rows| - 1], c, ReadRows(env, plan, earlier, c).value.counters);
    }
  }

  // ---------------------------------------------------------------- sorting

  function LineAt(lines: seq<Line>): nat -> Line {
    (i: nat) => if i < |lines| then lines[i] else Line([], [])
  }

  // The lines in the order of an index array.
  function Pick(lines: seq<Line>, idx: seq<nat>): (picked: seq<Line>)
    ensures |picked| == |idx|
    ensures forall i :: 0 <= i < |idx| && idx[i] < |lines| ==> picked[i] == lines[idx[i]]
  {
    Map(LineAt(lines), idx)
  }

  function Identity(n: nat): (idx: seq<nat>)
    ensures |idx| == n && forall i :: 0 <= i < n ==> idx[i] == i
  {
    seq(n, i => i)
  }

  // What any correct qsort leaves in the index array: a permutation in which
  // no two neighbours are out of order.
  ghost predicate Sorted(env: Env, asc: seq<bool>, lines: seq<Line>, idx: seq<nat>) {
    && multiset(idx) == multiset(Identity(|lines|))
    && (forall i :: 0 <= i < |idx| ==> idx[i] < |lines|)
    && (forall i :: 0 <= i < |lines| ==> |lines[i].order| == |asc|)
    && (forall i :: 0 < i < |idx| ==>
          CmpFrom(env, asc, lines[idx[i - 1]].order, lines[idx[i]].order, 0) <= 0)
  }

  lemma {:induction false} SortedPairs(
      env: Env, rank: Double -> int, asc: seq<bool>, lines: seq<Line>, idx: seq<nat>, i: nat, j: nat)
    requires DoublesOrdered(env, rank) && Sorted(env, asc, lines, idx) && i <= j < |idx|
    requires forall k :: 0 <= k < |lines| ==> NoNan(env, lines[k].order)
    requires forall k, m :: 0 <= k < |lines| && 0 <= m < |lines| ==> Comparable(lines[k].order, lines[m].order, |asc|)
    ensures CmpFrom(env, asc, lines[idx[i]].order, lines[idx[j]].order, 0) <= 0
    decreases j - i
  {
    hide CmpFrom, Comparable, NoNan, DoublesOrdered;
    var x, z := lines[idx[i]].order, lines[idx[j]].order;
    if i == j {
      CmpPreorder(env, rank, asc, x, x, x, 0);
    } else {
      SortedPairs(env, rank, asc, lines, idx, i, j - 1);
      CmpPreorder(env, rank, asc, x, lines[idx[j - 1]].order, z, 0);
    }
  }

  // Rows x and y stand in the right order as to key k, if the keys before it tie:
  // upwards for an ascending key, downwards for a descending one.
  ghost predicate InOrderAt(env: Env, up: bool, x: seq<Variant>, y: seq<Variant>, k: nat)
    requires k < |x| == |y|
  {
    Tied(env, x, y, k) ==>
      match (x[k], y[k])
      case (Int(v), Int(w)) => if up then v <= w else v >= w
      case (Str(s), Str(t)) => s == t || if up then StringBefore(s, t) else StringBefore(t, s)
      case (Flt(d), Flt(e)) => env.equal(d, e) || if up then env.less(d, e) else env.less(e, d)
      case _ => false
  }

  lemma CmpOrders(env: Env, rank: Double -> int, asc: seq<bool>, x: seq<Variant>, y: seq<Variant>, k: nat)
    requires DoublesOrdered(env, rank) && Comparable(x, y, |asc|) && k < |asc|
    requires NoNan(env, x) && NoNan(env, y) && CmpFrom(env, asc, x, y, 0) <= 0
    ensures InOrderAt(env, asc[k], x, y, k)
  {
    hide CmpFrom, StringBefore;
    if Tied(env, x, y, k) {
      KeyDecides(env, asc, x, y, 0, k);
      if x[k].Str? && y[k].Str? {
        StringsTotal(x[k].s, y[k].s);
      } else if x[k].Flt? {
        assert NotNan(env, x[k]) && NotNan(env, y[k]);
      }
    }
  }

  // The whole of ORDER BY: after reading any rows, whatever correct sort runs,
  // the lines printed are a permutation of exactly the rows that pass WHERE
  // and no line comes before one that should precede it.
  lemma OutputIsSorted(env: Env, rank: Double -> int, plan: Plan<Expr>, rows: seq<Row>, c: Counters, idx: seq<nat>)
    requires DoublesOrdered(env, rank)
    requires GoodPlan(plan) && plan.keys != []
    requires ReadRows(env, plan, rows, c).Some?
    requires forall k :: 0 <= k < |ReadRows(env, plan, rows, c).value.lines| ==>
               NoNan(env, ReadRows(env, plan, rows, c).value.lines[k].order)
    requires Sorted(env, Directions(plan.keys), ReadRows(env, plan, rows, c).value.lines, idx)
    ensures var lines, asc := ReadRows(env, plan, rows, c).value.lines, Directions(plan.keys);
            multiset(RowsOf(Pick(lines, idx))) == multiset(Passing(env, plan, rows, c)) &&
            forall i, j :: 0 <= i < j < |idx| ==>
              Comparable(lines[idx[j]].order, lines[idx[i]].order, |asc|) &&
              !Before(env, asc, lines[idx[j]].order, lines[idx[i]].order) &&
              forall k :: 0 <= k < |plan.keys| ==>
                InOrderAt(env, plan.keys[k].asc, lines[idx[i]].order, lines[idx[j]].order, k)
  {
    hide InOrderAt, ReadRows, CmpFrom, Before, NoNan, DoublesOrdered, TrueType, Passing, Pick, RowsOf, GoodPlan, Sorted;
    var lines, asc := ReadRows(env, plan, rows, c).value.lines, Directions(plan.keys);
    KeepsThePassing(env, plan, rows, c);
    PrintsAPermutation(env, asc, lines, idx);
    LineTypes(env, plan, rows, c);
    LinesComparable(plan.keys, lines);
    forall i, j | 0 <= i < j < |idx|
      ensures Comparable(lines[idx[j]].order, lines[idx[i]].order, |asc|)
      ensures !Before(env, asc, lines[idx[j]].order, lines[idx[i]].order)
      ensures forall k :: 0 <= k < |asc| ==> InOrderAt(env, asc[k], lines[idx[i]].order, lines[idx[j]].order, k)
    {
      InOrder(env, rank, asc, lines, idx, i, j);
    }
  }

  lemma PrintsAPermutation(env: Env, asc: seq<bool>, lines: seq<Line>, idx: seq<nat>)
    requires Sorted(env, asc, lines, idx)
    ensures multiset(RowsOf(Pick(lines, idx))) == multiset(RowsOf(lines))
    ensures forall i :: 0 <= i < |idx| ==> idx[i] < |lines|
  {
    hide Map, CmpFrom;
    MapPermutation(LineAt(lines), idx, Identity(|lines|));
    assert Pick(lines, Identity(|lines|)) == lines;
    MapPermutation(RowOf, Pick(lines, idx), lines);
  }

  lemma LinesComparable(keys: seq<Key<Expr>>, lines: seq<Line>)
    requires LinesTyped(KeyExprs(keys), lines)
    ensures forall k, m :: 0 <= k < |lines| && 0 <= m < |lines| ==>
              Comparable(lines[k].order, lines[m].order, |keys|)
  {
    hide TrueType;
    forall k, m | 0 <= k < |lines| && 0 <= m < |lines|
      ensures Comparable(lines[k].order, lines[m].order, |keys|)
    {
      assert KeyTypes(KeyExprs(keys), lines[k].order) && KeyTypes(KeyExprs(keys), lines[m].order);
    }
  }

  lemma InOrder(env: Env, rank: Double -> int, asc: seq<bool>, lines: seq<Line>, idx: seq<nat>, i: nat, j: nat)
    requires DoublesOrdered(env, rank) && Sorted(env, asc, lines, idx) && i < j < |idx|
    requires forall k :: 0 <= k < |lines| ==> NoNan(env, lines[k].order)
    requires forall k, m :: 0 <= k < |lines| && 0 <= m < |lines| ==> Comparable(lines[k].order, lines[m].order, |asc|)
    ensures Comparable(lines[idx[j]].order, lines[idx[i]].order, |asc|)
    ensures !Before(env, asc, lines[idx[j]].order, lines[idx[i]].order)
    ensures forall k :: 0 <= k < |asc| ==> InOrderAt(env, asc[k], lines[idx[i]].order, lines[idx[j]].order, k)
  {
    hide InOrderAt, CmpFrom, Before, NoNan, DoublesOrdered, Comparable;
    SortedPairs(env, rank, asc, lines, idx, i, j);
    CmpMeans(env, rank, asc, lines[idx[i]].order, lines[idx[j]].order, 0);
    forall k | 0 <= k < |asc|
      ensures InOrderAt(env, asc[k], lines[idx[i]].order, lines[idx[j]].order, k)
    {
      CmpOrders(env, rank, asc, lines[idx[i]].order, lines[idx[j]].order, k);
    }
  }
}
