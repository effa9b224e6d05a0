// The compiler inside csv-sql's grammar (src/sql.y.in, src/sql-shared.h and
// src/sql.c): semantic actions append postfix tokens, and a column's alias
// stands for a copy of the tokens of its expression.

module SqlCompile {
  import opened Wrappers
  import opened IntText
  import opened Rpn

  datatype Header = Header(name: string, ty: Type)

  // What the grammar's `expr` derives, parentheses and precedence resolved.
  // A Short call leaves out a last argument that the grammar then supplies.
  // Field is what a name stands for when it is a column of the input.
  datatype Expr =
    | Name(name: string)
    | Const(v: Variant)
    | Field(num: nat, ty: Type)
    | Negate(e: Expr)
    | Call(op: Oper, args: Args)
    | Short(op: Oper, args: Args)

  datatype Args = Nil | Cons(head: Expr, tail: Args)

  function Count(args: Args): nat {
    match args
    case Nil => 0
    case Cons(_, tail) => 1 + Count(tail)
  }

  // The argument a Short call leaves out: no length limit for SUBSTR, case
  // sensitivity for the searches, the empty name for NEXT.
  function Default(op: Oper): Variant {
    match op
    case Substr => Int(LLONG_MAX)
    case NextOf => Str("")
    case _ => Int(1)
  }

  predicate HasShort(op: Oper) {
    op in {Substr, Replace, ReplaceBre, ReplaceEre, MatchesBre, MatchesEre, NextOf}
  }

  // Every operator has as many operands as the grammar gives it.
  predicate Grammatical(e: Expr) {
    match e
    case Name(_) | Const(_) | Field(_, _) => true
    case Negate(x) => Grammatical(x)
    case Call(op, args) => Count(args) == Arity(op) && AllGrammatical(args)
    case Short(op, args) => HasShort(op) && Count(args) + 1 == Arity(op) && AllGrammatical(args)
  }

  predicate AllGrammatical(args: Args) {
    match args
    case Nil => true
    case Cons(head, tail) => Grammatical(head) && AllGrammatical(tail)
  }

  // ---------------------------------------------------------------- names

  // Why compiling ends the program: a name that is no column is reported, as is
  // a table other than `input`; a name looked up past a column without a name is
  // compared with a null pointer.
  datatype Stop = NoColumn(name: string) | NullName | UnknownTable

  datatype Outcome<+T> = Done(value: T) | Ended(why: Stop)

  // A column of the query: its name, if it has one, and what defines it.
  datatype Col<T> = Col(name: Option<string>, def: T)

  datatype Found = At(index: nat) | Absent | Unnamed

  // The alias lookup: the first column with the name; meeting a column
  // without a name before that compares with a null pointer.
  function FindAlias<T>(columns: seq<Col<T>>, name: string, from: nat): (f: Found)
    requires from <= |columns|
    ensures f.At? ==> from <= f.index < |columns| && columns[f.index].name == Some(name)
    decreases |columns| - from
  {
    if from == |columns| then Absent
    else if columns[from].name == None then Unnamed
    else if columns[from].name.value == name then At(from)
    else FindAlias(columns, name, from + 1)
  }

  function FindHeader(headers: seq<Header>, name: string, from: nat): (num: Option<nat>)
    requires from <= |headers|
    ensures num.Some? ==> from <= num.value < |headers| && headers[num.value].name == name
    decreases |headers| - from
  {
    if from == |headers| then None
    else if headers[from].name == name then Some(from)
    else FindHeader(headers, name, from + 1)
  }

  // ---------------------------------------------------------------- compiling with names

  function Join(a: Outcome<seq<Token>>, b: Outcome<seq<Token>>): Outcome<seq<Token>> {
    if a.Ended? then a else if b.Ended? then b else Done(a.value + b.value)
  }

  // The tokens a name appends.
  function NameTokens(headers: seq<Header>, columns: seq<Col<seq<Token>>>, name: string): Outcome<seq<Token>> {
    match FindAlias(columns, name, 0)
    case At(i) => Done(columns[i].def)
    case Unnamed => Ended(NullName)
    case Absent =>
      match FindHeader(headers, name, 0)
      case None => Ended(NoColumn(name))
      case Some(num) => Done([Column(num, headers[num].ty)])
  }

  // The tokens the semantic actions append for an expression.
  function Code(headers: seq<Header>, columns: seq<Col<seq<Token>>>, e: Expr): Outcome<seq<Token>> {
    match e
    case Name(name) => NameTokens(headers, columns, name)
    case Const(v) => Done([Constant(v)])
    case Field(num, ty) => Done([Column(num, ty)])
    case Negate(x) => Join(Join(Done([Constant(Int(0))]), Code(headers, columns, x)), Done([Operator(Sub)]))
    case Call(op, args) => Join(CodeAll(headers, columns, args), Done([Operator(op)]))
    case Short(op, args) =>
      Join(CodeAll(headers, columns, args), Done([Constant(Default(op)), Operator(op)]))
  }

  function CodeAll(headers: seq<Header>, columns: seq<Col<seq<Token>>>, args: Args): Outcome<seq<Token>> {
    match args
    case Nil => Done([])
    case Cons(head, tail) => Join(Code(headers, columns, head), CodeAll(headers, columns, tail))
  }

  // ---------------------------------------------------------------- substitution

  // The expression with every name replaced by what it stands for.
  function Resolve(headers: seq<Header>, columns: seq<Col<Expr>>, e: Expr): Outcome<Expr> {
    match e
    case Name(name) =>
      (match FindAlias(columns, name, 0)
       case At(i) => Done(columns[i].def)
       case Unnamed => Ended(NullName)
       case Absent =>
         match FindHeader(headers, name, 0)
         case None => Ended(NoColumn(name))
         case Some(num) => Done(Field(num, headers[num].ty)))
    case Const(_) | Field(_, _) => Done(e)
    case Negate(x) =>
      (match Resolve(headers, columns, x)
       case Ended(why) => Ended(why)
       case Done(y) => Done(Negate(y)))
    case Call(op, args) =>
      (match ResolveAll(headers, columns, args)
       case Ended(why) => Ended(why)
       case Done(resolved) => Done(Call(op, resolved)))
    case Short(op, args) =>
      (match ResolveAll(headers, columns, args)
       case Ended(why) => Ended(why)
       case Done(resolved) => Done(Short(op, resolved)))
  }

  function ResolveAll(headers: seq<Header>, columns: seq<Col<Expr>>, args: Args): Outcome<Args> {
    match args
    case Nil => Done(Nil)
    case Cons(head, tail) =>
      var h, t := Resolve(headers, columns, head), ResolveAll(headers, columns, tail);
      if h.Ended? then Ended(h.why)
      else if t.Ended? then Ended(t.why)
      else Done(Cons(h.value, t.value))
  }

  // The tokens of an expression without names.
  function Postfix(e: Expr): seq<Token> {
    match e
    case Name(_) => []
    case Const(v) => [Constant(v)]
    case Field(num, ty) => [Column(num, ty)]
    case Negate(x) => [Constant(Int(0))] + Postfix(x) + [Operator(Sub)]
    case Call(op, args) => PostfixAll(args) + [Operator(op)]
    case Short(op, args) => PostfixAll(args) + [Constant(Default(op)), Operator(op)]
  }

  function PostfixAll(args: Args): seq<Token> {
    match args
    case Nil => []
    case Cons(head, tail) => Postfix(head) + PostfixAll(tail)
  }

  predicate NameFree(e: Expr) {
    match e
    case Name(_) => false
    case Const(_) | Field(_, _) => true
    case Negate(x) => NameFree(x)
    case Call(_, args) => AllNameFree(args)
    case Short(_, args) => AllNameFree(args)
  }

  predicate AllNameFree(args: Args) {
    match args
    case Nil => true
    case Cons(head, tail) => NameFree(head) && AllNameFree(tail)
  }

  // The compiler's columns hold the tokens of the columns defined by expressions.
  ghost predicate Compiled(columns: seq<Col<Expr>>, code: seq<Col<seq<Token>>>) {
    |code| == |columns| &&
    forall i :: 0 <= i < |columns| ==>
      code[i] == Col(columns[i].name, Postfix(columns[i].def)) &&
      NameFree(columns[i].def) && Grammatical(columns[i].def)
  }

  lemma {:induction false} SameFound(columns: seq<Col<Expr>>, code: seq<Col<seq<Token>>>, name: string, from: nat)
    requires Compiled(columns, code) && from <= |code|
    ensures FindAlias(code, name, from) == FindAlias(columns, name, from)
    decreases |columns| - from
  {
    if from < |columns| {
      assert code[from].name == columns[from].name;
      SameFound(columns, code, name, from + 1);
    }
  }

  // Inlining is substitution: what is compiled with aliases copied in is the
  // code of the expression with every alias replaced by what it names, and one
  // is defined exactly when the other is, with the same reason if not.
  lemma {:induction false} CodeIsSubstitution(
      headers: seq<Header>, columns: seq<Col<Expr>>, code: seq<Col<seq<Token>>>, e: Expr)
    requires Compiled(columns, code) && Grammatical(e)
    ensures match Resolve(headers, columns, e)
            case Ended(why) => Code(headers, code, e) == Ended(why)
            case Done(r) => Code(headers, code, e) == Done(Postfix(r)) && NameFree(r) && Grammatical(r)
    decreases e
  {
    match e {
      case Name(name) => SameFound(columns, code, name, 0);
      case Const(_) =>
      case Field(_, _) =>
      case Negate(x) => CodeIsSubstitution(headers, columns, code, x);
      case Call(_, args) => CodeIsSubstitutionAll(headers, columns, code, args);
      case Short(_, args) => CodeIsSubstitutionAll(headers, columns, code, args);
    }
  }

  lemma {:induction false} CodeIsSubstitutionAll(
      headers: seq<Header>, columns: seq<Col<Expr>>, code: seq<Col<seq<Token>>>, args: Args)
    requires Compiled(columns, code) && AllGrammatical(args)
    ensures match ResolveAll(headers, columns, args)
            case Ended(why) => CodeAll(headers, code, args) == Ended(why)
            case Done(r) =>
              CodeAll(headers, code, args) == Done(PostfixAll(r)) && AllNameFree(r) &&
              AllGrammatical(r) && Count(r) == Count(args)
    decreases args
  {
    match args {
      case Nil =>
      case Cons(head, tail) =>
        CodeIsSubstitution(headers, columns, code, head);
        CodeIsSubstitutionAll(headers, columns, code, tail);
    }
  }

  // A lookup meets a null pointer exactly when some column has no name and no
  // column before it has the name looked up.
  lemma {:induction false} UnnamedExact<T>(columns: seq<Col<T>>, name: string, from: nat)
    requires from <= |columns|
    ensures FindAlias(columns, name, from) == Unnamed <==>
            exists i :: from <= i < |columns| && columns[i].name == None &&
              forall j :: from <= j < i ==> columns[j].name.Some? && columns[j].name.value != name
    decreases |columns| - from
  {
    if from < |columns| && columns[from].name.Some? {
      UnnamedExact(columns, name, from + 1);
      if columns[from].name.value != name && FindAlias(columns, name, from + 1) == Unnamed {
        var i :| from + 1 <= i < |columns| && columns[i].name == None &&
          forall j :: from + 1 <= j < i ==> columns[j].name.Some? && columns[j].name.value != name;
        assert forall j :: from <= j < i ==> columns[j].name.Some? && columns[j].name.value != name;
      }
    }
  }

  // While all columns have names, compiling only ends with a report.
  lemma {:induction false} NamedNeverNull(headers: seq<Header>, columns: seq<Col<Expr>>, e: Expr)
    requires forall i :: 0 <= i < |columns| ==> columns[i].name.Some?
    ensures Resolve(headers, columns, e) != Ended(NullName)
    decreases e
  {
    match e {
      case Name(name) => UnnamedExact(columns, name, 0);
      case Negate(x) => NamedNeverNull(headers, columns, x);
      case Call(_, args) => NamedNeverNullAll(headers, columns, args);
      case Short(_, args) => NamedNeverNullAll(headers, columns, args);
      case _ =>
    }
  }

  lemma {:induction false} NamedNeverNullAll(headers: seq<Header>, columns: seq<Col<Expr>>, args: Args)
    requires forall i :: 0 <= i < |columns| ==> columns[i].name.Some?
    ensures ResolveAll(headers, columns, args) != Ended(NullName)
    decreases args
  {
    match args {
      case Nil =>
      case Cons(head, tail) =>
        NamedNeverNull(headers, columns, head);
        NamedNeverNullAll(headers, columns, tail);
    }
  }

  // ---------------------------------------------------------------- direct evaluation

  // The values of arguments, evaluated from left to right.
  datatype Values = Values(vs: seq<Variant>, counters: Counters)

  function Then(env: Env, op: Oper, vs: Option<Values>): Option<(Variant, Counters)>
    requires vs.Some? ==> |vs.value.vs| == Arity(op)
  {
    match vs
    case None => None
    case Some(Values(a, c)) => Apply(env, op, a, c)
  }

  // The value an expression denotes; `names` gives the value of each name, if it has one.
  function Eval(env: Env, row: Row, names: string -> Option<Variant>, e: Expr, c: Counters): Option<(Variant, Counters)>
    requires Grammatical(e)
  {
    match e
    case Name(name) => (match names(name) case None => None case Some(v) => Some((v, c)))
    case Const(v) => Some((v, c))
    case Field(num, ty) => (match FieldValue(env, row, num, ty) case None => None case Some(v) => Some((v, c)))
    case Negate(x) =>
      (match Eval(env, row, names, x, c)
       case None => None
       case Some((v, after)) => Apply(env, Sub, [Int(0), v], after))
    case Call(op, args) => Then(env, op, EvalAll(env, row, names, args, c))
    case Short(op, args) =>
      (match EvalAll(env, row, names, args, c)
       case None => None
       case Some(Values(a, after)) => Apply(env, op, a + [Default(op)], after))
  }

  function EvalAll(env: Env, row: Row, names: string -> Option<Variant>, args: Args, c: Counters): (r: Option<Values>)
    requires AllGrammatical(args)
    ensures r.Some? ==> |r.value.vs| == Count(args)
  {
    match args
    case Nil => Some(Values([], c))
    case Cons(head, tail) =>
      match Eval(env, row, names, head, c)
      case None => None
      case Some((v, after)) =>
        match EvalAll(env, row, names, tail, after)
        case None => None
        case Some(Values(vs, last)) => Some(Values([v] + vs, last))
  }

  // ---------------------------------------------------------------- the compiled code computes the value

  function Nameless(name: string): Option<Variant> {
    None
  }

  function Push(st: State, vs: seq<Variant>, c: Counters): State {
    State(st.stack + vs, c)
  }

  lemma RunStep(env: Env, row: Row, t: Token, rest: seq<Token>, st: State)
    ensures Run(env, row, [t] + rest, st) ==
            match Step(env, row, t, st) case None => None case Some(next) => Run(env, row, rest, next)
  {
    assert ([t] + rest)[1..] == rest;
  }

  lemma RunOper(env: Env, row: Row, op: Oper, rest: seq<Token>, st: State, a: seq<Variant>, c: Counters)
    requires |a| == Arity(op)
    ensures Run(env, row, [Operator(op)] + rest, Push(st, a, c)) ==
            match Apply(env, op, a, c) case None => None case Some((v, d)) => Run(env, row, rest, Push(st, [v], d))
  {
    RunStep(env, row, Operator(op), rest, Push(st, a, c));
    assert (st.stack + a)[|st.stack|..] == a;
    assert (st.stack + a)[..|st.stack|] == st.stack;
  }

  // For every expression, row, counters and stack, running its tokens in front
  // of any others pushes exactly the value that direct evaluation gives, with
  // the same counters, and stops the run exactly when evaluation has none.
  lemma {:induction false} PostfixRuns(env: Env, row: Row, e: Expr, rest: seq<Token>, st: State)
    requires Grammatical(e) && NameFree(e)
    ensures Run(env, row, Postfix(e) + rest, st) ==
            match Eval(env, row, Nameless, e, st.counters)
            case None => None
            case Some((v, c)) => Run(env, row, rest, Push(st, [v], c))
    decreases e
  {
    hide Run, Apply, FieldValue, Default;
    var c := st.counters;
    match e {
      case Const(v) =>
        RunStep(env, row, Constant(v), rest, st);
      case Field(num, ty) =>
        RunStep(env, row, Column(num, ty), rest, st);
      case Negate(x) =>
        var tail := [Operator(Sub)] + rest;
        assert Postfix(e) + rest == [Constant(Int(0))] + (Postfix(x) + tail);
        RunStep(env, row, Constant(Int(0)), Postfix(x) + tail, st);
        PostfixRuns(env, row, x, tail, Push(st, [Int(0)], c));
        var r := Eval(env, row, Nameless, x, c);
        if r.Some? {
          assert Push(Push(st, [Int(0)], c), [r.value.0], r.value.1) == Push(st, [Int(0), r.value.0], r.value.1);
          RunOper(env, row, Sub, rest, st, [Int(0), r.value.0], r.value.1);
        }
      case Call(op, args) =>
        var tail := [Operator(op)] + rest;
        assert Postfix(e) + rest == PostfixAll(args) + tail;
        PostfixAllRuns(env, row, args, tail, st);
        var r := EvalAll(env, row, Nameless, args, c);
        if r.Some? {
          RunOper(env, row, op, rest, st, r.value.vs, r.value.counters);
        }
      case Short(op, args) =>
        var tail := [Operator(op)] + rest;
        var given := [Constant(Default(op))] + tail;
        assert Postfix(e) + rest == PostfixAll(args) + given;
        PostfixAllRuns(env, row, args, given, st);
        var r := EvalAll(env, row, Nameless, args, c);
        if r.Some? {
          var pushed := Push(st, r.value.vs, r.value.counters);
          RunStep(env, row, Constant(Default(op)), tail, pushed);
          assert Push(pushed, [Default(op)], r.value.counters) ==
                 Push(st, r.value.vs + [Default(op)], r.value.counters);
          RunOper(env, row, op, rest, st, r.value.vs + [Default(op)], r.value.counters);
        }
    }
  }

  lemma {:induction false} PostfixAllRuns(env: Env, row: Row, args: Args, rest: seq<Token>, st: State)
    requires AllGrammatical(args) && AllNameFree(args)
    ensures Run(env, row, PostfixAll(args) + rest, st) ==
            match EvalAll(env, row, Nameless, args, st.counters)
            case None => None
            case Some(Values(vs, c)) => Run(env, row, rest, Push(st, vs, c))
    decreases args
  {
    hide Run, Apply, FieldValue;
    match args {
      case Nil =>
        assert PostfixAll(args) + rest == rest;
        assert Push(st, [], st.counters) == st;
      case Cons(head, tail) =>
        var more := PostfixAll(tail) + rest;
        assert PostfixAll(args) + rest == Postfix(head) + more;
        PostfixRuns(env, row, head, more, st);
        var r := Eval(env, row, Nameless, head, st.counters);
        if r.Some? {
          var next := Push(st, [r.value.0], r.value.1);
          PostfixAllRuns(env, row, tail, rest, next);
          var s := EvalAll(env, row, Nameless, tail, r.value.1);
          if s.Some? {
            assert Push(next, s.value.vs, s.value.counters) ==
                   Push(st, [r.value.0] + s.value.vs, s.value.counters);
          }
        }
    }
  }

  // Compiled code never fails for a stack of the wrong height: it evaluates
  // to the expression's value, or fails where the value does not exist.
  lemma CompiledEvaluates(env: Env, row: Row, e: Expr, c: Counters)
    requires Grammatical(e) && NameFree(e)
    ensures Evaluate(env, row, Postfix(e), c) == Eval(env, row, Nameless, e, c)
  {
    hide Eval, Step;
    PostfixRuns(env, row, e, [], State([], c));
    assert Postfix(e) + [] == Postfix(e);
  }
}
