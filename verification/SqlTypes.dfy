// Result types: what `rpn_expression_type` of src/rpn_parse.c predicts from
// the last tokens, against the type of the value evaluation produces.

module SqlTypes {
  import opened Wrappers
  import opened Rpn
  import opened SqlCompile

  predicate Arithmetic(op: Oper) {
    op.Add? || op.Sub? || op.Mul? || op.Div? || op.Mod?
  }

  // The type an operator always produces; arithmetic and `if` have none of their own.
  function ResultType(op: Oper): Type {
    match op
    case Substr | Concat | Int2Str | Int2StrB | Flt2Str | ToString | Replace | ReplaceBre | ReplaceEre => StringType
    case Int2Flt | Str2Flt | ToFloat => FloatType
    case _ => IntType
  }

  // expression_type: arithmetic and `if` take the type of the token before
  // them; None where that runs off the front.
  function Predicted(tokens: seq<Token>, at: nat): Option<Type>
    requires at < |tokens|
  {
    match tokens[at]
    case Constant(v) => Some(TypeOf(v))
    case Column(_, ty) => Some(ty)
    case Operator(op) =>
      if !Arithmetic(op) && op != If then Some(ResultType(op))
      else if at == 0 then None
      else Predicted(tokens, at - 1)
  }

  function ExpressionType(tokens: seq<Token>): Option<Type>
    requires tokens != []
  {
    Predicted(tokens, |tokens| - 1)
  }

  // ---------------------------------------------------------------- the true type

  function Last(args: Args): Expr
    requires args.Cons?
  {
    if args.tail.Nil? then args.head else Last(args.tail)
  }

  // The type of every value an expression can have.
  function TrueType(e: Expr): Type {
    match e
    case Name(_) => IntType
    case Const(v) => TypeOf(v)
    case Field(_, ty) => ty
    case Negate(x) => if TrueType(x) == FloatType then FloatType else IntType
    case Call(op, args) =>
      if Arithmetic(op) then (if AnyFloat(args) then FloatType else IntType)
      else if op == If then LastType(args)
      else ResultType(op)
    case Short(op, _) => ResultType(op)
  }

  function LastType(args: Args): Type {
    match args
    case Nil => IntType
    case Cons(head, Nil) => TrueType(head)
    case Cons(_, tail) => LastType(tail)
  }

  predicate AnyFloat(args: Args) {
    match args
    case Nil => false
    case Cons(head, tail) => TrueType(head) == FloatType || AnyFloat(tail)
  }

  ghost predicate HasTypes(vs: seq<Variant>, args: Args) {
    match args
    case Nil => vs == []
    case Cons(head, tail) => vs != [] && TypeOf(vs[0]) == TrueType(head) && HasTypes(vs[1..], tail)
  }

  // The type of an operator's result.
  predicate Typed(op: Oper, a: seq<Variant>, v: Variant)
    requires |a| == Arity(op)
  {
    if Arithmetic(op) then
      Numeric(a[0]) && Numeric(a[1]) &&
      TypeOf(v) == (if a[0].Flt? || a[1].Flt? then FloatType else IntType)
    else if op == If then TypeOf(v) == TypeOf(a[2])
    else TypeOf(v) == ResultType(op)
  }

  lemma ComputeType(env: Env, op: Oper, a: seq<Variant>)
    requires |a| == Arity(op) && Accepts(op, a) && op != NextOf && Compute(env, op, a).Some?
    ensures Typed(op, a, Compute(env, op, a).value)
  {
    hide Arith, IntOp, Convert, Truth, Replaced, Matched, Substituted, Substring, LikeRegex, Compare;
  }

  lemma ApplyType(env: Env, op: Oper, a: seq<Variant>, c: Counters)
    requires |a| == Arity(op)
    ensures Apply(env, op, a, c).Some? ==> Typed(op, a, Apply(env, op, a, c).value.0)
  {
    hide Compute, Logical;
    if Apply(env, op, a, c).Some? && op != NextOf {
      ComputeType(env, op, a);
    }
  }

  lemma {:induction false} CountTypes(vs: seq<Variant>, args: Args)
    requires HasTypes(vs, args)
    ensures |vs| == Count(args)
    decreases args
  {
    if args.Cons? {
      CountTypes(vs[1..], args.tail);
    }
  }

  lemma TwoArgs(vs: seq<Variant>, args: Args)
    requires HasTypes(vs, args) && |vs| == 2
    ensures args.Cons? && args.tail.Cons? && args.tail.tail.Nil?
    ensures TypeOf(vs[0]) == TrueType(args.head) && TypeOf(vs[1]) == TrueType(args.tail.head)
    ensures LastType(args) == TypeOf(vs[1])
    ensures AnyFloat(args) <==> vs[0].Flt? || vs[1].Flt?
  {
    CountTypes(vs, args);
    assert HasTypes(vs[1..], args.tail);
    assert HasTypes(vs[1..][1..], args.tail.tail);
    assert AnyFloat(args.tail) <==> TrueType(args.tail.head) == FloatType;
  }

  lemma ThreeArgs(vs: seq<Variant>, args: Args)
    requires HasTypes(vs, args) && |vs| == 3
    ensures LastType(args) == TypeOf(vs[2])
  {
    CountTypes(vs, args);
    TwoArgs(vs[1..], args.tail);
  }

  // Every value of an expression has its true type.
  lemma {:induction false} EvalType(env: Env, row: Row, e: Expr, c: Counters)
    requires Grammatical(e) && NameFree(e)
    ensures match Eval(env, row, Nameless, e, c) case None => true case Some((v, _)) => TypeOf(v) == TrueType(e)
    decreases e
  {
    hide Apply, Default;
    match e {
      case Const(_) =>
      case Field(_, _) =>
      case Negate(x) =>
        EvalType(env, row, x, c);
        var r := Eval(env, row, Nameless, x, c);
        if r.Some? {
          ApplyType(env, Sub, [Int(0), r.value.0], r.value.1);
        }
      case Call(op, args) =>
        EvalAllType(env, row, args, c);
        var r := EvalAll(env, row, Nameless, args, c);
        if r.Some? {
          if Arithmetic(op) {
            TwoArgs(r.value.vs, args);
          } else if op == If {
            ThreeArgs(r.value.vs, args);
          }
          ApplyType(env, op, r.value.vs, r.value.counters);
        }
      case Short(op, args) =>
        var r := EvalAll(env, row, Nameless, args, c);
        if r.Some? {
          ApplyType(env, op, r.value.vs + [Default(op)], r.value.counters);
        }
    }
  }

  lemma {:induction false} EvalAllType(env: Env, row: Row, args: Args, c: Counters)
    requires AllGrammatical(args) && AllNameFree(args)
    ensures match EvalAll(env, row, Nameless, args, c)
            case None => true
            case Some(Values(vs, _)) => HasTypes(vs, args)
    decreases args
  {
    match args {
      case Nil =>
      case Cons(head, tail) =>
        EvalType(env, row, head, c);
        var r := Eval(env, row, Nameless, head, c);
        if r.Some? {
          EvalAllType(env, row, tail, r.value.1);
        }
    }
  }

  // ---------------------------------------------------------------- when the prediction is wrong

  // The expression whose type the prediction reports: the last operand.
  function Spine(e: Expr): Type {
    match e
    case Name(_) => IntType
    case Const(v) => TypeOf(v)
    case Field(_, ty) => ty
    case Negate(x) => Spine(x)
    case Call(op, args) => if Arithmetic(op) || op == If then SpineOfLast(args) else ResultType(op)
    case Short(op, _) => ResultType(op)
  }

  function SpineOfLast(args: Args): Type {
    match args
    case Nil => IntType
    case Cons(head, Nil) => Spine(head)
    case Cons(_, tail) => SpineOfLast(tail)
  }

  // Somewhere along the last operands, arithmetic adds an integer to a float.
  predicate Misjudged(e: Expr) {
    match e
    case Negate(x) => Misjudged(x)
    case Call(op, args) =>
      if Arithmetic(op) then MisjudgedLast(args) || FloatThenInt(args)
      else op == If && MisjudgedLast(args)
    case _ => false
  }

  predicate MisjudgedLast(args: Args) {
    match args
    case Nil => false
    case Cons(head, Nil) => Misjudged(head)
    case Cons(_, tail) => MisjudgedLast(tail)
  }

  predicate FloatThenInt(args: Args) {
    args.Cons? && args.tail.Cons? && args.tail.tail.Nil? &&
    TrueType(args.head) == FloatType && TrueType(args.tail.head) == IntType
  }

  // Arithmetic and `if` pass on the prediction of the tokens before them.
  lemma Through(tokens: seq<Token>, op: Oper)
    requires tokens != [] && (Arithmetic(op) || op == If)
    ensures Predicted(tokens + [Operator(op)], |tokens|) == Predicted(tokens, |tokens| - 1)
  {
    PrefixedAt(tokens, [Operator(op)], |tokens| - 1);
  }

  lemma Own(tokens: seq<Token>, op: Oper)
    requires !Arithmetic(op) && op != If
    ensures Predicted(tokens + [Operator(op)], |tokens|) == Some(ResultType(op))
  {
  }

  // The last token of each kind of expression.
  lemma PostfixEnds(before: seq<Token>, e: Expr)
    requires NameFree(e)
    ensures Postfix(e) != []
    ensures match e
            case Const(v) => before + Postfix(e) == before + [Constant(v)]
            case Field(num, ty) => before + Postfix(e) == before + [Column(num, ty)]
            case Negate(x) => before + Postfix(e) == before + [Constant(Int(0))] + Postfix(x) + [Operator(Sub)]
            case Call(op, args) => before + Postfix(e) == before + PostfixAll(args) + [Operator(op)]
            case Short(op, args) =>
              before + Postfix(e) == before + PostfixAll(args) + [Constant(Default(op))] + [Operator(op)]
            case _ => true
  {
  }

  lemma {:induction false} PredictedIsSpine(before: seq<Token>, e: Expr)
    requires Grammatical(e) && NameFree(e)
    ensures Postfix(e) != []
    ensures Predicted(before + Postfix(e), |before + Postfix(e)| - 1) == Some(Spine(e))
    decreases e
  {
    hide Postfix, PostfixAll, ResultType, Default;
    PostfixEnds(before, e);
    match e {
      case Const(_) =>
      case Field(_, _) =>
      case Negate(x) =>
        PredictedIsSpine(before + [Constant(Int(0))], x);
        Through(before + [Constant(Int(0))] + Postfix(x), Sub);
      case Call(op, args) =>
        if Arithmetic(op) || op == If {
          PredictedLast(before, args);
          Through(before + PostfixAll(args), op);
        } else {
          Own(before + PostfixAll(args), op);
        }
      case Short(op, args) =>
        Own(before + PostfixAll(args) + [Constant(Default(op))], op);
    }
  }

  lemma {:induction false} PredictedLast(before: seq<Token>, args: Args)
    requires AllGrammatical(args) && AllNameFree(args) && args.Cons?
    ensures PostfixAll(args) != []
    ensures Predicted(before + PostfixAll(args), |before + PostfixAll(args)| - 1) == Some(SpineOfLast(args))
    decreases args
  {
    PredictedIsSpine(before, args.head);
    if args.tail.Nil? {
      assert PostfixAll(args) == Postfix(args.head);
    } else {
      PredictedLast(before + Postfix(args.head), args.tail);
      assert before + Postfix(args.head) + PostfixAll(args.tail) == before + PostfixAll(args);
    }
  }

  // The tokens after a position do not matter to its prediction.
  lemma {:induction false} PrefixedAt(tokens: seq<Token>, more: seq<Token>, at: nat)
    requires at < |tokens|
    ensures Predicted(tokens + more, at) == Predicted(tokens, at)
    decreases at
  {
    if at > 0 {
      PrefixedAt(tokens, more, at - 1);
    }
  }

  // For a value that exists, the predicted type is its type exactly when the
  // expression is not misjudged; a misjudged one is a float predicted as int.
  lemma {:induction false} SpineIsTrue(env: Env, row: Row, e: Expr, c: Counters)
    requires Grammatical(e) && NameFree(e) && Eval(env, row, Nameless, e, c).Some?
    ensures if Misjudged(e) then Spine(e) == IntType && TrueType(e) == FloatType else Spine(e) == TrueType(e)
    decreases e
  {
    hide Apply, Default;
    match e {
      case Const(_) =>
      case Field(_, _) =>
      case Negate(x) =>
        SpineIsTrue(env, row, x, c);
        EvalType(env, row, x, c);
        var r := Eval(env, row, Nameless, x, c);
        ApplyType(env, Sub, [Int(0), r.value.0], r.value.1);
      case Call(op, args) =>
        if Arithmetic(op) || op == If {
          LastIsTrue(env, row, args, c);
          EvalAllType(env, row, args, c);
          var r := EvalAll(env, row, Nameless, args, c);
          ApplyType(env, op, r.value.vs, r.value.counters);
          if Arithmetic(op) {
            TwoArgs(r.value.vs, args);
          }
        }
      case Short(_, _) =>
    }
  }

  lemma {:induction false} LastIsTrue(env: Env, row: Row, args: Args, c: Counters)
    requires AllGrammatical(args) && AllNameFree(args) && EvalAll(env, row, Nameless, args, c).Some?
    ensures if MisjudgedLast(args) then SpineOfLast(args) == IntType && LastType(args) == FloatType
            else SpineOfLast(args) == LastType(args)
    decreases args
  {
    match args {
      case Nil =>
      case Cons(head, tail) =>
        SpineIsTrue(env, row, head, c);
        LastIsTrue(env, row, tail, Eval(env, row, Nameless, head, c).value.1);
    }
  }

  // Type soundness with its exact condition: a compiled expression's value has
  // the predicted type if and only if the expression is not misjudged.
  lemma PredictionSound(env: Env, row: Row, e: Expr, c: Counters)
    requires Grammatical(e) && NameFree(e)
    ensures Postfix(e) != []
    ensures match Evaluate(env, row, Postfix(e), c)
            case None => true
            case Some((v, _)) => ExpressionType(Postfix(e)) == Some(TypeOf(v)) <==> !Misjudged(e)
  {
    hide Eval, Evaluate;
    CompiledEvaluates(env, row, e, c);
    PredictedIsSpine([], e);
    assert [] + Postfix(e) == Postfix(e);
    EvalType(env, row, e, c);
    if Eval(env, row, Nameless, e, c).Some? {
      SpineIsTrue(env, row, e, c);
    }
  }

  // No arithmetic on a float and an integer: a condition on the text alone.
  predicate Unmixed(e: Expr) {
    match e
    case Negate(x) => Unmixed(x)
    case Call(op, args) => AllUnmixed(args) && (Arithmetic(op) ==> !FloatThenInt(args))
    case Short(_, args) => AllUnmixed(args)
    case _ => true
  }

  predicate AllUnmixed(args: Args) {
    match args
    case Nil => true
    case Cons(head, tail) => Unmixed(head) && AllUnmixed(tail)
  }

  lemma {:induction false} UnmixedNotMisjudged(e: Expr)
    requires Unmixed(e)
    ensures !Misjudged(e)
    decreases e
  {
    match e {
      case Negate(x) => UnmixedNotMisjudged(x);
      case Call(_, args) => UnmixedLast(args);
      case _ =>
    }
  }

  lemma {:induction false} UnmixedLast(args: Args)
    requires AllUnmixed(args)
    ensures !MisjudgedLast(args)
    decreases args
  {
    match args {
      case Nil =>
      case Cons(head, tail) =>
        UnmixedNotMisjudged(head);
        UnmixedLast(tail);
    }
  }

  lemma AddMixed(env: Env, d: Double, c: Counters)
    ensures Apply(env, Add, [Flt(d), Int(1)], c) == Some((Flt(env.arith(Add, d, env.ofInt(1))), c))
  {
  }

  // A float constant plus 1.
  function MixedSum(d: Double): (e: Expr)
    ensures Grammatical(e) && NameFree(e)
  {
    var one := Cons(Const(Int(1)), Nil);
    var two := Cons(Const(Flt(d)), one);
    assert Count(one) == 1 && AllGrammatical(one) && AllNameFree(one);
    assert Count(two) == 2 && AllGrammatical(two) && AllNameFree(two);
    Call(Add, two)
  }

  // 1.5 + 1 is predicted to be an integer and is a float.
  lemma FloatPlusIntIsMisjudged(env: Env, row: Row, d: Double, c: Counters)
    ensures Misjudged(MixedSum(d)) && Postfix(MixedSum(d)) != []
    ensures ExpressionType(Postfix(MixedSum(d))) == Some(IntType)
    ensures Evaluate(env, row, Postfix(MixedSum(d)), c) == Some((Flt(env.arith(Add, d, env.ofInt(1))), c))
  {
    var e := MixedSum(d);
    PredictedIsSpine([], e);
    assert [] + Postfix(e) == Postfix(e);
    assert SpineOfLast(e.args) == SpineOfLast(e.args.tail) == IntType;
    hide Postfix, Evaluate;
    CompiledEvaluates(env, row, e, c);
    MixedSumValue(env, row, d, c);
  }

  lemma MixedSumValue(env: Env, row: Row, d: Double, c: Counters)
    ensures Eval(env, row, Nameless, MixedSum(d), c) == Some((Flt(env.arith(Add, d, env.ofInt(1))), c))
  {
    AddMixed(env, d, c);
    hide Apply;
    var two := MixedSum(d).args;
    var one := two.tail;
    assert EvalAll(env, row, Nameless, Nil, c) == Some(Values([], c));
    assert [Int(1)] + [] == [Int(1)];
    assert EvalAll(env, row, Nameless, one, c) == Some(Values([Int(1)], c));
    assert [Flt(d)] + [Int(1)] == [Flt(d), Int(1)];
    assert EvalAll(env, row, Nameless, two, c) == Some(Values([Flt(d), Int(1)], c));
  }

  // ---------------------------------------------------------------- any program that evaluates

  function ToArgs(es: seq<Expr>): Args {
    if es == [] then Nil else Cons(es[0], ToArgs(es[1..]))
  }

  // The expressions a token sequence leaves on the stack, if it never runs short.
  function Build(tokens: seq<Token>): Option<seq<Expr>> {
    if tokens == [] then Some([])
    else
      match Build(tokens[..|tokens| - 1])
      case None => None
      case Some(stack) =>
        match tokens[|tokens| - 1]
        case Constant(v) => Some(stack + [Const(v)])
        case Column(num, ty) => Some(stack + [Field(num, ty)])
        case Operator(op) =>
          if |stack| < Arity(op) then None
          else
            var height := |stack| - Arity(op);
            Some(stack[..height] + [Call(op, ToArgs(stack[height..]))])
  }

  ghost predicate WellBuilt(stack: seq<Expr>) {
    forall i :: 0 <= i < |stack| ==> Grammatical(stack[i]) && NameFree(stack[i])
  }

  lemma {:induction false} ToArgsKeeps(es: seq<Expr>)
    requires WellBuilt(es)
    ensures Count(ToArgs(es)) == |es| && AllGrammatical(ToArgs(es)) && AllNameFree(ToArgs(es))
    decreases |es|
  {
    if es != [] {
      ToArgsKeeps(es[1..]);
    }
  }

  lemma {:induction false} PostfixSplit(es: seq<Expr>, k: nat)
    requires k <= |es|
    ensures PostfixAll(ToArgs(es)) == PostfixAll(ToArgs(es[..k])) + PostfixAll(ToArgs(es[k..]))
    decreases k
  {
    if k == 0 {
      assert es[0..] == es;
    } else {
      PostfixSplit(es[1..], k - 1);
      assert es[..k][1..] == es[1..][..k - 1];
      assert es[1..][k - 1..] == es[k..];
    }
  }

  lemma PostfixSnoc(es: seq<Expr>, e: Expr)
    ensures PostfixAll(ToArgs(es + [e])) == PostfixAll(ToArgs(es)) + Postfix(e)
  {
    PostfixSplit(es + [e], |es|);
    assert (es + [e])[..|es|] == es && (es + [e])[|es|..] == [e];
    assert [e][1..] == [];
    assert PostfixAll(ToArgs([e])) == Postfix(e) + [];
  }

  // A stack of expressions and its code.
  ghost predicate Coded(stack: seq<Expr>, code: seq<Token>) {
    WellBuilt(stack) && PostfixAll(ToArgs(stack)) == code
  }

  lemma PushCoded(stack: seq<Expr>, code: seq<Token>, e: Expr)
    requires Coded(stack, code) && Grammatical(e) && NameFree(e)
    ensures Coded(stack + [e], code + Postfix(e))
  {
    hide Postfix, PostfixAll, ToArgs, Grammatical, NameFree;
    PostfixSnoc(stack, e);
  }

  lemma CallCoded(stack: seq<Expr>, code: seq<Token>, op: Oper)
    requires Coded(stack, code) && Arity(op) <= |stack|
    ensures var height := |stack| - Arity(op);
            Coded(stack[..height] + [Call(op, ToArgs(stack[height..]))], code + [Operator(op)])
  {
    hide PostfixAll, ToArgs, Arity;
    var height := |stack| - Arity(op);
    var args := ToArgs(stack[height..]);
    ToArgsKeeps(stack[height..]);
    PostfixSplit(stack, height);
    PostfixSnoc(stack[..height], Call(op, args));
    assert Postfix(Call(op, args)) == PostfixAll(args) + [Operator(op)];
    var before := PostfixAll(ToArgs(stack[..height]));
    assert before + PostfixAll(args) + [Operator(op)] == before + (PostfixAll(args) + [Operator(op)]);
  }

  // The expressions read off a token sequence compile back to it.
  lemma {:induction false} BuildCompiles(tokens: seq<Token>)
    ensures Build(tokens).Some? ==> Coded(Build(tokens).value, tokens)
    decreases |tokens|
  {
    hide Coded, ToArgs, Arity;
    if tokens == [] {
      NothingCoded();
    } else if Build(tokens).Some? {
      var before, t := tokens[..|tokens| - 1], tokens[|tokens| - 1];
      BuildCompiles(before);
      assert tokens == before + [t];
      var stack := Build(before).value;
      match t {
        case Constant(v) => PushCoded(stack, before, Const(v));
        case Column(num, ty) => PushCoded(stack, before, Field(num, ty));
        case Operator(op) => CallCoded(stack, before, op);
      }
    }
  }

  lemma NothingCoded()
    ensures Coded([], [])
  {
  }

  lemma {:induction false} RunSnoc(env: Env, row: Row, tokens: seq<Token>, t: Token, st: State)
    ensures Run(env, row, tokens + [t], st) ==
            match Run(env, row, tokens, st) case None => None case Some(next) => Step(env, row, t, next)
    decreases |tokens|
  {
    hide Step;
    if tokens == [] {
      assert [] + [t] == [t] && [t][1..] == [];
    } else {
      assert (tokens + [t])[1..] == tokens[1..] + [t];
      var next := Step(env, row, tokens[0], st);
      if next.Some? {
        RunSnoc(env, row, tokens[1..], t, next.value);
      }
    }
  }

  // A run that does not fail keeps one value for each expression built.
  lemma {:induction false} RunBuilds(env: Env, row: Row, tokens: seq<Token>, c: Counters)
    requires Run(env, row, tokens, State([], c)).Some?
    ensures Build(tokens).Some? && |Build(tokens).value| == |Run(env, row, tokens, State([], c)).value.stack|
    decreases |tokens|
  {
    hide Apply, FieldValue;
    if tokens != [] {
      var before, t := tokens[..|tokens| - 1], tokens[|tokens| - 1];
      assert tokens == before + [t];
      RunSnoc(env, row, before, t, State([], c));
      RunBuilds(env, row, before, c);
    }
  }

  // Whatever the tokens of an RPN expression are, if they evaluate they are
  // the code of one expression, and the prediction is right exactly when that
  // expression is not misjudged: so the abort after a filter whose expression
  // was predicted to be an integer happens for misjudged expressions only.
  lemma AnyProgramPrediction(env: Env, row: Row, tokens: seq<Token>, c: Counters)
    requires tokens != [] && Evaluate(env, row, tokens, c).Some?
    ensures match Build(tokens)
            case None => false
            case Some(built) =>
              |built| == 1 && Postfix(built[0]) == tokens && Grammatical(built[0]) &&
              (ExpressionType(tokens) == Some(TypeOf(Evaluate(env, row, tokens, c).value.0)) <==>
               !Misjudged(built[0]))
  {
    hide Step;
    RunBuilds(env, row, tokens, c);
    BuildCompiles(tokens);
    var stack := Build(tokens).value;
    assert stack == [] + [stack[0]];
    PostfixSnoc([], stack[0]);
    PredictionSound(env, row, stack[0], c);
  }
}
