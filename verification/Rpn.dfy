// The stack machine of src/rpn_eval.c. Floating point and regular expressions
// are parameters of the evaluation; 64-bit integers wrap.

module Rpn {
  import opened Wrappers
  import opened IntText
  import opened CsvPrint
  import StrReplace
  import NextCounters

  type Long = v: int | LLONG_MIN <= v <= LLONG_MAX

  // The bits of a double; nothing else is assumed about doubles.
  type Double = int

  datatype Variant = Int(i: Long) | Flt(d: Double) | Str(s: string)

  datatype Type = IntType | FloatType | StringType | ArrayType

  function TypeOf(v: Variant): Type {
    match v
    case Int(_) => IntType
    case Flt(_) => FloatType
    case Str(_) => StringType
  }

  datatype Oper =
    | Add | Sub | Mul | Div | Mod
    | BitOr | BitAnd | BitXor | BitNeg | LShift | RShift
    | And | Or | Xor | Not
    | Substr | Strlen | Concat | Like
    | ToFloat | ToInt | ToString
    | Int2Str | Int2StrB | Int2Flt | Str2Int | StrB2Int | Str2Flt | Flt2Int | Flt2Str
    | Lt | Le | Gt | Ge | Eq | Ne
    | If
    | Replace | ReplaceBre | ReplaceEre | MatchesBre | MatchesEre
    | NextOf

  datatype Token = Constant(v: Variant) | Column(num: nat, ty: Type) | Operator(op: Oper)

  // A regular expression and how regcomp is asked to read it.
  datatype Regex = Regex(pattern: string, extended: bool, ignoreCase: bool)

  // What lies outside the program text: floating point, the C library and the
  // hash function behind `next`. A regex operation is None when it ends the program.
  datatype Env = Env(
    arith: (Oper, Double, Double) -> Double,
    less: (Double, Double) -> bool,
    lessEq: (Double, Double) -> bool,
    equal: (Double, Double) -> bool,
    ofInt: Long -> Double,
    toInt: Double -> Long,
    parse: string -> Option<Double>,
    show: Double -> string,
    matches: (Regex, string) -> Option<bool>,
    substitute: (Regex, string, string) -> Option<string>,
    lower: char -> char,
    hash: string -> nat)

  type Counters = NextCounters.Counters

  // ---------------------------------------------------------------- integers

  function Wrap(x: int): Long {
    var u := x % TWO_64;
    if u > LLONG_MAX then u - TWO_64 else u
  }

  // C division rounds toward zero; the remainder takes the dividend's sign.
  function Quot(x: int, y: int): int
    requires y != 0
  {
    var q := (if x < 0 then -x else x) / (if y < 0 then -y else y);
    if (x < 0) == (y < 0) then q else -q
  }

  function Rem(x: int, y: int): int
    requires y != 0
  {
    var r := (if x < 0 then -x else x) % (if y < 0 then -y else y);
    if x < 0 then -r else r
  }

  lemma QuotRem(x: int, y: int)
    requires y != 0
    ensures x == Quot(x, y) * y + Rem(x, y)
    ensures -(if y < 0 then -y else y) < Rem(x, y) < (if y < 0 then -y else y)
    ensures Rem(x, y) == 0 || (Rem(x, y) < 0) == (x < 0)
  {
    var a, b := if x < 0 then -x else x, if y < 0 then -y else y;
    var q, r := a / b, a % b;
    assert a == q * b + r;
    assert (-q) * b == -(q * b) && (-q) * (-b) == q * b && q * (-b) == -(q * b);
  }

  // A bit operation on the lowest n bits.
  function Bitwise(f: (bool, bool) -> bool, x: nat, y: nat, n: nat): nat {
    if n == 0 then 0
    else 2 * Bitwise(f, x / 2, y / 2, n - 1) + (if f(x % 2 == 1, y % 2 == 1) then 1 else 0)
  }

  predicate Both(p: bool, q: bool) {
    p && q
  }

  predicate Either(p: bool, q: bool) {
    p || q
  }

  predicate Unequal(p: bool, q: bool) {
    p != q
  }

  function Bits64(f: (bool, bool) -> bool, x: Long, y: Long): Long {
    Wrap(Bitwise(f, Unsigned(x), Unsigned(y), 64))
  }

  // Shift counts are taken modulo 64.
  function Shifted(x: Long, count: Long, left: bool): Long {
    var p := Pow2(count % 64);
    PositivePow2(count % 64);
    if left then Wrap(x * p) else Wrap(x / p)
  }

  lemma {:induction false} PositivePow2(k: nat)
    ensures Pow2(k) > 0
    decreases k
  {
    if k > 0 {
      PositivePow2(k - 1);
    }
  }

  function Truth(b: bool): (v: Variant)
    ensures v.Int?
  {
    Int(if b then 1 else 0)
  }

  // ---------------------------------------------------------------- strings

  function StrLess(a: string, b: string): bool {
    b != "" && (a == "" || a[0] < b[0] || (a[0] == b[0] && StrLess(a[1..], b[1..])))
  }

  // At most n characters from a position on; n may be anything a size can hold.
  function Window(s: string, begin: nat, n: nat): string
    requires begin <= |s|
  {
    if begin + n >= TWO_64 || begin + n >= |s| then s[begin..] else s[begin..begin + n]
  }

  // csv_substring_sanitize followed by strndup: the start counts from 1, a
  // negative one from the end, and a length of 0 from start 0 wraps around.
  function Substring(s: string, start: Long, len: Long): string
    requires len >= 0
  {
    var n: nat := if start == 0 then (len - 1) % TWO_64 else len;
    var at: int := if start > 0 then start - 1 else start;
    var begin: nat :=
      if at < 0 then (if at + |s| < 0 then 0 else at + |s|)
      else if at >= |s| then |s| else at;
    Window(s, begin, n)
  }

  function Min(a: int, b: int): int {
    if a < b then a else b
  }

  lemma WindowIs(s: string, begin: nat, n: nat)
    requires begin <= |s| < TWO_64
    ensures Window(s, begin, n) == s[begin..Min(begin + n, |s|)]
  {
  }

  // SQL's substr, except that substr(s, 0, 0) is all of s.
  lemma SubstringMeans(s: string, start: Long, len: Long)
    requires len >= 0 && |s| <= LLONG_MAX
    ensures Substring(s, start, len) ==
            if start > 0 then s[Min(start - 1, |s|)..Min(Min(start - 1, |s|) + len, |s|)]
            else if start == 0 then (if len == 0 then s else s[..Min(len - 1, |s|)])
            else if start + |s| >= 0 then s[|s| + start..Min(|s| + start + len, |s|)]
            else s[..Min(len, |s|)]
  {
    hide Window;
    if start > 0 {
      WindowIs(s, Min(start - 1, |s|), len);
    } else if start == 0 {
      WindowIs(s, 0, if len == 0 then TWO_64 - 1 else len - 1);
      assert s[0..|s|] == s;
    } else {
      WindowIs(s, if start + |s| >= 0 then start + |s| else 0, len);
    }
  }

  // The regular expression LIKE compiles its pattern to.
  function LikeBody(pattern: string): string {
    if pattern == "" then ""
    else
      (if pattern[0] == '%' then ".*"
       else if pattern[0] in ".?*+[]()$^\\|" then "\\" + [pattern[0]]
       else [pattern[0]]) + LikeBody(pattern[1..])
  }

  function LikeRegex(pattern: string): Regex {
    Regex("^" + LikeBody(pattern) + "$", true, false)
  }

  // ---------------------------------------------------------------- eval_oper

  function Arity(op: Oper): (n: nat)
    ensures 1 <= n <= 4
  {
    match op
    case Replace | ReplaceBre | ReplaceEre => 4
    case Substr | If | MatchesBre | MatchesEre => 3
    case BitNeg | Not | Strlen | ToFloat | ToInt | ToString | Int2Str | Int2Flt
       | Str2Int | Str2Flt | Flt2Int | Flt2Str | NextOf => 1
    case _ => 2
  }

  predicate Numeric(v: Variant) {
    v.Int? || v.Flt?
  }

  // Whether the operands have the types the operator asks for.
  predicate Accepts(op: Oper, a: seq<Variant>)
    requires |a| == Arity(op)
  {
    match op
    case Add | Sub | Mul | Div | Mod => Numeric(a[0]) && Numeric(a[1])
    case BitOr | BitAnd | BitXor | LShift | RShift | And | Or | Xor => a[0].Int? && a[1].Int?
    case BitNeg | Not | Int2Str | Int2Flt => a[0].Int?
    case Substr => a[0].Str? && a[1].Int? && a[2].Int?
    case Concat | Like => a[0].Str? && a[1].Str?
    case Strlen | Str2Int | Str2Flt | NextOf => a[0].Str?
    case ToFloat | ToInt | ToString => true
    case Int2StrB => a[0].Int? && a[1].Int? && a[1].i in {2, 8, 10, 16}
    case StrB2Int => a[0].Str? && a[1].Int? && 2 <= a[1].i <= 36
    case Flt2Int | Flt2Str => a[0].Flt?
    case Lt | Le | Gt | Ge | Eq | Ne => Numeric(a[0]) == Numeric(a[1])
    case If => a[0].Int? && TypeOf(a[1]) == TypeOf(a[2])
    case Replace | ReplaceBre | ReplaceEre => a[0].Str? && a[1].Str? && a[2].Str? && a[3].Int?
    case MatchesBre | MatchesEre => a[0].Str? && a[1].Str? && a[2].Int?
  }

  predicate Logical(op: Oper, a: seq<Variant>)
    requires |a| == Arity(op) && Accepts(op, a)
  {
    match op
    case And | Or | Xor => a[0].i in {0, 1} && a[1].i in {0, 1}
    case Not => a[0].i in {0, 1}
    case _ => true
  }

  function AsDouble(env: Env, v: Variant): Double
    requires Numeric(v)
  {
    if v.Int? then env.ofInt(v.i) else v.d
  }

  function IntArith(op: Oper, x: Long, y: Long): (r: Option<Variant>)
    ensures r.Some? ==> r.value.Int?
  {
    match op
    case Add => Some(Int(Wrap(x + y)))
    case Sub => Some(Int(Wrap(x - y)))
    case Mul => Some(Int(Wrap(x * y)))
    case Div => if y == 0 || (x == LLONG_MIN && y == -1) then None else Some(Int(Wrap(Quot(x, y))))
    case Mod => if y == 0 || (x == LLONG_MIN && y == -1) then None else Some(Int(Wrap(Rem(x, y))))
    case _ => None
  }

  function Arith(env: Env, op: Oper, x: Variant, y: Variant): (r: Option<Variant>)
    requires Numeric(x) && Numeric(y)
    ensures r.Some? ==> !r.value.Str? && (r.value.Flt? <==> x.Flt? || y.Flt?)
  {
    if x.Int? && y.Int? then IntArith(op, x.i, y.i)
    else if (op == Div || op == Mod) && (if y.Int? then y.i == 0 else env.equal(y.d, env.ofInt(0))) then None
    else Some(Flt(env.arith(op, AsDouble(env, x), AsDouble(env, y))))
  }

  // The answer of one comparison operator.
  predicate Chosen(op: Oper, lt: bool, le: bool, gt: bool, ge: bool, eq: bool) {
    match op
    case Lt => lt
    case Le => le
    case Gt => gt
    case Ge => ge
    case Eq => eq
    case _ => !eq
  }

  predicate Compare(env: Env, op: Oper, x: Variant, y: Variant)
    requires Numeric(x) == Numeric(y)
  {
    if x.Int? && y.Int? then
      Chosen(op, x.i < y.i, x.i <= y.i, x.i > y.i, x.i >= y.i, x.i == y.i)
    else if Numeric(x) then
      var d, e := AsDouble(env, x), AsDouble(env, y);
      Chosen(op, env.less(d, e), env.lessEq(d, e), env.less(e, d), env.lessEq(e, d), env.equal(d, e))
    else
      Chosen(op, StrLess(x.s, y.s), !StrLess(y.s, x.s), StrLess(y.s, x.s), !StrLess(x.s, y.s), x.s == y.s)
  }

  function IntResult(v: Option<int>): (r: Option<Variant>)
    requires v.Some? ==> IsLong(v.value)
    ensures r.Some? ==> r.value.Int?
  {
    if v.Some? then Some(Int(v.value)) else None
  }

  // Replacing an empty pattern never returns, so it has no result.
  function Replaced(env: Env, a: seq<Variant>): (r: Option<Variant>)
    requires |a| == 4 && Accepts(Replace, a)
    ensures r.Some? ==> r.value.Str?
  {
    if a[1].s == "" then None
    else
      var fold := StrReplace.Comparing(a[3].i != 0, env.lower);
      Some(Str(StrReplace.Replaced(fold, a[0].s, a[1].s, a[2].s)))
  }

  function Matched(env: Env, regex: Regex, s: string): (r: Option<Variant>)
    ensures r.Some? ==> r.value.Int?
  {
    match env.matches(regex, s)
    case None => None
    case Some(found) => Some(Truth(found))
  }

  function Substituted(env: Env, regex: Regex, s: string, replacement: string): (r: Option<Variant>)
    ensures r.Some? ==> r.value.Str?
  {
    match env.substitute(regex, s, replacement)
    case None => None
    case Some(text) => Some(Str(text))
  }

  predicate BitOrLogic(op: Oper) {
    match op
    case BitOr | BitAnd | BitXor | BitNeg | LShift | RShift | And | Or | Xor | Not => true
    case _ => false
  }

  function IntOp(op: Oper, a: seq<Variant>): (r: Variant)
    requires BitOrLogic(op) && |a| == Arity(op) && Accepts(op, a)
    ensures r.Int?
  {
    match op
    case BitOr => Int(Bits64(Either, a[0].i, a[1].i))
    case BitAnd => Int(Bits64(Both, a[0].i, a[1].i))
    case BitXor => Int(Bits64(Unequal, a[0].i, a[1].i))
    case BitNeg => Int(-1 - a[0].i)
    case LShift => Int(Shifted(a[0].i, a[1].i, true))
    case RShift => Int(Shifted(a[0].i, a[1].i, false))
    case And => Truth(a[0].i != 0 && a[1].i != 0)
    case Or => Truth(a[0].i != 0 || a[1].i != 0)
    case Xor => Truth(a[0].i != a[1].i)
    case Not => Truth(a[0].i == 0)
  }

  predicate Converts(op: Oper) {
    match op
    case ToFloat | ToInt | ToString | Int2Str | Int2StrB | Int2Flt
       | Str2Int | StrB2Int | Str2Flt | Flt2Int | Flt2Str => true
    case _ => false
  }

  function ParseFloat(env: Env, s: string): (r: Option<Variant>)
    ensures r.Some? ==> r.value.Flt?
  {
    match env.parse(s)
    case None => None
    case Some(d) => Some(Flt(d))
  }

  function Convert(env: Env, op: Oper, a: seq<Variant>): (r: Option<Variant>)
    requires Converts(op) && |a| == Arity(op) && Accepts(op, a)
    ensures r.Some? ==> match op
                        case ToFloat | Int2Flt | Str2Flt => r.value.Flt?
                        case ToInt | Str2Int | StrB2Int | Flt2Int => r.value.Int?
                        case _ => r.value.Str?
  {
    match op
    case ToFloat => if a[0].Str? then ParseFloat(env, a[0].s) else Some(Flt(AsDouble(env, a[0])))
    case ToInt =>
      if a[0].Int? then Some(a[0])
      else if a[0].Flt? then Some(Int(env.toInt(a[0].d)))
      else IntResult(Read(a[0].s, 0))
    case ToString =>
      if a[0].Int? then Some(Str(IntText.Text(a[0].i, 10)))
      else if a[0].Flt? then Some(Str(env.show(a[0].d)))
      else Some(a[0])
    case Int2StrB => Some(Str(IntText.Text(a[0].i, a[1].i)))
    case StrB2Int => IntResult(Read(a[0].s, a[1].i))
    case Int2Str => Some(Str(IntText.Text(a[0].i, 10)))
    case Str2Int => IntResult(Read(a[0].s, 0))
    case Int2Flt => Some(Flt(env.ofInt(a[0].i)))
    case Flt2Int => Some(Int(env.toInt(a[0].d)))
    case Flt2Str => Some(Str(env.show(a[0].d)))
    case Str2Flt => ParseFloat(env, a[0].s)
  }

  // The result of an operator that does not count.
  function Compute(env: Env, op: Oper, a: seq<Variant>): Option<Variant>
    requires |a| == Arity(op) && Accepts(op, a) && op != NextOf
  {
    if BitOrLogic(op) then Some(IntOp(op, a))
    else if Converts(op) then Convert(env, op, a)
    else
      match op
      case Add | Sub | Mul | Div | Mod => Arith(env, op, a[0], a[1])
      case Substr => if a[2].i < 0 then None else Some(Str(Substring(a[0].s, a[1].i, a[2].i)))
      case Strlen => Some(Int(Wrap(|a[0].s|)))
      case Concat => Some(Str(a[0].s + a[1].s))
      case Like => Matched(env, LikeRegex(a[1].s), a[0].s)
      case Lt | Le | Gt | Ge | Eq | Ne => Some(Truth(Compare(env, op, a[0], a[1])))
      case If => Some(if a[0].i != 0 then a[1] else a[2])
      case Replace => Replaced(env, a)
      case ReplaceBre => Substituted(env, Regex(a[1].s, false, a[3].i == 0), a[0].s, a[2].s)
      case ReplaceEre => Substituted(env, Regex(a[1].s, true, a[3].i == 0), a[0].s, a[2].s)
      case MatchesBre => Matched(env, Regex(a[1].s, false, a[2].i == 0), a[0].s)
      case MatchesEre => Matched(env, Regex(a[1].s, true, a[2].i == 0), a[0].s)
  }

  // An operator applied to its operands, the leftmost first; None where the
  // source reports an error.
  function Apply(env: Env, op: Oper, a: seq<Variant>, c: Counters): Option<(Variant, Counters)>
    requires |a| == Arity(op)
  {
    if !Accepts(op, a) || !Logical(op, a) then None
    else if op == NextOf then
      var (after, value) := NextCounters.Next(env.hash, c, a[0].s);
      Some((Int(Wrap(value)), after))
    else
      match Compute(env, op, a)
      case None => None
      case Some(v) => Some((v, c))
  }

  // ---------------------------------------------------------------- rpn_eval

  type Row = seq<string>

  datatype State = State(stack: seq<Variant>, counters: Counters)

  function FieldValue(env: Env, row: Row, num: nat, ty: Type): Option<Variant> {
    if num >= |row| then None
    else
      match ty
      case IntType => IntResult(Read(row[num], 0))
      case FloatType => ParseFloat(env, row[num])
      case StringType => (match Decode(row[num]) case None => None case Some(s) => Some(Str(s)))
      case ArrayType => None
  }

  function Step(env: Env, row: Row, t: Token, st: State): Option<State> {
    match t
    case Constant(v) => Some(State(st.stack + [v], st.counters))
    case Column(num, ty) =>
      (match FieldValue(env, row, num, ty)
       case None => None
       case Some(v) => Some(State(st.stack + [v], st.counters)))
    case Operator(op) =>
      var n := Arity(op);
      if |st.stack| < n then None
      else
        var height := |st.stack| - n;
        match Apply(env, op, st.stack[height..], st.counters)
        case None => None
        case Some((v, c)) => Some(State(st.stack[..height] + [v], c))
  }

  function Run(env: Env, row: Row, tokens: seq<Token>, st: State): Option<State> {
    if tokens == [] then Some(st)
    else
      match Step(env, row, tokens[0], st)
      case None => None
      case Some(next) => Run(env, row, tokens[1..], next)
  }

  // The value of an expression, if exactly one entry is left on the stack.
  function Evaluate(env: Env, row: Row, tokens: seq<Token>, c: Counters): Option<(Variant, Counters)> {
    match Run(env, row, tokens, State([], c))
    case None => None
    case Some(st) => if |st.stack| == 1 then Some((st.stack[0], st.counters)) else None
  }
}

module RpnInPlace {
  import opened Wrappers
  import opened Rpn

  // The evaluator's stack, reallocated to its height after every change, and
  // the counters that outlive an evaluation.
  class Machine {
    var stack: array<Variant>
    var counters: Counters

    constructor (counters: Counters)
      ensures fresh(stack) && stack.Length == 0 && this.counters == counters
    {
      stack := new Variant[0];
      this.counters := counters;
    }

    function Value(): State
      reads this, stack
    {
      State(stack[..], counters)
    }

    // xrealloc
    method Resize(height: nat)
      modifies this`stack
      ensures fresh(stack) && stack.Length == height
      ensures var kept := if height < old(stack.Length) then height else old(stack.Length);
              stack[..kept] == old(stack[..kept])
    {
      var resized := new Variant[height](i => Int(0));
      forall i | 0 <= i < height && i < stack.Length {
        resized[i] := stack[i];
      }
      stack := resized;
    }

    method Push(v: Variant)
      modifies this`stack
      ensures fresh(stack) && stack[..] == old(stack[..]) + [v]
    {
      var height := stack.Length;
      Resize(height + 1);
      stack[height] := v;
    }

    // eval_oper: the result overwrites the lowest operand's slot.
    method EvalOper(env: Env, op: Oper) returns (ok: bool)
      modifies this, stack
      ensures fresh(stack) || stack == old(stack)
      ensures var after := Step(env, [], Operator(op), old(Value()));
              ok == after.Some? && (ok ==> Value() == after.value)
    {
      hide Apply, FieldValue;
      var n := Arity(op);
      if stack.Length < n {
        return false;
      }
      var height := stack.Length - n + 1;
      var result := Apply(env, op, stack[height - 1..], counters);
      if result.None? {
        return false;
      }
      stack[height - 1] := result.value.0;
      counters := result.value.1;
      Resize(height);
      return true;
    }

    method RpnEval(env: Env, row: Row, exp: seq<Token>) returns (value: Option<Variant>)
      modifies this, stack
      ensures fresh(stack) || stack == old(stack)
      ensures match Evaluate(env, row, exp, old(counters))
              case None => value == None
              case Some((v, c)) => value == Some(v) && counters == c
    {
      stack := new Variant[0];
      var j := 0;
      while j < |exp|
        invariant 0 <= j <= |exp| && fresh(stack)
        invariant Run(env, row, exp, State([], old(counters))) == Run(env, row, exp[j..], Value())
      {
        var t := exp[j];
        assert exp[j..][1..] == exp[j + 1..];
        match t {
          case Constant(v) => Push(v);
          case Column(num, ty) =>
            var v := FieldValue(env, row, num, ty);
            if v.None? {
              return None;
            }
            Push(v.value);
          case Operator(op) =>
            var ok := EvalOper(env, op);
            if !ok {
              return None;
            }
        }
        j := j + 1;
      }
      if stack.Length == 0 {
        return None;
      }
      if stack.Length >= 2 {
        return None;
      }
      return Some(stack[0]);
    }
  }
}
