// What every operator of eval_oper (src/rpn_eval.c) leaves for its operands, the
// left one first, in plain terms: when it fails, and what the result is.

module OperLaws {
  import opened Wrappers
  import opened IntText
  import opened Rpn
  import opened RpnFacts
  import CsvPrint
  import NextCounters
  import StrReplace

  // The operator leaves the value, or fails if there is none, and does not touch
  // the counters.
  ghost predicate Leaves(env: Env, op: Oper, a: seq<Variant>, c: Counters, v: Option<Variant>) {
    |a| == Arity(op) &&
    match v
    case None => Apply(env, op, a, c) == None
    case Some(result) => Apply(env, op, a, c) == Some((result, c))
  }

  lemma Computed(env: Env, op: Oper, a: seq<Variant>, c: Counters)
    requires |a| == Arity(op) && op != NextOf
    ensures Leaves(env, op, a, c, if Accepts(op, a) && Logical(op, a) then Compute(env, op, a) else None)
  {
    hide Compute, Accepts, Logical, Arity;
  }

  // ---------------------------------------------------------------- comparisons

  ghost predicate Answers(env: Env, op: Oper, v: Variant, w: Variant, c: Counters, yes: bool) {
    Leaves(env, op, [v, w], c, Some(if yes then Int(1) else Int(0)))
  }

  lemma Compared(env: Env, op: Oper, v: Variant, w: Variant, c: Counters)
    requires op in {Lt, Le, Gt, Ge, Eq, Ne}
    ensures if Numeric(v) == Numeric(w) then Answers(env, op, v, w, c, Compare(env, op, v, w))
            else Leaves(env, op, [v, w], c, None)
  {
    hide Leaves, Compare;
    Computed(env, op, [v, w], c);
  }

  lemma AllCompared(env: Env, v: Variant, w: Variant, c: Counters)
    requires Numeric(v) == Numeric(w)
    ensures Answers(env, Lt, v, w, c, Compare(env, Lt, v, w)) && Answers(env, Le, v, w, c, Compare(env, Le, v, w))
    ensures Answers(env, Gt, v, w, c, Compare(env, Gt, v, w)) && Answers(env, Ge, v, w, c, Compare(env, Ge, v, w))
    ensures Answers(env, Eq, v, w, c, Compare(env, Eq, v, w)) && Answers(env, Ne, v, w, c, Compare(env, Ne, v, w))
  {
    hide Answers, Leaves, Compare;
    Compared(env, Lt, v, w, c);
    Compared(env, Le, v, w, c);
    Compared(env, Gt, v, w, c);
    Compared(env, Ge, v, w, c);
    Compared(env, Eq, v, w, c);
    Compared(env, Ne, v, w, c);
  }

  lemma IntComparisons(env: Env, i: Long, j: Long, c: Counters)
    ensures Answers(env, Lt, Int(i), Int(j), c, i < j) && Answers(env, Le, Int(i), Int(j), c, i <= j)
    ensures Answers(env, Gt, Int(i), Int(j), c, i > j) && Answers(env, Ge, Int(i), Int(j), c, i >= j)
    ensures Answers(env, Eq, Int(i), Int(j), c, i == j) && Answers(env, Ne, Int(i), Int(j), c, i != j)
  {
    hide Answers, Leaves;
    AllCompared(env, Int(i), Int(j), c);
  }

  // The strings agree before position k, where the first ends or has the
  // smaller character.
  predicate SmallerAt(s: string, t: string, k: nat) {
    k <= |s| && k < |t| && s[..k] == t[..k] && (k == |s| || s[k] < t[k])
  }

  ghost predicate StringBefore(s: string, t: string) {
    exists k: nat :: SmallerAt(s, t, k)
  }

  lemma {:induction false} StrLessMeans(s: string, t: string)
    ensures StrLess(s, t) <==> StringBefore(s, t)
    decreases |s|
  {
    if s != "" && t != "" && s[0] == t[0] {
      assert s == [s[0]] + s[1..] && t == [t[0]] + t[1..];
      StrLessMeans(s[1..], t[1..]);
      if k: nat :| SmallerAt(s[1..], t[1..], k) {
        assert s[..k + 1] == [s[0]] + s[1..][..k] && t[..k + 1] == [t[0]] + t[1..][..k];
        assert SmallerAt(s, t, k + 1);
      }
      if k: nat :| SmallerAt(s, t, k) {
        assert s[1..][..k - 1] == s[..k][1..] && t[1..][..k - 1] == t[..k][1..];
        assert SmallerAt(s[1..], t[1..], k - 1);
      }
    } else if t != "" && (s == "" || s[0] < t[0]) {
      assert SmallerAt(s, t, 0);
    } else if k: nat :| SmallerAt(s, t, k) {
      FirstAgrees(s, t, k);
      assert false;
    }
  }

  lemma FirstAgrees(s: string, t: string, k: nat)
    requires SmallerAt(s, t, k)
    ensures k == 0 || s[..k][0] == s[0] == t[0]
  {
    assert k > 0 ==> s[0] == s[..k][0] == t[..k][0];
  }

  // The order of strings is total.
  lemma StringsTotal(s: string, t: string)
    ensures StringBefore(s, t) || s == t || StringBefore(t, s)
    ensures !(StringBefore(s, t) && StringBefore(t, s)) && !StringBefore(s, s)
  {
    hide StrLess, StringBefore;
    StrLessMeans(s, t);
    StrLessMeans(t, s);
    StrLessMeans(s, s);
    StrLessOrder(s, t, s);
    StrLessOrder(s, s, s);
  }

  lemma StringComparisons(env: Env, s: string, t: string, c: Counters)
    ensures Answers(env, Lt, Str(s), Str(t), c, StringBefore(s, t))
    ensures Answers(env, Le, Str(s), Str(t), c, StringBefore(s, t) || s == t)
    ensures Answers(env, Gt, Str(s), Str(t), c, StringBefore(t, s))
    ensures Answers(env, Ge, Str(s), Str(t), c, StringBefore(t, s) || s == t)
    ensures Answers(env, Eq, Str(s), Str(t), c, s == t) && Answers(env, Ne, Str(s), Str(t), c, s != t)
  {
    hide StrLess, StringBefore, Answers, Leaves;
    StrLessMeans(s, t);
    StrLessMeans(t, s);
    StringsTotal(s, t);
    AllCompared(env, Str(s), Str(t), c);
  }

  function Number(env: Env, v: Variant): Double
    requires !v.Str?
  {
    match v
    case Int(i) => env.ofInt(i)
    case Flt(d) => d
  }

  // With a float among the operands both are compared as floats.
  lemma FloatComparisons(env: Env, v: Variant, w: Variant, c: Counters)
    requires !v.Str? && !w.Str? && (v.Flt? || w.Flt?)
    ensures var d, e := Number(env, v), Number(env, w);
            && Answers(env, Lt, v, w, c, env.less(d, e)) && Answers(env, Le, v, w, c, env.lessEq(d, e))
            && Answers(env, Gt, v, w, c, env.less(e, d)) && Answers(env, Ge, v, w, c, env.lessEq(e, d))
            && Answers(env, Eq, v, w, c, env.equal(d, e)) && Answers(env, Ne, v, w, c, !env.equal(d, e))
  {
    hide Answers, Leaves;
    AllCompared(env, v, w, c);
  }

  // A string and a number cannot be compared.
  lemma NoMixedComparison(env: Env, op: Oper, v: Variant, w: Variant, c: Counters)
    requires op in {Lt, Le, Gt, Ge, Eq, Ne} && v.Str? != w.Str?
    ensures Leaves(env, op, [v, w], c, None)
  {
    hide Compare, Answers, Leaves;
    Compared(env, op, v, w, c);
  }

  // ---------------------------------------------------------------- logic and bits

  predicate Boolean(v: Variant) {
    v == Int(0) || v == Int(1)
  }

  // The operators on 0 and 1, which refuse everything else.
  lemma LogicLaws(env: Env, v: Variant, w: Variant, c: Counters)
    ensures if Boolean(v) && Boolean(w) then
              && Answers(env, And, v, w, c, v == Int(1) && w == Int(1))
              && Answers(env, Or, v, w, c, v == Int(1) || w == Int(1))
              && Answers(env, Xor, v, w, c, v != w)
            else
              forall op :: op in {And, Or, Xor} ==> Leaves(env, op, [v, w], c, None)
    ensures Leaves(env, Not, [v], c,
                   if v == Int(0) then Some(Int(1)) else if v == Int(1) then Some(Int(0)) else None)
  {
    hide Leaves;
    Computed(env, And, [v, w], c);
    Computed(env, Or, [v, w], c);
    Computed(env, Xor, [v, w], c);
    Computed(env, Not, [v], c);
  }

  lemma {:induction false} BitwiseBound(f: (bool, bool) -> bool, x: nat, y: nat, n: nat)
    ensures Bitwise(f, x, y, n) < Pow2(n)
    decreases n
  {
    if n > 0 {
      BitwiseBound(f, x / 2, y / 2, n - 1);
    }
  }

  lemma WrapUnsigned(u: nat)
    requires u < TWO_64
    ensures Unsigned(Wrap(u)) == u
  {
  }

  lemma BitsOf(f: (bool, bool) -> bool, x: Long, y: Long, k: nat)
    requires k < 64
    ensures Bit(Unsigned(Bits64(f, x, y)), k) == f(Bit(Unsigned(x), k), Bit(Unsigned(y), k))
  {
    hide Bitwise, Wrap, Pow2, Bit, Unsigned;
    Pow2Of64();
    BitwiseBound(f, Unsigned(x), Unsigned(y), 64);
    WrapUnsigned(Bitwise(f, Unsigned(x), Unsigned(y), 64));
    BitwiseBit(f, Unsigned(x), Unsigned(y), 64, k);
  }

  // Bit k of the two's complement form of x.
  function BitOf(x: Long, k: nat): bool {
    Bit(Unsigned(x), k)
  }

  // What the bit operators leave, bit by bit; other types are refused.
  lemma BitOperators(env: Env, x: Long, y: Long, c: Counters) returns (both: Long, either: Long, unequal: Long)
    ensures Leaves(env, BitAnd, [Int(x), Int(y)], c, Some(Int(both)))
    ensures Leaves(env, BitOr, [Int(x), Int(y)], c, Some(Int(either)))
    ensures Leaves(env, BitXor, [Int(x), Int(y)], c, Some(Int(unequal)))
    ensures Leaves(env, BitNeg, [Int(x)], c, Some(Int(-1 - x)))
    ensures forall k :: 0 <= k < 64 ==>
              && (BitOf(both, k) <==> BitOf(x, k) && BitOf(y, k))
              && (BitOf(either, k) <==> BitOf(x, k) || BitOf(y, k))
              && (BitOf(unequal, k) <==> BitOf(x, k) != BitOf(y, k))
  {
    hide Leaves, Bits64, Bit, Unsigned;
    Computed(env, BitAnd, [Int(x), Int(y)], c);
    Computed(env, BitOr, [Int(x), Int(y)], c);
    Computed(env, BitXor, [Int(x), Int(y)], c);
    Computed(env, BitNeg, [Int(x)], c);
    both, either, unequal := Bits64(Both, x, y), Bits64(Either, x, y), Bits64(Unequal, x, y);
    forall k | 0 <= k < 64
      ensures BitOf(both, k) <==> BitOf(x, k) && BitOf(y, k)
      ensures BitOf(either, k) <==> BitOf(x, k) || BitOf(y, k)
      ensures BitOf(unequal, k) <==> BitOf(x, k) != BitOf(y, k)
    {
      BitsOf(Both, x, y, k);
      BitsOf(Either, x, y, k);
      BitsOf(Unequal, x, y, k);
    }
  }

  // Shifting left multiplies by a power of two modulo 2^64; shifting right
  // divides by it, rounding down. Only the lowest six bits of the count matter.
  lemma ShiftLaws(env: Env, x: Long, count: Long, c: Counters) returns (left: Long, right: Long)
    ensures Leaves(env, LShift, [Int(x), Int(count)], c, Some(Int(left)))
    ensures Leaves(env, RShift, [Int(x), Int(count)], c, Some(Int(right)))
    ensures (left - x * Pow2(count % 64)) % TWO_64 == 0
    ensures right * Pow2(count % 64) <= x < right * Pow2(count % 64) + Pow2(count % 64)
  {
    hide Leaves, Wrap, Pow2;
    var p := Pow2(count % 64);
    PositivePow2(count % 64);
    WrapIs(x * p);
    FloorQuotient(x, p);
    WrapIs(x / p);
    left, right := Wrap(x * p), Wrap(x / p);
    Computed(env, LShift, [Int(x), Int(count)], c);
    Computed(env, RShift, [Int(x), Int(count)], c);
  }

  lemma FloorQuotient(x: Long, p: nat)
    requires p > 0
    ensures (x / p) * p <= x < (x / p) * p + p && IsLong(x / p)
  {
    var q := x / p;
    assert x == q * p + x % p;
    if q >= 0 {
      AtLeastOne(q, p);
    } else {
      AtLeastOne(-q - 1, p);
      assert (-q - 1) * p == -(q * p) - p;
    }
  }

  // The bit operators and the shifts refuse everything but integers.
  lemma IntegersOnly(env: Env, op: Oper, v: Variant, w: Variant, c: Counters)
    requires !v.Int? || !w.Int?
    ensures op in {BitOr, BitAnd, BitXor, LShift, RShift} ==> Leaves(env, op, [v, w], c, None)
    ensures !v.Int? ==> Leaves(env, BitNeg, [v], c, None)
  {
    hide Leaves, IntOp;
    if op in {BitOr, BitAnd, BitXor, LShift, RShift} {
      Computed(env, op, [v, w], c);
    }
    Computed(env, BitNeg, [v], c);
  }

  // ---------------------------------------------------------------- arithmetic

  // With a float among the operands, arithmetic is that of floats, left operand
  // first, except for a divisor of zero; strings have none. Integers follow
  // SumLaws and DivisionLaws.
  lemma FloatArithmetic(env: Env, op: Oper, v: Variant, w: Variant, c: Counters)
    requires op in {Add, Sub, Mul, Div, Mod} && !(v.Int? && w.Int?)
    ensures Leaves(env, op, [v, w], c,
                   if v.Str? || w.Str? then None
                   else if op in {Div, Mod} && (w == Int(0) || (w.Flt? && env.equal(w.d, env.ofInt(0)))) then None
                   else Some(Flt(env.arith(op, Number(env, v), Number(env, w)))))
  {
    hide Leaves;
    Computed(env, op, [v, w], c);
  }

  // ---------------------------------------------------------------- strings

  lemma StringOperators(env: Env, s: string, t: string, c: Counters)
    ensures Leaves(env, Concat, [Str(s), Str(t)], c, Some(Str(s + t)))
    ensures |s| <= LLONG_MAX ==> Leaves(env, Strlen, [Str(s)], c, Some(Int(|s|)))
    ensures Leaves(env, Like, [Str(s), Str(t)], c,
                   match env.matches(Regex("^" + LikeBody(t) + "$", true, false), s)
                   case None => None
                   case Some(found) => Some(Int(if found then 1 else 0)))
  {
    hide Leaves, Wrap;
    WrapIs(|s|);
    Computed(env, Concat, [Str(s), Str(t)], c);
    Computed(env, Strlen, [Str(s)], c);
    Computed(env, Like, [Str(s), Str(t)], c);
  }

  lemma StringsOnly(env: Env, v: Variant, w: Variant, c: Counters)
    requires !v.Str? || !w.Str?
    ensures Leaves(env, Concat, [v, w], c, None) && Leaves(env, Like, [v, w], c, None)
    ensures !v.Str? ==> Leaves(env, Strlen, [v], c, None)
  {
    hide Leaves, Wrap, Matched;
    Computed(env, Concat, [v, w], c);
    Computed(env, Like, [v, w], c);
    Computed(env, Strlen, [v], c);
  }

  // SUBSTR: the lengths it refuses and the characters it takes.
  lemma SubstrTakes(env: Env, s: string, start: Long, len: Long, c: Counters)
    requires |s| <= LLONG_MAX
    ensures Leaves(env, Substr, [Str(s), Int(start), Int(len)], c,
                   if len < 0 then None
                   else if start > 0 then
                     Some(Str(s[Min(start - 1, |s|)..Min(Min(start - 1, |s|) + len, |s|)]))
                   else if start == 0 then Some(Str(if len == 0 then s else s[..Min(len - 1, |s|)]))
                   else if start + |s| >= 0 then Some(Str(s[|s| + start..Min(|s| + start + len, |s|)]))
                   else Some(Str(s[..Min(len, |s|)])))
  {
    hide Leaves, Substring;
    Computed(env, Substr, [Str(s), Int(start), Int(len)], c);
    if len >= 0 {
      SubstringMeans(s, start, len);
    }
  }

  // IF takes the second operand for a condition other than 0, else the third;
  // both must have one type.
  lemma IfChooses(env: Env, v: Variant, w: Variant, x: Variant, c: Counters)
    ensures Leaves(env, If, [v, w, x], c,
                   if !v.Int? || TypeOf(w) != TypeOf(x) then None else if v == Int(0) then Some(x) else Some(w))
  {
    hide Leaves;
    Computed(env, If, [v, w, x], c);
  }

  // ---------------------------------------------------------------- conversions

  lemma Converted(env: Env, op: Oper, v: Variant, c: Counters)
    requires Converts(op) && Arity(op) == 1
    ensures Leaves(env, op, [v], c, if Accepts(op, [v]) then Convert(env, op, [v]) else None)
  {
    hide Leaves, Convert;
    Computed(env, op, [v], c);
  }

  lemma IntConversions(env: Env, i: Long, c: Counters)
    ensures Leaves(env, ToString, [Int(i)], c, Some(Str(Text(i, 10))))
    ensures Leaves(env, Int2Str, [Int(i)], c, Some(Str(Text(i, 10))))
    ensures Leaves(env, ToFloat, [Int(i)], c, Some(Flt(env.ofInt(i))))
    ensures Leaves(env, Int2Flt, [Int(i)], c, Some(Flt(env.ofInt(i))))
    ensures Leaves(env, ToInt, [Int(i)], c, Some(Int(i)))
  {
    hide Leaves, Text;
    Converted(env, ToString, Int(i), c);
    Converted(env, Int2Str, Int(i), c);
    Converted(env, ToFloat, Int(i), c);
    Converted(env, Int2Flt, Int(i), c);
    Converted(env, ToInt, Int(i), c);
  }

  lemma FloatConversions(env: Env, d: Double, c: Counters)
    ensures Leaves(env, ToString, [Flt(d)], c, Some(Str(env.show(d))))
    ensures Leaves(env, Flt2Str, [Flt(d)], c, Some(Str(env.show(d))))
    ensures Leaves(env, ToInt, [Flt(d)], c, Some(Int(env.toInt(d))))
    ensures Leaves(env, Flt2Int, [Flt(d)], c, Some(Int(env.toInt(d))))
    ensures Leaves(env, ToFloat, [Flt(d)], c, Some(Flt(d)))
  {
    hide Leaves;
    Converted(env, ToString, Flt(d), c);
    Converted(env, Flt2Str, Flt(d), c);
    Converted(env, ToInt, Flt(d), c);
    Converted(env, Flt2Int, Flt(d), c);
    Converted(env, ToFloat, Flt(d), c);
  }

  lemma StringConversions(env: Env, s: string, c: Counters)
    ensures Leaves(env, ToString, [Str(s)], c, Some(Str(s)))
    ensures Leaves(env, ToFloat, [Str(s)], c,
                   match env.parse(s) case None => None case Some(d) => Some(Flt(d)))
    ensures Leaves(env, Str2Flt, [Str(s)], c,
                   match env.parse(s) case None => None case Some(d) => Some(Flt(d)))
    ensures Leaves(env, ToInt, [Str(s)], c, match Read(s, 0) case None => None case Some(n) => Some(Int(n)))
    ensures Leaves(env, Str2Int, [Str(s)], c, match Read(s, 0) case None => None case Some(n) => Some(Int(n)))
  {
    hide Leaves, Read;
    Converted(env, ToString, Str(s), c);
    Converted(env, ToFloat, Str(s), c);
    Converted(env, Str2Flt, Str(s), c);
    Converted(env, ToInt, Str(s), c);
    Converted(env, Str2Int, Str(s), c);
  }

  // A conversion that names its source type refuses the other types.
  lemma NoConversion(env: Env, v: Variant, c: Counters)
    ensures !v.Int? ==> Leaves(env, Int2Str, [v], c, None) && Leaves(env, Int2Flt, [v], c, None)
    ensures !v.Flt? ==> Leaves(env, Flt2Str, [v], c, None) && Leaves(env, Flt2Int, [v], c, None)
    ensures !v.Str? ==> Leaves(env, Str2Int, [v], c, None) && Leaves(env, Str2Flt, [v], c, None)
  {
    hide Leaves, Convert;
    Converted(env, Int2Str, v, c);
    Converted(env, Int2Flt, v, c);
    Converted(env, Flt2Str, v, c);
    Converted(env, Flt2Int, v, c);
    Converted(env, Str2Int, v, c);
    Converted(env, Str2Flt, v, c);
  }

  // What INT2STRB writes, TOINT reads back for the values that read back in the
  // base; INT2STRB knows four bases, STRB2INT those from 2 to 36.
  lemma BaseConversions(env: Env, i: Long, base: Long, s: string, c: Counters)
    ensures Leaves(env, Int2StrB, [Int(i), Int(base)], c,
                   if base in {2, 8, 10, 16} then Some(Str(Text(i, base))) else None)
    ensures base in {2, 8, 10, 16} ==>
              Leaves(env, ToInt, [Str(Text(i, base))], c, if ReadsBack(i, base) then Some(Int(i)) else None)
    ensures Leaves(env, StrB2Int, [Str(s), Int(base)], c,
                   if base < 2 || base > 36 then None
                   else match Read(s, base) case None => None case Some(n) => Some(Int(n)))
  {
    hide Leaves, Text, Read, ReadsBack;
    Computed(env, Int2StrB, [Int(i), Int(base)], c);
    if base in {2, 8, 10, 16} {
      TextReadsBack(i, base);
      StringConversions(env, Text(i, base), c);
    }
    Computed(env, StrB2Int, [Str(s), Int(base)], c);
  }

  // ---------------------------------------------------------------- fields

  // What a column token leaves: its own field, and no other, as the type says.
  // What the evaluator prints of a number or a string is read as the same value.
  lemma FieldLaws(env: Env, row: Row, num: nat, i: Long, s: string)
    ensures num >= |row| ==> forall ty :: FieldValue(env, row, num, ty) == None
    ensures num < |row| ==>
              && FieldValue(env, row, num, IntType) ==
                 (match Read(row[num], 0) case None => None case Some(n) => Some(Int(n)))
              && FieldValue(env, row, num, FloatType) ==
                 (match env.parse(row[num]) case None => None case Some(d) => Some(Flt(d)))
              && (row[num] == Text(i, 10) ==> FieldValue(env, row, num, IntType) == Some(Int(i)))
              && ('\0' !in s && row[num] == CsvPrint.Quote(s) ==>
                    FieldValue(env, row, num, StringType) == Some(Str(s)))
  {
    hide Read, Text, CsvPrint.Quote, CsvPrint.Decode;
    DecimalReadsBack(i);
    if '\0' !in s {
      CsvPrint.DecodeQuote(s);
    }
  }

  // ---------------------------------------------------------------- replacing and matching

  // The pattern stands at position i, up to case if the search ignores case.
  predicate StandsAt(env: Env, caseSensitive: Long, s: string, pattern: string, i: nat) {
    i + |pattern| <= |s| &&
    if caseSensitive != 0 then s[i..i + |pattern|] == pattern
    else forall k :: 0 <= k < |pattern| ==> env.lower(s[i + k]) == env.lower(pattern[k])
  }

  lemma StandsOccurs(env: Env, caseSensitive: Long, s: string, pattern: string, i: nat)
    ensures StandsAt(env, caseSensitive, s, pattern, i) <==>
            StrReplace.OccursAt(StrReplace.Comparing(caseSensitive != 0, env.lower), s, pattern, i)
  {
    if caseSensitive != 0 && i + |pattern| <= |s| {
      StrReplace.ExactOccurs(s, pattern, i);
    }
  }

  // REPLACE without an occurrence leaves the string; with a first one at
  // position i it replaces that, and what follows is what it makes of the rest.
  // An empty pattern has no result.
  lemma ReplaceLaws(env: Env, s: string, pattern: string, text: string, caseSensitive: Long, c: Counters, i: nat)
    requires pattern != ""
    requires forall j :: 0 <= j < i ==> !StandsAt(env, caseSensitive, s, pattern, j)
    requires i > |s| || StandsAt(env, caseSensitive, s, pattern, i)
    ensures if i > |s| then Leaves(env, Replace, [Str(s), Str(pattern), Str(text), Int(caseSensitive)], c, Some(Str(s)))
            else
              exists rest ::
                && Leaves(env, Replace, [Str(s[i + |pattern|..]), Str(pattern), Str(text), Int(caseSensitive)], c,
                          Some(Str(rest)))
                && Leaves(env, Replace, [Str(s), Str(pattern), Str(text), Int(caseSensitive)], c,
                          Some(Str(s[..i] + text + rest)))
  {
    hide Leaves, StandsAt, StrReplace.OccursAt, StrReplace.Replaced;
    var fold := StrReplace.Comparing(caseSensitive != 0, env.lower);
    forall j: nat
      ensures StandsAt(env, caseSensitive, s, pattern, j) <==> StrReplace.OccursAt(fold, s, pattern, j)
    {
      StandsOccurs(env, caseSensitive, s, pattern, j);
    }
    Computed(env, Replace, [Str(s), Str(pattern), Str(text), Int(caseSensitive)], c);
    StrReplace.ReplacedStep(fold, s, pattern, text);
    StrReplace.FirstFound(fold, s, pattern, i);
    if i <= |s| {
      Computed(env, Replace, [Str(s[i + |pattern|..]), Str(pattern), Str(text), Int(caseSensitive)], c);
    }
  }

  lemma ReplaceNothing(env: Env, s: string, text: string, caseSensitive: Long, c: Counters)
    ensures Leaves(env, Replace, [Str(s), Str(""), Str(text), Int(caseSensitive)], c, None)
  {
    hide Leaves;
    Computed(env, Replace, [Str(s), Str(""), Str(text), Int(caseSensitive)], c);
  }

  // The regular expression operators: the string is matched against the pattern,
  // basic or extended, ignoring case only for a last operand of 0.
  lemma MatchesLaws(env: Env, s: string, pattern: string, caseSensitive: Long, c: Counters)
    ensures Leaves(env, MatchesBre, [Str(s), Str(pattern), Int(caseSensitive)], c,
                   match env.matches(Regex(pattern, false, caseSensitive == 0), s)
                   case None => None
                   case Some(yes) => Some(Int(if yes then 1 else 0)))
    ensures Leaves(env, MatchesEre, [Str(s), Str(pattern), Int(caseSensitive)], c,
                   match env.matches(Regex(pattern, true, caseSensitive == 0), s)
                   case None => None
                   case Some(yes) => Some(Int(if yes then 1 else 0)))
  {
    hide Leaves;
    Computed(env, MatchesBre, [Str(s), Str(pattern), Int(caseSensitive)], c);
    Computed(env, MatchesEre, [Str(s), Str(pattern), Int(caseSensitive)], c);
  }

  lemma SubstituteLaws(env: Env, s: string, pattern: string, text: string, caseSensitive: Long, c: Counters)
    ensures Leaves(env, ReplaceBre, [Str(s), Str(pattern), Str(text), Int(caseSensitive)], c,
                   match env.substitute(Regex(pattern, false, caseSensitive == 0), s, text)
                   case None => None
                   case Some(r) => Some(Str(r)))
    ensures Leaves(env, ReplaceEre, [Str(s), Str(pattern), Str(text), Int(caseSensitive)], c,
                   match env.substitute(Regex(pattern, true, caseSensitive == 0), s, text)
                   case None => None
                   case Some(r) => Some(Str(r)))
  {
    hide Leaves;
    Computed(env, ReplaceBre, [Str(s), Str(pattern), Str(text), Int(caseSensitive)], c);
    Computed(env, ReplaceEre, [Str(s), Str(pattern), Str(text), Int(caseSensitive)], c);
  }

  // NEXT leaves the count of its name's counter and the counters after it.
  lemma NextLaw(env: Env, name: string, c: Counters)
    ensures var (after, count) := NextCounters.Next(env.hash, c, name);
            IsLong(count) ==> Apply(env, NextOf, [Str(name)], c) == Some((Int(count), after))
  {
    hide NextCounters.Next;
    WrapIs(NextCounters.Next(env.hash, c, name).1);
  }

  // The operators on strings with further operands refuse other types.
  lemma TypesRefused(env: Env, op: Oper, a: seq<Variant>, c: Counters)
    requires |a| == Arity(op)
    requires match op
             case Substr => !(a[0].Str? && a[1].Int? && a[2].Int?)
             case Replace | ReplaceBre | ReplaceEre => !(a[0].Str? && a[1].Str? && a[2].Str? && a[3].Int?)
             case MatchesBre | MatchesEre => !(a[0].Str? && a[1].Str? && a[2].Int?)
             case Int2StrB => !(a[0].Int? && a[1].Int?)
             case StrB2Int => !(a[0].Str? && a[1].Int?)
             case NextOf => !a[0].Str?
             case _ => false
    ensures Leaves(env, op, a, c, None)
  {
  }
}
