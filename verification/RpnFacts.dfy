// Laws that pin down the operators of the stack machine independently of how
// each is computed.

module RpnFacts {
  import opened Wrappers
  import opened IntText
  import opened Rpn

  // ---------------------------------------------------------------- integers

  // The integer an arithmetic operator leaves for two integers, if it succeeds
  // and leaves the counters alone.
  function IntOf(env: Env, op: Oper, x: Long, y: Long, c: Counters): Option<int>
    requires op in {Add, Sub, Mul, Div, Mod}
  {
    match Apply(env, op, [Int(x), Int(y)], c)
    case Some((Int(i), after)) => if after == c then Some(i) else None
    case _ => None
  }

  lemma IntOfArith(env: Env, op: Oper, x: Long, y: Long, c: Counters)
    requires op in {Add, Sub, Mul, Div, Mod}
    ensures IntOf(env, op, x, y, c) == match IntArith(op, x, y) case None => None case Some(v) => Some(v.i)
  {
    hide IntArith;
  }

  // Sums, differences and products are exact modulo 2^64.
  lemma SumLaws(env: Env, x: Long, y: Long, c: Counters)
    ensures var r := IntOf(env, Add, x, y, c); r.Some? && (r.value - (x + y)) % TWO_64 == 0
    ensures var r := IntOf(env, Sub, x, y, c); r.Some? && (r.value - (x - y)) % TWO_64 == 0
    ensures var r := IntOf(env, Mul, x, y, c); r.Some? && (r.value - x * y) % TWO_64 == 0
  {
    hide Wrap, IntOf;
    IntOfArith(env, Add, x, y, c);
    IntOfArith(env, Sub, x, y, c);
    IntOfArith(env, Mul, x, y, c);
    WrapIs(x + y);
    WrapIs(x - y);
    WrapIs(x * y);
  }

  // Quotient and remainder fail together, exactly for a zero divisor and for
  // -2^63 by -1, and otherwise satisfy the division law, truncating toward zero.
  lemma DivisionLaws(env: Env, x: Long, y: Long, c: Counters)
    ensures var q, r := IntOf(env, Div, x, y, c), IntOf(env, Mod, x, y, c);
            if y == 0 || (x == LLONG_MIN && y == -1) then q == r == None
            else
              q.Some? && r.Some? && x == q.value * y + r.value &&
              (r.value == 0 || (r.value < 0) == (x < 0)) && -r.value < Abs(y) && r.value < Abs(y)
  {
    hide Quot, Rem, Wrap, IntOf;
    IntOfArith(env, Div, x, y, c);
    IntOfArith(env, Mod, x, y, c);
    if y != 0 && !(x == LLONG_MIN && y == -1) {
      QuotRem(x, y);
      QuotInRange(x, y);
      WrapIs(Quot(x, y));
      WrapIs(Rem(x, y));
    }
  }

  function Abs(y: int): nat {
    if y < 0 then -y else y
  }

  lemma WrapIs(x: int)
    ensures (Wrap(x) - x) % TWO_64 == 0
    ensures IsLong(x) ==> Wrap(x) == x
  {
    var q := x / TWO_64;
    assert x == q * TWO_64 + x % TWO_64;
    Multiple(if x % TWO_64 > LLONG_MAX then -q - 1 else -q);
  }

  lemma Multiple(k: int)
    ensures (k * TWO_64) % TWO_64 == 0
  {
  }

  lemma QuotInRange(x: Long, y: Long)
    requires y != 0 && !(x == LLONG_MIN && y == -1)
    ensures IsLong(Quot(x, y)) && IsLong(Rem(x, y))
  {
    var a, b := Abs(x), Abs(y);
    assert 0 <= a / b <= a by {
      SmallQuotient(a, b);
    }
    if b > 1 {
      SmallerQuotient(a, b);
    }
  }

  lemma SmallQuotient(a: nat, b: nat)
    requires b > 0
    ensures 0 <= a / b <= a
  {
    AtLeastOne(a / b, b);
    assert a == (a / b) * b + a % b;
  }

  lemma SmallerQuotient(a: nat, b: nat)
    requires b > 1
    ensures 2 * (a / b) <= a
  {
    SmallQuotient(a, b);
    AtLeastOne(a / b, b - 1);
    assert a == (a / b) * b + a % b;
    assert (a / b) * b == (a / b) * (b - 1) + a / b;
  }

  // ---------------------------------------------------------------- bits

  function Bit(x: nat, k: nat): bool {
    if k == 0 then x % 2 == 1 else Bit(x / 2, k - 1)
  }

  // A bit operation acts on each bit by itself.
  lemma {:induction false} BitwiseBit(f: (bool, bool) -> bool, x: nat, y: nat, n: nat, k: nat)
    requires k < n
    ensures Bit(Bitwise(f, x, y, n), k) == f(Bit(x, k), Bit(y, k))
    decreases n
  {
    if k > 0 {
      BitwiseBit(f, x / 2, y / 2, n - 1, k - 1);
      assert Bitwise(f, x, y, n) / 2 == Bitwise(f, x / 2, y / 2, n - 1);
    }
  }

  // Conjunction and disjunction share out the bits of a sum; exclusive or is
  // the sum without its carries.
  lemma {:induction false} SumOfBits(x: nat, y: nat, n: nat)
    requires x < Pow2(n) && y < Pow2(n)
    ensures Bitwise(Both, x, y, n) + Bitwise(Either, x, y, n) == x + y
    ensures Bitwise(Unequal, x, y, n) + 2 * Bitwise(Both, x, y, n) == x + y
    ensures Bitwise(Either, x, y, n) < Pow2(n)
    decreases n
  {
    if n > 0 {
      SumOfBits(x / 2, y / 2, n - 1);
    }
  }

  // The same on signed 64-bit operands, modulo 2^64.
  lemma BitLaws(x: Long, y: Long)
    ensures (Bits64(Both, x, y) + Bits64(Either, x, y) - (x + y)) % TWO_64 == 0
    ensures (Bits64(Unequal, x, y) + 2 * Bits64(Both, x, y) - (x + y)) % TWO_64 == 0
  {
    Pow2Of64();
    hide Bitwise, Wrap, Pow2;
    var u, v := Unsigned(x), Unsigned(y);
    SumOfBits(u, v, 64);
    var ka := WrapOff(Bitwise(Both, u, v, 64));
    var ko := WrapOff(Bitwise(Either, u, v, 64));
    var ke := WrapOff(Bitwise(Unequal, u, v, 64));
    var c := (if x < 0 then 1 else 0) + (if y < 0 then 1 else 0);
    Multiple(ka + ko + c);
    Multiple(ke + 2 * ka + c);
  }

  // Wrapping moves a value by a multiple of 2^64.
  lemma WrapOff(x: int) returns (k: int)
    ensures Wrap(x) == x + k * TWO_64
  {
    var q := x / TWO_64;
    assert x == q * TWO_64 + x % TWO_64;
    k := if x % TWO_64 > LLONG_MAX then -q - 1 else -q;
  }

  // ---------------------------------------------------------------- comparisons

  // Doubles other than NaN compare like the numbers they stand for.
  ghost predicate DoublesOrdered(env: Env, rank: Double -> int) {
    forall d, e :: env.equal(d, d) && env.equal(e, e) ==>
      (env.equal(d, e) <==> rank(d) == rank(e)) &&
      (env.less(d, e) <==> rank(d) < rank(e)) &&
      (env.lessEq(d, e) <==> rank(d) <= rank(e))
  }

  predicate Ordinary(env: Env, v: Variant) {
    match v
    case Flt(d) => env.equal(d, d)
    case Int(i) => env.equal(env.ofInt(i), env.ofInt(i))
    case Str(_) => true
  }

  // Exactly one of <, == and > holds, the other comparisons are the negations
  // they should be, and swapping the operands turns < into >.
  ghost predicate Trichotomy(env: Env, v: Variant, w: Variant)
    requires Numeric(v) == Numeric(w)
  {
    && (Compare(env, Lt, v, w) <==> Compare(env, Gt, w, v))
    && (Compare(env, Eq, v, w) <==> Compare(env, Eq, w, v))
    && !(Compare(env, Lt, v, w) && Compare(env, Gt, v, w))
    && (Compare(env, Eq, v, w) <==> !Compare(env, Lt, v, w) && !Compare(env, Gt, v, w))
    && (Compare(env, Ne, v, w) <==> !Compare(env, Eq, v, w))
    && (Compare(env, Le, v, w) <==> !Compare(env, Gt, v, w))
    && (Compare(env, Ge, v, w) <==> !Compare(env, Lt, v, w))
  }

  lemma ComparisonLaws(env: Env, rank: Double -> int, v: Variant, w: Variant)
    requires DoublesOrdered(env, rank) && Numeric(v) == Numeric(w) && Ordinary(env, v) && Ordinary(env, w)
    ensures Trichotomy(env, v, w)
  {
    hide Trichotomy, DoublesOrdered;
    if v.Str? {
      StringsCompare(env, v, w);
    } else if v.Int? && w.Int? {
      IntsCompare(env, v, w);
    } else {
      DoubleLaws(env, rank, AsDouble(env, v), AsDouble(env, w));
      DoublesCompare(env, v, w);
    }
  }

  lemma StringsCompare(env: Env, v: Variant, w: Variant)
    requires v.Str? && w.Str?
    ensures Trichotomy(env, v, w)
  {
    hide StrLess;
    StrLessOrder(v.s, w.s, v.s);
    StrLessOrder(w.s, v.s, w.s);
  }

  lemma IntsCompare(env: Env, v: Variant, w: Variant)
    requires v.Int? && w.Int?
    ensures Trichotomy(env, v, w)
  {
  }

  lemma DoublesCompare(env: Env, v: Variant, w: Variant)
    requires Numeric(v) && Numeric(w) && !(v.Int? && w.Int?)
    requires var d, e := AsDouble(env, v), AsDouble(env, w);
             && (env.equal(d, e) <==> env.equal(e, d))
             && !(env.less(d, e) && env.less(e, d))
             && (env.equal(d, e) <==> !env.less(d, e) && !env.less(e, d))
             && (env.lessEq(d, e) <==> !env.less(e, d))
             && (env.lessEq(e, d) <==> !env.less(d, e))
    ensures Trichotomy(env, v, w)
  {
    hide AsDouble;
  }

  lemma DoubleLaws(env: Env, rank: Double -> int, d: Double, e: Double)
    requires DoublesOrdered(env, rank) && env.equal(d, d) && env.equal(e, e)
    ensures env.equal(d, e) <==> env.equal(e, d)
    ensures !(env.less(d, e) && env.less(e, d))
    ensures env.equal(d, e) <==> !env.less(d, e) && !env.less(e, d)
    ensures env.lessEq(d, e) <==> !env.less(e, d)
    ensures env.lessEq(e, d) <==> !env.less(d, e)
  {
  }

  lemma {:induction false} StrLessOrder(a: string, b: string, c: string)
    ensures !(StrLess(a, b) && StrLess(b, a))
    ensures a == b || StrLess(a, b) || StrLess(b, a)
    ensures a == b ==> !StrLess(a, b)
    ensures StrLess(a, b) && StrLess(b, c) ==> StrLess(a, c)
    decreases |a| + |b| + |c|
  {
    if a != "" && b != "" {
      if a[0] == b[0] {
        assert a == b <==> a[1..] == b[1..] by {
          assert a == [a[0]] + a[1..] && b == [b[0]] + b[1..];
        }
        StrLessOrder(a[1..], b[1..], if c != "" then c[1..] else "");
      }
      if c != "" {
        StrLessOrder(a[1..], b[1..], c[1..]);
      }
    }
  }

  // ---------------------------------------------------------------- text

  // Undoing the translation of a LIKE pattern.
  function Unlike(body: string): string {
    if |body| < 2 then body
    else if body[0] == '.' then "%" + Unlike(body[2..])
    else if body[0] == '\\' then [body[1]] + Unlike(body[2..])
    else [body[0]] + Unlike(body[1..])
  }

  // The regular expression of a LIKE pattern determines the pattern: no
  // character of it is lost or merged. What it matches is another matter: braces
  // are copied as they are, and an interval in the pattern stays one.
  lemma {:induction false} LikeReadsBack(pattern: string)
    ensures Unlike(LikeBody(pattern)) == pattern
    decreases |pattern|
  {
    if pattern != "" {
      LikeReadsBack(pattern[1..]);
      var rest, all := LikeBody(pattern[1..]), LikeBody(pattern);
      assert pattern == [pattern[0]] + pattern[1..];
      if pattern[0] == '%' || pattern[0] in ".?*+[]()$^\\|" {
        assert all[2..] == rest;
      } else {
        assert all[1..] == rest;
        if rest == "" {
          assert pattern[1..] == "";
        }
      }
    }
  }

  // The translation is made character by character: a percent sign matches any
  // text, what means something in a regular expression is escaped, and the other
  // characters stand for themselves.
  lemma LikeCharacter(c: char)
    ensures LikeBody([c]) == if c == '%' then ".*" else if c in ".?*+[]()$^\\|" then ['\\', c] else [c]
  {
    assert LikeBody("") == "";
    assert "\\" + [c] == ['\\', c];
  }

  lemma {:induction false} LikeConcat(a: string, b: string)
    ensures LikeBody(a + b) == LikeBody(a) + LikeBody(b)
    decreases |a|
  {
    if a == "" {
      assert a + b == b;
    } else {
      var head, rest := a[0], a[1..];
      LikeConcat(rest, b);
      LikeStep(head, rest);
      LikeStep(head, rest + b);
      hide LikeBody;
      assert a + b == [head] + (rest + b) && a == [head] + rest;
    }
  }

  lemma LikeStep(c: char, rest: string)
    ensures LikeBody([c] + rest) == LikeBody([c]) + LikeBody(rest)
  {
    assert ([c] + rest)[1..] == rest && [c][1..] == "";
    assert LikeBody("") == "";
  }

  // The characters of a LIKE pattern that become two.
  function Doubled(pattern: string): (n: nat)
    ensures n <= |pattern|
  {
    if pattern == "" then 0
    else (if pattern[0] in "%.?*+[]()$^\\|" then 1 else 0) + Doubled(pattern[1..])
  }

  lemma {:induction false} LikeLength(pattern: string)
    ensures |LikeBody(pattern)| == |pattern| + Doubled(pattern)
    decreases |pattern|
  {
    if pattern != "" {
      LikeLength(pattern[1..]);
    }
  }

  // The regular expression and its closing NUL fit the three characters per
  // pattern character set aside for them exactly for patterns of three
  // characters or more, and of two if at most one of them becomes two.
  lemma LikeFits(pattern: string)
    ensures |LikeRegex(pattern).pattern| + 1 <= 3 * |pattern| <==>
            |pattern| >= 3 || (|pattern| == 2 && Doubled(pattern) <= 1)
  {
    LikeLength(pattern);
  }

  // INT2STRB and then STR2INT give the number back exactly when it reads back
  // in that base; INT2STR and TOSTRING always do.
  lemma NumberTextNumber(env: Env, v: Long, base: Long)
    requires base in {2, 8, 10, 16}
    ensures Convert(env, Int2StrB, [Int(v), Int(base)]) == Some(Str(Text(v, base)))
    ensures Convert(env, Str2Int, [Str(Text(v, base))]) ==
            if ReadsBack(v, base) then Some(Int(v)) else None
    ensures Convert(env, Int2Str, [Int(v)]) == Convert(env, ToString, [Int(v)]) == Some(Str(Text(v, 10)))
  {
    hide Read, Text, ReadsBack;
    TextReadsBack(v, base);
  }
}
