// Integers as text: tostring of src/rpn_eval.c against strtoll_safe of
// src/utils.c, on 64-bit integers.

module IntText {
  import opened Wrappers

  const LLONG_MIN: int := -0x8000_0000_0000_0000
  const LLONG_MAX: int := 0x7fff_ffff_ffff_ffff
  const TWO_64: int := 0x1_0000_0000_0000_0000

  predicate IsLong(v: int) {
    LLONG_MIN <= v <= LLONG_MAX
  }

  // ---------------------------------------------------------------- digits

  function DigitChar(d: nat): char
    requires d < 16
  {
    "0123456789abcdef"[d]
  }

  // The value of a digit character; 36 for any other character.
  function DigitOf(c: char): (d: nat)
    ensures d <= 36
  {
    if '0' <= c <= '9' then c as int - '0' as int
    else if 'a' <= c <= 'z' then c as int - 'a' as int + 10
    else if 'A' <= c <= 'Z' then c as int - 'A' as int + 10
    else 36
  }

  // What printf writes for an unsigned value.
  function Digits(n: nat, base: nat): (s: string)
    requires 2 <= base <= 16
    ensures s != ""
  {
    if n < base then [DigitChar(n)] else Digits(n / base, base) + [DigitChar(n % base)]
  }

  function Value(s: string, base: nat): nat {
    if s == "" then 0 else Value(s[..|s| - 1], base) * base + DigitOf(s[|s| - 1])
  }

  predicate AllDigits(s: string, base: nat) {
    forall i :: 0 <= i < |s| ==> DigitOf(s[i]) < base
  }

  lemma DigitRoundTrip(d: nat)
    requires d < 16
    ensures DigitOf(DigitChar(d)) == d && (DigitChar(d) == '0' <==> d == 0)
    ensures !IsSpace(DigitChar(d)) && DigitChar(d) !in "+-xX"
  {
    assert d == 0 || d == 1 || d == 2 || d == 3 || d == 4 || d == 5 || d == 6 || d == 7 ||
           d == 8 || d == 9 || d == 10 || d == 11 || d == 12 || d == 13 || d == 14 || d == 15;
  }

  lemma ValueSnoc(s: string, c: char, base: nat)
    ensures Value(s + [c], base) == Value(s, base) * base + DigitOf(c)
    ensures AllDigits(s + [c], base) <==> AllDigits(s, base) && DigitOf(c) < base
  {
    assert (s + [c])[..|s|] == s;
    assert (s + [c])[|s|] == c;
    assert AllDigits(s + [c], base) ==> forall i :: 0 <= i < |s| ==> DigitOf((s + [c])[i]) < base;
  }

  // How the text of a number can start.
  predicate StartsNumber(s: string, n: nat) {
    s != "" && (s[0] == '0' <==> n == 0) && !IsSpace(s[0]) && s[0] !in "+-xX"
  }

  lemma {:induction false} DigitsValue(n: nat, base: nat)
    requires 2 <= base <= 16
    ensures AllDigits(Digits(n, base), base) && Value(Digits(n, base), base) == n
    ensures StartsNumber(Digits(n, base), n) && (n == 0 ==> Digits(n, base) == "0")
    decreases n
  {
    hide Value, AllDigits, DigitOf, IsSpace, DigitChar;
    if n < base {
      DigitRoundTrip(n);
      ValueSnoc("", DigitChar(n), base);
      EmptyValue(base);
      assert "" + [DigitChar(n)] == [DigitChar(n)];
    } else {
      Quotient(n, base);
      DigitRoundTrip(n % base);
      DigitsValue(n / base, base);
      ValueSnoc(Digits(n / base, base), DigitChar(n % base), base);
    }
  }

  lemma EmptyValue(base: nat)
    ensures Value("", base) == 0 && AllDigits("", base)
  {
  }

  lemma Quotient(n: nat, base: nat)
    requires 2 <= base <= n
    ensures 0 < n / base < n && n == n / base * base + n % base && n % base < base
  {
  }

  // ---------------------------------------------------------------- tostring

  function Unsigned(v: int): (u: nat)
    requires IsLong(v)
    ensures u < TWO_64
  {
    if v < 0 then v + TWO_64 else v
  }

  // The text of a value in one of the bases tostring knows.
  function Text(v: int, base: nat): string
    requires IsLong(v) && base in {2, 8, 10, 16}
  {
    if base == 2 then (if v < 0 then "-" else "") + "0b" + Digits(if v < 0 then -v else v, 2)
    else if base == 8 then "0" + Digits(Unsigned(v), 8)
    else if base == 10 then (if v < 0 then "-" else "") + Digits(if v < 0 then -v else v, 10)
    else "0x" + Digits(Unsigned(v), 16)
  }

  // How many binary digits a value has.
  function Bits(m: nat): nat {
    if m == 0 then 0 else 1 + Bits(m / 2)
  }

  function Pow2(k: nat): nat {
    if k == 0 then 1 else 2 * Pow2(k - 1)
  }

  lemma {:induction false} BitsBound(m: nat, k: nat)
    requires m < Pow2(k)
    ensures Bits(m) <= k
    decreases k
  {
    if m != 0 {
      BitsBound(m / 2, k - 1);
    }
  }

  // 1 << (63 - clz(u))
  function Msb(u: nat): (m: nat)
    requires u > 0
    ensures 0 < m <= u < 2 * m
  {
    if u == 1 then 1 else 2 * Msb(u / 2)
  }

  ghost predicate PowerOfTwo(m: nat) {
    m == 1 || (m > 1 && m % 2 == 0 && PowerOfTwo(m / 2))
  }

  lemma {:induction false} MsbPower(u: nat)
    requires u > 0
    ensures PowerOfTwo(Msb(u))
    decreases u
  {
    if u > 1 {
      MsbPower(u / 2);
    }
  }

  lemma AtLeastOne(m: nat, d: nat)
    requires d > 0
    ensures m * d >= m
  {
  }

  lemma DivisionUnique(x: nat, m: nat, q: nat, r: nat)
    requires m > 0 && x == m * q + r && r < m
    ensures x / m == q
  {
    var p := x / m;
    assert x == m * p + x % m;
    if p < q {
      AtLeastOne(m, q - p);
    } else if p > q {
      AtLeastOne(m, p - q);
    }
  }

  lemma HalveTwice(u: nat, m: nat)
    requires m > 0
    ensures (u / m) / 2 == u / (2 * m)
  {
    var q, r := u / m, u % m;
    assert u == m * q + r;
    var h, b := q / 2, q % 2;
    assert m * q == (2 * m) * h + m * b by {
      assert q == 2 * h + b;
      assert m * (2 * h + b) == m * (2 * h) + m * b;
      assert m * (2 * h) == (2 * m) * h;
    }
    assert m * b <= m;
    DivisionUnique(u, 2 * m, h, m * b + r);
  }

  lemma {:induction false} Pow2Sum(a: nat, b: nat)
    ensures Pow2(a + b) == Pow2(a) * Pow2(b)
    decreases a
  {
    if a > 0 {
      Pow2Sum(a - 1, b);
      assert Pow2(a + b) == 2 * Pow2(a - 1 + b);
    }
  }

  lemma Pow2Of64()
    ensures Pow2(64) == TWO_64
  {
    assert Pow2(1) == 2;
    Pow2Sum(1, 1);
    Pow2Sum(2, 2);
    Pow2Sum(4, 4);
    Pow2Sum(8, 8);
    Pow2Sum(16, 16);
    Pow2Sum(32, 32);
  }

  // The binary digits of the bits above the lowest one of q.
  function HigherBits(q: nat): string {
    if q / 2 == 0 then "" else Digits(q / 2, 2)
  }

  lemma NextBit(q: nat)
    requires q > 0
    ensures Digits(q, 2) == HigherBits(q) + [if q % 2 == 1 then '1' else '0']
  {
    assert DigitChar(0) == '0' && DigitChar(1) == '1';
    if q == 1 {
      assert q / 2 == 0 && q % 2 == 1;
    } else {
      Halves(q);
      UnfoldDigits(q);
    }
  }

  lemma Halves(q: nat)
    requires q > 1
    ensures q / 2 > 0 && (q % 2 == 0 || q % 2 == 1)
  {
  }

  lemma UnfoldDigits(q: nat)
    requires q > 1
    ensures Digits(q, 2) == Digits(q / 2, 2) + [DigitChar(q % 2)]
  {
    hide DigitChar;
  }

  // The loop of tostring: the bits of uval from the highest set one down,
  // written to a buffer with room for 64 of them and the closing NUL.
  method WriteBits(uval: nat, buf: array<char>, start: nat) returns (idx: nat)
    requires 0 < uval < TWO_64 && start + 65 <= buf.Length
    modifies buf
    ensures idx < buf.Length && buf[idx] == '\0'
    ensures buf[..idx] == old(buf[..start]) + Digits(uval, 2)
  {
    hide Digits, HigherBits, Msb, Pow2;
    idx := start;
    ghost var prefix := buf[..start];
    var msb: nat := Msb(uval);
    MsbPower(uval);
    Pow2Of64();
    BitsBound(msb, 64);
    FirstBit(uval);
    while msb != 0
      invariant msb <= uval && (msb != 0 ==> PowerOfTwo(msb))
      invariant idx + Bits(msb) <= start + 64
      invariant buf[..idx] == prefix + (if msb == 0 then Digits(uval, 2) else HigherBits(uval / msb))
      decreases msb
    {
      LowerBit(uval, msb);
      ghost var written := buf[..idx];
      buf[idx] := if (uval / msb) % 2 == 1 then '1' else '0';
      assert buf[..idx + 1] == written + [buf[idx]];
      idx := idx + 1;
      msb := msb / 2;
    }
    buf[idx] := '\0';
  }

  lemma FirstBit(u: nat)
    requires u > 0
    ensures HigherBits(u / Msb(u)) == ""
  {
    DivisionUnique(u, Msb(u), 1, u - Msb(u));
  }

  // Testing bit m appends one digit to the higher ones; then the next bit is due.
  lemma LowerBit(u: nat, m: nat)
    requires 0 < m <= u && PowerOfTwo(m)
    ensures Digits(u / m, 2) == HigherBits(u / m) + [if (u / m) % 2 == 1 then '1' else '0']
    ensures if m == 1 then u / m == u else HigherBits(u / (m / 2)) == Digits(u / m, 2)
  {
    hide Digits;
    PositiveQuotient(u, m);
    NextBit(u / m);
    if m > 1 {
      assert m == 2 * (m / 2);
      HalveTwice(u, m / 2);
      NoQuotientGap(u / (m / 2), u / m);
    }
  }

  lemma NoQuotientGap(q: nat, half: nat)
    requires q / 2 == half > 0
    ensures HigherBits(q) == Digits(half, 2)
  {
  }

  lemma PositiveQuotient(u: nat, m: nat)
    requires 0 < m <= u
    ensures u / m > 0
  {
  }

  // What the printf conversions give; tostring's own loop covers base 2.
  method ToString(val: int, base: nat) returns (str: string)
    requires IsLong(val) && base in {2, 8, 10, 16}
    ensures str == Text(val, base)
  {
    if base == 2 {
      if val == 0 {
        assert Digits(0, 2) == "0";
        return "0b0";
      }
      var buf := new char[68];
      var idx := 0;
      var uval := val;
      if val < 0 {
        buf[idx] := '-';
        idx := idx + 1;
        uval := -val;
      }
      buf[idx] := '0';
      buf[idx + 1] := 'b';
      idx := idx + 2;
      assert buf[..idx] == (if val < 0 then "-" else "") + "0b";
      idx := WriteBits(uval, buf, idx);
      return buf[..idx];
    } else if base == 8 {
      return "0" + Digits(Unsigned(val), 8);
    } else if base == 10 {
      return (if val < 0 then "-" else "") + Digits(if val < 0 then -val else val, 10);
    } else {
      return "0x" + Digits(Unsigned(val), 16);
    }
  }

  // ---------------------------------------------------------------- strtoll

  predicate IsSpace(c: char) {
    c == ' ' || 9 <= c as int <= 13
  }

  function SkipSpaces(s: string): (t: string)
    ensures t == "" || !IsSpace(t[0])
  {
    if s != "" && IsSpace(s[0]) then SkipSpaces(s[1..]) else s
  }

  // How many characters at the front are digits in the base.
  function DigitRun(s: string, base: nat): (n: nat)
    ensures n <= |s| && AllDigits(s[..n], base)
    ensures n < |s| ==> DigitOf(s[n]) >= base
  {
    if s != "" && DigitOf(s[0]) < base then
      var n := DigitRun(s[1..], base);
      assert s[..n + 1] == [s[0]] + s[1..][..n];
      n + 1
    else 0
  }

  // strtoll's value, whether it was out of range, and the text it stopped at.
  datatype Parsed = Parsed(value: int, range: bool, rest: string)

  function Clamp(v: int, rest: string): (p: Parsed)
    ensures IsLong(p.value) && (p.range ==> p.value == LLONG_MIN || p.value == LLONG_MAX)
  {
    if v < LLONG_MIN then Parsed(LLONG_MIN, true, rest)
    else if v > LLONG_MAX then Parsed(LLONG_MAX, true, rest)
    else Parsed(v, false, rest)
  }

  predicate HexPrefix(s: string) {
    |s| >= 3 && s[0] == '0' && (s[1] == 'x' || s[1] == 'X') && DigitOf(s[2]) < 16
  }

  // The digits of a number after its sign; `all` is where strtoll stops if there are none.
  function Magnitude(u: string, base: nat, negative: bool, all: string): (p: Parsed)
    ensures IsLong(p.value) && (p.range ==> p.value == LLONG_MIN || p.value == LLONG_MAX)
  {
    var hex := (base == 0 || base == 16) && HexPrefix(u);
    var b := if base != 0 then base else if hex then 16 else if u != "" && u[0] == '0' then 8 else 10;
    var d := if hex then u[2..] else u;
    var n := DigitRun(d, b);
    if n == 0 then Parsed(0, false, all)
    else
      var v: int := Value(d[..n], b);
      Clamp(if negative then -v else v, d[n..])
  }

  // The C library's strtoll for base 0 or 2 to 36 (section 7.22.1.4 of ISO/IEC 9899:2011).
  function Strtoll(s: string, base: nat): (p: Parsed)
    ensures IsLong(p.value) && (p.range ==> p.value == LLONG_MIN || p.value == LLONG_MAX)
  {
    var t := SkipSpaces(s);
    if t != "" && t[0] == '-' then Magnitude(t[1..], base, true, s)
    else if t != "" && t[0] == '+' then Magnitude(t[1..], base, false, s)
    else Magnitude(t, base, false, s)
  }

  // ---------------------------------------------------------------- strtoll_safe

  datatype Prefix = Prefix(skip: nat, base: nat, neg: bool)

  // The binary prefix that strtoll_safe adds to what strtoll reads.
  function BinaryPrefix(s: string, base: nat): (p: Prefix)
    ensures p.skip <= |s|
  {
    if (base == 0 || base == 2) && |s| >= 2 && s[0] == '0' && s[1] == 'b' then Prefix(2, 2, false)
    else if (base == 0 || base == 2) && |s| >= 3 && s[0] == '-' && s[1] == '0' && s[2] == 'b' then Prefix(3, 2, true)
    else Prefix(0, base, false)
  }

  function Read(s: string, base: nat): (val: Option<int>)
    ensures val.Some? ==> IsLong(val.value)
  {
    var t := SkipSpaces(s);
    var p := BinaryPrefix(t, base);
    var r := Strtoll(t[p.skip..], p.base);
    if r.range || r.rest != "" || (p.neg && r.value <= 0) then None
    else Some(if p.neg then -r.value else r.value)
  }

  method StrtollSafe(str: string, base: nat) returns (val: Option<int>)
    ensures val == Read(str, base)
    ensures val.Some? ==> IsLong(val.value)
  {
    hide Strtoll;
    var s, b, neg := str, base, false;
    while s != "" && IsSpace(s[0])
      invariant SkipSpaces(s) == SkipSpaces(str)
      decreases |s|
    {
      s := s[1..];
    }
    if b == 0 || b == 2 {
      if |s| >= 2 && s[0] == '0' && s[1] == 'b' {
        s := s[2..];
        b := 2;
      } else if |s| >= 3 && s[0] == '-' && s[1] == '0' && s[2] == 'b' {
        s := s[3..];
        b := 2;
        neg := true;
      }
    }
    var r := Strtoll(s, b);
    var llval := r.value;
    if llval == LLONG_MIN && r.range {
      return None;
    }
    if llval == LLONG_MAX && r.range {
      return None;
    }
    if r.rest != "" {
      return None;
    }
    if neg {
      if llval <= 0 {
        return None;
      }
      llval := -llval;
    }
    val := Some(llval);
  }

  // ---------------------------------------------------------------- round trip

  lemma {:induction false} RunOfDigits(s: string, base: nat)
    requires AllDigits(s, base)
    ensures DigitRun(s, base) == |s|
    decreases |s|
  {
    if s != "" {
      RunOfDigits(s[1..], base);
    }
  }

  lemma {:induction false} LeadingZero(s: string, base: nat)
    requires base > 0
    ensures Value("0" + s, base) == Value(s, base)
    ensures AllDigits(s, base) ==> AllDigits("0" + s, base)
    decreases |s|
  {
    if s == "" {
      assert ("0" + s)[..0] == "";
      EmptyValue(base);
    } else {
      LeadingZero(s[..|s| - 1], base);
      assert ("0" + s)[..|s|] == "0" + s[..|s| - 1];
      assert ("0" + s)[|s|] == s[|s| - 1];
    }
  }

  lemma AllIsRun(s: string, base: nat)
    requires AllDigits(s, base)
    ensures DigitRun(s, base) == |s| && s[..|s|] == s && s[|s|..] == ""
  {
    RunOfDigits(s, base);
  }

  // strtoll reads all of a decimal or binary number, after a sign or not.
  lemma StrtollNumber(n: nat, base: nat, asked: nat, negative: bool, all: string)
    requires base in {2, 10} && (asked == base || (asked == 0 && base == 10))
    ensures Magnitude(Digits(n, base), asked, negative, all) == Clamp(if negative then 0 - n else n, "")
  {
    hide Digits, IsSpace, AllDigits, Clamp, DigitRun, Value;
    var s := Digits(n, base);
    DigitsValue(n, base);
    AllIsRun(s, base);
    if n == 0 && asked == 0 {
      DigitsValue(0, 8);
      AllIsRun(s, 8);
    }
  }

  lemma NotSpaces(s: string)
    ensures s != "" && !IsSpace(s[0]) ==> SkipSpaces(s) == s
  {
  }

  // strtoll in base 0 reads the octal and hexadecimal forms of tostring.
  lemma StrtollOctal(n: nat, all: string)
    ensures Magnitude("0" + Digits(n, 8), 0, false, all) == Clamp(n, "")
  {
    hide Digits, Value, Clamp, DigitRun;
    var d := Digits(n, 8);
    DigitsValue(n, 8);
    LeadingZero(d, 8);
    AllIsRun("0" + d, 8);
    assert DigitOf(("0" + d)[1]) < 8;
  }

  lemma StrtollHex(n: nat, all: string)
    ensures Magnitude("0x" + Digits(n, 16), 0, false, all) == Clamp(n, "")
  {
    hide Digits, Value, Clamp, DigitRun;
    var d := Digits(n, 16);
    DigitsValue(n, 16);
    AllIsRun(d, 16);
    assert ("0x" + d)[2] == d[0];
    assert ("0x" + d)[2..] == d;
  }

  // The condition under which text in a base reads back.
  predicate ReadsBack(v: int, base: nat) {
    base == 10 || (base == 2 && v != LLONG_MIN) || ((base == 8 || base == 16) && v >= 0)
  }

  // What tostring wrote in base 2, strtoll_safe reads back in base 0 or 2,
  // sign and zero included, exactly for every value but -2^63.
  lemma BinaryReadsBack(v: int, asked: nat)
    requires IsLong(v) && asked in {0, 2}
    ensures Read(Text(v, 2), asked) == if v == LLONG_MIN then None else Some(v)
  {
    hide Digits, Magnitude;
    var n := if v < 0 then -v else v;
    var text, d := Text(v, 2), Digits(n, 2);
    DigitsValue(n, 2);
    StrtollNumber(n, 2, 2, false, d);
    assert text[0] == (if v < 0 then '-' else '0');
    NotSpaces(text);
    NotSpaces(d);
    if v < 0 {
      assert text[1] == '0' && text[2] == 'b' && text[3..] == d;
    } else {
      assert text[1] == 'b' && text[2..] == d;
    }
  }

  // What tostring wrote in any of its bases, strtoll_safe with base 0 reads
  // back as the same value, or refuses: octal and hexadecimal text of a
  // negative number is the text of an unsigned number out of range.
  lemma TextReadsBack(v: int, base: nat)
    requires IsLong(v) && base in {2, 8, 10, 16}
    ensures Read(Text(v, base), 0) == if ReadsBack(v, base) then Some(v) else None
  {
    hide Digits, Magnitude, SkipSpaces, Value, AllDigits;
    var text := Text(v, base);
    assert text[0..] == text;
    if base == 2 {
      BinaryReadsBack(v, 0);
    } else if base == 10 {
      DecimalReadsBack(v);
    } else if base == 8 {
      OctalReadsBack(v);
    } else {
      StrtollHex(Unsigned(v), text);
      assert text[0] == '0' && text[1] == 'x';
      NotSpaces(text);
    }
  }

  lemma DecimalReadsBack(v: int)
    requires IsLong(v)
    ensures Read(Text(v, 10), 0) == Some(v)
  {
    hide Digits, Magnitude, SkipSpaces, Value, AllDigits;
    var text, n := Text(v, 10), if v < 0 then -v else v;
    DigitsValue(n, 10);
    StrtollNumber(n, 10, 0, v < 0, text);
    assert text[0..] == text;
    NotSpaces(text);
    if v < 0 {
      assert text[1..] == Digits(n, 10);
      assert text[1] != '0';
    } else {
      assert text == Digits(n, 10);
    }
  }

  lemma OctalReadsBack(v: int)
    requires IsLong(v)
    ensures Read(Text(v, 8), 0) == if v >= 0 then Some(v) else None
  {
    hide Digits, Magnitude, SkipSpaces, Value;
    var text, d := Text(v, 8), Digits(Unsigned(v), 8);
    DigitsValue(Unsigned(v), 8);
    StrtollOctal(Unsigned(v), text);
    assert text[0..] == text;
    NotSpaces(text);
    assert DigitOf(d[0]) < 8;
    assert text[1] == d[0];
  }

  // ---------------------------------------------------------------- which text it is

  // Digits as they are printed, without a leading zero.
  ghost predicate Numeral(s: string, base: nat) {
    s != "" && AllDigits(s, base) && (s[0] == '0' ==> |s| == 1) &&
    forall i :: 0 <= i < |s| ==> s[i] in "0123456789abcdef"
  }

  lemma DigitCharOf(c: char)
    requires c in "0123456789abcdef"
    ensures DigitOf(c) < 16 && DigitChar(DigitOf(c)) == c
  {
    var digits := "0123456789abcdef";
    var d :| 0 <= d < |digits| && digits[d] == c;
    assert d == 0 || d == 1 || d == 2 || d == 3 || d == 4 || d == 5 || d == 6 || d == 7 ||
           d == 8 || d == 9 || d == 10 || d == 11 || d == 12 || d == 13 || d == 14 || d == 15;
  }

  // Of all texts a number is printed as its only numeral in the base.
  lemma {:induction false} NumeralUnique(s: string, base: nat)
    requires 2 <= base <= 16 && Numeral(s, base)
    ensures Digits(Value(s, base), base) == s && (Value(s, base) == 0 ==> s == "0")
    decreases |s|
  {
    hide Digits, Value, Numeral, DigitOf, DigitChar;
    NumeralEnds(s, base);
    if |s| == 1 {
      OneDigit(s[0], base);
      assert s == [s[0]];
    } else {
      var p, d := s[..|s| - 1], DigitOf(s[|s| - 1]);
      NumeralUnique(p, base);
      QuotientOf(Value(p, base), base, d);
      MoreDigits(Value(p, base), base, d);
      assert s == p + [s[|s| - 1]];
      ValueSnoc(p, s[|s| - 1], base);
    }
  }

  lemma NumeralEnds(s: string, base: nat)
    requires 2 <= base <= 16 && Numeral(s, base)
    ensures s != ""
    ensures var c := s[|s| - 1]; DigitOf(c) < base && DigitChar(DigitOf(c)) == c
    ensures |s| > 1 ==> Numeral(s[..|s| - 1], base) && s[..|s| - 1] != "0"
  {
    hide DigitOf, DigitChar;
    DigitCharOf(s[|s| - 1]);
    assert |s| > 1 ==> s[..|s| - 1][0] == s[0] != '0';
  }

  lemma OneDigit(c: char, base: nat)
    requires 2 <= base <= 16 && DigitOf(c) < base && DigitChar(DigitOf(c)) == c
    ensures Digits(Value([c], base), base) == [c] && (Value([c], base) == 0 ==> c == '0')
  {
    hide DigitOf, DigitChar;
    EmptyValue(base);
    assert [c][..0] == "";
    DigitRoundTrip(DigitOf(c));
  }

  lemma MoreDigits(q: nat, base: nat, d: nat)
    requires 2 <= base <= 16 && d < base
    requires (q * base + d) / base == q && (q * base + d) % base == d && q * base + d >= base
    ensures Digits(q * base + d, base) == Digits(q, base) + [DigitChar(d)]
  {
    hide DigitChar;
  }

  lemma QuotientOf(q: nat, base: nat, d: nat)
    requires q > 0 && d < base
    ensures (q * base + d) / base == q && (q * base + d) % base == d && q * base + d >= base
  {
    DivisionUnique(q * base + d, base, q, d);
    AtLeastOne(base, q);
  }

  // The text of a value is its sign and prefix with its numeral: lower-case
  // digits, no leading zero, no plus sign. Octal and hexadecimal text is that of
  // the value modulo 2^64.
  lemma TextIs(v: int, s: string, base: nat)
    requires IsLong(v) && base in {2, 8, 10, 16} && Numeral(s, base)
    requires Value(s, base) == if base in {8, 16} then v % TWO_64 else if v < 0 then -v else v
    ensures Text(v, base) ==
            match base
            case 2 => (if v < 0 then "-0b" else "0b") + s
            case 8 => "0" + s
            case 10 => if v < 0 then "-" + s else s
            case _ => "0x" + s
  {
    hide Digits, Value, Numeral;
    NumeralUnique(s, base);
    if base in {8, 16} {
      assert Unsigned(v) == v % TWO_64;
    }
  }

  // Every character that stands for a digit, in either case.
  lemma DigitValues(d: nat)
    requires d < 36
    ensures DigitOf("0123456789abcdefghijklmnopqrstuvwxyz"[d]) == d
    ensures DigitOf("0123456789ABCDEFGHIJKLMNOPQRSTUVWXYZ"[d]) == d
  {
    if d < 10 {
      assert d == 0 || d == 1 || d == 2 || d == 3 || d == 4 || d == 5 || d == 6 || d == 7 || d == 8 || d == 9;
    } else if d < 20 {
      assert d == 10 || d == 11 || d == 12 || d == 13 || d == 14 || d == 15 || d == 16 || d == 17 || d == 18 || d == 19;
    } else if d < 30 {
      assert d == 20 || d == 21 || d == 22 || d == 23 || d == 24 || d == 25 || d == 26 || d == 27 || d == 28 || d == 29;
    } else {
      assert d == 30 || d == 31 || d == 32 || d == 33 || d == 34 || d == 35;
    }
  }

  lemma {:induction false} RunStops(d: string, rest: string, base: nat)
    requires AllDigits(d, base) && (rest != "" ==> DigitOf(rest[0]) >= base)
    ensures DigitRun(d + rest, base) == |d|
    decreases |d|
  {
    if d == "" {
      assert d + rest == rest;
    } else {
      assert (d + rest)[1..] == d[1..] + rest;
      RunStops(d[1..], rest, base);
    }
  }

  // What may follow the digits without belonging to the number.
  predicate Follows(rest: string, base: nat) {
    rest != "" ==> DigitOf(rest[0]) >= base && rest[0] !in "bxX"
  }

  lemma NumberStarts(d: string, rest: string, base: nat)
    requires 2 <= base <= 36 && d != "" && AllDigits(d, base) && Follows(rest, base)
    ensures var u := d + rest;
            && !IsSpace(u[0]) && u[0] !in "-+"
            && (base == 16 ==> !HexPrefix(u))
            && (base == 2 ==> |u| > 1 ==> u[1] != 'b')
  {
    var u := d + rest;
    assert u[0] == d[0] && DigitOf(d[0]) < base;
    if |u| > 1 {
      assert u[1] == if |d| > 1 then d[1] else rest[0];
      assert |d| > 1 ==> DigitOf(d[1]) < base;
    }
  }

  lemma MagnitudeOf(d: string, rest: string, base: nat, negative: bool, all: string)
    requires 2 <= base <= 36 && d != "" && AllDigits(d, base) && Follows(rest, base)
    ensures Magnitude(d + rest, base, negative, all) ==
            Clamp(if negative then 0 - Value(d, base) else Value(d, base), rest)
  {
    hide Value, Clamp, HexPrefix, AllDigits, DigitRun, DigitOf;
    var u := d + rest;
    RunStops(d, rest, base);
    NumberStarts(d, rest, base);
    assert u[..|d|] == d && u[|d|..] == rest;
    assert !((base == 0 || base == 16) && HexPrefix(u));
  }

  // Any digits of a base from 2 to 36, after a sign or none, read as the number
  // they stand for if it has 64 bits, and are refused if it has not, or if
  // anything that is no digit follows.
  lemma NumberReads(sign: string, d: string, rest: string, base: nat)
    requires sign in {"", "-", "+"} && 2 <= base <= 36 && d != "" && AllDigits(d, base) && Follows(rest, base)
    ensures var v := if sign == "-" then 0 - Value(d, base) else Value(d, base);
            Read(sign + (d + rest), base) == if rest == "" && IsLong(v) then Some(v) else None
  {
    hide Value, Magnitude, SkipSpaces, HexPrefix, AllDigits;
    var u := d + rest;
    var s := sign + u;
    NumberStarts(d, rest, base);
    MagnitudeOf(d, rest, base, sign == "-", s);
    assert s[0] == if sign == "" then u[0] else sign[0];
    NotSpaces(s);
    assert if sign == "" then s == u else s[1..] == u;
    assert s[0..] == s;
    assert BinaryPrefix(s, base) == Prefix(0, base, false) by {
      if sign == "-" {
        assert |s| >= 3 ==> s[2] == u[1];
      }
    }
  }

  lemma {:induction false} SpacesSkipped(spaces: string, s: string)
    requires forall i :: 0 <= i < |spaces| ==> IsSpace(spaces[i])
    ensures SkipSpaces(spaces + s) == SkipSpaces(s)
    decreases |spaces|
  {
    if spaces == "" {
      assert spaces + s == s;
    } else {
      assert (spaces + s)[1..] == spaces[1..] + s;
      SpacesSkipped(spaces[1..], s);
    }
  }

  // Leading spaces never matter, and a text of spaces only, or with nothing but
  // a binary prefix after them, reads as zero.
  lemma SpacesReadAsZero(spaces: string, s: string, base: nat)
    requires forall i :: 0 <= i < |spaces| ==> spaces[i] as int in {9, 10, 11, 12, 13, 32}
    ensures Read(spaces + s, base) == Read(s, base)
    ensures Read(spaces, base) == Some(0)
    ensures base in {0, 2} ==> Read(spaces + "0b", base) == Some(0)
  {
    SpacesSkipped(spaces, s);
    SpacesSkipped(spaces, "");
    SpacesSkipped(spaces, "0b");
    assert spaces + "" == spaces;
    assert "0b"[2..] == "";
  }
}
