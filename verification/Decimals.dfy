/** strconv.FormatInt and strconv.ParseInt in base 10 on 64-bit integers. */
module Decimals {
  import opened Results
  import opened ByteStrings

  const MAX_INT64: int := 0x7FFF_FFFF_FFFF_FFFF
  const MIN_INT64: int := -0x8000_0000_0000_0000

  predicate IsInt64(n: int) { MIN_INT64 <= n <= MAX_INT64 }

  /** Go's addition on 64 bits, past the upper end. */
  function WrapInt64(n: int): int {
    if n > MAX_INT64 then n - 0x1_0000_0000_0000_0000 else n
  }

  function Digit(d: int): Byte
    requires 0 <= d < 10
  {
    (d + '0' as int) as char
  }

  predicate IsDigit(c: Byte) { '0' <= c <= '9' }

  function Decimal(n: nat): GoString {
    if n < 10 then [Digit(n)] else Decimal(n / 10) + [Digit(n % 10)]
  }

  function FormatInt(n: int): GoString {
    if n < 0 then "-" + Decimal(-n) else Decimal(n)
  }

  predicate AllDigits(s: GoString) { forall i :: 0 <= i < |s| ==> IsDigit(s[i]) }

  function Value(s: GoString): nat
    requires AllDigits(s)
  {
    if s == [] then 0 else Value(s[..|s| - 1]) * 10 + (s[|s| - 1] as int - '0' as int)
  }

  /** An optional sign, then at least one digit, in the range of an int64. */
  function ParseInt(s: GoString): Option<int> {
    var signed := s != [] && (s[0] == '-' || s[0] == '+');
    var digits := if signed then s[1..] else s;
    if digits == [] || !AllDigits(digits) then None
    else
      var n: int := if signed && s[0] == '-' then 0 - Value(digits) else Value(digits);
      if IsInt64(n) then Some(n) else None
  }

  /** No leading zero, except the number zero itself. */
  predicate CanonicalDigits(s: GoString) {
    s != [] && AllDigits(s) && (s[0] == '0' ==> |s| == 1)
  }

  lemma {:induction false} DecimalCanonical(n: nat)
    ensures CanonicalDigits(Decimal(n))
    ensures Value(Decimal(n)) == n
    ensures Decimal(n)[0] == '0' <==> n == 0
  {
    var s := Decimal(n);
    if n < 10 {
      assert s[..0] == [] && Value([]) == 0;
    } else {
      DecimalCanonical(n / 10);
      assert s[..|s| - 1] == Decimal(n / 10);
    }
  }

  const DIGITS: GoString := "0123456789"

  /** The digit k places from the right is the one at that place of the number, counted from the table. */
  lemma {:induction false} DecimalDigits(n: nat, k: nat)
    requires k < |Decimal(n)|
    ensures Decimal(n)[|Decimal(n)| - 1 - k] == DIGITS[n / Pow10(k) % 10]
    ensures n < Pow10(|Decimal(n)|)
  {
    if n >= 10 {
      DecimalDigits(n / 10, if k > 0 then k - 1 else 0);
      if k > 0 {
        DivDiv(n, k);
      }
    }
  }

  lemma DivDiv(n: nat, k: nat)
    requires k > 0
    ensures n / 10 / Pow10(k - 1) == n / Pow10(k)
  {
    var p := Pow10(k - 1);
    var q, r := n / 10 / p, n / 10 % p;
    assert n / 10 == q * p + r && n == n / 10 * 10 + n % 10;
    var rest := r * 10 + n % 10;
    assert n == q * (10 * p) + rest && 0 <= rest < 10 * p;
    QuotientIs(n, 10 * p, q, rest);
  }

  lemma QuotientIs(n: nat, d: nat, q: nat, r: nat)
    requires d > 0 && n == q * d + r && r < d
    ensures n / d == q
  {
    if n / d < q {
      TimesMonotone(n / d + 1, q, d);
      assert false;
    } else if n / d > q {
      TimesMonotone(q + 1, n / d, d);
      assert false;
    }
  }

  lemma TimesMonotone(a: nat, b: nat, d: nat)
    requires a <= b
    ensures a * d <= b * d
  {
  }

  function Zeros(k: nat): GoString { if k == 0 then [] else ['0'] + Zeros(k - 1) }

  lemma {:induction false} ZerosAddNothing(k: nat, s: GoString)
    requires AllDigits(s)
    ensures AllDigits(Zeros(k) + s) && Value(Zeros(k) + s) == Value(s)
  {
    if k > 0 {
      ZerosAddNothing(k - 1, s);
      ZeroAddsNothing(Zeros(k - 1) + s);
      assert Zeros(k) + s == ['0'] + (Zeros(k - 1) + s);
    } else {
      assert Zeros(0) + s == s;
    }
  }

  lemma {:induction false} ZeroAddsNothing(s: GoString)
    requires AllDigits(s)
    ensures AllDigits(['0'] + s) && Value(['0'] + s) == Value(s)
  {
    var z: GoString := ['0'] + s;
    if s == [] {
      assert z[..0] == [];
    } else {
      ZeroAddsNothing(s[..|s| - 1]);
      assert z[..|z| - 1] == ['0'] + s[..|s| - 1];
    }
  }

  /** Any run of digits is zeros before a printed number. */
  lemma {:induction false} DigitsAreZerosAndDecimal(s: GoString) returns (k: nat)
    requires s != [] && AllDigits(s)
    ensures s == Zeros(k) + Decimal(Value(s))
  {
    if s[0] == '0' && |s| > 1 {
      k := DigitsAreZerosAndDecimal(s[1..]);
      ZeroAddsNothing(s[1..]);
      assert s == ['0'] + s[1..];
      k := k + 1;
      assert Zeros(k) == ['0'] + Zeros(k - 1);
    } else {
      k := 0;
      DecimalOfValue(s);
      assert Zeros(0) + s == s;
    }
  }

  /** How a number may be written: with `+` or no sign if not negative, with `-` if not positive, and zeros in front. */
  ghost predicate Writes(s: GoString, sign: GoString, k: nat, n: int) {
    && s == sign + Zeros(k) + Decimal(if n < 0 then -n else n)
    && (n > 0 ==> sign == [] || sign == ['+'])
    && (n < 0 ==> sign == ['-'])
    && (n == 0 ==> sign == [] || sign == ['+'] || sign == ['-'])
  }

  /** What parses to n is exactly what writes it, n being an int64. */
  lemma ParseIntExactly(s: GoString, n: int)
    ensures ParseInt(s) == Some(n) <==> IsInt64(n) && exists sign, k :: Writes(s, sign, k, n)
  {
    if ParseInt(s) == Some(n) {
      var sign, k := ParsedIsWritten(s, n);
    }
    if sign, k :| IsInt64(n) && Writes(s, sign, k, n) {
      WrittenParses(s, sign, k, n);
    }
  }

  lemma ParsedIsWritten(s: GoString, n: int) returns (sign: GoString, k: nat)
    requires ParseInt(s) == Some(n)
    ensures IsInt64(n) && Writes(s, sign, k, n)
  {
    if s[0] == '-' || s[0] == '+' {
      sign := [s[0]];
      k := DigitsAreZerosAndDecimal(s[1..]);
      assert s == sign + s[1..];
      assert s == sign + Zeros(k) + Decimal(Value(s[1..]));
    } else {
      sign := [];
      k := DigitsAreZerosAndDecimal(s);
      assert s == sign + Zeros(k) + Decimal(Value(s));
    }
  }

  lemma WrittenParses(s: GoString, sign: GoString, k: nat, n: int)
    requires IsInt64(n) && Writes(s, sign, k, n)
    ensures ParseInt(s) == Some(n)
  {
    var m := if n < 0 then -n else n;
    var digits := DigitsOf(k, m);
    assert s == sign + digits;
    if sign == [] {
      assert s == digits;
      ParsePlain(digits);
    } else {
      ParseSigned(sign[0], digits);
      assert sign == [sign[0]];
    }
  }

  lemma ParsePlain(digits: GoString)
    requires digits != [] && AllDigits(digits) && IsInt64(Value(digits))
    ensures ParseInt(digits) == Some(Value(digits))
  {
    assert IsDigit(digits[0]);
  }

  lemma ParseSigned(c: Byte, digits: GoString)
    requires digits != [] && AllDigits(digits) && (c == '-' || c == '+')
    requires IsInt64(if c == '-' then 0 - Value(digits) else Value(digits))
    ensures ParseInt([c] + digits) == Some(if c == '-' then 0 - Value(digits) else Value(digits))
  {
    assert ([c] + digits)[1..] == digits;
  }

  lemma DigitsOf(k: nat, m: nat) returns (digits: GoString)
    ensures digits == Zeros(k) + Decimal(m) && digits != [] && AllDigits(digits) && Value(digits) == m
  {
    digits := Zeros(k) + Decimal(m);
    DecimalCanonical(m);
    ZerosAddNothing(k, Decimal(m));
  }

  lemma AppendDigit(v: nat, c: Byte)
    requires IsDigit(c)
    ensures var n := v * 10 + (c as int - '0' as int);
            n / 10 == v && Digit(n % 10) == c
  {
  }

  lemma {:induction false} DecimalOfValue(s: GoString)
    requires CanonicalDigits(s)
    ensures Decimal(Value(s)) == s
    ensures s[0] != '0' ==> Value(s) > 0
  {
    var front, c := s[..|s| - 1], s[|s| - 1];
    assert s == front + [c];
    AppendDigit(Value(front), c);
    if |s| == 1 {
      assert Value(front) == 0;
    } else {
      assert front[0] == s[0] && s[0] != '0';
      DecimalOfValue(front);
    }
  }

  /** Printing and parsing are inverse on int64. */
  lemma ParseOfFormat(n: int)
    requires IsInt64(n)
    ensures ParseInt(FormatInt(n)) == Some(n)
  {
    var m := if n < 0 then -n else n;
    DecimalCanonical(m);
    var s := FormatInt(n);
    if n < 0 {
      assert s[1..] == Decimal(m);
    } else {
      assert IsDigit(s[0]);
    }
  }

  lemma FormatInjective(m: int, n: int)
    requires FormatInt(m) == FormatInt(n)
    ensures m == n
  {
    DecimalCanonical(if m < 0 then -m else m);
    DecimalCanonical(if n < 0 then -n else n);
    if m < 0 {
      assert FormatInt(m)[0] == '-' && FormatInt(m)[1..] == Decimal(-m);
    } else {
      assert IsDigit(FormatInt(m)[0]);
    }
    if n < 0 {
      assert FormatInt(n)[1..] == Decimal(-n);
    }
  }

  /** A number below 10^k prints in at most k digits. */
  lemma {:induction false} DecimalLength(n: nat, k: nat)
    requires k >= 1 && n < Pow10(k)
    ensures 1 <= |Decimal(n)| <= k
  {
    if n >= 10 {
      DecimalLength(n / 10, k - 1);
    }
  }

  function Pow10(k: nat): (p: nat)
    ensures p > 0
  {
    if k == 0 then 1 else 10 * Pow10(k - 1)
  }
}
