/** strconv.ParseUint and strconv.Atoi. */
module Numbers {
  import opened Text

  datatype Parsed = Num(n: nat) | BadSyntax | OutOfRange

  function DigitValue(c: char): Option<nat> {
    if '0' <= c <= '9' then Some((c - '0') as nat)
    else if 'a' <= c <= 'z' then Some((c - 'a') as nat + 10)
    else if 'A' <= c <= 'Z' then Some((c - 'A') as nat + 10)
    else None
  }

  /** Reads digits left to right and stops at the first bad digit or overflow, as ParseUint does. */
  function ParseDigits(s: string, radix: nat, max: nat, acc: nat): Parsed
    decreases |s|
  {
    if s == "" then Num(acc)
    else
      match DigitValue(s[0])
      case None => BadSyntax
      case Some(d) =>
        if d >= radix then BadSyntax
        else if acc * radix + d > max then OutOfRange
        else ParseDigits(s[1..], radix, max, acc * radix + d)
  }

  function ParseUint(s: string, radix: nat, max: nat): Parsed {
    if s == "" then BadSyntax else ParseDigits(s, radix, max, 0)
  }

  const MAX_UINT32 := 0xFFFF_FFFF
  const MAX_UINT64 := 0xFFFF_FFFF_FFFF_FFFF
  const MAX_INT64 := 0x7FFF_FFFF_FFFF_FFFF

  function Pow2(n: nat): nat {
    if n == 0 then 1 else 2 * Pow2(n - 1)
  }

  /** The widths the numbers are parsed with. */
  lemma WidthsAre()
    ensures MAX_UINT32 == Pow2(32) - 1 && MAX_UINT64 == Pow2(64) - 1 && MAX_INT64 == Pow2(63) - 1
  {
    assert Pow2(8) == 256;
    assert Pow2(16) == 65536;
    assert Pow2(24) == 16777216;
    assert Pow2(32) == 4294967296;
    assert Pow2(40) == 1099511627776;
    assert Pow2(48) == 281474976710656;
    assert Pow2(56) == 72057594037927936;
  }

  function Atoi(s: string): Option<int> {
    var negative: bool := s != "" && s[0] == '-';
    var digits := if s != "" && (s[0] == '-' || s[0] == '+') then s[1..] else s;
    match ParseUint(digits, 10, if negative then MAX_INT64 + 1 else MAX_INT64)
    case Num(n) => var v: int := n; Some(if negative then -v else v)
    case _ => None
  }

  /** Reading digits in two parts: the value of the first part carries over. */
  lemma {:induction false} ParseDigitsAppend(a: string, b: string, radix: nat, max: nat, acc: nat)
    requires ParseDigits(a, radix, max, acc).Num?
    ensures ParseDigits(a + b, radix, max, acc) == ParseDigits(b, radix, max, ParseDigits(a, radix, max, acc).n)
    decreases |a|
  {
    if a == "" {
      assert a + b == b;
    } else {
      assert (a + b)[1..] == a[1..] + b;
      ParseDigitsAppend(a[1..], b, radix, max, acc * radix + DigitValue(a[0]).value);
    }
  }

  // ---- printed numbers -----------------------------------------------------------------

  function Digit(d: nat): char
    requires d < 36
  {
    if d < 10 then '0' + d as char else 'a' + (d - 10) as char
  }

  function UpperDigit(d: nat): char
    requires d < 36
  {
    if d < 10 then '0' + d as char else 'A' + (d - 10) as char
  }

  /** A digit is worth its place in either alphabet, and nothing else is a digit. */
  lemma DigitIsItsPlace(c: char, d: nat)
    ensures DigitValue(c) == Some(d) <==> d < 36 && (c == Digit(d) || c == UpperDigit(d))
  {
  }

  type Radix = r: nat | 2 <= r <= 36 witness 10

  /** A number written in a radix, most significant digit first. */
  function Printed(n: nat, radix: Radix): (r: string)
    ensures r != ""
    decreases n
  {
    var d := [Digit(n % radix)];
    if n < radix then d
    else
      QuotientFits(n, radix);
      Printed(n / radix, radix) + d
  }

  lemma OneDigit(acc: nat, d: nat, radix: Radix, max: nat)
    requires d < radix
    ensures ParseDigits([Digit(d)], radix, max, acc)
            == if acc * radix + d > max then OutOfRange else Num(acc * radix + d)
  {
    DigitIsItsPlace(Digit(d), d);
    assert [Digit(d)][1..] == "";
  }

  /** The last digit of n, after the digits of what is left of it. */
  lemma LastDigit(a: string, n: nat, radix: Radix, max: nat)
    requires ParseDigits(a, radix, max, 0) == Num(n / radix)
    ensures ParseDigits(a + [Digit(n % radix)], radix, max, 0) == if n > max then OutOfRange else Num(n)
  {
    hide ParseDigits;
    ParseDigitsAppend(a, [Digit(n % radix)], radix, max, 0);
    OneDigit(n / radix, n % radix, radix, max);
    QuotientFits(n, radix);
  }

  lemma SingleDigit(n: nat, radix: Radix, max: nat)
    requires n < radix
    ensures Printed(n, radix) == [Digit(n % radix)] && n / radix == 0
    ensures ParseDigits(Printed(n, radix), radix, max, 0) == if n > max then OutOfRange else Num(n)
  {
    hide ParseDigits;
    SmallMod(n, radix);
    OneDigit(0, n, radix, max);
  }

  lemma ManyDigits(n: nat, radix: Radix)
    requires n >= radix
    ensures Printed(n, radix) == Printed(n / radix, radix) + [Digit(n % radix)] && n / radix < n
  {
    QuotientFits(n, radix);
  }

  lemma {:induction false} PrintedParses(n: nat, radix: Radix, max: nat)
    requires n <= max
    ensures ParseDigits(Printed(n, radix), radix, max, 0) == Num(n)
    decreases n
  {
    hide ParseDigits, Printed, Digit;
    if n < radix {
      SingleDigit(n, radix, max);
    } else {
      ManyDigits(n, radix);
      PrintedParses(n / radix, radix, max);
      LastDigit(Printed(n / radix, radix), n, radix, max);
    }
  }

  lemma SmallMod(n: nat, radix: Radix)
    requires n < radix
    ensures n % radix == n && n / radix == 0
  {
  }

  lemma QuotientFits(n: nat, radix: Radix)
    ensures n / radix * radix + n % radix == n && (n > 0 ==> n / radix < n)
  {
    var q := n / radix;
    Doubles(q, radix);
  }

  lemma Doubles(q: nat, radix: Radix)
    ensures q * radix >= 2 * q
  {
  }

  /** What is printed reads back, in every radix, if it fits. */
  lemma PrintedReadsBack(n: nat, radix: Radix, max: nat)
    ensures n <= max ==> ParseUint(Printed(n, radix), radix, max) == Num(n)
    ensures n > max ==> ParseUint(Printed(n, radix), radix, max) == OutOfRange
  {
    if n <= max {
      PrintedParses(n, radix, max);
    } else {
      PrintedOverflows(n, radix, max);
    }
  }

  lemma {:induction false} PrintedOverflows(n: nat, radix: Radix, max: nat)
    requires n > max
    ensures ParseDigits(Printed(n, radix), radix, max, 0) == OutOfRange
    decreases n
  {
    hide ParseDigits, Printed, Digit;
    if n < radix {
      SingleDigit(n, radix, max);
    } else {
      ManyDigits(n, radix);
      if n / radix > max {
        PrintedOverflows(n / radix, radix, max);
        OverflowStays(Printed(n / radix, radix), [Digit(n % radix)], radix, max, 0);
      } else {
        PrintedParses(n / radix, radix, max);
        LastDigit(Printed(n / radix, radix), n, radix, max);
      }
    }
  }

  /** A number out of range stays so, whatever follows it. */
  lemma {:induction false} OverflowStays(a: string, b: string, radix: nat, max: nat, acc: nat)
    requires !ParseDigits(a, radix, max, acc).Num?
    ensures ParseDigits(a + b, radix, max, acc) == ParseDigits(a, radix, max, acc)
    decreases |a|
  {
    if a == "" {
      assert false;
    } else {
      assert (a + b)[1..] == a[1..] + b;
      if DigitValue(a[0]).Some? && DigitValue(a[0]).value < radix && acc * radix + DigitValue(a[0]).value <= max {
        OverflowStays(a[1..], b, radix, max, acc * radix + DigitValue(a[0]).value);
      }
    }
  }

  /** Text after a number that fits: a character that is no digit makes it a syntax error. */
  lemma BadDigitStops(n: nat, radix: Radix, max: nat, c: char, rest: string)
    requires n <= max && (DigitValue(c) == None || DigitValue(c).value >= radix)
    ensures ParseUint(Printed(n, radix) + ([c] + rest), radix, max) == BadSyntax
    ensures ParseUint([c] + rest, radix, max) == BadSyntax
  {
    PrintedParses(n, radix, max);
    ParseDigitsAppend(Printed(n, radix), [c] + rest, radix, max, 0);
  }

  /** Decimal printing, as in a passwd line. */
  function Decimal(n: nat): string {
    Printed(n, 10)
  }

  lemma {:induction false} DecimalDigits(n: nat)
    ensures forall c | c in Decimal(n) :: '0' <= c <= '9'
  {
    var d := Digit(n % 10);
    assert '0' <= d <= '9';
    if n >= 10 {
      DecimalDigits(n / 10);
      ManyDigits(n, 10);
      assert Decimal(n) == Decimal(n / 10) + [d];
    } else {
      SingleDigit(n, 10, n);
      assert Decimal(n) == [d];
    }
  }

  lemma DecimalParses(n: nat, max: nat)
    requires n <= max
    ensures ParseDigits(Decimal(n), 10, max, 0) == Num(n)
  {
    PrintedParses(n, 10, max);
  }

  /** Atoi reads back every printed number that fits in 63 bits. */
  lemma AtoiInvertsDecimal(n: nat)
    requires n <= MAX_INT64
    ensures Atoi(Decimal(n)) == Some(n)
  {
    DecimalDigits(n);
    assert Decimal(n)[0] in Decimal(n);
    DecimalParses(n, MAX_INT64);
  }

  /** Atoi reads signed numbers, and only numbers: a sign at most, then decimal digits. */
  lemma AtoiReadsSigned(n: nat)
    requires n <= MAX_INT64
    ensures Atoi(Decimal(n)) == Some(n) && Atoi("+" + Decimal(n)) == Some(n) && Atoi("-" + Decimal(n)) == Some(0 - n)
  {
    AtoiInvertsDecimal(n);
    DecimalParses(n, MAX_INT64);
    DecimalParses(n, MAX_INT64 + 1);
    assert ("+" + Decimal(n))[1..] == Decimal(n) && ("-" + Decimal(n))[1..] == Decimal(n);
  }

  lemma {:induction false} ParsedDigits(s: string, max: nat, acc: nat)
    ensures s != "" && ParseDigits(s, 10, max, acc).Num? ==> '0' <= s[|s| - 1] <= '9'
    decreases |s|
  {
    if s != "" && DigitValue(s[0]).Some? {
      ParsedDigits(s[1..], max, acc * 10 + DigitValue(s[0]).value);
    }
  }

  lemma AtoiReadsNumbersOnly(s: string)
    requires s == "" || !('0' <= s[|s| - 1] <= '9')
    ensures Atoi(s) == None
  {
    if s != "" {
      ParsedDigits(s, MAX_INT64, 0);
      ParsedDigits(s[1..], MAX_INT64, 0);
      ParsedDigits(s[1..], MAX_INT64 + 1, 0);
    }
  }
}
