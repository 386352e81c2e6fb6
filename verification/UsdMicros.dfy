/** The money printer usdMicros of cmd/lens/market_cli.go, and a reader of what it prints. */
module UsdMicros {
  import opened Prelude

  const Million: int := 1_000_000

  // ---------------------------------------------------------------------------
  // Go's arithmetic and formatting

  /** Unary minus on an int64 wraps around at the minimum. */
  function Negate(m: Int64): Int64 { if m == MinInt64 then MinInt64 else -m }

  /** Go's / and % truncate toward zero. */
  function Quotient(m: int): int { if m >= 0 then m / Million else -(-m / Million) }

  function Remainder(m: int): int { if m >= 0 then m % Million else -(-m % Million) }

  predicate IsDigit(c: char) { '0' <= c <= '9' }

  function Digit(d: nat): char
    requires d < 10
  {
    '0' + d as char
  }

  function Digits(n: nat): string {
    if n < 10 then [Digit(n)] else Digits(n / 10) + [Digit(n % 10)]
  }

  function Zeros(n: int): string { seq(if n > 0 then n else 0, _ => '0') }

  function PadTo(width: nat, s: string): string { Zeros(width - |s|) + s }

  /** %d */
  function Decimal(n: int): string { if n < 0 then "-" + Digits(-n) else Digits(n) }

  /** %06d: the sign counts towards the width. */
  function Decimal06(n: int): string { if n < 0 then "-" + PadTo(5, Digits(-n)) else PadTo(6, Digits(n)) }

  function TrimRightZeros(s: string): string {
    if s != "" && s[|s| - 1] == '0' then TrimRightZeros(s[..|s| - 1]) else s
  }

  /** Trailing zeros dropped, but never below two digits. */
  function Shorten(digits: string): string {
    var frac := TrimRightZeros(digits);
    frac + Zeros(2 - |frac|)
  }

  function Fraction(m: int): string { Shorten(Decimal06(Remainder(m))) }

  function UsdMicros(m: Int64): string {
    var sign := if m < 0 then "-" else "";
    var n := if m < 0 then Negate(m) else m;
    sign + Dollars(n)
  }

  function Dollars(n: int): string { "$" + (Decimal(Quotient(n)) + ("." + Fraction(n))) }

  // ---------------------------------------------------------------------------
  // Reading dollars back

  predicate AllDigits(s: string) { forall i | 0 <= i < |s| :: IsDigit(s[i]) }

  /** The number a digit string denotes. */
  function Value(s: string): nat
    requires AllDigits(s)
  {
    if s == "" then 0
    else
      assert IsDigit(s[|s| - 1]);
      10 * Value(s[..|s| - 1]) + (s[|s| - 1] as int - '0' as int)
  }

  function Pow10(n: nat): nat { if n == 0 then 1 else 10 * Pow10(n - 1) }

  /** How many digits `s` starts with. */
  function LeadingDigits(s: string): (n: nat)
    ensures n <= |s| && AllDigits(s[..n])
    ensures n < |s| ==> !IsDigit(s[n])
  {
    if s != "" && IsDigit(s[0]) then
      var n := LeadingDigits(s[1..]);
      assert s[..n + 1] == [s[0]] + s[1..][..n];
      n + 1
    else 0
  }

  /** What a fraction of 2 to 6 digits denotes, in micro-dollars. */
  predicate IsFraction(f: string) { 2 <= |f| <= 6 && AllDigits(f) }

  function Micros(f: string): nat
    requires IsFraction(f)
  {
    Value(f) * Pow10(6 - |f|)
  }

  /** $ whole . fraction */
  function ParseUnsigned(s: string): Option<int> {
    if s == "" || s[0] != '$' then None
    else
      var n := LeadingDigits(s[1..]);
      var whole, rest := s[1..][..n], s[1..][n..];
      if n == 0 || rest == "" || rest[0] != '.' || !IsFraction(rest[1..]) then None
      else Some(Value(whole) * Million + Micros(rest[1..]))
  }

  function Parse(s: string): Option<int> {
    if s != "" && s[0] == '-' then
      match ParseUnsigned(s[1..]) case Some(n) => Some(-n) case None => None
    else
      match ParseUnsigned(s) case Some(n) => Some(n) case None => None
  }

  // ---------------------------------------------------------------------------
  // Digits

  lemma {:induction false} DigitsValue(n: nat)
    ensures AllDigits(Digits(n)) && Value(Digits(n)) == n
  {
    if n >= 10 {
      DigitsValue(n / 10);
      assert Digits(n)[..|Digits(n)| - 1] == Digits(n / 10);
    } else {
      assert Digits(n)[..0] == "";
    }
  }

  lemma {:induction false} DigitsLength(n: nat, k: nat)
    requires n < Pow10(k) && k > 0
    ensures 1 <= |Digits(n)| <= k
  {
    if n >= 10 {
      DigitsLength(n / 10, k - 1);
    }
  }

  lemma {:induction false} ValueOfZerosThen(n: nat, s: string)
    requires AllDigits(s)
    ensures AllDigits(Zeros(n) + s) && Value(Zeros(n) + s) == Value(s)
    decreases |s|, n
  {
    var z := Zeros(n) + s;
    if s == "" {
      if n > 0 {
        ValueOfZerosThen(n - 1, "");
        assert z[..|z| - 1] == Zeros(n - 1) + "";
      }
    } else {
      ValueOfZerosThen(n, s[..|s| - 1]);
      assert z[..|z| - 1] == Zeros(n) + s[..|s| - 1];
    }
  }

  lemma {:induction false} ValueThenZeros(s: string, n: nat)
    requires AllDigits(s)
    ensures AllDigits(s + Zeros(n)) && Value(s + Zeros(n)) == Value(s) * Pow10(n)
  {
    if n == 0 {
      assert s + Zeros(n) == s;
    } else {
      ValueThenZeros(s, n - 1);
      ValueThenZero(s + Zeros(n - 1));
      assert s + Zeros(n) == s + Zeros(n - 1) + "0";
      Tenfold(Value(s), Pow10(n - 1));
    }
  }

  lemma ValueThenZero(s: string)
    requires AllDigits(s)
    ensures AllDigits(s + "0") && Value(s + "0") == 10 * Value(s)
  {
    assert (s + "0")[..|s|] == s;
  }

  lemma Tenfold(v: nat, p: nat)
    ensures 10 * (v * p) == v * (10 * p)
  {
  }

  lemma {:induction false} TrimmedIsPrefix(s: string)
    ensures |TrimRightZeros(s)| <= |s|
    ensures s == TrimRightZeros(s) + Zeros(|s| - |TrimRightZeros(s)|)
    ensures TrimRightZeros(s) != "" ==> TrimRightZeros(s)[|TrimRightZeros(s)| - 1] != '0'
  {
    if s != "" && s[|s| - 1] == '0' {
      TrimmedIsPrefix(s[..|s| - 1]);
      assert s == s[..|s| - 1] + "0";
    }
  }

  // ---------------------------------------------------------------------------
  // The fraction

  lemma SixDigits(r: nat)
    requires r < Million
    ensures |PadTo(6, Digits(r))| == 6 && AllDigits(PadTo(6, Digits(r))) && Value(PadTo(6, Digits(r))) == r
  {
    assert Pow10(6) == 10 * Pow10(5) && Pow10(5) == 100000;
    DigitsLength(r, 6);
    DigitsValue(r);
    ValueOfZerosThen(6 - |Digits(r)|, Digits(r));
  }

  lemma PadBack(t: string, six: string)
    requires |t| <= 6 && AllDigits(six) && six == t + Zeros(6 - |t|)
    ensures var f := t + Zeros(2 - |t|); IsFraction(f) && f + Zeros(6 - |f|) == six
  {
    var f := t + Zeros(2 - |t|);
    assert Zeros(2 - |t|) + Zeros(6 - |f|) == Zeros(6 - |t|);
    assert f + Zeros(6 - |f|) == t + (Zeros(2 - |t|) + Zeros(6 - |f|));
    assert f == six[..|f|];
  }

  lemma Repadded(six: string)
    requires |six| == 6 && AllDigits(six)
    ensures IsFraction(Shorten(six)) && Shorten(six) + Zeros(6 - |Shorten(six)|) == six
    ensures |Shorten(six)| > 2 ==> Shorten(six)[|Shorten(six)| - 1] != '0'
  {
    TrimmedIsPrefix(six);
    PadBack(TrimRightZeros(six), six);
  }

  lemma FractionShape(n: nat)
    ensures IsFraction(Fraction(n))
    ensures |Fraction(n)| > 2 ==> Fraction(n)[|Fraction(n)| - 1] != '0'
    ensures Fraction(n) + Zeros(6 - |Fraction(n)|) == PadTo(6, Digits(n % Million))
  {
    var six := PadTo(6, Digits(n % Million));
    SixDigits(n % Million);
    assert Decimal06(Remainder(n)) == six;
    Repadded(six);
  }

  /** A fraction longer than two digits that does not end in 0 has no shorter equal. */
  lemma NoShorterFraction(f: string, g: string)
    requires IsFraction(f) && IsFraction(g) && Micros(f) == Micros(g)
    requires |f| > 2 ==> f[|f| - 1] != '0'
    ensures |f| <= |g|
  {
    if |g| < |f| {
      PowersCancel(Value(f), Value(g), 6 - |f|, |f| - |g|);
      LastDigit(f);
    }
  }

  lemma LastDigit(f: string)
    requires AllDigits(f) && f != ""
    ensures Value(f) % 10 == f[|f| - 1] as int - '0' as int
  {
    var k := |f| - 1;
    assert IsDigit(f[k]);
    LastTwoParts(Value(f[..k]), f[k] as int - '0' as int);
  }

  /** The fraction has 2 to 6 digits, denotes the micro-dollars below the dollar, and no shorter fraction
      of 2 to 6 digits does. */
  lemma FractionIsShortest(n: nat)
    ensures IsFraction(Fraction(n)) && Micros(Fraction(n)) == n % Million
    ensures forall g | IsFraction(g) && Micros(g) == n % Million :: |Fraction(n)| <= |g|
  {
    FractionValue(n);
    FractionShape(n);
    forall g | IsFraction(g) && Micros(g) == n % Million ensures |Fraction(n)| <= |g| {
      NoShorterFraction(Fraction(n), g);
    }
  }

  lemma FractionValue(n: nat)
    ensures IsFraction(Fraction(n)) && Micros(Fraction(n)) == n % Million
  {
    FractionShape(n);
    SixDigits(n % Million);
    MicrosAreSixDigits(Fraction(n), 6 - |Fraction(n)|);
  }

  lemma MicrosAreSixDigits(f: string, k: nat)
    requires IsFraction(f) && k == 6 - |f|
    ensures AllDigits(f + Zeros(k)) && Micros(f) == Value(f + Zeros(k))
  {
    ValueThenZeros(f, k);
  }

  lemma {:induction false} PowSplit(a: nat, b: nat)
    ensures Pow10(a + b) == Pow10(a) * Pow10(b) && Pow10(b) > 0
  {
    if b > 0 {
      PowSplit(a, b - 1);
      assert Pow10(a + b) == 10 * Pow10(a + (b - 1));
    }
  }

  lemma PowersCancel(v: nat, w: nat, low: nat, more: nat)
    requires v * Pow10(low) == w * Pow10(low + more) && more > 0
    ensures v % 10 == 0
  {
    var p, q := Pow10(low), Pow10(more - 1);
    PowSplit(more, low);
    assert Pow10(low + more) == Pow10(more + low) == (10 * q) * p;
    Regroup(w, q, p);
    Cancel(v, 10 * (w * q), p);
  }

  lemma Regroup(w: nat, q: nat, p: nat)
    ensures w * ((10 * q) * p) == (10 * (w * q)) * p
  {
  }

  lemma Cancel(a: nat, b: nat, p: nat)
    requires p > 0 && a * p == b * p
    ensures a == b
  {
  }

  // ---------------------------------------------------------------------------
  // The round trip

  lemma {:induction false} LeadingDigitsStop(whole: string, rest: string)
    requires AllDigits(whole) && rest != "" && !IsDigit(rest[0])
    ensures LeadingDigits(whole + rest) == |whole|
  {
    if whole == "" {
      assert whole + rest == rest;
    } else {
      assert (whole + rest)[1..] == whole[1..] + rest;
      LeadingDigitsStop(whole[1..], rest);
    }
  }

  /** ParseUnsigned, once the digits before the point are known. */
  function ParseAfter(whole: string, rest: string): Option<int>
    requires AllDigits(whole)
  {
    if whole == "" || rest == "" || rest[0] != '.' || !IsFraction(rest[1..]) then None
    else Some(Value(whole) * Million + Micros(rest[1..]))
  }

  lemma ParseUnfolds(whole: string, rest: string)
    requires AllDigits(whole) && rest != "" && !IsDigit(rest[0])
    ensures ParseUnsigned("$" + (whole + rest)) == ParseAfter(whole, rest)
  {
    LeadingDigitsStop(whole, rest);
    var s := "$" + (whole + rest);
    assert s[1..] == whole + rest;
    assert (whole + rest)[..|whole|] == whole;
    assert (whole + rest)[|whole|..] == rest;
  }

  lemma ParseDollars(n: nat)
    ensures ParseUnsigned(Dollars(n)) == Some(n)
  {
    var whole, f := Digits(n / Million), Fraction(n);
    DigitsValue(n / Million);
    DigitsNonEmpty(n / Million);
    FractionValue(n);
    assert ("." + f)[1..] == f;
    ParseUnfolds(whole, "." + f);
    assert Dollars(n) == "$" + (whole + ("." + f));
  }

  lemma DigitsNonEmpty(n: nat)
    ensures Digits(n) != ""
  {
  }

  lemma ParseMinimum()
    ensures ParseUnsigned(Dollars(MinInt64)) == None
  {
  }

  lemma ParseSigned(body: string)
    requires body != "" && body[0] == '$'
    ensures Parse(body) == match ParseUnsigned(body) { case Some(n) => Some(n) case None => None }
    ensures Parse("-" + body) == match ParseUnsigned(body) { case Some(n) => Some(-n) case None => None }
  {
  }

  lemma ParseOfPrinted(m: Int64)
    ensures Parse(UsdMicros(m)) == if m == MinInt64 then None else Some(m)
  {
    var n := if m < 0 then Negate(m) else m;
    ParseSigned(Dollars(n));
    if m == MinInt64 {
      ParseMinimum();
    } else {
      ParseDollars(n);
    }
    assert "" + Dollars(n) == Dollars(n);
  }

  /** Parsing the printed dollars gives the amount back, for every int64 except the minimum. */
  lemma RoundTripExactly(m: Int64)
    ensures Parse(UsdMicros(m)) == Some(m) <==> m != MinInt64
  {
    ParseOfPrinted(m);
  }

  /** No two amounts print alike, the minimum included. */
  lemma PrinterInjective(m: Int64, n: Int64)
    requires UsdMicros(m) == UsdMicros(n)
    ensures m == n
  {
    ParseOfPrinted(m);
    ParseOfPrinted(n);
  }

  // ---------------------------------------------------------------------------
  // The only print of its length

  /** No digit string that denotes `n` is shorter than `Digits(n)`, and no other is as short. */
  lemma {:induction false} DigitsOnly(w: string, n: nat)
    requires w != "" && AllDigits(w) && Value(w) == n
    ensures |Digits(n)| <= |w| && (|w| == |Digits(n)| ==> w == Digits(n))
  {
    var k := |w| - 1;
    assert w == w[..k] + [w[k]] && IsDigit(w[k]);
    DigitBack(w[k]);
    if k == 0 {
      assert Value(w[..0]) == 0;
    } else {
      LastTwoParts(Value(w[..k]), w[k] as int - '0' as int);
      DigitsOnly(w[..k], n / 10);
    }
  }

  lemma DigitBack(c: char)
    requires IsDigit(c)
    ensures Digit(c as int - '0' as int) == c
  {
  }

  lemma LastTwoParts(v: nat, d: nat)
    requires d < 10
    ensures (10 * v + d) / 10 == v && (10 * v + d) % 10 == d
  {
  }

  lemma {:induction false} SameValueSameDigits(f: string, g: string)
    requires |f| == |g| && AllDigits(f) && AllDigits(g) && Value(f) == Value(g)
    ensures f == g
  {
    if f != "" {
      var k := |f| - 1;
      assert f == f[..k] + [f[k]] && g == g[..k] + [g[k]] && IsDigit(f[k]) && IsDigit(g[k]);
      LastTwoParts(Value(f[..k]), f[k] as int - '0' as int);
      LastTwoParts(Value(g[..k]), g[k] as int - '0' as int);
      SameValueSameDigits(f[..k], g[..k]);
    }
  }

  lemma FractionOnly(f: string, n: nat)
    requires IsFraction(f) && Micros(f) == n % Million
    ensures |Fraction(n)| <= |f| && (|f| == |Fraction(n)| ==> f == Fraction(n))
  {
    var g := Fraction(n);
    FractionIsShortest(n);
    if |f| == |g| {
      var p := Pow10(6 - |f|);
      PowSplit(0, 6 - |f|);
      Cancel(Value(f), Value(g), p);
      SameValueSameDigits(f, g);
    }
  }

  lemma {:induction false} ValueBelow(s: string)
    requires AllDigits(s)
    ensures Value(s) < Pow10(|s|)
  {
    if s != "" {
      ValueBelow(s[..|s| - 1]);
      assert IsDigit(s[|s| - 1]);
    }
  }

  lemma MicrosBelow(f: string)
    requires IsFraction(f)
    ensures Micros(f) < Million
  {
    var n, k := |f|, 6 - |f|;
    ValueBelow(f);
    PowSplit(n, k);
    Smaller(Value(f), Pow10(n), Pow10(k));
    MillionIsSixTens(n + k);
  }

  lemma MillionIsSixTens(six: nat)
    requires six == 6
    ensures Pow10(six) == Million
  {
    assert Pow10(3) == 1000;
  }

  lemma Smaller(a: nat, b: nat, p: nat)
    requires a < b && p > 0
    ensures a * p < b * p
  {
  }

  /** What an unsigned amount is read from. */
  lemma ParsedParts(s: string, n: int) returns (w: string, f: string)
    requires ParseUnsigned(s) == Some(n)
    ensures n >= 0 && w != "" && AllDigits(w) && IsFraction(f)
    ensures s == "$" + (w + ("." + f)) && Value(w) == n / Million && Micros(f) == n % Million
  {
    var k := LeadingDigits(s[1..]);
    var rest := s[1..][k..];
    w, f := s[1..][..k], rest[1..];
    MicrosBelow(f);
    WholeAndRest(Value(w), Micros(f));
    assert rest == "." + f && s[1..] == w + rest && s == "$" + s[1..];
  }

  lemma WholeAndRest(q: nat, r: nat)
    requires r < Million
    ensures (q * Million + r) / Million == q && (q * Million + r) % Million == r
  {
  }

  /** `s` is no shorter than `d`, and is `d` if it is no longer. */
  predicate NoShorter(d: string, s: string) { |d| <= |s| && (|s| == |d| ==> s == d) }

  lemma DollarsOnly(s: string, n: int, d: string)
    requires ParseUnsigned(s) == Some(n) && (n >= 0 ==> d == Dollars(n))
    ensures n >= 0 && NoShorter(d, s)
  {
    var w, f := ParsedParts(s, n);
    DigitsOnly(w, n / Million);
    FractionOnly(f, n);
    assert d == "$" + (Digits(n / Million) + ("." + Fraction(n)));
  }

  lemma DollarsShortest(n: nat, d: string)
    requires d == Dollars(n)
    ensures forall t | ParseUnsigned(t) == Some(n) :: NoShorter(d, t)
  {
    forall t | ParseUnsigned(t) == Some(n) ensures NoShorter(d, t) {
      DollarsOnly(t, n, d);
    }
  }

  lemma NeverNegative(s: string, n: int)
    requires ParseUnsigned(s) == Some(n)
    ensures n >= 0
  {
    var w, f := ParsedParts(s, n);
  }

  lemma ReadSigned(s: string, m: int)
    requires Parse(s) == Some(m)
    ensures if s != "" && s[0] == '-' then ParseUnsigned(s[1..]) == Some(-m) else ParseUnsigned(s) == Some(m)
  {
  }

  lemma AfterMinus(s: string, d: string)
    requires s != "" && s[0] == '-' && NoShorter(d, s[1..])
    ensures NoShorter(d, s) && NoShorter("-" + d, s)
  {
    assert s == "-" + s[1..];
  }

  lemma ShortestSigned(s: string, m: int, n: nat, d: string, printed: string)
    requires Parse(s) == Some(m) && n == (if m < 0 then -m else m)
    requires forall t | ParseUnsigned(t) == Some(n) :: NoShorter(d, t)
    requires printed == if m < 0 then "-" + d else d
    ensures NoShorter(printed, s)
  {
    ReadSigned(s, m);
    if s != "" && s[0] == '-' {
      NeverNegative(s[1..], -m);
      AfterMinus(s, d);
    } else {
      NeverNegative(s, m);
    }
  }

  lemma PrintSigned(m: Int64, n: nat, d: string)
    requires m != MinInt64 && n == (if m < 0 then -m else m) && d == Dollars(n)
    ensures UsdMicros(m) == if m < 0 then "-" + d else d
  {
    NoSign(d);
  }

  lemma NoSign(d: string)
    ensures "" + d == d
  {
  }

  /** Every amount above the minimum is printed as the shortest string that reads as it, and there is only one
      such string. */
  lemma ShortestPrint(m: Int64, s: string)
    requires m != MinInt64 && Parse(s) == Some(m)
    ensures |UsdMicros(m)| <= |s| && (|s| == |UsdMicros(m)| ==> s == UsdMicros(m))
  {
    var n := if m < 0 then -m else m;
    var d, printed := Dollars(n), UsdMicros(m);
    PrintSigned(m, n, d);
    DollarsShortest(n, d);
    ShortestSigned(s, m, n, d, printed);
    assert NoShorter(printed, s);
  }
}
