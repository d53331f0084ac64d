/** `formatNumber` of ui.js: the decimal digits of a number, grouped by commas every three digits
    from the right ("1,234,567"). */
module Format {
  import opened Text

  predicate IsDigit(c: char) {
    '0' <= c <= '9'
  }

  predicate AllDigits(s: string) {
    forall i :: 0 <= i < |s| ==> IsDigit(s[i])
  }

  function DigitChar(d: nat): (c: char)
    requires d < 10
    ensures IsDigit(c)
  {
    ('0' as int + d) as char
  }

  function DigitValue(c: char): (d: nat)
    requires IsDigit(c)
    ensures d < 10 && DigitChar(d) == c
  {
    c as int - '0' as int
  }

  /** `String(n)` for a natural number: its decimal digits, most significant first. */
  function Decimal(n: nat): (s: string)
    ensures |s| >= 1 && AllDigits(s)
    decreases n
  {
    if n < 10 then [DigitChar(n)] else Decimal(n / 10) + [DigitChar(n % 10)]
  }

  /** The number a string of decimal digits denotes. */
  function Value(s: string): nat
    requires AllDigits(s)
    decreases |s|
  {
    if s == [] then 0 else 10 * Value(s[..|s| - 1]) + DigitValue(s[|s| - 1])
  }

  function Pow10(k: nat): (p: nat)
    ensures p >= 1
  {
    if k == 0 then 1 else 10 * Pow10(k - 1)
  }

  /** Reading the digits back gives the number: `Decimal` is injective. */
  lemma {:induction false} ValueOfDecimal(n: nat)
    ensures Value(Decimal(n)) == n
    decreases n
  {
    var s := Decimal(n);
    if n >= 10 {
      ValueOfDecimal(n / 10);
      assert s[..|s| - 1] == Decimal(n / 10);
    }
  }

  /** Only zero is written with a leading zero. */
  lemma {:induction false} NoLeadingZero(n: nat)
    ensures Decimal(n)[0] == '0' <==> n == 0
    decreases n
  {
    if n >= 10 {
      NoLeadingZero(n / 10);
    }
  }

  /** A number has more than `k` digits exactly when it is at least 10^k. */
  lemma {:induction false} DecimalLength(n: nat, k: nat)
    requires k >= 1
    ensures |Decimal(n)| > k <==> n >= Pow10(k)
    decreases k
  {
    if k > 1 && n >= 10 {
      DecimalLength(n / 10, k - 1);
    }
  }

  /** The magnitude of a number, as `Math.abs` gives it. */
  function Magnitude(x: int): nat {
    if x < 0 then -x else x
  }

  /** The global replace of `/(\d{3})(?=\d)/` by `'$1,'` on a string of digits: a comma after
      every three digits that another digit follows, scanning from the left. */
  function CommaEveryThree(s: string): string
    decreases |s|
  {
    if |s| > 3 then s[..3] + "," + CommaEveryThree(s[3..]) else s
  }

  /** `formatNumber(number)` for a number that is already a whole number (a rounded rate or an
      iteration count). The code takes `Math.abs` first, so a negative number is written as its
      magnitude; `/^\d{4,}$/` holds of a digit string exactly when it has four or more digits. */
  function FormatNumber(x: int): string {
    var digits := Decimal(Magnitude(x));
    var end := if |digits| >= 4 then |digits| % 3 else 0;
    (if end != 0 then digits[..end] + "," else "") + CommaEveryThree(digits[end..])
  }

  /** The string with its commas removed. */
  function StripCommas(s: string): (r: string)
    ensures |r| <= |s|
    decreases |s|
  {
    if s == [] then [] else (if s[0] == ',' then [] else [s[0]]) + StripCommas(s[1..])
  }

  lemma {:induction false} StripCommasAppend(a: string, b: string)
    ensures StripCommas(a + b) == StripCommas(a) + StripCommas(b)
    decreases |a|
  {
    if a == [] {
      assert a + b == b;
    } else {
      var keep := if a[0] == ',' then [] else [a[0]];
      calc {
        StripCommas(a + b);
        keep + StripCommas((a + b)[1..]);
        { assert (a + b)[1..] == a[1..] + b; }
        keep + StripCommas(a[1..] + b);
        { StripCommasAppend(a[1..], b); }
        keep + (StripCommas(a[1..]) + StripCommas(b));
        (keep + StripCommas(a[1..])) + StripCommas(b);
      }
    }
  }

  lemma {:induction false} StripCommasDigits(s: string)
    requires AllDigits(s)
    ensures StripCommas(s) == s
    decreases |s|
  {
    if s != [] {
      StripCommasDigits(s[1..]);
      assert [s[0]] + s[1..] == s;
    }
  }

  lemma {:induction false} StripCommaEveryThree(s: string)
    requires AllDigits(s)
    ensures StripCommas(CommaEveryThree(s)) == s
    decreases |s|
  {
    if |s| > 3 {
      StripCommaEveryThree(s[3..]);
      StripCommasAppend(s[..3] + ",", CommaEveryThree(s[3..]));
      StripCommasAppend(s[..3], ",");
      StripCommasDigits(s[..3]);
      assert s[..3] + s[3..] == s;
    } else {
      StripCommasDigits(s);
    }
  }

  /** Removing the commas from `formatNumber(x)` leaves exactly the decimal digits of |x|. */
  lemma FormatNumberDigits(x: int)
    ensures StripCommas(FormatNumber(x)) == Decimal(Magnitude(x))
  {
    var digits := Decimal(Magnitude(x));
    var end := if |digits| >= 4 then |digits| % 3 else 0;
    var lead := if end != 0 then digits[..end] + "," else "";
    StripCommasAppend(lead, CommaEveryThree(digits[end..]));
    StripCommaEveryThree(digits[end..]);
    if end != 0 {
      StripCommasAppend(digits[..end], ",");
      StripCommasDigits(digits[..end]);
    }
    assert digits[..end] + digits[end..] == digits;
  }

  /** Every group has exactly three digits. */
  predicate Triples(g: seq<string>) {
    forall i :: 0 <= i < |g| ==> |g[i]| == 3 && AllDigits(g[i])
  }

  /** A digit string whose length is a positive multiple of three is cut into groups of exactly
      three digits. */
  lemma {:induction false} CommaEveryThreeGroups(s: string)
    requires AllDigits(s) && |s| >= 3 && |s| % 3 == 0
    ensures Triples(Split(CommaEveryThree(s), ','))
    decreases |s|
  {
    if |s| == 3 {
      SplitWhole(s, ',');
    } else {
      CommaEveryThreeGroups(s[3..]);
      SplitAfter(s[..3], ',', CommaEveryThree(s[3..]));
      assert s[..3] + "," + CommaEveryThree(s[3..]) == s[..3] + [','] + CommaEveryThree(s[3..]);
    }
  }

  /** The groups of `formatNumber(x)`: the first has one to three digits, every later one exactly
      three. */
  lemma FormatNumberGroups(x: int)
    ensures var g := Split(FormatNumber(x), ',');
      1 <= |g[0]| <= 3 && AllDigits(g[0]) &&
      forall i :: 1 <= i < |g| ==> |g[i]| == 3 && AllDigits(g[i])
  {
    var digits := Decimal(Magnitude(x));
    var end := if |digits| >= 4 then |digits| % 3 else 0;
    if |digits| < 4 {
      assert FormatNumber(x) == digits;
      SplitWhole(digits, ',');
    } else if end == 0 {
      assert FormatNumber(x) == CommaEveryThree(digits);
      CommaEveryThreeGroups(digits);
    } else {
      var lead := digits[..end];
      assert FormatNumber(x) == lead + [','] + CommaEveryThree(digits[end..]);
      CommaEveryThreeGroups(digits[end..]);
      SplitAfter(lead, ',', CommaEveryThree(digits[end..]));
      var rest := Split(CommaEveryThree(digits[end..]), ',');
      var g := Split(FormatNumber(x), ',');
      assert g == [lead] + rest;
      forall i | 1 <= i < |g|
        ensures |g[i]| == 3 && AllDigits(g[i])
      {
        assert g[i] == rest[i - 1];
      }
    }
  }

  /** `formatNumber(x)` contains a comma exactly when |x| has four digits or more. */
  lemma FormatNumberComma(x: int)
    ensures ',' in FormatNumber(x) <==> Magnitude(x) >= 1000
  {
    var digits := Decimal(Magnitude(x));
    var end := if |digits| >= 4 then |digits| % 3 else 0;
    DecimalLength(Magnitude(x), 3);
    if |digits| < 4 {
      assert FormatNumber(x) == digits;
      assert forall i :: 0 <= i < |digits| ==> IsDigit(digits[i]);
    } else if end == 0 {
      assert FormatNumber(x) == CommaEveryThree(digits);
      assert FormatNumber(x)[3] == ',';
    } else {
      assert FormatNumber(x)[end] == ',';
    }
  }

  /** Distinct magnitudes are formatted differently. */
  lemma FormatNumberInjective(x: nat, y: nat)
    requires FormatNumber(x) == FormatNumber(y)
    ensures x == y
  {
    FormatNumberDigits(x);
    FormatNumberDigits(y);
    ValueOfDecimal(x);
    ValueOfDecimal(y);
  }

  /** The formatted text starts with a digit. */
  lemma FormatNumberStartsWithDigit(x: int)
    ensures |FormatNumber(x)| >= 1 && IsDigit(FormatNumber(x)[0])
  {
    FormatNumberGroups(x);
    var g := Split(FormatNumber(x), ',');
    JoinSplit(FormatNumber(x), ',');
    if |g| == 1 {
      assert FormatNumber(x) == g[0];
    } else {
      assert FormatNumber(x) == g[0] + [','] + Join(g[1..], ',');
    }
  }

  /** 1234567 is written "1,234,567". */
  lemma FormatNumberMillions(n: nat)
    requires n == 1234567
    ensures FormatNumber(n) == "1,234,567"
  {
    var d1 := Decimal(n / 1000000);
    assert d1 == ['1'];
    var d2 := Decimal(n / 100000);
    assert d2 == d1 + ['2'];
    var d3 := Decimal(n / 10000);
    assert d3 == d2 + ['3'];
    var d4 := Decimal(n / 1000);
    assert d4 == d3 + ['4'];
    var d5 := Decimal(n / 100);
    assert d5 == d4 + ['5'];
    var d6 := Decimal(n / 10);
    assert d6 == d5 + ['6'];
    var d7 := Decimal(n);
    assert d7 == d6 + ['7'];
    assert d7 == "1234567";
    assert CommaEveryThree("567") == "567";
    assert CommaEveryThree("234567") == "234,567";
  }

  /** Numbers below 1000 are written without a comma, and a negative one as its magnitude. */
  lemma FormatNumberSmallExamples()
    ensures FormatNumber(0) == "0"
    ensures FormatNumber(-5) == "5"
    ensures FormatNumber(999) == "999"
  {
    assert Decimal(9) == "9";
    assert Decimal(99) == "99";
    assert Decimal(999) == "999";
  }
}
