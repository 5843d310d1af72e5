/**
  parseCurrency (src/utils/formatCurrency.ts): drop every character outside
  [0-9.-], read the longest decimal prefix of what is left the way parseFloat
  does, and answer 0 when there is none (NaN || 0).

  parseFloat is modelled on the only characters it can see here: digits, '.'
  and '-'. On those, its StrDecimalLiteral grammar is an optional '-', then
  digits with at most one '.', and at least one digit. Values are exact reals;
  the rounding to an IEEE-754 double is not part of this model.
 */
module Currency {
  import opened Wrappers
  import opened Seqs
  import opened Digits

  /** The characters the regular expression /[^0-9.-]/g leaves in place. */
  predicate IsNumericChar(c: char) {
    IsDigit(c) || c == '.' || c == '-'
  }

  predicate AllNumeric(s: string) {
    forall i :: 0 <= i < |s| ==> IsNumericChar(s[i])
  }

  /** Removes every character other than an ASCII digit, '.' or '-'. */
  function Strip(s: string): (r: string)
    ensures AllNumeric(r)
    ensures |r| <= |s|
  {
    Filter(IsNumericChar, s)
  }

  /**
    Stripping keeps every digit, '.' and '-' of the input, as often as it
    occurs and in its order, and drops every other character.
   */
  lemma StripKeepsNumeric(s: string)
    ensures IsSubsequence(Strip(s), s)
    ensures forall c :: multiset(Strip(s))[c] == if IsNumericChar(c) then multiset(s)[c] else 0
  {
    FilterIsSubsequence(IsNumericChar, s);
    FilterMultiset(IsNumericChar, s);
  }

  /** A string of digits, '.' and '-' only is left as it is. */
  lemma StripIdentity(s: string)
    requires AllNumeric(s)
    ensures Strip(s) == s
  {
    FilterIdentity(IsNumericChar, s);
  }

  /** Stripping twice is stripping once. */
  lemma StripIdempotent(s: string)
    ensures Strip(Strip(s)) == Strip(s)
  {
    FilterIdempotent(IsNumericChar, s);
  }

  // ---------------------------------------------------------------------
  // The reference grammar: which strings are decimal literals, and their values.

  /** A literal without its leading minus sign. */
  function Unsigned(w: string): (u: string)
    ensures |u| <= |w|
  {
    if |w| > 0 && w[0] == '-' then w[1..] else w
  }

  /** Digits with at most one '.' and at least one digit. */
  predicate IsUnsignedDecimal(u: string) {
    && |u| > 0
    && u != "."
    && (forall i :: 0 <= i < |u| ==> IsDigit(u[i]) || u[i] == '.')
    && (forall i, j :: 0 <= i < j < |u| && u[i] == '.' ==> u[j] != '.')
  }

  /** An optional '-' followed by an unsigned decimal. */
  predicate IsDecimal(w: string) {
    IsUnsignedDecimal(Unsigned(w))
  }

  /** The number of characters after the '.', or 0 when there is none. */
  function Scale(u: string): nat {
    if u == [] then 0 else if u[0] == '.' then |u| - 1 else Scale(u[1..])
  }

  /** The digits read as one integer, divided by ten to the number of fraction digits. */
  function UnsignedValue(u: string): real
    requires IsUnsignedDecimal(u)
  {
    DigitsValue(Filter(IsDigit, u)) as real / Pow10(Scale(u)) as real
  }

  function DecimalValue(w: string): real
    requires IsDecimal(w)
  {
    if |w| > 0 && w[0] == '-' then -UnsignedValue(Unsigned(w)) else UnsignedValue(Unsigned(w))
  }

  // ---------------------------------------------------------------------
  // The scanner: parseFloat on the stripped alphabet.

  /** The length of the run of digits at the start of `s`. */
  function DigitRun(s: string): (n: nat)
    ensures n <= |s| && AllDigits(s[..n])
    ensures n < |s| ==> !IsDigit(s[n])
  {
    if s != [] && IsDigit(s[0]) then 1 + DigitRun(s[1..]) else 0
  }

  /** A decimal prefix that was read: its value and how many characters it took. */
  datatype Scan = Scan(value: real, length: nat)

  /** The longest unsigned literal at the start of `u`: an integer part, then optionally '.' and a fraction part. */
  function ScanUnsigned(u: string): (r: Option<Scan>)
    ensures r.Some? ==> 0 < r.value.length <= |u|
  {
    var i := DigitRun(u);
    if i < |u| && u[i] == '.' then
      var f := DigitRun(u[i + 1..]);
      if i == 0 && f == 0 then None
      else
        var whole, fraction := u[..i], u[i + 1..i + 1 + f];
        assert fraction == u[i + 1..][..f];
        Some(Scan(DigitsValue(whole) as real + DigitsValue(fraction) as real / Pow10(f) as real, i + 1 + f))
    else if i == 0 then None
    else Some(Scan(DigitsValue(u[..i]) as real, i))
  }

  /** The longest decimal literal at the start of `s`, sign included; None where parseFloat gives NaN. */
  function ScanDecimal(s: string): (r: Option<Scan>)
    ensures r.Some? ==> 0 < r.value.length <= |s|
  {
    if |s| > 0 && s[0] == '-' then
      match ScanUnsigned(s[1..])
      case None => None
      case Some(sc) => Some(Scan(-sc.value, sc.length + 1))
    else ScanUnsigned(s)
  }

  /**
    parseFloat on a string of digits, '.' and '-'; None stands for NaN, which
    it gives exactly when no prefix is a decimal literal.
   */
  function ParseFloat(s: string): (r: Option<real>)
    requires AllNumeric(s)
    ensures r.None? <==> forall k :: 0 <= k <= |s| ==> !IsDecimal(s[..k])
    ensures r.Some? ==> exists k :: 0 < k <= |s| && IsDecimal(s[..k]) && r.value == DecimalValue(s[..k])
  {
    match ScanDecimal(s)
    case None => NoDecimalPrefix(s); None
    case Some(sc) => ScanDecimalSound(s); Some(sc.value)
  }

  /**
    parseCurrency: NaN becomes 0 (and so does -0, which is 0 here). The result
    is 0 when the stripped input has no decimal prefix, and a non-zero result is
    the value of a decimal prefix of the stripped input.
   */
  function ParseCurrency(s: string): (r: real)
    ensures (forall k :: 0 <= k <= |Strip(s)| ==> !IsDecimal(Strip(s)[..k])) ==> r == 0.0
    ensures r != 0.0 ==> exists k :: 0 < k <= |Strip(s)| && IsDecimal(Strip(s)[..k]) && r == DecimalValue(Strip(s)[..k])
  {
    match ParseFloat(Strip(s))
    case None => 0.0
    case Some(v) => v
  }

  // ---------------------------------------------------------------------
  // The scanner reads exactly the longest literal the grammar allows.

  /** Digits in front of a string do not change its scale. */
  lemma {:induction false} ScaleAfterDigits(a: string, rest: string)
    requires AllDigits(a)
    ensures Scale(a + rest) == Scale(rest)
  {
    if a != [] {
      assert (a + rest)[0] == a[0] != '.';
      assert (a + rest)[1..] == a[1..] + rest;
      assert Scale(a + rest) == Scale(a[1..] + rest);
      ScaleAfterDigits(a[1..], rest);
    } else {
      assert a + rest == rest;
    }
  }

  lemma FractionSplit(x: nat, y: nat, p: nat)
    requires p >= 1
    ensures ((x * p + y) as real) / (p as real) == x as real + (y as real) / (p as real)
  {
    assert (x * p + y) as real == (x as real) * (p as real) + y as real;
  }

  /** Dropping the '.' from integer digits, '.', fraction digits leaves the digits. */
  lemma DigitsOfDotted(a: string, b: string)
    requires AllDigits(a) && AllDigits(b)
    ensures Filter(IsDigit, a + ['.'] + b) == a + b
  {
    FilterAppend(IsDigit, a + ['.'], b);
    FilterAppend(IsDigit, a, ['.']);
    FilterIdentity(IsDigit, a);
    FilterIdentity(IsDigit, b);
    assert ['.'][1..] == [];
    assert Filter(IsDigit, ['.']) == [];
  }

  /** Integer digits, '.', fraction digits, with at least one digit, make an unsigned literal. */
  lemma DottedIsDecimal(a: string, b: string)
    requires AllDigits(a) && AllDigits(b) && |a| + |b| > 0
    ensures IsUnsignedDecimal(a + ['.'] + b)
  {
    var w := a + ['.'] + b;
    assert |w| >= 2;
    assert forall i :: 0 <= i < |w| && i != |a| ==> IsDigit(w[i]) by {
      forall i | 0 <= i < |w| && i != |a| ensures IsDigit(w[i]) {
        if i < |a| {
          assert w[i] == a[i];
        } else {
          assert w[i] == b[i - |a| - 1];
        }
      }
    }
  }

  /** The value of integer digits `a`, '.', fraction digits `b` is a plus b over ten to the length of b. */
  lemma ValueWithDot(a: string, b: string)
    requires AllDigits(a) && AllDigits(b) && |a| + |b| > 0
    ensures IsUnsignedDecimal(a + ['.'] + b)
    ensures UnsignedValue(a + ['.'] + b) == DigitsValue(a) as real + DigitsValue(b) as real / Pow10(|b|) as real
  {
    var w := a + ['.'] + b;
    DottedIsDecimal(a, b);
    DigitsOfDotted(a, b);
    ScaleOfDotted(a, b);
    DottedValue(a, b);
    assert UnsignedValue(w) == DigitsValue(a + b) as real / Pow10(|b|) as real;
  }

  lemma ScaleOfDotted(a: string, b: string)
    requires AllDigits(a)
    ensures Scale(a + ['.'] + b) == |b|
  {
    ScaleAfterDigits(a, ['.'] + b);
    assert a + ['.'] + b == a + (['.'] + b);
  }

  /** Reading the digits of `a` and `b` as one integer and shifting it back by the length of `b`. */
  lemma DottedValue(a: string, b: string)
    requires AllDigits(a) && AllDigits(b)
    ensures AllDigits(a + b)
    ensures DigitsValue(a + b) as real / Pow10(|b|) as real == DigitsValue(a) as real + DigitsValue(b) as real / Pow10(|b|) as real
  {
    DigitsValueAppend(a, b);
    FractionSplit(DigitsValue(a), DigitsValue(b), Pow10(|b|));
  }

  /** The value of a digit string without '.' is its integer value. */
  lemma ValueWithoutDot(a: string)
    requires AllDigits(a) && |a| > 0
    ensures IsUnsignedDecimal(a)
    ensures UnsignedValue(a) == DigitsValue(a) as real
  {
    assert a[0] != '.';
    FilterIdentity(IsDigit, a);
    ScaleAfterDigits(a, []);
    assert a + [] == a;
    assert Scale(a) == 0;
    assert Pow10(Scale(a)) == 1;
    var m := DigitsValue(Filter(IsDigit, a));
    assert m == DigitsValue(a);
    assert UnsignedValue(a) == m as real / 1.0;
  }

  lemma ScanUnsignedSound(u: string)
    requires ScanUnsigned(u).Some?
    ensures IsUnsignedDecimal(u[..ScanUnsigned(u).value.length])
    ensures ScanUnsigned(u).value.value == UnsignedValue(u[..ScanUnsigned(u).value.length])
  {
    var i := DigitRun(u);
    if i < |u| && u[i] == '.' {
      var f := DigitRun(u[i + 1..]);
      var whole, fraction := u[..i], u[i + 1..i + 1 + f];
      assert fraction == u[i + 1..][..f];
      assert u[..i + 1 + f] == whole + ['.'] + fraction;
      ValueWithDot(whole, fraction);
    } else {
      ValueWithoutDot(u[..i]);
    }
  }

  /** No prefix of `u` longer than the scanned one, and none at all when the scan fails, is a literal. */
  lemma ScanUnsignedLongest(u: string, q: nat)
    requires q <= |u|
    requires ScanUnsigned(u).None? || q > ScanUnsigned(u).value.length
    ensures !IsUnsignedDecimal(u[..q])
  {
    var v := u[..q];
    var i := DigitRun(u);
    if i < |u| && u[i] == '.' && q > 1 {
      var f := DigitRun(u[i + 1..]);
      var j := i + 1 + f;
      assert u[i + 1..][f] == u[j] == v[j];
    } else if q > 0 {
      assert v[i] == u[i];
    }
  }

  lemma ScanDecimalSound(s: string)
    requires ScanDecimal(s).Some?
    ensures IsDecimal(s[..ScanDecimal(s).value.length])
    ensures ScanDecimal(s).value.value == DecimalValue(s[..ScanDecimal(s).value.length])
  {
    var n := ScanDecimal(s).value.length;
    if |s| > 0 && s[0] == '-' {
      var u := s[1..];
      ScanUnsignedSound(u);
      assert Unsigned(s[..n]) == u[..n - 1];
    } else {
      ScanUnsignedSound(s);
      assert Unsigned(s[..n]) == s[..n];
    }
  }

  lemma ScanDecimalLongest(s: string, k: nat)
    requires k <= |s|
    requires ScanDecimal(s).None? || k > ScanDecimal(s).value.length
    ensures !IsDecimal(s[..k])
  {
    if k > 0 {
      if s[0] == '-' {
        var u := s[1..];
        assert Unsigned(s[..k]) == u[..k - 1];
        ScanUnsignedLongest(u, k - 1);
      } else {
        assert Unsigned(s[..k]) == s[..k];
        ScanUnsignedLongest(s, k);
      }
    }
  }

  /** When the scan fails, no prefix at all is a decimal literal. */
  lemma NoDecimalPrefix(s: string)
    requires ScanDecimal(s).None?
    ensures forall k :: 0 <= k <= |s| ==> !IsDecimal(s[..k])
  {
    forall k | 0 <= k <= |s| ensures !IsDecimal(s[..k]) {
      ScanDecimalLongest(s, k);
    }
  }

  // ---------------------------------------------------------------------
  // What parseCurrency returns.

  /**
    When the stripped input has a decimal prefix, parseCurrency returns the
    value of the longest one.
   */
  lemma ParseCurrencyLongestPrefix(s: string, k: nat)
    requires k <= |Strip(s)| && IsDecimal(Strip(s)[..k])
    requires forall k' :: k < k' <= |Strip(s)| ==> !IsDecimal(Strip(s)[..k'])
    ensures ParseCurrency(s) == DecimalValue(Strip(s)[..k])
  {
    var t := Strip(s);
    if ScanDecimal(t).None? {
      ScanDecimalLongest(t, k);
      assert false;
    }
    var n := ScanDecimal(t).value.length;
    if n < k {
      ScanDecimalLongest(t, k);
      assert false;
    }
    ScanDecimalSound(t);
    assert n == k;
  }

  /** When the stripped input is itself a decimal literal, parseCurrency returns its exact value. */
  lemma ParseCurrencyWellFormed(s: string)
    requires IsDecimal(Strip(s))
    ensures ParseCurrency(s) == DecimalValue(Strip(s))
  {
    var t := Strip(s);
    assert t[..|t|] == t;
    ParseCurrencyLongestPrefix(s, |t|);
  }

  /** Characters outside [0-9.-] are all dropped. */
  lemma StripNone(s: string)
    requires forall i :: 0 <= i < |s| ==> !IsNumericChar(s[i])
    ensures Strip(s) == ""
  {
    FilterNone(IsNumericChar, s);
  }

  lemma ParseCurrencyEmptyExamples()
    ensures ParseCurrency("") == 0.0
    ensures ParseCurrency("abc") == 0.0
    ensures ParseCurrency("-") == 0.0
    ensures ParseCurrency(".") == 0.0
  {
    StripNone("abc");
    StripIdentity("-");
    StripIdentity(".");
    assert "-"[1..] == "";
    assert "."[1..] == "";
  }

  /**
    A well-formed amount with a currency sign or name around it, made of
    characters outside [0-9.-], parses to the amount.
   */
  lemma ParseCurrencyDecorated(before: string, amount: string, after: string)
    requires forall i :: 0 <= i < |before| ==> !IsNumericChar(before[i])
    requires forall i :: 0 <= i < |after| ==> !IsNumericChar(after[i])
    requires AllNumeric(amount) && IsDecimal(amount)
    ensures ParseCurrency(before + amount + after) == DecimalValue(amount)
  {
    StripDecorated(before, amount, after);
    ParseCurrencyWellFormed(before + amount + after);
  }

  lemma StripDecorated(before: string, amount: string, after: string)
    requires forall i :: 0 <= i < |before| ==> !IsNumericChar(before[i])
    requires forall i :: 0 <= i < |after| ==> !IsNumericChar(after[i])
    requires AllNumeric(amount)
    ensures Strip(before + amount + after) == amount
  {
    FilterAppend(IsNumericChar, before + amount, after);
    FilterAppend(IsNumericChar, before, amount);
    StripNone(before);
    StripNone(after);
    StripIdentity(amount);
    assert Strip(before + amount) == amount;
  }

  lemma ParseCurrencyEuroExample()
    ensures ParseCurrency("-12.50 EUR") == -12.5
  {
    var amount, unit := "-12.50", " EUR";
    EuroLiteral();
    assert AllNumeric(amount);
    ParseCurrencyDecorated("", amount, unit);
    assert "" + amount + unit == "-12.50 EUR";
  }

  lemma EuroLiteral()
    ensures IsDecimal("-12.50") && DecimalValue("-12.50") == -12.5
  {
    var whole, fraction := "12", "50";
    var u := whole + ['.'] + fraction;
    assert "-12.50"[1..] == u;
    ValueWithDot(whole, fraction);
    var x, y, p := DigitsValue(whole), DigitsValue(fraction), Pow10(|fraction|);
    assert x == 12 by { assert whole[..1] == "1"; }
    assert y == 50 by { assert fraction[..1] == "5"; }
    assert p == 100;
    TwelveAndAHalf(x, y, p);
  }

  lemma TwelveAndAHalf(x: nat, y: nat, p: nat)
    requires x == 12 && y == 50 && p == 100
    ensures x as real + y as real / p as real == 12.5
  {
  }
}
