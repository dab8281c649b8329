/** Java's 32-bit `int`, `Integer.parseInt(String)` (radix 10) and, as its
    inverse, `Integer.toString(int)`. */
module JavaInteger {
  import opened Wrappers

  const MIN_VALUE: int := -0x8000_0000
  const MAX_VALUE: int := 0x7fff_ffff

  /** A value of Java's `int`. */
  type Int32 = x: int | MIN_VALUE <= x <= MAX_VALUE

  predicate IsDigit(c: char) {
    '0' <= c <= '9'
  }

  predicate AllDigits(s: string) {
    forall i :: 0 <= i < |s| ==> IsDigit(s[i])
  }

  function DigitValue(c: char): (d: nat)
    requires IsDigit(c)
    ensures d < 10
  {
    c as int - '0' as int
  }

  function DigitChar(d: nat): (c: char)
    requires d < 10
    ensures IsDigit(c) && DigitValue(c) == d
  {
    ('0' as int + d) as char
  }

  /** The value of a decimal numeral, most significant digit first. */
  function DigitsValue(ds: string): nat
    requires AllDigits(ds)
  {
    if ds == [] then 0 else DigitsValue(ds[..|ds| - 1]) * 10 + DigitValue(ds[|ds| - 1])
  }

  /** `Integer.parseInt(s)`: an optional '+' or '-', then one or more decimal
      digits whose value fits in an `int`; anything else is a
      NumberFormatException, here None. */
  function ParseInt(s: string): (r: Option<Int32>)
    ensures r.Some? ==> |s| >= 1 && (IsDigit(s[0]) || s[0] == '-' || s[0] == '+')
    ensures r.Some? ==> forall i :: 0 < i < |s| ==> IsDigit(s[i])
    ensures r.Some? && r.value < 0 ==> s[0] == '-'
  {
    if s == [] then None
    else
      var negative := s[0] == '-';
      var start := if s[0] == '-' || s[0] == '+' then 1 else 0;
      var digits := s[start..];
      if digits == [] || !AllDigits(digits) then None
      else
        var magnitude: int := DigitsValue(digits);
        var value := if negative then -magnitude else magnitude;
        if MIN_VALUE <= value <= MAX_VALUE then Some(value) else None
  }

  /** The shortest decimal numeral of n, without leading zeros. */
  function NatDigits(n: nat): (ds: string)
    ensures |ds| >= 1 && AllDigits(ds)
    ensures |ds| > 1 ==> ds[0] != '0'
  {
    if n < 10 then [DigitChar(n)] else NatDigits(n / 10) + [DigitChar(n % 10)]
  }

  /** `Integer.toString(n)` (and `String.valueOf(n)`). */
  function ToString(n: int): (s: string)
    ensures |s| >= 1
    ensures forall i :: 0 <= i < |s| ==> IsDigit(s[i]) || (i == 0 && s[i] == '-')
  {
    if n < 0 then "-" + NatDigits(-n) else NatDigits(n)
  }

  lemma {:induction false} DigitsValueOfNatDigits(n: nat)
    ensures DigitsValue(NatDigits(n)) == n
  {
    if n >= 10 {
      var init := NatDigits(n / 10);
      var ds := init + [DigitChar(n % 10)];
      assert ds[..|ds| - 1] == init;
      DigitsValueOfNatDigits(n / 10);
    }
  }

  /** Every digit string, bare or after one sign, is accepted exactly when its
      signed value fits in an int, and then with that value. With
      ParseIntRejectsNonDigit and ParseIntRejectsNoDigits this covers every
      input of parseInt. */
  lemma ParseIntNumeral(ds: string)
    requires ds != [] && AllDigits(ds)
    ensures ParseInt(ds) == (if DigitsValue(ds) <= MAX_VALUE then Some(DigitsValue(ds)) else None)
    ensures ParseInt("+" + ds) == ParseInt(ds)
    ensures ParseInt("-" + ds) == (if DigitsValue(ds) <= -MIN_VALUE then Some(-(DigitsValue(ds) as int)) else None)
  {
    assert IsDigit(ds[0]);
    assert ds[0..] == ds;
    var plus, minus := "+" + ds, "-" + ds;
    assert plus[0] == '+' && plus[1..] == ds;
    assert minus[0] == '-' && minus[1..] == ds;
  }

  /** A string of zeros has value 0. */
  lemma {:induction false} DigitsValueZeros(z: string)
    requires forall i :: 0 <= i < |z| ==> z[i] == '0'
    ensures AllDigits(z) && DigitsValue(z) == 0
  {
    if z != [] {
      DigitsValueZeros(z[..|z| - 1]);
    }
  }

  /** Leading zeros do not change the value of a numeral. */
  lemma {:induction false} DigitsValueLeadingZeros(z: string, ds: string)
    requires forall i :: 0 <= i < |z| ==> z[i] == '0'
    requires AllDigits(ds)
    ensures AllDigits(z + ds) && DigitsValue(z + ds) == DigitsValue(ds)
  {
    DigitsValueZeros(z);
    if ds == [] {
      assert z + ds == z;
    } else {
      var whole := z + ds;
      assert whole[..|whole| - 1] == z + ds[..|ds| - 1];
      assert whole[|whole| - 1] == ds[|ds| - 1];
      DigitsValueLeadingZeros(z, ds[..|ds| - 1]);
    }
  }

  /** parseInt reads back exactly the numeral toString writes, for every int;
      a numeral outside the int range is rejected. */
  lemma ParseIntToString(n: int)
    ensures MIN_VALUE <= n <= MAX_VALUE ==> ParseInt(ToString(n)) == Some(n)
    ensures !(MIN_VALUE <= n <= MAX_VALUE) ==> ParseInt(ToString(n)) == None
  {
    if n < 0 {
      assert ToString(n) == "-" + NatDigits(-n);
      DigitsValueOfNatDigits(-n);
      ParseIntNumeral(NatDigits(-n));
    } else {
      assert ToString(n) == NatDigits(n);
      DigitsValueOfNatDigits(n);
      ParseIntNumeral(NatDigits(n));
    }
  }

  /** Zero padding, after an optional sign, keeps the value of every numeral,
      and a padded numeral outside the int range is still rejected:
      "08" and "+08" give 8, "-007" gives -7, "02147483648" fails. */
  lemma ParseIntLeadingZeros(z: string, n: int)
    requires forall i :: 0 <= i < |z| ==> z[i] == '0'
    ensures n >= 0 ==> ParseInt(z + NatDigits(n)) == (if n <= MAX_VALUE then Some(n) else None)
    ensures n >= 0 ==> ParseInt("+" + z + NatDigits(n)) == (if n <= MAX_VALUE then Some(n) else None)
    ensures n < 0 ==> ParseInt("-" + z + NatDigits(-n)) == (if n >= MIN_VALUE then Some(n) else None)
  {
    var m := if n >= 0 then n else -n;
    var ds := z + NatDigits(m);
    DigitsValueLeadingZeros(z, NatDigits(m));
    DigitsValueOfNatDigits(m);
    ParseIntNumeral(ds);
    assert "+" + z + NatDigits(m) == "+" + ds;
    assert "-" + z + NatDigits(m) == "-" + ds;
  }

  /** toString is injective: distinct ints have distinct numerals. */
  lemma ToStringInjective(m: Int32, n: Int32)
    requires ToString(m) == ToString(n)
    ensures m == n
  {
    ParseIntToString(m);
    ParseIntToString(n);
  }

  /** A character that is neither a digit nor a leading sign makes parseInt
      fail, wherever it stands. */
  lemma ParseIntRejectsNonDigit(s: string, i: nat)
    requires i < |s| && !IsDigit(s[i])
    requires i > 0 || (s[i] != '-' && s[i] != '+')
    ensures ParseInt(s) == None
  {
    var start := if s[0] == '-' || s[0] == '+' then 1 else 0;
    assert s[start..][i - start] == s[i];
  }

  /** The empty string and a lone sign are not numbers. */
  lemma ParseIntRejectsNoDigits()
    ensures ParseInt("") == None && ParseInt("-") == None && ParseInt("+") == None
  {
    assert "-"[1..] == [];
    assert "+"[1..] == [];
  }

  /** A leading '+' is accepted and does not change the value. */
  lemma ParseIntPlusSign(n: Int32)
    requires n >= 0
    ensures ParseInt("+" + ToString(n)) == Some(n)
  {
    var s := "+" + ToString(n);
    assert s[1..] == NatDigits(n);
    DigitsValueOfNatDigits(n);
  }
}
