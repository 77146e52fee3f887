/** Decimal integers as Go's `strconv.Atoi` reads them and `strconv.Itoa`
    writes them, on a platform where `int` is 64 bits wide. */
module Decimal {
  import opened Wrappers

  const MinInt64: int := -0x8000_0000_0000_0000
  const MaxInt64: int := 0x7FFF_FFFF_FFFF_FFFF

  predicate IsDigit(c: char)
  {
    '0' <= c <= '9'
  }

  predicate AllDigits(s: string)
  {
    forall i :: 0 <= i < |s| ==> IsDigit(s[i])
  }

  function DigitValue(c: char): nat
    requires IsDigit(c)
  {
    (c as int) - ('0' as int)
  }

  function DigitChar(d: nat): (c: char)
    requires d < 10
    ensures IsDigit(c) && DigitValue(c) == d
  {
    ('0' as int + d) as char
  }

  /** The number a string of decimal digits denotes (most significant first). */
  function Value(ds: string): nat
    requires AllDigits(ds)
  {
    if |ds| == 0 then 0 else 10 * Value(ds[..|ds| - 1]) + DigitValue(ds[|ds| - 1])
  }

  /** `strconv.Itoa` on a non-negative number: its shortest decimal digits. */
  function FormatNat(n: nat): (ds: string)
    ensures |ds| > 0 && AllDigits(ds)
    ensures Value(ds) == n
    ensures |ds| > 1 ==> ds[0] != '0'
  {
    if n < 10 then [DigitChar(n)]
    else
      var prefix := FormatNat(n / 10);
      var ds := prefix + [DigitChar(n % 10)];
      assert ds[..|ds| - 1] == prefix;
      ds
  }

  /** `strconv.Itoa`. */
  function FormatInt(n: int): string
  {
    if n < 0 then "-" + FormatNat(-n) else FormatNat(n)
  }

  /** The shape `strconv.Atoi` accepts: an optional `+` or `-`, then at
      least one ASCII digit and nothing else. */
  predicate IsNumeral(s: string)
  {
    && |s| > 0
    && (IsDigit(s[0]) || ((s[0] == '+' || s[0] == '-') && |s| > 1))
    && forall i :: 0 < i < |s| ==> IsDigit(s[i])
  }

  /** The integer a numeral denotes, sign included, before any range check. */
  function NumeralValue(s: string): int
    requires IsNumeral(s)
  {
    if IsDigit(s[0]) then Value(s)
    else if s[0] == '-' then -(Value(s[1..]) as int)
    else Value(s[1..])
  }

  /** `strconv.Atoi`: an optional `+` or `-`, then at least one ASCII digit
      and nothing else; values outside the 64-bit range are errors. */
  function ParseInt(s: string): (r: Option<int>)
    ensures r.Some? <==> IsNumeral(s) && MinInt64 <= NumeralValue(s) <= MaxInt64
    ensures r.Some? ==> r.value == NumeralValue(s)
    ensures r.Some? ==> MinInt64 <= r.value <= MaxInt64
    ensures r.Some? && r.value < 0 ==> s[0] == '-'
  {
    if |s| == 0 then None
    else
      var digits := if s[0] == '+' || s[0] == '-' then s[1..] else s;
      assert s[0] == '+' || s[0] == '-' ==> forall i :: 0 < i < |s| ==> s[i] == digits[i - 1];
      if |digits| == 0 || !AllDigits(digits) then None
      else
        var v: int := if s[0] == '-' then -(Value(digits) as int) else Value(digits);
        if MinInt64 <= v <= MaxInt64 then Some(v) else None
  }

  /** Reading back what Itoa wrote gives the number exactly when it fits in
      64 bits: both directions of the round trip. */
  lemma ParseFormat(n: int)
    ensures ParseInt(FormatInt(n)) == (if MinInt64 <= n <= MaxInt64 then Some(n) else None)
  {
    var s := FormatInt(n);
    if n < 0 {
      assert s[1..] == FormatNat(-n);
      assert s[0] == '-';
    } else {
      assert IsDigit(s[0]);
    }
  }

  /** `n` zero digits. */
  function Zeros(n: nat): (z: string)
    ensures |z| == n && forall i :: 0 <= i < n ==> z[i] == '0'
  {
    seq(n, _ => '0')
  }

  /** Leading zeros do not change the value of a digit string. */
  lemma {:induction false} ValueLeadingZeros(z: string, ds: string)
    requires forall i :: 0 <= i < |z| ==> z[i] == '0'
    requires AllDigits(ds)
    ensures AllDigits(z + ds) && Value(z + ds) == Value(ds)
  {
    var w := z + ds;
    if |ds| == 0 {
      assert w == z;
      if |z| > 0 {
        ValueLeadingZeros(z[..|z| - 1], []);
        assert z[..|z| - 1] + [] == z[..|z| - 1];
      }
    } else {
      ValueLeadingZeros(z, ds[..|ds| - 1]);
      assert w[..|w| - 1] == z + ds[..|ds| - 1];
    }
  }

  /** A sign in front of a digit string makes a numeral whose value is
      the digits' value, negated for `-`. */
  lemma SignedNumeral(sign: char, ds: string)
    requires sign == '+' || sign == '-'
    requires |ds| > 0 && AllDigits(ds)
    ensures IsNumeral([sign] + ds)
    ensures NumeralValue([sign] + ds) == if sign == '-' then -(Value(ds) as int) else Value(ds)
  {
    var s := [sign] + ds;
    assert s[1..] == ds;
    assert forall i :: 0 < i < |s| ==> s[i] == ds[i - 1];
  }

  /** Atoi ignores a leading `+` and any leading zeros, and a leading `-`
      negates: `007`, `+7` and `+007` all read as 7, `-007` as -7. */
  lemma SignAndZeros(k: nat, n: nat)
    ensures ParseInt(Zeros(k) + FormatNat(n)) == (if n <= MaxInt64 then Some(n) else None)
    ensures ParseInt("+" + Zeros(k) + FormatNat(n)) == (if n <= MaxInt64 then Some(n) else None)
    ensures ParseInt("-" + Zeros(k) + FormatNat(n)) == (if n <= -MinInt64 then Some(-(n as int)) else None)
  {
    var ds := Zeros(k) + FormatNat(n);
    ValueLeadingZeros(Zeros(k), FormatNat(n));
    assert IsDigit(ds[0]);
    assert IsNumeral(ds) && NumeralValue(ds) == n;
    SignedNumeral('+', ds);
    SignedNumeral('-', ds);
    assert "+" + Zeros(k) + FormatNat(n) == ['+'] + ds;
    assert "-" + Zeros(k) + FormatNat(n) == ['-'] + ds;
  }
}
