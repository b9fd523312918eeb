/** Decimal numerals: Python's `int(s)` on a numeral string, `str(n)` for an integer,
    `s.zfill(width)`, and the five-character orbit code used in folder names. */
module Numerals {
  import opened Wrappers

  predicate IsDigit(ch: char) {
    '0' <= ch <= '9'
  }

  predicate AllDigits(s: string) {
    forall i :: 0 <= i < |s| ==> IsDigit(s[i])
  }

  function DigitValue(ch: char): (d: nat)
    requires IsDigit(ch)
    ensures d < 10
  {
    ch as int - '0' as int
  }

  function DigitChar(d: nat): (ch: char)
    requires d < 10
    ensures IsDigit(ch) && DigitValue(ch) == d
  {
    ('0' as int + d) as char
  }

  /** The value of a string of decimal digits; leading zeros are allowed. */
  function DigitsValue(s: string): nat
    requires AllDigits(s)
  {
    if s == [] then 0 else DigitsValue(s[..|s| - 1]) * 10 + DigitValue(s[|s| - 1])
  }

  /** Python's `int(s)` for a numeral: an optional sign and at least one ASCII digit.
      Anything else raises `ValueError`, modelled as `None`. */
  function ParseInt(s: string): (r: Option<int>)
    ensures r.Some? ==> |s| > 0
  {
    if |s| > 1 && (s[0] == '-' || s[0] == '+') && AllDigits(s[1..]) then
      var v: int := DigitsValue(s[1..]);
      Some(if s[0] == '-' then -v else v)
    else if |s| > 0 && AllDigits(s) then
      Some(DigitsValue(s))
    else
      None
  }

  /** `str(n)` for a natural number: its shortest decimal numeral. */
  function NatToString(n: nat): (r: string)
    ensures |r| > 0 && AllDigits(r)
  {
    if n < 10 then [DigitChar(n)] else NatToString(n / 10) + [DigitChar(n % 10)]
  }

  /** `str(n)` for an integer, as an f-string prints it. */
  function IntToString(n: int): string {
    if n < 0 then "-" + NatToString(-n) else NatToString(n)
  }

  function Zeros(k: nat): (r: string)
    ensures |r| == k && AllDigits(r)
  {
    seq(k, _ => '0')
  }

  /** `s.zfill(width)`: pad with zeros on the left, after a leading sign, up to `width`. */
  function ZFill(s: string, width: nat): string {
    if |s| >= width then s
    else if |s| > 0 && (s[0] == '+' || s[0] == '-') then [s[0]] + Zeros(width - |s|) + s[1..]
    else Zeros(width - |s|) + s
  }

  /** The orbit code of `pyuvs.misc.orbit_code`, taken to be `str(orbit).zfill(5)`. */
  function OrbitCode(orbit: int): string {
    ZFill(IntToString(orbit), 5)
  }

  // ---------------------------------------------------------------------------
  // Lemmas

  lemma {:induction false} DigitsOfNat(n: nat)
    ensures DigitsValue(NatToString(n)) == n
  {
    var s := NatToString(n);
    if n >= 10 {
      DigitsOfNat(n / 10);
      assert s[..|s| - 1] == NatToString(n / 10);
    }
  }

  lemma {:induction false} ZerosValue(k: nat)
    ensures DigitsValue(Zeros(k)) == 0
  {
    if k > 0 {
      assert Zeros(k)[..k - 1] == Zeros(k - 1);
      ZerosValue(k - 1);
    }
  }

  /** Leading zeros do not change the value of a numeral. */
  lemma {:induction false} LeadingZeros(k: nat, s: string)
    requires AllDigits(s)
    ensures AllDigits(Zeros(k) + s) && DigitsValue(Zeros(k) + s) == DigitsValue(s)
  {
    var t := Zeros(k) + s;
    if s == [] {
      assert t == Zeros(k);
      ZerosValue(k);
    } else {
      assert t[..|t| - 1] == Zeros(k) + s[..|s| - 1];
      LeadingZeros(k, s[..|s| - 1]);
    }
  }

  lemma ParseUnsigned(s: string)
    requires |s| > 0 && AllDigits(s)
    ensures ParseInt(s) == Some(DigitsValue(s))
  {
    assert IsDigit(s[0]);
  }

  lemma ParseNegative(s: string)
    requires |s| > 0 && AllDigits(s)
    ensures ParseInt("-" + s) == Some(-(DigitsValue(s) as int))
  {
    assert ("-" + s)[1..] == s;
  }

  /** `int(str(n)) == n` */
  lemma ParseIntToString(n: int)
    ensures ParseInt(IntToString(n)) == Some(n)
  {
    if n < 0 {
      ParseNegative(NatToString(-n));
      DigitsOfNat(-n);
    } else {
      ParseUnsigned(NatToString(n));
      DigitsOfNat(n);
    }
  }

  /** `int(orbit_code(n)) == n` for every integer, so distinct orbits have distinct codes. */
  lemma ParseOrbitCode(n: int)
    ensures ParseInt(OrbitCode(n)) == Some(n)
  {
    if |IntToString(n)| >= 5 {
      ParseIntToString(n);
    } else if n < 0 {
      ParseShortNegativeOrbitCode(n);
    } else {
      ParseShortOrbitCode(n);
    }
  }

  lemma ParseShortNegativeOrbitCode(n: int)
    requires n < 0 && |IntToString(n)| < 5
    ensures ParseInt(OrbitCode(n)) == Some(n)
  {
    var s := IntToString(n);
    var d := NatToString(-n);
    var k := 5 - |s|;
    assert s == "-" + d && s[0] == '-' && s[1..] == d;
    assert ZFill(s, 5) == [s[0]] + Zeros(k) + s[1..];
    assert OrbitCode(n) == "-" + (Zeros(k) + d);
    LeadingZeros(k, d);
    ParseNegative(Zeros(k) + d);
    DigitsOfNat(-n);
  }

  lemma ParseShortOrbitCode(n: int)
    requires n >= 0 && |IntToString(n)| < 5
    ensures ParseInt(OrbitCode(n)) == Some(n)
  {
    var d := NatToString(n);
    var k := 5 - |d|;
    assert IntToString(n) == d && IsDigit(d[0]);
    assert OrbitCode(n) == Zeros(k) + d;
    LeadingZeros(k, d);
    ParseUnsigned(Zeros(k) + d);
    DigitsOfNat(n);
  }

  lemma OrbitCodeInjective(a: int, b: int)
    requires OrbitCode(a) == OrbitCode(b)
    ensures a == b
  {
    ParseOrbitCode(a);
    ParseOrbitCode(b);
  }

  /** A natural number below 10^k has at most k digits. */
  lemma {:induction false} NatToStringLength(n: nat, k: nat)
    requires k > 0 && n < Pow10(k)
    ensures |NatToString(n)| <= k
  {
    if n >= 10 {
      assert k > 1;
      NatToStringLength(n / 10, k - 1);
    }
  }

  function Pow10(k: nat): (r: nat)
    ensures r > 0
  {
    if k == 0 then 1 else 10 * Pow10(k - 1)
  }

  /** A natural number below 10^w, zero-padded to width w, is w digits that read back as it. */
  lemma PaddedNumeral(n: nat, w: nat)
    requires 0 < w && n < Pow10(w)
    ensures |ZFill(NatToString(n), w)| == w && AllDigits(ZFill(NatToString(n), w))
    ensures ParseInt(ZFill(NatToString(n), w)) == Some(n)
  {
    var d := NatToString(n);
    NatToStringLength(n, w);
    DigitsOfNat(n);
    if |d| < w {
      PaddedDigits(d, w);
    } else {
      ParseUnsigned(d);
    }
  }

  /** Zero-padding a shorter numeral keeps its value and gives exactly `w` digits. */
  lemma PaddedDigits(d: string, w: nat)
    requires 0 < |d| < w && AllDigits(d)
    ensures |ZFill(d, w)| == w && AllDigits(ZFill(d, w))
    ensures ParseInt(ZFill(d, w)) == Some(DigitsValue(d))
  {
    assert IsDigit(d[0]);
    assert ZFill(d, w) == Zeros(w - |d|) + d;
    LeadingZeros(w - |d|, d);
    ParseUnsigned(Zeros(w - |d|) + d);
  }

  /** Orbit codes of orbits 0 to 99999 are exactly five digits. */
  lemma OrbitCodeShape(n: int)
    requires 0 <= n < 100000
    ensures |OrbitCode(n)| == 5 && AllDigits(OrbitCode(n))
  {
    assert Pow10(5) == 100000;
    PaddedNumeral(n, 5);
  }
}
