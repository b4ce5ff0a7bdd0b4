/** Decimal text and numbers: a simplified model of Python's `float(str)` and of
    `str(int)`, which the pipeline uses to read cells and to build page URLs. */
module Numbers {
  import opened Options
  import opened Strings

  predicate IsDigit(c: char) {
    '0' <= c <= '9'
  }

  predicate AllDigits(s: string) {
    forall i :: 0 <= i < |s| ==> IsDigit(s[i])
  }

  function DigitValue(c: char): (d: nat)
    requires IsDigit(c)
    ensures d < 10
  {
    c as int - '0' as int
  }

  function DigitChar(d: nat): (c: char)
    requires d < 10
    ensures IsDigit(c) && DigitValue(c) == d
  {
    ('0' as int + d) as char
  }

  /** The value of a string of decimal digits, most significant first. */
  function DigitsValue(s: string): nat
    requires AllDigits(s)
    decreases |s|
  {
    if s == [] then 0 else 10 * DigitsValue(s[..|s| - 1]) + DigitValue(s[|s| - 1])
  }

  function Pow10(n: nat): (p: nat)
    ensures p >= 1
  {
    if n == 0 then 1 else 10 * Pow10(n - 1)
  }

  /** `str(n)` for a natural number: its decimal digits without leading zeros. */
  function NatToString(n: nat): (s: string)
    ensures s != [] && AllDigits(s)
    ensures |s| > 1 ==> s[0] != '0'
  {
    if n < 10 then [DigitChar(n)] else NatToString(n / 10) + [DigitChar(n % 10)]
  }

  /** `str(i)` for an integer: a minus sign before the digits of a negative number. */
  function IntToString(i: int): (s: string)
    ensures s != []
    ensures i >= 0 ==> s == NatToString(i)
    ensures i < 0 ==> s == "-" + NatToString(-i)
  {
    if i < 0 then "-" + NatToString(-i) else NatToString(i)
  }

  /** Reading back the digits of `str(n)` gives `n`. */
  lemma {:induction false} DigitsValueOfNatToString(n: nat)
    ensures DigitsValue(NatToString(n)) == n
  {
    if n >= 10 {
      var s := NatToString(n);
      DigitsValueOfNatToString(n / 10);
      assert s[..|s| - 1] == NatToString(n / 10);
    }
  }

  /** Number of decimal digits at the start of `s`. */
  function DigitPrefix(s: string): (k: nat)
    ensures k <= |s| && AllDigits(s[..k])
    ensures k == |s| || !IsDigit(s[k])
    decreases |s|
  {
    if s == [] || !IsDigit(s[0]) then 0
    else
      var k := DigitPrefix(s[1..]);
      assert s[..k + 1] == [s[0]] + s[1..][..k];
      1 + k
  }

  /** An unsigned decimal: `ddd`, `ddd.`, `ddd.ddd` or `.ddd`, with at least one digit. */
  function ParseUnsigned(t: string): (r: Option<real>)
    ensures r.Some? ==> r.value >= 0.0
  {
    var k := DigitPrefix(t);
    var whole := DigitsValue(t[..k]) as real;
    var rest := t[k..];
    if rest == [] then
      if k > 0 then Some(whole) else None
    else if rest[0] == '.' && AllDigits(rest[1..]) && (k > 0 || |rest| > 1) then
      Some(whole + DigitsValue(rest[1..]) as real / Pow10(|rest| - 1) as real)
    else
      None
  }

  /** A simplified `float(s)`: surrounding whitespace is ignored, an optional sign is
      followed by an unsigned decimal. Any other text does not parse. */
  function ParseNumber(s: string): (r: Option<real>)
    ensures r.Some? ==> exists i :: 0 <= i < |s| && IsDigit(s[i])
  {
    var t := Strip(s);
    var r :=
      if t != [] && t[0] == '-' then
        match ParseUnsigned(t[1..])
        case Some(v) => Some(-v)
        case None => None
      else if t != [] && t[0] == '+' then ParseUnsigned(t[1..])
      else ParseUnsigned(t);
    if r.Some? then
      ParseHasDigit(t);
      assert exists i :: 0 <= i < |t| && IsDigit(t[i]);
      var i :| 0 <= i < |t| && IsDigit(t[i]);
      assert t[i] in t;
      r
    else r
  }

  lemma ParseHasDigit(t: string)
    requires ParseUnsigned(t).Some?
        || (t != [] && (t[0] == '-' || t[0] == '+') && ParseUnsigned(t[1..]).Some?)
    ensures exists i :: 0 <= i < |t| && IsDigit(t[i])
  {
    if ParseUnsigned(t).Some? {
      UnsignedHasDigit(t);
    } else {
      UnsignedHasDigit(t[1..]);
      var i :| 0 <= i < |t[1..]| && IsDigit(t[1..][i]);
      assert IsDigit(t[i + 1]);
    }
  }

  lemma UnsignedHasDigit(t: string)
    requires ParseUnsigned(t).Some?
    ensures exists i :: 0 <= i < |t| && IsDigit(t[i])
  {
    var k := DigitPrefix(t);
    if k > 0 {
      assert IsDigit(t[..k][0]);
    } else {
      assert IsDigit(t[k..][1..][0]);
      assert t[k..][1..][0] == t[1];
    }
  }

  /** `float(str(n)) == n`: the text of a natural number parses back to it. */
  lemma {:induction false} ParseNatToString(n: nat)
    ensures ParseNumber(NatToString(n)) == Some(n as real)
  {
    var s := NatToString(n);
    assert Trimmed(s) by {
      assert !IsSpace(s[0]) && !IsSpace(s[|s| - 1]);
    }
    StripTrimmed(s);
    assert IsDigit(s[0]);
    ParseUnsignedDigits(s);
    DigitsValueOfNatToString(n);
  }

  /** A nonempty run of digits parses to its value. */
  lemma ParseUnsignedDigits(t: string)
    requires t != [] && AllDigits(t)
    ensures ParseUnsigned(t) == Some(DigitsValue(t) as real)
  {
    AllDigitsPrefix(t);
    assert t[..|t|] == t;
    assert t[|t|..] == [];
  }

  lemma AllDigitsPrefix(s: string)
    requires AllDigits(s)
    ensures DigitPrefix(s) == |s|
  {
  }
}
