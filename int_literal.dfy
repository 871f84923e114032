/** Python's `int(s)` for base 10, restricted to ASCII: an optional `+` or
    `-` followed by one or more decimal digits, no more of them than the
    interpreter's conversion limit. Anything else raises `ValueError`,
    modelled as `None`. */
module IntLiteral {
  import opened StrOps
  import opened Wrappers

  /** The default of `sys.get_int_max_str_digits()`: a decimal string with
      more digits than this (leading zeros included, the sign not) raises
      `ValueError` instead of being converted. */
  const MaxStrDigits: nat := 4300

  /** A non-empty run of ASCII digits. */
  predicate AllDigits(t: string) {
    t != [] && forall i :: 0 <= i < |t| ==> IsDigit(t[i])
  }

  /** A run of digits short enough to be converted. */
  predicate Convertible(t: string) {
    AllDigits(t) && |t| <= MaxStrDigits
  }

  /** What `int()` accepts once surrounding whitespace is gone. */
  predicate IsIntLiteral(s: string) {
    Convertible(s) || (|s| >= 2 && (s[0] == '+' || s[0] == '-') && Convertible(s[1..]))
  }

  /** The value of a run of digits, read most significant first. */
  function DigitsValue(t: string): (v: nat)
    decreases |t|
  {
    if t == [] then 0 else 10 * DigitsValue(t[..|t| - 1]) + (t[|t| - 1] as int - '0' as int) % 10
  }

  /** `int(s)` for a stripped literal: `None` where Python raises
      `ValueError`. */
  function ParseInt(s: string): (r: Option<int>)
    ensures r.Some? <==> IsIntLiteral(s)
  {
    if Convertible(s) then Some(DigitsValue(s))
    else if |s| >= 2 && s[0] == '-' && Convertible(s[1..]) then Some(-(DigitsValue(s[1..]) as int))
    else if |s| >= 2 && s[0] == '+' && Convertible(s[1..]) then Some(DigitsValue(s[1..]))
    else None
  }

  /** The decimal digit for `d`. */
  function DigitChar(d: nat): (c: char)
    requires d < 10
    ensures IsDigit(c) && c as int - '0' as int == d
  {
    (d + '0' as int) as char
  }

  /** `str(n)` for a natural number. */
  function ShowNat(n: nat): (t: string)
    decreases n
  {
    if n < 10 then [DigitChar(n)] else ShowNat(n / 10) + [DigitChar(n % 10)]
  }

  /** `str(n)`: a minus sign for negative numbers, no sign otherwise. */
  function ShowInt(n: int): string {
    if n < 0 then "-" + ShowNat(-n) else ShowNat(n)
  }

  /** The decimal form of a natural number is a run of digits whose value is
      that number. */
  lemma {:induction false} ShowNatDigits(n: nat)
    ensures AllDigits(ShowNat(n)) && DigitsValue(ShowNat(n)) == n
    decreases n
  {
    var t := ShowNat(n);
    if n >= 10 {
      ShowNatDigits(n / 10);
      var q := ShowNat(n / 10);
      assert t[..|t| - 1] == q;
      assert forall i :: 0 <= i < |t| - 1 ==> t[i] == q[i];
    }
  }

  /** `int(str(n)) == n` whenever `str(n)` is within the digit limit, and
      `ValueError` beyond it. */
  lemma ParseShowInt(n: int)
    ensures var t := ShowNat(if n < 0 then -n else n);
            ParseInt(ShowInt(n)) == if |t| <= MaxStrDigits then Some(n) else None
  {
    var t := ShowNat(if n < 0 then -n else n);
    ShowNatDigits(if n < 0 then -n else n);
    var s := ShowInt(n);
    if n < 0 {
      assert s == "-" + t && s[1..] == t;
      assert !Convertible(s) by {
        assert !IsDigit(s[0]);
      }
      assert Convertible(s[1..]) <==> |t| <= MaxStrDigits;
    } else {
      assert s == t && IsDigit(s[0]);
      assert Convertible(s) <==> |t| <= MaxStrDigits;
    }
  }

  /** Leading zeros do not change the value. */
  lemma {:induction false} LeadingZero(t: string)
    requires AllDigits(t)
    ensures AllDigits("0" + t) && DigitsValue("0" + t) == DigitsValue(t)
    decreases |t|
  {
    var s := "0" + t;
    assert s[..|s| - 1] == "0" + t[..|t| - 1];
    if |t| > 1 {
      LeadingZero(t[..|t| - 1]);
    } else {
      assert s[..|s| - 1] == "0";
    }
  }

  /** A leading zero leaves the value alone but counts towards the digit
      limit. */
  lemma LeadingZeroParse(t: string)
    requires AllDigits(t)
    ensures ParseInt("0" + t) == if |t| < MaxStrDigits then ParseInt(t) else None
  {
    LeadingZero(t);
    assert IsDigit(("0" + t)[0]) && IsDigit(t[0]);
  }

  /** A sign in front of a string is no digit: what follows it is the rest. */
  lemma SignParts(c: char, t: string)
    requires !IsDigit(c)
    ensures ([c] + t)[0] == c && ([c] + t)[1..] == t && !Convertible([c] + t)
  {
    assert !IsDigit(([c] + t)[0]);
  }

  /** A sign flips the value, and `+` keeps it; the sign does not count
      towards the digit limit. */
  lemma SignedLiteral(t: string)
    requires AllDigits(t)
    ensures ParseInt("-" + t) == if |t| <= MaxStrDigits then Some(-(DigitsValue(t) as int)) else None
    ensures ParseInt("+" + t) == if |t| <= MaxStrDigits then Some(DigitsValue(t)) else None
  {
    SignParts('-', t);
    SignParts('+', t);
  }
}
