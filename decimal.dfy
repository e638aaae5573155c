/**
 * Decimal integers as Python writes and reads them: `str(n)` for an `int` and
 * `int(s)` for a `str` (base 10: surrounding whitespace, an optional sign, and
 * ASCII digits with single underscores allowed between them). Since Python
 * 3.11 both refuse numbers of more than 4300 digits with a `ValueError`.
 */
module Decimal {
  import opened Wrappers
  import opened Text

  /** `sys.int_info.default_max_str_digits`: the most digits `int()` reads and `str()` writes. */
  const MAX_STR_DIGITS: nat := 4300

  function Pow10(k: nat): (r: nat)
    ensures r >= 1
    ensures k >= 1 ==> r >= 10
  {
    if k == 0 then 1 else 10 * Pow10(k - 1)
  }

  function DigitValue(c: char): (d: nat)
    requires IsDigit(c)
    ensures d < 10
  {
    c as int - '0' as int
  }

  function DigitChar(d: nat): (c: char)
    requires d < 10
    ensures IsDigit(c) && DigitValue(c) == d
  {
    ('0' as int + d) as char
  }

  predicate AllDigits(s: string) {
    forall i :: 0 <= i < |s| ==> IsDigit(s[i])
  }

  /** The value of a run of decimal digits (leading zeros allowed). */
  function ValueOf(ds: string): nat
    requires AllDigits(ds)
  {
    if ds == [] then 0 else 10 * ValueOf(ds[..|ds| - 1]) + DigitValue(ds[|ds| - 1])
  }

  /** `str(n)` for a non-negative `n`. */
  function ShowNat(n: nat): (s: string)
    ensures |s| >= 1 && AllDigits(s)
    ensures s[0] == '0' ==> n == 0
  {
    if n < 10 then [DigitChar(n)] else ShowNat(n / 10) + [DigitChar(n % 10)]
  }

  /** `str(i)` does not raise: the number has at most `MAX_STR_DIGITS` digits. */
  predicate FitsStrDigits(i: int) {
    |ShowNat(if i < 0 then -i else i)| <= MAX_STR_DIGITS
  }

  /** `str(i)`, for any length; Python raises unless `FitsStrDigits(i)`. */
  function ShowInt(i: int): (s: string)
    ensures |s| >= 1 && IsStripped(s)
  {
    if i < 0 then "-" + ShowNat(-i) else ShowNat(i)
  }

  /** Reading back what `str` wrote gives the number. */
  lemma {:induction false} ValueOfShowNat(n: nat)
    ensures ValueOf(ShowNat(n)) == n
  {
    if n >= 10 {
      var s := ShowNat(n);
      assert s[..|s| - 1] == ShowNat(n / 10);
      ValueOfShowNat(n / 10);
    }
  }

  /** A digit string without a leading zero has at least as many digits as its value needs. */
  lemma {:induction false} ValueOfLowerBound(ds: string)
    requires AllDigits(ds) && |ds| >= 1 && ds[0] != '0'
    ensures ValueOf(ds) >= Pow10(|ds| - 1)
    ensures ValueOf(ds) < Pow10(|ds|)
  {
    if |ds| > 1 {
      ValueOfLowerBound(ds[..|ds| - 1]);
    }
  }

  /** Writing out the value of a digit string without leading zeros gives the string back. */
  lemma {:induction false} ShowNatValueOf(ds: string)
    requires AllDigits(ds) && |ds| >= 1 && (ds[0] != '0' || |ds| == 1)
    ensures ShowNat(ValueOf(ds)) == ds
  {
    if |ds| > 1 {
      var p := ds[..|ds| - 1];
      ValueOfLowerBound(p);
      ShowNatValueOf(p);
      var v := ValueOf(ds);
      assert v / 10 == ValueOf(p) && v % 10 == DigitValue(ds[|ds| - 1]);
      assert DigitChar(v % 10) == ds[|ds| - 1];
      assert ShowNat(v) == p + [ds[|ds| - 1]];
    }
  }

  /** `len(str(n)) <= k` exactly when `n < 10^k`. */
  lemma {:induction false} ShowNatLength(n: nat, k: nat)
    requires k >= 1
    ensures |ShowNat(n)| <= k <==> n < Pow10(k)
  {
    if n >= 10 && k > 1 {
      ShowNatLength(n / 10, k - 1);
    }
  }

  /** The body `int()` accepts after the sign: digits, with single underscores between digits. */
  predicate IsNumeral(b: string) {
    && |b| >= 1 && IsDigit(b[0]) && IsDigit(b[|b| - 1])
    && (forall i :: 0 <= i < |b| ==> IsDigit(b[i]) || b[i] == '_')
    && !Contains(b, "__")
  }

  function DropUnderscores(b: string): (r: string)
    ensures (forall i :: 0 <= i < |b| ==> IsDigit(b[i]) || b[i] == '_') ==> AllDigits(r)
    ensures AllDigits(b) ==> r == b
  {
    if b == [] then []
    else if b[0] == '_' then DropUnderscores(b[1..])
    else [b[0]] + DropUnderscores(b[1..])
  }

  function NumeralValue(b: string): nat
    requires IsNumeral(b)
  {
    ValueOf(DropUnderscores(b))
  }

  /** `int(s)` for a `str`; `None` where Python raises `ValueError`. */
  function ParseInt(s: string): Option<int> {
    ParseStripped(Strip(s))
  }

  /** `int()` once the surrounding whitespace is gone: an optional sign, then a numeral. */
  function ParseStripped(t: string): Option<int> {
    if t != [] && (t[0] == '-' || t[0] == '+') then Signed(t[0], ParseNumeral(t[1..]))
    else ParseNumeral(t)
  }

  /** A numeral with too many digits, leading zeros included, raises `ValueError`. */
  function ParseNumeral(b: string): Option<nat> {
    if IsNumeral(b) && |DropUnderscores(b)| <= MAX_STR_DIGITS then Some(NumeralValue(b)) else None
  }

  function Signed(sign: char, magnitude: Option<nat>): Option<int> {
    match magnitude
    case None => None
    case Some(m) => Some(if sign == '-' then 0 - m else m)
  }

  /** `int(str(n)) == n` whenever `str(n)` does not raise. */
  lemma ParseShowInt(n: int)
    requires FitsStrDigits(n)
    ensures ParseInt(ShowInt(n)) == Some(n)
  {
    var ds := ShowNat(if n < 0 then -n else n);
    assert |ds| <= MAX_STR_DIGITS;
    if n < 0 {
      assert ShowInt(n) == "-" + ds;
      assert ParseInt("-" + ds) == Signed('-', Some(ValueOf(ds))) by { ParseSigned(ds); }
      assert ValueOf(ds) == -n by { ValueOfShowNat(-n); }
    } else {
      assert ShowInt(n) == ds;
      assert ParseInt(ds) == Some(ValueOf(ds) as int) by { ParseUnsigned(ds); }
      assert ValueOf(ds) == n by { ValueOfShowNat(n); }
    }
  }

  lemma ParseUnsigned(ds: string)
    requires |ds| >= 1 && AllDigits(ds) && |ds| <= MAX_STR_DIGITS
    ensures ParseInt(ds) == Some(ValueOf(ds) as int)
  {
    ParseIntStripped(ds);
    NumeralOfDigits(ds);
  }

  lemma ParseSigned(ds: string)
    requires |ds| >= 1 && AllDigits(ds) && |ds| <= MAX_STR_DIGITS
    ensures ParseInt("-" + ds) == Signed('-', Some(ValueOf(ds)))
  {
    ParseIntMinus(ds);
    NumeralOfDigits(ds);
  }

  lemma ParseIntStripped(ds: string)
    requires |ds| >= 1 && AllDigits(ds)
    ensures ParseInt(ds) == ParseNumeral(ds)
  {
    assert IsStripped(ds);
    StripOfStripped(ds);
  }

  lemma ParseIntMinus(ds: string)
    requires |ds| >= 1 && AllDigits(ds)
    ensures ParseInt("-" + ds) == Signed('-', ParseNumeral(ds))
  {
    assert ("-" + ds)[1..] == ds;
    assert IsStripped("-" + ds);
    StripOfStripped("-" + ds);
  }

  lemma NumeralOfDigits(ds: string)
    requires |ds| >= 1 && AllDigits(ds) && |ds| <= MAX_STR_DIGITS
    ensures IsNumeral(ds) && NumeralValue(ds) == ValueOf(ds)
    ensures ParseNumeral(ds) == Some(ValueOf(ds))
  {
    assert IsNumeral(ds) by {
      forall j: nat ensures !OccursAt(ds, "__", j) {
        if j + 2 <= |ds| {
          assert ds[j..j + 2][0] == ds[j];
        }
      }
      assert Find(ds, "__") == None;
    }
    assert DropUnderscores(ds) == ds;
  }

  /** An optional sign and a run of digits: the sign applied to their value. */
  lemma {:induction false} ParseSignedNumeral(sign: string, ds: string)
    requires sign == "" || sign == "+" || sign == "-"
    requires |ds| >= 1 && AllDigits(ds) && |ds| <= MAX_STR_DIGITS
    ensures ParseStripped(sign + ds) == Some(if sign == "-" then 0 - ValueOf(ds) else ValueOf(ds))
  {
    NumeralOfDigits(ds);
    ParseSignOf(sign, ds, ValueOf(ds));
  }

  /** An optional sign before a numeral worth `m`: the sign applied to `m`. */
  lemma ParseSignOf(sign: string, b: string, m: nat)
    requires sign == "" || sign == "+" || sign == "-"
    requires ParseNumeral(b) == Some(m)
    ensures ParseStripped(sign + b) == Some(if sign == "-" then 0 - m else m)
  {
    if sign == "" {
      assert sign + b == b;
      StrippedOfUnsigned(b);
    } else {
      StrippedOfSigned(sign, b);
      SignedValue(sign, m);
    }
  }

  /** A one-character sign applied to a magnitude. */
  lemma SignedValue(sign: string, m: nat)
    requires sign == "+" || sign == "-"
    ensures Signed(sign[0], Some(m)) == Some(if sign == "-" then 0 - m else m)
  {
  }

  /** Text that starts with a digit is read as a numeral with no sign. */
  lemma StrippedOfUnsigned(ds: string)
    requires |ds| >= 1 && IsDigit(ds[0])
    ensures ParseStripped("" + ds) == ParseNumeral(ds)
  {
    assert "" + ds == ds;
  }

  /** Text after a one-character sign is read as a numeral, then signed. */
  lemma StrippedOfSigned(sign: string, ds: string)
    requires sign == "+" || sign == "-"
    ensures ParseStripped(sign + ds) == Signed(sign[0], ParseNumeral(ds))
    ensures (sign == "-") == (sign[0] == '-')
  {
    assert (sign + ds)[0] == sign[0] && (sign + ds)[1..] == ds;
  }

  /** `int()` fails on a run of more than `MAX_STR_DIGITS` digits. */
  lemma ParseTooManyDigits(ds: string)
    requires AllDigits(ds) && |ds| > MAX_STR_DIGITS
    ensures ParseInt(ds) == None
  {
    ParseIntStripped(ds);
  }

  /** `int()` fails on a string with no digit in it. */
  lemma ParseIntNeedsDigit(s: string)
    requires forall i :: 0 <= i < |s| ==> !IsDigit(s[i])
    ensures ParseInt(s) == None
  {
    var t := Strip(s);
    StripProperties(s);
    forall i | 0 <= i < |t| ensures !IsDigit(t[i]) {
      assert t[i] in t;
    }
    if t != [] && (t[0] == '-' || t[0] == '+') {
      NoDigitNoNumeral(t[1..]);
    } else {
      NoDigitNoNumeral(t);
    }
  }

  lemma NoDigitNoNumeral(b: string)
    requires forall i :: 0 <= i < |b| ==> !IsDigit(b[i])
    ensures ParseNumeral(b) == None
  {
  }
}
