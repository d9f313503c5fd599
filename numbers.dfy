/**
  Number syntax: the decimal text Go's `%v` prints for integers and floats, and the parts of
  `strconv.ParseInt`, `strconv.ParseUint` (base 0, 64 bits) and `strconv.ParseFloat` that the
  domain parser relies on, restricted to plain decimal (and leading-zero octal) digits.
*/
module Numbers {
  import opened Wrappers
  import opened Strings

  const MaxInt64: int := 0x7FFF_FFFF_FFFF_FFFF
  const MinInt64: int := -0x8000_0000_0000_0000
  const MaxUint64: int := 0xFFFF_FFFF_FFFF_FFFF

  predicate IsDigit(c: char) {
    '0' <= c <= '9'
  }

  /** Every character is a digit below `base`. */
  predicate DigitsIn(s: string, base: nat)
    requires 2 <= base <= 10
  {
    forall i :: 0 <= i < |s| ==> '0' <= s[i] && (s[i] as int) < ('0' as int) + base
  }

  function DigitValue(c: char): nat
    requires IsDigit(c)
  {
    c as int - '0' as int
  }

  function DigitChar(d: nat): (c: char)
    requires d < 10
    ensures IsDigit(c) && DigitValue(c) == d
  {
    ('0' as int + d) as char
  }

  /** The number the digits spell in `base`, most significant first. */
  function DigitsValue(s: string, base: nat): nat
    requires 2 <= base <= 10 && DigitsIn(s, base)
  {
    if s == [] then 0 else DigitsValue(s[..|s| - 1], base) * base + DigitValue(s[|s| - 1])
  }

  function Pow10(k: nat): (p: nat)
    ensures p >= 1
  {
    if k == 0 then 1 else 10 * Pow10(k - 1)
  }

  /** `%v` of an unsigned integer: its decimal digits, without leading zeros. */
  function NatText(n: nat): (s: string)
    ensures |s| >= 1 && DigitsIn(s, 10)
    ensures s[0] == '0' ==> n == 0 && s == "0"
  {
    if n < 10 then [DigitChar(n)] else NatText(n / 10) + [DigitChar(n % 10)]
  }

  /** `%v` of a signed integer. */
  function IntText(i: int): (s: string)
    ensures |s| >= 1 && (s[0] == '-' || IsDigit(s[0]))
  {
    if i < 0 then "-" + NatText(-i) else NatText(i)
  }

  /** Reading the printed digits back gives the number. */
  lemma {:induction false} NatTextValue(n: nat)
    ensures DigitsValue(NatText(n), 10) == n
  {
    var s := NatText(n);
    if n >= 10 {
      NatTextValue(n / 10);
      assert s[..|s| - 1] == NatText(n / 10);
    }
  }

  function Zeros(k: nat): (z: string)
    ensures |z| == k && forall i :: 0 <= i < k ==> z[i] == '0'
  {
    seq(k, _ => '0')
  }

  /** Leading zeros do not change the value of a digit string. */
  lemma {:induction false} LeadingZeros(k: nat, s: string, base: nat)
    requires 2 <= base <= 10 && DigitsIn(s, base)
    ensures DigitsIn(Zeros(k) + s, base)
    ensures DigitsValue(Zeros(k) + s, base) == DigitsValue(s, base)
  {
    var t := Zeros(k) + s;
    if s == [] {
      assert t == Zeros(k);
      ZerosValue(k, base);
    } else {
      assert t[..|t| - 1] == Zeros(k) + s[..|s| - 1];
      LeadingZeros(k, s[..|s| - 1], base);
    }
  }

  lemma {:induction false} ZerosValue(k: nat, base: nat)
    requires 2 <= base <= 10
    ensures DigitsIn(Zeros(k), base) && DigitsValue(Zeros(k), base) == 0
  {
    if k > 0 {
      assert Zeros(k)[..k - 1] == Zeros(k - 1);
      ZerosValue(k - 1, base);
    }
  }

  /**
    The digits `strconv` reads with base 0, restricted to what this model accepts: plain
    decimal, or octal after a leading `0`. The prefixes `0b`, `0o` and `0x` are refused.
  */
  function UnsignedSyntax(s: string): Option<nat> {
    if s == [] then None
    else if s[0] != '0' then
      if DigitsIn(s, 10) then Some(DigitsValue(s, 10)) else None
    else if |s| >= 3 && s[1] in "bBoOxX" then None
    else if DigitsIn(s[1..], 8) then Some(DigitsValue(s[1..], 8))
    else None
  }

  /** `strconv.ParseUint(s, 0, 64)`: no sign, and at most 2^64 - 1. */
  function ParseUint64(s: string): (r: Option<nat>)
    ensures r.Some? ==> r.value <= MaxUint64
  {
    match UnsignedSyntax(s)
    case Some(n) => if n <= MaxUint64 then Some(n) else None
    case None => None
  }

  /** `strconv.ParseInt(s, 0, 64)`: an optional sign, then the unsigned syntax, within 64 bits. */
  function ParseInt64(s: string): (r: Option<int>)
    ensures r.Some? ==> MinInt64 <= r.value <= MaxInt64
  {
    if s == [] then None
    else
      var neg := s[0] == '-';
      var body := if s[0] == '+' || s[0] == '-' then s[1..] else s;
      match UnsignedSyntax(body)
      case None => None
      case Some(u) =>
        if !neg && u <= MaxInt64 then Some(u)
        else if neg && u <= -MinInt64 then Some(-(u as int))
        else None
  }

  lemma UnsignedSyntaxText(n: nat)
    ensures UnsignedSyntax(NatText(n)) == Some(n)
  {
    var s := NatText(n);
    NatTextValue(n);
    if s[0] == '0' {
      assert s == "0";
    }
  }

  /** Every 64-bit unsigned value survives printing and parsing. */
  lemma ParseUint64Text(n: nat)
    requires n <= MaxUint64
    ensures ParseUint64(NatText(n)) == Some(n)
  {
    UnsignedSyntaxText(n);
  }

  /** Every 64-bit signed value survives printing and parsing. */
  lemma ParseInt64Text(i: int)
    requires MinInt64 <= i <= MaxInt64
    ensures ParseInt64(IntText(i)) == Some(i)
  {
    var s := IntText(i);
    if i < 0 {
      UnsignedSyntaxText(-i);
      assert s[0] == '-' && s[1..] == NatText(-i);
    } else {
      UnsignedSyntaxText(i);
      assert s == NatText(i) && IsDigit(s[0]);
    }
  }

  /** The exact decimal `mant / 10^scale`. */
  datatype Decimal = Decimal(mant: int, scale: nat)

  /** No trailing zero after the decimal point: one spelling per number. */
  predicate Canonical(d: Decimal) {
    d.scale == 0 || d.mant % 10 != 0
  }

  /** Drops trailing fractional zeros, keeping the value. */
  function Normalize(d: Decimal): (r: Decimal)
    ensures Canonical(r)
    ensures r.scale <= d.scale && r.mant * Pow10(d.scale - r.scale) == d.mant
    decreases d.scale
  {
    if d.scale > 0 && d.mant % 10 == 0 then
      var r := Normalize(Decimal(d.mant / 10, d.scale - 1));
      assert r.mant * Pow10(d.scale - 1 - r.scale) == d.mant / 10;
      assert Pow10(d.scale - r.scale) == 10 * Pow10(d.scale - 1 - r.scale);
      r
    else d
  }

  lemma NormalizeCanonical(d: Decimal)
    requires Canonical(d)
    ensures Normalize(d) == d
  {
  }

  /**
    `strconv.ParseFloat(s, 64)` restricted to an optional sign, digits, and at most one
    decimal point with at least one digit in all.
  */
  function ParseDecimal(s: string): (r: Option<Decimal>)
    ensures r.Some? ==> Canonical(r.value)
  {
    if s == [] then None
    else
      var neg := s[0] == '-';
      var body := if s[0] == '+' || s[0] == '-' then s[1..] else s;
      match SplitPoint(body)
      case None => None
      case Some(pieces) =>
        var (whole, frac) := pieces;
        if |whole| + |frac| == 0 || !DigitsIn(whole, 10) || !DigitsIn(frac, 10) then None
        else Some(DecimalOf(neg, whole, frac))
  }

  /** The digits before and after the one decimal point, if there is at most one. */
  function SplitPoint(body: string): Option<(string, string)> {
    var parts := Split(body, '.');
    if |parts| > 2 then None
    else if |parts| == 2 then Some((parts[0], parts[1]))
    else Some((parts[0], []))
  }

  function DecimalOf(neg: bool, whole: string, frac: string): Decimal
    requires DigitsIn(whole, 10) && DigitsIn(frac, 10)
  {
    var magnitude := DigitsValue(whole + frac, 10);
    Normalize(Decimal(if neg then -(magnitude as int) else magnitude, |frac|))
  }

  /**
    `%v` of a float holding the decimal `d`: the shortest plain decimal spelling, with a point
    only when there is a fractional part.
  */
  function DecimalText(d: Decimal): (s: string)
    ensures |s| >= 1
  {
    CanonicalText(Normalize(d))
  }

  function CanonicalText(n: Decimal): (s: string)
    requires Canonical(n)
    ensures |s| >= 1
  {
    if n.scale == 0 then IntText(n.mant)
    else PointText(n.mant < 0, PadZeros(NatText(Magnitude(n.mant)), n.scale + 1), n.scale)
  }

  function Magnitude(i: int): nat {
    if i < 0 then -i else i
  }

  /** The digits with a decimal point before the last `scale` of them, after the sign. */
  function PointText(neg: bool, digits: string, scale: nat): string
    requires scale < |digits|
  {
    var cut := |digits| - scale;
    SignText(neg) + (digits[..cut] + "." + digits[cut..])
  }

  /** Left-pads with zeros to at least `width` characters. */
  function PadZeros(s: string, width: nat): (r: string)
    ensures |r| >= width && |r| >= |s|
  {
    Zeros(if |s| >= width then 0 else width - |s|) + s
  }

  function SignText(neg: bool): string {
    if neg then "-" else ""
  }

  lemma ParseDecimalSign(neg: bool, body: string)
    requires body != [] && body[0] != '-' && body[0] != '+'
    ensures ParseDecimal(SignText(neg) + body) == match SplitPoint(body)
      case None => None
      case Some(pieces) =>
        if |pieces.0| + |pieces.1| == 0 || !DigitsIn(pieces.0, 10) || !DigitsIn(pieces.1, 10) then None
        else Some(DecimalOf(neg, pieces.0, pieces.1))
  {
    var s := SignText(neg) + body;
    assert s[0] == if neg then '-' else body[0];
    assert (if s[0] == '+' || s[0] == '-' then s[1..] else s) == body;
  }

  lemma ParseDecimalInteger(neg: bool, whole: string)
    requires |whole| > 0 && DigitsIn(whole, 10)
    ensures ParseDecimal(SignText(neg) + whole) == Some(DecimalOf(neg, whole, []))
  {
    ParseDecimalSign(neg, whole);
    SplitWithout(whole, '.');
  }

  lemma ParseDecimalPoint(neg: bool, digits: string, scale: nat)
    requires DigitsIn(digits, 10) && scale < |digits|
    ensures var cut := |digits| - scale;
      ParseDecimal(PointText(neg, digits, scale)) == Some(DecimalOf(neg, digits[..cut], digits[cut..]))
  {
    var cut := |digits| - scale;
    var whole, frac := digits[..cut], digits[cut..];
    ParseDecimalSign(neg, whole + "." + frac);
    assert '.' !in whole && '.' !in frac;
    SplitAt(whole, '.', frac);
    SplitWithout(frac, '.');
  }

  /** Every decimal survives printing and parsing, up to its canonical spelling. */
  lemma DecimalTextRoundTrip(d: Decimal)
    ensures ParseDecimal(DecimalText(d)) == Some(Normalize(d))
  {
    CanonicalTextRoundTrip(Normalize(d));
  }

  lemma CanonicalTextRoundTrip(n: Decimal)
    requires Canonical(n)
    ensures ParseDecimal(CanonicalText(n)) == Some(n)
  {
    if n.scale == 0 {
      IntegerTextRoundTrip(n);
    } else {
      PointTextRoundTrip(n);
    }
  }

  lemma IntegerTextRoundTrip(n: Decimal)
    requires n.scale == 0
    ensures ParseDecimal(CanonicalText(n)) == Some(n)
  {
    var neg := n.mant < 0;
    var m := Magnitude(n.mant);
    NatTextValue(m);
    NormalizeCanonical(n);
    assert CanonicalText(n) == SignText(neg) + NatText(m);
    ParseDecimalInteger(neg, NatText(m));
    assert NatText(m) + [] == NatText(m);
    assert DecimalOf(neg, NatText(m), []) == Normalize(n);
  }

  lemma PointTextRoundTrip(n: Decimal)
    requires Canonical(n) && n.scale > 0
    ensures ParseDecimal(CanonicalText(n)) == Some(n)
  {
    var neg, m := n.mant < 0, Magnitude(n.mant);
    var digits := PadZeros(NatText(m), n.scale + 1);
    PaddedValue(m, n.scale + 1);
    DecimalOfParts(neg, digits, |digits| - n.scale, n);
    ParseDecimalPoint(neg, digits, n.scale);
    assert CanonicalText(n) == PointText(neg, digits, n.scale);
  }

  /** Digits that spell the magnitude of a canonical decimal, split at its scale, give it back. */
  lemma DecimalOfParts(neg: bool, digits: string, cut: nat, n: Decimal)
    requires Canonical(n) && neg == (n.mant < 0) && cut + n.scale == |digits|
    requires DigitsIn(digits, 10) && DigitsValue(digits, 10) == Magnitude(n.mant)
    ensures DigitsIn(digits[..cut], 10) && DigitsIn(digits[cut..], 10)
    ensures DecimalOf(neg, digits[..cut], digits[cut..]) == n
  {
    assert digits[..cut] + digits[cut..] == digits;
    NormalizeCanonical(n);
  }

  /** Left-padding with zeros keeps the digits spelling `m`. */
  lemma PaddedValue(m: nat, width: nat)
    ensures DigitsIn(PadZeros(NatText(m), width), 10)
    ensures DigitsValue(PadZeros(NatText(m), width), 10) == m
  {
    var text := NatText(m);
    var k := if |text| >= width then 0 else width - |text|;
    assert PadZeros(text, width) == Zeros(k) + text;
    LeadingZeros(k, text, 10);
    NatTextValue(m);
  }
}
