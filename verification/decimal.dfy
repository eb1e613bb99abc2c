/** The string encoding of arbitrary-precision numbers kept in text columns:
    `*big.Int` and `*big.Rat` values are written with their `String` form and
    a nil pointer is written as the empty string. Reading back uses
    `big.Int.SetString(s, 0)`, whose base-0 prefix rules are modelled here. */
module Decimal {
  import opened Wrappers

  /** The character of a decimal digit. */
  function DigitChar(d: nat): (c: char)
    requires d < 10
    ensures '0' <= c <= '9'
  {
    ('0' as int + d) as char
  }

  /** The value of a digit character, as the big.Int scanner reads it in bases up to 16. */
  function DigitValue(c: char): Option<nat> {
    if '0' <= c <= '9' then Some(c as int - '0' as int)
    else if 'a' <= c <= 'f' then Some(c as int - 'a' as int + 10)
    else if 'A' <= c <= 'F' then Some(c as int - 'A' as int + 10)
    else None
  }

  predicate IsDigitIn(c: char, base: nat) {
    DigitValue(c).Some? && DigitValue(c).value < base
  }

  /** A non-empty run of digits of `base`, most significant first. */
  function ParseDigits(s: string, base: nat): (r: Option<nat>)
    requires 2 <= base <= 16
    ensures r.Some? <==> |s| > 0 && forall i :: 0 <= i < |s| ==> IsDigitIn(s[i], base)
    decreases |s|
  {
    if |s| == 0 then None
    else
      var d := DigitValue(s[|s| - 1]);
      if d.None? || d.value >= base then None
      else if |s| == 1 then Some(d.value)
      else
        match ParseDigits(s[..|s| - 1], base)
        case None => None
        case Some(v) => Some(v * base + d.value)
  }

  /** The unsigned part of `SetString(s, 0)`: a `0x`, `0b` or `0o` prefix selects
      base 16, 2 or 8, a bare leading `0` followed by more digits selects base 8,
      and anything else is decimal. The whole string must be consumed. */
  function ParseUnsignedBase0(s: string): Option<nat> {
    if |s| >= 2 && s[0] == '0' && (s[1] == 'x' || s[1] == 'X') then ParseDigits(s[2..], 16)
    else if |s| >= 2 && s[0] == '0' && (s[1] == 'b' || s[1] == 'B') then ParseDigits(s[2..], 2)
    else if |s| >= 2 && s[0] == '0' && (s[1] == 'o' || s[1] == 'O') then ParseDigits(s[2..], 8)
    else if |s| >= 2 && s[0] == '0' then ParseDigits(s[1..], 8)
    else ParseDigits(s, 10)
  }

  /** `new(big.Int).SetString(s, 0)`: an optional sign, then the unsigned form. */
  function ParseBase0(s: string): Option<int> {
    if |s| > 0 && (s[0] == '-' || s[0] == '+') then
      match ParseUnsignedBase0(s[1..])
      case None => None
      case Some(v) => var n: int := v; Some(if s[0] == '-' then -n else n)
    else
      match ParseUnsignedBase0(s)
      case None => None
      case Some(v) => Some(v)
  }

  /** The text `big.Int.String` produces: an optional minus, then decimal digits with
      no leading zero, except the number zero itself, which is "0" and never "-0". */
  predicate CanonicalDecimal(s: string) {
    var digits := if |s| > 0 && s[0] == '-' then s[1..] else s;
    && |digits| > 0
    && (forall i :: 0 <= i < |digits| ==> '0' <= digits[i] <= '9')
    && (digits[0] == '0' ==> s == "0")
  }

  /** The base-10 digits of a natural number. */
  function NatToDecimal(n: nat): (s: string)
    ensures |s| > 0
    ensures forall i :: 0 <= i < |s| ==> '0' <= s[i] <= '9'
    ensures s[0] == '0' <==> s == "0"
    ensures s == "0" <==> n == 0
    decreases n
  {
    if n < 10 then [DigitChar(n)]
    else NatToDecimal(n / 10) + [DigitChar(n % 10)]
  }

  /** `big.Int.String`: base 10 with a leading minus for negative values. */
  function IntToDecimal(n: int): (s: string)
    ensures CanonicalDecimal(s)
    ensures |s| > 0 && (s[0] == '-' <==> n < 0)
  {
    if n < 0 then "-" + NatToDecimal(-n) else NatToDecimal(n)
  }

  /** Reading the digits of `n` in base 10 gives back `n`. */
  lemma {:induction false} NatDigitsRoundTrip(n: nat)
    ensures ParseDigits(NatToDecimal(n), 10) == Some(n)
    decreases n
  {
    if n >= 10 {
      var s := NatToDecimal(n);
      assert s[..|s| - 1] == NatToDecimal(n / 10);
      NatDigitsRoundTrip(n / 10);
    }
  }

  /** No base prefix can be seen in the digits of a natural number, so the
      base-0 reader takes them as decimal. */
  lemma NatBase0RoundTrip(n: nat)
    ensures ParseUnsignedBase0(NatToDecimal(n)) == Some(n)
  {
    NatDigitsRoundTrip(n);
  }

  /** The integer round trip the row conversion relies on: what `big.Int.String`
      writes, `SetString(·, 0)` reads back as the same integer. */
  lemma IntBase0RoundTrip(n: int)
    ensures ParseBase0(IntToDecimal(n)) == Some(n)
  {
    var s := IntToDecimal(n);
    if n < 0 {
      var d := NatToDecimal(-n);
      assert s == "-" + d && s[1..] == d;
      NatBase0RoundTrip(-n);
      assert ParseUnsignedBase0(s[1..]) == Some(-n);
    } else {
      NatBase0RoundTrip(n);
      assert s == NatToDecimal(n) && s[0] != '-' && s[0] != '+';
    }
  }

  /** Why the canonical form matters: base-0 reading takes a leading zero as an octal prefix. */
  lemma LeadingZeroReadsAsOctal()
    ensures ParseBase0("010") == Some(8)
    ensures ParseBase0("08") == None
  {
    assert "010"[1..] == "10";
    assert "10"[..1] == "1";
    assert "08"[1..] == "8";
  }

  /** `s` is the text column for the optional integer `v`: exactly "" for nil, and
      otherwise canonical decimal text that base-0 reading returns as the value. */
  predicate EncodesBigInt(s: string, v: Option<int>) {
    && (v.None? <==> s == "")
    && (v.Some? ==> CanonicalDecimal(s) && ParseBase0(s) == v)
  }

  /** `getBigIntString`: nil is written as "", a value as its decimal text. */
  function GetBigIntString(v: Option<int>): (s: string)
    ensures EncodesBigInt(s, v)
  {
    match v
    case None => ""
    case Some(n) => IntBase0RoundTrip(n); IntToDecimal(n)
  }

  /** `SetString("", 0)` reports failure: the empty string is no number in any base. */
  lemma EmptyIsNoNumber()
    ensures ParseBase0("") == None
  {
  }

  /** Distinct `*big.Int` values, nil included, are written as distinct strings. */
  lemma GetBigIntStringInjective(a: Option<int>, b: Option<int>)
    requires GetBigIntString(a) == GetBigIntString(b)
    ensures a == b
  {
  }

  type Denominator = d: int | d >= 1 witness 1

  /** A `big.Rat`: a numerator over a positive denominator. */
  datatype Rat = Rat(num: int, den: Denominator)

  /** `big.Rat.String`: always the fraction form "a/b", even when b is 1. */
  function RatToString(r: Rat): string {
    IntToDecimal(r.num) + "/" + NatToDecimal(r.den)
  }

  /** `getRatString`: nil is written as "", a value as its fraction text. */
  function GetRatString(v: Option<Rat>): (s: string)
    ensures v.None? <==> s == ""
    ensures v.Some? ==> SplitFraction(s) == Some(v.value)
    ensures v.Some? ==>
      var k := SlashIndex(s);
      && k < |s|
      && EncodesBigInt(s[..k], Some(v.value.num))
      && EncodesBigInt(s[k + 1..], Some(v.value.den))
  {
    match v
    case None => ""
    case Some(r) => RatRoundTrip(r); IntBase0RoundTrip(r.den); RatToString(r)
  }

  /** The position of the first '/' in `s`, or `|s|` when there is none. */
  function SlashIndex(s: string): (k: nat)
    ensures k <= |s|
    ensures k < |s| ==> s[k] == '/'
    ensures forall i :: 0 <= i < k ==> s[i] != '/'
    decreases |s|
  {
    if |s| == 0 || s[0] == '/' then 0 else 1 + SlashIndex(s[1..])
  }

  /** The fraction-form reading of a rational: a signed base-0 numerator, a '/', and
      an unsigned base-0 denominator that is not zero. Normalisation is not modelled. */
  function SplitFraction(s: string): Option<Rat> {
    var k := SlashIndex(s);
    if k == |s| then None
    else
      match (ParseBase0(s[..k]), ParseUnsignedBase0(s[k + 1..]))
      case (Some(a), Some(b)) => if b >= 1 then Some(Rat(a, b)) else None
      case _ => None
  }

  /** The fraction text of a rational reads back as the same numerator and denominator. */
  lemma RatRoundTrip(r: Rat)
    ensures SplitFraction(RatToString(r)) == Some(r)
  {
    var a := IntToDecimal(r.num);
    var b := NatToDecimal(r.den);
    var s := RatToString(r);
    assert s[|a|] == '/';
    assert forall i :: 0 <= i < |a| ==> s[i] == a[i] && a[i] != '/';
    var k := SlashIndex(s);
    assert k == |a|;
    assert s[..k] == a;
    assert s[k + 1..] == b;
    IntBase0RoundTrip(r.num);
    NatBase0RoundTrip(r.den);
  }
}
