/**
 * QString::toDouble, restricted to the decimal notation it accepts:
 * surrounding whitespace is ignored, then an optional sign, digits with
 * at most one decimal point (at least one digit overall), and an optional
 * exponent introduced by 'e' or 'E'. Values are exact reals.
 */
module Decimal {
  import opened Wrappers
  import opened Text

  /** A minus sign: the ASCII hyphen-minus, or U+2212 MINUS SIGN, which Qt's
      number reader maps to '-' in every locale. */
  predicate IsMinus(c: char)
  {
    c == '-' || c == '\U{2212}'
  }

  predicate IsSign(c: char)
  {
    c == '+' || IsMinus(c)
  }

  /** The characters a decimal number may consist of. */
  predicate NumberChar(c: char)
  {
    IsDigit(c) || c == '.' || IsSign(c) || c == 'e' || c == 'E'
  }

  predicate NumberChars(s: seq<char>)
  {
    forall i :: 0 <= i < |s| ==> NumberChar(s[i])
  }

  lemma DigitsAreNumberChars(s: seq<char>)
    requires AllDigits(s)
    ensures NumberChars(s)
  {
  }

  /** A text is made of number characters when the parts around position k are. */
  lemma NumberCharsAround(t: seq<char>, k: nat)
    requires k < |t| && NumberChars(t[..k]) && NumberChar(t[k]) && NumberChars(t[k + 1..])
    ensures NumberChars(t)
  {
    forall i | 0 <= i < |t|
      ensures NumberChar(t[i])
    {
      if i < k {
        assert t[i] == t[..k][i];
      } else if i > k {
        assert t[i] == t[k + 1..][i - k - 1];
      }
    }
  }

  /** The value of the digits fp read after a decimal point: each digit
      counts a tenth of the one before it. */
  function Fraction(fp: seq<char>): (r: real)
    requires AllDigits(fp)
    ensures 0.0 <= r
  {
    if fp == [] then 0.0 else (DigitValue(fp[0]) as real + Fraction(fp[1..])) / 10.0
  }

  /** The value of the digits ip "." fp. */
  function FixedValue(ip: seq<char>, fp: seq<char>): real
    requires AllDigits(ip) && AllDigits(fp)
  {
    DigitsValue(ip) as real + Fraction(fp)
  }

  /** Digits with at most one decimal point and at least one digit. */
  function Mantissa(t: seq<char>): (r: Option<real>)
    ensures r.Some? ==> r.value >= 0.0
    ensures r.Some? ==> t != [] && NumberChars(t)
  {
    var p := IndexOf(t, '.');
    var ip := if p < 0 then t else t[..p];
    var fp := if p < 0 then [] else t[p + 1..];
    if AllDigits(ip) && AllDigits(fp) && |ip| + |fp| > 0 then
      if p < 0 then
        DigitsAreNumberChars(t);
        Some(FixedValue(ip, fp))
      else
        DigitsAreNumberChars(ip);
        DigitsAreNumberChars(fp);
        NumberCharsAround(t, p);
        Some(FixedValue(ip, fp))
    else None
  }

  /** An exponent: an optional sign followed by at least one digit. */
  function Exponent(t: seq<char>): (r: Option<int>)
    ensures r.Some? ==> NumberChars(t)
  {
    if t != [] && IsSign(t[0]) then
      if t[1..] != [] && AllDigits(t[1..]) then
        var n: int := DigitsValue(t[1..]);
        Some(if IsMinus(t[0]) then -n else n)
      else None
    else if t != [] && AllDigits(t) then Some(DigitsValue(t))
    else None
  }

  /** m * 10^x, one power of ten at a time. */
  function Scale(m: real, x: int): (r: real)
    ensures 0.0 <= m ==> 0.0 <= r
    decreases if x < 0 then -x else x
  {
    if x == 0 then m
    else if x > 0 then Scale(m * 10.0, x - 1)
    else Scale(m / 10.0, x + 1)
  }

  predicate IsExponentMarker(c: char)
  {
    c == 'e' || c == 'E'
  }

  /** The position of the first exponent marker, or -1. */
  function MarkerAt(t: seq<char>): (r: int)
    ensures -1 <= r < |t|
    ensures r == -1 ==> forall i :: 0 <= i < |t| ==> !IsExponentMarker(t[i])
    ensures r >= 0 ==> IsExponentMarker(t[r]) && forall i :: 0 <= i < r ==> !IsExponentMarker(t[i])
  {
    if t == [] then -1
    else if IsExponentMarker(t[0]) then 0
    else
      var k := MarkerAt(t[1..]);
      if k < 0 then -1 else k + 1
  }


  /** An unsigned number: a mantissa, then optionally an exponent. */
  function Unsigned(t: seq<char>): (r: Option<real>)
    ensures r.Some? ==> r.value >= 0.0
    ensures r.Some? ==> t != [] && NumberChars(t)
  {
    var e := MarkerAt(t);
    if e < 0 then Mantissa(t)
    else
      var m := Mantissa(t[..e]);
      var x := Exponent(t[e + 1..]);
      if m.Some? && x.Some? then
        NumberCharsAround(t, e);
        Some(Scale(m.value, x.value))
      else None
  }

  /** The decimal grammar of QString::toDouble: surrounding whitespace, an
      optional sign, then an unsigned number. None when the text is not one. */
  function Numeral(s: seq<char>): (r: Option<real>)
    ensures r.Some? ==> Trimmed(s) != [] && NumberChars(Trimmed(s))
  {
    var t := Trimmed(s);
    if t != [] && IsSign(t[0]) then
      match Unsigned(t[1..])
      case Some(v) => Some(if IsMinus(t[0]) then -v else v)
      case None => None
    else Unsigned(t)
  }

  /** A non-zero value of magnitude at most 2^-1075, half the smallest
      positive double, rounds to zero: its conversion underflows. The
      divisor below is 2^1075. */
  predicate Underflows(v: real)
  {
    v != 0.0 && -1.0 / 404804506614621236704990693437834614099113299528284236713802716054860679135990693783920767402874248990374155728633623822779617474771586953734026799881477019843034848553132722728933815484186432682479535356945490137124014966849385397236206711298319112681620113024717539104666829230461005064372655017292012526615415482186989568.0 <= v <= 1.0 / 404804506614621236704990693437834614099113299528284236713802716054860679135990693783920767402874248990374155728633623822779617474771586953734026799881477019843034848553132722728933815484186432682479535356945490137124014966849385397236206711298319112681620113024717539104666829230461005064372655017292012526615415482186989568.0
  }

  /** Whole numbers and hundredths are far from the underflow range. */
  lemma HundredthsDoNotUnderflow(n: nat)
    ensures !Underflows(n as real) && !Underflows(n as real / 100.0)
  {
  }

  /** QString::toDouble with its success flag: a numeral is read as its
      value, unless that value underflows, which is reported as a failure. */
  function ToDouble(s: seq<char>): (r: Option<real>)
    ensures r.Some? ==> Trimmed(s) != [] && NumberChars(Trimmed(s))
    ensures r.Some? <==> Numeral(s).Some? && !Underflows(Numeral(s).value)
    ensures r.Some? ==> r.value == Numeral(s).value
  {
    match Numeral(s)
    case Some(v) => if Underflows(v) then None else Some(v)
    case None => None
  }

  /** A text holding a character no number can contain (a letter other than
      an exponent marker, a second separator, inner whitespace) is rejected. */
  lemma RejectsForeignCharacter(s: seq<char>, k: nat)
    requires k < |Trimmed(s)| && !NumberChar(Trimmed(s)[k])
    ensures ToDouble(s) == None
  {
  }

  /** A leading minus sign gives a negative (or zero) value. */
  lemma MinusIsNonPositive(s: seq<char>)
    requires Trimmed(s) != [] && IsMinus(Trimmed(s)[0]) && ToDouble(s).Some?
    ensures ToDouble(s).value <= 0.0
  {
  }

  /** An unsigned text without exponent or surrounding whitespace is read as its mantissa. */
  lemma ReadsAsMantissa(t: seq<char>)
    requires t != [] && Trimmed(t) == t && MarkerAt(t) == -1
    requires !IsSign(t[0])
    ensures Numeral(t) == Mantissa(t)
  {
    assert Unsigned(t) == Mantissa(t);
  }

  /** A run of digits is read as the number it denotes. */
  lemma MantissaOfDigits(t: seq<char>)
    requires t != [] && AllDigits(t)
    ensures Mantissa(t) == Some(DigitsValue(t) as real)
  {
    assert IndexOf(t, '.') == -1;
  }

  /** A run of digits is an unsigned number denoting its digits' value. */
  lemma UnsignedDigits(d: seq<char>)
    requires d != [] && AllDigits(d)
    ensures Unsigned(d).Some? && Unsigned(d).value == DigitsValue(d) as real
  {
    forall i | 0 <= i < |d|
      ensures !IsExponentMarker(d[i])
    {
      DigitIsPlain(d[i]);
    }
    assert MarkerAt(d) == -1;
    MantissaOfDigits(d);
  }

  /** A trimmed signed text is read as its unsigned part, negated after a minus. */
  lemma ReadsSigned(t: seq<char>, v: real)
    requires t != [] && Trimmed(t) == t && IsSign(t[0])
    requires Unsigned(t[1..]).Some? && Unsigned(t[1..]).value == v && !Underflows(v)
    ensures ToDouble(t).Some?
    ensures ToDouble(t).value == if IsMinus(t[0]) then -v else v
  {
  }

  /** The numeral of a natural number reads back as that number. */
  lemma {:induction false} ReadsNatural(n: nat)
    ensures ToDouble(NatDigits(n)) == Some(n as real)
  {
    var t := NatDigits(n);
    TrimmedNoop(t);
    assert MarkerAt(t) == -1;
    ReadsAsMantissa(t);
    MantissaOfDigits(t);
    HundredthsDoNotUnderflow(n);
  }

  /** Two decimals after the point denote hundredths. */
  lemma FixedValue2(ip: seq<char>, d1: char, d2: char, n: nat)
    requires AllDigits(ip) && IsDigit(d1) && IsDigit(d2)
    requires n == DigitsValue(ip) * 100 + DigitValue(d1) * 10 + DigitValue(d2)
    ensures FixedValue(ip, [d1, d2]) == n as real / 100.0
  {
    assert [d1, d2][1..] == [d2];
    assert [d2][1..] == [];
    assert Fraction([d2]) == DigitValue(d2) as real / 10.0;
  }

  /** A fixed-point numeral with two decimals is split at its point. */
  lemma {:induction false} MantissaFixed2(ip: seq<char>, d1: char, d2: char)
    requires AllDigits(ip) && IsDigit(d1) && IsDigit(d2)
    ensures Mantissa(ip + ['.', d1, d2]) == Some(FixedValue(ip, [d1, d2]))
  {
    var t := ip + ['.', d1, d2];
    assert t[..|ip|] == ip;
    assert IndexOf(t, '.') == |ip|;
    assert t[|ip| + 1..] == [d1, d2];
  }

  lemma NoMarkerInFixed2(ip: seq<char>, d1: char, d2: char)
    requires AllDigits(ip) && IsDigit(d1) && IsDigit(d2)
    ensures MarkerAt(ip + ['.', d1, d2]) == -1
  {
    var t := ip + ['.', d1, d2];
    forall i | 0 <= i < |t|
      ensures !IsExponentMarker(t[i])
    {
      if i < |ip| {
        assert t[i] == ip[i];
      }
    }
  }

  /** A digit is neither whitespace, a sign, a point nor an exponent marker. */
  lemma DigitIsPlain(c: char)
    requires IsDigit(c)
    ensures !IsSpace(c) && !IsSign(c) && c != '.' && !IsExponentMarker(c)
  {
  }

  /** A fixed-point numeral has no surrounding whitespace, no exponent and no sign. */
  lemma Fixed2Shape(ip: seq<char>, d1: char, d2: char)
    requires ip != [] && AllDigits(ip) && IsDigit(d1) && IsDigit(d2)
    ensures var t := ip + ['.', d1, d2];
      && t != [] && Trimmed(t) == t && MarkerAt(t) == -1
      && !IsSign(t[0])
  {
    var t := ip + ['.', d1, d2];
    DigitIsPlain(ip[0]);
    DigitIsPlain(d2);
    assert t[0] == ip[0] && t[|t| - 1] == d2;
    TrimmedNoop(t);
    NoMarkerInFixed2(ip, d1, d2);
  }

  /** A fixed-point numeral with two decimals reads back as the exact number
      n of hundredths its digits spell. */
  lemma ReadsFixed2(ip: seq<char>, d1: char, d2: char, n: nat)
    requires ip != [] && AllDigits(ip) && IsDigit(d1) && IsDigit(d2)
    requires n == DigitsValue(ip) * 100 + DigitValue(d1) * 10 + DigitValue(d2)
    ensures ToDouble(ip + ['.', d1, d2]).Some?
    ensures ToDouble(ip + ['.', d1, d2]).value == n as real / 100.0
  {
    FixedValue2(ip, d1, d2, n);
    Fixed2Shape(ip, d1, d2);
    ReadsAsMantissa(ip + ['.', d1, d2]);
    MantissaFixed2(ip, d1, d2);
    HundredthsDoNotUnderflow(n);
  }
}
