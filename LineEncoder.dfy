/**
 * The board's output line, sprintf("D:%.2f\r\n", distance): the value is
 * rounded to hundredths and written with at least one integer digit, a
 * point and exactly two decimals, behind the "D:" label and before CR LF.
 */
module LineEncoder {
  import opened Wrappers
  import opened Text
  import opened Decimal

  /** A non-negative magnitude rounded to the nearest hundredth (halves up),
      counted in hundredths: the printed value is within half a hundredth. */
  function Hundredths(m: real): (h: nat)
    requires m >= 0.0
    ensures h as real / 100.0 - 0.005 <= m < h as real / 100.0 + 0.005
  {
    (m * 100.0 + 0.5).Floor
  }

  /** The "%.2f" numeral of h hundredths: integer part, point, two decimals. */
  function Fixed2(h: nat): (r: seq<char>)
    ensures |r| >= 4 && AllDigits(r[..|r| - 3]) && r[|r| - 3] == '.'
    ensures IsDigit(r[|r| - 2]) && IsDigit(r[|r| - 1])
  {
    NatDigits(h / 100) + ['.', DigitChar(h % 100 / 10), DigitChar(h % 10)]
  }

  /** The "%.2f" text of a value: a minus sign in front of negative values. */
  function FormatFixed2(d: real): (r: seq<char>)
    ensures r != [] && (r[0] == '-' <==> d < 0.0)
  {
    if d < 0.0 then ['-'] + Fixed2(Hundredths(-d)) else Fixed2(Hundredths(d))
  }

  /** The bytes sendDistanceToPC hands to the UART. */
  function EncodeLine(d: real): (r: seq<char>)
    ensures |r| >= 8 && r[0] == 'D' && r[1] == ':'
    ensures r[|r| - 2] == '\r' && r[|r| - 1] == '\n'
  {
    "D:" + FormatFixed2(d) + "\r\n"
  }

  /** The line without its final line feed: label, value, carriage return. */
  lemma EncodedBody(d: real)
    ensures EncodeLine(d)[..|EncodeLine(d)| - 1] == "D:" + FormatFixed2(d) + "\r"
  {
  }

  /** A value that is not negative is printed as its rounded numeral alone. */
  lemma FormatNonNegative(d: real)
    requires 0.0 <= d
    ensures FormatFixed2(d) == Fixed2(Hundredths(d))
  {
  }

  /** The numeral of h hundredths reads back as exactly h / 100. */
  lemma ReadsBackFixed2(h: nat)
    ensures ToDouble(Fixed2(h)).Some? && ToDouble(Fixed2(h)).value == h as real / 100.0
  {
    var q := h / 100;
    var r := h % 100;
    assert r == (r / 10) * 10 + r % 10;
    assert r % 10 == h % 10;
    assert h == q * 100 + (r / 10) * 10 + h % 10;
    ReadsFixed2(NatDigits(q), DigitChar(r / 10), DigitChar(h % 10), h);
  }

  /** The numeral holds neither a line feed nor a label separator, and ends
      in a digit. */
  lemma Fixed2Plain(h: nat)
    ensures '\n' !in Fixed2(h) && ':' !in Fixed2(h) && '=' !in Fixed2(h)
    ensures Fixed2(h)[|Fixed2(h)| - 1] == DigitChar(h % 10)
  {
    var s := Fixed2(h);
    var ip := NatDigits(h / 100);
    forall i | 0 <= i < |s|
      ensures s[i] != '\n' && s[i] != ':' && s[i] != '='
    {
      if i < |ip| {
        assert s[i] == ip[i];
      }
    }
  }

  /** The formatted value holds neither a line feed nor a label separator. */
  lemma FormatHasNoSeparators(d: real)
    ensures '\n' !in FormatFixed2(d) && ':' !in FormatFixed2(d) && '=' !in FormatFixed2(d)
  {
    Fixed2Plain(Hundredths(if d < 0.0 then -d else d));
  }

  /** A text without line feeds, closed by one, has its only line feed last. */
  lemma LineFeedLast(body: seq<char>)
    requires '\n' !in body
    ensures IndexOf(body + "\n", '\n') == |body|
    ensures Occurrences(body + "\n", '\n') == 1
  {
    OccurrencesAppend(body, "\n", '\n');
    assert (body + "\n")[..|body|] == body;
  }

  /** "D:" followed by text without ':' holds exactly one ':'. */
  lemma LabelOnce(f: seq<char>)
    requires ':' !in f
    ensures Occurrences("D:" + f + "\r\n", ':') == 1
  {
    OccurrencesAppend("D:", f, ':');
    OccurrencesAppend("D:" + f, "\r\n", ':');
    assert Occurrences("D:", ':') == 1;
  }

  /** The encoded line carries exactly one line feed, as its last byte after a
      carriage return, and exactly one ':' label separator, after the 'D'. */
  lemma {:induction false} EncodedLineShape(d: real)
    ensures var line := EncodeLine(d);
      && |line| >= 2 && line[|line| - 1] == '\n' && line[|line| - 2] == '\r'
      && IndexOf(line, '\n') == |line| - 1 && Occurrences(line, '\n') == 1
      && line[..2] == "D:" && Occurrences(line, ':') == 1
  {
    var f := FormatFixed2(d);
    FormatHasNoSeparators(d);
    var body := "D:" + f + "\r";
    assert EncodeLine(d) == body + "\n";
    LineFeedLast(body);
    LabelOnce(f);
  }

  /** Every distance the board can measure, 0 or 2 to 400 cm, is encoded in
      at most 10 bytes, well inside the 32-byte sprintf buffer. */
  lemma EncodedLineFits(d: real)
    requires 0.0 <= d <= 400.0
    ensures |EncodeLine(d)| <= 10
  {
    var h := Hundredths(d);
    assert h <= 40000;
    NatDigitsLength(h / 100, 3);
  }
}
