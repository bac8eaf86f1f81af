/**
 * The two ends of the serial link together: the line the board writes for
 * a distance, received by the host in one read, is cut into exactly one
 * line and parsed back to the distance rounded to hundredths.
 */
module Pipeline {
  import opened Wrappers
  import opened Text
  import opened Decimal
  import opened LineEncoder
  import opened LineParser
  import opened Framing
  import SerialPort
  import EchoTiming

  /** The report line without its line feed holds no line feed itself. */
  lemma BodyFree(f: seq<char>)
    requires '\n' !in f
    ensures '\n' !in "D:" + f + "\r"
  {
    var body := "D:" + f + "\r";
    forall i | 0 <= i < |body|
      ensures body[i] != '\n'
    {
      if 2 <= i < 2 + |f| {
        assert body[i] == f[i - 2];
      }
    }
  }

  /** The report line frames as one complete line, the text before its line
      feed, with nothing left buffered. */
  lemma {:induction false} ReportFramesAsOneLine(d: real)
    ensures var line := EncodeLine(d);
      Frames(line).lines == [line[..|line| - 1]] && Frames(line).rest == []
  {
    var f := FormatFixed2(d);
    var body := "D:" + f + "\r";
    FormatHasNoSeparators(d);
    BodyFree(f);
    assert Joined([body]) == body + "\n" + Joined([]);
    assert EncodeLine(d) == Joined([body]) + [];
    FramesUnique([body], []);
    assert EncodeLine(d)[..|EncodeLine(d)| - 1] == body;
  }

  /** A report line is parsed as its value alone: the trailing carriage
      return is trimmed and the "D" label ignored. */
  lemma ReportBodyParses(f: seq<char>)
    requires f != [] && ':' !in f && !IsSpace(f[|f| - 1])
    ensures ParseLine("D:" + f + "\r") == Accept(ToDouble(f))
  {
    var text := "D:" + f;
    assert "D:" == "D" + ":";
    assert text == "D" + ":" + f;
    assert text[0] == 'D' && text[|text| - 1] == f[|f| - 1];
    LabelIgnored("D", f);
    TrailingSpaceIgnored(text, '\r');
  }

  /** The numeral of h hundredths is a report value: no ':', a digit last,
      and it reads back as h / 100. */
  lemma Fixed2Reportable(h: nat)
    ensures Fixed2(h) != [] && ':' !in Fixed2(h) && !IsSpace(Fixed2(h)[|Fixed2(h)| - 1])
    ensures ToDouble(Fixed2(h)).Some? && ToDouble(Fixed2(h)).value == h as real / 100.0
  {
    Fixed2Plain(h);
    DigitIsPlain(DigitChar(h % 10));
    ReadsBackFixed2(h);
  }

  lemma NonNegative(h: nat)
    ensures MinDistance <= h as real / 100.0
  {
  }

  /** The report line body of h hundredths, up to 500 cm, parses back to h / 100. */
  lemma Fixed2ReportParses(h: nat)
    requires h as real / 100.0 <= MaxDistance
    ensures ParseLine("D:" + Fixed2(h) + "\r").Some?
    ensures ParseLine("D:" + Fixed2(h) + "\r").value == h as real / 100.0
  {
    Fixed2Reportable(h);
    NonNegative(h);
    ReportBodyParses(Fixed2(h));
  }

  /** Rounding a distance of at most 400 cm stays below the host's limit. */
  lemma RoundedInRange(d: real)
    requires 0.0 <= d <= 400.0
    ensures Hundredths(d) as real / 100.0 <= MaxDistance
  {
  }

  /** The report line body of h hundredths, up to 500 cm, emits h / 100 alone. */
  lemma ReportLineEmits(h: nat, body: seq<char>)
    requires h as real / 100.0 <= MaxDistance
    requires body == "D:" + Fixed2(h) + "\r"
    ensures |SerialPort.Emissions([body])| == 1
    ensures SerialPort.Emissions([body])[0] == h as real / 100.0
  {
    Fixed2ReportParses(h);
    SerialPort.EmitsParsed(body);
  }

  /** A distance from 0 to 400 cm, sent in one report line and delivered to
      the host in one read, is emitted by the host exactly once, as h / 100
      with h its rounding to hundredths, and leaves nothing buffered. */
  lemma ReportReachesHost(d: real) returns (h: nat)
    requires 0.0 <= d <= 400.0
    ensures h == Hundredths(d)
    ensures var line := EncodeLine(d);
      && |line| < 32
      && Frames(line).rest == []
      && |SerialPort.Emissions(Frames(line).lines)| == 1
      && SerialPort.Emissions(Frames(line).lines)[0] == h as real / 100.0
    ensures d - 0.005 < h as real / 100.0 <= d + 0.005
  {
    h := Hundredths(d);
    var line := EncodeLine(d);
    EncodedLineFits(d);
    ReportFramesAsOneLine(d);
    RoundedInRange(d);
    EncodedBody(d);
    FormatNonNegative(d);
    ReportLineEmits(h, line[..|line| - 1]);
  }

  /** Every distance measureDistance returns reaches the host intact, as its
      rounding to hundredths, within half a hundredth of what the board computed. */
  lemma MeasurementReachesHost(o: EchoTiming.Outcome) returns (h: nat)
    ensures var line := EncodeLine(EchoTiming.Result(o));
      && |line| < 32
      && Frames(line).rest == []
      && |SerialPort.Emissions(Frames(line).lines)| == 1
      && SerialPort.Emissions(Frames(line).lines)[0] == h as real / 100.0
    ensures EchoTiming.Result(o) - 0.005 < h as real / 100.0 <= EchoTiming.Result(o) + 0.005
  {
    h := ReportReachesHost(EchoTiming.Result(o));
  }
}
