/**
 * SerialPortHandler::parseLine: one received line yields at most one
 * distance. The trimmed text is read as "label:number", else as
 * "label=number", else as a bare number, and the number is passed on only
 * when it lies between 0 and 500.
 */
module LineParser {
  import opened Wrappers
  import opened Text
  import opened Decimal

  /** The lowest and highest distance the host passes on. */
  const MinDistance: real := 0.0
  const MaxDistance: real := 500.0

  /** The value in a "label<sep>number" text. A text that does not split into
      exactly two parts leaves the distance at its initial -1.0; a value
      part that is not a number ends parsing (None). */
  function Field(text: seq<char>, sep: char): (r: Option<real>)
    ensures Occurrences(text, sep) != 1 ==> r.Some? && r.value == -1.0
    ensures Occurrences(text, sep) == 1 ==> r == ToDouble(text[IndexOf(text, sep) + 1..])
  {
    SplitInTwo(text, sep);
    var parts := Split(text, sep);
    if |parts| == 2 then ToDouble(parts[1]) else Some(-1.0)
  }

  /** The distance the three grammars give, tried in their fixed order, or
      None when parsing stops before the range check. */
  function Candidate(text: seq<char>): (r: Option<real>)
    ensures ':' in text && (r.None? || r.value != -1.0) ==> Occurrences(text, ':') == 1
    ensures ':' !in text && '=' in text && (r.None? || r.value != -1.0) ==> Occurrences(text, '=') == 1
  {
    if ':' in text then Field(text, ':')
    else if '=' in text then Field(text, '=')
    else ToDouble(text)
  }

  /** A number that made it to the range check, passed on only when in range. */
  function Accept(v: Option<real>): (r: Option<real>)
    ensures r.Some? <==> v.Some? && MinDistance <= v.value <= MaxDistance
    ensures r.Some? ==> r == v
  {
    if v.Some? && MinDistance <= v.value <= MaxDistance then v else None
  }

  /** The distance emitted for one line, if any: it always lies in
      [0, 500], and a blank line emits nothing. */
  function ParseLine(line: seq<char>): (r: Option<real>)
    ensures r.Some? ==> MinDistance <= r.value <= MaxDistance
    ensures AllSpaces(line) ==> r == None
  {
    var text := Trimmed(line);
    TrimmedEmptyIff(line);
    if text == [] then None else Accept(Candidate(text))
  }

  /** A whitespace character after text that is already trimmed changes
      nothing: the line parses as the text alone. */
  lemma TrailingSpaceIgnored(text: seq<char>, c: char)
    requires text != [] && !IsSpace(text[0]) && !IsSpace(text[|text| - 1]) && IsSpace(c)
    ensures ParseLine(text + [c]) == ParseLine(text)
  {
    TrimmedDropsLast(text, c);
    TrimmedNoop(text);
  }

  /** The ':' grammar comes first: a line holding ':' is read by it alone.
      Exactly one ':' makes the value after it the candidate; more than one
      emits nothing, whatever the parts hold. */
  lemma ColonGrammar(line: seq<char>)
    requires ':' in Trimmed(line)
    ensures var text := Trimmed(line);
      ParseLine(line) ==
        if Occurrences(text, ':') == 1 then Accept(ToDouble(text[IndexOf(text, ':') + 1..]))
        else None
  {
    SplitInTwo(Trimmed(line), ':');
  }

  /** The '=' grammar is used only when there is no ':', in the same way. */
  lemma EqualsGrammar(line: seq<char>)
    requires ':' !in Trimmed(line) && '=' in Trimmed(line)
    ensures var text := Trimmed(line);
      ParseLine(line) ==
        if Occurrences(text, '=') == 1 then Accept(ToDouble(text[IndexOf(text, '=') + 1..]))
        else None
  {
    SplitInTwo(Trimmed(line), '=');
  }

  /** Without ':' or '=' the whole trimmed line must be a number. */
  lemma BareGrammar(line: seq<char>)
    requires ':' !in Trimmed(line) && '=' !in Trimmed(line)
    ensures ParseLine(line) == Accept(ToDouble(Trimmed(line)))
  {
    if Trimmed(line) == [] {
      EmptyIsNoNumber();
    }
  }

  lemma EmptyIsNoNumber()
    ensures ToDouble([]) == None
  {
    assert Trimmed([]) == [];
    assert Mantissa([]) == None;
  }

  /** The single ':' of "label:value" sits right after the label. */
  lemma ColonAfterLabel(tag: seq<char>, value: seq<char>)
    requires ':' !in tag && ':' !in value
    ensures var text := tag + ":" + value;
      && Occurrences(text, ':') == 1 && IndexOf(text, ':') == |tag|
      && text[|tag| + 1..] == value
  {
    var text := tag + ":" + value;
    OccurrencesAppend(tag, ":", ':');
    OccurrencesAppend(tag + ":", value, ':');
    assert text[..|tag|] == tag;
  }

  /** Whatever label stands before the ':' is ignored. */
  lemma LabelIgnored(tag: seq<char>, value: seq<char>)
    requires ':' !in tag && ':' !in value
    requires tag != [] && !IsSpace(tag[0])
    requires value != [] && !IsSpace(value[|value| - 1])
    ensures ParseLine(tag + ":" + value) == Accept(ToDouble(value))
  {
    var text := tag + ":" + value;
    assert text[0] == tag[0] && text[|text| - 1] == value[|value| - 1];
    TrimmedNoop(text);
    ColonAfterLabel(tag, value);
    ColonGrammar(text);
  }

  /** A number that underflows a double makes toDouble fail, so the line
      emits nothing although its numeral denotes a positive value. */
  lemma UnderflowEmitsNothing(tag: seq<char>, value: seq<char>)
    requires ':' !in tag && ':' !in value
    requires tag != [] && !IsSpace(tag[0])
    requires value != [] && !IsSpace(value[|value| - 1])
    requires Numeral(value).Some? && Underflows(Numeral(value).value)
    ensures ParseLine(tag + ":" + value) == None
  {
    LabelIgnored(tag, value);
  }

  /** U+2212 MINUS SIGN in front of digits reads as minus their value. */
  lemma MinusSignNumeral(t: seq<char>, d: seq<char>)
    requires d != [] && AllDigits(d) && t != [] && t[0] == '\U{2212}' && t[1..] == d
    ensures ToDouble(t).Some? && ToDouble(t).value == -(DigitsValue(d) as real)
  {
    var v := DigitsValue(d) as real;
    assert Unsigned(t[1..]).Some? && Unsigned(t[1..]).value == v by {
      UnsignedDigits(d);
    }
    assert !Underflows(v) by {
      HundredthsDoNotUnderflow(DigitsValue(d));
    }
    assert Trimmed(t) == t && IsMinus(t[0]) by {
      SignThenDigitsTrimmed(t, d);
    }
    ReadsSigned(t, v);
  }

  lemma SignThenDigitsTrimmed(t: seq<char>, d: seq<char>)
    requires d != [] && AllDigits(d) && t != [] && t[0] == '\U{2212}' && t[1..] == d
    ensures Trimmed(t) == t
  {
    DigitIsPlain(d[|d| - 1]);
    assert t[|t| - 1] == d[|d| - 1];
    TrimmedNoop(t);
  }

  /** A labelled value written with U+2212 MINUS SIGN is read as negative:
      it emits the distance 0 when its digits denote zero, and nothing
      otherwise. */
  lemma MinusSignAccepted(tag: seq<char>, d: seq<char>)
    requires ':' !in tag && tag != [] && !IsSpace(tag[0])
    requires d != [] && AllDigits(d)
    ensures DigitsValue(d) == 0 ==>
      ParseLine(tag + ":" + (['\U{2212}'] + d)).Some? && ParseLine(tag + ":" + (['\U{2212}'] + d)).value == 0.0
    ensures DigitsValue(d) > 0 ==> ParseLine(tag + ":" + (['\U{2212}'] + d)).None?
  {
    var value := ['\U{2212}'] + d;
    assert value[1..] == d;
    MinusSignNumeral(value, d);
    DigitIsPlain(d[|d| - 1]);
    assert value[|value| - 1] == d[|d| - 1];
    assert ':' !in value by {
      forall i | 0 <= i < |value|
        ensures value[i] != ':'
      {
        if i > 0 {
          assert value[i] == d[i - 1];
        }
      }
    }
    LabelIgnored(tag, value);
  }
}
