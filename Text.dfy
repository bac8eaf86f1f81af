/**
 * The Qt string operations the host parser relies on, stated over
 * sequences of characters: QChar::isSpace, QString::trimmed,
 * indexOf, contains, split, and decimal digits.
 */
module Text {

  /** QChar::isSpace: ASCII blanks and the Unicode separator characters. */
  predicate IsSpace(c: char)
  {
    || c == ' '
    || ('\t' <= c <= '\r')
    || c == '\U{0085}' || c == '\U{00A0}' || c == '\U{1680}'
    || ('\U{2000}' <= c <= '\U{200A}')
    || c == '\U{2028}' || c == '\U{2029}' || c == '\U{202F}'
    || c == '\U{205F}' || c == '\U{3000}'
  }

  predicate AllSpaces(s: seq<char>)
  {
    forall i :: 0 <= i < |s| ==> IsSpace(s[i])
  }

  /** The text with its leading whitespace removed. */
  function TrimStart(s: seq<char>): (r: seq<char>)
    ensures |r| <= |s| && r == s[|s| - |r|..]
    ensures forall i :: 0 <= i < |s| - |r| ==> IsSpace(s[i])
    ensures r == [] || !IsSpace(r[0])
  {
    if s != [] && IsSpace(s[0]) then TrimStart(s[1..]) else s
  }

  /** The text with its trailing whitespace removed. */
  function TrimEnd(s: seq<char>): (r: seq<char>)
    ensures |r| <= |s| && r == s[..|r|]
    ensures forall i :: |r| <= i < |s| ==> IsSpace(s[i])
    ensures r == [] || !IsSpace(r[|r| - 1])
  {
    if s != [] && IsSpace(s[|s| - 1]) then TrimEnd(s[..|s| - 1]) else s
  }

  /** QString::trimmed: whitespace removed from both ends; what is left
      neither starts nor ends with whitespace. */
  function Trimmed(s: seq<char>): (r: seq<char>)
    ensures |r| <= |s|
    ensures r == [] || (!IsSpace(r[0]) && !IsSpace(r[|r| - 1]))
  {
    var a := TrimStart(s);
    var r := TrimEnd(a);
    assert r != [] ==> r[0] == a[0];
    r
  }

  /** Trimming keeps a contiguous middle part, starting at the returned
      position, and drops only whitespace around it. */
  lemma {:induction false} TrimmedIsMiddle(s: seq<char>) returns (i: nat)
    ensures i + |Trimmed(s)| <= |s| && Trimmed(s) == s[i..i + |Trimmed(s)|]
    ensures AllSpaces(s[..i]) && AllSpaces(s[i + |Trimmed(s)|..])
  {
    i := |s| - |TrimStart(s)|;
    TrimmedAt(s, i);
    TrimmedLeadingSpaces(s, i);
    TrimmedDropsSpaces(s, i, |Trimmed(s)|);
  }

  lemma {:induction false} TrimmedAt(s: seq<char>, i: nat)
    requires i == |s| - |TrimStart(s)|
    ensures i + |Trimmed(s)| <= |s| && Trimmed(s) == s[i..i + |Trimmed(s)|]
  {
    var a := TrimStart(s);
    var r := TrimEnd(a);
    PrefixOfSuffix(s, i, a, r);
  }

  /** A prefix of the suffix of s from i is the slice of s from i. */
  lemma PrefixOfSuffix(s: seq<char>, i: nat, a: seq<char>, r: seq<char>)
    requires i <= |s| && a == s[i..] && |r| <= |a| && r == a[..|r|]
    ensures i + |r| <= |s| && r == s[i..i + |r|]
  {
  }

  lemma {:induction false} TrimmedLeadingSpaces(s: seq<char>, i: nat)
    requires i == |s| - |TrimStart(s)|
    ensures AllSpaces(s[..i])
  {
    forall k | 0 <= k < i
      ensures IsSpace(s[..i][k])
    {
      assert s[..i][k] == s[k];
    }
  }

  lemma {:induction false} TrimmedDropsSpaces(s: seq<char>, i: nat, n: nat)
    requires i == |s| - |TrimStart(s)| && n == |Trimmed(s)|
    ensures i + n <= |s| && AllSpaces(s[i + n..])
  {
    var a := TrimStart(s);
    var r := TrimEnd(a);
    assert Trimmed(s) == r;
    SpacesAfter(s, i, a, n);
  }

  /** Whitespace after position n of the suffix of s from i is whitespace in s. */
  lemma SpacesAfter(s: seq<char>, i: nat, a: seq<char>, n: nat)
    requires i <= |s| && a == s[i..] && n <= |a|
    requires forall k :: n <= k < |a| ==> IsSpace(a[k])
    ensures AllSpaces(s[i + n..])
  {
    assert s[i + n..] == a[n..];
  }

  /** A text is trimmed to nothing exactly when it is all whitespace. */
  lemma TrimmedEmptyIff(s: seq<char>)
    ensures Trimmed(s) == [] <==> AllSpaces(s)
  {
    var a := TrimStart(s);
    if Trimmed(s) == [] {
      assert s == s[..|s| - |a|] + a;
    }
  }

  /** Text that neither starts nor ends with whitespace is its own trimmed form. */
  lemma TrimmedNoop(s: seq<char>)
    requires s == [] || (!IsSpace(s[0]) && !IsSpace(s[|s| - 1]))
    ensures Trimmed(s) == s
  {
  }

  /** One trailing whitespace character after otherwise trimmed text is
      all that trimming removes. */
  lemma TrimmedDropsLast(s: seq<char>, c: char)
    requires s != [] && !IsSpace(s[0]) && !IsSpace(s[|s| - 1]) && IsSpace(c)
    ensures Trimmed(s + [c]) == s
  {
    assert (s + [c])[..|s|] == s;
  }

  /** QString::indexOf / QByteArray::indexOf: the first position of c, or -1. */
  function IndexOf(s: seq<char>, c: char): (r: int)
    ensures -1 <= r < |s|
    ensures r == -1 <==> c !in s
    ensures r >= 0 ==> s[r] == c && forall j :: 0 <= j < r ==> s[j] != c
  {
    if s == [] then -1
    else if s[0] == c then 0
    else
      var k := IndexOf(s[1..], c);
      if k < 0 then -1 else k + 1
  }

  /** The number of occurrences of c in s. */
  function Occurrences(s: seq<char>, c: char): (n: nat)
    ensures n == 0 <==> c !in s
    ensures n <= |s|
  {
    if s == [] then 0
    else Occurrences(s[1..], c) + (if s[0] == c then 1 else 0)
  }

  lemma {:induction false} OccurrencesAppend(a: seq<char>, b: seq<char>, c: char)
    ensures Occurrences(a + b, c) == Occurrences(a, c) + Occurrences(b, c)
  {
    if a != [] {
      assert (a + b)[1..] == a[1..] + b;
      OccurrencesAppend(a[1..], b, c);
    } else {
      assert a + b == b;
    }
  }

  /** QString::split(sep) with empty parts kept: the pieces between separators. */
  function Split(s: seq<char>, sep: char): (parts: seq<seq<char>>)
    ensures |parts| >= 1
    decreases |s|
  {
    if sep !in s then [s]
    else
      var i := IndexOf(s, sep);
      [s[..i]] + Split(s[i + 1..], sep)
  }

  /** Joining parts back together with the separator between them. */
  function Join(parts: seq<seq<char>>, sep: char): seq<char>
    requires |parts| >= 1
  {
    if |parts| == 1 then parts[0] else parts[0] + [sep] + Join(parts[1..], sep)
  }

  /** One step of splitting: the part before the first separator, then the rest. */
  lemma SplitStep(s: seq<char>, sep: char)
    requires sep in s
    ensures Split(s, sep) == [s[..IndexOf(s, sep)]] + Split(s[IndexOf(s, sep) + 1..], sep)
    ensures s == s[..IndexOf(s, sep)] + [sep] + s[IndexOf(s, sep) + 1..]
  {
    var i := IndexOf(s, sep);
    SplitAt(s, sep, i);
    HeadAndTail(Split(s, sep), s[..i], Split(s[i + 1..], sep));
    AroundSeparator(s, sep, i);
  }

  lemma {:induction false} SplitAt(s: seq<char>, sep: char, i: nat)
    requires i == IndexOf(s, sep)
    ensures |Split(s, sep)| == 1 + |Split(s[i + 1..], sep)|
    ensures Split(s, sep)[0] == s[..i] && Split(s, sep)[1..] == Split(s[i + 1..], sep)
  {
  }

  lemma HeadAndTail<T>(p: seq<T>, x: T, q: seq<T>)
    requires |p| >= 1 && p[0] == x && p[1..] == q
    ensures p == [x] + q
  {
  }

  lemma AroundSeparator(s: seq<char>, sep: char, i: nat)
    requires i < |s| && s[i] == sep
    ensures s == s[..i] + [sep] + s[i + 1..]
  {
    assert s[..i + 1] == s[..i] + [sep];
    assert s == s[..i + 1] + s[i + 1..];
  }

  lemma JoinCons(a: seq<char>, rest: seq<seq<char>>, sep: char)
    requires |rest| >= 1
    ensures Join([a] + rest, sep) == a + [sep] + Join(rest, sep)
  {
    assert ([a] + rest)[1..] == rest;
  }

  /** Splitting loses nothing: re-joining the parts gives back the text. */
  lemma {:induction false} SplitJoin(s: seq<char>, sep: char)
    ensures Join(Split(s, sep), sep) == s
    decreases |s|
  {
    if sep in s {
      var i := IndexOf(s, sep);
      SplitJoin(s[i + 1..], sep);
      SplitStep(s, sep);
      JoinCons(s[..i], Split(s[i + 1..], sep), sep);
    }
  }

  /** Splitting gives one part more than there are separators. */
  lemma {:induction false} SplitCount(s: seq<char>, sep: char)
    ensures |Split(s, sep)| == Occurrences(s, sep) + 1
    decreases |s|
  {
    if sep in s {
      SplitCount(s[IndexOf(s, sep) + 1..], sep);
      SplitStep(s, sep);
      SeparatorCount(s, sep);
    }
  }

  /** Occurrences before, at and after the first separator. */
  lemma {:induction false} SeparatorCount(s: seq<char>, sep: char)
    requires sep in s
    ensures Occurrences(s, sep) == 1 + Occurrences(s[IndexOf(s, sep) + 1..], sep)
  {
    var i := IndexOf(s, sep);
    SplitStep(s, sep);
    OccurrencesAppend(s[..i] + [sep], s[i + 1..], sep);
    OccurrencesAppend(s[..i], [sep], sep);
    assert Occurrences([sep], sep) == 1;
  }

  /** No part produced by splitting contains the separator. */
  lemma {:induction false} SplitPartsFree(s: seq<char>, sep: char, k: nat)
    requires k < |Split(s, sep)|
    ensures sep !in Split(s, sep)[k]
    decreases |s|
  {
    if sep in s {
      SplitStep(s, sep);
      if k > 0 {
        SplitPartsFree(s[IndexOf(s, sep) + 1..], sep, k - 1);
      }
    }
  }

  /** Exactly two parts come out precisely when the separator occurs once; the
      second part is then everything after it. */
  lemma SplitInTwo(s: seq<char>, sep: char)
    ensures |Split(s, sep)| == 2 <==> Occurrences(s, sep) == 1
    ensures Occurrences(s, sep) == 1 ==>
      Split(s, sep) == [s[..IndexOf(s, sep)], s[IndexOf(s, sep) + 1..]]
  {
    SplitCount(s, sep);
    if Occurrences(s, sep) == 1 {
      SeparatorCount(s, sep);
      SplitStep(s, sep);
    }
  }

  predicate IsDigit(c: char)
  {
    '0' <= c <= '9'
  }

  predicate AllDigits(s: seq<char>)
  {
    forall i :: 0 <= i < |s| ==> IsDigit(s[i])
  }

  function DigitValue(c: char): (d: nat)
    requires IsDigit(c)
    ensures d < 10
  {
    (c as int - '0' as int)
  }

  function DigitChar(d: nat): (c: char)
    requires d < 10
    ensures IsDigit(c) && DigitValue(c) == d
  {
    ('0' as int + d) as char
  }

  /** The number a run of decimal digits denotes, most significant first. */
  function DigitsValue(s: seq<char>): nat
    requires AllDigits(s)
  {
    if s == [] then 0 else DigitsValue(s[..|s| - 1]) * 10 + DigitValue(s[|s| - 1])
  }

  /** The shortest decimal numeral of n (no leading zeros, "0" for zero). */
  function NatDigits(n: nat): (s: seq<char>)
    ensures 1 <= |s| && AllDigits(s)
    ensures DigitsValue(s) == n
    ensures |s| > 1 ==> s[0] != '0'
  {
    if n < 10 then [DigitChar(n)]
    else
      var s := NatDigits(n / 10) + [DigitChar(n % 10)];
      assert s[..|s| - 1] == NatDigits(n / 10);
      s
  }

  /** A number below 10^k has a numeral of at most k digits. */
  lemma {:induction false} NatDigitsLength(n: nat, k: nat)
    requires 1 <= k && n < Pow10(k)
    ensures |NatDigits(n)| <= k
  {
    if n >= 10 {
      NatDigitsLength(n / 10, k - 1);
    }
  }

  function Pow10(k: nat): (p: nat)
    ensures p >= 1
  {
    if k == 0 then 1 else 10 * Pow10(k - 1)
  }
}
