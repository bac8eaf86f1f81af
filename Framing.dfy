/**
 * How the host cuts its receive buffer into lines: everything up to each
 * '\n' is one line (the '\n' itself is dropped), and what follows the last
 * '\n' stays buffered.
 */
module Framing {
  import opened Text

  /** The complete lines found in a buffer, in order, and the unterminated rest. */
  datatype Framing = Framing(lines: seq<seq<char>>, rest: seq<char>)

  predicate NoLineFeed(s: seq<char>)
  {
    '\n' !in s
  }

  predicate AllLinesFree(lines: seq<seq<char>>)
  {
    forall k :: 0 <= k < |lines| ==> NoLineFeed(lines[k])
  }

  /** The bytes the lines stand for: each line followed by its '\n'. */
  function Joined(lines: seq<seq<char>>): seq<char>
  {
    if lines == [] then [] else lines[0] + "\n" + Joined(lines[1..])
  }

  /** The buffer split at every '\n': the part before the first line feed is
      the first line, and the part after it is framed in turn. */
  function Frames(buf: seq<char>): (r: Framing)
    ensures NoLineFeed(r.rest) && |r.rest| <= |buf|
    ensures |r.lines| <= |buf|
    decreases |buf|
  {
    var i := IndexOf(buf, '\n');
    if i < 0 then Framing([], buf)
    else
      var f := Frames(buf[i + 1..]);
      Framing([buf[..i]] + f.lines, f.rest)
  }

  /** Framing loses nothing: the lines, each followed by its line feed, and
      then the rest give back the buffer; no line and no rest holds a line feed. */
  lemma {:induction false} FramesConserve(buf: seq<char>)
    ensures Joined(Frames(buf).lines) + Frames(buf).rest == buf
    ensures NoLineFeed(Frames(buf).rest) && AllLinesFree(Frames(buf).lines)
    decreases |buf|
  {
    if '\n' in buf {
      var i := IndexOf(buf, '\n');
      FramesFirstLine(buf, i);
      FramesConserve(buf[i + 1..]);
      CutAt(buf, i);
      FrameStep(buf[..i], buf[i + 1..], Frames(buf[i + 1..]), buf);
    } else {
      FramesNoLine(buf);
    }
  }

  /** A buffer whose first line feed is at i frames as the line before it,
      then the framing of what follows it. */
  lemma FramesFirstLine(buf: seq<char>, i: nat)
    requires i == IndexOf(buf, '\n')
    ensures Frames(buf) == Framing([buf[..i]] + Frames(buf[i + 1..]).lines, Frames(buf[i + 1..]).rest)
  {
  }

  lemma ConsAssoc(x: seq<seq<char>>, y: seq<char>, z: seq<seq<char>>)
    ensures x + ([y] + z) == (x + [y]) + z
  {
  }

  /** Cutting the first line off a buffer moves it from the buffer's framing
      to the lines already cut, leaving the overall framing unchanged. */
  lemma FramesAdvance(all: Framing, done: seq<seq<char>>, buf: seq<char>, i: nat)
    requires all.lines == done + Frames(buf).lines && all.rest == Frames(buf).rest
    requires i == IndexOf(buf, '\n')
    ensures all.lines == (done + [buf[..i]]) + Frames(buf[i + 1..]).lines
    ensures all.rest == Frames(buf[i + 1..]).rest
  {
    FramesFirstLine(buf, i);
    ConsAssoc(done, buf[..i], Frames(buf[i + 1..]).lines);
  }

  /** A buffer without line feeds is all rest. */
  lemma FramesNoLine(buf: seq<char>)
    requires '\n' !in buf
    ensures Frames(buf) == Framing([], buf)
  {
  }

  /** A buffer is the part before a line feed, the line feed, and the part after. */
  lemma CutAt(buf: seq<char>, i: nat)
    requires i < |buf| && buf[i] == '\n'
    ensures buf == buf[..i] + "\n" + buf[i + 1..]
  {
  }

  lemma FrameStep(line: seq<char>, after: seq<char>, f: Framing, buf: seq<char>)
    requires NoLineFeed(line) && AllLinesFree(f.lines)
    requires Joined(f.lines) + f.rest == after
    requires buf == line + "\n" + after
    ensures Joined([line] + f.lines) + f.rest == buf
    ensures AllLinesFree([line] + f.lines)
  {
    JoinedCons(line, f.lines);
  }

  lemma JoinedCons(line: seq<char>, lines: seq<seq<char>>)
    ensures Joined([line] + lines) == line + "\n" + Joined(lines)
  {
    assert ([line] + lines)[1..] == lines;
  }

  lemma {:induction false} JoinedAppend(a: seq<seq<char>>, b: seq<seq<char>>)
    ensures Joined(a + b) == Joined(a) + Joined(b)
  {
    if a != [] {
      assert (a + b)[1..] == a[1..] + b;
      JoinedAppend(a[1..], b);
    } else {
      assert a + b == b;
    }
  }

  lemma AllLinesFreeAppend(a: seq<seq<char>>, b: seq<seq<char>>)
    requires AllLinesFree(a) && AllLinesFree(b)
    ensures AllLinesFree(a + b)
  {
  }

  /** A line without line feeds, a line feed and anything after: the first
      line feed is the one after the line. */
  lemma FirstLineFeed(line: seq<char>, tail: seq<char>)
    requires NoLineFeed(line)
    ensures var buf := line + "\n" + tail;
      && IndexOf(buf, '\n') == |line| && buf[..|line|] == line && buf[|line| + 1..] == tail
  {
    var buf := line + "\n" + tail;
    assert buf[|line|] == '\n';
    assert forall j :: 0 <= j < |line| ==> buf[j] == line[j] != '\n';
    assert buf[..|line|] == line;
    assert buf[|line| + 1..] == tail;
  }

  lemma LineThenRest(lines: seq<seq<char>>, rest: seq<char>)
    requires lines != []
    ensures Joined(lines) + rest == lines[0] + "\n" + (Joined(lines[1..]) + rest)
  {
    var l := lines[0];
    assert Joined(lines) == l + "\n" + Joined(lines[1..]);
    assert (l + "\n" + Joined(lines[1..])) + rest == (l + "\n") + (Joined(lines[1..]) + rest);
  }

  /** A line and its line feed in front of a buffer add that line in front
      of the buffer's framing. */
  lemma FramesCons(line: seq<char>, tail: seq<char>)
    requires NoLineFeed(line)
    ensures Frames(line + "\n" + tail) == Framing([line] + Frames(tail).lines, Frames(tail).rest)
  {
    FirstLineFeed(line, tail);
    FramesFirstLine(line + "\n" + tail, |line|);
  }

  /** There is only one way to read a buffer as lines and a rest: any
      line-feed-free lines and rest that spell the buffer are its framing. */
  lemma {:induction false} FramesUnique(lines: seq<seq<char>>, rest: seq<char>)
    requires AllLinesFree(lines) && NoLineFeed(rest)
    ensures Frames(Joined(lines) + rest) == Framing(lines, rest)
  {
    if lines == [] {
      assert Joined(lines) + rest == rest;
      FramesNoLine(rest);
    } else {
      FramesUnique(lines[1..], rest);
      LineThenRest(lines, rest);
      FramesCons(lines[0], Joined(lines[1..]) + rest);
      assert [lines[0]] + lines[1..] == lines;
    }
  }

  lemma Regroup(x: seq<char>, r: seq<char>, b: seq<char>, y: seq<char>, rest: seq<char>)
    requires r + b == y + rest
    ensures (x + r) + b == (x + y) + rest
  {
    assert (x + r) + b == x + (r + b);
    assert x + (y + rest) == (x + y) + rest;
  }

  /** Framing does not depend on how the bytes were chunked: framing a, then
      framing a's rest together with b, gives the lines and rest of a + b. */
  lemma FramesChunked(a: seq<char>, b: seq<char>)
    ensures Frames(a).lines + Frames(Frames(a).rest + b).lines == Frames(a + b).lines
    ensures Frames(Frames(a).rest + b).rest == Frames(a + b).rest
  {
    var fa := Frames(a);
    var fb := Frames(fa.rest + b);
    FramesConserve(a);
    FramesConserve(fa.rest + b);
    Regroup(Joined(fa.lines), fa.rest, b, Joined(fb.lines), fb.rest);
    JoinedAppend(fa.lines, fb.lines);
    AllLinesFreeAppend(fa.lines, fb.lines);
    FramesUnique(fa.lines + fb.lines, fb.rest);
  }
}
