/**
 * SerialPortHandler: the receive side of the host's serial link. Bytes
 * arrive in chunks of any size; the handler keeps the unterminated tail in
 * its receive buffer and hands every complete line to the parser, which
 * emits at most one distance per line.
 */
module SerialPort {
  import opened Wrappers
  import opened Text
  import opened Framing
  import opened LineParser

  /** The distances emitted for a sequence of lines, in line order. */
  function Emissions(lines: seq<seq<char>>): (out: seq<real>)
    ensures |out| <= |lines|
    ensures forall k :: 0 <= k < |out| ==> MinDistance <= out[k] <= MaxDistance
  {
    if lines == [] then []
    else Emissions(lines[..|lines| - 1]) + Emitted(lines[|lines| - 1])
  }

  /** One more line emits what the parser makes of it, after the rest. */
  lemma EmissionsSnoc(lines: seq<seq<char>>, line: seq<char>)
    ensures Emissions(lines + [line]) == Emissions(lines) + Emitted(line)
  {
    assert (lines + [line])[..|lines|] == lines;
  }

  /** A single line emits what the parser makes of it. */
  lemma EmissionsOne(line: seq<char>)
    ensures Emissions([line]) == Emitted(line)
  {
    assert [line][..0] == [];
  }

  /** A single line with a distance emits that distance alone. */
  lemma EmitsParsed(line: seq<char>)
    requires ParseLine(line).Some?
    ensures Emissions([line]) == [ParseLine(line).value]
  {
    EmissionsOne(line);
  }

  /** The signals one line gives: its distance, if any. */
  function Emitted(line: seq<char>): (out: seq<real>)
    ensures |out| <= 1
    ensures forall k :: 0 <= k < |out| ==> MinDistance <= out[k] <= MaxDistance
  {
    match ParseLine(line)
    case Some(d) => [d]
    case None => []
  }

  lemma AppendAssoc(a: seq<real>, b: seq<real>, c: seq<real>)
    ensures (a + b) + c == a + (b + c)
  {
  }

  lemma {:induction false} EmissionsAppend(a: seq<seq<char>>, b: seq<seq<char>>)
    ensures Emissions(a + b) == Emissions(a) + Emissions(b)
    decreases |b|
  {
    if b == [] {
      assert a + b == a;
    } else {
      var b', last := b[..|b| - 1], b[|b| - 1];
      assert b == b' + [last];
      assert a + b == (a + b') + [last];
      EmissionsAppend(a, b');
      EmissionsSnoc(a + b', last);
      EmissionsSnoc(b', last);
      AppendAssoc(Emissions(a), Emissions(b'), Emitted(last));
    }
  }

  /** Delivering a and then b leaves the same buffer and emits the same
      distances as delivering a + b at once, from any starting buffer. */
  lemma ChunkingIndependent(buf: seq<char>, a: seq<char>, b: seq<char>)
    ensures Frames(Frames(buf + a).rest + b).rest == Frames(buf + a + b).rest
    ensures Emissions(Frames(buf + a).lines) + Emissions(Frames(Frames(buf + a).rest + b).lines)
      == Emissions(Frames(buf + a + b).lines)
  {
    FramesChunked(buf + a, b);
    EmissionsAppend(Frames(buf + a).lines, Frames(Frames(buf + a).rest + b).lines);
  }

  class SerialPortHandler {
    /** m_receiveBuffer: bytes received after the last line feed. */
    var receiveBuffer: seq<char>
    /** Whether the serial port is open. */
    var isOpen: bool
    /** The distanceReceived signals emitted so far. */
    var emitted: seq<real>
    /** The connectionStatusChanged signals emitted so far. */
    var statusEvents: seq<bool>

    /** Between events the buffer never holds a complete line. */
    predicate Valid()
      reads this
    {
      NoLineFeed(receiveBuffer)
    }

    /** A new handler: closed port, empty buffer, nothing emitted. */
    constructor ()
      ensures Valid()
      ensures receiveBuffer == [] && !isOpen && emitted == [] && statusEvents == []
    {
      receiveBuffer := [];
      isOpen := false;
      emitted := [];
      statusEvents := [];
    }

    /** closePort: closing an open port reports the disconnection; the buffer
        is emptied whether or not the port was open. */
    method ClosePort()
      modifies this
      ensures Valid()
      ensures receiveBuffer == [] && !isOpen
      ensures statusEvents == old(statusEvents) + (if old(isOpen) then [false] else [])
      ensures emitted == old(emitted)
    {
      if isOpen {
        isOpen := false;
        statusEvents := statusEvents + [false];
      }
      receiveBuffer := [];
    }

    /** handleReadyRead: the received bytes are appended, then every complete
        line is cut off the front and parsed. Nothing is lost: the lines cut,
        each with its line feed, followed by the new buffer, are exactly the
        old buffer followed by the received bytes. */
    method HandleReadyRead(data: seq<char>)
      modifies this
      ensures Valid()
      ensures receiveBuffer == Frames(old(receiveBuffer) + data).rest
      ensures old(receiveBuffer) + data == Joined(Frames(old(receiveBuffer) + data).lines) + receiveBuffer
      ensures emitted == old(emitted) + Emissions(Frames(old(receiveBuffer) + data).lines)
      ensures isOpen == old(isOpen) && statusEvents == old(statusEvents)
    {
      receiveBuffer := receiveBuffer + data;
      ghost var all := receiveBuffer;
      ghost var done: seq<seq<char>> := [];
      while true
        invariant Frames(all).lines == done + Frames(receiveBuffer).lines
        invariant Frames(all).rest == Frames(receiveBuffer).rest
        invariant emitted == old(emitted) + Emissions(done)
        invariant isOpen == old(isOpen) && statusEvents == old(statusEvents)
        decreases |receiveBuffer|
      {
        var idx := IndexOf(receiveBuffer, '\n');
        if idx < 0 {
          FramesNoLine(receiveBuffer);
          assert Frames(all).lines == done + [] == done;
          FramesConserve(all);
          break;
        }
        var line := receiveBuffer[..idx];
        FramesAdvance(Frames(all), done, receiveBuffer, idx);
        receiveBuffer := receiveBuffer[idx + 1..];
        EmissionsSnoc(done, line);
        AppendAssoc(old(emitted), Emissions(done), Emitted(line));
        done := done + [line];
        ParseLine(line);
      }
    }

    /** parseLine: emits the line's distance when it has one, nothing otherwise. */
    method ParseLine(line: seq<char>)
      modifies this
      ensures emitted == old(emitted) + Emitted(line)
      ensures receiveBuffer == old(receiveBuffer)
      ensures isOpen == old(isOpen) && statusEvents == old(statusEvents)
    {
      var distance := LineParser.ParseLine(line);
      if distance.Some? {
        emitted := emitted + [distance.value];
      }
    }
  }
}
