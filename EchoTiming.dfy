/**
 * The board side: one HC-SR04 measurement cycle (measureDistance), the
 * microsecond busy-wait it is built from (delayMicroseconds) and the report
 * line sent to the host (sendDistanceToPC).
 *
 * The hardware is seen only through what the code reads and writes. Every
 * read of the echo pin, of HAL_GetTick and of the TIM2 counter takes the
 * next value of a finite trace of readings; the trigger pin writes and the
 * UART bytes are logged. A cycle is defined on a trace that is long enough
 * for it to finish; Measure is None when the readings run out first.
 */
module EchoTiming {
  import opened Wrappers
  import opened LineEncoder

  /** The values of a uint32_t. */
  type uint32 = x: int | 0 <= x < 0x1_0000_0000

  /** The number of uint32_t values; uint32_t arithmetic is modulo this. */
  const Modulus: int := 0x1_0000_0000

  /** Each wait for an echo edge gives up after 30 ticks of HAL_GetTick (ms). */
  const EchoTimeoutMs: int := 30

  /** The trigger pulse: 2 us low first, then 10 us high. */
  const SettleUs: uint32 := 2
  const PulseUs: uint32 := 10

  /** uint32_t subtraction: the value that, added to b, wraps around to a. */
  function Sub32(a: uint32, b: uint32): (r: uint32)
    ensures (r + b) % Modulus == a
  {
    (a - b) % Modulus
  }

  /** The deadline test exactly as written in the source: the deadline
      HAL_GetTick() + 30 is itself a wrapping uint32_t sum, and a later tick
      must exceed it. */
  predicate ExpiredAsWritten(start: uint32, now: uint32): (b: bool)
    ensures start + EchoTimeoutMs < Modulus ==> (b <==> now > start + EchoTimeoutMs)
    ensures start + EchoTimeoutMs >= Modulus ==> (b <==> now > start + EchoTimeoutMs - Modulus)
  {
    now > (start + EchoTimeoutMs) % Modulus
  }

  /** The deadline test the model uses: more than 30 ms have passed since the
      start tick, counted modulo 2^32 so that a tick wrap-around is harmless. */
  predicate Expired(start: uint32, now: uint32): (b: bool)
    ensures start <= now ==> (b <==> now - start > EchoTimeoutMs)
    ensures now < start ==> (b <==> now + Modulus - start > EchoTimeoutMs)
  {
    Sub32(now, start) > EchoTimeoutMs
  }

  /** The corrected test fires exactly when more than 30 ms have elapsed,
      whether or not the tick counter wrapped in between. */
  lemma ExpiredMeansElapsed(start: uint32, elapsed: nat)
    requires elapsed < Modulus
    ensures Expired(start, (start + elapsed) % Modulus) <==> elapsed > EchoTimeoutMs
  {
    var now := (start + elapsed) % Modulus;
    if start + elapsed < Modulus {
      assert now - start == elapsed;
    } else {
      assert now - start == elapsed - Modulus;
    }
  }

  /** Away from the wrap-around both tests agree. */
  lemma AsWrittenAgreesWithoutWrap(start: uint32, now: uint32)
    requires start + EchoTimeoutMs < Modulus && start <= now
    ensures ExpiredAsWritten(start, now) <==> Expired(start, now)
  {
  }

  /** As written, a wait starting within 30 ms below the wrap-around times out
      on its first check, before any time has passed. */
  lemma AsWrittenTimesOutAtOnce()
    ensures ExpiredAsWritten(0xFFFF_FFF0, 0xFFFF_FFF0)
    ensures !Expired(0xFFFF_FFF0, 0xFFFF_FFF0)
  {
  }

  /** As written, a wait starting at tick 0xFFFFFFE1 has the deadline
      0xFFFFFFFF, which no tick exceeds: it never times out, although 31 ms
      later (tick 0) the corrected test has fired. */
  lemma AsWrittenNeverTimesOut()
    ensures forall now: uint32 :: !ExpiredAsWritten(0xFFFF_FFE1, now)
    ensures Expired(0xFFFF_FFE1, 0)
  {
  }

  /** How a wait on the echo pin ended: timed out or not, after how many
      loop iterations (pin reads that still showed the awaited-away level). */
  datatype WaitEnd = WaitEnd(timedOut: bool, polls: nat)

  /** The first n iterations read the level on the pin and a tick before the
      deadline, so the loop went on. */
  predicate Polled(level: bool, start: uint32, echo: seq<bool>, ticks: seq<uint32>, n: nat)
  {
    && n <= |echo| && n <= |ticks|
    && forall i :: 0 <= i < n ==> echo[i] == level && !Expired(start, ticks[i])
  }

  /** What a wait that ended in w has read: either the pin changed on read
      number w.polls (0-based) with every check before it in time, or on
      iteration w.polls the tick was past the deadline while the pin was
      still at level. */
  predicate WaitOutcome(level: bool, start: uint32, echo: seq<bool>, ticks: seq<uint32>, w: WaitEnd)
  {
    if w.timedOut then
      && 1 <= w.polls <= |echo| && w.polls <= |ticks|
      && Polled(level, start, echo, ticks, w.polls - 1)
      && echo[w.polls - 1] == level && Expired(start, ticks[w.polls - 1])
    else
      && w.polls < |echo| && echo[w.polls] != level
      && Polled(level, start, echo, ticks, w.polls)
  }

  /** The loop `while (pin == level) { if (deadline passed) give up; }` on the
      pin readings echo and the tick readings ticks, deadline counted from
      start, from iteration n on; None when the readings run out before it
      ends. The deadline is strict: the loop goes on while the tick is not
      past it and stops as soon as the pin changes. The polls count from the
      first iteration. */
  function Wait(level: bool, start: uint32, echo: seq<bool>, ticks: seq<uint32>, n: nat): (r: Option<WaitEnd>)
    ensures r.Some? ==> n <= r.value.polls
    ensures r.Some? && n <= |ticks| ==> r.value.polls <= |ticks|
    ensures r.Some? ==> if r.value.timedOut then n < r.value.polls <= |echo| else r.value.polls < |echo|
    decreases |echo| - n
  {
    if n >= |echo| then None
    else if echo[n] != level then Some(WaitEnd(false, n))
    else if n >= |ticks| then None
    else if Expired(start, ticks[n]) then Some(WaitEnd(true, n + 1))
    else Wait(level, start, echo, ticks, n + 1)
  }

  /** A wait that ends, entered after n rounds that went on, has read
      exactly what WaitOutcome describes. */
  lemma {:induction false} WaitCharacterized(level: bool, start: uint32, echo: seq<bool>, ticks: seq<uint32>, n: nat)
    requires Polled(level, start, echo, ticks, n)
    requires Wait(level, start, echo, ticks, n).Some?
    ensures WaitOutcome(level, start, echo, ticks, Wait(level, start, echo, ticks, n).value)
    decreases |echo| - n
  {
    if echo[n] == level && !Expired(start, ticks[n]) {
      WaitCharacterized(level, start, echo, ticks, n + 1);
    }
  }

  /** The readings left after one edge wait, and whether it timed out. */
  datatype Edge = Edge(timedOut: bool, echo: seq<bool>, ticks: seq<uint32>)

  /** One edge wait as the source writes it: read the start tick, then wait
      while the pin stays at level. A timeout leaves the pin reads at w.polls;
      a pin change also consumed the read that showed it. */
  function AwaitEdgeSpec(level: bool, echo: seq<bool>, ticks: seq<uint32>): (r: Option<Edge>)
    ensures r.Some? ==> |r.value.echo| < |echo| || r.value.timedOut
    ensures r.Some? ==> |r.value.ticks| < |ticks|
  {
    if ticks == [] then None
    else
      match Wait(level, ticks[0], echo, ticks[1..], 0)
      case None => None
      case Some(w) =>
        var read := if w.timedOut then w.polls else w.polls + 1;
        Some(Edge(w.timedOut, echo[read..], ticks[1 + w.polls..]))
  }

  /** delayMicroseconds(us): the number of counter readings below us that
      precede the first reading of at least us; None if there is none. */
  function DelayPolls(us: uint32, counter: seq<uint32>): (r: Option<nat>)
    ensures r.Some? ==> r.value < |counter| && counter[r.value] >= us
  {
    if counter == [] then None
    else if counter[0] >= us then Some(0)
    else
      match DelayPolls(us, counter[1..])
      case None => None
      case Some(k) => Some(k + 1)
  }

  /** Every counter reading before the one that ends the delay is below us. */
  lemma {:induction false} DelayPollsBelow(us: uint32, counter: seq<uint32>, i: nat)
    requires DelayPolls(us, counter).Some? && i < DelayPolls(us, counter).value
    ensures counter[i] < us
  {
    if i > 0 {
      DelayPollsBelow(us, counter[1..], i - 1);
    }
  }

  /** The delay runs out of readings only when none of them reaches us. */
  lemma {:induction false} DelayPollsNone(us: uint32, counter: seq<uint32>)
    requires DelayPolls(us, counter).None?
    ensures forall i :: 0 <= i < |counter| ==> counter[i] < us
  {
    if counter != [] {
      DelayPollsNone(us, counter[1..]);
      forall i | 1 <= i < |counter|
        ensures counter[i] < us
      {
        assert counter[i] == counter[1..][i - 1];
      }
    }
  }

  /** The counter readings left after the trigger pulse: a 2 us wait with the
      pin low, then a 10 us wait with it high. */
  function AfterTrigger(counter: seq<uint32>): (r: Option<seq<uint32>>)
    ensures r.Some? ==> |r.value| + 2 <= |counter|
  {
    match DelayPolls(SettleUs, counter)
    case None => None
    case Some(k) =>
      var c := counter[k + 1..];
      match DelayPolls(PulseUs, c)
      case None => None
      case Some(k') => Some(c[k' + 1..])
  }

  /** How a measurement cycle ends. */
  datatype Outcome =
    | RiseTimeout
    | FallTimeout
    | Echo(startTime: uint32, endTime: uint32)

  /** All readings the board still has to see. */
  datatype Trace = Trace(echo: seq<bool>, ticks: seq<uint32>, counter: seq<uint32>)

  datatype Measurement = Measurement(outcome: Outcome, rest: Trace)

  /** One measureDistance cycle on a trace: the trigger pulse, then the
      echo timing. */
  function Measure(t: Trace): (r: Option<Measurement>)
    ensures r.Some? ==> |r.value.rest.counter| + 2 <= |t.counter| && |r.value.rest.ticks| < |t.ticks|
  {
    match AfterTrigger(t.counter)
    case None => None
    case Some(c) => AfterPulse(t.echo, t.ticks, c)
  }

  /** The echo timing after the trigger pulse: the wait for the echo to rise,
      then the timed part. */
  function AfterPulse(echo: seq<bool>, ticks: seq<uint32>, counter: seq<uint32>): (r: Option<Measurement>)
    ensures r.Some? ==> |r.value.rest.ticks| < |ticks| && |r.value.rest.counter| <= |counter|
    ensures r.Some? && r.value.outcome.RiseTimeout? ==> r.value.rest.counter == counter
    ensures r.Some? && r.value.outcome.Echo? ==>
      |counter| >= 2 && r.value.outcome.startTime == counter[0] && r.value.outcome.endTime == counter[1]
  {
    match AwaitEdgeSpec(false, echo, ticks)
    case None => None
    case Some(rise) =>
      if rise.timedOut then Some(Measurement(RiseTimeout, Trace(rise.echo, rise.ticks, counter)))
      else AfterRise(rise.echo, rise.ticks, counter)
  }

  /** The timed part: the start time, the wait for the echo to fall, the end time. */
  function AfterRise(echo: seq<bool>, ticks: seq<uint32>, counter: seq<uint32>): (r: Option<Measurement>)
    ensures r.Some? ==> !r.value.outcome.RiseTimeout? && |r.value.rest.ticks| < |ticks|
    ensures r.Some? && r.value.outcome.FallTimeout? ==> |r.value.rest.counter| + 1 == |counter|
    ensures r.Some? && r.value.outcome.Echo? ==>
      && |r.value.rest.counter| + 2 == |counter|
      && r.value.outcome.startTime == counter[0] && r.value.outcome.endTime == counter[1]
  {
    if counter == [] then None
    else
      match AwaitEdgeSpec(true, echo, ticks)
      case None => None
      case Some(fall) =>
        if fall.timedOut then Some(Measurement(FallTimeout, Trace(fall.echo, fall.ticks, counter[1..])))
        else if |counter| < 2 then None
        else Some(Measurement(Echo(counter[0], counter[1]), Trace(fall.echo, fall.ticks, counter[2..])))
  }

  /** Centimetres per microsecond of echo: sound travels 340 m/s, there and back. */
  const CmPerUs: real := 0.017

  /** The shortest and longest distance the sensor reports. */
  const MinRange: real := 2.0
  const MaxRange: real := 400.0

  /** The distance for an echo lasting duration us: 0 outside the sensor's
      range, else the scaled duration. */
  function DistanceOf(duration: uint32): (d: real)
    ensures d == 0.0 || MinRange <= d <= MaxRange
    ensures d != 0.0 ==> d == duration as real * CmPerUs
  {
    var raw := duration as real * CmPerUs;
    if raw < MinRange || raw > MaxRange then 0.0 else raw
  }

  /** An echo gives a non-zero distance exactly when it lasts 118 to 23529 us. */
  lemma DistanceNonzeroIff(duration: uint32)
    ensures DistanceOf(duration) != 0.0 <==> 118 <= duration <= 23529
  {
    if duration <= 117 {
      assert duration as real * CmPerUs <= 117.0 * CmPerUs;
    } else if duration >= 23530 {
      assert duration as real * CmPerUs >= 23530.0 * CmPerUs;
    }
  }

  /** What measureDistance returns for an outcome: 0 after a timeout. */
  function Result(o: Outcome): (d: real)
    ensures d == 0.0 || MinRange <= d <= MaxRange
    ensures o.RiseTimeout? || o.FallTimeout? ==> d == 0.0
  {
    match o
    case RiseTimeout => 0.0
    case FallTimeout => 0.0
    case Echo(startTime, endTime) => DistanceOf(Sub32(endTime, startTime))
  }

  /** An edge wait that ends is the wait from its first tick, and leaves
      the readings that wait did not consume. */
  lemma EdgeFromWait(level: bool, echo: seq<bool>, ticks: seq<uint32>)
    requires AwaitEdgeSpec(level, echo, ticks).Some?
    ensures ticks != [] && Wait(level, ticks[0], echo, ticks[1..], 0).Some?
    ensures var w := Wait(level, ticks[0], echo, ticks[1..], 0).value;
      var e := AwaitEdgeSpec(level, echo, ticks).value;
      && e.timedOut == w.timedOut
      && e.echo == echo[if w.timedOut then w.polls else w.polls + 1..]
      && e.ticks == ticks[1..][w.polls..]
  {
  }

  /** The board and its peripherals, as the measurement code sees them. */
  class Board {
    /** The level last written to the Trig pin, and every write in order. */
    var trig: bool
    var trigWrites: seq<bool>
    /** Whether TIM2 is counting. */
    var timerRunning: bool
    /** The readings still to come from the Echo pin, HAL_GetTick and TIM2. */
    var echoIn: seq<bool>
    var tickIn: seq<uint32>
    var counterIn: seq<uint32>
    /** The bytes sent over UART1. */
    var uartOut: seq<char>

    function Inputs(): Trace
      reads this
    {
      Trace(echoIn, tickIn, counterIn)
    }

    /** HAL_GPIO_ReadPin on the Echo pin. */
    method ReadEcho() returns (level: bool)
      requires echoIn != []
      modifies this
      ensures level == old(echoIn)[0] && echoIn == old(echoIn)[1..]
      ensures tickIn == old(tickIn) && counterIn == old(counterIn)
      ensures trig == old(trig) && trigWrites == old(trigWrites)
      ensures timerRunning == old(timerRunning) && uartOut == old(uartOut)
    {
      level := echoIn[0];
      echoIn := echoIn[1..];
    }

    /** HAL_GetTick. */
    method GetTick() returns (now: uint32)
      requires tickIn != []
      modifies this
      ensures now == old(tickIn)[0] && tickIn == old(tickIn)[1..]
      ensures echoIn == old(echoIn) && counterIn == old(counterIn)
      ensures trig == old(trig) && trigWrites == old(trigWrites)
      ensures timerRunning == old(timerRunning) && uartOut == old(uartOut)
    {
      now := tickIn[0];
      tickIn := tickIn[1..];
    }

    /** __HAL_TIM_GET_COUNTER on TIM2. */
    method GetCounter() returns (count: uint32)
      requires counterIn != []
      modifies this
      ensures count == old(counterIn)[0] && counterIn == old(counterIn)[1..]
      ensures echoIn == old(echoIn) && tickIn == old(tickIn)
      ensures trig == old(trig) && trigWrites == old(trigWrites)
      ensures timerRunning == old(timerRunning) && uartOut == old(uartOut)
    {
      count := counterIn[0];
      counterIn := counterIn[1..];
    }

    /** HAL_GPIO_WritePin on the Trig pin. */
    method WriteTrig(level: bool)
      modifies this
      ensures trig == level && trigWrites == old(trigWrites) + [level]
      ensures echoIn == old(echoIn) && tickIn == old(tickIn) && counterIn == old(counterIn)
      ensures timerRunning == old(timerRunning) && uartOut == old(uartOut)
    {
      trig := level;
      trigWrites := trigWrites + [level];
    }

    /** delayMicroseconds: the timer is zeroed and started, the counter is
        read until it shows at least us, and the timer is stopped. */
    method DelayMicroseconds(us: uint32)
      requires DelayPolls(us, counterIn).Some?
      modifies this
      ensures counterIn == old(counterIn)[DelayPolls(us, old(counterIn)).value + 1..]
      ensures !timerRunning
      ensures echoIn == old(echoIn) && tickIn == old(tickIn)
      ensures trig == old(trig) && trigWrites == old(trigWrites) && uartOut == old(uartOut)
    {
      ghost var readings := counterIn;
      ghost var k := DelayPolls(us, counterIn).value;
      timerRunning := true;
      var count := GetCounter();
      ghost var n: nat := 0;
      if n < k {
        DelayPollsBelow(us, readings, n);
      }
      while count < us
        invariant n <= k && count == readings[n] && counterIn == readings[n + 1..]
        invariant n < k ==> count < us
        invariant echoIn == old(echoIn) && tickIn == old(tickIn)
        invariant trig == old(trig) && trigWrites == old(trigWrites) && uartOut == old(uartOut)
        decreases |counterIn|
      {
        count := GetCounter();
        n := n + 1;
        if n < k {
          DelayPollsBelow(us, readings, n);
        }
      }
      timerRunning := false;
    }

    /** One wait for an echo edge: the start tick is read, then the pin is
        polled while it shows level. */
    method AwaitEdge(level: bool) returns (timedOut: bool)
      requires AwaitEdgeSpec(level, echoIn, tickIn).Some?
      modifies this
      ensures var e := AwaitEdgeSpec(level, old(echoIn), old(tickIn)).value;
        timedOut == e.timedOut && echoIn == e.echo && tickIn == e.ticks
      ensures counterIn == old(counterIn) && timerRunning == old(timerRunning)
      ensures trig == old(trig) && trigWrites == old(trigWrites) && uartOut == old(uartOut)
    {
      EdgeFromWait(level, echoIn, tickIn);
      var start := GetTick();
      timedOut := PollWhile(level, start);
    }

    /** The wait loop: while the pin shows level, give up once the tick is
        past the deadline counted from start, else read the pin again. */
    method PollWhile(level: bool, start: uint32) returns (timedOut: bool)
      requires Wait(level, start, echoIn, tickIn, 0).Some?
      modifies this
      ensures var w := Wait(level, start, old(echoIn), old(tickIn), 0).value;
        && timedOut == w.timedOut
        && echoIn == old(echoIn)[if w.timedOut then w.polls else w.polls + 1..]
        && tickIn == old(tickIn)[w.polls..]
      ensures counterIn == old(counterIn) && timerRunning == old(timerRunning)
      ensures trig == old(trig) && trigWrites == old(trigWrites) && uartOut == old(uartOut)
    {
      ghost var echo0 := echoIn;
      ghost var ticks0 := tickIn;
      ghost var w := Wait(level, start, echo0, ticks0, 0).value;
      var pin := ReadEcho();
      ghost var n: nat := 0;
      while pin == level
        invariant n < |echo0| && n <= |ticks0|
        invariant pin == echo0[n] && echoIn == echo0[n + 1..] && tickIn == ticks0[n..]
        invariant Wait(level, start, echo0, ticks0, n) == Some(w)
        invariant counterIn == old(counterIn) && timerRunning == old(timerRunning)
        invariant trig == old(trig) && trigWrites == old(trigWrites) && uartOut == old(uartOut)
        decreases |echoIn|
      {
        var now := GetTick();
        if Expired(start, now) {
          return true;
        }
        pin := ReadEcho();
        n := n + 1;
      }
      return false;
    }

    /** The trigger pulse at the start of measureDistance: the Trig pin is held
        low for 2 us, high for 10 us, and left low. */
    method SendTrigger()
      requires AfterTrigger(counterIn).Some?
      modifies this
      ensures Some(counterIn) == AfterTrigger(old(counterIn))
      ensures !trig && trigWrites == old(trigWrites) + [false, true, false]
      ensures !timerRunning && echoIn == old(echoIn) && tickIn == old(tickIn) && uartOut == old(uartOut)
    {
      WriteTrig(false);
      DelayMicroseconds(SettleUs);
      WriteTrig(true);
      DelayMicroseconds(PulseUs);
      WriteTrig(false);
    }

    /** measureDistance: a 10 us trigger pulse, the wait for the echo to rise,
        the start time, the wait for it to fall, the end time, and the echo
        length scaled to cm and limited to the sensor's range. Either wait
        can time out, which yields 0. The trigger line ends low and the timer
        ends stopped on every path. */
    method MeasureDistance() returns (distance: real)
      requires Measure(Inputs()).Some?
      modifies this
      ensures var m := Measure(old(Inputs())).value;
        distance == Result(m.outcome) && Inputs() == m.rest
      ensures !trig && trigWrites == old(trigWrites) + [false, true, false]
      ensures !timerRunning && uartOut == old(uartOut)
    {
      ghost var t0 := Inputs();
      SendTrigger();
      ghost var c := counterIn;

      var timedOut := AwaitEdge(false);
      if timedOut {
        return 0.0;
      }
      assert AfterPulse(t0.echo, t0.ticks, c) == AfterRise(echoIn, tickIn, c);

      timerRunning := true;
      var startTime := GetCounter();

      timedOut := AwaitEdge(true);
      if timedOut {
        timerRunning := false;
        return 0.0;
      }

      var endTime := GetCounter();
      timerRunning := false;

      var duration := Sub32(endTime, startTime);
      distance := duration as real * CmPerUs;
      if distance < MinRange || distance > MaxRange {
        distance := 0.0;
      }
    }

    /** sendDistanceToPC: the distance is printed as "D:%.2f\r\n" into a
        32-byte buffer and the text sent over UART1. A text that does not fit
        the buffer would overflow it, so the line must be shorter than 32. */
    method SendDistanceToPC(distance: real)
      requires |EncodeLine(distance)| < 32
      modifies this
      ensures uartOut == old(uartOut) + EncodeLine(distance)
      ensures Inputs() == old(Inputs()) && trig == old(trig) && trigWrites == old(trigWrites)
      ensures timerRunning == old(timerRunning)
    {
      uartOut := uartOut + EncodeLine(distance);
    }
  }
}
