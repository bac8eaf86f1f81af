/**
 * ChartWidget: the host's live distance plot. Each accepted distance becomes
 * a point (sample number, distance) at the end of a line series; once the
 * series holds more points than the display capacity the oldest point is
 * dropped and the X axis follows the newest samples.
 */
module Chart {

  /** One plotted sample: its sample number and the distance in cm. */
  datatype Point = Point(x: int, y: real)

  /** The capacity a new chart starts with. */
  const DefaultMaxDataPoints: int := 100

  /** The points carry the consecutive sample numbers that end just below counter. */
  predicate Consecutive(series: seq<Point>, counter: int)
  {
    forall k :: 0 <= k < |series| ==> series[k].x == counter - |series| + k
  }

  /** The series after appending p: when it then holds more than capacity
      points, exactly one point, the oldest, is dropped. The result is the
      old series plus p with at most its first point cut off. */
  function Slide(series: seq<Point>, capacity: int, p: Point): (r: seq<Point>)
    ensures |r| == if |series| + 1 > capacity then |series| else |series| + 1
    ensures r == (series + [p])[|series| + 1 - |r|..]
  {
    var grown := series + [p];
    if |grown| > capacity then grown[1..] else grown
  }

  /** A series within its capacity stays within it. */
  lemma SlideKeepsBound(series: seq<Point>, capacity: int, p: Point)
    requires |series| <= capacity
    ensures |Slide(series, capacity, p)| <= capacity
  {
  }

  /** A series over its capacity (after the capacity was lowered) does not
      shrink: it is trimmed by one point per append only, never more. */
  lemma SlideTrimsLazily(series: seq<Point>, capacity: int, p: Point)
    requires |series| >= capacity
    ensures |Slide(series, capacity, p)| == |series|
  {
  }

  /** Appending the point numbered counter keeps the numbers consecutive,
      now ending at counter. */
  lemma SlideConsecutive(series: seq<Point>, capacity: int, counter: int, y: real)
    requires Consecutive(series, counter)
    ensures Consecutive(Slide(series, capacity, Point(counter, y)), counter + 1)
  {
    var grown := series + [Point(counter, y)];
    assert Consecutive(grown, counter + 1) by {
      forall k | 0 <= k < |grown|
        ensures grown[k].x == counter + 1 - |grown| + k
      {
        if k < |series| {
          assert grown[k] == series[k];
        }
      }
    }
  }

  class ChartWidget {
    /** m_series: the plotted points, oldest first. */
    var series: seq<Point>
    /** m_maxDataPoints: how many points the chart shows. */
    var maxDataPoints: int
    /** m_dataCounter: the number the next sample gets. */
    var dataCounter: int
    /** m_isPaused: while set, new samples are ignored. */
    var isPaused: bool
    /** The visible range of the X axis. */
    var axisXMin: int
    var axisXMax: int

    /** The sample numbers on the chart are consecutive and end just below
        the counter, which never falls behind the number of points; the X
        axis range is never inverted. */
    predicate Valid()
      reads this
    {
      Consecutive(series, dataCounter) && |series| <= dataCounter && axisXMin <= axisXMax
    }

    /** A new chart: capacity 100, counter 0, running, empty, X axis [0, 100]. */
    constructor ()
      ensures Valid()
      ensures series == [] && maxDataPoints == DefaultMaxDataPoints && dataCounter == 0
      ensures !isPaused && axisXMin == 0 && axisXMax == DefaultMaxDataPoints
    {
      series := [];
      maxDataPoints := DefaultMaxDataPoints;
      dataCounter := 0;
      isPaused := false;
      axisXMin := 0;
      axisXMax := DefaultMaxDataPoints;
    }

    /** QValueAxis::setRange on the X axis: a range whose minimum exceeds its
        maximum is ignored and the axis keeps its old range. */
    method SetAxisXRange(lo: int, hi: int)
      modifies this
      ensures lo <= hi ==> axisXMin == lo && axisXMax == hi
      ensures lo > hi ==> axisXMin == old(axisXMin) && axisXMax == old(axisXMax)
      ensures series == old(series) && dataCounter == old(dataCounter)
      ensures maxDataPoints == old(maxDataPoints) && isPaused == old(isPaused)
    {
      if lo <= hi {
        axisXMin := lo;
        axisXMax := hi;
      }
    }

    /** addDataPoint: while paused nothing changes. Otherwise the point
        (counter, distance) is appended, the counter moves on by one, and if
        the series has grown past its capacity the oldest point is removed
        and the X axis is asked to show the last capacity sample numbers,
        which it does unless the capacity is negative. */
    method AddDataPoint(distance: real)
      requires Valid()
      modifies this
      ensures Valid()
      ensures maxDataPoints == old(maxDataPoints) && isPaused == old(isPaused)
      ensures old(isPaused) ==>
        && series == old(series) && dataCounter == old(dataCounter)
        && axisXMin == old(axisXMin) && axisXMax == old(axisXMax)
      ensures !old(isPaused) ==>
        && series == Slide(old(series), maxDataPoints, Point(old(dataCounter), distance))
        && dataCounter == old(dataCounter) + 1
      ensures !old(isPaused) && |old(series)| + 1 > maxDataPoints && maxDataPoints >= 0 ==>
        axisXMin == dataCounter - maxDataPoints && axisXMax == dataCounter
      ensures !old(isPaused) && (|old(series)| + 1 <= maxDataPoints || maxDataPoints < 0) ==>
        axisXMin == old(axisXMin) && axisXMax == old(axisXMax)
    {
      if isPaused {
        return;
      }
      SlideConsecutive(series, maxDataPoints, dataCounter, distance);
      series := series + [Point(dataCounter, distance)];
      dataCounter := dataCounter + 1;
      if |series| > maxDataPoints {
        series := series[1..];
        SetAxisXRange(dataCounter - maxDataPoints, dataCounter);
      }
    }

    /** setMaxDataPoints: the new capacity is taken as is and the X axis set
        to [0, count] (kept as it was for a negative count); no stored point
        is removed here. */
    method SetMaxDataPoints(count: int)
      requires Valid()
      modifies this
      ensures Valid()
      ensures maxDataPoints == count
      ensures count >= 0 ==> axisXMin == 0 && axisXMax == count
      ensures count < 0 ==> axisXMin == old(axisXMin) && axisXMax == old(axisXMax)
      ensures series == old(series) && dataCounter == old(dataCounter) && isPaused == old(isPaused)
    {
      maxDataPoints := count;
      SetAxisXRange(0, maxDataPoints);
    }

    /** clearData: no points, counter back to 0, X axis [0, capacity] (kept as
        it was for a negative capacity); the capacity and the pause flag are kept. */
    method ClearData()
      requires Valid()
      modifies this
      ensures Valid()
      ensures series == [] && dataCounter == 0
      ensures maxDataPoints >= 0 ==> axisXMin == 0 && axisXMax == maxDataPoints
      ensures maxDataPoints < 0 ==> axisXMin == old(axisXMin) && axisXMax == old(axisXMax)
      ensures maxDataPoints == old(maxDataPoints) && isPaused == old(isPaused)
    {
      series := [];
      dataCounter := 0;
      SetAxisXRange(0, maxDataPoints);
    }

    /** setPaused: only the flag changes. */
    method SetPaused(paused: bool)
      requires Valid()
      modifies this
      ensures Valid()
      ensures isPaused == paused
      ensures series == old(series) && dataCounter == old(dataCounter)
      ensures maxDataPoints == old(maxDataPoints)
      ensures axisXMin == old(axisXMin) && axisXMax == old(axisXMax)
    {
      isPaused := paused;
    }
  }
}
