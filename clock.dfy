/** The fixed-timestep scheduler and the speed rule. The game keeps the update interval as
    a float; this model keeps its reciprocal, an integer number of ticks per second. */
module Clock {

  function Min(a: int, b: int): int {
    if a <= b then a else b
  }

  function MaxReal(a: real, b: real): real {
    if a >= b then a else b
  }

  /** Ticks per second for a snake of the given length: the base rate plus one per three
      cells of length, capped at twice the base rate. */
  function TickRate(fps: int, length: int): (r: int)
    requires fps > 0 && length >= 0
    ensures fps <= r <= 2 * fps
    ensures length >= 3 * fps ==> r == 2 * fps
    ensures length < 3 ==> r == fps
  {
    Min(2 * fps, fps + length / 3)
  }

  /** The interval the game computes, in seconds: max(1/(2 fps), 1/(fps + length div 3)). */
  function Interval(fps: int, length: int): (r: real)
    requires fps > 0 && length >= 0
    ensures 1.0 / ((2 * fps) as real) <= r <= 1.0 / (fps as real)
  {
    ReciprocalAntitone(fps as real, (2 * fps) as real);
    ReciprocalAntitone(fps as real, (fps + length / 3) as real);
    MaxReal(1.0 / ((2 * fps) as real), 1.0 / ((fps + length / 3) as real))
  }

  /** For positive reals, the larger reciprocal belongs to the smaller number. */
  lemma {:induction false} ReciprocalAntitone(a: real, b: real)
    requires 0.0 < a <= b
    ensures 1.0 / b <= 1.0 / a
  {
    assert 1.0 / a - 1.0 / b == (b - a) / (a * b);
  }

  /** The float interval is exactly the reciprocal of the integer tick rate. */
  lemma {:induction false} IntervalIsReciprocalOfRate(fps: int, length: int)
    requires fps > 0 && length >= 0
    ensures Interval(fps, length) == 1.0 / (TickRate(fps, length) as real)
  {
    var a := (2 * fps) as real;
    var b := (fps + length / 3) as real;
    if 2 * fps <= fps + length / 3 {
      ReciprocalAntitone(a, b);
    } else {
      ReciprocalAntitone(b, a);
    }
  }

  /** A longer snake never moves more slowly. */
  lemma {:induction false} TickRateMonotonic(fps: int, shorter: int, longer: int)
    requires fps > 0 && 0 <= shorter <= longer
    ensures TickRate(fps, shorter) <= TickRate(fps, longer)
  {
    assert 3 * (shorter / 3) <= shorter <= longer < 3 * (longer / 3) + 3;
  }

  /** The initial interval 1/fps is the rate rule's value for the initial length 1, and the
      two sample lengths for the easy tier. */
  lemma TickRateSamples()
    ensures TickRate(10, 1) == 10 && TickRate(10, 3) == 11 && TickRate(10, 30) == 20
    ensures Interval(10, 30) == 1.0 / 20.0 && Interval(10, 3) == 1.0 / 11.0
  {
    IntervalIsReciprocalOfRate(10, 30);
    IntervalIsReciprocalOfRate(10, 3);
  }

  /** A simulation step is due once a full interval has passed since the last one. */
  predicate Due(now: real, lastUpdate: real, rate: int): (r: bool)
    requires rate > 0
    ensures r <==> (now - lastUpdate) * (rate as real) >= 1.0
  {
    AtLeastReciprocal(now - lastUpdate, rate as real);
    now - lastUpdate >= 1.0 / (rate as real)
  }

  /** The game's own test: a step is due once the time since the last one reaches the
      float interval of the current tier and length. */
  lemma {:induction false} DueIsIntervalTest(now: real, lastUpdate: real, fps: int, length: int)
    requires fps > 0 && length >= 0
    ensures Due(now, lastUpdate, TickRate(fps, length)) <==> now - lastUpdate >= Interval(fps, length)
  {
    IntervalIsReciprocalOfRate(fps, length);
  }

  /** For a positive q, x reaches 1/q exactly when x times q reaches 1. */
  lemma {:induction false} AtLeastReciprocal(x: real, q: real)
    requires q > 0.0
    ensures x >= 1.0 / q <==> x * q >= 1.0
  {
    assert x * q - 1.0 == (x - 1.0 / q) * q;
  }
}
