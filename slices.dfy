/**
 * Python slice semantics, as `array.__getitem__` applies them to a slice key:
 * missing fields take their defaults, negative bounds count from the end,
 * bounds are clamped to the sequence, a zero step is refused, and the
 * selection runs from start (inclusive) towards stop (exclusive) in strides
 * of step.
 */
module Slices {
  import opened Wrappers
  import opened Vectors

  /** A slice key `start:stop:step`; `None` is an omitted field. */
  datatype Slice = Slice(start: Option<int>, stop: Option<int>, step: Option<int>)

  /** A slice resolved against a length: concrete start, stop and non-zero step. */
  datatype Bounds = Bounds(start: int, stop: int, step: int)

  /** The bounds Select may walk over in a sequence of length n. */
  predicate InRange(b: Bounds, n: nat)
  {
    && b.step != 0
    && (b.step > 0 ==> 0 <= b.start <= n && 0 <= b.stop <= n)
    && (b.step < 0 ==> -1 <= b.start < n && -1 <= b.stop < n)
  }

  /** The weaker condition under which Select can walk from start towards stop. */
  predicate Walkable(b: Bounds, n: nat)
  {
    && b.step != 0
    && (b.step > 0 ==> 0 <= b.start && b.stop <= n)
    && (b.step < 0 ==> b.start < n && -1 <= b.stop)
  }

  /**
   * One given bound resolved against length n: a negative bound counts from
   * the end, and a bound still outside the sequence is clamped to the first
   * or last position the step direction can use.
   */
  function Adjust(x: int, n: nat, step: int): (r: int)
    ensures step > 0 ==> 0 <= r <= n
    ensures step < 0 ==> -1 <= r < n
    ensures 0 <= x < n ==> r == x
    ensures x < 0 && x + n >= 0 ==> r == x + n
    ensures x >= n ==> r == (if step < 0 then n - 1 else n)
    ensures x + n < 0 ==> r == (if step < 0 then -1 else 0)
  {
    if x < 0 then (if x + n < 0 then (if step < 0 then -1 else 0) else x + n)
    else if x >= n then (if step < 0 then n - 1 else n)
    else x
  }

  /**
   * `slice.indices(n)`: an omitted step is 1 and a zero step raises
   * ValueError; an omitted start is the first position in the step's
   * direction and an omitted stop lies just past the last one.
   */
  function Indices(s: Slice, n: nat): (r: Result<Bounds, Error>)
    ensures r.Failure? <==> s.step == Some(0)
    ensures r.Failure? ==> r.error == ValueError
    ensures r.Success? ==> InRange(r.value, n)
    ensures r.Success? && s.step.None? ==> r.value.step == 1
    ensures r.Success? && s.step.Some? ==> r.value.step == s.step.value
    ensures r.Success? && s.start.Some? ==> r.value.start == Adjust(s.start.value, n, r.value.step)
    ensures r.Success? && s.start.None? ==> r.value.start == (if r.value.step < 0 then n - 1 else 0)
    ensures r.Success? && s.stop.Some? ==> r.value.stop == Adjust(s.stop.value, n, r.value.step)
    ensures r.Success? && s.stop.None? ==> r.value.stop == (if r.value.step < 0 then -1 else n)
  {
    var step := if s.step.Some? then s.step.value else 1;
    if step == 0 then Failure(ValueError)
    else
      var start := if s.start.Some? then Adjust(s.start.value, n, step)
                   else if step < 0 then n - 1 else 0;
      var stop := if s.stop.Some? then Adjust(s.stop.value, n, step)
                  else if step < 0 then -1 else n;
      Success(Bounds(start, stop, step))
  }

  /** The number of positions a resolved slice selects. */
  function SliceLength(b: Bounds): nat
    requires b.step != 0
  {
    if b.step > 0 then (if b.start < b.stop then (b.stop - b.start - 1) / b.step + 1 else 0)
    else (if b.start > b.stop then (b.start - b.stop - 1) / (-b.step) + 1 else 0)
  }

  /** The elements at start, start + step, ... strictly before stop. */
  function Select<T>(xs: seq<T>, b: Bounds): seq<T>
    requires Walkable(b, |xs|)
    decreases if b.step > 0 then b.stop - b.start else b.start - b.stop
  {
    if (b.step > 0 && b.start < b.stop) || (b.step < 0 && b.start > b.stop) then
      [xs[b.start]] + Select(xs, Bounds(b.start + b.step, b.stop, b.step))
    else []
  }

  lemma DivStep(a: int, d: int)
    requires d > 0 && a >= d
    ensures (a - d) / d + 1 == a / d
  {
    var q, r := (a - d) / d, (a - d) % d;
    assert a == d * (q + 1) + r;
    DivUnique(a, d, q + 1, r);
  }

  lemma DivUnique(a: int, d: int, q: int, r: int)
    requires d > 0 && 0 <= r < d && a == d * q + r
    ensures a / d == q
  {
    var q', r' := a / d, a % d;
    assert d * q' + r' == d * q + r;
    if q' > q {
      MulAtLeast(d, q' - q);
    } else if q' < q {
      MulAtLeast(d, q - q');
    }
  }

  lemma {:induction false} MulAtLeast(d: int, k: int)
    requires d > 0 && k >= 1
    ensures d * k >= d
  {
    if k > 1 {
      MulAtLeast(d, k - 1);
      assert d * k == d * (k - 1) + d;
    }
  }

  /** The selection has SliceLength(b) elements. */
  lemma {:induction false} SelectLength<T>(xs: seq<T>, b: Bounds)
    requires Walkable(b, |xs|)
    ensures |Select(xs, b)| == SliceLength(b)
    decreases if b.step > 0 then b.stop - b.start else b.start - b.stop
  {
    if (b.step > 0 && b.start < b.stop) || (b.step < 0 && b.start > b.stop) {
      SelectLength(xs, Bounds(b.start + b.step, b.stop, b.step));
      var d := if b.step > 0 then b.step else -b.step;
      var a := if b.step > 0 then b.stop - b.start - 1 else b.start - b.stop - 1;
      if a >= d {
        DivStep(a, d);
      } else {
        DivUnique(a, d, 0, a);
      }
    }
  }

  /** The k-th element of the selection is the one at position start + k * step. */
  lemma {:induction false} SelectAt<T>(xs: seq<T>, b: Bounds, k: nat)
    requires Walkable(b, |xs|)
    requires k < |Select(xs, b)|
    ensures 0 <= b.start + k * b.step < |xs|
    ensures Select(xs, b)[k] == xs[b.start + k * b.step]
    decreases k
  {
    if k > 0 {
      var b' := Bounds(b.start + b.step, b.stop, b.step);
      SelectAt(xs, b', k - 1);
      assert b'.start + (k - 1) * b.step == b.start + k * b.step;
    }
  }

  /** Select agrees with the direct description of a slice as a comprehension. */
  lemma SelectIsStride<T>(xs: seq<T>, b: Bounds)
    requires Walkable(b, |xs|)
    ensures forall k :: 0 <= k < SliceLength(b) ==> 0 <= b.start + k * b.step < |xs|
    ensures Select(xs, b) == seq(SliceLength(b), k requires 0 <= k < SliceLength(b) => xs[b.start + k * b.step])
  {
    SelectLength(xs, b);
    forall k | 0 <= k < SliceLength(b)
      ensures 0 <= b.start + k * b.step < |xs| && Select(xs, b)[k] == xs[b.start + k * b.step]
    {
      SelectAt(xs, b, k);
    }
  }
}
