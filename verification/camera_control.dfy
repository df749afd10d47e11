/** The scripting layer's `CameraControl` (omni_camera/__init__.py:129-152):
    the range of values a device control accepts, built from the backend's
    `(start, stop, step)` triple, and the range check made before a value is
    handed to the backend. The backend control object is not modelled: its
    triple is a parameter and the value forwarded to it is the result. */
module CameraControl {
  import opened Wrappers

  /** Python's floor division `a // b`. Dafny's `/` is Euclidean; the two
      differ when `b` is negative and does not divide `a`. */
  function FloorDiv(a: int, b: int): (q: int)
    requires b != 0
    ensures b > 0 ==> q * b <= a < q * b + b
    ensures b < 0 ==> q * b + b < a <= q * b
  {
    if b > 0 || a % b == 0 then a / b else a / b - 1
  }

  /** A Python `range(start, stop, step)`; Python refuses a zero step. */
  datatype PyRange = PyRange(start: int, stop: int, step: int)

  /** Python's `v in range(...)`, the arithmetic test of `range.__contains__`:
      inside the half-open interval, stop excluded, on the step grid. */
  predicate Contains(r: PyRange, v: int)
    requires r.step != 0
  {
    (if r.step > 0 then r.start <= v < r.stop else r.stop < v <= r.start) &&
    (v - r.start) % r.step == 0
  }

  /** The values a range enumerates, in order. */
  function Elements(start: int, stop: int, step: int): seq<int>
    requires step != 0
    decreases if step > 0 then stop - start else start - stop
  {
    if (step > 0 && start >= stop) || (step < 0 && start <= stop) then []
    else [start] + Elements(start + step, stop, step)
  }

  lemma {:induction false} ProductAtLeast(a: nat, b: nat)
    requires a >= 1
    ensures a * b >= b
    decreases a
  {
    if a > 1 {
      ProductAtLeast(a - 1, b);
      assert a * b == (a - 1) * b + b;
    }
  }

  /** A non-zero multiple of `step` is at least as large as `step` in size. */
  lemma NonZeroMultiple(k: int, step: int)
    ensures k != 0 ==> k * step >= step || k * step <= -step
    ensures k != 0 ==> k * step >= -step || k * step <= step
  {
    if k != 0 {
      var a: nat := if k > 0 then k else -k;
      var b: nat := if step > 0 then step else -step;
      ProductAtLeast(a, b);
      assert a * b == k * step || a * b == -(k * step);
    }
  }

  lemma ShiftKeepsDivisibility(d: int, step: int)
    requires step != 0
    ensures (d - step) % step == d % step
  {
    var q, m := d / step, d % step;
    var q', m' := (d - step) / step, (d - step) % step;
    assert q * step + m == d;
    assert q' * step + m' == d - step;
    assert (q' + 1 - q) * step == m - m';
    NonZeroMultiple(q' + 1 - q, step);
  }

  lemma DivisibleGap(d: int, step: int)
    requires step != 0 && d % step == 0
    ensures step > 0 && d > 0 ==> d >= step
    ensures step < 0 && d < 0 ==> d <= step
  {
    var q := d / step;
    assert d == q * step;
    if step > 0 && d > 0 {
      assert q >= 1;
    }
    if step < 0 && d < 0 {
      assert q >= 1;
    }
  }

  /** The arithmetic membership test agrees with enumerating the range. */
  lemma {:induction false} ContainsIffElement(r: PyRange, v: int)
    requires r.step != 0
    ensures Contains(r, v) <==> v in Elements(r.start, r.stop, r.step)
    decreases if r.step > 0 then r.stop - r.start else r.start - r.stop
  {
    var start, stop, step := r.start, r.stop, r.step;
    if (step > 0 && start >= stop) || (step < 0 && start <= stop) {
      assert !Contains(r, v);
    } else {
      var next := PyRange(start + step, stop, step);
      ContainsIffElement(next, v);
      ShiftKeepsDivisibility(v - start, step);
      assert v - (start + step) == (v - start) - step;
      assert v in Elements(start, stop, step) <==> v == start || v in Elements(start + step, stop, step);
      if Contains(r, v) && v != start {
        DivisibleGap(v - start, step);
        assert Contains(next, v);
      }
    }
  }

  datatype ControlError =
    | ZeroDivision  // `start // step` with a zero step raises ZeroDivisionError
    | NeverReturns  // the start-adjustment loop never exits
    | NotInRange    // `assert value in self.value_range` fails

  /** What `value_range` yields for a backend triple: the range exactly as
      given, or the failure the property runs into first. */
  function RangeOf(start: int, stop: int, step: int): (r: Result<PyRange, ControlError>)
    ensures r.Ok? ==> r.value == PyRange(start, stop, step) && step != 0
    ensures r.Err? <==> step == 0 || (step < 0 && start % step == 0)
  {
    if step == 0 then Err(ZeroDivision)
    else if step < 0 && start % step == 0 then Err(NeverReturns)
    else Ok(PyRange(start, stop, step))
  }

  /** `value_range` (omni_camera/__init__.py:133-143). The loop moves an
      adjusted start above `start` and the result is then discarded: the
      range returned is the backend's triple unchanged. With a positive step
      the loop ends; with a negative step it never runs unless `step` divides
      `start`, where each pass moves further below `start` and it never ends. */
  method ValueRange(start: int, stop: int, step: int) returns (r: Result<PyRange, ControlError>)
    ensures r == RangeOf(start, stop, step)
  {
    if step == 0 {
      return Err(ZeroDivision);
    }
    var newStart := FloorDiv(start, step) * step;
    if step < 0 && newStart <= start {
      return Err(NeverReturns);
    }
    while newStart <= start
      invariant newStart <= start ==> step > 0
      decreases start - newStart
    {
      newStart := newStart + step;
    }
    r := Ok(PyRange(start, stop, step));
  }

  /** `set_value` (omni_camera/__init__.py:145-152): the value handed to the
      backend control, or the error raised before anything is handed over.
      `None` skips the range entirely; any other value must be one the
      backend's range enumerates, so `stop` itself is refused. */
  method SetValue(start: int, stop: int, step: int, value: Option<int>) returns (r: Result<Option<int>, ControlError>)
    ensures value.None? ==> r == Ok(None)
    ensures value.Some? && RangeOf(start, stop, step).Err? ==> r == Err(RangeOf(start, stop, step).error)
    ensures value.Some? && RangeOf(start, stop, step).Ok? ==>
      r == (if value.value in Elements(start, stop, step) then Ok(value) else Err(NotInRange))
  {
    match value
    case None =>
      r := Ok(None);
    case Some(v) =>
      var range := ValueRange(start, stop, step);
      match range
      case Err(e) =>
        r := Err(e);
      case Ok(pyRange) =>
        ContainsIffElement(pyRange, v);
        if Contains(pyRange, v) {
          r := Ok(Some(v));
        } else {
          r := Err(NotInRange);
        }
  }
}
