/** The sampling grid: `numpy.linspace(start, stop, n)` with the end point
    included, over exact reals. */
module Grid {

  /** A value, or the error the library would raise. */
  datatype Result<T> = Ok(value: T) | Err(msg: string)

  /** `n` evenly spaced samples from `start` to `stop`. As in numpy, the samples
      are `start + i * step` with the last one set to `stop` exactly; a single
      sample is `[start]`, zero samples give the empty sequence, and a negative
      count is rejected. */
  function Linspace(start: real, stop: real, n: int): (r: Result<seq<real>>)
    ensures r.Err? <==> n < 0
    ensures r.Ok? ==> |r.value| == n
    ensures r.Ok? && n >= 1 ==> r.value[0] == start
    ensures r.Ok? && n >= 2 ==> r.value[n - 1] == stop
  {
    if n < 0 then Err("Number of samples must be non-negative")
    else if n == 1 then Ok([start])
    else
      var step := (stop - start) / (n - 1) as real;
      Ok(seq(n, i requires 0 <= i < n => if i == n - 1 then stop else start + i as real * step))
  }

  /** With two or more samples, consecutive samples are exactly one step of
      `(stop - start) / (n - 1)` apart, the last one included. */
  lemma LinspaceEvenlySpaced(start: real, stop: real, n: int)
    requires n >= 2
    ensures Linspace(start, stop, n).Ok?
    ensures var s := Linspace(start, stop, n).value;
      forall i :: 0 <= i < n - 1 ==> s[i + 1] - s[i] == (stop - start) / (n - 1) as real
  {
    forall i | 0 <= i < n - 1
      ensures Linspace(start, stop, n).value[i + 1] - Linspace(start, stop, n).value[i]
              == (stop - start) / (n - 1) as real
    {
      LinspaceGap(start, stop, n, i);
    }
  }

  /** One gap between neighbouring samples. */
  lemma LinspaceGap(start: real, stop: real, n: int, i: int)
    requires n >= 2 && 0 <= i < n - 1
    ensures Linspace(start, stop, n).Ok? && |Linspace(start, stop, n).value| == n
    ensures Linspace(start, stop, n).value[i + 1] - Linspace(start, stop, n).value[i]
            == (stop - start) / (n - 1) as real
  {
    var step := (stop - start) / (n - 1) as real;
    if i == n - 2 {
      StepsAddUp(start, stop, n);
    } else {
      assert (i + 1) as real * step == i as real * step + step;
    }
  }

  /** `n - 1` steps of width `(stop - start) / (n - 1)` cover the interval exactly. */
  lemma StepsAddUp(start: real, stop: real, n: int)
    requires n >= 2
    ensures start + (n - 2) as real * ((stop - start) / (n - 1) as real) + (stop - start) / (n - 1) as real == stop
  {
    var step := (stop - start) / (n - 1) as real;
    assert (n - 1) as real * step == stop - start;
    assert (n - 2) as real * step + step == (n - 1) as real * step;
  }

  /** For `start <= stop` a later sample is never smaller than an earlier one:
      each of the gaps between them is a non-negative step. */
  lemma {:induction false} LinspaceMonotone(start: real, stop: real, n: int, i: int, j: int)
    requires start <= stop && n >= 2 && 0 <= i <= j < n
    decreases j - i
    ensures Linspace(start, stop, n).Ok? && |Linspace(start, stop, n).value| == n
    ensures Linspace(start, stop, n).value[i] <= Linspace(start, stop, n).value[j]
  {
    if i < j {
      LinspaceMonotone(start, stop, n, i, j - 1);
      LinspaceGap(start, stop, n, j - 1);
      assert (stop - start) / (n - 1) as real >= 0.0;
    }
  }

  /** For `start <= stop` the samples are non-decreasing and stay inside `[start, stop]`. */
  lemma LinspaceOrdered(start: real, stop: real, n: int)
    requires start <= stop && n >= 0
    ensures Linspace(start, stop, n).Ok?
    ensures var s := Linspace(start, stop, n).value;
      (forall i :: 0 <= i < |s| ==> start <= s[i] <= stop)
      && (forall i, j :: 0 <= i <= j < |s| ==> s[i] <= s[j])
  {
    var s := Linspace(start, stop, n).value;
    if n >= 2 {
      forall i, j | 0 <= i <= j < n
        ensures s[i] <= s[j]
      {
        LinspaceMonotone(start, stop, n, i, j);
      }
      forall i | 0 <= i < n
        ensures start <= s[i] <= stop
      {
        LinspaceMonotone(start, stop, n, 0, i);
        LinspaceMonotone(start, stop, n, i, n - 1);
      }
    }
  }
}
