/**
 Evenly spaced marks over a closed interval, the exact-arithmetic reading of
 `np.linspace(lo, hi, n)` with its default `endpoint=True`.

 numpy computes `step = (hi - lo) / (n - 1)` and the k-th mark as
 `lo + k * step` when `n >= 2`; with a single mark the step is undefined and
 the only mark is `lo`; with no marks the result is empty. Over `real` the
 last mark is `hi` exactly, which numpy enforces by overwriting it.
 */
module EvenMarks {

  /** Distance between neighbouring marks (zero when there are fewer than two). */
  function Step(lo: real, hi: real, n: nat): real
  {
    if n <= 1 then 0.0 else (hi - lo) / ((n - 1) as real)
  }

  /** The k-th of n marks from lo to hi. */
  function Mark(lo: real, hi: real, n: nat, k: nat): real
  {
    lo + (k as real) * Step(lo, hi, n)
  }

  /** `np.linspace(lo, hi, n)`: n marks, the first at lo and the last at hi
      (LinspaceSpacing gives the distances between them). */
  function Linspace(lo: real, hi: real, n: nat): (s: seq<real>)
    ensures |s| == n
    ensures n >= 1 ==> s[0] == lo
    ensures n >= 2 ==> s[n - 1] == hi
  {
    var s := seq(n, k requires 0 <= k < n => Mark(lo, hi, n, k));
    assert n >= 2 ==> s[n - 1] == hi by {
      if n >= 2 {
        StepSpansInterval(lo, hi, n);
      }
    }
    s
  }

  /** Any two marks are a whole number of equal steps apart, so the marks
      increase strictly from lo to hi when lo < hi. */
  lemma LinspaceSpacing(lo: real, hi: real, n: nat, i: nat, j: nat)
    requires i <= j < n
    ensures Linspace(lo, hi, n)[j] - Linspace(lo, hi, n)[i] == ((j - i) as real) * Step(lo, hi, n)
    ensures lo < hi && i < j ==> Linspace(lo, hi, n)[i] < Linspace(lo, hi, n)[j]
  {
  }

  /** n - 1 steps cover the interval exactly. */
  lemma StepSpansInterval(lo: real, hi: real, n: nat)
    requires n >= 2
    ensures ((n - 1) as real) * Step(lo, hi, n) == hi - lo
  {
  }

  /** The mark j steps below the last one. */
  lemma MarkFromTop(lo: real, hi: real, n: nat, j: nat)
    requires 1 <= j < n
    ensures Mark(lo, hi, n, n - 1 - j) == hi - (j as real) * Step(lo, hi, n)
  {
  }

  /** Every mark lies in the closed interval spanned by lo and hi, whichever
      of the two is larger. */
  lemma MarkWithin(lo: real, hi: real, n: nat, k: nat)
    requires k < n
    ensures lo <= hi ==> lo <= Mark(lo, hi, n, k) <= hi
    ensures hi <= lo ==> hi <= Mark(lo, hi, n, k) <= lo
  {
    if n >= 2 {
      var step := Step(lo, hi, n);
      StepSpansInterval(lo, hi, n);
      var below := (k as real) * step;
      var above := ((n - 1 - k) as real) * step;
      assert ((n - 1 - k) as real) == ((n - 1) as real) - (k as real);
      assert below + above == hi - lo;
      if lo <= hi {
        assert step >= 0.0;
        assert below >= 0.0 && above >= 0.0;
      } else {
        assert step <= 0.0;
        assert below <= 0.0 && above <= 0.0;
      }
    }
  }
}
