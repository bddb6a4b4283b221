/**
 * The running minimum and maximum that the metrics code keeps in an accumulator
 * (`Math.Min` / `Math.Max` applied element by element, from a given start value).
 */
module Running {

  function Max(a: int, b: int): int
  {
    if a >= b then a else b
  }

  function Min(a: int, b: int): int
  {
    if a <= b then a else b
  }

  /**
   * The accumulator that starts at `init` and takes `Max(acc, x)` for each `x` of `s`
   * in order: the least value that is at least `init` and at least every element.
   */
  function RunningMax(init: int, s: seq<int>): (r: int)
    ensures init <= r
    ensures forall t :: 0 <= t < |s| ==> s[t] <= r
    ensures r == init || r in s
  {
    if s == [] then init
    else
      var r' := RunningMax(init, s[..|s| - 1]);
      assert r' in s[..|s| - 1] ==> r' in s;
      Max(r', s[|s| - 1])
  }

  /**
   * The accumulator that starts at `init` and takes `Min(acc, x)` for each `x` of `s`
   * in order: the greatest value that is at most `init` and at most every element.
   */
  function RunningMin(init: int, s: seq<int>): (r: int)
    ensures r <= init
    ensures forall t :: 0 <= t < |s| ==> r <= s[t]
    ensures r == init || r in s
  {
    if s == [] then init
    else
      var r' := RunningMin(init, s[..|s| - 1]);
      assert r' in s[..|s| - 1] ==> r' in s;
      Min(r', s[|s| - 1])
  }

  /** The running maximum over a prefix one element longer. */
  lemma RunningMaxStep(init: int, s: seq<int>, j: nat)
    requires j < |s|
    ensures RunningMax(init, s[..j + 1]) == Max(RunningMax(init, s[..j]), s[j])
  {
    assert s[..j + 1][..j] == s[..j];
  }

  /** The running minimum over a prefix one element longer. */
  lemma RunningMinStep(init: int, s: seq<int>, j: nat)
    requires j < |s|
    ensures RunningMin(init, s[..j + 1]) == Min(RunningMin(init, s[..j]), s[j])
  {
    assert s[..j + 1][..j] == s[..j];
  }
}
