/** `find_max` and `find_min` of `minmax_calculator.py`: linear scans from the
    first element. */
module MinmaxCalculator {

  predicate IsMaxOf(s: seq<real>, m: real) {
    m in s && forall i | 0 <= i < |s| :: s[i] <= m
  }

  predicate IsMinOf(s: seq<real>, m: real) {
    m in s && forall i | 0 <= i < |s| :: m <= s[i]
  }

  /** `find_max`: the list must not be empty, since the scan starts at `s[0]`. */
  method FindMax(s: seq<real>) returns (max: real)
    requires |s| > 0
    ensures IsMaxOf(s, max)
  {
    max := s[0];
    for i := 0 to |s|
      invariant max in s
      invariant forall k | 0 <= k < i :: s[k] <= max
    {
      if s[i] > max {
        max := s[i];
      }
    }
  }

  /** `find_min`: the mirror image of `find_max`. */
  method FindMin(s: seq<real>) returns (min: real)
    requires |s| > 0
    ensures IsMinOf(s, min)
  {
    min := s[0];
    for i := 0 to |s|
      invariant min in s
      invariant forall k | 0 <= k < i :: min <= s[k]
    {
      if s[i] < min {
        min := s[i];
      }
    }
  }

  /** The maximum and minimum of a list are unique. */
  lemma ExtremaUnique(s: seq<real>, m1: real, m2: real, n1: real, n2: real)
    requires IsMaxOf(s, m1) && IsMaxOf(s, m2) && IsMinOf(s, n1) && IsMinOf(s, n2)
    ensures m1 == m2 && n1 == n2
  {
    var i1, i2 :| 0 <= i1 < |s| && s[i1] == m1 && 0 <= i2 < |s| && s[i2] == m2;
    var j1, j2 :| 0 <= j1 < |s| && s[j1] == n1 && 0 <= j2 < |s| && s[j2] == n2;
  }

  /** The printed minimum never exceeds the printed maximum. */
  lemma MinAtMostMax(s: seq<real>, min: real, max: real)
    requires IsMinOf(s, min) && IsMaxOf(s, max)
    ensures min <= max
  {
    var i :| 0 <= i < |s| && s[i] == min;
  }
}
