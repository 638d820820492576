/** The summary statistics of a finished session: total, average, fastest and
    slowest keystroke interval, and the accuracy of the typed text against the
    sentence. Times are exact reals; the two-decimal display rounding is not
    modelled. */
module Statistics {

  /** The sum of the intervals, added from the left. */
  function Sum(ts: seq<real>): real
  {
    if ts == [] then 0.0 else Sum(ts[..|ts| - 1]) + ts[|ts| - 1]
  }

  /** The smallest interval of a non-empty list. */
  function Fastest(ts: seq<real>): (m: real)
    requires ts != []
    ensures m in ts
    ensures forall i :: 0 <= i < |ts| ==> m <= ts[i]
  {
    if |ts| == 1 then ts[0]
    else
      var rest := Fastest(ts[1..]);
      if ts[0] <= rest then ts[0] else rest
  }

  /** The largest interval of a non-empty list. */
  function Slowest(ts: seq<real>): (m: real)
    requires ts != []
    ensures m in ts
    ensures forall i :: 0 <= i < |ts| ==> ts[i] <= m
  {
    if |ts| == 1 then ts[0]
    else
      var rest := Slowest(ts[1..]);
      if ts[0] >= rest then ts[0] else rest
  }

  /** A sum of n values that all lie in [lo, hi] lies in [n * lo, n * hi]. */
  lemma {:induction false} SumBetween(ts: seq<real>, lo: real, hi: real)
    requires forall i :: 0 <= i < |ts| ==> lo <= ts[i] <= hi
    ensures |ts| as real * lo <= Sum(ts) <= |ts| as real * hi
    decreases |ts|
  {
    if ts != [] {
      var init := ts[..|ts| - 1];
      assert forall i :: 0 <= i < |init| ==> init[i] == ts[i];
      SumBetween(init, lo, hi);
      assert |ts| as real * lo == |init| as real * lo + lo;
      assert |ts| as real * hi == |init| as real * hi + hi;
    }
  }

  /** Dividing by a positive count keeps the bounds of a sum of that many values. */
  lemma DivideBetween(total: real, n: real, lo: real, hi: real)
    requires n > 0.0 && n * lo <= total <= n * hi
    ensures lo <= total / n <= hi
  {
  }

  /** The average of a non-empty list, its sum over its length; it lies
      between the fastest and the slowest entry. */
  function Mean(ts: seq<real>): (m: real)
    requires ts != []
    ensures m == Sum(ts) / |ts| as real
    ensures Fastest(ts) <= m <= Slowest(ts)
  {
    var total, n, lo, hi := Sum(ts), |ts| as real, Fastest(ts), Slowest(ts);
    SumBetween(ts, lo, hi);
    DivideBetween(total, n, lo, hi);
    total / n
  }

  datatype Timing = Timing(total: real, average: real, fastest: real, slowest: real)

  /** The four timing figures of the report. Each is 0 for an empty list;
      otherwise the total is the sum, the average is the total over the count
      and lies between the fastest and the slowest time, and those two are
      entries of the list that bound every entry. */
  function Summarize(ts: seq<real>): (r: Timing)
    ensures ts == [] ==> r == Timing(0.0, 0.0, 0.0, 0.0)
    ensures ts != [] ==> r.total == Sum(ts) && r.average == r.total / |ts| as real
    ensures ts != [] ==> r.fastest in ts && r.slowest in ts
    ensures forall i :: 0 <= i < |ts| ==> r.fastest <= ts[i] <= r.slowest
    ensures r.fastest <= r.average <= r.slowest
  {
    if ts == [] then Timing(0.0, 0.0, 0.0, 0.0)
    else
      Timing(Sum(ts), Mean(ts), Fastest(ts), Slowest(ts))
  }

  /** The typed text cut to at most the length of the sentence. */
  function Truncate(typed: string, sentence: string): (t: string)
    ensures t <= typed
    ensures |t| == if |typed| <= |sentence| then |typed| else |sentence|
  {
    typed[..if |typed| <= |sentence| then |typed| else |sentence|]
  }

  /** The number of positions, up to the shorter length, where the two
      strings hold the same character. */
  function Matches(x: string, y: string): (n: nat)
    ensures n <= |x| && n <= |y|
  {
    if x == [] || y == [] then 0
    else (if x[0] == y[0] then 1 else 0) + Matches(x[1..], y[1..])
  }

  /** Every position of y is matched exactly when y is a prefix of x. */
  lemma {:induction false} MatchesAll(x: string, y: string)
    ensures Matches(x, y) == |y| <==> y <= x
    decreases |y|
  {
    if x != [] && y != [] {
      MatchesAll(x[1..], y[1..]);
      if y <= x {
        assert y[1..] <= x[1..];
      }
      if y[1..] <= x[1..] && x[0] == y[0] {
        assert y == [y[0]] + y[1..];
        assert x == [x[0]] + x[1..];
      }
    }
  }

  /** No position matches exactly when the strings differ at every position
      they share. */
  lemma {:induction false} MatchesNone(x: string, y: string)
    ensures Matches(x, y) == 0 <==> forall i :: 0 <= i < |x| && i < |y| ==> x[i] != y[i]
    decreases |y|
  {
    if x != [] && y != [] {
      MatchesNone(x[1..], y[1..]);
      forall i | 1 <= i < |x| && i < |y| ensures x[i] == x[1..][i - 1] && y[i] == y[1..][i - 1] { }
      if forall i :: 0 <= i < |x| && i < |y| ==> x[i] != y[i] {
        forall i | 0 <= i < |x[1..]| && i < |y[1..]| ensures x[1..][i] != y[1..][i] {
          assert x[1..][i] == x[i + 1];
        }
      }
    }
  }

  /** The number of correct characters: the matching positions of the
      truncated text. */
  function Correct(typed: string, sentence: string): (n: nat)
    ensures n <= |sentence| && n <= |typed|
  {
    Matches(Truncate(typed, sentence), sentence)
  }

  /** The percentage n / d * 100 of a count n out of d > 0. */
  lemma PercentOf(n: nat, d: nat)
    requires 0 < d && n <= d
    ensures 0.0 <= n as real / d as real * 100.0 <= 100.0
    ensures n as real / d as real * 100.0 == 100.0 <==> n == d
    ensures n as real / d as real * 100.0 == 0.0 <==> n == 0
  {
    var q := n as real / d as real;
    assert q * d as real == n as real;
    assert q <= 1.0;
    if q * 100.0 == 100.0 {
      assert q == 1.0;
    }
  }

  /** The share of correct characters in the sentence, as a percentage, or 0
      for an empty sentence. It is
      100 exactly when the sentence was typed in full (the truncation drops
      whatever follows it) and 0 exactly when every compared position is
      wrong. */
  function Accuracy(typed: string, sentence: string): (r: real)
    ensures 0.0 <= r <= 100.0
    ensures sentence == [] ==> r == 0.0
    ensures sentence != [] ==> (r == 100.0 <==> sentence <= typed)
    ensures sentence != [] ==> (r == 0.0 <==> forall i :: 0 <= i < |typed| && i < |sentence| ==> typed[i] != sentence[i])
  {
    if sentence == [] then 0.0
    else
      var t := Truncate(typed, sentence);
      var n := Correct(typed, sentence);
      MatchesAll(t, sentence);
      MatchesNone(t, sentence);
      PercentOf(n, |sentence|);
      assert sentence <= t <==> sentence <= typed;
      assert (forall i :: 0 <= i < |t| && i < |sentence| ==> t[i] != sentence[i])
         <==> (forall i :: 0 <= i < |typed| && i < |sentence| ==> typed[i] != sentence[i]);
      n as real / |sentence| as real * 100.0
  }
}
