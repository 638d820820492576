/** Grouping the transitions of a session by label: an insertion-ordered
    dictionary from label to the list of latencies, built with setdefault and
    append, here an association list whose keys are distinct and appear in the
    order in which they were first seen. */
module Grouping {
  import opened Recording

  /** The association list from label to latencies. */
  type Groups = seq<(string, seq<real>)>

  /** The latency paired with transition i: the interval at position i + 1,
      or 0.0 when there is no such position. */
  function Latency(keyTimes: seq<real>, i: nat): real
  {
    if i + 1 < |keyTimes| then keyTimes[i + 1] else 0.0
  }

  function Keys(g: Groups): (ks: seq<string>)
    ensures |ks| == |g| && forall j :: 0 <= j < |g| ==> ks[j] == g[j].0
  {
    seq(|g|, j requires 0 <= j < |g| => g[j].0)
  }

  predicate Distinct(ks: seq<string>)
  {
    forall i, j :: 0 <= i < j < |ks| ==> ks[i] != ks[j]
  }

  /** The position of key k, or |g| when k is absent (the dictionary lookup). */
  function Find(g: Groups, k: string): (j: nat)
    ensures j <= |g|
    ensures j < |g| ==> g[j].0 == k
    ensures forall i :: 0 <= i < j ==> g[i].0 != k
  {
    if g == [] then 0 else if g[0].0 == k then 0 else 1 + Find(g[1..], k)
  }

  /** Appends d to the group of label k, first creating an empty group at the
      end when k has none yet. */
  function Add(g: Groups, k: string, d: real): Groups
  {
    var j := Find(g, k);
    if j < |g| then g[j := (k, g[j].1 + [d])] else g + [(k, [d])]
  }

  /** The dictionary after the first n iterations of the grouping loop. */
  function Grouped(ts: seq<string>, keyTimes: seq<real>, n: nat): Groups
    requires n <= |ts|
  {
    if n == 0 then [] else Add(Grouped(ts, keyTimes, n - 1), ts[n - 1], Latency(keyTimes, n - 1))
  }

  /** Reference definition of one group: the latencies of the transitions
      among the first n that carry label k, in transition order. */
  function LatenciesOf(ts: seq<string>, keyTimes: seq<real>, k: string, n: nat): seq<real>
    requires n <= |ts|
  {
    if n == 0 then []
    else LatenciesOf(ts, keyTimes, k, n - 1) + (if ts[n - 1] == k then [Latency(keyTimes, n - 1)] else [])
  }

  /** The index of the first occurrence of k. */
  function FirstIndex(ts: seq<string>, k: string): (i: nat)
    requires k in ts
    ensures i < |ts| && ts[i] == k && k !in ts[..i]
  {
    if ts[0] == k then 0
    else
      var i := 1 + FirstIndex(ts[1..], k);
      assert ts[..i] == [ts[0]] + ts[1..][..i - 1];
      i
  }

  /** A label seen among the first n transitions first occurs before n. */
  lemma FirstIndexBelow(ts: seq<string>, n: nat, k: string)
    requires n <= |ts| && k in ts[..n]
    ensures FirstIndex(ts, k) < n
  {
  }

  /** A label not seen among the first n transitions first occurs at n. */
  lemma FirstIndexAt(ts: seq<string>, n: nat)
    requires n < |ts| && ts[n] !in ts[..n]
    ensures FirstIndex(ts, ts[n]) == n
  {
  }

  /** The sum of the group lengths. */
  function TotalSize(g: Groups): nat
  {
    if g == [] then 0 else TotalSize(g[..|g| - 1]) + |g[|g| - 1].1|
  }

  lemma {:induction false} TotalSizeUpdate(g: Groups, j: nat, e: (string, seq<real>))
    requires j < |g|
    ensures TotalSize(g[j := e]) == TotalSize(g) - |g[j].1| + |e.1|
    decreases |g|
  {
    var last := |g| - 1;
    if j < last {
      assert g[j := e][..last] == g[..last][j := e];
      TotalSizeUpdate(g[..last], j, e);
    } else {
      assert g[j := e][..last] == g[..last];
    }
  }

  lemma {:induction false} LatenciesOfAbsent(ts: seq<string>, keyTimes: seq<real>, k: string, n: nat)
    requires n <= |ts| && k !in ts[..n]
    ensures LatenciesOf(ts, keyTimes, k, n) == []
    decreases n
  {
    if n > 0 {
      assert ts[..n - 1] <= ts[..n];
      assert ts[..n][n - 1] == ts[n - 1];
      LatenciesOfAbsent(ts, keyTimes, k, n - 1);
    }
  }

  /** What the grouping loop has built after n iterations: distinct keys,
      exactly the labels seen so far, in first-seen order, each holding the
      latencies of its transitions in order (so never empty), and n
      latencies in all. */
  ghost predicate GroupsOf(ts: seq<string>, keyTimes: seq<real>, n: nat, g: Groups)
    requires n <= |ts|
  {
    && Distinct(Keys(g))
    && SeenKeys(ts, n, Keys(g))
    && Holds(ts, keyTimes, n, g)
    && FirstSeenOrder(ts, Keys(g))
    && TotalSize(g) == n
  }

  /** The keys are exactly the labels among the first n transitions. */
  ghost predicate SeenKeys(ts: seq<string>, n: nat, ks: seq<string>)
    requires n <= |ts|
  {
    forall k :: k in ks <==> k in ts[..n]
  }

  /** Each group holds the latencies of its label among the first n transitions. */
  ghost predicate Holds(ts: seq<string>, keyTimes: seq<real>, n: nat, g: Groups)
    requires n <= |ts|
  {
    forall j :: 0 <= j < |g| ==> g[j].1 == LatenciesOf(ts, keyTimes, g[j].0, n) && g[j].1 != []
  }

  /** The keys appear in the order of their first occurrence in ts. */
  ghost predicate FirstSeenOrder(ts: seq<string>, ks: seq<string>)
  {
    forall j1, j2 :: 0 <= j1 < j2 < |ks| ==>
      ks[j1] in ts && ks[j2] in ts && FirstIndex(ts, ks[j1]) < FirstIndex(ts, ks[j2])
  }

  lemma LatenciesStep(ts: seq<string>, keyTimes: seq<real>, n: nat)
    requires n < |ts|
    ensures forall k ::
      LatenciesOf(ts, keyTimes, k, n + 1) ==
        LatenciesOf(ts, keyTimes, k, n) + (if k == ts[n] then [Latency(keyTimes, n)] else [])
  {
  }

  lemma SeenStep(ts: seq<string>, n: nat, ks: seq<string>, ks': seq<string>)
    requires n < |ts| && SeenKeys(ts, n, ks)
    requires ks' == ks || ks' == ks + [ts[n]]
    requires ks' == ks ==> ts[n] in ks
    ensures SeenKeys(ts, n + 1, ks')
  {
    assert ts[..n + 1] == ts[..n] + [ts[n]];
  }

  lemma HoldsExisting(ts: seq<string>, keyTimes: seq<real>, n: nat, g: Groups, j: nat)
    requires n < |ts| && Holds(ts, keyTimes, n, g) && Distinct(Keys(g))
    requires j < |g| && g[j].0 == ts[n]
    ensures Holds(ts, keyTimes, n + 1, g[j := (ts[n], g[j].1 + [Latency(keyTimes, n)])])
  {
    LatenciesStep(ts, keyTimes, n);
    var g' := g[j := (ts[n], g[j].1 + [Latency(keyTimes, n)])];
    forall j' | 0 <= j' < |g'|
      ensures g'[j'].1 == LatenciesOf(ts, keyTimes, g'[j'].0, n + 1) && g'[j'].1 != []
    {
      if j' != j {
        assert Keys(g)[j'] != Keys(g)[j];
      }
    }
  }

  lemma HoldsNew(ts: seq<string>, keyTimes: seq<real>, n: nat, g: Groups)
    requires n < |ts| && Holds(ts, keyTimes, n, g)
    requires SeenKeys(ts, n, Keys(g)) && ts[n] !in Keys(g)
    ensures Holds(ts, keyTimes, n + 1, g + [(ts[n], [Latency(keyTimes, n)])])
  {
    LatenciesStep(ts, keyTimes, n);
    LatenciesOfAbsent(ts, keyTimes, ts[n], n);
    var g' := g + [(ts[n], [Latency(keyTimes, n)])];
    forall j' | 0 <= j' < |g'|
      ensures g'[j'].1 == LatenciesOf(ts, keyTimes, g'[j'].0, n + 1) && g'[j'].1 != []
    {
      if j' < |g| {
        assert g'[j'] == g[j'];
        assert Keys(g)[j'] != ts[n];
      }
    }
  }

  lemma OrderNew(ts: seq<string>, n: nat, ks: seq<string>)
    requires n < |ts| && FirstSeenOrder(ts, ks) && SeenKeys(ts, n, ks) && ts[n] !in ks
    ensures FirstSeenOrder(ts, ks + [ts[n]])
  {
    FirstIndexAt(ts, n);
    var ks' := ks + [ts[n]];
    forall j1 | 0 <= j1 < |ks| ensures ks[j1] in ts && FirstIndex(ts, ks[j1]) < n {
      FirstIndexBelow(ts, n, ks[j1]);
    }
    forall j1, j2 | 0 <= j1 < j2 < |ks'|
      ensures ks'[j1] in ts && ks'[j2] in ts && FirstIndex(ts, ks'[j1]) < FirstIndex(ts, ks'[j2])
    {
      assert ks'[j1] == ks[j1];
      if j2 < |ks| {
        assert ks'[j2] == ks[j2];
      }
    }
  }

  /** One iteration of the grouping loop keeps the GroupsOf shape. */
  lemma AddStep(ts: seq<string>, keyTimes: seq<real>, n: nat, g: Groups)
    requires n < |ts| && GroupsOf(ts, keyTimes, n, g)
    ensures GroupsOf(ts, keyTimes, n + 1, Add(g, ts[n], Latency(keyTimes, n)))
  {
    var k, d, j := ts[n], Latency(keyTimes, n), Find(g, ts[n]);
    if j < |g| {
      var g' := g[j := (k, g[j].1 + [d])];
      assert Add(g, k, d) == g';
      assert Keys(g') == Keys(g);
      assert Keys(g)[j] == k;
      SeenStep(ts, n, Keys(g), Keys(g'));
      HoldsExisting(ts, keyTimes, n, g, j);
      TotalSizeUpdate(g, j, (k, g[j].1 + [d]));
    } else {
      var g' := g + [(k, [d])];
      assert Add(g, k, d) == g';
      assert g'[..|g'| - 1] == g;
      assert Keys(g') == Keys(g) + [k];
      assert k !in Keys(g);
      SeenStep(ts, n, Keys(g), Keys(g'));
      HoldsNew(ts, keyTimes, n, g);
      OrderNew(ts, n, Keys(g));
    }
  }

  /** The grouped dictionary after all n iterations has the GroupsOf shape. */
  lemma {:induction false} GroupedShape(ts: seq<string>, keyTimes: seq<real>, n: nat)
    requires n <= |ts|
    ensures GroupsOf(ts, keyTimes, n, Grouped(ts, keyTimes, n))
    decreases n
  {
    if n > 0 {
      GroupedShape(ts, keyTimes, n - 1);
      AddStep(ts, keyTimes, n - 1, Grouped(ts, keyTimes, n - 1));
    }
  }

  /** The grouping loop. Its result has distinct keys, exactly the labels of
      `transitions`, in order of first occurrence; group k lists, in order,
      the latency of every transition labelled k; no group is empty and the
      group lengths add up to the number of transitions. */
  method GroupTransitions(transitions: seq<string>, keyTimes: seq<real>) returns (groups: Groups)
    ensures groups == Grouped(transitions, keyTimes, |transitions|)
    ensures Distinct(Keys(groups))
    ensures forall k :: k in Keys(groups) <==> k in transitions
    ensures forall j :: 0 <= j < |groups| ==>
              groups[j].1 == LatenciesOf(transitions, keyTimes, groups[j].0, |transitions|) && groups[j].1 != []
    ensures forall j1, j2 :: 0 <= j1 < j2 < |groups| ==>
              groups[j1].0 in transitions && groups[j2].0 in transitions &&
              FirstIndex(transitions, groups[j1].0) < FirstIndex(transitions, groups[j2].0)
    ensures TotalSize(groups) == |transitions|
  {
    groups := [];
    for i := 0 to |transitions|
      invariant groups == Grouped(transitions, keyTimes, i)
    {
      var diff := if i + 1 < |keyTimes| then keyTimes[i + 1] else 0.0;
      var j := Find(groups, transitions[i]);
      if j < |groups| {
        groups := groups[j := (transitions[i], groups[j].1 + [diff])];
      } else {
        groups := groups + [(transitions[i], [diff])];
      }
    }
    GroupedShape(transitions, keyTimes, |transitions|);
    assert transitions[..|transitions|] == transitions;
  }

  /** In every reachable log a transition falls back to latency 0.0 only when
      there are as many transitions as typed characters, and then only the
      last one does. */
  lemma FallbackOnlyAtEnd(sentence: string, s: Log, i: nat)
    requires Inv(sentence, s) && i < |s.transitions| && i + 1 >= |s.keyTimes|
    ensures |s.transitions| == |s.typed| && i == |s.transitions| - 1
  {
  }

  /** In a log built without backspaces every transition i ends with typed
      character i + 1, whose interval is exactly the latency it is given. */
  lemma AdjacentLatencies(sentence: string, t0: real, evs: seq<Event>, i: nat)
    requires !HasBackspace(evs)
    requires i < |Run(sentence, Start(t0), evs).transitions|
    ensures var s := Run(sentence, Start(t0), evs);
      && i + 1 < |s.typed| == |s.keyTimes|
      && s.transitions[i] == Label(s.typed[i], s.typed[i + 1])
      && Latency(s.keyTimes, i) == s.keyTimes[i + 1]
  {
    StartInv(sentence, t0);
    RunInv(sentence, Start(t0), evs);
    RunAdjacent(sentence, Start(t0), evs);
  }
}
