/** The whole trainer routine: capture a session against the sentence, then
    derive the report figures from the frozen log. */
module Trainer {
  import opened Recording
  import opened Statistics
  import opened Grouping

  /** The practice sentence built into the program. */
  const Sentence: string := "I’m working on a longer sentence with diverse punctuation and around 80-100 characters, potentially integrating multiple lines, to enrich practice."

  /** The figures the results screen shows, before formatting. */
  datatype Report = Report(
    typedText: string,
    accuracy: real,
    timing: Timing,
    transitionCount: nat,
    groups: Groups,
    groupLines: seq<(string, real, nat)>)

  /** Per group, the label, the average latency (0.0 for an empty group) and
      the number of latencies, in the order of the groups. */
  function GroupLines(g: Groups): (r: seq<(string, real, nat)>)
    ensures |r| == |g|
    ensures forall j :: 0 <= j < |g| ==> r[j].0 == g[j].0 && r[j].2 == |g[j].1|
    ensures forall j :: 0 <= j < |g| && g[j].1 == [] ==> r[j].1 == 0.0
    ensures forall j :: 0 <= j < |g| && g[j].1 != [] ==>
              r[j].1 == Sum(g[j].1) / |g[j].1| as real && Fastest(g[j].1) <= r[j].1 <= Slowest(g[j].1)
  {
    if g == [] then []
    else
      var times := g[|g| - 1].1;
      GroupLines(g[..|g| - 1]) + [(g[|g| - 1].0, Summarize(times).average, |times|)]
  }

  /** The routine on a finite event stream read from `start` on. The typed
      text echoed is the whole log (truncating it changes nothing), it is at
      most as long as the sentence, and for a non-empty sentence the accuracy
      is 100 exactly when it is the sentence. */
  method Train(sentence: string, start: real, events: seq<Event>) returns (report: Report, submitted: bool)
    ensures submitted <==> HasEnter(events)
    ensures var log := Run(sentence, Start(start), events);
      && report.typedText == log.typed
      && report.accuracy == Accuracy(log.typed, sentence)
      && report.timing == Summarize(log.keyTimes)
      && report.transitionCount == |log.transitions|
      && report.groups == Grouped(log.transitions, log.keyTimes, |log.transitions|)
      && report.groupLines == GroupLines(report.groups)
    ensures |report.typedText| <= |sentence|
    ensures sentence != [] ==> (report.accuracy == 100.0 <==> report.typedText == sentence)
    ensures TotalSize(report.groups) == report.transitionCount
  {
    var log;
    log, submitted := Capture(sentence, start, events);
    var truncated := Truncate(log.typed, sentence);
    assert truncated == log.typed;
    var groups := GroupTransitions(log.transitions, log.keyTimes);
    report := Report(truncated, Accuracy(log.typed, sentence), Summarize(log.keyTimes),
                     |log.transitions|, groups, GroupLines(groups));
  }

  /** The trainer as shipped, on its built-in sentence. */
  method TypingTrainer(start: real, events: seq<Event>) returns (report: Report, submitted: bool)
    ensures submitted <==> HasEnter(events)
    ensures |report.typedText| <= |Sentence|
    ensures report.accuracy == 100.0 <==> report.typedText == Sentence
    ensures report.accuracy == Accuracy(Run(Sentence, Start(start), events).typed, Sentence)
  {
    report, submitted := Train(Sentence, start, events);
  }

  /** One iteration of the loop on a non-Enter event, then the rest. */
  lemma RunStep(sentence: string, s: Log, e: Event, rest: seq<Event>)
    requires !e.key.Enter?
    ensures Run(sentence, s, [e] + rest) == Run(sentence, Next(sentence, s, e.key, e.time), rest)
  {
    assert ([e] + rest)[1..] == rest;
  }

  /** Three keys through the loop, given the state after each of them. */
  lemma RunThree(sentence: string, s0: Log, s1: Log, s2: Log, s3: Log, e1: Event, e2: Event, e3: Event, rest: seq<Event>)
    requires !e1.key.Enter? && !e2.key.Enter? && !e3.key.Enter?
    requires Next(sentence, s0, e1.key, e1.time) == s1
    requires Next(sentence, s1, e2.key, e2.time) == s2
    requires Next(sentence, s2, e3.key, e3.time) == s3
    ensures Run(sentence, s0, [e1, e2, e3] + rest) == Run(sentence, s3, rest)
  {
    assert [e1, e2, e3] + rest == [e1] + ([e2] + ([e3] + rest));
    RunStep(sentence, s0, e1, [e2] + ([e3] + rest));
    RunStep(sentence, s1, e2, [e3] + rest);
    RunStep(sentence, s2, e3, rest);
  }

  /** Target "ab": typing a, b and Enter logs both characters and one
      transition "a -> b" paired with the interval of b. */
  lemma TypedInOrder(t0: real, t1: real, t2: real, t3: real)
    ensures Run("ab", Start(t0), [Event(Char('a'), t1), Event(Char('b'), t2), Event(Enter, t3)])
         == Log("ab", [t1 - t0, t2 - t1], ["a -> b"], t2, Some('b'))
    ensures Grouped(["a -> b"], [t1 - t0, t2 - t1], 1) == [("a -> b", [t2 - t1])]
  {
    var e1, e2, e3 := Event(Char('a'), t1), Event(Char('b'), t2), Event(Enter, t3);
    var s1 := Log("a", [t1 - t0], [], t1, Some('a'));
    var s2 := Log("ab", [t1 - t0, t2 - t1], ["a -> b"], t2, Some('b'));
    assert Next("ab", Start(t0), e1.key, t1) == s1;
    assert Label('a', 'b') == "a -> b";
    assert Next("ab", s1, e2.key, t2) == s2;
    RunStep("ab", Start(t0), e1, [e2, e3]);
    RunStep("ab", s1, e2, [e3]);
    assert [e1, e2, e3] == [e1] + [e2, e3];
    assert [e2, e3] == [e2] + [e3];
    assert Grouped(s2.transitions, s2.keyTimes, 1) == Add([], "a -> b", t2 - t1);
  }

  /** ... and the text "ab" scores 100 against "ab". */
  lemma TypedInOrderAccuracy()
    ensures Accuracy("ab", "ab") == 100.0
  {
    assert "ab" <= "ab";
  }

  /** The single steps of the two backspace scenarios below. */
  lemma TypeA(sentence: string, t0: real, t1: real)
    requires sentence != []
    ensures Next(sentence, Start(t0), Char('a'), t1) == Log("a", [t1 - t0], [], t1, Some('a'))
  {
  }

  lemma EraseA(sentence: string, t1: real, t2: real, d: real)
    ensures Next(sentence, Log("a", [d], [], t1, Some('a')), Backspace, t2) == Log("", [], [], t1, Some('a'))
  {
  }

  lemma TypeCAfterA(sentence: string, t1: real, t3: real)
    requires sentence != []
    ensures Next(sentence, Log("", [], [], t1, Some('a')), Char('c'), t3) == Log("c", [t3 - t1], ["a -> c"], t3, Some('c'))
  {
    assert Label('a', 'c') == "a -> c";
  }

  lemma TypeDAfterC(sentence: string, d: real, t3: real, t4: real)
    requires |sentence| >= 2
    ensures Next(sentence, Log("c", [d], ["a -> c"], t3, Some('c')), Char('d'), t4)
         == Log("cd", [d, t4 - t3], ["a -> c", "c -> d"], t4, Some('d'))
  {
    assert Label('c', 'd') == "c -> d";
  }

  /** Target "ab": typing a, backspace, c and Enter logs only c, but with the
      label "a -> c" (prevChar survives the backspace) and the interval
      measured from the erased a. */
  lemma BackspaceKeepsLabel(t0: real, t1: real, t2: real, t3: real, t4: real)
    ensures Run("ab", Start(t0), [Event(Char('a'), t1), Event(Backspace, t2), Event(Char('c'), t3), Event(Enter, t4)])
         == Log("c", [t3 - t1], ["a -> c"], t3, Some('c'))
  {
    var e1, e2, e3, e4 := Event(Char('a'), t1), Event(Backspace, t2), Event(Char('c'), t3), Event(Enter, t4);
    var s1, s2, s3 := Log("a", [t1 - t0], [], t1, Some('a')), Log("", [], [], t1, Some('a')), Log("c", [t3 - t1], ["a -> c"], t3, Some('c'));
    TypeA("ab", t0, t1);
    EraseA("ab", t1, t2, t1 - t0);
    TypeCAfterA("ab", t1, t3);
    RunThree("ab", Start(t0), s1, s2, s3, e1, e2, e3, [e4]);
    EnterStops("ab", s3, t4, []);
    assert [e1, e2, e3] + [e4] == [e1, e2, e3, e4];
    assert [e4] + [] == [e4];
  }

  /** ... and the text "c" scores 0 against "ab". */
  lemma BackspaceAccuracy()
    ensures Accuracy("c", "ab") == 0.0
  {
    var t, u := "c", "ab";
    assert forall i :: 0 <= i < |t| && i < |u| ==> t[i] != u[i];
  }

  /** After backspacing to empty the labels and the latencies go out of step:
      for a, backspace, c, d the log holds "a -> c" and "c -> d" ... */
  lemma BackspaceShiftsLabels(t0: real, t1: real, t2: real, t3: real, t4: real)
    ensures Run("abc", Start(t0), [Event(Char('a'), t1), Event(Backspace, t2), Event(Char('c'), t3), Event(Char('d'), t4)])
         == Log("cd", [t3 - t1, t4 - t3], ["a -> c", "c -> d"], t4, Some('d'))
  {
    var e1, e2, e3, e4 := Event(Char('a'), t1), Event(Backspace, t2), Event(Char('c'), t3), Event(Char('d'), t4);
    var s1, s2, s3 := Log("a", [t1 - t0], [], t1, Some('a')), Log("", [], [], t1, Some('a')), Log("c", [t3 - t1], ["a -> c"], t3, Some('c'));
    var s4 := Log("cd", [t3 - t1, t4 - t3], ["a -> c", "c -> d"], t4, Some('d'));
    TypeA("abc", t0, t1);
    EraseA("abc", t1, t2, t1 - t0);
    TypeCAfterA("abc", t1, t3);
    TypeDAfterC("abc", t3 - t1, t3, t4);
    RunThree("abc", Start(t0), s1, s2, s3, e1, e2, e3, [e4]);
    RunStep("abc", s3, e4, []);
    assert [e1, e2, e3] + [e4] == [e1, e2, e3, e4];
    assert [e4] + [] == [e4];
  }

  /** ... so grouping pairs "a -> c" with the interval of d and "c -> d" with
      the 0.0 fallback. */
  lemma BackspaceShiftsLatencies(x: real, y: real)
    ensures Grouped(["a -> c", "c -> d"], [x, y], 2) == [("a -> c", [y]), ("c -> d", [0.0])]
  {
    var ts, kt := ["a -> c", "c -> d"], [x, y];
    var g1 := [("a -> c", [y])];
    assert Grouped(ts, kt, 1) == Add([], "a -> c", y) == g1;
    assert "a -> c" != "c -> d" by { assert "a -> c"[0] != "c -> d"[0]; }
    assert Find(g1, "c -> d") == 1;
    assert Grouped(ts, kt, 2) == Add(g1, "c -> d", 0.0);
  }
}
