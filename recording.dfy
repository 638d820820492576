/** The keystroke capture loop of the typing trainer: the events read from the
    keyboard, the keystroke log they build, one iteration of the loop as a
    function (Next) and as a method of the Recorder object, and the whole loop
    (Capture) driven by a finite sequence of timestamped events. */
module Recording {

  datatype Option<+T> = None | Some(value: T)

  /** The key code curses reports for the backspace key (octal 0407). */
  const KeyBackspace: int := 263

  /** One key read by getch, already classified. */
  datatype Key = Enter | Backspace | Char(c: char)

  /** A key together with the clock reading taken right after it was read. */
  datatype Event = Event(key: Key, time: real)

  /** The codes chr accepts and a Dafny char can hold (Unicode scalar values). */
  predicate IsScalar(code: int)
  {
    0 <= code < 0xD800 || 0xE000 <= code < 0x11_0000
  }

  /** How the loop reads a raw key code: 10 submits, the three backspace codes
      erase, every other code is taken as the character with that code. */
  function Classify(code: int): (k: Key)
    requires IsScalar(code)
    ensures k.Enter? <==> code == 10
    ensures k.Backspace? <==> code in {KeyBackspace, 127, 8}
    ensures k.Char? ==> k.c as int == code
  {
    if code == 10 then Enter
    else if code == KeyBackspace || code == 127 || code == 8 then Backspace
    else Char(code as char)
  }

  /** The transition label of two consecutive keystrokes, "p -> c". */
  function Label(prev: char, curr: char): (l: string)
    ensures |l| == 6 && l[0] == prev && l[5] == curr
  {
    [prev] + " -> " + [curr]
  }

  /** Distinct character pairs get distinct labels, so grouping by label is
      grouping by pair. */
  lemma LabelInjective(p: char, c: char, p': char, c': char)
    ensures Label(p, c) == Label(p', c') <==> p == p' && c == c'
  {
    if Label(p, c) == Label(p', c') {
      assert Label(p, c)[0] == Label(p', c')[0];
      assert Label(p, c)[5] == Label(p', c')[5];
    }
  }

  /** The capture state: the three parallel lists and the two running variables. */
  datatype Log = Log(typed: seq<char>, keyTimes: seq<real>, transitions: seq<string>,
                     prevTime: real, prevChar: Option<char>)

  /** The state before the first key: empty lists, the clock read at start-up. */
  function Start(t0: real): Log
  {
    Log([], [], [], t0, None)
  }

  /** A list with its last element removed, when it has one; an empty list
      is left as it is. */
  function Pop<T>(s: seq<T>): (r: seq<T>)
    ensures r <= s
    ensures |r| == if s == [] then 0 else |s| - 1
  {
    if s == [] then s else s[..|s| - 1]
  }

  /** One iteration of the capture loop on a key read at time `now`. Enter
      leaves the log alone (the loop ends); a backspace pops each non-empty
      list and keeps prevTime and prevChar; a character is dropped once as many
      characters as the sentence has are logged, and is otherwise appended with
      its interval and, when there was a previous character, its label. */
  function Next(sentence: string, s: Log, key: Key, now: real): Log
  {
    match key
    case Enter => s
    case Backspace =>
      if s.typed == [] then s
      else s.(typed := Pop(s.typed), keyTimes := Pop(s.keyTimes), transitions := Pop(s.transitions))
    case Char(c) =>
      if |s.typed| >= |sentence| then s
      else s.(typed := s.typed + [c],
              keyTimes := s.keyTimes + [now - s.prevTime],
              transitions := if s.prevChar.Some? then s.transitions + [Label(s.prevChar.value, c)]
                             else s.transitions,
              prevTime := now,
              prevChar := Some(c))
  }

  /** The loop over a finite stream of events: it stops at the first Enter, or
      when the stream runs out. */
  function Run(sentence: string, s: Log, evs: seq<Event>): Log
    decreases |evs|
  {
    if evs == [] || evs[0].key.Enter? then s
    else Run(sentence, Next(sentence, s, evs[0].key, evs[0].time), evs[1..])
  }

  predicate HasEnter(evs: seq<Event>)
  {
    exists i :: 0 <= i < |evs| && evs[i].key.Enter?
  }

  predicate HasBackspace(evs: seq<Event>)
  {
    exists i :: 0 <= i < |evs| && evs[i].key.Backspace?
  }

  predicate AllChars(evs: seq<Event>)
  {
    forall i :: 0 <= i < |evs| ==> evs[i].key.Char?
  }

  /** What holds of every reachable log. key_times and typed_chars have equal
      lengths and never exceed the sentence; transitions is one shorter than
      typed_chars or, after backspacing to empty, as long; with the offset
      off = |typed| - |transitions| label i ends with typed[i + off]; and
      before the first accepted character nothing is logged. */
  ghost predicate Inv(sentence: string, s: Log)
  {
    && |s.keyTimes| == |s.typed|
    && |s.typed| <= |sentence|
    && |s.typed| - 1 <= |s.transitions| <= |s.typed|
    && (s.prevChar.None? ==> s.typed == [] && s.transitions == [])
    && (forall i :: 0 <= i < |s.transitions| ==>
          |s.transitions[i]| == 6 && s.transitions[i][5] == s.typed[i + |s.typed| - |s.transitions|])
  }

  lemma StartInv(sentence: string, t0: real)
    ensures Inv(sentence, Start(t0))
  {
  }

  lemma NextInv(sentence: string, s: Log, key: Key, now: real)
    requires Inv(sentence, s)
    ensures Inv(sentence, Next(sentence, s, key, now))
  {
    var s' := Next(sentence, s, key, now);
    match key
    case Enter =>
    case Backspace =>
      if s.typed != [] {
        var off := |s.typed| - |s.transitions|;
        if s.transitions != [] {
          forall i | 0 <= i < |s'.transitions|
            ensures |s'.transitions[i]| == 6 && s'.transitions[i][5] == s'.typed[i + |s'.typed| - |s'.transitions|]
          {
            assert s'.transitions[i] == s.transitions[i];
            assert s'.typed[i + off] == s.typed[i + off];
          }
        }
      }
    case Char(c) =>
      if |s.typed| < |sentence| {
        var off := |s.typed| - |s.transitions|;
        var off' := |s'.typed| - |s'.transitions|;
        forall i | 0 <= i < |s'.transitions|
          ensures |s'.transitions[i]| == 6 && s'.transitions[i][5] == s'.typed[i + off']
        {
          if i < |s.transitions| {
            assert s'.transitions[i] == s.transitions[i];
            assert off' == off;
          } else {
            assert s'.transitions[i] == Label(s.prevChar.value, c);
          }
        }
      }
  }

  /** Every log the loop reaches keeps the invariant. */
  lemma {:induction false} RunInv(sentence: string, s: Log, evs: seq<Event>)
    requires Inv(sentence, s)
    ensures Inv(sentence, Run(sentence, s, evs))
    decreases |evs|
  {
    if evs != [] && !evs[0].key.Enter? {
      NextInv(sentence, s, evs[0].key, evs[0].time);
      RunInv(sentence, Next(sentence, s, evs[0].key, evs[0].time), evs[1..]);
    }
  }

  /** Enter ends the session with the log as it was. */
  lemma EnterStops(sentence: string, s: Log, now: real, rest: seq<Event>)
    ensures Run(sentence, s, [Event(Enter, now)] + rest) == s
  {
  }

  /** A backspace on an empty log changes nothing, not even prevTime or prevChar. */
  lemma BackspaceOnEmpty(sentence: string, s: Log, now: real)
    requires s.typed == []
    ensures Next(sentence, s, Backspace, now) == s
  {
  }

  /** A backspace never touches prevTime or prevChar: the next label starts
      with the character typed last, even if that one was erased. */
  lemma BackspaceKeepsPrevious(sentence: string, s: Log, now: real)
    ensures Next(sentence, s, Backspace, now).prevChar == s.prevChar
    ensures Next(sentence, s, Backspace, now).prevTime == s.prevTime
  {
  }

  /** Once the log holds as many characters as the sentence, every further
      stream of characters leaves the whole log unchanged. */
  lemma {:induction false} FullDropsChars(sentence: string, s: Log, evs: seq<Event>)
    requires |s.typed| >= |sentence|
    requires AllChars(evs)
    ensures Run(sentence, s, evs) == s
    decreases |evs|
  {
    if evs != [] {
      assert Next(sentence, s, evs[0].key, evs[0].time) == s;
      FullDropsChars(sentence, s, evs[1..]);
    }
  }

  /** The shape of a log built without backspaces: every label joins two
      adjacent typed characters, there is one label fewer than characters,
      and prevChar is the last typed character. */
  ghost predicate Adjacent(s: Log)
  {
    && |s.transitions| == (if s.typed == [] then 0 else |s.typed| - 1)
    && (forall i :: 0 <= i < |s.transitions| ==> s.transitions[i] == Label(s.typed[i], s.typed[i + 1]))
    && s.prevChar == (if s.typed == [] then None else Some(s.typed[|s.typed| - 1]))
  }

  lemma NextAdjacent(sentence: string, s: Log, key: Key, now: real)
    requires Adjacent(s) && !key.Backspace?
    ensures Adjacent(Next(sentence, s, key, now))
  {
    if key.Char? && |s.typed| < |sentence| {
      var s' := Next(sentence, s, key, now);
      forall i | 0 <= i < |s'.transitions|
        ensures s'.transitions[i] == Label(s'.typed[i], s'.typed[i + 1])
      {
        if i < |s.transitions| {
          assert s'.transitions[i] == s.transitions[i];
        }
      }
    }
  }

  /** Without backspaces the log keeps the adjacent shape. */
  lemma {:induction false} RunAdjacent(sentence: string, s: Log, evs: seq<Event>)
    requires Adjacent(s) && !HasBackspace(evs)
    ensures Adjacent(Run(sentence, s, evs))
    decreases |evs|
  {
    if evs != [] && !evs[0].key.Enter? {
      assert !evs[0].key.Backspace?;
      NextAdjacent(sentence, s, evs[0].key, evs[0].time);
      assert !HasBackspace(evs[1..]) by {
        forall i | 0 <= i < |evs[1..]| ensures !evs[1..][i].key.Backspace? {
          assert evs[1..][i] == evs[i + 1];
        }
      }
      RunAdjacent(sentence, Next(sentence, s, evs[0].key, evs[0].time), evs[1..]);
    }
  }

  /** The shape of a log that has never been backspaced to empty: nothing
      logged before the first character, and afterwards one label fewer than
      characters. */
  ghost predicate NeverEmptied(s: Log)
  {
    && (s.typed == [] ==> s.prevChar.None? && s.transitions == [])
    && (s.typed != [] ==> s.prevChar.Some? && |s.transitions| == |s.typed| - 1)
  }

  /** Every step but a backspace that erases the last remaining character
      keeps that shape. */
  lemma NextNeverEmptied(sentence: string, s: Log, key: Key, now: real)
    requires NeverEmptied(s)
    requires !(key.Backspace? && |s.typed| == 1)
    ensures NeverEmptied(Next(sentence, s, key, now))
  {
  }

  /** If the loop, started from a never-emptied log, ends with as many labels
      as typed characters (at least one), then some backspace it processed
      erased the only character logged: event k is a backspace, no Enter comes
      at or before it, and exactly one character was logged just before it. */
  lemma {:induction false} EmptiedOnTheWay(sentence: string, s: Log, evs: seq<Event>)
    requires NeverEmptied(s)
    requires var r := Run(sentence, s, evs); r.typed != [] && |r.transitions| == |r.typed|
    ensures exists k :: 0 <= k < |evs| && evs[k].key.Backspace?
              && (forall j :: 0 <= j <= k ==> !evs[j].key.Enter?)
              && |Run(sentence, s, evs[..k]).typed| == 1
    decreases |evs|
  {
    if evs != [] && !evs[0].key.Enter? {
      var e := evs[0];
      if e.key.Backspace? && |s.typed| == 1 {
        assert evs[..0] == [];
      } else {
        var s' := Next(sentence, s, e.key, e.time);
        NextNeverEmptied(sentence, s, e.key, e.time);
        EmptiedOnTheWay(sentence, s', evs[1..]);
        var k :| 0 <= k < |evs[1..]| && evs[1..][k].key.Backspace?
                 && (forall j :: 0 <= j <= k ==> !evs[1..][j].key.Enter?)
                 && |Run(sentence, s', evs[1..][..k]).typed| == 1;
        assert evs[..k + 1][0] == e && evs[..k + 1][1..] == evs[1..][..k];
        assert evs[k + 1] == evs[1..][k];
        forall j | 0 <= j <= k + 1 ensures !evs[j].key.Enter? {
          if j > 0 {
            assert evs[j] == evs[1..][j - 1];
          }
        }
      }
    }
  }

  /** As many labels as typed characters (with at least one character) arises
      only after a backspace, processed before any Enter, that erased the
      only character logged. */
  lemma EqualLengthsNeedBackspace(sentence: string, t0: real, evs: seq<Event>)
    requires var r := Run(sentence, Start(t0), evs); r.typed != [] && |r.transitions| == |r.typed|
    ensures exists k :: 0 <= k < |evs| && evs[k].key.Backspace?
              && (forall j :: 0 <= j <= k ==> !evs[j].key.Enter?)
              && |Run(sentence, Start(t0), evs[..k]).typed| == 1
  {
    EmptiedOnTheWay(sentence, Start(t0), evs);
  }

  /** The recorder owns the capture state for one session. */
  class Recorder {
    const sentence: string
    var typedChars: seq<char>
    var keyTimes: seq<real>
    var transitions: seq<string>
    var prevTime: real
    var prevChar: Option<char>

    function Snapshot(): Log
      reads this
    {
      Log(typedChars, keyTimes, transitions, prevTime, prevChar)
    }

    ghost predicate Valid()
      reads this
    {
      Inv(sentence, Snapshot())
    }

    /** Empty lists and the clock read when capture begins. */
    constructor (sentence: string, start: real)
      ensures this.sentence == sentence
      ensures Snapshot() == Start(start)
      ensures Valid()
    {
      this.sentence := sentence;
      typedChars, keyTimes, transitions := [], [], [];
      prevTime, prevChar := start, None;
    }

    /** One iteration of the loop; `stop` is the `break` on Enter. */
    method Step(key: Key, now: real) returns (stop: bool)
      requires Valid()
      modifies this
      ensures stop <==> key.Enter?
      ensures Snapshot() == Next(sentence, old(Snapshot()), key, now)
      ensures Valid()
    {
      NextInv(sentence, Snapshot(), key, now);
      if key.Enter? {
        return true;
      }
      stop := false;
      if key.Backspace? {
        if typedChars != [] {
          typedChars := typedChars[..|typedChars| - 1];
          if keyTimes != [] {
            keyTimes := keyTimes[..|keyTimes| - 1];
          }
          if transitions != [] {
            transitions := transitions[..|transitions| - 1];
          }
        }
        return;
      }
      if |typedChars| >= |sentence| {
        return;
      }
      var c := key.c;
      typedChars := typedChars + [c];
      keyTimes := keyTimes + [now - prevTime];
      if prevChar.Some? {
        transitions := transitions + [Label(prevChar.value, c)];
      }
      prevTime := now;
      prevChar := Some(c);
    }
  }

  /** The capture loop over a finite stream of events read from `start` on.
      `submitted` says whether an Enter ended it (the stream may run out
      before one arrives). */
  method Capture(sentence: string, start: real, events: seq<Event>) returns (log: Log, submitted: bool)
    ensures log == Run(sentence, Start(start), events)
    ensures submitted <==> HasEnter(events)
    ensures Inv(sentence, log)
  {
    var rec := new Recorder(sentence, start);
    var i := 0;
    submitted := false;
    while i < |events|
      invariant 0 <= i <= |events|
      invariant rec.sentence == sentence && rec.Valid()
      invariant Run(sentence, Start(start), events) == Run(sentence, rec.Snapshot(), events[i..])
      invariant forall j :: 0 <= j < i ==> !events[j].key.Enter?
      decreases |events| - i
    {
      assert events[i..][0] == events[i] && events[i..][1..] == events[i + 1..];
      var stop := rec.Step(events[i].key, events[i].time);
      if stop {
        submitted := true;
        break;
      }
      i := i + 1;
    }
    log := rec.Snapshot();
  }
}
