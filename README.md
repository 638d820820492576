# Typing trainer model

A Dafny model of `typing_trainer_curses` in `typing-improvement/main.py`. The
program runs one typing drill against a built-in sentence. It has four parts:

- **Capture loop.** Keystrokes are read until Enter. Each accepted character
  goes into `typed_chars`. Its interval since the previous accepted character
  goes into `key_times`. A transition label `"p -> c"` is added for every
  character after the first. A backspace, when something is typed, removes
  the last typed character and the last interval. It also removes the last
  label, but only when there is one: after the first character there is
  none. With nothing typed, a backspace changes nothing. Once the sentence
  length is reached, further characters are ignored.
- **Statistics.** The loop is followed by the total, average, fastest and
  slowest interval, and by the accuracy of the text truncated to the sentence
  length.
- **Grouping.** Transitions are grouped by label in an insertion-ordered
  dictionary. Transition `i` is paired with `key_times[i + 1]`, or with `0.0`
  when that index is out of range. Each group's line shows its average
  latency and its count.
- **Wrapping.** Each transition-group line is hard-wrapped to the terminal
  width. The other report lines are written without wrapping.

Modules:

- `Recording` (`recording.dfy`) holds:
  - the key classification and the log datatype;
  - one loop iteration as the function `Next`, and the loop as `Run`;
  - the reachable-state invariant `Inv`;
  - the `Recorder` class, whose fields are the program's five loop variables
    and whose `Step` method is proved against `Next`;
  - the `Capture` loop method, proved against `Run`.
- `Statistics` (`statistics.dfy`) holds the timing figures and the accuracy.
- `Grouping` (`grouping.dfy`) holds:
  - the `setdefault(...).append(...)` fold, as the function `Grouped`;
  - the loop method `GroupTransitions`;
  - a reference definition `LatenciesOf` of each group.
- `Wrapping` (`wrapping.dfy`) holds the wrap loop, specified by chunk count
  and chunk lengths.
- `Trainer` (`trainer.dfy`) holds:
  - the whole routine on a finite event stream;
  - per-group report figures;
  - concrete scenarios.

A backspace does not reset `prev_char` or `prev_time` (lines 30-43 never
assign them). So typing `a`, backspace, `c` against `"ab"` logs the
transition `"a -> c"`, and the interval of `c` is measured from the erased
`a`. `Trainer.BackspaceKeepsLabel` shows
this. After such a backspace, the transition list can be as long as the typed
list. Grouping then pairs the labels with latencies one position out of step
(`Trainer.BackspaceShiftsLatencies`).

## Model

| member | source | states |
|---|---|---|
| Recording.Start | typing-improvement/main.py:14-19 | Defines the state before the first key: empty lists, `prev_time` the clock read at start-up, no previous character. |
| Recording.Pop | typing-improvement/main.py:31-36 | Defines removing the last element of a list only when it has one. The result is a prefix of the list, one element shorter, or empty when the list is. |
| Recording.Next | typing-improvement/main.py:21-62 | Defines one loop iteration, branch by branch: <br>• Enter leaves the log as it is. <br>• A backspace pops each non-empty list, and only when something is typed. <br>• A character is ignored once the log is full. <br>• Otherwise the character is appended with its interval and, after a previous character, with its label; `prev_time` and `prev_char` are then updated. <br>Its properties are stated by NextInv, BackspaceOnEmpty, BackspaceKeepsPrevious and NextAdjacent. |
| Recording.Run | typing-improvement/main.py:21-27 | Defines the loop over a finite event stream: iterate `Next` until the first Enter or the end of the stream. Its properties are stated by RunInv, EnterStops, FullDropsChars, RunAdjacent and EqualLengthsNeedBackspace. |
| Recording.Classify | typing-improvement/main.py:26-30 | Code 10 is Enter. Exactly the codes KEY_BACKSPACE (263), 127 and 8 are backspace. Every other code is the character with that code. |
| Recording.Label | typing-improvement/main.py:58-59 | The label of a pair is six characters long. It starts with the previous character and ends with the current one. |
| Recording.LabelInjective | typing-improvement/main.py:59 | Two labels are equal if and only if their character pairs are equal, so grouping by label is grouping by pair. |
| Recording.StartInv | typing-improvement/main.py:14-19 | The initial state (empty lists, no previous character) satisfies the capture invariant. |
| Recording.NextInv | typing-improvement/main.py:21-62 | One iteration keeps the invariant: `key_times` is as long as `typed_chars`, which never exceeds the sentence. `transitions` is one shorter or equally long, and every label ends with its typed character at the current offset. Nothing is logged before the first accepted character. |
| Recording.RunInv | typing-improvement/main.py:21-62 | Every state the loop reaches, on any event stream, satisfies the invariant. |
| Recording.EnterStops | typing-improvement/main.py:26-27 | An Enter ends the loop with the log unchanged, whatever keys follow. |
| Recording.BackspaceOnEmpty | typing-improvement/main.py:30-43 | A backspace with nothing typed changes nothing. |
| Recording.BackspaceKeepsPrevious | typing-improvement/main.py:30-43 | A backspace never changes `prev_char` or `prev_time`. |
| Recording.FullDropsChars | typing-improvement/main.py:45-47 | Once as many characters as the sentence has are logged, any stream of further characters leaves the whole log unchanged. |
| Recording.NextAdjacent | typing-improvement/main.py:49-62 | A non-backspace key keeps the adjacent shape: each label joins two neighbouring typed characters, there is one label fewer than characters, and `prev_char` is the last typed character. |
| Recording.RunAdjacent | typing-improvement/main.py:21-62 | A stream without backspaces keeps the adjacent shape throughout the loop. |
| Recording.NextNeverEmptied | typing-improvement/main.py:21-62 | Every step except a backspace that erases the only typed character keeps the never-emptied shape: nothing logged before the first character, then one label fewer than characters. |
| Recording.EmptiedOnTheWay | typing-improvement/main.py:21-62 | The loop starts from a never-emptied log. If it ends with as many labels as typed characters (at least one), then one of the events it processed was a backspace that erased the only typed character: <br>• that backspace came before any Enter; <br>• exactly one character was logged just before it. |
| Recording.EqualLengthsNeedBackspace | typing-improvement/main.py:30-59 | A non-empty log with as many transitions as typed characters arises only after backspacing to empty. Some event k is a backspace; no Enter comes at or before it; and the loop had logged exactly one character before it. |
| Recording.Recorder.constructor | typing-improvement/main.py:14-19 | The recorder starts with empty lists, `prev_time` set to the start clock and no previous character. |
| Recording.Recorder.Step | typing-improvement/main.py:22-62 | One loop iteration on the recorder's fields. It reports stop exactly on Enter. The new state is `Next` of the old one, and the invariant is kept. |
| Recording.Capture | typing-improvement/main.py:14-62 | The loop over a finite event stream. The log is `Run` from the start state and satisfies the invariant. It was submitted exactly when the stream contains an Enter. |
| Statistics.Sum | typing-improvement/main.py:67 | Defines the total of the intervals. Its bounds are stated by SumBetween. |
| Statistics.Fastest | typing-improvement/main.py:69 | `min(key_times)` is an entry no greater than any entry. |
| Statistics.Slowest | typing-improvement/main.py:70 | `max(key_times)` is an entry no smaller than any entry. |
| Statistics.SumBetween | typing-improvement/main.py:67 | A sum of n values in [lo, hi] lies in [n*lo, n*hi]. |
| Statistics.Mean | typing-improvement/main.py:68 | The average of a non-empty list is its sum over its length, and lies between its minimum and its maximum. |
| Statistics.Summarize | typing-improvement/main.py:67-70 | With no intervals all four figures are 0. Otherwise: the total is the sum, and the average is the total over the count; fastest and slowest are entries that bound every entry; the average lies between them. |
| Statistics.Truncate | typing-improvement/main.py:73 | The truncated text is a prefix of the typed text, of length min(typed, sentence). |
| Statistics.Matches | typing-improvement/main.py:74 | The count of agreeing positions over the zip is at most either length. |
| Statistics.MatchesAll | typing-improvement/main.py:74 | Every position of the sentence matches if and only if the sentence is a prefix of the text. |
| Statistics.MatchesNone | typing-improvement/main.py:74 | No position matches if and only if the strings differ at every position they share. |
| Statistics.Correct | typing-improvement/main.py:72-74 | `correct_chars` is at most the sentence length and at most the typed length. |
| Statistics.PercentOf | typing-improvement/main.py:75 | For n <= d, n/d*100 lies in [0, 100]. It equals 100 if and only if n = d, and 0 if and only if n = 0. |
| Statistics.Accuracy | typing-improvement/main.py:72-75 | The accuracy lies in [0, 100] and is 0 for an empty sentence. Otherwise it is 100 if and only if the typed text starts with the sentence, and 0 if and only if every compared position is wrong. |
| Grouping.Latency | typing-improvement/main.py:99 | Defines the latency paired with transition i: the interval at position i + 1, or 0.0 when there is none. Its use is stated by FallbackOnlyAtEnd and AdjacentLatencies. |
| Grouping.Add | typing-improvement/main.py:100 | Defines one `setdefault` and append: the latency is appended to the group of its label, which is created at the end when the label has none yet. Its effect is stated by AddStep. |
| Grouping.Grouped | typing-improvement/main.py:97-100 | Defines the dictionary after the first n iterations of the grouping loop. Its shape is stated by GroupedShape. |
| Grouping.LatenciesOf | typing-improvement/main.py:97-100 | An independent reference definition of one group: the latencies of the transitions with that label, in transition order. GroupedShape and GroupTransitions prove each group equal to it. |
| Grouping.Find | typing-improvement/main.py:100 | The dictionary lookup returns the first entry with the label, or the end when there is none. |
| Grouping.FirstIndex | typing-improvement/main.py:98 | The first occurrence of a label in `transitions`. |
| Grouping.FirstIndexBelow | typing-improvement/main.py:98 | A label among the first n transitions first occurs before n. |
| Grouping.FirstIndexAt | typing-improvement/main.py:98 | A label not among the first n transitions that occurs at n first occurs at n. |
| Grouping.TotalSizeUpdate | typing-improvement/main.py:100 | Replacing one group changes the total group size by the difference of the two lengths. |
| Grouping.LatenciesOfAbsent | typing-improvement/main.py:97-100 | A label absent from the first n transitions has no latencies. |
| Grouping.AddStep | typing-improvement/main.py:99-100 | One `setdefault(...).append(...)` keeps the grouping shape (see GroupedShape). |
| Grouping.GroupedShape | typing-improvement/main.py:97-100 | After n iterations: <br>• keys are distinct and are exactly the labels seen, in first-seen order; <br>• each group lists, in order, the latencies of its label's transitions and is never empty; <br>• group sizes add up to n. |
| Grouping.GroupTransitions | typing-improvement/main.py:97-100 | The grouping loop. Keys are distinct, are exactly the labels of `transitions`, and come in order of first occurrence. Each group equals the reference `LatenciesOf` of its label and is non-empty. Group sizes add up to the number of transitions. |
| Grouping.FallbackOnlyAtEnd | typing-improvement/main.py:94-99 | In any reachable log the 0.0 fallback occurs only when there are as many transitions as typed characters, and then only for the last transition. |
| Grouping.AdjacentLatencies | typing-improvement/main.py:94-99 | Without backspaces, transition i joins typed characters i and i+1, and its latency is exactly the interval of character i+1 (the pairing the comment describes). |
| Wrapping.Concat | typing-improvement/main.py:113-115 | Defines the text the chunks write, one after the other. Wrap proves it equal to the line. |
| Wrapping.ChunkCount | typing-improvement/main.py:111-115 | A line is always written as at least one chunk. |
| Wrapping.LastLength | typing-improvement/main.py:111-115 | The last chunk is at most the width and the line long. It is empty only for an empty line. |
| Wrapping.WrapExample | typing-improvement/main.py:111-115 | A line of 3*w + 5 characters, w >= 5, is written as 4 chunks, the last of 5 characters. |
| Wrapping.Wrap | typing-improvement/main.py:111-115 | The chunks concatenate back to the line. There are ChunkCount of them, every chunk but the last has exactly the width, and the last has LastLength. |
| Trainer.GroupLines | typing-improvement/main.py:106-108 | One line per group, in dictionary order, with its label and count. The average is 0.0 for an empty group; otherwise it is the group's sum over its count and lies between the group's minimum and maximum. |
| Trainer.Train | typing-improvement/main.py:14-115 | The whole routine on a finite stream. <br>• Every report figure is the model function of the captured log. <br>• The echoed text is at most the sentence long. <br>• For a non-empty sentence the accuracy is 100 if and only if the text is the sentence. <br>• The group sizes add up to the transition count. |
| Trainer.TypingTrainer | typing-improvement/main.py:4-9 | The shipped routine on the built-in sentence: accuracy 100 if and only if that sentence was typed exactly, echoed text at most its length. |
| Trainer.TypedInOrder | typing-improvement/main.py:21-100 | Typing a, b, Enter against "ab" logs "ab" with both intervals and the single transition "a -> b", which is grouped with the interval of b. |
| Trainer.TypedInOrderAccuracy | typing-improvement/main.py:72-75 | "ab" against "ab" scores 100. |
| Trainer.TypeA | typing-improvement/main.py:49-62 | A first character is logged with its interval from the start and no transition. |
| Trainer.EraseA | typing-improvement/main.py:30-43 | Erasing the only character empties the lists and keeps `prev_time` and `prev_char`. |
| Trainer.TypeCAfterA | typing-improvement/main.py:54-62 | A character typed after an erased one gets a label starting with the erased character. |
| Trainer.TypeDAfterC | typing-improvement/main.py:54-62 | A further character appends its interval and the label joining it to the previous one. |
| Trainer.BackspaceKeepsLabel | typing-improvement/main.py:21-62 | a, backspace, c, Enter against "ab" logs "c" with the label "a -> c", and the interval is measured from the erased a. |
| Trainer.BackspaceAccuracy | typing-improvement/main.py:72-75 | "c" against "ab" scores 0. |
| Trainer.BackspaceShiftsLabels | typing-improvement/main.py:21-62 | a, backspace, c, d against "abc" logs "cd" with two labels, "a -> c" and "c -> d". |
| Trainer.BackspaceShiftsLatencies | typing-improvement/main.py:94-100 | Two transitions with two intervals x, y: the first is grouped with y, the second with the 0.0 fallback. |

## Left out

- Screen output is not modelled: `addstr`, `addch`, `move`, `delch`, `refresh`, `scrollok` and the cursor arithmetic on backspace (lines 5-12, 39-42, 51-52, 77-89, 102-103, 113-118). Only the text of each wrapped line is kept, as the chunks `Wrap` returns.
- `getch` and `time.time()` are inputs. The session is a finite sequence of events, each a classified key plus the clock reading taken after it. A stream that ends without an Enter stands for a session still in progress, and `submitted` is then false.
- The capture loop runs over a finite event stream. The source loops until Enter, which may never come.
- `getch` returns single bytes or curses key codes, not Unicode characters. In a UTF-8 locale a character such as `’` (in the built-in sentence at line 9) arrives as several byte codes, each logged as its own character. On a real terminal the logged text then cannot equal the built-in sentence, and 100% accuracy is unreachable. `Key` and `Classify` accept every Unicode scalar value, which is more than `getch` delivers. The byte decoding of the terminal is not modelled.
- `chr(c)` raises `ValueError` on codes outside the Unicode range. `Classify` requires a Unicode scalar value and does not model that error or surrogate code points.
- A non-Enter, non-backspace curses special-key code (an arrow key, for instance) is taken as the character with that code, as `chr` does. The model has no separate case for it.
- Times are exact reals. Floating-point rounding of the sums and quotients, and the two-decimal formatting of every figure, are not modelled.
- The text of a group line (label, `": average "`, seconds, count) is not built as a string: `GroupLines` gives its three figures.
- Wrap: requires a positive width. With width 0 the source loop never ends on a non-empty line.
- The final `getch`, `main` and `curses.wrapper` (lines 118-124) and the sample output string after them are not modelled.
