# Typewriter animation model

This project models the typewriter animation of a personal portfolio site
(`public/typewriter.js`). On page load the script takes a fixed list of four
phrases and a target element, and runs a self-rescheduling `type()` function.
Each call writes the first `j` characters of the current phrase `texts[i]`
into the element. It then does exactly one of three things:

- types: `j` grows by one (next call after 100 ms);
- deletes: `j` shrinks by one (next call after 60 ms);
- flips: at the end of a phrase while typing, or at its start while
  deleting, the direction is reversed; when deletion ends the phrase index
  moves on, wrapping round (next call after 800 ms).

Two files:

- `typewriter.dfy`, module `Typewriter`: the state `Tw(i, j, isDeleting)`,
  one call of `type()` as the function `StepF`, runs of many calls (`Run`,
  `Trace`, `Schedule`), and the lemmas about them. The main results are
  that every reachable state keeps `i` and `j` in range, that the text
  written is always a prefix of a phrase, and that one full
  type-pause-delete-pause cycle on phrase `i` takes exactly
  `2 * |texts[i]| + 2` calls and ends at the start of phrase
  `(i + 1) mod |texts|`. Hence after `n` cycles from page load the phrase
  index is `n mod |texts|`.
- `page.dfy`, module `TypewriterPage`: the class `TypewriterElement` with
  the script's mutable variables `i`, `j`, `isDeleting`, the element's text
  and whether the element exists. Its `Step` method updates them in place
  as `type()` does and returns the delay it schedules. It is proved to agree
  with `StepF` and to keep the invariant.

## Behaviour worth noting

- When the element is missing, `type()` returns before it calls
  `setTimeout` (public/typewriter.js:15). The loop therefore stops after
  the first call. `Schedule` and `Step` state this.
- Each call writes `slice(0, j)` before it moves the cursor. So the first
  call after page load writes `""`, not the first character. Each end of a
  phrase is written twice, once by the flip and once by the call after the
  800 ms pause. `TwoPhraseTrace` shows the whole sequence for the phrases
  `["A", "BC"]`.
- The written text's length changes by at most one per call, not always
  by one: the call after a flip writes the same text as the flip
  (`AfterFlipSameText`).

JavaScript's `slice(0, j)` clamps `j` to the string's length. `JsSlice`
models that clamp. `%` is applied only to non-negative numbers, where
JavaScript and Dafny agree.

## Model

| member | source | states |
|---|---|---|
| Typewriter.JsSlice | public/typewriter.js:17 | `slice(0, n)` gives a prefix of the string of length `min(n, length)` |
| Typewriter.Kind | public/typewriter.js:18-23 | in a state with `j` in range, a call flips exactly at the extremes: `j == |texts[i]|` while typing, or `j == 0` while deleting; the two moving branches are told apart by the direction flag |
| Typewriter.StepF | public/typewriter.js:16-28 | one call: the text written is the prefix of `texts[i]` of length `j`; typing adds one to `j` and deleting takes one away, changing nothing else; a flip keeps `j`, negates `isDeleting`, and moves `i` to `(i + 1) mod |texts|` exactly when it ends a deletion; the invariant is kept; the delay is 800 after a flip, 60 after a delete, 100 after a type |
| Typewriter.Run | public/typewriter.js:14-28 | after any number of calls the phrase index is still a valid index |
| Typewriter.RunKeepsInv | public/typewriter.js:11-24 | every state reached from a state with `i < |texts|` and `j <= |texts[i]|` keeps both bounds |
| Typewriter.ShownIsPrefix | public/typewriter.js:16-17 | at every call the text written is a prefix of one of the phrases and has exactly `j` characters |
| Typewriter.ShownLengthChangesByAtMostOne | public/typewriter.js:16-24 | the texts written by two consecutive calls differ in length by at most one |
| Typewriter.AfterFlipSameText | public/typewriter.js:17-24 | the call after a flip writes the same text as the flip, since a flip keeps the phrase or lands on an empty prefix and keeps `j` |
| Typewriter.TraceIsRun | public/typewriter.js:17 | entry `k` of the trace is the text written by the call made in the state reached after `k` calls |
| Typewriter.ScheduleIsRun | public/typewriter.js:25-28 | with the element present, entry `k` of the schedule is the delay chosen by the call made in the state reached after `k` calls |
| Typewriter.TypingRun | public/typewriter.js:18-19 | typing from cursor `k` reaches the end of the phrase in `|texts[i]| - k` calls without changing the phrase or the direction |
| Typewriter.DeletingRun | public/typewriter.js:20-21 | deleting from cursor `k` reaches an empty prefix in `k` calls without changing the phrase or the direction |
| Typewriter.FullCycle | public/typewriter.js:18-28 | from `(i, 0, typing)`, exactly `2 * |texts[i]| + 2` calls reach `((i + 1) mod |texts|, 0, typing)` |
| Typewriter.Cycles | public/typewriter.js:18-28 | `n` full cycles from `(i, 0, typing)` end at `((i + n) mod |texts|, 0, typing)` |
| Typewriter.CyclesFromStart | public/typewriter.js:11-28 | from the page-load state `(0, 0, typing)`, the phrase index after `n` full cycles is `n mod |texts|` |
| Typewriter.PhrasesRoundTrip | public/typewriter.js:4-28 | with the page's four phrases (19, 25, 22 and 20 characters) the animation is back at its initial state after 180 calls |
| Typewriter.Trace | public/typewriter.js:17 | `n` calls write exactly `n` texts |
| Typewriter.TraceAdd | public/typewriter.js:17 | the texts written by `a + b` calls are those of the first `a` calls followed by those of the next `b` |
| Typewriter.TwoPhraseTrace | public/typewriter.js:14-28 | for the phrases `["A", "BC"]` the first ten calls write `"", "A", "A", "", "", "B", "BC", "BC", "B", ""` and return to the initial state |
| Typewriter.TwoPhraseFirst | public/typewriter.js:14-28 | for `["A", "BC"]` the first four calls write `"", "A", "A", ""` and move to phrase 1 |
| Typewriter.TwoPhraseSecond | public/typewriter.js:14-28 | for `["A", "BC"]` the next six calls write `"", "B", "BC", "BC", "B", ""` and wrap back to phrase 0 |
| Typewriter.Schedule | public/typewriter.js:15-28 | with the element missing the first call schedules nothing, so the loop ends; with it present every one of `n` calls schedules a next call, with a delay of 800, 60 or 100 |
| TypewriterPage.TypewriterElement.constructor | public/typewriter.js:4-12 | the page starts at `i = 0`, `j = 0`, typing, with the element's text untouched and the invariant established |
| TypewriterPage.TypewriterElement.Step | public/typewriter.js:14-29 | with the element missing nothing changes and no call is scheduled; with it present the variables and the element's text become exactly what `StepF` gives, the returned delay is `StepF`'s, and the invariant is kept |

## Left out

- The `DOMContentLoaded` subscription (public/typewriter.js:3) and the
  `getElementById` lookup (public/typewriter.js:12): the lookup's outcome
  is the constructor's `hasEl` argument, and the element's initial text its
  `initialText` argument.
- Real-time scheduling with `setTimeout`: a scheduled call is modelled as
  the next call of `Step` (or the next element of `Run`), with the delay
  returned as a number. Wall-clock time is not modelled.
- The phrase list is a parameter, required to be non-empty; the page's own
  list is the four-phrase constant `Phrases`. An empty list would make
  `texts[0]` undefined in JavaScript; the page never has one.
- Strings are sequences of characters. JavaScript's UTF-16 code units are
  not modelled; the page's phrases are plain ASCII, where the two agree.
- `src/components/Hedgehog.tsx` (eye tracking and blinking): floating-point
  trigonometry, random timers and framework lifecycle, not modelled.
- `astro.config.mjs`: build configuration with no logic of its own.
