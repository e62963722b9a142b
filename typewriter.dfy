/** A pure model of the typewriter animation of public/typewriter.js.

    The animation cycles through a fixed list of phrases. Its state is a
    phrase index `i`, a character cursor `j` and a direction flag
    `isDeleting`; every timer tick shows the first `j` characters of the
    current phrase and then either types one character, deletes one, or
    flips direction (moving on to the next phrase when deletion ends).
    This module gives one tick as a function, `StepF`, and proves what a
    whole type-and-delete cycle does. The class in page.dfy runs the same
    tick in place and is proved against `StepF`.
 */
module Typewriter {

  datatype Option<T> = None | Some(value: T)

  /** The four phrases the page cycles through (public/typewriter.js:4-9). */
  const Phrases: seq<string> := [
    "Data that empowers.",
    "Sustainability in action.",
    "AI for smarter growth.",
    "Farming, reimagined."
  ]

  /** Delays, in milliseconds, before the next tick is run. */
  const PauseDelay := 800
  const DeleteDelay := 60
  const TypeDelay := 100

  /** The animation state: phrase index, character cursor, direction. */
  datatype Tw = Tw(i: nat, j: nat, isDeleting: bool)

  /** The state of the page when the script starts (public/typewriter.js:11). */
  const Start := Tw(0, 0, false)

  /** What one tick does: the state after it, the text it writes into the
      element, and the delay it asks for before the next tick. */
  datatype Tick = Tick(next: Tw, shown: string, delay: nat)

  /** The three things a tick can do. */
  datatype Action = Type | Delete | Flip

  /** The state invariant: the phrase index is in range and the cursor lies
      within the current phrase. */
  ghost predicate Inv(texts: seq<string>, s: Tw) {
    s.i < |texts| && s.j <= |texts[s.i]|
  }

  function Min(a: nat, b: nat): nat {
    if a <= b then a else b
  }

  /** `s.slice(0, n)` for a non-negative `n`: JavaScript clamps the end
      position to the length of the string. */
  function JsSlice(s: string, n: nat): (r: string)
    ensures |r| == Min(n, |s|)
    ensures r <= s
  {
    s[..Min(n, |s|)]
  }

  /** Which branch of `type()` a state takes (public/typewriter.js:18-23).
      In a state with the cursor in range, a flip happens exactly at the two
      ends of the current phrase. */
  function Kind(texts: seq<string>, s: Tw): (a: Action)
    requires s.i < |texts|
    ensures Inv(texts, s) ==>
              (a == Flip <==> (!s.isDeleting && s.j == |texts[s.i]|) || (s.isDeleting && s.j == 0))
    ensures a != Flip ==> (a == Delete <==> s.isDeleting)
  {
    if !s.isDeleting && s.j < |texts[s.i]| then Type
    else if s.isDeleting && s.j > 0 then Delete
    else Flip
  }

  /** One call of `type()` with the element present
      (public/typewriter.js:16-28). */
  function StepF(texts: seq<string>, s: Tw): (r: Tick)
    requires s.i < |texts|
    // the text written is the prefix of the current phrase of length j
    ensures r.shown <= texts[s.i] && |r.shown| == Min(s.j, |texts[s.i]|)
    // the phrase index stays in range, and so does the cursor
    ensures r.next.i < |texts|
    ensures Inv(texts, s) ==> Inv(texts, r.next)
    // typing and deleting move the cursor by one and change nothing else
    ensures Kind(texts, s) == Type ==> r.next == s.(j := s.j + 1)
    ensures Kind(texts, s) == Delete ==> r.next == s.(j := s.j - 1)
    // a flip keeps the cursor and reverses direction
    ensures Kind(texts, s) == Flip ==> r.next.j == s.j && r.next.isDeleting == !s.isDeleting
    // the index moves, wrapping round, only when deletion ends
    ensures r.next.i == if Kind(texts, s) == Flip && s.isDeleting then (s.i + 1) % |texts| else s.i
    // the delay tells the three branches apart
    ensures r.delay == PauseDelay <==> Kind(texts, s) == Flip
    ensures r.delay == DeleteDelay <==> Kind(texts, s) == Delete
    ensures r.delay == TypeDelay <==> Kind(texts, s) == Type
  {
    var current := texts[s.i];
    var shown := JsSlice(current, s.j);
    if !s.isDeleting && s.j < |current| then
      var next := s.(j := s.j + 1);
      Tick(next, shown, if next.isDeleting then DeleteDelay else TypeDelay)
    else if s.isDeleting && s.j > 0 then
      var next := s.(j := s.j - 1);
      Tick(next, shown, if next.isDeleting then DeleteDelay else TypeDelay)
    else
      var flipped := !s.isDeleting;
      var i' := if !flipped then (s.i + 1) % |texts| else s.i;
      Tick(Tw(i', s.j, flipped), shown, PauseDelay)
  }

  /** The state after `n` ticks with the element present. */
  function Run(texts: seq<string>, s: Tw, n: nat): (r: Tw)
    requires s.i < |texts|
    ensures r.i < |texts|
    decreases n
  {
    if n == 0 then s else Run(texts, StepF(texts, s).next, n - 1)
  }

  /** Every state a run reaches satisfies the invariant; the page starts
      in a state that does. */
  lemma {:induction false} RunKeepsInv(texts: seq<string>, s: Tw, n: nat)
    requires Inv(texts, s)
    ensures Inv(texts, Run(texts, s, n))
    decreases n
  {
    if n > 0 {
      RunKeepsInv(texts, StepF(texts, s).next, n - 1);
    }
  }

  /** Whatever tick the page is at, the text written is a prefix of one of
      the phrases, and it has exactly `j` characters. */
  lemma ShownIsPrefix(texts: seq<string>, s: Tw, n: nat)
    requires Inv(texts, s)
    ensures var t := Run(texts, s, n);
            exists k :: 0 <= k < |texts| && StepF(texts, t).shown <= texts[k] &&
                        |StepF(texts, t).shown| == t.j
  {
    RunKeepsInv(texts, s, n);
    var t := Run(texts, s, n);
    assert StepF(texts, t).shown <= texts[t.i];
  }

  /** Between two consecutive ticks the length of the text written changes
      by at most one character. */
  lemma ShownLengthChangesByAtMostOne(texts: seq<string>, s: Tw)
    requires Inv(texts, s)
    ensures var a := |StepF(texts, s).shown|;
            var b := |StepF(texts, StepF(texts, s).next).shown|;
            a - 1 <= b <= a + 1
  {
  }

  /** The tick after a flip writes the same text as the flip: a flip
      keeps the cursor, and when it moves to the next phrase the cursor is
      at zero. */
  lemma AfterFlipSameText(texts: seq<string>, s: Tw)
    requires Inv(texts, s) && Kind(texts, s) == Flip
    ensures StepF(texts, StepF(texts, s).next).shown == StepF(texts, s).shown
  {
  }

  /** Running `a + b` ticks is running `a` ticks, then `b` more. */
  lemma {:induction false} RunAdd(texts: seq<string>, s: Tw, a: nat, b: nat)
    requires s.i < |texts|
    ensures Run(texts, s, a + b) == Run(texts, Run(texts, s, a), b)
    decreases a
  {
    if a > 0 {
      RunAdd(texts, StepF(texts, s).next, a - 1, b);
    }
  }

  /** Typing from cursor `k` reaches the end of the phrase in
      `|texts[i]| - k` ticks, one character per tick. */
  lemma {:induction false} TypingRun(texts: seq<string>, i: nat, k: nat)
    requires i < |texts| && k <= |texts[i]|
    ensures Run(texts, Tw(i, k, false), |texts[i]| - k) == Tw(i, |texts[i]|, false)
    decreases |texts[i]| - k
  {
    if k < |texts[i]| {
      assert StepF(texts, Tw(i, k, false)).next == Tw(i, k + 1, false);
      TypingRun(texts, i, k + 1);
    }
  }

  /** Deleting from cursor `k` empties the phrase in `k` ticks. */
  lemma {:induction false} DeletingRun(texts: seq<string>, i: nat, k: nat)
    requires i < |texts| && k <= |texts[i]|
    ensures Run(texts, Tw(i, k, true), k) == Tw(i, 0, true)
    decreases k
  {
    if k > 0 {
      assert StepF(texts, Tw(i, k, true)).next == Tw(i, k - 1, true);
      DeletingRun(texts, i, k - 1);
    }
  }

  /** The number of ticks of one full cycle on phrase `i`: type every
      character, pause, delete every character, pause. */
  function CycleLength(texts: seq<string>, i: nat): nat
    requires i < |texts|
  {
    2 * |texts[i]| + 2
  }

  /** Full cycle: from the start of phrase `i`, typing, exactly
      `2 * |texts[i]| + 2` ticks reach the start of the next phrase,
      wrapping round after the last. */
  lemma FullCycle(texts: seq<string>, i: nat)
    requires i < |texts|
    ensures Run(texts, Tw(i, 0, false), CycleLength(texts, i)) == Tw((i + 1) % |texts|, 0, false)
  {
    var L := |texts[i]|;
    TypingRun(texts, i, 0);
    RunAdd(texts, Tw(i, 0, false), L, 1);
    assert StepF(texts, Tw(i, L, false)).next == Tw(i, L, true);
    RunAdd(texts, Tw(i, 0, false), L + 1, L);
    DeletingRun(texts, i, L);
    RunAdd(texts, Tw(i, 0, false), 2 * L + 1, 1);
    assert StepF(texts, Tw(i, 0, true)).next == Tw((i + 1) % |texts|, 0, false);
  }

  /** The number of ticks of `n` full cycles beginning at phrase `i`. */
  function CyclesLength(texts: seq<string>, i: nat, n: nat): nat
    requires i < |texts|
    decreases n
  {
    if n == 0 then 0
    else CycleLength(texts, i) + CyclesLength(texts, (i + 1) % |texts|, n - 1)
  }

  /** Division by `m` is unique: `q` and `r` are the quotient and the
      remainder of `x` whenever `x == q * m + r` with `0 <= r < m`. */
  lemma ModUnique(x: int, q: int, r: int, m: int)
    requires m > 0 && x == q * m + r && 0 <= r < m
    ensures x % m == r && x / m == q
  {
    var q', r' := x / m, x % m;
    var d := q - q';
    assert d * m == r' - r by {
      assert q * m - q' * m == d * m;
    }
    MulSign(d, m);
  }

  lemma MulSign(d: int, m: int)
    requires m > 0
    ensures d >= 1 ==> d * m >= m
    ensures d <= -1 ==> d * m <= -m
  {
  }

  /** Taking the remainder first does not change the final remainder. */
  lemma ModAddLeft(x: nat, b: nat, m: nat)
    requires m > 0
    ensures (x % m + b) % m == (x + b) % m
  {
    var q, r := x / m, x % m;
    var q2, r2 := (r + b) / m, (r + b) % m;
    assert x + b == (q + q2) * m + r2 by {
      assert (q + q2) * m == q * m + q2 * m;
    }
    ModUnique(x + b, q + q2, r2, m);
  }

  /** After `n` full cycles from the start of phrase `i` the page is at
      the start of phrase `(i + n) mod |texts|`, typing. */
  lemma {:induction false} Cycles(texts: seq<string>, i: nat, n: nat)
    requires i < |texts|
    ensures Run(texts, Tw(i, 0, false), CyclesLength(texts, i, n)) == Tw((i + n) % |texts|, 0, false)
    decreases n
  {
    var m := |texts|;
    if n == 0 {
      ModUnique(i, 0, i, m);
    } else {
      var i' := (i + 1) % m;
      var s0 := Tw(i, 0, false);
      FullCycle(texts, i);
      RunAdd(texts, s0, CycleLength(texts, i), CyclesLength(texts, i', n - 1));
      Cycles(texts, i', n - 1);
      ModAddLeft(i + 1, n - 1, m);
      assert (i' + (n - 1)) % m == (i + n) % m;
    }
  }

  /** From page load, the phrase index after `n` full cycles is
      `n mod |texts|`. */
  lemma CyclesFromStart(texts: seq<string>, n: nat)
    requires |texts| > 0
    ensures Run(texts, Start, CyclesLength(texts, 0, n)).i == n % |texts|
  {
    Cycles(texts, 0, n);
  }

  /** With the page's own four phrases, 180 ticks bring the animation back
      to the state it starts in. */
  lemma PhrasesRoundTrip()
    ensures Run(Phrases, Start, 180) == Start
  {
    assert |Phrases[0]| == 19 && |Phrases[1]| == 25 && |Phrases[2]| == 22 && |Phrases[3]| == 20;
    assert CyclesLength(Phrases, 0, 4) == 180;
    Cycles(Phrases, 0, 4);
  }

  /** The text written on each of the first `n` ticks. */
  function Trace(texts: seq<string>, s: Tw, n: nat): (r: seq<string>)
    requires s.i < |texts|
    ensures |r| == n
    decreases n
  {
    if n == 0 then [] else [StepF(texts, s).shown] + Trace(texts, StepF(texts, s).next, n - 1)
  }

  /** Running `a + b` ticks writes the texts of the first `a`, then those
      of `b` more. */
  lemma {:induction false} TraceAdd(texts: seq<string>, s: Tw, a: nat, b: nat)
    requires s.i < |texts|
    ensures Trace(texts, s, a + b) == Trace(texts, s, a) + Trace(texts, Run(texts, s, a), b)
    decreases a
  {
    if a > 0 {
      var t := StepF(texts, s);
      TraceAdd(texts, t.next, a - 1, b);
      assert Trace(texts, s, a + b) == [t.shown] + Trace(texts, t.next, a - 1 + b);
    }
  }

  /** Entry `k` of the trace is what the tick made after `k` ticks writes. */
  lemma {:induction false} TraceIsRun(texts: seq<string>, s: Tw, n: nat, k: nat)
    requires s.i < |texts| && k < n
    ensures Trace(texts, s, n)[k] == StepF(texts, Run(texts, s, k)).shown
    decreases k
  {
    if k > 0 {
      TraceIsRun(texts, StepF(texts, s).next, n - 1, k - 1);
    }
  }

  /** Two short phrases: every tick writes the text before it moves the
      cursor, so the first tick writes "" and each end of a phrase is
      written twice, once before and once after the pause. */
  lemma TwoPhraseTrace()
    ensures Trace(["A", "BC"], Start, 10) == ["", "A", "A", "", "", "B", "BC", "BC", "B", ""]
    ensures Run(["A", "BC"], Start, 10) == Start
  {
    var t := ["A", "BC"];
    TwoPhraseFirst();
    TwoPhraseSecond();
    TraceAdd(t, Start, 4, 6);
    RunAdd(t, Start, 4, 6);
  }

  /** The first phrase of the two: four ticks. */
  lemma TwoPhraseFirst()
    ensures Trace(["A", "BC"], Start, 4) == ["", "A", "A", ""]
    ensures Run(["A", "BC"], Start, 4) == Tw(1, 0, false)
  {
    var t := ["A", "BC"];
    assert StepF(t, Tw(0, 0, true)) == Tick(Tw(1, 0, false), "", PauseDelay);
    assert Trace(t, Tw(0, 0, true), 1) == [""];
    assert Run(t, Tw(0, 0, true), 1) == Tw(1, 0, false);
    assert StepF(t, Tw(0, 1, true)) == Tick(Tw(0, 0, true), "A", DeleteDelay);
    assert Trace(t, Tw(0, 1, true), 2) == ["A", ""];
    assert Run(t, Tw(0, 1, true), 2) == Tw(1, 0, false);
    assert StepF(t, Tw(0, 1, false)) == Tick(Tw(0, 1, true), "A", PauseDelay);
    assert Trace(t, Tw(0, 1, false), 3) == ["A", "A", ""];
    assert Run(t, Tw(0, 1, false), 3) == Tw(1, 0, false);
    assert StepF(t, Start) == Tick(Tw(0, 1, false), "", TypeDelay);
    assert Trace(t, Start, 4) == ["", "A", "A", ""];
    assert Run(t, Start, 4) == Tw(1, 0, false);
  }

  /** The second phrase of the two: six ticks, back to the start. */
  lemma TwoPhraseSecond()
    ensures Trace(["A", "BC"], Tw(1, 0, false), 6) == ["", "B", "BC", "BC", "B", ""]
    ensures Run(["A", "BC"], Tw(1, 0, false), 6) == Start
  {
    var t := ["A", "BC"];
    assert StepF(t, Tw(1, 0, true)) == Tick(Start, "", PauseDelay);
    assert Trace(t, Tw(1, 0, true), 1) == [""];
    assert Run(t, Tw(1, 0, true), 1) == Start;
    assert StepF(t, Tw(1, 1, true)) == Tick(Tw(1, 0, true), "B", DeleteDelay);
    assert Trace(t, Tw(1, 1, true), 2) == ["B", ""];
    assert Run(t, Tw(1, 1, true), 2) == Start;
    assert StepF(t, Tw(1, 2, true)) == Tick(Tw(1, 1, true), "BC", DeleteDelay);
    assert Trace(t, Tw(1, 2, true), 3) == ["BC", "B", ""];
    assert Run(t, Tw(1, 2, true), 3) == Start;
    assert StepF(t, Tw(1, 2, false)) == Tick(Tw(1, 2, true), "BC", PauseDelay);
    assert Trace(t, Tw(1, 2, false), 4) == ["BC", "BC", "B", ""];
    assert Run(t, Tw(1, 2, false), 4) == Start;
    assert StepF(t, Tw(1, 1, false)) == Tick(Tw(1, 2, false), "B", TypeDelay);
    assert Trace(t, Tw(1, 1, false), 5) == ["B", "BC", "BC", "B", ""];
    assert Run(t, Tw(1, 1, false), 5) == Start;
    assert StepF(t, Tw(1, 0, false)) == Tick(Tw(1, 1, false), "", TypeDelay);
    assert Trace(t, Tw(1, 0, false), 6) == ["", "B", "BC", "BC", "B", ""];
    assert Run(t, Tw(1, 0, false), 6) == Start;
  }

  /** The delays scheduled by a chain of `n` calls of `type()` that begins
      in state `s`; `hasEl` says whether the element exists. A call that
      finds no element returns without scheduling anything, so the chain
      ends there (public/typewriter.js:15). */
  function Schedule(texts: seq<string>, hasEl: bool, s: Tw, n: nat): (r: seq<nat>)
    requires s.i < |texts|
    ensures !hasEl ==> r == []
    ensures hasEl ==> |r| == n
    ensures forall k :: 0 <= k < |r| ==> r[k] in {PauseDelay, DeleteDelay, TypeDelay}
    decreases n
  {
    if n == 0 || !hasEl then []
    else
      var t := StepF(texts, s);
      [t.delay] + Schedule(texts, hasEl, t.next, n - 1)
  }

  /** With the element present, entry `k` of the schedule is the delay
      chosen by the tick made after `k` ticks. */
  lemma {:induction false} ScheduleIsRun(texts: seq<string>, s: Tw, n: nat, k: nat)
    requires s.i < |texts| && k < n
    ensures Schedule(texts, true, s, n)[k] == StepF(texts, Run(texts, s, k)).delay
    decreases k
  {
    if k > 0 {
      ScheduleIsRun(texts, StepF(texts, s).next, n - 1, k - 1);
    }
  }
}
