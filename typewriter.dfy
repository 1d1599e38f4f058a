/** The typewriter effect of the portfolio page: a fixed list of sentences is typed one
    character at a time, paused on, deleted one character at a time, and the next sentence
    (cyclically) is started. The state lives in four module-level variables of the script;
    here they are the fields of the class Cycler, and the functions below give the same
    transition on values so that multi-step behaviour can be stated and proved. */
module Typewriter {
  import Js

  /** The sentences the page cycles through. */
  const Sentences: seq<string> := [
    "Creating modern, user-friendly web experiences.",
    "Combining software engineering and network skills.",
    "Open to PFE internship opportunities."
  ]

  /** Delays in milliseconds before the next step. */
  const TypeDelay := 100
  const DeleteDelay := 50
  const EndPause := 2000
  const NextPause := 500
  /** The value the delay variable holds before the first step. */
  const InitialDelay := 100

  predicate IsDelay(d: int) {
    d == TypeDelay || d == DeleteDelay || d == EndPause || d == NextPause
  }

  /** What the step relies on: at least one sentence, and no empty sentence
      (an empty one is never recognised as fully typed, see EmptySentenceOverruns). */
  predicate WellFormed(ss: seq<string>) {
    |ss| > 0 && forall i :: 0 <= i < |ss| ==> |ss[i]| > 0
  }

  /** The four variables the step reads and writes. */
  datatype CycleState = CycleState(sentenceIndex: int, charIndex: int, isDeleting: bool, delay: int)

  /** The state at page load. */
  const Initial := CycleState(0, 0, false, InitialDelay)

  /** The current sentence exists, so the step can read it. */
  predicate InRange(ss: seq<string>, s: CycleState) {
    0 <= s.sentenceIndex < |ss|
  }

  /** The invariant of every reachable state: the shown prefix fits the current sentence,
      a typing state still has a character to type and a deleting state one to delete. */
  predicate Inv(ss: seq<string>, s: CycleState) {
    && InRange(ss, s)
    && 0 <= s.charIndex <= |ss[s.sentenceIndex]|
    && (s.isDeleting ==> 1 <= s.charIndex)
    && (!s.isDeleting ==> s.charIndex < |ss[s.sentenceIndex]|)
  }

  /** One call of the step, on values: one character added or removed, then the two
      boundary checks in order (fully typed, then fully deleted). */
  function Next(ss: seq<string>, s: CycleState): (t: CycleState)
    requires InRange(ss, s)
    ensures InRange(ss, t)
    ensures IsDelay(t.delay)
    ensures t.charIndex == if s.isDeleting then s.charIndex - 1 else s.charIndex + 1
    ensures t.sentenceIndex != s.sentenceIndex ==>
              && t.sentenceIndex == (s.sentenceIndex + 1) % |ss|
              && t.charIndex == 0 && !t.isDeleting && t.delay == NextPause
    ensures !s.isDeleting && s.charIndex >= 0 ==> t.sentenceIndex == s.sentenceIndex
  {
    var current := ss[s.sentenceIndex];
    var charIndex := if s.isDeleting then s.charIndex - 1 else s.charIndex + 1;
    var delay := if s.isDeleting then DeleteDelay else TypeDelay;
    var complete := !s.isDeleting && charIndex == |current|;
    var isDeleting := s.isDeleting || complete;
    var delay := if complete then EndPause else delay;
    if isDeleting && charIndex == 0 then
      CycleState((s.sentenceIndex + 1) % |ss|, charIndex, false, NextPause)
    else
      CycleState(s.sentenceIndex, charIndex, isDeleting, delay)
  }

  /** The text written to the page by the step taken from s. */
  function Shown(ss: seq<string>, s: CycleState): (text: string)
    requires InRange(ss, s)
    ensures Inv(ss, s) ==> text == ss[s.sentenceIndex][..Next(ss, s).charIndex]
  {
    var current := ss[s.sentenceIndex];
    if s.isDeleting then Js.Substring(current, 0, s.charIndex - 1)
    else Js.Substring(current, 0, s.charIndex + 1)
  }

  /** Every step keeps the invariant when no sentence is empty. */
  lemma StepKeepsInv(ss: seq<string>, s: CycleState)
    requires WellFormed(ss) && Inv(ss, s)
    ensures Inv(ss, Next(ss, s))
  {
  }

  /** A typing step: one more character shown; at the end of the sentence the direction
      flips with the long pause, otherwise the typing delay; the sentence stays. */
  lemma TypingStep(ss: seq<string>, s: CycleState)
    requires Inv(ss, s) && !s.isDeleting
    ensures var t, n := Next(ss, s), |ss[s.sentenceIndex]|;
      && t.charIndex == s.charIndex + 1
      && Shown(ss, s) == ss[s.sentenceIndex][..t.charIndex]
      && t.sentenceIndex == s.sentenceIndex
      && (t.isDeleting <==> t.charIndex == n)
      && t.delay == (if t.charIndex == n then EndPause else TypeDelay)
  {
  }

  /** A deleting step: one character fewer shown; when nothing is left the direction
      flips, the next sentence (cyclically) is selected and the short pause is taken,
      otherwise the deleting delay. */
  lemma DeletingStep(ss: seq<string>, s: CycleState)
    requires Inv(ss, s) && s.isDeleting
    ensures var t := Next(ss, s);
      && t.charIndex == s.charIndex - 1
      && Shown(ss, s) == ss[s.sentenceIndex][..t.charIndex]
      && (!t.isDeleting <==> t.charIndex == 0)
      && t.sentenceIndex == (if t.charIndex == 0 then (s.sentenceIndex + 1) % |ss| else s.sentenceIndex)
      && t.delay == (if t.charIndex == 0 then NextPause else DeleteDelay)
  {
  }

  /** k steps from s. */
  function Run(ss: seq<string>, s: CycleState, k: nat): (t: CycleState)
    requires InRange(ss, s)
    ensures InRange(ss, t)
    decreases k
  {
    if k == 0 then s else Run(ss, Next(ss, s), k - 1)
  }

  /** The texts written by k steps from s, in order. */
  function Displays(ss: seq<string>, s: CycleState, k: nat): (texts: seq<string>)
    requires InRange(ss, s)
    ensures |texts| == k
    decreases k
  {
    if k == 0 then [] else [Shown(ss, s)] + Displays(ss, Next(ss, s), k - 1)
  }

  /** The prefixes shown while typing a sentence from c characters to its end. */
  function Typed(sentence: string, c: nat): (texts: seq<string>)
    requires c <= |sentence|
    ensures |texts| == |sentence| - c
    ensures forall j :: 0 <= j < |texts| ==> texts[j] == sentence[..c + 1 + j]
    decreases |sentence| - c
  {
    if c == |sentence| then [] else [sentence[..c + 1]] + Typed(sentence, c + 1)
  }

  /** The prefixes shown while deleting a sentence from c characters to none. */
  function Erased(sentence: string, c: nat): (texts: seq<string>)
    requires c <= |sentence|
    ensures |texts| == c
    ensures forall j :: 0 <= j < |texts| ==> texts[j] == sentence[..c - 1 - j]
  {
    if c == 0 then [] else [sentence[..c - 1]] + Erased(sentence, c - 1)
  }

  /** Running a + b steps is running a steps and then b more. */
  lemma {:induction false} RunAdd(ss: seq<string>, s: CycleState, a: nat, b: nat)
    requires InRange(ss, s)
    ensures Run(ss, s, a + b) == Run(ss, Run(ss, s, a), b)
    ensures Displays(ss, s, a + b) == Displays(ss, s, a) + Displays(ss, Run(ss, s, a), b)
    decreases a
  {
    if a > 0 {
      var t := Next(ss, s);
      RunAdd(ss, t, a - 1, b);
      assert Run(ss, s, a + b) == Run(ss, t, a - 1 + b);
      assert Displays(ss, s, a + b) == [Shown(ss, s)] + Displays(ss, t, a - 1 + b);
    }
  }

  /** Every state reached from a state of the invariant is in the invariant. */
  lemma {:induction false} RunKeepsInv(ss: seq<string>, s: CycleState, k: nat)
    requires WellFormed(ss) && Inv(ss, s)
    ensures Inv(ss, Run(ss, s, k))
    decreases k
  {
    if k > 0 {
      StepKeepsInv(ss, s);
      RunKeepsInv(ss, Next(ss, s), k - 1);
    }
  }

  /** Every state the page goes through satisfies the invariant. */
  lemma Reachable(ss: seq<string>, k: nat)
    requires WellFormed(ss)
    ensures Inv(ss, Run(ss, Initial, k))
  {
    RunKeepsInv(ss, Initial, k);
  }

  /** Typing from c characters: after n - c steps the whole sentence is shown, the
      direction has flipped and the long pause is set; the texts are the prefixes of
      lengths c + 1 up to n. */
  lemma {:induction false} TypeOut(ss: seq<string>, s: CycleState)
    requires Inv(ss, s) && !s.isDeleting
    ensures var sentence := ss[s.sentenceIndex];
      var k := |sentence| - s.charIndex;
      && Run(ss, s, k) == CycleState(s.sentenceIndex, |sentence|, true, EndPause)
      && Displays(ss, s, k) == Typed(sentence, s.charIndex)
    decreases |ss[s.sentenceIndex]| - s.charIndex
  {
    var sentence := ss[s.sentenceIndex];
    var k := |sentence| - s.charIndex;
    var t := Next(ss, s);
    TypingStep(ss, s);
    assert Run(ss, s, k) == Run(ss, t, k - 1);
    assert Displays(ss, s, k) == [Shown(ss, s)] + Displays(ss, t, k - 1);
    if t.charIndex < |sentence| {
      TypeOut(ss, t);
    }
  }

  /** Deleting from c characters: after c steps nothing is shown, typing resumes on the
      next sentence after the short pause; the texts are the prefixes of lengths c - 1
      down to 0. */
  lemma {:induction false} EraseOut(ss: seq<string>, s: CycleState)
    requires Inv(ss, s) && s.isDeleting
    ensures var sentence := ss[s.sentenceIndex];
      && Run(ss, s, s.charIndex) == CycleState((s.sentenceIndex + 1) % |ss|, 0, false, NextPause)
      && Displays(ss, s, s.charIndex) == Erased(sentence, s.charIndex)
    decreases s.charIndex
  {
    var k := s.charIndex;
    var t := Next(ss, s);
    DeletingStep(ss, s);
    assert Run(ss, s, k) == Run(ss, t, k - 1);
    assert Displays(ss, s, k) == [Shown(ss, s)] + Displays(ss, t, k - 1);
    if t.charIndex > 0 {
      EraseOut(ss, t);
    }
  }

  /** A full sentence cycle: from the start of sentence i, exactly 2n steps (n the
      sentence's length) reach the start of the next sentence, showing the prefixes of
      lengths 1..n and then n-1 down to 0. */
  lemma FullCycle(ss: seq<string>, i: int, d: int)
    requires WellFormed(ss) && 0 <= i < |ss|
    ensures var s, sentence := CycleState(i, 0, false, d), ss[i];
      && Run(ss, s, 2 * |sentence|) == CycleState((i + 1) % |ss|, 0, false, NextPause)
      && Displays(ss, s, 2 * |sentence|) == Typed(sentence, 0) + Erased(sentence, |sentence|)
  {
    var s, n := CycleState(i, 0, false, d), |ss[i]|;
    TypeOut(ss, s);
    var u := Run(ss, s, n);
    EraseOut(ss, u);
    RunAdd(ss, s, n, n);
  }

  /** Typing from c characters: the first n - c - 1 steps stay on the sentence, typing,
      one character further each. */
  lemma {:induction false} TypingRun(ss: seq<string>, s: CycleState, m: nat)
    requires Inv(ss, s) && !s.isDeleting && m < |ss[s.sentenceIndex]| - s.charIndex
    ensures var t := Run(ss, s, m);
      t.sentenceIndex == s.sentenceIndex && t.charIndex == s.charIndex + m && !t.isDeleting
    decreases m
  {
    if m > 0 {
      TypingStep(ss, s);
      TypingRun(ss, Next(ss, s), m - 1);
    }
  }

  /** Deleting from c characters: the first c - 1 steps stay on the sentence, deleting,
      one character fewer each. */
  lemma {:induction false} DeletingRun(ss: seq<string>, s: CycleState, m: nat)
    requires Inv(ss, s) && s.isDeleting && m < s.charIndex
    ensures var t := Run(ss, s, m);
      t.sentenceIndex == s.sentenceIndex && t.charIndex == s.charIndex - m && t.isDeleting
    decreases m
  {
    if m > 0 {
      DeletingStep(ss, s);
      DeletingRun(ss, Next(ss, s), m - 1);
    }
  }

  /** The 2n steps of FullCycle are the first return to an empty prefix: every state
      strictly between shows at least one character. */
  lemma NoEarlierReturn(ss: seq<string>, i: int, d: int, j: nat)
    requires WellFormed(ss) && 0 <= i < |ss| && 0 < j < 2 * |ss[i]|
    ensures Run(ss, CycleState(i, 0, false, d), j).charIndex > 0
  {
    var s, n := CycleState(i, 0, false, d), |ss[i]|;
    if j < n {
      TypingRun(ss, s, j);
    } else {
      TypeOut(ss, s);
      RunAdd(ss, s, n, j - n);
      DeletingRun(ss, Run(ss, s, n), j - n);
    }
  }

  /** The number of steps needed to type and delete m sentences starting at sentence i. */
  function RoundLength(ss: seq<string>, i: int, m: nat): (steps: nat)
    requires |ss| > 0
  {
    if m == 0 then 0 else RoundLength(ss, i, m - 1) + 2 * |ss[(i + m - 1) % |ss|]|
  }

  // Arithmetic used to follow the cyclic sentence index over several rounds.

  lemma MulAtLeast(n: int, k: int)
    requires n > 0 && k >= 1
    ensures n * k >= n
  {
    assert n * k == n * (k - 1) + n;
    assert n * (k - 1) >= 0;
  }

  lemma ModUnique(x: int, n: int, q: int, r: int)
    requires n > 0 && x == n * q + r && 0 <= r < n
    ensures x % n == r
  {
    var q', r' := x / n, x % n;
    assert x == n * q' + r';
    assert n * (q - q') == n * q - n * q';
    assert n * (q' - q) == n * q' - n * q;
    if q > q' {
      MulAtLeast(n, q - q');
      assert false;
    } else if q < q' {
      MulAtLeast(n, q' - q);
      assert false;
    }
  }

  lemma ModNext(x: int, n: int)
    requires n > 0
    ensures (x % n + 1) % n == (x + 1) % n
  {
    var q, r := x / n, x % n;
    assert x == n * q + r;
    if r + 1 < n {
      ModUnique(x + 1, n, q, r + 1);
      ModUnique(r + 1, n, 0, r + 1);
    } else {
      assert n * (q + 1) == n * q + n;
      ModUnique(x + 1, n, q + 1, 0);
      ModUnique(r + 1, n, 1, 0);
    }
  }

  /** The sentences come in order: from the start of sentence i, going through m of them
      lands on the start of sentence (i + m) mod N. With m = N and i = 0 the page is back
      at the start of the first sentence. */
  lemma {:induction false} Rounds(ss: seq<string>, i: int, d: int, m: nat)
    requires WellFormed(ss) && 0 <= i < |ss| && m >= 1
    ensures Run(ss, CycleState(i, 0, false, d), RoundLength(ss, i, m))
            == CycleState((i + m) % |ss|, 0, false, NextPause)
    decreases m
  {
    var s := CycleState(i, 0, false, d);
    if m == 1 {
      OneRound(ss, i, d);
    } else {
      var x := i + (m - 1);
      var j := x % |ss|;
      var before := RoundLength(ss, i, m - 1);
      assert RoundLength(ss, i, m) == before + 2 * |ss[j]|;
      Rounds(ss, i, d, m - 1);
      NextRound(ss, s, before, j);
      ModNext(x, |ss|);
      assert x + 1 == i + m;
    }
  }

  /** Going through one sentence is one full cycle of it. */
  lemma OneRound(ss: seq<string>, i: int, d: int)
    requires WellFormed(ss) && 0 <= i < |ss|
    ensures Run(ss, CycleState(i, 0, false, d), RoundLength(ss, i, 1))
            == CycleState((i + 1) % |ss|, 0, false, NextPause)
  {
    ModUnique(i, |ss|, 0, i);
    assert RoundLength(ss, i, 1) == 2 * |ss[i]|;
    FullCycle(ss, i, d);
  }

  /** Once a run has reached the start of sentence j, one more full cycle of sentence j
      reaches the start of the sentence after it. */
  lemma NextRound(ss: seq<string>, s: CycleState, a: nat, j: int)
    requires WellFormed(ss) && InRange(ss, s) && 0 <= j < |ss|
    requires Run(ss, s, a) == CycleState(j, 0, false, NextPause)
    ensures Run(ss, s, a + 2 * |ss[j]|) == CycleState((j + 1) % |ss|, 0, false, NextPause)
  {
    RunAdd(ss, s, a, 2 * |ss[j]|);
    FullCycle(ss, j, NextPause);
  }

  /** An empty sentence is never seen as fully typed: the completion check compares with
      == after the increment, so the character index climbs past the length forever,
      nothing is shown and the next sentence is never reached. */
  lemma {:induction false} EmptySentenceOverruns(ss: seq<string>, s: CycleState, k: nat)
    requires InRange(ss, s) && ss[s.sentenceIndex] == "" && !s.isDeleting && s.charIndex >= 0
    requires k >= 1
    ensures Run(ss, s, k) == CycleState(s.sentenceIndex, s.charIndex + k, false, TypeDelay)
    ensures forall j :: 0 <= j < k ==> Displays(ss, s, k)[j] == ""
    decreases k
  {
    var t := Next(ss, s);
    assert Displays(ss, s, k) == [Shown(ss, s)] + Displays(ss, t, k - 1);
    if k > 1 {
      EmptySentenceOverruns(ss, t, k - 1);
    }
  }

  /** The sentences on the page satisfy what the step relies on. */
  lemma SentencesWellFormed()
    ensures WellFormed(Sentences)
  {
  }

  /** A one-sentence script "Hi": the texts are "H", "Hi", "H", "" and the state is back
      at the start of the same sentence. */
  lemma HiExample()
    ensures Displays(["Hi"], Initial, 4) == ["H", "Hi", "H", ""]
    ensures Run(["Hi"], Initial, 4) == CycleState(0, 0, false, NextPause)
  {
    FullCycle(["Hi"], 0, InitialDelay);
    var ts := Typed("Hi", 0) + Erased("Hi", 2);
    assert ts[0] == "H" && ts[1] == "Hi" && ts[2] == "H" && ts[3] == "";
  }

  /** A two-sentence script: after "A" is typed and deleted, "BC" is typed next. */
  lemma TwoSentenceExample()
    ensures Displays(["A", "BC"], Initial, 6) == ["A", "", "B", "BC", "B", ""]
    ensures Run(["A", "BC"], Initial, 6) == CycleState(0, 0, false, NextPause)
  {
    var ss := ["A", "BC"];
    FullCycle(ss, 0, InitialDelay);
    FullCycle(ss, 1, NextPause);
    RunAdd(ss, Initial, 2, 4);
    var first, second := Typed("A", 0) + Erased("A", 1), Typed("BC", 0) + Erased("BC", 2);
    assert first[0] == "A" && first[1] == "";
    assert second[0] == "B" && second[1] == "BC" && second[2] == "B" && second[3] == "";
  }

  /** The typewriter's module-level state: the sentences (fixed), the three cycle
      variables, the current delay and the text of the element written to. */
  class Cycler {
    const sentences: seq<string>
    var sentenceIndex: int
    var charIndex: int
    var isDeleting: bool
    var delay: int
    var display: string

    function State(): CycleState
      reads this
    {
      CycleState(sentenceIndex, charIndex, isDeleting, delay)
    }

    ghost predicate Valid()
      reads this
    {
      WellFormed(sentences) && Inv(sentences, State()) && IsDelay(delay)
    }

    /** The state at page load; text is whatever the element holds before the first step. */
    constructor (sentences: seq<string>, text: string)
      requires WellFormed(sentences)
      ensures Valid()
      ensures this.sentences == sentences && State() == Initial && display == text
    {
      this.sentences := sentences;
      sentenceIndex, charIndex, isDeleting, delay := 0, 0, false, InitialDelay;
      display := text;
    }

    /** One call of the typewriter step. */
    method Step()
      requires Valid()
      modifies this
      ensures Valid()
      ensures State() == Next(sentences, old(State()))
      ensures display == Shown(sentences, old(State()))
      ensures display == sentences[old(sentenceIndex)][..charIndex]
    {
      var currentSentence := sentences[sentenceIndex];

      if isDeleting {
        display := Js.Substring(currentSentence, 0, charIndex - 1);
        charIndex := charIndex - 1;
        delay := DeleteDelay;
      } else {
        display := Js.Substring(currentSentence, 0, charIndex + 1);
        charIndex := charIndex + 1;
        delay := TypeDelay;
      }

      // sentence complete
      if !isDeleting && charIndex == |currentSentence| {
        delay := EndPause;
        isDeleting := true;
      }

      // sentence fully deleted
      if isDeleting && charIndex == 0 {
        isDeleting := false;
        sentenceIndex := (sentenceIndex + 1) % |sentences|;
        delay := NextPause;
      }
    }
  }
}
