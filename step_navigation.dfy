/**
 * The arithmetic behind the solution-step index `currentStep`: the Previous
 * and Next buttons and their disabled checks (VisualLearningAssistant.jsx,
 * lines 253-262) and the advance when a step's audio ends (lines 139-145).
 * Indices are JavaScript numbers that stay integral here, so `int`.
 */
module StepNavigation {
  import opened Basics

  /** `Math.max(a, b)`. */
  function Max(a: int, b: int): int { if a >= b then a else b }

  /** `Math.min(a, b)`. */
  function Min(a: int, b: int): int { if a <= b then a else b }

  /** The index after Previous: `Math.max(0, i - 1)` (line 253). */
  function Previous(i: int): (r: int)
    ensures r >= 0
    ensures i >= 1 ==> r == i - 1
    ensures i <= 1 ==> r == 0
  {
    Max(0, i - 1)
  }

  /** The index after Next over `count` steps: `Math.min(count - 1, i + 1)` (line 260). */
  function Next(i: int, count: nat): (r: int)
    ensures r <= count - 1 && r <= i + 1
    ensures r == i + 1 || r == count - 1
  {
    Min(count - 1, i + 1)
  }

  /** Previous is disabled on the first step (line 255), where a click could not move the index. */
  predicate PreviousDisabled(i: int)
    ensures PreviousDisabled(i) ==> Previous(i) == i
    ensures i > 0 ==> !PreviousDisabled(i) && Previous(i) == i - 1
  {
    i == 0
  }

  /** Next is disabled on the last step (line 262), where a click could not move the index. */
  predicate NextDisabled(i: int, count: nat)
    ensures NextDisabled(i, count) ==> Next(i, count) == i
    ensures i < count - 1 ==> !NextDisabled(i, count) && Next(i, count) == i + 1
  {
    i == count - 1
  }

  /** The index after a click on Previous: a disabled button delivers no click. */
  function ClickPrevious(i: int): (r: int)
    ensures i >= 0 ==> 0 <= r <= i
    ensures i > 0 ==> r == i - 1
    ensures i == 0 ==> r == 0
  {
    if PreviousDisabled(i) then i else Previous(i)
  }

  /** The index after a click on Next: a disabled button delivers no click. */
  function ClickNext(i: int, count: nat): (r: int)
    ensures 0 <= i < count ==> i <= r < count
    ensures i < count - 1 ==> r == i + 1
    ensures i == count - 1 ==> r == i
  {
    if NextDisabled(i, count) then i else Next(i, count)
  }

  /** The index after the audio of step `i` ends: one more unless `i` is the last step (lines 141-142). */
  function AdvanceOnEnd(i: int, count: nat): (r: int)
    ensures i <= r <= i + 1
    ensures r == i + 1 <==> i < count - 1
  {
    if i < count - 1 then i + 1 else i
  }

  /** The disabled checks change nothing: a click on a disabled button would leave the index as it is anyway. */
  lemma DisabledChecksAgreeWithClamps(i: int, count: nat)
    ensures ClickPrevious(i) == Previous(i)
    ensures ClickNext(i, count) == Next(i, count)
  {
  }

  /** Next undoes Previous away from the first step, and Previous undoes Next away from the last. */
  lemma PreviousNextInverse(i: int, count: nat)
    requires 0 <= i < count
    ensures i > 0 ==> Next(Previous(i), count) == i
    ensures i < count - 1 ==> Previous(Next(i, count)) == i
  {
  }

  /** The events that move `currentStep` while a solution is shown. */
  datatype NavEvent = PreviousClicked | NextClicked | AudioEnded

  /** The index after one event over `count` steps. */
  function Apply(i: int, count: nat, e: NavEvent): int
  {
    match e
    case PreviousClicked => ClickPrevious(i)
    case NextClicked => ClickNext(i, count)
    case AudioEnded => AdvanceOnEnd(i, count)
  }

  /** The index after a run of events, in order. */
  function Run(i: int, count: nat, events: seq<NavEvent>): int
    decreases |events|
  {
    if events == [] then i else Run(Apply(i, count, events[0]), count, events[1..])
  }

  /** Once in range, no sequence of Previous, Next and audio-end events takes the index out of [0, count - 1]. */
  lemma {:induction false} RunStaysInRange(i: int, count: nat, events: seq<NavEvent>)
    requires 0 <= i < count
    ensures 0 <= Run(i, count, events) < count
    decreases |events|
  {
    if events != [] {
      var j := Apply(i, count, events[0]);
      assert 0 <= j < count;
      RunStaysInRange(j, count, events[1..]);
    }
  }

  /** With no steps the range is empty: Next is not disabled on the first index and moves it to -1. */
  lemma NextWithoutSteps()
    ensures !NextDisabled(0, 0) && Run(0, 0, [NextClicked]) == -1
  {
    assert [NextClicked][1..] == [];
  }

  /** Audio ending `n` times in a row walks the narration forward and stops on the last step. */
  lemma {:induction false} AudioEndsReachLastStep(i: int, count: nat, n: nat)
    requires 0 <= i < count
    ensures Run(i, count, Repeat(AudioEnded, n)) == Min(i + n, count - 1)
    decreases n
  {
    if n > 0 {
      var events := Repeat(AudioEnded, n);
      assert events[0] == AudioEnded && events[1..] == Repeat(AudioEnded, n - 1);
      AudioEndsReachLastStep(AdvanceOnEnd(i, count), count, n - 1);
    }
  }
}
