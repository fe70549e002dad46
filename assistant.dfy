/**
 * The state of the visual learning assistant view and its event handlers
 * (VisualLearningAssistant.jsx). Every `useState` field the handlers update
 * is a field of the class; each handler is a method that says what it
 * changes. Camera and microphone devices, the HTTP request, the audio element
 * and the timers are outside the model: their results arrive as parameters
 * (a permission granted, a chunk recorded, an outcome of the request) and
 * their events as method calls.
 */
module Assistant {
  import opened Basics
  import StepText
  import StepNavigation
  import opened Submission

  class VisualLearningAssistant {
    var isRecording: bool
    /** `mediaRecorderRef.current` is set; it is never cleared once set. */
    var hasRecorder: bool
    var capturedImage: Option<string>
    var context: string
    var solution: Option<Solution>
    var isLoading: bool
    var currentStep: int
    var isPlaying: bool
    var audioChunks: seq<Chunk>

    /**
     * What every handler keeps: a recording always has a recorder, and the
     * step index never drops below -1 (the value Next produces on an empty
     * list of steps).
     */
    ghost predicate Valid()
      reads this
    {
      (isRecording ==> hasRecorder) && currentStep >= -1
    }

    /** The number of steps on screen; none while there is no solution. */
    function StepCount(): nat
      reads this
    {
      match solution
      case Some(s) => |s.steps|
      case None => 0
    }

    /** The step index points at a step whenever there are steps to point at. */
    predicate StepInRange()
      reads this
    {
      StepCount() > 0 ==> 0 <= currentStep < StepCount()
    }

    /**
     * `solution?.audioUrls?.[currentStep]` is truthy (line 123): there is a
     * solution and a non-empty audio name at the current index.
     */
    predicate HasAudioForCurrentStep()
      reads this
      ensures HasAudioForCurrentStep() ==> solution.Some? && 0 <= currentStep < |solution.value.audioUrls|
      ensures HasAudioForCurrentStep() ==> solution.value.audioUrls[currentStep] != ""
      ensures solution == None || currentStep < 0 ==> !HasAudioForCurrentStep()
    {
      solution.Some? && 0 <= currentStep < |solution.value.audioUrls| &&
      solution.value.audioUrls[currentStep] != ""
    }

    /** The initial state (lines 6-18). */
    constructor ()
      ensures Valid()
      ensures !isRecording && !hasRecorder && capturedImage == None && context == ""
      ensures solution == None && !isLoading && currentStep == 0 && !isPlaying && audioChunks == []
    {
      isRecording, hasRecorder := false, false;
      capturedImage, context := None, "";
      solution, isLoading := None, false;
      currentStep, isPlaying := 0, false;
      audioChunks := [];
    }

    /**
     * `startRecording` (lines 57-70): when the microphone is granted, a new
     * recorder is installed and recording starts; otherwise nothing changes.
     */
    method StartRecording(granted: bool)
      requires Valid()
      modifies this`isRecording, this`hasRecorder
      ensures Valid()
      ensures granted ==> isRecording && hasRecorder
      ensures !granted ==> isRecording == old(isRecording) && hasRecorder == old(hasRecorder)
    {
      if granted {
        hasRecorder := true;
        isRecording := true;
      }
    }

    /** A data-available event of the recorder (line 63): the chunk goes at the end. */
    method DataAvailable(chunk: Chunk)
      requires Valid()
      modifies this`audioChunks
      ensures Valid()
      ensures audioChunks == old(audioChunks) + [chunk]
      ensures Concat(audioChunks) == Concat(old(audioChunks)) + chunk
    {
      audioChunks := audioChunks + [chunk];
      ConcatAppend(old(audioChunks), chunk);
    }

    /**
     * `stopRecording` (lines 72-78): nothing happens without a recorder;
     * with one, recording is off afterwards. The check is on the recorder,
     * not on `isRecording`.
     */
    method StopRecording()
      requires Valid()
      modifies this`isRecording
      ensures Valid()
      ensures hasRecorder ==> !isRecording
      ensures !hasRecorder ==> isRecording == old(isRecording)
      ensures !isRecording
    {
      if hasRecorder {
        isRecording := false;
      }
    }

    /** The photo taken by `captureImage` (line 39); the camera frame is an input. */
    method CaptureImage(dataUrl: string)
      requires Valid()
      modifies this`capturedImage
      ensures Valid()
      ensures capturedImage == Some(dataUrl)
    {
      capturedImage := Some(dataUrl);
    }

    /** Retake Photo (line 191): the captured image is dropped. */
    method RetakePhoto()
      requires Valid()
      modifies this`capturedImage
      ensures Valid()
      ensures capturedImage == None
    {
      capturedImage := None;
    }

    /** Typing in the context box (line 232). */
    method EditContext(text: string)
      requires Valid()
      modifies this`context
      ensures Valid()
      ensures context == text
    {
      context := text;
    }

    /**
     * The part of `submitDoubt` before the request goes out (lines 81-97):
     * a running recording is stopped, the view starts loading at step 0, and
     * the form fields are built from the image, chunks and context.
     */
    method BeginSubmit() returns (fields: seq<FormField>)
      requires Valid()
      modifies this`isRecording, this`isLoading, this`currentStep
      ensures Valid()
      ensures !isRecording && isLoading && currentStep == 0
      ensures fields == FormFields(capturedImage, audioChunks, context)
      ensures StepInRange()
    {
      if isRecording {
        StopRecording();
      }
      isLoading := true;
      currentStep := 0;
      fields := FormFields(capturedImage, audioChunks, context);
    }

    /**
     * The part of `submitDoubt` after the request (lines 99-119): the
     * solution is replaced only by a successful answer, and in every case
     * loading ends and the recorded chunks are dropped.
     */
    method FinishSubmit(outcome: Outcome)
      requires Valid()
      modifies this`solution, this`isLoading, this`audioChunks
      ensures Valid()
      ensures solution == SolutionAfter(old(solution), outcome)
      ensures outcome.Failed? ==> solution == old(solution)
      ensures outcome.Answered? ==> solution == Some(Solution(StepText.Steps(outcome.textSolution), outcome.voiceSolutionSteps))
      ensures !isLoading && audioChunks == []
    {
      solution := SolutionAfter(solution, outcome);
      isLoading := false;
      audioChunks := [];
    }

    /**
     * `submitDoubt` as a whole, with nothing else happening while the request
     * is out: afterwards recording is off, nothing is loading, the chunks are
     * gone, the first step is current, and the solution is the answer's
     * exactly when the request succeeded.
     */
    method SubmitDoubt(outcome: Outcome) returns (fields: seq<FormField>)
      requires Valid()
      modifies this`isRecording, this`isLoading, this`currentStep, this`solution, this`audioChunks
      ensures Valid()
      ensures fields == FormFields(old(capturedImage), old(audioChunks), old(context))
      ensures !isRecording && !isLoading && audioChunks == [] && currentStep == 0
      ensures solution == SolutionAfter(old(solution), outcome)
      ensures StepInRange()
    {
      fields := BeginSubmit();
      FinishSubmit(outcome);
    }

    /**
     * `playCurrentStep` (lines 122-130): without an audio name for the current
     * step nothing changes; with one, the view is playing.
     */
    method PlayCurrentStep()
      requires Valid()
      modifies this`isPlaying
      ensures Valid()
      ensures HasAudioForCurrentStep() ==> isPlaying
      ensures !HasAudioForCurrentStep() ==> isPlaying == old(isPlaying)
    {
      if !HasAudioForCurrentStep() {
        return;
      }
      isPlaying := true;
    }

    /**
     * `pauseAudio` (lines 132-137): the audio element exists only while a
     * solution is shown; then playing stops.
     */
    method PauseAudio()
      requires Valid()
      modifies this`isPlaying
      ensures Valid()
      ensures solution.Some? ==> !isPlaying
      ensures solution.None? ==> isPlaying == old(isPlaying)
    {
      if solution.Some? {
        isPlaying := false;
      }
    }

    /**
     * `handleAudioEnd` (lines 139-145), fired by the audio element, which is
     * only on screen with a solution: playing stops, and the index moves on
     * by one unless it is on the last step.
     */
    method HandleAudioEnd()
      requires Valid() && solution.Some?
      modifies this`isPlaying, this`currentStep
      ensures Valid() && !isPlaying
      ensures currentStep == StepNavigation.AdvanceOnEnd(old(currentStep), StepCount())
      ensures old(currentStep) < StepCount() - 1 ==> currentStep == old(currentStep) + 1
      ensures old(currentStep) >= StepCount() - 1 ==> currentStep == old(currentStep)
      ensures old(StepInRange()) ==> StepInRange()
    {
      isPlaying := false;
      if currentStep < |solution.value.steps| - 1 {
        currentStep := currentStep + 1;
      }
    }

    /** The Previous button (lines 253-255), rendered only with a solution. */
    method ClickPrevious()
      requires Valid() && solution.Some?
      modifies this`currentStep
      ensures Valid()
      ensures currentStep == StepNavigation.Previous(old(currentStep))
      ensures currentStep >= 0
      ensures old(StepInRange()) ==> StepInRange()
    {
      if !StepNavigation.PreviousDisabled(currentStep) {
        currentStep := StepNavigation.Max(0, currentStep - 1);
      }
    }

    /**
     * The Next button (lines 260-262), rendered only with a solution. On an
     * empty list of steps it is not disabled and moves the index to -1.
     */
    method ClickNext()
      requires Valid() && solution.Some?
      modifies this`currentStep
      ensures Valid()
      ensures currentStep == StepNavigation.Next(old(currentStep), StepCount())
      ensures currentStep <= StepCount() - 1
      ensures StepCount() == 0 ==> currentStep == -1
      ensures old(StepInRange()) ==> StepInRange()
    {
      if !StepNavigation.NextDisabled(currentStep, |solution.value.steps|) {
        currentStep := StepNavigation.Min(|solution.value.steps| - 1, currentStep + 1);
      }
    }
  }

  /**
   * An example: an image and a question with no audio, answered with two
   * blank-line separated steps, shows two steps and plays the first one's
   * audio.
   */
  method TwoStepExample()
  {
    var view := new VisualLearningAssistant();
    view.CaptureImage("dataURL1");
    view.EditContext("What is x?");
    var one: string, two: string := "Step one", "Step two";
    var urls := ["a.mp3", "b.mp3"];
    StepText.TwoLineSteps(one, two);
    var answer := Answered(one + StepText.Sep + two, urls);
    var fields := view.SubmitDoubt(answer);
    assert |fields| == 2;
    assert view.solution == Some(Solution([one, two], urls));
    view.PlayCurrentStep();
    assert view.isPlaying;
  }

  /**
   * The stale index: `currentStep` is reset when a request starts, not when
   * its answer arrives. A Next click while a second request is out moves the
   * index over the old solution's steps; the new answer has a single step,
   * and the index is left past it.
   */
  method StaleIndexExample()
  {
    var view := new VisualLearningAssistant();
    var one: string, two: string := "Step one", "Step two";
    StepText.TwoLineSteps(one, two);
    var fields := view.SubmitDoubt(Answered(one + StepText.Sep + two, []));
    assert view.StepCount() == 2;
    fields := view.BeginSubmit();
    view.ClickNext();
    assert view.currentStep == 1;
    var only: string := "only";
    StepText.OneLineStep(only);
    view.FinishSubmit(Answered(only, []));
    assert view.StepCount() == 1 && view.currentStep == 1;
    assert !view.StepInRange();
  }
}
