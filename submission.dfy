/**
 * What `submitDoubt` sends and what it keeps from the answer
 * (VisualLearningAssistant.jsx, lines 63 and 89-115): the recorded audio
 * chunks, the multipart form fields, and the solution built from a
 * successful response. The request itself is an outcome given from outside.
 */
module Submission {
  import opened Basics
  import StepText

  /** One piece of recorded audio, as delivered by a data-available event. */
  type Chunk = seq<bv8>

  /** `new Blob(chunks)`: the bytes of the chunks, one after another. */
  function Concat(chunks: seq<Chunk>): (bytes: seq<bv8>)
    ensures chunks == [] ==> bytes == []
  {
    if chunks == [] then [] else chunks[0] + Concat(chunks[1..])
  }

  /** A chunk appended at the end of the list lands at the end of the blob. */
  lemma {:induction false} ConcatAppend(chunks: seq<Chunk>, c: Chunk)
    ensures Concat(chunks + [c]) == Concat(chunks) + c
  {
    if chunks != [] {
      assert (chunks + [c])[0] == chunks[0] && (chunks + [c])[1..] == chunks[1..] + [c];
      ConcatAppend(chunks[1..], c);
    } else {
      assert chunks + [c] == [c] && c + [] == c;
    }
  }

  /** The value of one form field: a string, or a binary blob. */
  datatype FieldValue = Text(text: string) | Blob(bytes: seq<bv8>)

  /** One `formData.append(name, value)`. */
  datatype FormField = FormField(name: string, value: FieldValue)

  /** `formData.append` turns a missing (null) image into the string "null". */
  function ImageText(image: Option<string>): (text: string)
    ensures image.Some? ==> text == image.value
    ensures image.None? ==> text == "null" && |text| == 4
  {
    match image
    case Some(dataUrl) => dataUrl
    case None => "null"
  }

  /**
   * The fields of the request (lines 89-97): `image` first, always; then
   * `audio`, the chunks joined into one blob, only when there are chunks;
   * then `text_context`, always.
   */
  function FormFields(image: Option<string>, chunks: seq<Chunk>, context: string): (fields: seq<FormField>)
    ensures |fields| == if chunks == [] then 2 else 3
    ensures fields[0] == FormField("image", Text(ImageText(image)))
    ensures fields[|fields| - 1] == FormField("text_context", Text(context))
    ensures (exists k :: 0 <= k < |fields| && fields[k].name == "audio") <==> chunks != []
    ensures forall k :: 0 <= k < |fields| && fields[k].name == "audio" ==> fields[k].value == Blob(Concat(chunks))
  {
    assert "image"[0] != "audio"[0] && "text_context"[0] != "audio"[0];
    var image := [FormField("image", Text(ImageText(image)))];
    var audio := if chunks == [] then [] else [FormField("audio", Blob(Concat(chunks)))];
    var fields := image + audio + [FormField("text_context", Text(context))];
    assert chunks != [] ==> fields[1].name == "audio";
    fields
  }

  /** The solution the view holds: its steps and one audio name per step. */
  datatype Solution = Solution(steps: seq<string>, audioUrls: seq<string>)

  /**
   * How the request ended. A response that parses carries `text_solution`
   * and `voice_solution_steps`; a network failure, a body that is not JSON or
   * a missing `text_solution` all end in the catch block alike.
   */
  datatype Outcome = Answered(textSolution: string, voiceSolutionSteps: seq<string>) | Failed

  /** The solution after the request: the answer's when it succeeded, the prior one otherwise (lines 108-115). */
  function SolutionAfter(prior: Option<Solution>, outcome: Outcome): (next: Option<Solution>)
    ensures outcome.Failed? ==> next == prior
    ensures outcome.Answered? ==> next.Some? && next.value.audioUrls == outcome.voiceSolutionSteps
    ensures outcome.Answered? ==> next.value.steps == StepText.Steps(outcome.textSolution)
    ensures outcome.Answered? ==> forall k :: 0 <= k < |next.value.steps| ==> !StepText.IsBlank(next.value.steps[k])
  {
    match outcome
    case Answered(text, urls) => Some(Solution(StepText.Steps(text), urls))
    case Failed => prior
  }
}
