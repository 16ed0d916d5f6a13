/** The web page's state and its inference round trip: the number of class
    inputs shown, the class names read back from them, the last predictions,
    the checks made before posting, and the check of the backend's reply. */
module Client {
  import opened Wrappers
  import Text
  import Canvas
  import Overlay
  import SagemakerController

  // The class-input counter. It starts at 0, the add button refuses to go
  // past 9, and the remove button refuses only once it is below 0, so it
  // can go down to -1.

  const MaxClassCount: int := 9

  predicate CounterInRange(classCnt: int) {
    -1 <= classCnt <= MaxClassCount
  }

  /** `addClassInput`: refused once the counter has reached 9. */
  function AfterAdd(classCnt: int): (r: int)
    ensures classCnt >= MaxClassCount ==> r == classCnt
    ensures classCnt < MaxClassCount ==> r == classCnt + 1
  {
    if classCnt >= MaxClassCount then classCnt else classCnt + 1
  }

  /** `removeClassInput`: refused only when the counter is already
      negative; removing the row always succeeds otherwise. */
  function AfterRemove(classCnt: int): (r: int)
    ensures classCnt < 0 ==> r == classCnt
    ensures classCnt >= 0 ==> r == classCnt - 1
  {
    if classCnt < 0 then classCnt else classCnt - 1
  }

  datatype ClassEvent = Add | Remove

  /** The counter after a sequence of button clicks. */
  function Run(classCnt: int, events: seq<ClassEvent>): (r: int)
    decreases |events|
  {
    if events == [] then classCnt
    else
      var next := if events[0] == Add then AfterAdd(classCnt) else AfterRemove(classCnt);
      Run(next, events[1..])
  }

  /** No sequence of clicks takes the counter out of [-1, 9]. */
  lemma {:induction false} RunStaysInRange(classCnt: int, events: seq<ClassEvent>)
    requires CounterInRange(classCnt)
    ensures CounterInRange(Run(classCnt, events))
    decreases |events|
  {
    if events != [] {
      var next := if events[0] == Add then AfterAdd(classCnt) else AfterRemove(classCnt);
      RunStaysInRange(next, events[1..]);
    }
  }

  /** k successive clicks on the add button. */
  function Adds(k: nat): (r: seq<ClassEvent>)
    ensures |r| == k && forall i :: 0 <= i < k ==> r[i] == Add
  {
    if k == 0 then [] else [Add] + Adds(k - 1)
  }

  lemma {:induction false} RunAdds(classCnt: int, k: nat)
    requires classCnt + k <= MaxClassCount
    ensures Run(classCnt, Adds(k)) == classCnt + k
    decreases k
  {
    if k > 0 {
      assert Adds(k)[1..] == Adds(k - 1);
      RunAdds(classCnt + 1, k - 1);
    }
  }

  /** Every value of [-1, 9] is reached from the initial counter. */
  lemma EveryCountReachable(target: int)
    requires CounterInRange(target)
    ensures exists events :: Run(0, events) == target
  {
    if target >= 0 {
      RunAdds(0, target);
    } else {
      assert Run(0, [Remove]) == -1;
    }
  }

  /** The class names read back before posting: one per input
      `inference-class-0` .. `inference-class-<classCnt>`, `undefined`
      (None) where the page has no such input. */
  function ClassMapOf(field: int -> Option<string>, classCnt: int): (m: seq<Option<string>>)
    ensures |m| == if classCnt < 0 then 0 else classCnt + 1
    ensures forall i :: 0 <= i < |m| ==> m[i] == field(i)
  {
    if classCnt < 0 then [] else seq(classCnt + 1, i => field(i))
  }

  // Checks in the browser.

  const NoImageSelectedMessage: string := "No image has been selected."
  const NoEndpointEnteredMessage: string := "No Sagemaker Inference Endpoint has been entered."
  const UnknownErrorMessage: string := "An unknown error occured"

  /** `validateUserInputs`: an image file is selected and the endpoint
      field holds some text. */
  function ValidateUserInputs(fileSelected: bool, endpointValue: Option<string>): (r: Result<(), string>)
    ensures r == Err(NoImageSelectedMessage) <==> !fileSelected
    ensures r == Err(NoEndpointEnteredMessage) <==> fileSelected && !SagemakerController.Provided(endpointValue)
    ensures r.Ok? <==> fileSelected && SagemakerController.Provided(endpointValue)
  {
    if !fileSelected then Err(NoImageSelectedMessage)
    else if !SagemakerController.Provided(endpointValue) then Err(NoEndpointEnteredMessage)
    else Ok(())
  }

  /** The body posted to the inference route. */
  function InferenceRequest(endpointValue: string, region: string, image: string): (r: SagemakerController.InferenceBody) {
    SagemakerController.InferenceBody(Some(Text.StripSpaces(endpointValue)), Some(region), Some(image))
  }

  /** The page strips the spaces before posting and the backend strips
      them again, with no further effect; an endpoint made only of spaces
      passes the page's check and is refused by the backend. */
  lemma RequestValidation(endpointValue: string, region: string, image: string)
    ensures var v := SagemakerController.ValidateInference(InferenceRequest(endpointValue, region, image));
      && (v.Ok? ==> v.value.endpoint == Text.StripSpaces(endpointValue))
      && (|image| >= 1 && Text.StripSpaces(endpointValue) == "" ==> v == Err(SagemakerController.NoEndpointMessage))
      && (|image| >= 1 && |region| >= 1 && Text.StripSpaces(endpointValue) != "" ==> v.Ok?)
  {
    Text.StripSpacesIdempotent(endpointValue);
  }

  /** The reply as the page reads it: `statusCode` may be missing, and so
      may `error_message`. */
  datatype ApiReply = ApiReply(statusCode: Option<int>, errorMessage: Option<string>, predictions: seq<Overlay.Prediction>)

  /** The check of the reply in `submitInference`: a missing or zero
      status is an unknown error, any other status but 200 reports the
      backend's message (empty when there is none). */
  function CheckReply(reply: ApiReply): (r: Result<seq<Overlay.Prediction>, string>)
    ensures r.Ok? <==> reply.statusCode == Some(200)
    ensures r.Ok? ==> r.value == reply.predictions
    ensures reply.statusCode.None? || reply.statusCode == Some(0) ==> r == Err(UnknownErrorMessage)
    ensures reply.statusCode.Some? && reply.statusCode.value != 0 && reply.statusCode.value != 200 ==>
      r == Err(reply.errorMessage.GetOr(""))
  {
    if reply.statusCode.None? || reply.statusCode.value == 0 then Err(UnknownErrorMessage)
    else if reply.statusCode.value != 200 then Err(reply.errorMessage.GetOr(""))
    else Ok(reply.predictions)
  }

  /** A response of the backend as delivered to the page. */
  function Received(response: SagemakerController.Response<seq<Overlay.Prediction>>): (r: ApiReply) {
    ApiReply(Some(response.statusCode), response.errorMessage, response.payload.GetOr([]))
  }

  /** The page recovers exactly the backend's outcome: the predictions on
      success, the error message on failure. */
  lemma {:induction false} ReplyRoundTrip(outcome: Result<seq<Overlay.Prediction>, string>)
    ensures CheckReply(Received(SagemakerController.Respond(outcome))) == outcome
  {
    var r := SagemakerController.Respond(outcome);
    if outcome.Ok? {
      assert r.statusCode == 200 && r.payload == Some(outcome.value);
    } else {
      assert r.statusCode == 500 && r.errorMessage == Some(outcome.error);
    }
  }

  /** The page's global state. */
  class Session {
    var predictions: seq<Overlay.Prediction>
    var classCnt: int
    var classMap: seq<Option<string>>

    ghost predicate Valid()
      reads this
    {
      CounterInRange(classCnt)
    }

    constructor ()
      ensures Valid()
      ensures predictions == [] && classCnt == 0 && classMap == []
    {
      predictions := [];
      classCnt := 0;
      classMap := [];
    }

    method AddClassInput()
      requires Valid()
      modifies this
      ensures Valid()
      ensures classCnt == AfterAdd(old(classCnt))
      ensures predictions == old(predictions) && classMap == old(classMap)
    {
      if classCnt >= MaxClassCount {
        return;
      }
      classCnt := classCnt + 1;
    }

    method RemoveClassInput()
      requires Valid()
      modifies this
      ensures Valid()
      ensures classCnt == AfterRemove(old(classCnt))
      ensures predictions == old(predictions) && classMap == old(classMap)
    {
      if classCnt < 0 {
        return;
      }
      classCnt := classCnt - 1;
    }

    /** The `onload` handler of `imageSelected`: a new image drops the
        predictions of the previous one. */
    method ImageSelected()
      requires Valid()
      modifies this
      ensures Valid()
      ensures predictions == [] && classCnt == old(classCnt) && classMap == old(classMap)
    {
      predictions := [];
    }

    /** `thresholdUpdate`: the overlay is redrawn at the new slider value
        only when there are predictions to draw. */
    method ThresholdUpdate(slider: int, width: real, height: real) returns (canvas: Option<Canvas.Context2D>)
      ensures canvas.Some? <==> |predictions| > 0
      ensures canvas.Some? ==>
        && fresh(canvas.value)
        && canvas.value.strokes == Overlay.StrokesAfter(predictions, Overlay.Threshold(slider), width, height, |predictions|)
        && canvas.value.texts == Overlay.TextsAfter(predictions, Overlay.Threshold(slider), width, height, classMap, |predictions|)
    {
      canvas := None;
      if |predictions| > 0 {
        var ctx := Overlay.ApplyPredictionsToImage(predictions, slider, width, height, classMap);
        canvas := Some(ctx);
      }
    }

    /** `submitInference`. The page's inputs, the class fields and the
        API call are parameters. The result is the HTML summary or the
        error message; on success the canvas holds the overlay. */
    method SubmitInference(
      fileSelected: bool, endpointValue: Option<string>, region: string, image: string,
      field: int -> Option<string>, post: SagemakerController.InferenceBody -> ApiReply,
      slider: int, width: real, height: real)
      returns (output: Result<string, string>, canvas: Option<Canvas.Context2D>)
      requires Valid()
      modifies this
      ensures Valid() && classCnt == old(classCnt)
      ensures ValidateUserInputs(fileSelected, endpointValue).Err? ==>
        && output == Err(ValidateUserInputs(fileSelected, endpointValue).error)
        && canvas == None && predictions == old(predictions) && classMap == old(classMap)
      ensures ValidateUserInputs(fileSelected, endpointValue).Ok? ==>
        var reply := CheckReply(post(InferenceRequest(endpointValue.value, region, image)));
        && classMap == ClassMapOf(field, old(classCnt))
        && (reply.Err? ==> output == Err(reply.error) && canvas == None && predictions == old(predictions))
        && (reply.Ok? ==>
              && predictions == reply.value
              && output == Ok(Overlay.Concat(Overlay.Entries(predictions, classMap)))
              && canvas.Some? && fresh(canvas.value)
              && canvas.value.strokes == Overlay.StrokesAfter(predictions, Overlay.Threshold(slider), width, height, |predictions|)
              && canvas.value.texts == Overlay.TextsAfter(predictions, Overlay.Threshold(slider), width, height, classMap, |predictions|))
    {
      canvas := None;
      var valid := ValidateUserInputs(fileSelected, endpointValue);
      if valid.Err? {
        output := Err(valid.error);
        return;
      }
      var epName := Text.StripSpaces(endpointValue.value);

      var m: seq<Option<string>> := [];
      var i := 0;
      while i <= classCnt
        invariant 0 <= i <= if classCnt < 0 then 0 else classCnt + 1
        invariant |m| == i && forall k :: 0 <= k < i ==> m[k] == field(k)
      {
        m := m + [field(i)];
        i := i + 1;
      }
      classMap := m;

      var reply := post(SagemakerController.InferenceBody(Some(epName), Some(region), Some(image)));
      var checked := CheckReply(reply);
      if checked.Err? {
        output := Err(checked.error);
        return;
      }
      predictions := checked.value;
      var html := Overlay.PredictionHtml(predictions, classMap);
      var ctx := Overlay.ApplyPredictionsToImage(predictions, slider, width, height, classMap);
      canvas := Some(ctx);
      output := Ok(html);
    }
  }
}
