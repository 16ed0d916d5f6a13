/** The backend's two request handlers: `postInference` validates the body,
    normalises the endpoint name, extracts MIME type and payload from the
    data URL, calls the inference endpoint and shapes one response record;
    `postEndpoints` validates the region and lists the endpoints in service.
    The cloud calls and the JSON parse are parameters: each returns a value
    or an error message, as the SDK promise resolves or rejects. */
module SagemakerController {
  import opened Wrappers
  import Text
  import Codec

  /** The JSON body of `POST /inference`; a field may be absent. */
  datatype InferenceBody = InferenceBody(endpoint: Option<string>, region: Option<string>, imageBase64: Option<string>)

  /** The JSON body of `POST /endpoints`. */
  datatype EndpointsBody = EndpointsBody(region: Option<string>)

  const NoImageMessage: string := "No Image data was provided in inference call."
  const NoEndpointMessage: string := "No Sagemaker Inference Endpoint was provided."
  const NoRegionMessage: string := "No AWS Region was provided."

  /** `!(v === undefined || v.length < 1)` */
  predicate Provided(v: Option<string>) {
    v.Some? && |v.value| >= 1
  }

  /** The inputs once validated, with the endpoint name already rewritten. */
  datatype ValidInference = ValidInference(endpoint: string, region: string, imageBase64: string)

  /** The checks of `postInference`, fail-fast in source order: image, then
      endpoint (whose spaces are removed as soon as it passes), then region. */
  function ValidateInference(body: InferenceBody): (r: Result<ValidInference, string>)
    ensures r == Err(NoImageMessage) <==> !Provided(body.imageBase64)
    ensures r == Err(NoEndpointMessage) <==> Provided(body.imageBase64) && !Provided(body.endpoint)
    ensures r == Err(NoRegionMessage) <==> Provided(body.imageBase64) && Provided(body.endpoint) && !Provided(body.region)
    ensures r.Ok? <==> Provided(body.imageBase64) && Provided(body.endpoint) && Provided(body.region)
    ensures r.Ok? ==> r.value.endpoint == Text.StripSpaces(body.endpoint.value)
    ensures r.Ok? ==> r.value.region == body.region.value && r.value.imageBase64 == body.imageBase64.value
  {
    if !Provided(body.imageBase64) then Err(NoImageMessage)
    else if !Provided(body.endpoint) then Err(NoEndpointMessage)
    else
      var endpoint := Text.StripSpaces(body.endpoint.value);
      if !Provided(body.region) then Err(NoRegionMessage)
      else Ok(ValidInference(endpoint, body.region.value, body.imageBase64.value))
  }

  const RuntimeApiVersion: string := "2017-05-13"
  const AcceptJson: string := "application/json"

  /** What reaches `invokeEndpoint`: the client's region and the call's
      parameters. `imageData` is the base64 text that the handler writes to
      `/tmp/image` and reads back as the `Body` bytes. */
  datatype InvokeRequest = InvokeRequest(
    apiVersion: string, region: string,
    endpointName: string, accept: string, contentType: string, imageData: string)

  /** Everything `postInference` does before the inference call. */
  function BuildInvokeRequest(body: InferenceBody): (r: Result<InvokeRequest, string>)
    ensures ValidateInference(body).Err? ==> r == Err(ValidateInference(body).error)
    ensures ValidateInference(body).Ok? && Codec.MimeType(body.imageBase64.value).Err? ==> r == Err(Codec.NullIndexMessage)
    ensures r.Ok? <==> ValidateInference(body).Ok? && Codec.MimeType(body.imageBase64.value).Ok?
    ensures r.Ok? ==> && r.value.endpointName == Text.StripSpaces(body.endpoint.value)
                      && ' ' !in r.value.endpointName
                      && r.value.region == body.region.value
                      && r.value.apiVersion == RuntimeApiVersion && r.value.accept == AcceptJson
                      && r.value.contentType == Codec.MimeType(body.imageBase64.value).value
                      && r.value.imageData == Codec.SplitPop(body.imageBase64.value, Codec.Base64Marker)
  {
    match ValidateInference(body)
    case Err(e) => Err(e)
    case Ok(v) =>
      match Codec.MimeType(v.imageBase64)
      case Err(e) => Err(e)
      case Ok(mimeType) =>
        var imageData := Codec.SplitPop(v.imageBase64, Codec.Base64Marker);
        Ok(InvokeRequest(RuntimeApiVersion, v.region, v.endpoint, AcceptJson, mimeType, imageData))
  }

  /** A well-formed request: the endpoint's spaces removed, MIME type and
      base64 payload taken from the data URL. */
  lemma BuildInvokeRequestOfDataUrl(endpoint: string, region: string, t: string, st: string, payload: string)
    requires |endpoint| >= 1 && |region| >= 1
    requires |t| >= 2 && forall i :: 0 <= i < |t| ==> Codec.IsWordChar(t[i])
    requires |st| >= 1 && forall i :: 0 <= i < |st| ==> Codec.IsSubtypeChar(st[i])
    requires ';' !in payload
    ensures var image := Codec.DataUrl(t + "/" + st, payload);
      BuildInvokeRequest(InferenceBody(Some(endpoint), Some(region), Some(image)))
        == Ok(InvokeRequest(RuntimeApiVersion, region, Text.StripSpaces(endpoint), AcceptJson, t + "/" + st, payload))
  {
    var image := Codec.DataUrl(t + "/" + st, payload);
    var body := InferenceBody(Some(endpoint), Some(region), Some(image));
    assert Codec.MimeType(image) == Ok(t + "/" + st) by {
      Codec.MimeTypeOfDataUrl(t, st, payload);
    }
    assert Codec.SplitPop(image, Codec.Base64Marker) == payload by {
      assert image == ("data:" + (t + "/" + st)) + Codec.Base64Marker + payload;
      Codec.PayloadOfDataUrl("data:" + (t + "/" + st), payload);
    }
    assert Provided(body.imageBase64) by {
      assert |image| >= |Codec.Base64Marker|;
    }
    assert ValidateInference(body).Ok?;
  }

  /** The record passed to `res.json`: `status`, `statusCode`, the success
      field (`predictions` or `result`) and `error_message`. */
  datatype Response<T> = Response(status: string, statusCode: int, payload: Option<T>, errorMessage: Option<string>)

  /** The `try` block's outcome shaped into the response: on success status,
      code 200 and the payload; on a thrown error status, code 500 and its
      message. There is exactly one response per outcome. */
  function Respond<T>(outcome: Result<T, string>): (r: Response<T>)
    ensures r.status == "success" <==> outcome.Ok?
    ensures outcome.Ok? ==> r.statusCode == 200 && r.payload == Some(outcome.value) && r.errorMessage == None
    ensures outcome.Err? ==> r.status == "error" && r.statusCode == 500 && r.payload == None
                             && r.errorMessage == Some(outcome.error)
  {
    match outcome
    case Ok(v) => Response("success", 200, Some(v), None)
    case Err(e) => Response("error", 500, None, Some(e))
  }

  /** `postInference`. `invoke` stands for `invokeEndpoint(params).promise()`
      together with the temp-file round trip; `parse` for
      `JSON.parse(result).prediction`. */
  function PostInference<T>(
    body: InferenceBody,
    invoke: InvokeRequest -> Result<seq<Codec.byte>, string>,
    parse: string -> Result<T, string>): (r: Response<T>)
    ensures r.statusCode == 200 || r.statusCode == 500
    ensures BuildInvokeRequest(body).Err? ==> r == Respond(Err(BuildInvokeRequest(body).error))
    ensures BuildInvokeRequest(body).Ok? && invoke(BuildInvokeRequest(body).value).Err? ==>
      r == Respond(Err(invoke(BuildInvokeRequest(body).value).error))
    ensures BuildInvokeRequest(body).Ok? && invoke(BuildInvokeRequest(body).value).Ok? ==>
      r == Respond(parse(Codec.BytesToString(invoke(BuildInvokeRequest(body).value).value)))
    ensures r.statusCode == 200 <==>
      && BuildInvokeRequest(body).Ok?
      && invoke(BuildInvokeRequest(body).value).Ok?
      && parse(Codec.BytesToString(invoke(BuildInvokeRequest(body).value).value)).Ok?
    ensures r.statusCode == 200 ==>
      r.payload == Some(parse(Codec.BytesToString(invoke(BuildInvokeRequest(body).value).value)).value)
  {
    var outcome :=
      match BuildInvokeRequest(body)
      case Err(e) => Err(e)
      case Ok(params) =>
        match invoke(params)
        case Err(e) => Err(e)
        case Ok(bytes) => parse(Codec.BytesToString(bytes));
    Respond(outcome)
  }

  /** Every failing check is reported without consulting the endpoint: the
      response does not depend on the inference call or the parser. */
  lemma ValidationPrecedesInvocation<T>(
    body: InferenceBody,
    invoke1: InvokeRequest -> Result<seq<Codec.byte>, string>, parse1: string -> Result<T, string>,
    invoke2: InvokeRequest -> Result<seq<Codec.byte>, string>, parse2: string -> Result<T, string>)
    requires !Provided(body.imageBase64) || !Provided(body.endpoint) || !Provided(body.region)
    ensures PostInference(body, invoke1, parse1) == PostInference(body, invoke2, parse2)
    ensures PostInference(body, invoke1, parse1).errorMessage == Some(
      if !Provided(body.imageBase64) then NoImageMessage
      else if !Provided(body.endpoint) then NoEndpointMessage
      else NoRegionMessage)
  {
  }

  const ControlApiVersion: string := "2017-07-24"

  /** What reaches `listEndpoints`: the client's region and the fixed query. */
  datatype ListEndpointsRequest = ListEndpointsRequest(
    apiVersion: string, region: string, sortBy: string, sortOrder: string, statusEquals: string)

  /** `postEndpoints`. `list` stands for `listEndpoints(params).promise()`
      followed by `.Endpoints`. */
  function PostEndpoints<T>(body: EndpointsBody, list: ListEndpointsRequest -> Result<T, string>): (r: Response<T>)
    ensures !Provided(body.region) ==> r == Respond(Err(NoRegionMessage))
    ensures Provided(body.region) ==>
      exists q :: (&& r == Respond(list(q))
                   && q.region == body.region.value && q.apiVersion == ControlApiVersion
                   && q.sortBy == "Name" && q.sortOrder == "Descending" && q.statusEquals == "InService")
  {
    if !Provided(body.region) then Respond(Err(NoRegionMessage))
    else
      var q := ListEndpointsRequest(ControlApiVersion, body.region.value, "Name", "Descending", "InService");
      Respond(list(q))
  }
}
