/**
 * `extract_text_from_image`: interpreting the answer of the Cloud Vision
 * text-detection call. The call itself is a foreign service; only what it
 * hands back is modelled.
 */
module TextDetection {
  import opened Wrappers

  /**
   * The parts of a text-detection response the code reads: `error.message`
   * (empty when the service reports no error) and the `description` of each
   * entry of `text_annotations`, the first one being the full recognised text.
   */
  datatype AnnotateResponse = AnnotateResponse(errorMessage: string, textAnnotations: seq<string>)

  /**
   * What building the request and calling the service produced: a response,
   * or an exception raised on the way (transport fault, rejected request),
   * given by its `str()`.
   */
  datatype DetectionCall = Responded(response: AnnotateResponse) | Raised(message: string)

  const ApiErrorPrefix: string := "API Error: "
  const ExtractErrorPrefix: string := "Error extracting text from image: "

  /**
   * The recognised text, or the message of the `RuntimeError` the function
   * raises. A service error and an exception on the way are both wrapped in
   * that one `RuntimeError`; an empty detection is not an error.
   */
  function ExtractText(call: DetectionCall): (r: Result<string, string>)
    ensures r.Failure? <==> call.Raised? || call.response.errorMessage != ""
    ensures r.Failure? ==> ExtractErrorPrefix <= r.error
    ensures call.Raised? ==> r.error == ExtractErrorPrefix + call.message
    ensures call.Responded? && call.response.errorMessage != "" ==>
      r.error == ExtractErrorPrefix + ApiErrorPrefix + call.response.errorMessage
    ensures r.Success? && call.response.textAnnotations == [] ==> r.value == ""
    ensures r.Success? && call.response.textAnnotations != [] ==> r.value == call.response.textAnnotations[0]
  {
    match call
    case Raised(message) => Failure(ExtractErrorPrefix + message)
    case Responded(response) =>
      if response.errorMessage != "" then
        Failure(ExtractErrorPrefix + ApiErrorPrefix + response.errorMessage)
      else if response.textAnnotations != [] then
        Success(response.textAnnotations[0])
      else
        Success("")
  }
}
