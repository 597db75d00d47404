/**
 * The two remote reads. The HTTP round trip and `json.Unmarshal` are not part
 * of this model: their outcome arrives as an `Outcome` value. `json.Indent` is
 * the function parameter `pretty`, which yields nothing for text that is not JSON.
 */
module Client {
  import opened Wrappers
  import opened Cleanup

  /** Why a read failed: the request, reading its body, decoding the children, or pretty-printing the leaf. */
  datatype FetchError = RequestFailed | ReadFailed | UnmarshalFailed | IndentFailed

  datatype Outcome<+T> = Ok(value: T) | Err(error: FetchError)

  /**
   * `fetchData` after the body has arrived: the body is cleaned and then
   * pretty-printed. A cleaned text that does not pretty-print is an error; the
   * cleaned text itself is never returned.
   */
  function FetchData(body: Outcome<string>, pretty: string -> Option<string>): (r: Outcome<string>)
    ensures r.Ok? <==> body.Ok? && pretty(CleanJson(body.value)).Some?
    ensures r.Ok? ==> Some(r.value) == pretty(CleanJson(body.value))
    ensures body.Err? ==> r == Err(body.error)
    ensures body.Ok? && r.Err? ==> r.error == IndentFailed
  {
    match body
    case Err(e) => Err(e)
    case Ok(raw) =>
      match pretty(CleanJson(raw))
      case Some(text) => Ok(text)
      case None => Err(IndentFailed)
  }
}
