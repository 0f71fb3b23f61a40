/** The values exchanged by the SAORI engine: the two request kinds, the
    three response kinds, a parsed request and a handler's response. */
module SaoriTypes {

  datatype RequestType = GetVersion | Execute

  datatype ResponseType = Ok | BadRequest | InternalServerError

  /** A decoded request. `args` is indexed by the number in `Argument<N>`;
      the three headers are empty when the request did not carry them. */
  datatype SaoriRequest = SaoriRequest(
    requestType: RequestType,
    args: seq<string>,
    securityLevel: string,
    sender: string,
    charset: string)

  /** What a handler answers: a status kind, the auxiliary `Value<i>`
      outputs and the primary `Result`. */
  datatype SaoriResponse = SaoriResponse(
    responseType: ResponseType,
    values: seq<string>,
    result: string)

  /** `Result<T, &str>` of the parser. */
  datatype Result<T> = Success(value: T) | Failure(error: string)
}
