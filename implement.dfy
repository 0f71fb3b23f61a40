/** `implement::request`: the bundled placeholder handler, which echoes the
    first argument. */
module Implement {
  import opened SaoriTypes

  /** With at least one argument: `Ok`, the first argument as the result
      and the two fixed values `test1` and `test2`. Without arguments:
      `BadRequest` with an empty result and no values. The handler never
      answers `InternalServerError`. */
  function Request(request: SaoriRequest): (response: SaoriResponse)
    ensures response.responseType == Ok <==> |request.args| >= 1
    ensures response.responseType != InternalServerError
    ensures |request.args| >= 1 ==> response.result == request.args[0] && response.values == ["test1", "test2"]
    ensures |request.args| == 0 ==> response.result == "" && response.values == []
  {
    if |request.args| >= 1 then
      SaoriResponse(Ok, ["test1", "test2"], request.args[0])
    else
      SaoriResponse(BadRequest, [], "")
  }
}
