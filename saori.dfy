/** `request`: the whole engine, from decoded request text to reply text.
    A request that does not parse gets a canned 400 reply without a
    `Result` line, a version probe gets a canned 200 reply, and an execute
    request goes through the handler and the serializer. */
module Saori {
  import opened Text
  import opened SaoriTypes
  import opened Patterns
  import opened Parser
  import opened Serializer
  import Implement

  const BadRequestReply: string := "SAORI/1.0 400 Bad Request\r\nCharset: Shift_JIS\r\n\r\n"
  const VersionReply: string := "SAORI/1.0 200 OK\r\nCharset: Shift_JIS\r\n\r\n"

  /** `request(input)` */
  function Request(input: string): string {
    match Parse(input)
    case Success(request) =>
      if request.requestType == GetVersion then VersionReply
      else ResponseText(Implement.Request(request))
    case Failure(_) => BadRequestReply
  }

  /** Every serialized response is longer than both canned replies, so the
      reply tells the three outcomes apart: the canned 400 reply comes
      exactly from a request that does not parse, the canned 200 reply
      exactly from a version probe, and anything else from the handler. */
  lemma RequestOutcome(input: string)
    ensures Request(input) == BadRequestReply <==> Parse(input).Failure?
    ensures Request(input) == VersionReply <==>
      Parse(input).Success? && Parse(input).value.requestType == GetVersion
    ensures Parse(input).Success? && Parse(input).value.requestType == Execute ==>
      Request(input) == ResponseText(Implement.Request(Parse(input).value))
  {
    match Parse(input)
    case Success(request) =>
      if request.requestType == Execute {
        ResponseFrame(Implement.Request(request));
      }
    case Failure(_) =>
  }

  /** Some line of an execute request is an `Argument<N>` line. */
  predicate AnyArgument(ms: seq<LineMatch>) {
    exists j :: 0 <= j < |ms| && ms[j].ArgumentLine?
  }

  /** The reply of the bundled handler when the request has arguments. */
  function EchoReply(result: string): string {
    "SAORI/1.0 200 OK\r\nCharset: Shift_JIS\r\nResult: " + result + "\r\nValue0: test1\r\nValue1: test2\r\n\r\n"
  }

  /** The reply of the bundled handler when the request has no argument. */
  const NoArgumentReply: string := "SAORI/1.0 400 Bad Request\r\nCharset: Shift_JIS\r\nResult: \r\n\r\n"

  /** The handler's `Ok` response serializes to the echo reply. */
  lemma EchoText(result: string)
    ensures ResponseText(SaoriResponse(Ok, ["test1", "test2"], result)) == EchoReply(result)
  {
    ResponseTextParts(SaoriResponse(Ok, ["test1", "test2"], result));
    EchoHead(result);
    EchoValues();
    EchoJoined(result);
  }

  /** The handler's `BadRequest` response serializes to a 400 reply with an
      empty `Result` line. */
  lemma NoArgumentText()
    ensures ResponseText(SaoriResponse(BadRequest, [], "")) == NoArgumentReply
  {
    var resp := SaoriResponse(BadRequest, [], "");
    ResponseTextParts(resp);
    HeadText(resp);
    BadRequestHead();
    var head := "SAORI/1.0 400 Bad Request\r\nCharset: Shift_JIS\r\nResult: ";
    SameHead(StatusPrefix + StatusText(BadRequest) + "\r\nCharset: Shift_JIS\r\nResult: ", head, "");
    assert ValueLines([]) == [];
    assert Terminated(ValueLines([])) == "";
    NoArgumentJoined(head);
  }

  /** An execute request, end to end, for the bundled handler: the reply is
      200 with the echoed first argument exactly when some `Argument<N>`
      line was recognised. The echoed text is the body of the last
      `Argument0` line, or empty when only higher slots were written;
      without any argument line the reply is a 400 that still carries an
      empty `Result` line. This covers every input whose first line starts
      with `EXECUTE SAORI`, one without any line break included. */
  lemma ExecuteReply(input: string)
    requires StartsWith(SplitLines(input)[0], ExecutePrefix)
    ensures var ms := ClassifyAll(SplitLines(input)[1..]);
      (!AnyArgument(ms) ==> Request(input) == NoArgumentReply) &&
      (forall j :: LastWriteAt(ms, j, 0) ==> Request(input) == EchoReply(ms[j].body)) &&
      (AnyArgument(ms) && !Written(ms, 0) ==> Request(input) == EchoReply(""))
  {
    var ms := ClassifyAll(SplitLines(input)[1..]);
    var a := CollectMatches(ms).args;
    ExecuteRequest(input);
    AnyArgumentIffArguments(ms);
    CollectArgumentSlot(ms, 0);
    if |a| > 0 {
      EchoText(a[0]);
    } else {
      NoArgumentText();
    }
  }

  /** An execute request is handled as the request built from the lines
      after its first one. */
  lemma ExecuteRequest(input: string)
    requires StartsWith(SplitLines(input)[0], ExecutePrefix)
    ensures Request(input) == ResponseText(Implement.Request(CollectExecute(SplitLines(input)[1..])))
  {
    var lines := SplitLines(input);
    var request := CollectExecute(lines[1..]);
    assert lines[0][0] == 'E';
    assert Parse(input) == Success(request);
    CollectHeader(ClassifyAll(lines[1..]), Charset);
    assert request.requestType == Execute;
  }

  /** Every response the handler gives to a parsed request has a result and
      values free of the separator, so `ResponseLayout` and
      `ResponseTextInjective` cover every reply the engine serializes. */
  lemma ParsedResponseNoSep(input: string)
    ensures Parse(input).Success? ==>
      var resp := Implement.Request(Parse(input).value);
      NoSep(resp.result) && forall i :: 0 <= i < |resp.values| ==> NoSep(resp.values[i])
  {
    var lines := SplitLines(input);
    if StartsWith(lines[0], ExecutePrefix) && !StartsWith(lines[0], GetVersionPrefix) {
      ExecuteArgumentsNoNewline(lines[1..]);
    }
    assert NoSep("test1") && NoSep("test2");
  }

  /** The argument vector is non-empty exactly when some argument line was
      recognised. */
  lemma AnyArgumentIffArguments(ms: seq<LineMatch>)
    ensures AnyArgument(ms) <==> |CollectMatches(ms).args| > 0
  {
    var a := CollectMatches(ms).args;
    CollectArgumentsLength(ms);
    if AnyArgument(ms) {
      var j :| 0 <= j < |ms| && ms[j].ArgumentLine?;
      assert Written(ms, ms[j].index);
    }
    if |a| > 0 {
      assert Written(ms, |a| - 1);
      var j :| 0 <= j < |ms| && Writes(ms[j], |a| - 1);
    }
  }

  // ---------------------------------------------------------------------
  // Proof steps for EchoText and NoArgumentText. Each evaluates one piece
  // of a canned reply text; keeping every comparison of string literals
  // in a lemma of its own keeps it small for the solver.

  /** The first three lines of a reply with status 200. */
  lemma OkHead()
    ensures StatusPrefix + StatusText(Ok) + "\r\nCharset: Shift_JIS\r\nResult: " ==
      "SAORI/1.0 200 OK\r\nCharset: Shift_JIS\r\nResult: "
  {
    OkStatusLine();
  }

  lemma OkStatusLine()
    ensures StatusPrefix + StatusText(Ok) == "SAORI/1.0 200 OK"
  {
  }

  /** The first three lines of a reply with status 400. */
  lemma BadRequestHead()
    ensures StatusPrefix + StatusText(BadRequest) + "\r\nCharset: Shift_JIS\r\nResult: " ==
      "SAORI/1.0 400 Bad Request\r\nCharset: Shift_JIS\r\nResult: "
  {
    BadRequestStatusLine();
  }

  lemma BadRequestStatusLine()
    ensures StatusPrefix + StatusText(BadRequest) == "SAORI/1.0 400 Bad Request"
  {
  }

  lemma SameHead(x: string, y: string, result: string)
    requires x == y
    ensures x + result + "\r\n" == y + result + "\r\n"
  {
  }

  lemma EchoHead(result: string)
    ensures Terminated(HeadLines(SaoriResponse(Ok, ["test1", "test2"], result))) ==
      "SAORI/1.0 200 OK\r\nCharset: Shift_JIS\r\nResult: " + result + "\r\n"
  {
    HeadText(SaoriResponse(Ok, ["test1", "test2"], result));
    OkHead();
    SameHead(StatusPrefix + StatusText(Ok) + "\r\nCharset: Shift_JIS\r\nResult: ",
      "SAORI/1.0 200 OK\r\nCharset: Shift_JIS\r\nResult: ", result);
  }

  lemma EchoValues()
    ensures Terminated(ValueLines(["test1", "test2"])) == "Value0: test1\r\nValue1: test2\r\n"
  {
    var v := ValueLines(["test1", "test2"]);
    assert NatToString(0) == "0" && NatToString(1) == "1";
    assert v[0] == "Value0: test1" && v[1] == "Value1: test2";
    assert v[1..][1..] == [];
    assert Terminated(v[1..]) == "Value1: test2" + CRLF;
  }

  lemma EchoJoined(result: string)
    ensures "SAORI/1.0 200 OK\r\nCharset: Shift_JIS\r\nResult: " + result + "\r\n"
      + "Value0: test1\r\nValue1: test2\r\n" + CRLF == EchoReply(result)
  {
  }

  lemma NoArgumentJoined(head: string)
    requires head == "SAORI/1.0 400 Bad Request\r\nCharset: Shift_JIS\r\nResult: "
    ensures head + "" + "\r\n" + "" + CRLF == NoArgumentReply
  {
  }
}
