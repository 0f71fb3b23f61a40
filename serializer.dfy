/** `make_response`: a handler's response as wire text. The status line
    comes from a fixed table, the charset line is always `Shift_JIS`, the
    `Result` line is written for every kind of response, then one
    `Value<i>` line per value in index order, then a blank line. */
module Serializer {
  import opened Text
  import opened SaoriTypes

  const StatusPrefix: string := "SAORI/1.0 "
  const CharsetLine: string := "Charset: Shift_JIS"
  const ResultPrefix: string := "Result: "

  /** The status table. */
  function StatusText(t: ResponseType): string {
    match t
    case Ok => "200 OK"
    case BadRequest => "400 Bad Request"
    case InternalServerError => "500 Internal Server Error"
  }

  /** The line for value `i`. */
  function ValueLine(i: nat, v: string): string {
    "Value" + NatToString(i) + ": " + v
  }

  /** The status line, the charset line and the `Result` line. */
  function HeadLines(resp: SaoriResponse): seq<string> {
    [StatusPrefix + StatusText(resp.responseType), CharsetLine, ResultPrefix + resp.result]
  }

  /** One `Value<i>` line per value, in index order. */
  function ValueLines(values: seq<string>): (ls: seq<string>)
    ensures |ls| == |values|
  {
    seq(|values|, i requires 0 <= i < |values| => ValueLine(i, values[i]))
  }

  /** The lines of the reply, before they are joined with the separator:
      status, charset, result, the values, and two empty pieces, since the
      text ends with the line terminator of the last header line followed by
      a blank line. */
  function ResponseLines(resp: SaoriResponse): seq<string> {
    HeadLines(resp) + ValueLines(resp.values) + ["", ""]
  }

  /** The wire text of a response. */
  function ResponseText(resp: SaoriResponse): string {
    JoinLines(ResponseLines(resp))
  }

  /** Every line followed by the separator. */
  function Terminated(ls: seq<string>): string {
    if |ls| == 0 then "" else ls[0] + CRLF + Terminated(ls[1..])
  }

  lemma {:induction false} TerminatedAppend(a: seq<string>, b: seq<string>)
    ensures Terminated(a + b) == Terminated(a) + Terminated(b)
    decreases |a|
  {
    if |a| > 0 {
      assert (a + b)[1..] == a[1..] + b;
      TerminatedAppend(a[1..], b);
    } else {
      assert a + b == b;
    }
  }

  lemma TerminatedSnoc(ls: seq<string>, x: string)
    ensures Terminated(ls + [x]) == Terminated(ls) + (x + CRLF)
  {
    TerminatedAppend(ls, [x]);
    assert [x][1..] == [];
  }

  lemma {:induction false} JoinTerminated(ls: seq<string>, last: string)
    ensures JoinLines(ls + [last]) == Terminated(ls) + last
    decreases |ls|
  {
    if |ls| > 0 {
      assert (ls + [last])[1..] == ls[1..] + [last];
      JoinTerminated(ls[1..], last);
    }
  }

  /** The three head lines, each with its terminator. */
  lemma HeadText(resp: SaoriResponse)
    ensures Terminated(HeadLines(resp)) ==
      StatusPrefix + StatusText(resp.responseType) + "\r\nCharset: Shift_JIS\r\nResult: " + resp.result + "\r\n"
  {
    var status := StatusPrefix + StatusText(resp.responseType);
    HeadTerminated(status, resp.result);
    HeadJoined(status, resp.result);
  }

  lemma HeadTerminated(status: string, result: string)
    ensures Terminated([status, CharsetLine, ResultPrefix + result]) ==
      status + CRLF + (CharsetLine + CRLF + (ResultPrefix + result + CRLF))
  {
    var h := [status, CharsetLine, ResultPrefix + result];
    assert h[1..] == [CharsetLine, ResultPrefix + result];
    assert h[1..][1..] == [ResultPrefix + result];
    assert h[1..][1..][1..] == [];
    assert Terminated(h[1..][1..]) == ResultPrefix + result + CRLF;
    assert Terminated(h[1..]) == CharsetLine + CRLF + (ResultPrefix + result + CRLF);
  }

  lemma HeadJoined(status: string, result: string)
    ensures status + "\r\nCharset: Shift_JIS\r\nResult: " + result + "\r\n" ==
      status + CRLF + (CharsetLine + CRLF + (ResultPrefix + result + CRLF))
  {
    assert "\r\nCharset: Shift_JIS\r\nResult: " == CRLF + CharsetLine + CRLF + ResultPrefix;
  }

  /** The reply as the terminated head lines, the terminated value lines
      and a blank line. */
  lemma ResponseTextParts(resp: SaoriResponse)
    ensures ResponseText(resp) ==
      Terminated(HeadLines(resp)) + Terminated(ValueLines(resp.values)) + CRLF
  {
    var h := HeadLines(resp);
    var v := ValueLines(resp.values);
    assert ResponseLines(resp) == (h + v + [""]) + [""];
    JoinTerminated(h + v + [""], "");
    TerminatedSnoc(h + v, "");
    TerminatedAppend(h, v);
  }

  /** `make_response`: the header text first, then one `push_str` per
      value, then the blank line. */
  method MakeResponse(input: SaoriResponse) returns (response: string)
    ensures response == ResponseText(input)
  {
    var status := StatusText(input.responseType);
    response := StatusPrefix + status + "\r\nCharset: Shift_JIS\r\nResult: " + input.result + "\r\n";
    HeadText(input);
    ghost var lines := ValueLines(input.values);
    for index := 0 to |input.values|
      invariant response == Terminated(HeadLines(input)) + Terminated(lines[..index])
    {
      var v := "Value" + NatToString(index) + ": " + input.values[index] + "\r\n";
      assert lines[..index + 1] == lines[..index] + [lines[index]];
      TerminatedSnoc(lines[..index], lines[index]);
      response := response + v;
    }
    response := response + "\r\n";
    assert lines[..|input.values|] == lines;
    ResponseTextParts(input);
  }

  /** Concatenating two separator-free texts creates no separator when the
      first does not end with a carriage return. */
  lemma NoSepAppend(a: string, b: string)
    requires NoSep(a) && NoSep(b)
    requires |a| == 0 || a[|a| - 1] != '\r'
    ensures NoSep(a + b)
  {
    var s := a + b;
    forall i | 0 <= i < |s| - 1 ensures !(s[i] == '\r' && s[i + 1] == '\n') {
      if i + 1 < |a| {
        assert s[i] == a[i] && s[i + 1] == a[i + 1];
      } else if i >= |a| {
        assert s[i] == b[i - |a|] && s[i + 1] == b[i + 1 - |a|];
      }
    }
  }

  /** Texts without a carriage return contain no separator. */
  lemma NoSepWithoutCR(a: string)
    requires forall i :: 0 <= i < |a| ==> a[i] != '\r'
    ensures NoSep(a)
  {
  }

  /** The lines of a response are free of the separator when its result
      and values are. */
  lemma ResponseLinesNoSep(resp: SaoriResponse)
    requires NoSep(resp.result)
    requires forall i :: 0 <= i < |resp.values| ==> NoSep(resp.values[i])
    ensures forall k :: 0 <= k < |ResponseLines(resp)| ==> NoSep(ResponseLines(resp)[k])
  {
    var ls := ResponseLines(resp);
    var n := |resp.values|;
    forall k | 0 <= k < |ls| ensures NoSep(ls[k]) {
      if k == 0 {
        NoSepWithoutCR(StatusPrefix + StatusText(resp.responseType));
      } else if k == 1 {
        NoSepWithoutCR(CharsetLine);
      } else if k == 2 {
        NoSepAppend(ResultPrefix, resp.result);
      } else if k < n + 3 {
        var i := k - 3;
        var p := "Value" + NatToString(i) + ": ";
        NatToStringRoundTrip(i);
        NoSepWithoutCR(p);
        NoSepAppend(p, resp.values[i]);
        assert ls[k] == ValueLine(i, resp.values[i]) == p + resp.values[i];
      }
    }
  }

  /** Read back as lines, the reply is: the status line from the table, the
      fixed charset line, the `Result` line (for every kind of response),
      `Value<i>: <values[i]>` for each value in index order, and a blank
      line. This holds for a result and values free of the separator, as
      `Saori.ParsedResponseNoSep` shows every response to a parsed request
      is; a value holding `\r\n` would split into extra lines. */
  lemma ResponseLayout(resp: SaoriResponse)
    requires NoSep(resp.result)
    requires forall i :: 0 <= i < |resp.values| ==> NoSep(resp.values[i])
    ensures var ls := SplitLines(ResponseText(resp));
      var n := |resp.values|;
      |ls| == n + 5 &&
      ls[0] == "SAORI/1.0 " + StatusText(resp.responseType) &&
      ls[1] == "Charset: Shift_JIS" &&
      ls[2] == "Result: " + resp.result &&
      (forall i :: 0 <= i < n ==> ls[3 + i] == "Value" + NatToString(i) + ": " + resp.values[i]) &&
      ls[n + 3] == "" && ls[n + 4] == ""
  {
    ResponseLinesNoSep(resp);
    SplitJoin(ResponseLines(resp));
  }

  /** The text starts with the status line, the charset line and the
      `Result` line, whatever the kind of response, and ends with the
      terminator of the last line followed by a blank line. */
  lemma ResponseFrame(resp: SaoriResponse)
    ensures var text := ResponseText(resp);
      var head := "SAORI/1.0 " + StatusText(resp.responseType) + "\r\nCharset: Shift_JIS\r\nResult: "
        + resp.result + "\r\n";
      |text| >= |head| + 2 && text[..|head|] == head && text[|text| - 4..] == "\r\n\r\n"
  {
    ResponseTextParts(resp);
    HeadText(resp);
    var t := Terminated(HeadLines(resp));
    var v := ValueLines(resp.values);
    var text := ResponseText(resp);
    var body := t + Terminated(v);
    assert text == body + CRLF;
    if |v| == 0 {
      assert body == t;
    } else {
      assert v == v[..|v| - 1] + [v[|v| - 1]];
      TerminatedSnoc(v[..|v| - 1], v[|v| - 1]);
    }
    assert body[|body| - 2..] == CRLF;
    assert text[..|t|] == t;
  }

  /** Distinct responses whose result and values are free of the separator
      give distinct texts: the kind, the result and every value can be read
      back from the reply. Without that condition two responses can share a
      text: an `Ok` response with no values and the result
      `a\r\nValue0: x` is written like one with the result `a` and the
      single value `x`. */
  lemma ResponseTextInjective(a: SaoriResponse, b: SaoriResponse)
    requires NoSep(a.result) && forall i :: 0 <= i < |a.values| ==> NoSep(a.values[i])
    requires NoSep(b.result) && forall i :: 0 <= i < |b.values| ==> NoSep(b.values[i])
    requires ResponseText(a) == ResponseText(b)
    ensures a == b
  {
    ResponseLayout(a);
    ResponseLayout(b);
    var ls := SplitLines(ResponseText(a));
    assert |a.values| == |b.values|;
    assert StatusText(a.responseType) == ls[0][|StatusPrefix|..] == StatusText(b.responseType);
    assert a.result == ls[2][|ResultPrefix|..] == b.result;
    forall i | 0 <= i < |a.values| ensures a.values[i] == b.values[i] {
      var p := "Value" + NatToString(i) + ": ";
      assert ls[3 + i] == p + a.values[i] == p + b.values[i];
      assert a.values[i] == ls[3 + i][|p|..] == b.values[i];
    }
  }

  /** The condition of `ResponseLayout` and `ResponseTextInjective` cannot
      be dropped: a result holding the separator can pass for a value line. */
  lemma ResponseTextCollision()
    ensures ResponseText(SaoriResponse(Ok, [], "a\r\nValue0: x")) == ResponseText(SaoriResponse(Ok, ["x"], "a"))
  {
    var a := SaoriResponse(Ok, [], "a\r\nValue0: x");
    var b := SaoriResponse(Ok, ["x"], "a");
    var top := [StatusPrefix + StatusText(Ok), CharsetLine];
    ResponseTextParts(a);
    ResponseTextParts(b);
    assert ValueLines(a.values) == [];
    assert NatToString(0) == "0";
    assert ValueLine(0, "x") == "Value0: x";
    assert ValueLines(b.values)[0] == ValueLine(0, "x");
    assert ValueLines(b.values) == ["Value0: x"];
    assert HeadLines(a) == top + [ResultPrefix + a.result];
    assert HeadLines(b) + ValueLines(b.values) == top + [ResultPrefix + b.result, "Value0: x"];
    TerminatedAppend(top, [ResultPrefix + a.result]);
    TerminatedAppend(HeadLines(b), ValueLines(b.values));
    TerminatedAppend(top, [ResultPrefix + b.result, "Value0: x"]);
    assert Terminated([ResultPrefix + a.result]) == Terminated([ResultPrefix + b.result, "Value0: x"]);
  }
}
