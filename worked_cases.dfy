/** Concrete requests and the exact replies the engine gives them. Each
    input is written as the list of its lines joined with the separator, so
    `JoinLines([ExecuteLine, "Argument0: hello", "", ""])` is the text
    `EXECUTE SAORI/1.0\r\nArgument0: hello\r\n\r\n`. */
module WorkedCases {
  import opened Text
  import opened SaoriTypes
  import opened Patterns
  import opened Parser
  import opened Serializer
  import opened Saori
  import Implement

  const ExecuteLine: string := "EXECUTE SAORI/1.0"
  const VersionLine: string := "GET Version SAORI/1.0"

  lemma FirstLines()
    ensures NoSep(ExecuteLine) && StartsWith(ExecuteLine, ExecutePrefix) && !StartsWith(ExecuteLine, GetVersionPrefix)
    ensures NoSep(VersionLine) && StartsWith(VersionLine, GetVersionPrefix)
  {
    assert ExecuteLine[0] != GetVersionPrefix[0];
  }

  /** A blank line matches no pattern. */
  lemma BlankUnmatched()
    ensures Classify("") == Unmatched
  {
  }

  lemma HeaderLineOf(h: Header, v: string, line: string)
    requires |v| >= 1 && NoNewline(v)
    requires line == HeaderPrefix(h) + v
    ensures Classify(line) == HeaderLine(h, v)
  {
    HeaderMatchOf(HeaderPrefix(h), v, "");
    assert HeaderPrefix(h) + v + "" == line;
    ClassifyByPattern(line);
  }

  lemma ArgumentLineOf(d: string, n: nat, body: string, line: string)
    requires |d| >= 1 && AllDigits(d) && DigitsValue(d) == n
    requires |body| >= 1 && NoNewline(body)
    requires line == ArgumentPrefix + (d + (ArgumentSeparator + body))
    ensures Classify(line) == ArgumentLine(n, body)
  {
    ArgumentMatchOf(d, body, "");
    assert body + "" == body;
    ClassifyByPattern(line);
  }

  /** An argument line updates the argument vector and nothing else. */
  lemma ApplyArgument(req: SaoriRequest, line: string, n: nat, body: string)
    requires Classify(line) == ArgumentLine(n, body)
    ensures ApplyLine(req, line) == req.(args := SetArgument(req.args, n, body))
  {
  }

  /** One line followed by the blank pieces that end a request. */
  lemma CollectOne(x: string)
    ensures CollectExecute([x, "", ""]) == ApplyLine(EmptyExecute, x)
  {
    BlankUnmatched();
    CollectSnoc([], x);
    assert [] + [x] == [x];
    CollectSnoc([x], "");
    assert [x] + [""] == [x, ""];
    CollectSnoc([x, ""], "");
    assert [x, ""] + [""] == [x, "", ""];
  }

  /** Two lines followed by the blank pieces that end a request. */
  lemma CollectTwo(x: string, y: string)
    ensures CollectExecute([x, y, "", ""]) == ApplyLine(ApplyLine(EmptyExecute, x), y)
  {
    BlankUnmatched();
    CollectSnoc([], x);
    assert [] + [x] == [x];
    CollectSnoc([x], y);
    assert [x] + [y] == [x, y];
    CollectSnoc([x, y], "");
    assert [x, y] + [""] == [x, y, ""];
    CollectSnoc([x, y, ""], "");
    assert [x, y, ""] + [""] == [x, y, "", ""];
  }

  /** The execute line, one more line, and the terminating blank line. */
  lemma ExecuteOne(x: string)
    requires NoSep(x)
    ensures var input := JoinLines([ExecuteLine, x, "", ""]);
      Parse(input) == Success(ApplyLine(EmptyExecute, x)) &&
      Request(input) == ResponseText(Implement.Request(ApplyLine(EmptyExecute, x)))
  {
    var ls := [ExecuteLine, x, "", ""];
    FirstLines();
    SplitJoin(ls);
    assert ls[1..] == [x, "", ""];
    CollectOne(x);
    CollectHeader(ClassifyAll([x, "", ""]), Charset);
  }

  /** The execute line, two more lines, and the terminating blank line. */
  lemma ExecuteTwo(x: string, y: string)
    requires NoSep(x) && NoSep(y)
    ensures var input := JoinLines([ExecuteLine, x, y, "", ""]);
      Parse(input) == Success(ApplyLine(ApplyLine(EmptyExecute, x), y)) &&
      Request(input) == ResponseText(Implement.Request(ApplyLine(ApplyLine(EmptyExecute, x), y)))
  {
    var ls := [ExecuteLine, x, y, "", ""];
    FirstLines();
    SplitJoin(ls);
    assert ls[1..] == [x, y, "", ""];
    CollectTwo(x, y);
    CollectHeader(ClassifyAll([x, y, "", ""]), Charset);
  }

  // ---------------------------------------------------------------------
  // The request of the source's own test, and its commented-out variant

  const TestLines: seq<string> := ["Charset: Shift_JIS", "Sender: Test", "", ""]

  lemma TestLinesClassified()
    ensures Classify("Charset: Shift_JIS") == HeaderLine(Charset, "Shift_JIS")
    ensures Classify("Sender: Test") == HeaderLine(Sender, "Test")
  {
    CharsetText();
    SenderText();
    HeaderLineOf(Charset, "Shift_JIS", "Charset: Shift_JIS");
    HeaderLineOf(Sender, "Test", "Sender: Test");
  }

  /** The source's test input carries a charset and a sender but no
      argument: it parses into an execute request with both headers set and
      no arguments, and the handler's reply is a 400 that still has an
      empty `Result` line. */
  lemma TestInputReply()
    ensures var input := JoinLines([ExecuteLine] + TestLines);
      Parse(input) == Success(SaoriRequest(Execute, [], "", "Test", "Shift_JIS")) &&
      Request(input) == NoArgumentReply
  {
    TestLinesNoSep();
    TestLinesClassified();
    ExecuteTwo("Charset: Shift_JIS", "Sender: Test");
    assert [ExecuteLine] + TestLines == [ExecuteLine, "Charset: Shift_JIS", "Sender: Test", "", ""];
    NoArgumentText();
  }

  /** The commented-out variant: a version probe that also carries headers
      gets the canned 200 reply without a `Result` line. */
  lemma ProbeInputReply()
    ensures var input := JoinLines([VersionLine] + TestLines);
      Parse(input) == Success(VersionRequest) && Request(input) == VersionReply
  {
    FirstLines();
    var ls := [VersionLine] + TestLines;
    TestLinesNoSep();
    assert ls == [VersionLine, "Charset: Shift_JIS", "Sender: Test", "", ""];
    SplitJoin(ls);
  }

  // ---------------------------------------------------------------------
  // Malformed requests

  /** An unknown first line and the empty input both get the canned 400
      reply, without a `Result` line. */
  lemma MalformedReply()
    ensures Parse(JoinLines(["FOO BAR", "", ""])) == Failure(ProtocolError)
    ensures Request(JoinLines(["FOO BAR", "", ""])) == BadRequestReply
    ensures Request("") == BadRequestReply
  {
    var ls := ["FOO BAR", "", ""];
    UnknownNoSep();
    SplitJoin(ls);
    assert "FOO BAR"[0] != GetVersionPrefix[0] && "FOO BAR"[0] != ExecutePrefix[0];
    SingleLine("");
  }

  /** An execute request without any further line: no argument, so the
      handler answers 400, and the serializer still writes an empty
      `Result` line. */
  lemma EmptyExecuteReply()
    ensures var input := JoinLines([ExecuteLine, "", ""]);
      Parse(input) == Success(EmptyExecute) && Request(input) == NoArgumentReply
  {
    var ls := [ExecuteLine, "", ""];
    FirstLines();
    SplitJoin(ls);
    assert ls[1..] == ["", ""];
    BlankUnmatched();
    CollectSnoc([], "");
    assert [] + [""] == [""];
    CollectSnoc([""], "");
    assert [""] + [""] == ["", ""];
    NoArgumentText();
  }

  // ---------------------------------------------------------------------
  // Execute requests with arguments

  lemma HelloLine()
    ensures Classify("Argument0: hello") == ArgumentLine(0, "hello")
  {
    assert DigitsValue("0") == 0;
    assert "Argument0: hello" == ArgumentPrefix + ("0" + (ArgumentSeparator + "hello"));
    ArgumentLineOf("0", 0, "hello", "Argument0: hello");
  }

  /** One argument: the handler echoes it as the `Result` and adds its two
      fixed values. */
  lemma HelloReply()
    ensures var input := JoinLines([ExecuteLine, "Argument0: hello", "", ""]);
      Parse(input) == Success(SaoriRequest(Execute, ["hello"], "", "", "")) &&
      Request(input) == EchoReply("hello")
  {
    HelloNoSep();
    HelloLine();
    ExecuteOne("Argument0: hello");
    ApplyArgument(EmptyExecute, "Argument0: hello", 0, "hello");
    assert SetArgument([], 0, "hello") == ["hello"];
    EchoText("hello");
  }

  lemma SparseLine()
    ensures Classify("Argument2: x") == ArgumentLine(2, "x")
  {
    assert DigitsValue("2") == 2;
    assert "Argument2: x" == ArgumentPrefix + ("2" + (ArgumentSeparator + "x"));
    ArgumentLineOf("2", 2, "x", "Argument2: x");
  }

  /** Only slot 2 is written: the vector grows to three slots, the first two
      empty, so the handler answers 200 and echoes an empty `Result`. */
  lemma SparseReply()
    ensures var input := JoinLines([ExecuteLine, "Argument2: x", "", ""]);
      Parse(input) == Success(SaoriRequest(Execute, ["", "", "x"], "", "", "")) &&
      Request(input) == EchoReply("")
  {
    SparseNoSep();
    SparseLine();
    ExecuteOne("Argument2: x");
    ApplyArgument(EmptyExecute, "Argument2: x", 2, "x");
    assert SetArgument([], 2, "x") == ["", "", "x"];
    EchoText("");
  }

  lemma RewriteLines()
    ensures Classify("Argument0: a") == ArgumentLine(0, "a")
    ensures Classify("Argument0: b") == ArgumentLine(0, "b")
  {
    assert DigitsValue("0") == 0;
    assert "Argument0: a" == ArgumentPrefix + ("0" + (ArgumentSeparator + "a"));
    assert "Argument0: b" == ArgumentPrefix + ("0" + (ArgumentSeparator + "b"));
    ArgumentLineOf("0", 0, "a", "Argument0: a");
    ArgumentLineOf("0", 0, "b", "Argument0: b");
  }

  /** The same slot written twice keeps the later body. */
  lemma RewriteReply()
    ensures var input := JoinLines([ExecuteLine, "Argument0: a", "Argument0: b", "", ""]);
      Parse(input) == Success(SaoriRequest(Execute, ["b"], "", "", "")) &&
      Request(input) == EchoReply("b")
  {
    RewriteNoSep();
    RewriteLines();
    ExecuteTwo("Argument0: a", "Argument0: b");
    ApplyArgument(EmptyExecute, "Argument0: a", 0, "a");
    assert SetArgument([], 0, "a") == ["a"];
    ApplyArgument(EmptyExecute.(args := ["a"]), "Argument0: b", 0, "b");
    assert SetArgument(["a"], 0, "b") == ["b"];
    EchoText("b");
  }

  // ---------------------------------------------------------------------
  // Proof steps: facts about the literal lines of the requests above, each
  // in a lemma of its own so that the solver checks it in a small context.

  lemma TestLinesNoSep()
    ensures NoSep("Charset: Shift_JIS") && NoSep("Sender: Test")
  {
  }

  lemma CharsetText()
    ensures "Charset: Shift_JIS" == HeaderPrefix(Charset) + "Shift_JIS" && NoNewline("Shift_JIS")
  {
  }

  lemma SenderText()
    ensures "Sender: Test" == HeaderPrefix(Sender) + "Test" && NoNewline("Test")
  {
  }

  lemma UnknownNoSep()
    ensures NoSep("FOO BAR")
  {
  }

  lemma HelloNoSep()
    ensures NoSep("Argument0: hello")
  {
  }

  lemma SparseNoSep()
    ensures NoSep("Argument2: x")
  {
  }

  lemma RewriteNoSep()
    ensures NoSep("Argument0: a") && NoSep("Argument0: b")
  {
  }
}
