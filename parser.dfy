/** `parse_request`: the decoded request text is split into lines; the first
    line decides the kind of request, and for an `EXECUTE` request every
    later line is tried against the four patterns and updates the argument
    vector or one of the three headers. */
module Parser {
  import opened Text
  import opened SaoriTypes
  import opened Patterns

  const GetVersionPrefix: string := "GET Version SAORI"
  const ExecutePrefix: string := "EXECUTE SAORI"

  /** The error value of a request whose first line is not understood. */
  const ProtocolError: string := "プロトコルが変です"

  /** The answer to a version probe: no arguments, every header empty. */
  const VersionRequest: SaoriRequest := SaoriRequest(GetVersion, [], "", "", "")

  /** An `EXECUTE` request before any of its lines has been read. */
  const EmptyExecute: SaoriRequest := SaoriRequest(Execute, [], "", "", "")

  /** `Vec::resize(n, fill)`: truncate to `n` elements, or pad with `fill`. */
  function Resize(v: seq<string>, n: nat, fill: string): (r: seq<string>)
    ensures |r| == n
    ensures forall k :: 0 <= k < n ==> r[k] == if k < |v| then v[k] else fill
  {
    if n <= |v| then v[..n] else v + seq(n - |v|, _ => fill)
  }

  /** One `Argument<index>` line: the vector grows to `index + 1` slots if it
      is shorter, the new slots empty, and slot `index` takes the body. */
  function SetArgument(args: seq<string>, index: nat, body: string): (r: seq<string>)
    ensures |r| == if index < |args| then |args| else index + 1
    ensures r[index] == body
    ensures forall k :: 0 <= k < |r| && k != index ==> r[k] == if k < |args| then args[k] else ""
  {
    (if index >= |args| then Resize(args, index + 1, "") else args)[index := body]
  }

  /** The effect of one classified line of an `EXECUTE` request. */
  function ApplyMatch(req: SaoriRequest, m: LineMatch): SaoriRequest {
    match m
    case ArgumentLine(index, body) => req.(args := SetArgument(req.args, index, body))
    case HeaderLine(Charset, v) => req.(charset := v)
    case HeaderLine(Sender, v) => req.(sender := v)
    case HeaderLine(SecurityLevel, v) => req.(securityLevel := v)
    case Unmatched => req
  }

  /** The effect of one line of an `EXECUTE` request. */
  function ApplyLine(req: SaoriRequest, line: string): SaoriRequest {
    ApplyMatch(req, Classify(line))
  }

  /** The request built from a sequence of classified lines, read in order. */
  function CollectMatches(ms: seq<LineMatch>): SaoriRequest {
    if |ms| == 0 then EmptyExecute
    else ApplyMatch(CollectMatches(ms[..|ms| - 1]), ms[|ms| - 1])
  }

  /** Every line classified. */
  function ClassifyAll(lines: seq<string>): (ms: seq<LineMatch>)
    ensures |ms| == |lines|
  {
    seq(|lines|, i requires 0 <= i < |lines| => Classify(lines[i]))
  }

  /** The request built from the lines after `EXECUTE SAORI`, read in order. */
  function CollectExecute(lines: seq<string>): SaoriRequest {
    CollectMatches(ClassifyAll(lines))
  }

  /** What `parse_request` returns for `input`. */
  function Parse(input: string): Result<SaoriRequest> {
    var lines := SplitLines(input);
    if StartsWith(lines[0], GetVersionPrefix) then Success(VersionRequest)
    else if StartsWith(lines[0], ExecutePrefix) then Success(CollectExecute(lines[1..]))
    else Failure(ProtocolError)
  }

  /** Classification distributes over concatenation. */
  lemma ClassifyAppend(a: seq<string>, b: seq<string>)
    ensures ClassifyAll(a + b) == ClassifyAll(a) + ClassifyAll(b)
  {
  }

  /** Reading one more line of an execute request applies it to the request
      built so far. */
  lemma CollectSnoc(ls: seq<string>, line: string)
    ensures CollectExecute(ls + [line]) == ApplyLine(CollectExecute(ls), line)
  {
    var ms := ClassifyAll(ls + [line]);
    assert ms[..|ls|] == ClassifyAll(ls);
    assert ms[|ls|] == Classify(line);
  }

  /** `parse_request`, reading the lines one by one and updating the
      argument vector and the three header strings in place. */
  method ParseRequest(input: string) returns (r: Result<SaoriRequest>)
    ensures r == Parse(input)
  {
    var lines := SplitLines(input);
    // `split` always yields a first piece, so `lines.next()` is never `None`.
    var first := lines[0];
    var args: seq<string> := [];
    var sender, securityLevel, charset := "", "", "";
    if StartsWith(first, GetVersionPrefix) {
      return Success(SaoriRequest(GetVersion, [], securityLevel, sender, charset));
    } else if StartsWith(first, ExecutePrefix) {
      for i := 1 to |lines|
        invariant SaoriRequest(Execute, args, securityLevel, sender, charset) == CollectExecute(lines[1..i])
      {
        var line := lines[i];
        assert lines[1..i + 1] == lines[1..i] + [line];
        CollectSnoc(lines[1..i], line);
        var argument := MatchArgument(line);
        if argument.Some? {
          var (index, body) := argument.value;
          if index >= |args| {
            args := Resize(args, index + 1, "");
          }
          args := args[index := body];
        } else {
          var c := MatchField(line, HeaderPrefix(Charset));
          if c.Some? {
            charset := c.value;
          } else {
            var s := MatchField(line, HeaderPrefix(Sender));
            if s.Some? {
              sender := s.value;
            } else {
              var l := MatchField(line, HeaderPrefix(SecurityLevel));
              if l.Some? {
                securityLevel := l.value;
              }
            }
          }
        }
      }
      assert lines[1..] == lines[1..|lines|];
      return Success(SaoriRequest(Execute, args, securityLevel, sender, charset));
    }
    return Failure(ProtocolError);
  }

  // ---------------------------------------------------------------------
  // What an EXECUTE request's fields hold, in terms of its classified lines

  /** `m` is an `Argument<k>` line. */
  predicate Writes(m: LineMatch, k: nat) {
    m.ArgumentLine? && m.index == k
  }

  /** Some line writes slot `k`. */
  predicate Written(ms: seq<LineMatch>, k: nat) {
    exists j :: 0 <= j < |ms| && Writes(ms[j], k)
  }

  /** Line `j` is the last one that writes slot `k`. */
  predicate LastWriteAt(ms: seq<LineMatch>, j: int, k: nat) {
    0 <= j < |ms| && Writes(ms[j], k) &&
    forall j' :: j < j' < |ms| ==> !Writes(ms[j'], k)
  }

  /** `m` sets header `h`. */
  predicate Sets(m: LineMatch, h: Header) {
    m.HeaderLine? && m.header == h
  }

  /** Some line sets header `h`. */
  predicate HeaderSent(ms: seq<LineMatch>, h: Header) {
    exists j :: 0 <= j < |ms| && Sets(ms[j], h)
  }

  /** Line `j` is the last one that sets header `h`. */
  predicate LastSetAt(ms: seq<LineMatch>, j: int, h: Header) {
    0 <= j < |ms| && Sets(ms[j], h) &&
    forall j' :: j < j' < |ms| ==> !Sets(ms[j'], h)
  }

  function HeaderField(req: SaoriRequest, h: Header): string {
    match h
    case Charset => req.charset
    case Sender => req.sender
    case SecurityLevel => req.securityLevel
  }

  /** A slot is written by the whole sequence exactly when it is written by
      all but its last line or by that last line. */
  lemma WrittenSnoc(ms: seq<LineMatch>, k: nat)
    requires |ms| > 0
    ensures Written(ms, k) <==> Written(ms[..|ms| - 1], k) || Writes(ms[|ms| - 1], k)
  {
    var init := ms[..|ms| - 1];
    if Written(ms, k) {
      var j :| 0 <= j < |ms| && Writes(ms[j], k);
      if j < |init| {
        assert init[j] == ms[j];
      }
    }
    if Written(init, k) {
      var j :| 0 <= j < |init| && Writes(init[j], k);
      assert ms[j] == init[j];
    }
  }

  lemma HeaderSentSnoc(ms: seq<LineMatch>, h: Header)
    requires |ms| > 0
    ensures HeaderSent(ms, h) <==> HeaderSent(ms[..|ms| - 1], h) || Sets(ms[|ms| - 1], h)
  {
    var init := ms[..|ms| - 1];
    if HeaderSent(ms, h) {
      var j :| 0 <= j < |ms| && Sets(ms[j], h);
      if j < |init| {
        assert init[j] == ms[j];
      }
    }
    if HeaderSent(init, h) {
      var j :| 0 <= j < |init| && Sets(init[j], h);
      assert ms[j] == init[j];
    }
  }

  /** The last write before the final line, when that line does not
      write the slot, is the last write of the lines before it. */
  lemma LastWriteInit(ms: seq<LineMatch>, j: int, k: nat)
    requires LastWriteAt(ms, j, k) && j < |ms| - 1
    ensures LastWriteAt(ms[..|ms| - 1], j, k) && !Writes(ms[|ms| - 1], k)
    ensures ms[..|ms| - 1][j] == ms[j]
  {
    var init := ms[..|ms| - 1];
    forall j' | j < j' < |init| ensures !Writes(init[j'], k) {
      assert init[j'] == ms[j'];
    }
  }

  lemma LastSetInit(ms: seq<LineMatch>, j: int, h: Header)
    requires LastSetAt(ms, j, h) && j < |ms| - 1
    ensures LastSetAt(ms[..|ms| - 1], j, h) && !Sets(ms[|ms| - 1], h)
    ensures ms[..|ms| - 1][j] == ms[j]
  {
    var init := ms[..|ms| - 1];
    forall j' | j < j' < |init| ensures !Sets(init[j'], h) {
      assert init[j'] == ms[j'];
    }
  }

  /** A line that writes slot `k` leaves its body there. */
  lemma SlotWritten(req: SaoriRequest, m: LineMatch, k: nat)
    requires Writes(m, k)
    ensures var a := ApplyMatch(req, m).args;
      k < |a| && a[k] == m.body
  {
  }

  /** A line that does not write slot `k` never shrinks the vector and
      leaves slot `k` as it was, or empty if the vector grew over it. */
  lemma SlotKept(req: SaoriRequest, m: LineMatch, k: nat)
    requires !Writes(m, k)
    ensures var a := ApplyMatch(req, m).args;
      |req.args| <= |a| && (k < |a| ==> a[k] == if k < |req.args| then req.args[k] else "")
  {
  }

  /** The argument vector is exactly as long as it must be: every written
      slot is inside it, and when it is not empty its last slot was written
      (so its length is one more than the largest index seen, or 0). */
  lemma {:induction false} CollectArgumentsLength(ms: seq<LineMatch>)
    ensures var a := CollectMatches(ms).args;
      (forall k: nat :: Written(ms, k) ==> k < |a|) &&
      (|a| == 0 || Written(ms, |a| - 1))
  {
    if |ms| > 0 {
      var init := ms[..|ms| - 1];
      var m := ms[|ms| - 1];
      CollectArgumentsLength(init);
      var before := CollectMatches(init).args;
      var a := CollectMatches(ms).args;
      forall k: nat ensures Written(ms, k) <==> Written(init, k) || Writes(m, k) {
        WrittenSnoc(ms, k);
      }
      if |a| > 0 && !Writes(m, |a| - 1) {
        assert |a| == |before|;
      }
    }
  }

  /** Slot `k` holds the body of the last line that writes it, and the
      empty string when no line writes it. */
  lemma {:induction false} CollectArgumentSlot(ms: seq<LineMatch>, k: nat)
    ensures var a := CollectMatches(ms).args;
      (forall j :: LastWriteAt(ms, j, k) ==> k < |a| && a[k] == ms[j].body) &&
      (k < |a| && !Written(ms, k) ==> a[k] == "")
  {
    if |ms| > 0 {
      var init := ms[..|ms| - 1];
      var m := ms[|ms| - 1];
      CollectArgumentSlot(init, k);
      WrittenSnoc(ms, k);
      var a := CollectMatches(ms).args;
      if Writes(m, k) {
        SlotWritten(CollectMatches(init), m, k);
      } else {
        SlotKept(CollectMatches(init), m, k);
      }
      forall j | LastWriteAt(ms, j, k)
        ensures k < |a| && a[k] == ms[j].body
      {
        if j < |init| {
          LastWriteInit(ms, j, k);
        }
      }
    }
  }

  /** Only a line that sets header `h` touches it, and no line changes the
      kind of the request. */
  lemma LastLineHeader(req: SaoriRequest, m: LineMatch, h: Header)
    ensures ApplyMatch(req, m).requestType == req.requestType
    ensures HeaderField(ApplyMatch(req, m), h) == if Sets(m, h) then m.value else HeaderField(req, h)
  {
  }

  /** Each header holds the value of the last line that sets it, and the
      empty string when no line sets it; the kind stays `Execute`. */
  lemma {:induction false} CollectHeader(ms: seq<LineMatch>, h: Header)
    ensures CollectMatches(ms).requestType == Execute
    ensures forall j :: LastSetAt(ms, j, h) ==> HeaderField(CollectMatches(ms), h) == ms[j].value
    ensures !HeaderSent(ms, h) ==> HeaderField(CollectMatches(ms), h) == ""
  {
    if |ms| > 0 {
      var init := ms[..|ms| - 1];
      var m := ms[|ms| - 1];
      CollectHeader(init, h);
      HeaderSentSnoc(ms, h);
      LastLineHeader(CollectMatches(init), m, h);
      forall j | LastSetAt(ms, j, h)
        ensures HeaderField(CollectMatches(ms), h) == ms[j].value
      {
        if j < |init| {
          LastSetInit(ms, j, h);
        }
      }
    }
  }

  /** A line that matches no pattern can be removed without changing the
      request, wherever it stands. */
  lemma {:induction false} UnmatchedIgnored(before: seq<LineMatch>, after: seq<LineMatch>)
    ensures CollectMatches(before + [Unmatched] + after) == CollectMatches(before + after)
    decreases |after|
  {
    var with := before + [Unmatched] + after;
    if |after| == 0 {
      assert with[..|with| - 1] == before;
      assert before + after == before;
    } else {
      var init := after[..|after| - 1];
      UnmatchedIgnored(before, init);
      assert with[..|with| - 1] == before + [Unmatched] + init;
      assert (before + after)[..|before| + |after| - 1] == before + init;
    }
  }

  /** The same, for the lines themselves. */
  lemma UnmatchedLineIgnored(before: seq<string>, line: string, after: seq<string>)
    requires Classify(line) == Unmatched
    ensures CollectExecute(before + [line] + after) == CollectExecute(before + after)
  {
    ClassifyAppend(before + [line], after);
    ClassifyAppend(before, [line]);
    ClassifyAppend(before, after);
    assert ClassifyAll([line]) == [Unmatched];
    UnmatchedIgnored(ClassifyAll(before), ClassifyAll(after));
  }

  /** No argument slot holds a line feed when no argument body does: every
      slot is a captured body or the empty padding of `resize`. */
  lemma {:induction false} ArgumentsNoNewline(ms: seq<LineMatch>)
    requires forall j :: 0 <= j < |ms| && ms[j].ArgumentLine? ==> NoNewline(ms[j].body)
    ensures forall k :: 0 <= k < |CollectMatches(ms).args| ==> NoNewline(CollectMatches(ms).args[k])
  {
    if |ms| > 0 {
      ArgumentsNoNewline(ms[..|ms| - 1]);
    }
  }

  /** The argument vector built from any lines is free of line feeds, since
      `.+` never captures one. */
  lemma ExecuteArgumentsNoNewline(lines: seq<string>)
    ensures var a := CollectExecute(lines).args;
      forall k :: 0 <= k < |a| ==> NoNewline(a[k])
  {
    var ms := ClassifyAll(lines);
    forall j | 0 <= j < |ms| && ms[j].ArgumentLine?
      ensures NoNewline(ms[j].body)
    {
      assert ms[j] == Classify(lines[j]);
    }
    ArgumentsNoNewline(ms);
  }

  // ---------------------------------------------------------------------
  // The first line

  /** The first line alone decides between a version probe, an execute
      request and an error; a version probe ignores every later line, and
      an execute request is built from the later lines only. */
  lemma FirstLineDecides(first: string, rest: string)
    requires NoSep(first)
    ensures Parse(first + CRLF + rest).Failure? <==>
      !StartsWith(first, GetVersionPrefix) && !StartsWith(first, ExecutePrefix)
    ensures Parse(first + CRLF + rest).Failure? ==> Parse(first + CRLF + rest).error == ProtocolError
    ensures StartsWith(first, GetVersionPrefix) ==> Parse(first + CRLF + rest) == Success(VersionRequest)
    ensures StartsWith(first, ExecutePrefix) ==>
      Parse(first + CRLF + rest) == Success(CollectExecute(SplitLines(rest)))
  {
    SplitAfter(first, rest);
    assert StartsWith(first, GetVersionPrefix) ==> first[0] == 'G';
    assert StartsWith(first, ExecutePrefix) ==> first[0] == 'E';
    assert ([first] + SplitLines(rest))[1..] == SplitLines(rest);
  }

  /** A request with a single line: the same three outcomes, with no
      argument and no header for an execute request. In particular the
      empty input is malformed. */
  lemma SingleLine(first: string)
    requires NoSep(first)
    ensures Parse(first).Failure? <==>
      !StartsWith(first, GetVersionPrefix) && !StartsWith(first, ExecutePrefix)
    ensures StartsWith(first, GetVersionPrefix) ==> Parse(first) == Success(VersionRequest)
    ensures StartsWith(first, ExecutePrefix) ==> Parse(first) == Success(EmptyExecute)
    ensures Parse("") == Failure(ProtocolError)
  {
    SplitSingle(first);
    assert StartsWith(first, GetVersionPrefix) ==> first[0] == 'G';
    assert SplitLines("") == [""];
    assert ClassifyAll([]) == [];
  }
}
