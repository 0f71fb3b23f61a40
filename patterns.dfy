/** The four line patterns of an `EXECUTE` request, written as prefix,
    digit-run and rest-of-line checks instead of regular expressions:

      ^Argument(?<index>[1-9]?[0-9]+): (?<body>.+)
      ^Charset: (?<charset>.+)
      ^Sender: (?<sender>.+)
      ^SecurityLevel: (?<level>.+)

    `[1-9]?[0-9]+` accepts exactly a non-empty run of digits (leading zeros
    included), and since `:` is not a digit the index group always takes the
    whole run. `.+` is greedy and stops at a line feed, so a captured value is
    the longest line-feed-free text after the prefix, and it must not be
    empty. */
module Patterns {
  import opened Text

  datatype Option<T> = None | Some(value: T)

  const ArgumentPrefix: string := "Argument"
  const ArgumentSeparator: string := ": "

  /** The three optional headers of a request, in the order they are tried. */
  datatype Header = Charset | Sender | SecurityLevel

  function HeaderPrefix(h: Header): string {
    match h
    case Charset => "Charset: "
    case Sender => "Sender: "
    case SecurityLevel => "SecurityLevel: "
  }

  /** What one line of an `EXECUTE` request says. */
  datatype LineMatch =
    | ArgumentLine(index: nat, body: string)
    | HeaderLine(header: Header, value: string)
    | Unmatched

  /** `^<prefix>(.+)`: the captured value, if the line matches. */
  function MatchField(line: string, prefix: string): (m: Option<string>)
    ensures m.Some? ==> |m.value| >= 1 && NoNewline(m.value)
  {
    if !StartsWith(line, prefix) then None
    else
      var v := RestOfLine(line[|prefix|..]);
      if |v| == 0 then None else Some(v)
  }

  /** `^Argument(?<index>[1-9]?[0-9]+): (?<body>.+)`: the parsed index and the
      body, if the line matches. */
  function MatchArgument(line: string): (m: Option<(nat, string)>)
    ensures m.Some? ==> |m.value.1| >= 1 && NoNewline(m.value.1)
  {
    if !StartsWith(line, ArgumentPrefix) then None
    else
      var rest := line[|ArgumentPrefix|..];
      var d := DigitRun(rest);
      if |d| == 0 || !StartsWith(rest[|d|..], ArgumentSeparator) then None
      else
        var body := RestOfLine(rest[|d| + |ArgumentSeparator|..]);
        if |body| == 0 then None else Some((DigitsValue(d), body))
  }

  /** The `if let ... else if let ...` chain of the parser: the argument
      pattern first, then `Charset`, `Sender` and `SecurityLevel`. */
  function Classify(line: string): LineMatch {
    match MatchArgument(line)
    case Some((index, body)) => ArgumentLine(index, body)
    case None =>
      match MatchField(line, HeaderPrefix(Charset))
      case Some(v) => HeaderLine(Charset, v)
      case None =>
        match MatchField(line, HeaderPrefix(Sender))
        case Some(v) => HeaderLine(Sender, v)
        case None =>
          match MatchField(line, HeaderPrefix(SecurityLevel))
          case Some(v) => HeaderLine(SecurityLevel, v)
          case None => Unmatched
  }

  /** Completeness of a header pattern: a line made of the prefix, a
      non-empty line-feed-free value, and then nothing or a line feed,
      matches with exactly that value (colons inside it are kept). */
  lemma HeaderMatchOf(prefix: string, v: string, tail: string)
    requires |v| >= 1 && NoNewline(v)
    requires tail == [] || tail[0] == '\n'
    ensures MatchField(prefix + v + tail, prefix) == Some(v)
  {
    var line := prefix + v + tail;
    assert line[..|prefix|] == prefix;
    assert line[|prefix|..] == v + tail;
    RestOfLineOf(v, tail);
  }

  /** Soundness of a header pattern: a matching line is the prefix, the
      captured value, and then nothing or a line feed. */
  lemma HeaderMatchShape(line: string, prefix: string)
    requires MatchField(line, prefix).Some?
    ensures var v := MatchField(line, prefix).value;
      var tail := line[|prefix| + |v|..];
      line == prefix + v + tail && (tail == [] || tail[0] == '\n')
  {
    var v := MatchField(line, prefix).value;
    assert line == line[..|prefix|] + line[|prefix|..];
    assert line[|prefix|..] == v + line[|prefix| + |v|..];
  }

  /** Completeness of the argument pattern: `Argument`, a non-empty run of
      digits, `": "`, a non-empty line-feed-free body, then nothing or a line
      feed, matches with the digits' value and exactly that body. */
  lemma ArgumentMatchOf(d: string, body: string, tail: string)
    requires |d| >= 1 && AllDigits(d)
    requires |body| >= 1 && NoNewline(body)
    requires tail == [] || tail[0] == '\n'
    ensures MatchArgument(ArgumentPrefix + (d + (ArgumentSeparator + (body + tail))))
         == Some((DigitsValue(d), body))
  {
    var after := body + tail;
    var rest := d + (ArgumentSeparator + after);
    var line := ArgumentPrefix + rest;
    assert line[..|ArgumentPrefix|] == ArgumentPrefix && line[|ArgumentPrefix|..] == rest;
    DigitRunOf(d, ArgumentSeparator + after);
    assert rest[|d|..] == ArgumentSeparator + after;
    assert StartsWith(rest[|d|..], ArgumentSeparator);
    assert rest[|d| + |ArgumentSeparator|..] == after;
    RestOfLineOf(body, tail);
  }

  /** Soundness of the argument pattern: a matching line is `Argument`, the
      run of digits whose value is the index, `": "`, the body, and then
      nothing or a line feed. */
  lemma ArgumentMatchShape(line: string)
    requires MatchArgument(line).Some?
    ensures StartsWith(line, ArgumentPrefix)
    ensures var (n, body) := MatchArgument(line).value;
      var d := DigitRun(line[|ArgumentPrefix|..]);
      var tail := line[|ArgumentPrefix| + |d| + |ArgumentSeparator| + |body|..];
      |d| >= 1 && DigitsValue(d) == n &&
      line == ArgumentPrefix + (d + (ArgumentSeparator + (body + tail))) &&
      (tail == [] || tail[0] == '\n')
  {
    var (n, body) := MatchArgument(line).value;
    var rest := line[|ArgumentPrefix|..];
    var d := DigitRun(rest);
    assert line == ArgumentPrefix + rest;
    assert rest == d + rest[|d|..];
    assert rest[|d|..] == ArgumentSeparator + rest[|d| + |ArgumentSeparator|..];
    assert rest[|d| + |ArgumentSeparator|..] == body + rest[|d| + |ArgumentSeparator| + |body|..];
  }

  /** No line matches two of the four patterns: their fixed prefixes
      disagree within the first three characters. */
  lemma PatternsDisjoint(line: string)
    ensures MatchArgument(line).Some? ==> forall h :: MatchField(line, HeaderPrefix(h)).None?
    ensures forall h1, h2 ::
      MatchField(line, HeaderPrefix(h1)).Some? && MatchField(line, HeaderPrefix(h2)).Some? ==> h1 == h2
  {
    forall h | StartsWith(line, HeaderPrefix(h))
      ensures !StartsWith(line, ArgumentPrefix)
      ensures h == Charset <==> line[0] == 'C'
      ensures h == Sender <==> line[0] == 'S' && line[2] == 'n'
      ensures h == SecurityLevel <==> line[0] == 'S' && line[2] == 'c'
    {
      assert line[0] == HeaderPrefix(h)[0] && line[2] == HeaderPrefix(h)[2];
      assert line[..|ArgumentPrefix|][0] != ArgumentPrefix[0];
    }
  }

  /** The order in which the patterns are tried does not matter: whichever
      pattern matches decides the line, and a line is unmatched exactly when
      none of the four matches. */
  lemma {:induction false} ClassifyByPattern(line: string)
    ensures MatchArgument(line).Some? ==>
      Classify(line) == ArgumentLine(MatchArgument(line).value.0, MatchArgument(line).value.1)
    ensures forall h :: MatchField(line, HeaderPrefix(h)).Some? ==>
      Classify(line) == HeaderLine(h, MatchField(line, HeaderPrefix(h)).value)
    ensures Classify(line) == Unmatched <==>
      MatchArgument(line).None? && forall h :: MatchField(line, HeaderPrefix(h)).None?
  {
    PatternsDisjoint(line);
  }
}
