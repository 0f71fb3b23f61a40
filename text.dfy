/** The pieces of Rust's string library that the SAORI engine relies on:
    `str::split("\r\n")`, `str::starts_with`, decimal formatting and parsing
    of an index, and the two sub-patterns of its regular expressions (a run
    of ASCII digits, and `.+`, which stops at a line feed). */
module Text {

  /** The line separator of the protocol. */
  const CRLF: string := "\r\n"

  /** `s.starts_with(p)` */
  predicate StartsWith(s: string, p: string) {
    |p| <= |s| && s[..|p|] == p
  }

  /** `p` contains no occurrence of the separator `"\r\n"`. */
  predicate NoSep(p: string) {
    forall i :: 0 <= i < |p| - 1 ==> !(p[i] == '\r' && p[i + 1] == '\n')
  }

  /** The pieces joined back together with the separator between them. */
  function JoinLines(ls: seq<string>): (r: string)
    ensures |ls| >= 1 ==> StartsWith(r, ls[0])
  {
    if |ls| == 0 then ""
    else if |ls| == 1 then ls[0]
    else ls[0] + CRLF + JoinLines(ls[1..])
  }

  /** `s.split("\r\n")`: the pieces between the non-overlapping occurrences of
      the separator, scanned from the left. There is always at least one
      piece (splitting `""` gives `[""]`); joining the pieces gives `s` back,
      and no piece contains the separator. */
  function SplitLines(s: string): (r: seq<string>)
    ensures |r| >= 1
    ensures JoinLines(r) == s
    ensures forall k :: 0 <= k < |r| ==> NoSep(r[k])
    decreases |s|
  {
    if |s| < 2 then [s]
    else if s[0] == '\r' && s[1] == '\n' then [""] + SplitLines(s[2..])
    else
      var rest := SplitLines(s[1..]);
      assert StartsWith(s[1..], rest[0]);
      assert rest == [rest[0]] + rest[1..];
      [[s[0]] + rest[0]] + rest[1..]
  }

  /** A piece without the separator, followed by the separator, is split off
      as the first line, and the rest is split on its own. */
  lemma {:induction false} SplitAfter(p: string, rest: string)
    requires NoSep(p)
    ensures SplitLines(p + CRLF + rest) == [p] + SplitLines(rest)
    decreases |p|
  {
    var s := p + CRLF + rest;
    if |p| == 0 {
      assert s[2..] == rest;
    } else {
      assert s[0] == p[0];
      assert |p| >= 2 ==> s[1] == p[1] && !(p[0] == '\r' && p[1] == '\n');
      assert |p| == 1 ==> s[1] == '\r';
      var q := p[1..];
      assert NoSep(q) by {
        forall i | 0 <= i < |q| - 1 ensures !(q[i] == '\r' && q[i + 1] == '\n') {
          assert q[i] == p[i + 1] && q[i + 1] == p[i + 2];
        }
      }
      assert s[1..] == q + CRLF + rest;
      SplitAfter(q, rest);
      assert [p[0]] + q == p;
    }
  }

  /** A piece without the separator splits into itself alone. */
  lemma {:induction false} SplitSingle(p: string)
    requires NoSep(p)
    ensures SplitLines(p) == [p]
    decreases |p|
  {
    if |p| >= 2 {
      assert !(p[0] == '\r' && p[1] == '\n');
      var q := p[1..];
      assert NoSep(q) by {
        forall i | 0 <= i < |q| - 1 ensures !(q[i] == '\r' && q[i + 1] == '\n') {
          assert q[i] == p[i + 1] && q[i + 1] == p[i + 2];
        }
      }
      SplitSingle(q);
      assert [p[0]] + q == p;
    }
  }

  /** Splitting undoes joining: a non-empty sequence of separator-free pieces
      is recovered exactly from its joined text. */
  lemma {:induction false} SplitJoin(ls: seq<string>)
    requires |ls| >= 1
    requires forall k :: 0 <= k < |ls| ==> NoSep(ls[k])
    ensures SplitLines(JoinLines(ls)) == ls
    decreases |ls|
  {
    if |ls| == 1 {
      SplitSingle(ls[0]);
    } else {
      SplitJoin(ls[1..]);
      SplitAfter(ls[0], JoinLines(ls[1..]));
      assert [ls[0]] + ls[1..] == ls;
    }
  }

  /** Character class `[0-9]`. */
  predicate IsDigit(c: char) {
    '0' <= c <= '9'
  }

  predicate AllDigits(d: string) {
    forall i :: 0 <= i < |d| ==> IsDigit(d[i])
  }

  /** The longest prefix of `s` made of ASCII digits. */
  function DigitRun(s: string): (d: string)
    ensures StartsWith(s, d) && AllDigits(d)
    ensures |d| == |s| || !IsDigit(s[|d|])
  {
    if |s| == 0 || !IsDigit(s[0]) then "" else [s[0]] + DigitRun(s[1..])
  }

  /** What `.+` (greedy, any character but a line feed) can take from the
      start of `s`: the longest prefix without a line feed. */
  function RestOfLine(s: string): (v: string)
    ensures StartsWith(s, v)
    ensures forall i :: 0 <= i < |v| ==> v[i] != '\n'
    ensures |v| == |s| || s[|v|] == '\n'
  {
    if |s| == 0 || s[0] == '\n' then "" else [s[0]] + RestOfLine(s[1..])
  }

  /** `d.parse::<usize>()` for a string of digits, leading zeros allowed. */
  function DigitsValue(d: string): nat
    requires AllDigits(d)
  {
    if |d| == 0 then 0
    else DigitsValue(d[..|d| - 1]) * 10 + ((d[|d| - 1] as int) - ('0' as int))
  }

  function DigitChar(n: nat): (c: char)
    requires n < 10
    ensures IsDigit(c)
  {
    (('0' as int) + n) as char
  }

  /** `format!("{}", n)` for an unsigned integer: decimal, no leading zero. */
  function NatToString(n: nat): string {
    if n < 10 then [DigitChar(n)] else NatToString(n / 10) + [DigitChar(n % 10)]
  }

  /** Formatting an index and parsing it back gives the index; the text is a
      non-empty run of digits with no leading zero. */
  lemma {:induction false} NatToStringRoundTrip(n: nat)
    ensures var s := NatToString(n);
      |s| >= 1 && AllDigits(s) && DigitsValue(s) == n && (|s| > 1 ==> s[0] != '0')
  {
    var s := NatToString(n);
    if n >= 10 {
      NatToStringRoundTrip(n / 10);
      var t := NatToString(n / 10);
      assert s == t + [DigitChar(n % 10)];
      assert s[..|s| - 1] == t;
      assert s[0] == t[0];
    }
  }

  /** Strings without a line feed. */
  predicate NoNewline(v: string) {
    forall i :: 0 <= i < |v| ==> v[i] != '\n'
  }

  /** `RestOfLine` takes exactly a line-feed-free value when what follows it
      is the end of the text or a line feed. */
  lemma {:induction false} RestOfLineOf(v: string, tail: string)
    requires NoNewline(v)
    requires tail == [] || tail[0] == '\n'
    ensures RestOfLine(v + tail) == v
    decreases |v|
  {
    if |v| > 0 {
      assert (v + tail)[1..] == v[1..] + tail;
      RestOfLineOf(v[1..], tail);
      assert [v[0]] + v[1..] == v;
    } else {
      assert v + tail == tail;
    }
  }

  /** `DigitRun` takes exactly a run of digits when what follows it is not a
      digit. */
  lemma {:induction false} DigitRunOf(d: string, tail: string)
    requires AllDigits(d)
    requires tail == [] || !IsDigit(tail[0])
    ensures DigitRun(d + tail) == d
    decreases |d|
  {
    if |d| > 0 {
      assert (d + tail)[1..] == d[1..] + tail;
      DigitRunOf(d[1..], tail);
      assert [d[0]] + d[1..] == d;
    } else {
      assert d + tail == tail;
    }
  }
}
