# SAORI engine in Dafny

A model of the protocol engine of a SAORI plug-in (`mod saori` in
`src/lib.rs`). SAORI is the text protocol a desktop-mascot host uses to call
a plug-in: the host sends a request such as

    EXECUTE SAORI/1.0\r\nArgument0: hello\r\n\r\n

and the plug-in answers with a status line, a `Charset` line, a `Result`
line, `Value<i>` lines and a blank line. The engine has three parts, each a
module here:

- `Parser` (`parse_request`): splits the text on `\r\n`. A first line
  starting with `GET Version SAORI` is a version probe and every later line
  is ignored. A first line starting with `EXECUTE SAORI` is an execute
  request: each later line is tried, in this order, against
  `Argument<N>: <body>`, `Charset: <v>`, `Sender: <v>` and
  `SecurityLevel: <v>`, and updates the argument vector or one header; a
  line matching none of them is ignored. Any other first line is a protocol
  error. The pure fold `CollectExecute` is the
  specification; the method `ParseRequest` is the loop that updates the
  vector and the three strings in place, proved equal to it.
- `Serializer` (`make_response`): writes a response as wire text. The
  specification `ResponseText` joins the reply's lines. The method
  `MakeResponse` is the loop that appends one `Value<i>` line per value,
  proved equal to it. The lemmas then read the layout back from the text.
- `Saori` (`request`): parses, answers a version probe or a malformed
  request with a canned reply, and otherwise passes the request to the
  bundled handler `Implement.Request` and serializes its response.

`Text` models the pieces of Rust's string library the engine relies on:
`str::split`, `starts_with`, formatting and parsing an index, and the two
sub-patterns of the regular expressions. `Patterns` models the four regular
expressions as prefix, digit-run and rest-of-line checks. `WorkedCases`
states the model's replies to concrete requests: the repository's own test input,
its commented-out version-probe variant, and malformed, empty, one-argument,
sparse and rewritten requests.

The module comment of `Patterns` explains why these checks are exact. In
`[1-9]?[0-9]+` the index group always takes the whole digit run, because `:`
is not a digit. `.+` stops at a line feed and must capture something.

## Model

| member | source | states |
|---|---|---|
| Text.SplitLines | src/lib.rs:84 | `split("\r\n")` always yields at least one piece; joining the pieces with the separator gives the input back; no piece contains the separator |
| Text.SplitAfter | src/lib.rs:84-87 | a separator-free first line followed by the separator is the first piece, and the rest splits on its own |
| Text.SplitSingle | src/lib.rs:84 | a text without the separator is a single piece |
| Text.SplitJoin | src/lib.rs:84 | splitting undoes joining for separator-free pieces |
| Text.DigitRun | src/lib.rs:78 | the index group takes the longest prefix of digits |
| Text.RestOfLine | src/lib.rs:78-81 | `.+` takes the longest prefix without a line feed |
| Text.NatToStringRoundTrip | src/lib.rs:69 | `NatToString` (`format!` of an index) and `DigitsValue` (`parse::<usize>()` of a digit run, src/lib.rs:110): the decimal text of an index is a non-empty digit run with no leading zero, and parsing it gives the index back |
| Text.RestOfLineOf | src/lib.rs:78-81 | a line-feed-free value followed by the end or a line feed is captured exactly |
| Text.DigitRunOf | src/lib.rs:78 | a digit run followed by a non-digit is taken exactly |
| Patterns.Classify | src/lib.rs:108-126 | specification function of the `if let` chain; characterised by `ClassifyByPattern` and `PatternsDisjoint` |
| Patterns.MatchField | src/lib.rs:79-81 | a header capture is non-empty and free of line feeds |
| Patterns.MatchArgument | src/lib.rs:78 | an argument body is non-empty and free of line feeds |
| Patterns.HeaderMatchOf | src/lib.rs:79-81 | completeness: prefix, value, then end or line feed matches with exactly that value |
| Patterns.HeaderMatchShape | src/lib.rs:79-81 | soundness: a matching line is prefix, captured value, then end or line feed |
| Patterns.ArgumentMatchOf | src/lib.rs:78 | completeness: `Argument`, digits, `: `, body, then end or line feed matches with the digits' value and that body |
| Patterns.ArgumentMatchShape | src/lib.rs:78 | soundness: a matching line is exactly `Argument`, the digit run whose value is the index, `: `, the body, then end or line feed |
| Patterns.PatternsDisjoint | src/lib.rs:78-81 | no line matches two of the four patterns |
| Patterns.ClassifyByPattern | src/lib.rs:108-126 | the `if let` chain gives whichever pattern matches; a line is ignored exactly when no pattern matches |
| Parser.Resize | src/lib.rs:113-115 | `Vec::resize`: the new length, with old elements kept and new ones filled |
| Parser.SetArgument | src/lib.rs:113-116 | the vector grows to `index + 1` only when shorter; slot `index` gets the body; every other slot is kept or is empty |
| Parser.ApplyMatch | src/lib.rs:108-126 | specification function of one pass of the loop body; characterised by `CollectArgumentSlot`, `CollectHeader` and `UnmatchedIgnored` |
| Parser.CollectExecute | src/lib.rs:106-127 | specification function of the `for line in lines` loop; characterised by `CollectSnoc`, `CollectArgumentsLength`, `CollectArgumentSlot`, `CollectHeader` and `UnmatchedLineIgnored` |
| Parser.Parse | src/lib.rs:77-140 | specification function of the value `parse_request` returns; characterised by `FirstLineDecides` and `SingleLine`, and equal to `ParseRequest`'s result |
| Parser.CollectSnoc | src/lib.rs:106-127 | reading one more line applies that line to the request built so far |
| Parser.ParseRequest | src/lib.rs:77-140 | the in-place loop returns exactly `Parse(input)` |
| Parser.CollectArgumentsLength | src/lib.rs:108-117 | the vector holds every written slot and ends at the highest written index; it is empty when nothing is written |
| Parser.CollectArgumentSlot | src/lib.rs:106-117 | each slot holds the body of the last line writing it; unwritten slots are empty |
| Parser.CollectHeader | src/lib.rs:118-135 | the kind is `Execute`; each header holds the value of the last line setting it, or is empty |
| Parser.UnmatchedIgnored | src/lib.rs:106-127 | a classified line matching no pattern can be removed anywhere without changing the request |
| Parser.UnmatchedLineIgnored | src/lib.rs:106-127 | the same for the text lines |
| Parser.ArgumentsNoNewline | src/lib.rs:108-116 | when no captured body holds a line feed, no slot of the argument vector does: each is a body or the empty padding |
| Parser.ExecuteArgumentsNoNewline | src/lib.rs:78-117 | the argument vector built from any lines is free of line feeds, since `.+` never captures one |
| Parser.FirstLineDecides | src/lib.rs:94-139 | only the first line decides: an error (with the fixed message) exactly when it has neither prefix; a probe ignores later lines; an execute request is built from later lines only |
| Parser.SingleLine | src/lib.rs:84-139 | one-line requests give the same outcomes; the empty input is an error |
| Serializer.StatusText | src/lib.rs:61-65 | specification function of the status table; `ResponseLayout` reads it back as the first line and `ResponseTextInjective` shows it determines the kind |
| Serializer.ResponseText | src/lib.rs:60-74 | specification function of the reply text; characterised by `ResponseLayout`, `ResponseFrame` and `ResponseTextInjective`, and equal to `MakeResponse`'s result |
| Serializer.ValueLines | src/lib.rs:68-71 | one value line per value |
| Serializer.HeadText | src/lib.rs:67 | the header text is the status line, the charset line and the `Result` line, each terminated |
| Serializer.ResponseTextParts | src/lib.rs:67-72 | the reply is the header text, the terminated value lines and a blank line |
| Serializer.MakeResponse | src/lib.rs:60-74 | the appending loop returns exactly `ResponseText(input)` |
| Serializer.ResponseLayout | src/lib.rs:60-74 | for a result and values free of `\r\n`, split back into lines, the reply is: status from the table, `Charset: Shift_JIS`, `Result: <result>` (for every kind), `Value<i>: <values[i]>` in order, and a blank line |
| Serializer.ResponseFrame | src/lib.rs:67-72 | the reply starts with the three header lines and ends with `\r\n\r\n` |
| Serializer.ResponseTextInjective | src/lib.rs:60-74 | responses whose result and values contain no `\r\n` give different texts (without that condition two responses can share a text) |
| Serializer.ResponseTextCollision | src/lib.rs:67-72 | the `\r\n`-free condition cannot be dropped: an `Ok` response with no values and the result `a\r\nValue0: x` is written exactly like one with the result `a` and the value `x` |
| Implement.Request | src/lib.rs:146-162 | `Ok` exactly when an argument exists, with the first argument as the result and the values `test1`, `test2`; otherwise `BadRequest` with an empty result and no values; never `InternalServerError` |
| Saori.Request | src/lib.rs:36-57 | specification function of `request`; characterised by `RequestOutcome`, `ExecuteRequest` and `ExecuteReply` |
| Saori.RequestOutcome | src/lib.rs:36-57 | the canned 400 reply comes exactly from a parse error, the canned 200 reply exactly from a version probe, and every other reply from serializing the handler's response |
| Saori.EchoText | src/lib.rs:60-74 | the handler's `Ok` response serializes to the 200 reply with the result and `Value0: test1`, `Value1: test2` |
| Saori.NoArgumentText | src/lib.rs:60-74 | the handler's `BadRequest` response serializes to a 400 reply with an empty `Result` line |
| Saori.ExecuteRequest | src/lib.rs:41-51 | any input whose first line starts with `EXECUTE SAORI`, one without a line break included, is answered by serializing the handler's response to the request built from its later lines |
| Saori.ParsedResponseNoSep | src/lib.rs:41-51 | the handler's response to any parsed request has a result and values free of `\r\n`, so `ResponseLayout` and `ResponseTextInjective` apply to every reply the engine serializes |
| Saori.AnyArgumentIffArguments | src/lib.rs:108-117 | the argument vector is non-empty exactly when some argument line was recognised |
| Saori.ExecuteReply | src/lib.rs:36-57 | end to end, for any input whose first line starts with `EXECUTE SAORI`: without an argument line the reply is a 400 with an empty `Result`; otherwise a 200 echoing the last `Argument0` body, or an empty text when slot 0 was never written |
| WorkedCases.TestInputReply | src/lib.rs:226 | the repository's test input parses with charset `Shift_JIS`, sender `Test`, no arguments, and gets the 400 reply with an empty `Result` |
| WorkedCases.ProbeInputReply | src/lib.rs:225 | the version probe with headers gets the canned 200 reply |
| WorkedCases.MalformedReply | src/lib.rs:53-56 | `FOO BAR` and the empty input get the canned 400 reply |
| WorkedCases.EmptyExecuteReply | src/lib.rs:148-160 | an execute request without lines gets a 400 with an empty `Result` |
| WorkedCases.HelloReply | src/lib.rs:148-153 | `Argument0: hello` is echoed in a 200 reply |
| WorkedCases.SparseReply | src/lib.rs:113-116 | `Argument2: x` alone gives the vector `["", "", "x"]` and a 200 reply with an empty result |
| WorkedCases.RewriteReply | src/lib.rs:116 | writing slot 0 twice keeps the later body |

## Left out

- The exported C functions `load`, `unload` and `request` (src/lib.rs:173-219) are not modelled. They free and allocate Windows global memory, convert between Shift_JIS and Unicode with `encoding_rs`, and compute a buffer length. The model starts from the decoded request text and ends at the reply text.
- The character encoding is not modelled. Text is a sequence of Unicode characters, and the literal `Shift_JIS` in the charset line is just text.
- The `regex` crate is not modelled. Each of the four patterns is written as the prefix, digit-run and rest-of-line check it amounts to; `Patterns.HeaderMatchOf`, `Patterns.HeaderMatchShape`, `Patterns.ArgumentMatchOf` and `Patterns.ArgumentMatchShape` state what those checks accept.
- Patterns.MatchArgument: the index is an unbounded `nat`. `c["index"].parse::<usize>().unwrap()` panics on an index that overflows `usize`, and `index + 1` can overflow too; the model gives such lines their mathematical index instead of aborting.
- Parser.Resize: the model grows the sequence to any length. The source's `args.resize(index+1, String::new())` (src/lib.rs:113-114) panics with a capacity overflow, or aborts when the allocation fails, for a huge index that still fits in `usize`, such as `Argument1000000000000000000: x`; the model answers such a request instead.
- Parser.SetArgument: for the same reason, a write to a huge slot always succeeds in the model, while the source panics or aborts and returns no reply.
- The `#[test]` function prints its reply (src/lib.rs:222-228). The model states that reply as the lemma `WorkedCases.TestInputReply` and has no printing.
- The serializer writes the `Result` line for every kind of response, `BadRequest` included (src/lib.rs:67). The model follows the code.
