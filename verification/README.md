# Phantom request filter — Dafny model

Phantom listens on a local port and, for each connection, makes one
decision. It reads the request once into a 4096-byte buffer and takes the
method and path from the request line. It splits the remaining lines into
headers and body, then loads the blocklist file `source/sensitive-paths.txt`.
If the path is exactly one of that file's lines, it replies with
`HTTP/1.1 401 Forbidden\r\n\r\n`; otherwise it replies with
`HTTP/1.1 200 OK\r\n\r\n`. No upstream connection is opened and nothing is
forwarded.

The model is functional and has three modules:

- `LineParser` (`line_parser.dfy`) — `get_first` (`GetFirst`), `get_parts`
  (`GetParts`, Rust's `split_whitespace` over the Unicode `White_Space`
  characters) and the line splitter the handler calls (`Lines`, with the
  semantics of Rust's `str::lines`).
- `SourceLoader` (`source_loader.dfy`) — `load_source` (`LoadSource`). The file
  is given as an `Unopenable` source or as the sequence of results of its line
  reads, so open and read failures are inputs.
- `Handler` (`handler.dfy`) — `handle_request`, which covers the buffer
  (`Fill`), ASCII decoding (`DecodeAscii`), the parse (`ParseRequest`, `Walk`),
  the decision (`Decide`) and the whole handler (`HandleRequest` on decoded
  text, `HandleReceived` on the received bytes). The outcome is one of three:
  a reply was written, the thread panicked on an index out of range, or
  loading the blocklist failed.

What the handler does, and does not do:

- It opens no upstream connection and relays nothing. It replies 200
  locally to every request whose path is not listed.
- It writes no error reply of its own. A request without a line, or whose
  first line has fewer than two tokens, makes the handler index out of range.
  The model has this as `Panicked`, and nothing is written.
- It reads once, at most 4096 bytes, and decodes the whole zero-filled
  buffer.
- It loads the blocklist again on every request, after the request line has
  been parsed. A load error ends that handler and writes no reply.

The handler calls `line_parser::get_all`, which `src/line_parser.rs` does
not define. The model assumes it splits the text into lines like `str::lines`
does. Lines end at `'\n'`, and one `'\r'` before that `'\n'` is dropped. A
final piece with no `'\n'` is kept as it is, even if it ends in `'\r'`. This
is the behaviour of current Rust. Older Rust releases also dropped a bare
trailing `'\r'`. `get_first` is not called by the handler. `src/main.rs` does
not declare `mod source_loader`, so `src/source_loader.rs` is an unused copy
of the `load_source` in `src/main.rs`. `LoadSource` models both.

## Model

| member | source | states |
|---|---|---|
| LineParser.GetFirst | src/line_parser.rs:1-5 | on a non-empty input (the empty input panics at `unwrap`), the result is a prefix of the input with no `'\n'`; it ends at the first `'\n'`, less one `'\r'` just before that `'\n'`, or it is the whole input when there is no `'\n'` |
| LineParser.Lines | src/main.rs:42 | no line contains `'\n'`; there is no line exactly when the text is empty |
| LineParser.LinesAfterLine | src/main.rs:42 | a line ended by `'\n'` is split off whole, less one trailing `'\r'`, and the rest of the text is split independently |
| LineParser.LinesOfUnterminated | src/main.rs:42 | a non-empty text with no `'\n'` is one line, kept verbatim |
| LineParser.LinesOfCrlfLines | src/main.rs:42 | round trip: any lines without `'\n'`, empty ones included, each ended by CRLF, split back into exactly those lines |
| LineParser.GetParts | src/line_parser.rs:7-10 | every token is non-empty and contains no whitespace character |
| LineParser.GetPartsIsFilteredSplit | src/line_parser.rs:8-9 | agrees with splitting at every whitespace character and dropping the empty pieces, the library's own definition of `split_whitespace` |
| LineParser.GetPartsKeepsText | src/line_parser.rs:8-9 | the tokens, concatenated in order, are exactly the line's non-whitespace characters in order: nothing is lost, repeated, reordered or overlapped |
| LineParser.GetPartsAtSeparator | src/line_parser.rs:8-9 | a whitespace character separates tokens: the tokens of `a c b` are those of `a` followed by those of `b` |
| LineParser.SingleToken | src/line_parser.rs:8 | a line yields exactly `[line]` if and only if it is non-empty and has no whitespace |
| LineParser.NoTokens | src/line_parser.rs:8 | a line yields no token if and only if it is empty or all whitespace |
| LineParser.GetPartsOfJoin | src/line_parser.rs:8-9 | round trip: tokens joined by single spaces tokenise back into the same tokens |
| LineParser.GetPartsIdempotent | src/line_parser.rs:8-9 | tokenising the space-joined tokens of a line gives the line's tokens again |
| SourceLoader.InsertLines | src/source_loader.rs:14-17 | the insert loop fails with a read error exactly when some line read fails; otherwise every line read becomes a key mapped to `true`, and the other keys keep their values |
| SourceLoader.LoadSource | src/main.rs:21-33 | an unopenable file gives `OpenError`; a failed line read gives `ReadError` and no partial table; otherwise the table is exactly the set of lines, verbatim, each mapped to `true` |
| SourceLoader.LineSetMembers | src/source_loader.rs:15-16 | a text is a key exactly when some line read produced that text |
| SourceLoader.LoadDependsOnlyOnLineSet | src/source_loader.rs:8-20 | two readable files with the same set of lines load the same table, whatever their order and repetitions |
| SourceLoader.LoadIgnoresRepetition | src/source_loader.rs:14-17 | listing every line twice loads the same table, or fails the same way |
| SourceLoader.LoadFileContent | src/main.rs:22-29 | a file read without error loads a table whose keys are exactly its lines, with no trimming beyond the line terminator, all mapped to `true`; an empty file loads an empty table |
| Handler.Walk | src/main.rs:51-70 | headers are exactly the lines before the first empty line, in order; the body is every non-empty line after it, each followed by `'\n'`; empty lines appear in neither |
| Handler.BodyLength | src/main.rs:65-66 | the body's length is the sum over its lines of the line length plus one |
| Handler.ParseRequest | src/main.rs:42-70 | the parse panics exactly when there is no line or the first line has fewer than two tokens; otherwise the method and path are tokens 0 and 1 of the first line verbatim, and headers and body are split from the lines after it |
| Handler.ParseRendered | src/main.rs:42-70 | round trip: a request line `method path version`, headers, an empty line and body lines, all CRLF-terminated, parse back into that method, path and headers, with the non-empty body lines each followed by `'\n'`; the request line is never a header |
| Handler.ParseUnterminated | src/main.rs:42-49 | a request line `method path` with no terminator parses into that method and path, with no headers and no body |
| Handler.Decide | src/main.rs:73-78 | the reply is the 401 text exactly when the path is a key of the table, and the 200 text exactly when it is not |
| Handler.HandleRequest | src/main.rs:42-78 | panics exactly when the parse does; if the parse succeeds and the blocklist cannot be loaded, the load error ends the handler; otherwise the reply is exactly `HTTP/1.1 401 Forbidden\r\n\r\n` if and only if the path is one of the blocklist's lines, and exactly `HTTP/1.1 200 OK\r\n\r\n` if and only if it is not |
| Handler.BlockedIffListed | src/main.rs:73-78 | for a well-formed request and a readable blocklist, the reply is 401 if and only if the path equals one of the blocklist's lines, and 200 if and only if it does not; an empty blocklist blocks nothing |
| Handler.LookupIsCaseSensitive | src/main.rs:76 | lookup is exact: a blocklist listing `/Admin` lets `/admin` through, and one listing `/admin` blocks it |
| Handler.Fill | src/main.rs:36-37 | the buffer is always 4096 bytes; it holds the received bytes that fit, followed by zeros |
| Handler.DecodeAscii | src/main.rs:39-40 | ASCII bytes decode one character per byte, with the same code |
| Handler.HandleReceived | src/main.rs:36-49 | as written: a request of fewer than 4096 bytes is handled as its text followed by NUL characters up to 4096; a longer one as the text of its first 4096 bytes |
| Handler.OnlyBufferIsExamined | src/main.rs:36-39 | only the first 4096 bytes count: two requests that agree on them are handled alike |
| LineParser.NewlineIndexOfPrefix | src/main.rs:42 | text appended after a `'\n'` does not move the first `'\n'` |
| LineParser.FirstLineOfPrefix | src/main.rs:42-44 | the first line of a text containing `'\n'` is unchanged by anything appended to it |
| Handler.HandleRequestByRequestLine | src/main.rs:42-78 | the outcome depends only on the first line: two texts with the same request line are handled alike, whatever their headers and body |
| Handler.AsWrittenAgreesWhenTerminated | src/main.rs:36-49 | as written, a request of fewer than 4096 bytes that contains a `'\n'` is handled exactly as its own text and as the corrected handler handles it: the padding then only forms extra lines after the request line |
| Handler.AsWrittenBlockedIffListed | src/main.rs:36-78 | as written, a well-formed CRLF request that fits in one read gets 401 if and only if its path is one of the blocklist's lines, and 200 if and only if it is not |
| Handler.UnterminatedPathEscapesBlocklist | src/main.rs:36-49 | as written, the 10 bytes `GET /admin` get a 200 reply even though `/admin` is listed |
| Handler.HandleReceivedFixed | src/main.rs:36-39 | corrected: the outcome is that of the received text itself, cut to its first 4096 bytes |
| Handler.FixedHandlesReceivedText | src/main.rs:36-39 | corrected: an ASCII request that fits in one read is handled as exactly the text the client sent |
| Handler.FixedBlocksUnterminatedPath | src/main.rs:36-49 | corrected: the 10 bytes `GET /admin` get the 401 reply when `/admin` is listed |

## Left out

- The TCP listener, its accept loop, the thread per connection and the error printing in `main` (src/main.rs:86-108). These are concurrency and I/O plumbing, and they make no decision.
- How many bytes the one `read` returns depends on the network. The model takes the bytes delivered as the parameter `incoming`, and `Fill` keeps at most 4096 of them.
- Socket `read`, `write` and `flush` errors (src/main.rs:37, 80-81). The received bytes are a parameter and the reply is a returned string; a failing read or write is not modelled.
- `File::open` and `BufReader` I/O. Its results are the `Source` parameter: either the file cannot be opened, or each line read yields a line or fails.
- UTF-8 decoding by `String::from_utf8_lossy`. The handler's core takes the decoded text as input.
- Handler.HandleReceived: covers only ASCII bytes, which decode to the character with the same code. Handling other bytes would need a UTF-8 decoder with replacement characters, and that decoder is not part of this model.
- Handler.HandleReceivedFixed: covers only ASCII bytes, for the same reason.
- Handler.OnlyBufferIsExamined: covers only ASCII bytes, for the same reason.
- Console logging of method and path (src/main.rs:72).
- `HashMap` internals. The table is a Dafny `map<string, bool>`.
- The blocklist file's path is a constant of the source. The file's content is a parameter.
- The reply text says `401 Forbidden`. That is the source's constant, even though 401 is Unauthorized in HTTP; the model keeps the text verbatim.

## Findings

| source | as written | input that shows it | evidently intended | confidence | as-written member | corrected member |
|---|---|---|---|---|---|---|
| src/main.rs:36-39 | the whole zero-initialised 4096-byte buffer is decoded, even though `read`'s count is ignored, so the unused zero bytes become NUL characters after the received text: glued to the request line when it has no `'\n'`, and a separate extra line when the text ends in `'\n'` (harmless then: Handler.AsWrittenAgreesWhenTerminated) | a client sends the 10 bytes `GET /admin` in one read while `/admin` is listed: the path token becomes `/admin` followed by 4086 NULs, and the reply is `200 OK` | decode only the bytes that the read returned, so that the path is `/admin` and the reply is 401 | medium; not executed | Handler.HandleReceived, Handler.UnterminatedPathEscapesBlocklist | Handler.HandleReceivedFixed, Handler.FixedHandlesReceivedText, Handler.FixedBlocksUnterminatedPath |
