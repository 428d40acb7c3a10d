/** `handle_request`: one read of the client's bytes into a zero-filled
    4096-byte buffer, the request line's method and path, the header/body
    split of the remaining lines, and the local reply — 401 when the path is a
    key of the blocklist table, 200 otherwise. No upstream connection is made. */
module Handler {
  import opened LineParser
  import opened SourceLoader

  /** `REQUEST_BUFF`: size of the one read of a request. */
  const RequestBuff: nat := 4096

  const OkResponse: string := "HTTP/1.1 200 OK\r\n\r\n"
  const ForbiddenResponse: string := "HTTP/1.1 401 Forbidden\r\n\r\n"

  newtype byte = b: int | 0 <= b < 256

  datatype Option<T> = None | Some(value: T)

  datatype Request = Request(requestMethod: string, path: string, headers: seq<string>, body: string)

  /** What became of one connection: a reply was written, the handling thread
      panicked on an index out of range (nothing is written), or loading the
      blocklist failed and the error ended the handler (nothing is written). */
  datatype Outcome = Replied(response: string) | Panicked | Aborted(error: IoError)

  // ---------------------------------------------------------------------------
  // Header/body split
  // ---------------------------------------------------------------------------

  /** Position of the first empty line, or `|lines|` when there is none. */
  function FirstEmpty(lines: seq<string>): (k: nat)
    ensures k <= |lines|
    ensures k < |lines| ==> lines[k] == ""
    ensures forall j :: 0 <= j < k ==> lines[j] != ""
  {
    if |lines| == 0 || lines[0] == "" then 0 else 1 + FirstEmpty(lines[1..])
  }

  datatype Sections = Sections(headers: seq<string>, body: string)

  /** The source's loop over the lines after the request line: an empty line
      switches to body mode and is dropped; before it a line is a header,
      after it a line is appended to the body followed by '\n'. `isBody`,
      `headers` and `body` are the loop's variables.

      Result: the headers are exactly the lines before the first empty line,
      in order; the body holds every non-empty line after it, each followed
      by '\n'. */
  function Walk(lines: seq<string>, isBody: bool, headers: seq<string>, body: string): (r: Sections)
    ensures isBody ==> r.headers == headers
    ensures !isBody ==> r.headers == headers + lines[..FirstEmpty(lines)]
    ensures r.body == body + EachFollowedBy(DropEmpty(if isBody then lines else lines[FirstEmpty(lines)..]), "\n")
    decreases |lines|
  {
    if |lines| == 0 then Sections(headers, body)
    else if lines[0] == "" then
      assert DropEmpty(lines) == DropEmpty(lines[1..]);
      assert lines[FirstEmpty(lines)..] == lines;
      Walk(lines[1..], true, headers, body)
    else if isBody then
      Walk(lines[1..], true, headers, body + lines[0] + "\n")
    else
      var r := Walk(lines[1..], false, headers + [lines[0]], body);
      assert lines[..FirstEmpty(lines)] == [lines[0]] + lines[1..][..FirstEmpty(lines[1..])];
      assert lines[FirstEmpty(lines)..] == lines[1..][FirstEmpty(lines[1..])..];
      r
  }

  /** Sum of `|l| + 1` over the lines. */
  function TerminatedLength(lines: seq<string>): nat {
    if |lines| == 0 then 0 else |lines[0]| + 1 + TerminatedLength(lines[1..])
  }

  /** The body is as long as its lines plus one '\n' each. */
  lemma {:induction false} BodyLength(lines: seq<string>)
    ensures |EachFollowedBy(lines, "\n")| == TerminatedLength(lines)
  {
    if |lines| > 0 {
      BodyLength(lines[1..]);
    }
  }

  // ---------------------------------------------------------------------------
  // Request analysis and decision
  // ---------------------------------------------------------------------------

  /** Lines, request line tokens, headers and body of the decoded request.
      `None` is the panic of `request_lines[0]` (no line at all) or of
      `request_line_parts[0]` / `[1]` (fewer than two tokens). Method and path
      are tokens 0 and 1 of the first line, verbatim; the request line is
      never a header or part of the body. */
  function ParseRequest(text: string): (r: Option<Request>)
    ensures r.None? <==> |Lines(text)| == 0 || |GetParts(Lines(text)[0])| < 2
    ensures r.Some? ==>
      var lines := Lines(text);
      var rest := lines[1..];
      && [r.value.requestMethod, r.value.path] == GetParts(lines[0])[..2]
      && r.value.headers == rest[..FirstEmpty(rest)]
      && r.value.body == EachFollowedBy(DropEmpty(rest[FirstEmpty(rest)..]), "\n")
  {
    var lines := Lines(text);
    if |lines| == 0 then None
    else
      var parts := GetParts(lines[0]);
      if |parts| < 2 then None
      else
        var sections := Walk(lines[1..], false, [], "");
        Some(Request(parts[0], parts[1], sections.headers, sections.body))
  }

  /** The reply for a path: 401 exactly for a key of the table. */
  function Decide(path: string, table: map<string, bool>): (response: string)
    ensures response == ForbiddenResponse <==> path in table
    ensures response == OkResponse <==> path !in table
  {
    if path in table then ForbiddenResponse else OkResponse
  }

  /** `handle_request` on the decoded request text. The request is parsed
      first (a panic there ends the thread before the blocklist is read);
      then the blocklist is loaded afresh and its error, if any, ends the
      handler; otherwise the reply is 401 exactly when the path is, verbatim
      and case-sensitively, one of the blocklist's lines, and 200 otherwise. */
  function HandleRequest(text: string, source: Source): (r: Outcome)
    ensures r.Panicked? <==> ParseRequest(text).None?
    ensures r.Aborted? <==> ParseRequest(text).Some? && LoadSource(source).Failed?
    ensures r.Aborted? ==> (r.error == OpenError <==> source.Unopenable?)
    ensures r == Replied(ForbiddenResponse) <==>
      && ParseRequest(text).Some?
      && source.Opened? && AllReadable(source.items)
      && ParseRequest(text).value.path in LineSet(source.items)
    ensures r == Replied(OkResponse) <==>
      && ParseRequest(text).Some?
      && source.Opened? && AllReadable(source.items)
      && ParseRequest(text).value.path !in LineSet(source.items)
  {
    match ParseRequest(text)
    case None => Panicked
    case Some(request) =>
      match LoadSource(source)
      case Failed(e) => Aborted(e)
      case Loaded(table) => Replied(Decide(request.path, table))
  }

  /** A well-formed request text: the request line `method path version`,
      the headers, an empty line and the body lines, each line ended by CRLF. */
  function RenderRequest(requestMethod: string, path: string, version: string,
                         headers: seq<string>, bodyLines: seq<string>): string
  {
    EachFollowedBy([JoinSpace([requestMethod, path, version])] + (headers + [""] + bodyLines), "\r\n")
  }

  lemma FirstEmptyAfterHeaders(headers: seq<string>, bodyLines: seq<string>)
    requires forall k :: 0 <= k < |headers| ==> headers[k] != ""
    ensures FirstEmpty(headers + [""] + bodyLines) == |headers|
  {
    var lines := headers + [""] + bodyLines;
    assert lines[|headers|] == "";
    assert forall j :: 0 <= j < |headers| ==> lines[j] == headers[j];
  }

  /** The request line of a rendered request holds no '\n' and tokenises
      back into its three tokens. */
  lemma RequestLineTokens(requestMethod: string, path: string, version: string)
    requires IsToken(requestMethod) && IsToken(path) && IsToken(version)
    ensures '\n' !in JoinSpace([requestMethod, path, version])
    ensures GetParts(JoinSpace([requestMethod, path, version])) == [requestMethod, path, version]
  {
    GetPartsOfJoin([requestMethod, path, version]);
    TokenHasNoNewline(requestMethod);
    TokenHasNoNewline(path);
    TokenHasNoNewline(version);
    var parts := [requestMethod, path, version];
    assert parts[1..] == [path, version] && parts[1..][1..] == [version];
    assert JoinSpace([path, version]) == path + " " + version;
    assert JoinSpace(parts) == requestMethod + " " + JoinSpace([path, version]);
  }

  /** The lines after the request line of a rendered request split into its
      headers and its non-empty body lines. */
  lemma WalkRendered(headers: seq<string>, bodyLines: seq<string>)
    requires forall k :: 0 <= k < |headers| ==> headers[k] != ""
    ensures Walk(headers + [""] + bodyLines, false, [], "")
         == Sections(headers, EachFollowedBy(DropEmpty(bodyLines), "\n"))
  {
    var rest := headers + [""] + bodyLines;
    FirstEmptyAfterHeaders(headers, bodyLines);
    assert rest[..|headers|] == headers;
    assert rest[|headers|..] == [""] + bodyLines;
    assert DropEmpty([""] + bodyLines) == DropEmpty(bodyLines) by {
      assert ([""] + bodyLines)[1..] == bodyLines;
    }
  }

  /** Round trip: parsing a well-formed request text gives back its method,
      path and headers, and its non-empty body lines each ended by '\n'. */
  lemma ParseRendered(requestMethod: string, path: string, version: string,
                      headers: seq<string>, bodyLines: seq<string>)
    requires IsToken(requestMethod) && IsToken(path) && IsToken(version)
    requires forall k :: 0 <= k < |headers| ==> headers[k] != "" && '\n' !in headers[k]
    requires forall k :: 0 <= k < |bodyLines| ==> '\n' !in bodyLines[k]
    ensures ParseRequest(RenderRequest(requestMethod, path, version, headers, bodyLines))
         == Some(Request(requestMethod, path, headers, EachFollowedBy(DropEmpty(bodyLines), "\n")))
  {
    var requestLine := JoinSpace([requestMethod, path, version]);
    var rest := headers + [""] + bodyLines;
    var lines := [requestLine] + rest;
    var text := RenderRequest(requestMethod, path, version, headers, bodyLines);
    RequestLineTokens(requestMethod, path, version);
    RenderedLinesHaveNoNewline(requestLine, headers, bodyLines);
    assert forall k :: 0 <= k < |lines| ==> '\n' !in lines[k];
    LinesOfCrlfLines(lines);
    assert Lines(text) == lines;
    assert lines[0] == requestLine;
    assert lines[1..] == rest;
    WalkRendered(headers, bodyLines);
    var parts := GetParts(lines[0]);
    assert parts == [requestMethod, path, version];
    var sections := Walk(lines[1..], false, [], "");
    assert sections == Sections(headers, EachFollowedBy(DropEmpty(bodyLines), "\n"));
    assert ParseRequest(text) == Some(Request(parts[0], parts[1], sections.headers, sections.body));
  }

  lemma RenderedLinesHaveNoNewline(requestLine: string, headers: seq<string>, bodyLines: seq<string>)
    requires '\n' !in requestLine
    requires forall k :: 0 <= k < |headers| ==> '\n' !in headers[k]
    requires forall k :: 0 <= k < |bodyLines| ==> '\n' !in bodyLines[k]
    ensures var lines := [requestLine] + (headers + [""] + bodyLines);
      forall k :: 0 <= k < |lines| ==> '\n' !in lines[k]
  {
  }

  /** For a well-formed request, 401 exactly when its path is one of the
      blocklist's lines; in particular an empty blocklist blocks nothing. */
  lemma BlockedIffListed(requestMethod: string, path: string, version: string,
                         headers: seq<string>, bodyLines: seq<string>, lines: seq<string>)
    requires IsToken(requestMethod) && IsToken(path) && IsToken(version)
    requires forall k :: 0 <= k < |headers| ==> headers[k] != "" && '\n' !in headers[k]
    requires forall k :: 0 <= k < |bodyLines| ==> '\n' !in bodyLines[k]
    ensures var text := RenderRequest(requestMethod, path, version, headers, bodyLines);
      && (HandleRequest(text, Opened(ItemsOf(lines))) == Replied(ForbiddenResponse) <==> path in lines)
      && (HandleRequest(text, Opened(ItemsOf(lines))) == Replied(OkResponse) <==> path !in lines)
  {
    ParseRendered(requestMethod, path, version, headers, bodyLines);
    LineSetMembers(ItemsOf(lines), path);
    if path in lines {
      var k :| 0 <= k < |lines| && lines[k] == path;
      assert ItemsOf(lines)[k] == Line(path);
    }
  }

  /** Blocklist lookup is exact and case-sensitive: `/Admin` listed does not
      block `/admin`, while `/admin` listed does. */
  lemma LookupIsCaseSensitive()
    ensures HandleRequest(RenderRequest("GET", "/admin", "HTTP/1.1", [], []), Opened([Line("/Admin")]))
         == Replied(OkResponse)
    ensures HandleRequest(RenderRequest("GET", "/admin", "HTTP/1.1", [], []), Opened([Line("/admin")]))
         == Replied(ForbiddenResponse)
  {
    assert IsToken("GET") && IsToken("/admin") && IsToken("HTTP/1.1");
    BlockedIffListed("GET", "/admin", "HTTP/1.1", [], [], ["/Admin"]);
    BlockedIffListed("GET", "/admin", "HTTP/1.1", [], [], ["/admin"]);
    assert ItemsOf(["/Admin"]) == [Line("/Admin")];
    assert ItemsOf(["/admin"]) == [Line("/admin")];
  }

  // ---------------------------------------------------------------------------
  // The request buffer
  // ---------------------------------------------------------------------------

  /** The buffer after the one `read`: the zero-initialised 4096 bytes with
      as many of the incoming bytes as fit written over its start. */
  function Fill(incoming: seq<byte>): (buffer: seq<byte>)
    ensures |buffer| == RequestBuff
    ensures forall j :: 0 <= j < RequestBuff ==> buffer[j] == if j < |incoming| then incoming[j] else 0
  {
    if |incoming| >= RequestBuff then incoming[..RequestBuff]
    else incoming + seq(RequestBuff - |incoming|, _ => 0)
  }

  predicate IsAscii(bytes: seq<byte>) {
    forall j :: 0 <= j < |bytes| ==> bytes[j] < 128
  }

  /** `String::from_utf8_lossy` on ASCII bytes: each byte is the character
      with that code. */
  function DecodeAscii(bytes: seq<byte>): (text: string)
    requires IsAscii(bytes)
    ensures |text| == |bytes|
    ensures forall j :: 0 <= j < |bytes| ==> text[j] as int == bytes[j] as int
  {
    seq(|bytes|, j requires 0 <= j < |bytes| => bytes[j] as int as char)
  }

  /** The bytes of an ASCII text (how a client sends it). */
  function EncodeAscii(text: string): (bytes: seq<byte>)
    requires forall j :: 0 <= j < |text| ==> text[j] as int < 128
    ensures IsAscii(bytes)
    ensures |bytes| == |text|
  {
    seq(|text|, j requires 0 <= j < |text| => text[j] as int as byte)
  }

  lemma DecodeEncode(text: string)
    requires forall j :: 0 <= j < |text| ==> text[j] as int < 128
    ensures DecodeAscii(EncodeAscii(text)) == text
  {
  }

  /** `handle_request` as written: the whole 4096-byte buffer is decoded, so
      when fewer bytes arrive the unused zero bytes become NUL characters
      after the received text — glued to its last line when that line has no
      terminator, or forming a new last line when the text ends in '\n'. A
      longer request is cut to its first 4096 bytes. */
  function HandleReceived(incoming: seq<byte>, source: Source): (r: Outcome)
    requires IsAscii(incoming)
    ensures |incoming| < RequestBuff ==>
      r == HandleRequest(DecodeAscii(incoming) + seq(RequestBuff - |incoming|, _ => '\0'), source)
    ensures |incoming| >= RequestBuff ==>
      r == HandleRequest(DecodeAscii(incoming[..RequestBuff]), source)
  {
    var text := DecodeAscii(Fill(incoming));
    assert |incoming| < RequestBuff ==>
      text == DecodeAscii(incoming) + seq(RequestBuff - |incoming|, _ => '\0');
    HandleRequest(text, source)
  }

  /** At most `REQUEST_BUFF` bytes are examined: requests that agree on their
      first 4096 bytes are handled alike. */
  lemma OnlyBufferIsExamined(a: seq<byte>, b: seq<byte>, source: Source)
    requires IsAscii(a) && IsAscii(b)
    requires |a| >= RequestBuff && |b| >= RequestBuff
    requires a[..RequestBuff] == b[..RequestBuff]
    ensures HandleReceived(a, source) == HandleReceived(b, source)
  {
  }

  /** A request line `method path` with no line terminator parses into that
      method and path, with no headers and an empty body. */
  lemma ParseUnterminated(requestMethod: string, path: string)
    requires IsToken(requestMethod) && IsToken(path)
    ensures ParseRequest(requestMethod + " " + path) == Some(Request(requestMethod, path, [], ""))
  {
    var text := requestMethod + " " + path;
    assert text == requestMethod + [' '] + path;
    TokenHasNoNewline(requestMethod);
    TokenHasNoNewline(path);
    LinesOfUnterminated(text);
    GetPartsAtSeparator(requestMethod, ' ', path);
    SingleToken(requestMethod);
    SingleToken(path);
  }

  /** As written, a request line without any line terminator gets the
      buffer's NUL padding glued to its last token: the 10 bytes `GET /admin`
      yield the path `/admin` followed by 4086 NULs, so `/admin` passes a
      blocklist that lists it. */
  lemma UnterminatedPathEscapesBlocklist()
    ensures HandleReceived(EncodeAscii("GET /admin"), Opened([Line("/admin")])) == Replied(OkResponse)
  {
    var nuls: string := seq(RequestBuff - 10, _ => '\0');
    DecodeEncode("GET /admin");
    ParsePaddedGetAdmin(nuls);
    assert |"/admin" + nuls| != |"/admin"|;
    assert LineSet([Line("/admin")]) == {"/admin"};
  }

  /** `GET /admin` followed by NULs parses with the NULs inside the path. */
  lemma ParsePaddedGetAdmin(nuls: string)
    requires forall j :: 0 <= j < |nuls| ==> nuls[j] == '\0'
    ensures ParseRequest("GET /admin" + nuls) == Some(Request("GET", "/admin" + nuls, [], ""))
  {
    var path := "/admin" + nuls;
    assert "GET /admin" + nuls == "GET" + " " + path;
    assert IsToken("GET") && IsToken("/admin");
    assert IsToken(path) by {
      forall j | 0 <= j < |path|
        ensures !IsWhitespace(path[j])
      {
        if j >= 6 {
          assert path[j] == nuls[j - 6];
        }
      }
    }
    ParseUnterminated("GET", path);
  }

  /** Corrected handler: decode only the bytes the read returned. The reply
      then depends on exactly the received request text. */
  function HandleReceivedFixed(incoming: seq<byte>, source: Source): (r: Outcome)
    requires IsAscii(incoming)
    ensures |incoming| <= RequestBuff ==> r == HandleRequest(DecodeAscii(incoming), source)
    ensures |incoming| > RequestBuff ==> r == HandleRequest(DecodeAscii(incoming[..RequestBuff]), source)
  {
    var n := if |incoming| < RequestBuff then |incoming| else RequestBuff;
    var buffer := Fill(incoming);
    assert buffer[..n] == incoming[..n];
    assert n == |incoming| ==> incoming[..n] == incoming;
    HandleRequest(DecodeAscii(buffer[..n]), source)
  }

  /** The outcome depends only on the request line: headers and body never
      change it. */
  lemma HandleRequestByRequestLine(a: string, b: string, source: Source)
    requires |Lines(a)| > 0 && |Lines(b)| > 0
    requires Lines(a)[0] == Lines(b)[0]
    ensures HandleRequest(a, source) == HandleRequest(b, source)
  {
  }

  /** The padding is harmless once the request line is terminated: as
      written, a request that fits in one read and contains a '\n' is handled
      exactly as the corrected handler handles it, so the blocklist decision
      is that of the text the client sent. */
  lemma AsWrittenAgreesWhenTerminated(incoming: seq<byte>, source: Source)
    requires IsAscii(incoming) && |incoming| < RequestBuff
    requires '\n' in DecodeAscii(incoming)
    ensures HandleReceived(incoming, source) == HandleReceivedFixed(incoming, source)
    ensures HandleReceived(incoming, source) == HandleRequest(DecodeAscii(incoming), source)
  {
    var text := DecodeAscii(incoming);
    var nuls: string := seq(RequestBuff - |incoming|, _ => '\0');
    FirstLineOfPrefix(text, nuls);
    HandleRequestByRequestLine(text + nuls, text, source);
  }

  /** As written, a well-formed CRLF request that fits in one read is refused
      exactly when its path is one of the blocklist's lines. */
  lemma AsWrittenBlockedIffListed(requestMethod: string, path: string, version: string,
                                  headers: seq<string>, bodyLines: seq<string>, lines: seq<string>)
    requires IsToken(requestMethod) && IsToken(path) && IsToken(version)
    requires forall k :: 0 <= k < |headers| ==> headers[k] != "" && '\n' !in headers[k]
    requires forall k :: 0 <= k < |bodyLines| ==> '\n' !in bodyLines[k]
    requires var text := RenderRequest(requestMethod, path, version, headers, bodyLines);
      |text| < RequestBuff && forall j :: 0 <= j < |text| ==> text[j] as int < 128
    ensures var incoming := EncodeAscii(RenderRequest(requestMethod, path, version, headers, bodyLines));
      && (HandleReceived(incoming, Opened(ItemsOf(lines))) == Replied(ForbiddenResponse) <==> path in lines)
      && (HandleReceived(incoming, Opened(ItemsOf(lines))) == Replied(OkResponse) <==> path !in lines)
  {
    var requestLine := JoinSpace([requestMethod, path, version]);
    var rest := headers + [""] + bodyLines;
    var text := RenderRequest(requestMethod, path, version, headers, bodyLines);
    assert text == requestLine + "\r\n" + EachFollowedBy(rest, "\r\n") by {
      assert ([requestLine] + rest)[1..] == rest;
    }
    assert text[|requestLine| + 1] == '\n';
    DecodeEncode(text);
    AsWrittenAgreesWhenTerminated(EncodeAscii(text), Opened(ItemsOf(lines)));
    BlockedIffListed(requestMethod, path, version, headers, bodyLines, lines);
  }

  /** With the correction, a request sent in one read of at most 4096 bytes
      is handled as exactly the text the client sent. */
  lemma FixedHandlesReceivedText(text: string, source: Source)
    requires forall j :: 0 <= j < |text| ==> text[j] as int < 128
    requires |text| <= RequestBuff
    ensures HandleReceivedFixed(EncodeAscii(text), source) == HandleRequest(text, source)
  {
    DecodeEncode(text);
  }

  lemma ParseGetAdmin()
    ensures ParseRequest("GET /admin") == Some(Request("GET", "/admin", [], ""))
  {
    assert IsToken("GET") && IsToken("/admin");
    assert "GET /admin" == "GET" + " " + "/admin";
    ParseUnterminated("GET", "/admin");
  }

  /** With the correction, the unterminated request for a listed path is refused. */
  lemma FixedBlocksUnterminatedPath()
    ensures HandleReceivedFixed(EncodeAscii("GET /admin"), Opened([Line("/admin")])) == Replied(ForbiddenResponse)
  {
    var source := Opened([Line("/admin")]);
    FixedHandlesReceivedText("GET /admin", source);
    ParseGetAdmin();
    assert LineSet(source.items) == {"/admin"};
  }
}
