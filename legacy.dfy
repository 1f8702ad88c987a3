/** The earlier, single-file server (src/main.rs), independent of the
    framework: its own status codes and content types, the `respond`
    serializer, the line loop of `parse_request` over already-decoded text,
    and the branch chain of `handle_connection` with the file system taken as
    an input. The request-line and User-Agent handling is the same code as
    the framework's parser and is shared with it. */
module LegacyServer {
  import opened Options
  import opened Text
  import Http
  import R = HttpRequest
  import HR = HttpResponse

  /** The status codes of the single-file server (no 500). */
  datatype HttpCode = Ok200 | Ok201 | Err404

  /** `ContentType::None` is `NoType` here. */
  datatype ContentType = TextPlain | OctetStream | NoType

  /** The framework code with the same meaning. */
  function SharedCode(c: HttpCode): Http.HttpCode {
    match c
    case Ok200 => Http.Ok200
    case Ok201 => Http.Ok201
    case Err404 => Http.Err404
  }

  /** The framework content type with the same meaning. */
  function SharedType(t: ContentType): Http.ContentType {
    match t
    case TextPlain => Http.TextPlain
    case OctetStream => Http.OctetStream
    case NoType => Http.NoType
  }

  /** `Display` for this file's `HttpCode`: the framework's status line for
      the same code, code for code. */
  function CodeLine(c: HttpCode): (r: string)
    ensures r == Http.CodeLine(SharedCode(c))
    ensures r == Http.StatusText(SharedCode(c)) + Http.LineEnd
  {
    match c
    case Ok200 => assert Http.StatusText(Http.Ok200) == "200 Ok"; "200 Ok\r\n"
    case Ok201 => assert Http.StatusText(Http.Ok201) == "201 Created"; "201 Created\r\n"
    case Err404 => assert Http.StatusText(Http.Err404) == "404 Not Found"; "404 Not Found\r\n"
  }

  /** `Display` for this file's `ContentType`: the framework's content-type
      line for the same type, type for type. */
  function TypeLine(t: ContentType): (r: string)
    ensures r == Http.TypeLine(SharedType(t))
    ensures r == Http.TypeHeader(SharedType(t)) + Http.LineEnd
  {
    match t
    case TextPlain => "Content-Type: text/plain\r\n"
    case OctetStream => "Content-Type: application/octet-stream\r\n"
    case NoType => "\r\n"
  }

  // ---------------------------------------------------------------------
  // respond

  /** The content-type part of a reply: nothing at all for `NoType`. */
  function TypePart(t: ContentType): string {
    if t == NoType then "" else TypeLine(t)
  }

  /** The `Content-Length` line of a message of length `n` and the blank line
      after it. */
  function LengthBlock(n: nat): string {
    HR.LengthHeader + DecimalDigits(n) + Http.HeaderEnd
  }

  /** The length part of a reply: nothing at all for an empty message. */
  function LengthPart(message: string): string {
    if message == "" then "" else LengthBlock(|message|) + message
  }

  /** The text `respond` produces: status line, the content-type line unless
      the type is `NoType`, the `Content-Length` line, a blank line and the
      message unless the message is empty, and a final CRLF. */
  function RespondText(http: HttpCode, contentType: ContentType, message: string): string {
    HR.StatusLinePrefix + CodeLine(http) + TypePart(contentType) + LengthPart(message) + Http.LineEnd
  }

  /** Every reply starts with "HTTP/1.1 " and the code line and ends with CRLF. */
  lemma RespondEnvelope(http: HttpCode, contentType: ContentType, message: string)
    ensures var out := RespondText(http, contentType, message);
            StartsWith(out, HR.StatusLinePrefix + CodeLine(http)) && EndsWith(out, Http.LineEnd)
  {
    var head := HR.StatusLinePrefix + CodeLine(http);
    var rest := TypePart(contentType) + LengthPart(message) + Http.LineEnd;
    AppendAssoc(head, TypePart(contentType), LengthPart(message));
    AppendAssoc(head + TypePart(contentType), LengthPart(message), Http.LineEnd);
    AppendAssoc(head, TypePart(contentType), LengthPart(message) + Http.LineEnd);
    PrefixOfAppend(head, rest);
  }

  lemma PrefixOfAppend(a: string, b: string)
    ensures (a + b)[..|a|] == a && (a + b)[|a|..] == b
  {
  }

  /** `respond`: appends the pieces to a local buffer one after another. */
  method Respond(http: HttpCode, contentType: ContentType, message: string) returns (response: string)
    ensures response == RespondText(http, contentType, message)
  {
    response := HR.StatusLinePrefix;
    response := response + CodeLine(http);
    ghost var head := response;
    match contentType {
      case NoType =>
      case _ => response := response + TypeLine(contentType);
    }
    ghost var typed := response;
    assert typed == head + TypePart(contentType);
    if message != "" {
      response := response + LengthBlock(|message|);
      response := response + message;
      AppendAssoc(typed, LengthBlock(|message|), message);
    }
    assert response == typed + LengthPart(message);
    response := response + Http.LineEnd;
  }

  lemma AppendAssoc(a: string, b: string, c: string)
    ensures a + b + c == a + (b + c)
  {
  }

  /** The content-type line follows the status line exactly when the type is
      not `NoType`. */
  lemma RespondTypeLineIff(http: HttpCode, contentType: ContentType, message: string)
    ensures var out := RespondText(http, contentType, message);
            var n := |HR.StatusLinePrefix + CodeLine(http)|;
            StartsWith(out[n..], "Content-Type: ") <==> contentType != NoType
  {
    var head := HR.StatusLinePrefix + CodeLine(http);
    var tail := LengthPart(message) + Http.LineEnd;
    PrefixOfAppend(head, TypePart(contentType) + tail);
    AppendAssoc(head, TypePart(contentType), LengthPart(message));
    AppendAssoc(head + TypePart(contentType), LengthPart(message), Http.LineEnd);
    AppendAssoc(head, TypePart(contentType), tail);
    if contentType != NoType {
      TypeLineStarts(contentType);
      StartsWithAppend(TypeLine(contentType), tail, "Content-Type: ");
    } else {
      assert TypePart(contentType) + tail == tail;
      UntypedTail(message);
    }
  }

  lemma TypeLineStarts(t: ContentType)
    requires t != NoType
    ensures StartsWith(TypeLine(t), "Content-Type: ")
  {
  }

  /** What follows the status line of an untyped reply is no type line. */
  lemma UntypedTail(message: string)
    ensures !StartsWith(LengthPart(message) + Http.LineEnd, "Content-Type: ")
  {
    var tail := LengthPart(message) + Http.LineEnd;
    if message != "" {
      var block := LengthBlock(|message|);
      assert block[8] == 'L';
      AppendAssoc(block, message, Http.LineEnd);
      assert tail[8] == 'L';
      assert |tail| >= 14 ==> tail[..14][8] == 'L';
    }
  }

  /** The `Content-Length` line, blank line and message follow the status
      and type lines exactly when the message is non-empty, whatever the
      content type. */
  lemma RespondLengthIff(http: HttpCode, contentType: ContentType, message: string)
    ensures var out := RespondText(http, contentType, message);
            var n := |HR.StatusLinePrefix + CodeLine(http) + TypePart(contentType)|;
            StartsWith(out[n..], HR.LengthHeader) <==> message != ""
  {
    var head := HR.StatusLinePrefix + CodeLine(http) + TypePart(contentType);
    PrefixOfAppend(head, LengthPart(message) + Http.LineEnd);
    if message != "" {
      var d := DecimalDigits(|message|);
      assert (HR.LengthHeader + d + Http.HeaderEnd + message + Http.LineEnd)[..16] == HR.LengthHeader;
    }
  }

  lemma RegroupReply(p: string, s: string, t: string, lh: string, d: string, m: string)
    ensures p + (s + Http.LineEnd) + t + ((lh + d + Http.HeaderEnd) + m) + Http.LineEnd
         == (p + s + Http.LineEnd + t) + (lh + d) + Http.HeaderEnd + m + Http.LineEnd
  {
  }

  /** The reply with a message, cut at its blank line. */
  lemma RespondLayout(http: HttpCode, contentType: ContentType, message: string)
    requires message != ""
    ensures RespondText(http, contentType, message)
            == (HR.StatusLinePrefix + Http.StatusText(SharedCode(http)) + Http.LineEnd + TypePart(contentType))
               + (HR.LengthHeader + DecimalDigits(|message|)) + Http.HeaderEnd + message + Http.LineEnd
  {
    RegroupReply(HR.StatusLinePrefix, Http.StatusText(SharedCode(http)), TypePart(contentType),
                 HR.LengthHeader, DecimalDigits(|message|), message);
  }

  /** The header lines of a reply with a message hold no blank line. */
  lemma RespondHeadSeparable(http: HttpCode, contentType: ContentType, n: nat)
    ensures Separable(HR.StatusLinePrefix + Http.StatusText(SharedCode(http)) + Http.LineEnd + TypePart(contentType)
                      + (HR.LengthHeader + DecimalDigits(n)), Http.HeaderEnd)
  {
    var line1 := HR.StatusLinePrefix + Http.StatusText(SharedCode(http));
    var lengthLine := HR.LengthHeader + DecimalDigits(n);
    HR.LengthLineOneLine(n);
    if contentType == NoType {
      assert line1 + Http.LineEnd + TypePart(contentType) == line1 + Http.LineEnd;
      AbsentFirstChar(line1, Http.HeaderEnd);
      Http.SeparableNextLine(line1, lengthLine);
    } else {
      var typeHeader := Http.TypeHeader(SharedType(contentType));
      assert line1 + Http.LineEnd + TypePart(contentType) == line1 + Http.LineEnd + typeHeader + Http.LineEnd;
      HR.HeadLinesSeparable(line1, typeHeader, lengthLine);
    }
  }

  /** The reply `respond` writes is framed by its `Content-Length` line
      around the message. */
  predicate RespondIsFramed(http: HttpCode, contentType: ContentType, message: string) {
    HR.LengthFramed(RespondText(http, contentType, message), HR.LengthHeader + DecimalDigits(|message|), message)
  }

  /** A non-empty message is framed by its length, whatever the content type:
      the first blank line ends a header block whose last line announces the
      message length, and the message follows it up to the final CRLF. */
  lemma RespondFramed(http: HttpCode, contentType: ContentType, message: string)
    requires message != ""
    ensures RespondIsFramed(http, contentType, message)
  {
    var h := HR.StatusLinePrefix + Http.StatusText(SharedCode(http)) + Http.LineEnd + TypePart(contentType);
    var c := HR.LengthHeader + DecimalDigits(|message|);
    RespondCut(http, contentType, message, h, c);
    HR.FramedText(RespondText(http, contentType, message), h, c, message);
  }

  /** The reply with a message is a header block free of blank lines, the
      blank line, the message and a CRLF. */
  lemma RespondCut(http: HttpCode, contentType: ContentType, message: string, h: string, c: string)
    requires message != ""
    requires h == HR.StatusLinePrefix + Http.StatusText(SharedCode(http)) + Http.LineEnd + TypePart(contentType)
    requires c == HR.LengthHeader + DecimalDigits(|message|)
    ensures RespondText(http, contentType, message) == h + c + Http.HeaderEnd + message + Http.LineEnd
    ensures Separable(h + c, Http.HeaderEnd)
  {
    RespondLayout(http, contentType, message);
    RespondHeadSeparable(http, contentType, |message|);
  }

  lemma RegroupTyped(a: string, b: string, c: string, lh: string, d: string, m: string)
    ensures a + b + c + ((lh + d + Http.HeaderEnd) + m) + Http.LineEnd
         == a + b + c + lh + d + Http.HeaderEnd + m + Http.LineEnd
  {
  }

  /** With a real content type and a non-empty message, `respond` writes
      exactly what the framework's serializer writes for the same response. */
  lemma RespondAgreesWithFramework(http: HttpCode, contentType: ContentType, message: string)
    requires contentType != NoType && message != ""
    ensures RespondText(http, contentType, message)
            == HR.Serialize(HR.ResponseBuilder.New().Code(SharedCode(http))
                              .Content(message, SharedType(contentType)).ToResponse())
  {
    var b := HR.ResponseBuilder.New().Code(SharedCode(http)).Content(message, SharedType(contentType));
    HR.SerializeTyped(b);
    RegroupTyped(HR.StatusLinePrefix, CodeLine(http), TypeLine(contentType), HR.LengthHeader,
                 DecimalDigits(|message|), message);
  }

  /** Without type and message both write the bare status line and a CRLF. */
  lemma RespondAgreesWhenEmpty(http: HttpCode)
    ensures RespondText(http, NoType, "")
            == HR.Serialize(HR.ResponseBuilder.New().Code(SharedCode(http)).ToResponse())
  {
    HR.SerializeUntyped(HR.ResponseBuilder.New().Code(SharedCode(http)));
    assert RespondText(http, NoType, "") == HR.StatusLinePrefix + CodeLine(http) + "" + "" + Http.LineEnd;
  }

  /** With a real content type and an empty message the two serializers part:
      `respond` leaves out the `Content-Length` block that the framework
      writes with a length of 0. */
  lemma RespondDiffersOnEmptyContent(http: HttpCode, contentType: ContentType)
    requires contentType != NoType
    ensures var framework := HR.Serialize(HR.ResponseBuilder.New().Code(SharedCode(http))
                                            .Content("", SharedType(contentType)).ToResponse());
            && |framework| == |RespondText(http, contentType, "")| + |LengthBlock(0)|
            && RespondText(http, contentType, "") != framework
  {
    var b := HR.ResponseBuilder.New().Code(SharedCode(http)).Content("", SharedType(contentType));
    HR.SerializeTyped(b);
    assert |LengthBlock(0)| == 21 by { assert DecimalDigits(0) == "0"; }
  }

  /** With no content type and a non-empty message the two serializers part
      as well: `respond` still writes the `Content-Length` block and the
      message, while the framework writes either the bare status line (code
      only) or a blank line before the `Content-Length` line (content with
      `ContentType::None`). */
  lemma RespondDiffersOnUntypedContent(http: HttpCode, message: string)
    requires message != ""
    ensures var codeOnly := HR.Serialize(HR.ResponseBuilder.New().Code(SharedCode(http)).ToResponse());
            && |RespondText(http, NoType, message)| == |codeOnly| + |LengthBlock(|message|)| + |message|
            && RespondText(http, NoType, message) != codeOnly
    ensures var withContent := HR.Serialize(HR.ResponseBuilder.New().Code(SharedCode(http))
                                              .Content(message, Http.NoType).ToResponse());
            && |withContent| == |RespondText(http, NoType, message)| + |Http.LineEnd|
            && RespondText(http, NoType, message) != withContent
  {
    var b := HR.ResponseBuilder.New().Code(SharedCode(http));
    HR.SerializeUntyped(b);
    HR.SerializeTyped(b.Content(message, Http.NoType));
    assert TypeLine(NoType) == Http.LineEnd;
  }

  /** `respond(Ok200, None, "")` is the bare status line and a CRLF. */
  lemma RespondOkExample()
    ensures RespondText(Ok200, NoType, "") == "HTTP/1.1 200 Ok\r\n\r\n"
  {
    var ok := HR.StatusLinePrefix + "200 Ok\r\n";
    assert RespondText(Ok200, NoType, "") == ok + "" + "" + "\r\n";
    assert ok == "HTTP/1.1 200 Ok\r\n";
  }

  /** A text/plain type with an empty message adds its type line but no
      `Content-Length`. */
  lemma RespondTypedEmptyExample()
    ensures RespondText(Ok200, TextPlain, "") == "HTTP/1.1 200 Ok\r\nContent-Type: text/plain\r\n\r\n"
  {
    assert RespondText(Ok200, TextPlain, "") == HR.StatusLinePrefix + CodeLine(Ok200) + TypeLine(TextPlain) + "" + Http.LineEnd;
    assert CodeLine(Ok200) == "200 Ok\r\n";
    assert TypeLine(TextPlain) == "Content-Type: text/plain\r\n";
    TypedEmptyLiterals();
  }

  lemma TypedEmptyLiterals()
    ensures HR.StatusLinePrefix + "200 Ok\r\n" + "Content-Type: text/plain\r\n" + "" + Http.LineEnd
            == "HTTP/1.1 200 Ok\r\nContent-Type: text/plain\r\n\r\n"
  {
    var out := HR.StatusLinePrefix + "200 Ok\r\n";
    assert out == "HTTP/1.1 200 Ok\r\n";
    out := out + "Content-Type: text/plain\r\n";
    assert out == "HTTP/1.1 200 Ok\r\nContent-Type: text/plain\r\n";
    out := out + "" + Http.LineEnd;
    assert out == "HTTP/1.1 200 Ok\r\nContent-Type: text/plain\r\n\r\n";
  }

  // ---------------------------------------------------------------------
  // parse_request

  datatype LegacyRequest = LegacyRequest(userAgent: string, httpMethod: Http.HttpMethod, body: string, path: string)

  /** A line the loop appends to the body once the blank line has been seen. */
  predicate IsBodyLine(line: string) {
    !R.IsRequestLine(line) && !R.IsUserAgentLine(line) && line != ""
  }

  /** The body the loop collects from `lines`: every body line that comes
      after some blank line, concatenated with no separator. */
  function LegacyBody(lines: seq<string>): string
    decreases |lines|
  {
    if lines == [] then ""
    else
      var init, x := lines[..|lines| - 1], lines[|lines| - 1];
      LegacyBody(init) + (if IsBodyLine(x) && "" in init then x else "")
  }

  /** The body lines of `lines`, concatenated with no separator. */
  function BodyText(lines: seq<string>): string
    decreases |lines|
  {
    if lines == [] then ""
    else
      var init, x := lines[..|lines| - 1], lines[|lines| - 1];
      BodyText(init) + (if IsBodyLine(x) then x else "")
  }

  /** What the loop yields for a sequence of lines: `None` when a request line
      has no path (the loop panics), else the last request line's method
      (default GET) and path (default ""), the last User-Agent line's value
      (default "") and the collected body. */
  function LegacyFields(lines: seq<string>): Option<LegacyRequest> {
    if R.Panics(lines) then None
    else Some(LegacyRequest(R.UserAgentField(lines).GetOr(""), R.MethodField(lines).GetOr(Http.Get),
                            LegacyBody(lines), R.PathField(lines).GetOr("")))
  }

  /** The request `parse_request` builds from decoded text. */
  function LegacyParse(text: string): Option<LegacyRequest> {
    LegacyFields(Split(text, Http.LineEnd))
  }

  lemma LegacyBodyStep(lines: seq<string>, x: string)
    ensures LegacyBody(lines + [x]) == LegacyBody(lines) + (if IsBodyLine(x) && "" in lines then x else "")
    ensures ("" in lines + [x]) <==> ("" in lines || x == "")
  {
    assert (lines + [x])[..|lines|] == lines;
  }

  /** The line loop of `parse_request` over the text split on CRLF: request
      lines set method and path, User-Agent lines the user agent, the first
      empty line ends the header, and later other lines are appended to the
      body. A request line without a path panics, which is `None` here. */
  method ParseRequest(text: string) returns (r: Option<LegacyRequest>)
    ensures r == LegacyParse(text)
  {
    var lines := Split(text, Http.LineEnd);
    var doneReadHeader := false;
    var path := "";
    var userAgent := "";
    var httpMethod := Http.Get;
    var body := "";
    var i := 0;
    while i < |lines|
      invariant 0 <= i <= |lines|
      invariant !R.Panics(lines[..i])
      invariant httpMethod == R.MethodField(lines[..i]).GetOr(Http.Get)
      invariant path == R.PathField(lines[..i]).GetOr("")
      invariant userAgent == R.UserAgentField(lines[..i]).GetOr("")
      invariant doneReadHeader <==> "" in lines[..i]
      invariant body == LegacyBody(lines[..i])
    {
      var line := lines[i];
      assert lines[..i + 1] == lines[..i] + [line];
      R.FieldsStep(lines[..i], line);
      R.LineKindsDisjoint(line);
      LegacyBodyStep(lines[..i], line);
      if R.IsRequestLine(line) {
        var split := Split(line, " ");
        httpMethod := match split[0] {
          case "GET" => Http.Get
          case "POST" => Http.Post
          case _ => Http.Get
        };
        if |split| < 2 {
          assert R.IsPathless(lines[i]);
          return None;
        }
        assert httpMethod == R.MethodOf(line) && split[1] == R.PathOf(line);
        path := split[1];
      } else if R.IsUserAgentLine(line) {
        var pieces := Split(line, ": ");
        userAgent := if |pieces| >= 2 then pieces[1] else "";
        assert userAgent == R.UserAgentOf(line);
      } else if line == "" {
        doneReadHeader := true;
      } else if doneReadHeader {
        body := body + line;
      }
      i := i + 1;
    }
    assert lines[..i] == lines;
    return Some(LegacyRequest(userAgent, httpMethod, body, path));
  }

  /** Before the first blank line nothing goes into the body. */
  lemma {:induction false} IgnoredBeforeBlank(lines: seq<string>)
    requires "" !in lines
    ensures LegacyBody(lines) == ""
    decreases |lines|
  {
    if lines != [] {
      var init := lines[..|lines| - 1];
      assert forall k :: 0 <= k < |init| ==> init[k] == lines[k];
      IgnoredBeforeBlank(init);
    }
  }

  /** After the first blank line, the body is the body lines that follow it,
      concatenated: the lines before it never count. */
  lemma {:induction false} BodyAfterBlank(a: seq<string>, b: seq<string>)
    requires "" !in a
    ensures LegacyBody(a + [""] + b) == BodyText(b)
    decreases |b|
  {
    if b == [] {
      assert a + [""] + b == a + [""];
      LegacyBodyStep(a, "");
      IgnoredBeforeBlank(a);
    } else {
      var init, x := b[..|b| - 1], b[|b| - 1];
      assert a + [""] + b == (a + [""] + init) + [x];
      assert "" in a + [""] + init by {
        assert (a + [""] + init)[|a|] == "";
      }
      LegacyBodyStep(a + [""] + init, x);
      BodyAfterBlank(a, init);
    }
  }

  /** With no request line at all the path stays "" (the framework's parser
      defaults it to "/") and the method stays GET. */
  lemma DefaultsWithoutRequestLine(lines: seq<string>)
    requires forall k :: 0 <= k < |lines| ==> !R.IsRequestLine(lines[k])
    ensures LegacyFields(lines).Some?
    ensures LegacyFields(lines).value.path == "" && LegacyFields(lines).value.httpMethod == Http.Get
  {
    assert !R.Panics(lines);
    assert R.LastIndex(lines, R.IsRequestLine).None?;
  }

  /** Request lines count wherever they are, after the blank line too: the
      last one gives method and path. */
  lemma RequestLineAfterBlank(a: seq<string>, b: seq<string>, x: string)
    requires "" !in a && R.IsRequestLine(x) && !R.Panics(a + [""] + b + [x])
    ensures LegacyFields(a + [""] + b + [x]).Some?
    ensures LegacyFields(a + [""] + b + [x]).value.path == R.PathOf(x)
    ensures LegacyFields(a + [""] + b + [x]).value.httpMethod == R.MethodOf(x)
  {
    R.LaterRequestLineWins(a + [""] + b, x, []);
    assert a + [""] + b + [x] + [] == a + [""] + b + [x];
  }

  // ---------------------------------------------------------------------
  // handle_connection

  /** The state of the served directory, as far as a request can observe it:
      the paths `File::create` succeeds on, and the files `File::open`
      succeeds on with their contents. */
  datatype Disk = Disk(creatable: set<string>, files: map<string, string>)

  /** The arguments `handle_connection` passes to `respond`. */
  datatype Reply = Reply(code: HttpCode, contentType: ContentType, message: string)

  /** What a connection leads to: the reply, and the file a POST stores the
      request body in. */
  datatype Outcome = Outcome(reply: Reply, stored: Option<(string, string)>)

  /** The file a `/files...` request names: the path with every "/files/"
      removed, under the served directory. */
  function FilePath(filedir: string, path: string): string {
    filedir + "/" + Replace(path, "/files/", "")
  }

  /** The 404 reply every failing branch gives. */
  const NotFound := Reply(Err404, NoType, "")

  /** The branch chain of `handle_connection`, tried in order: "/echo"
      prefix, exact "/user-agent", "/files" prefix with POST, "/files" prefix
      with GET, exact "/", and otherwise 404. */
  function HandleConnection(request: LegacyRequest, filedir: string, disk: Disk): (r: Outcome)
    ensures r.reply.code == Err404 ==> r.reply == NotFound
    ensures r.stored.Some? <==> r.reply.code == Ok201
    ensures r.stored.Some? ==> r.stored.value == (FilePath(filedir, request.path), request.body)
    ensures StartsWith(request.path, "/echo")
            ==> r == Outcome(Reply(Ok200, TextPlain, Replace(request.path, "/echo/", "")), None)
    ensures request.path == "/user-agent" ==> r == Outcome(Reply(Ok200, TextPlain, request.userAgent), None)
    ensures request.path == "/" ==> r == Outcome(Reply(Ok200, NoType, ""), None)
    ensures StartsWith(request.path, "/files") && request.httpMethod == Http.Post
            && FilePath(filedir, request.path) in disk.creatable
            ==> r == Outcome(Reply(Ok201, NoType, ""), Some((FilePath(filedir, request.path), request.body)))
    ensures StartsWith(request.path, "/files") && request.httpMethod == Http.Get
            && FilePath(filedir, request.path) in disk.files
            ==> r == Outcome(Reply(Ok200, OctetStream, disk.files[FilePath(filedir, request.path)]), None)
  {
    var path := request.path;
    BranchesExclusive(path);
    if StartsWith(path, "/echo") then
      Outcome(Reply(Ok200, TextPlain, Replace(path, "/echo/", "")), None)
    else if path == "/user-agent" then
      Outcome(Reply(Ok200, TextPlain, request.userAgent), None)
    else if StartsWith(path, "/files") && request.httpMethod == Http.Post then
      var file := FilePath(filedir, path);
      if file in disk.creatable then Outcome(Reply(Ok201, NoType, ""), Some((file, request.body)))
      else Outcome(NotFound, None)
    else if StartsWith(path, "/files") && request.httpMethod == Http.Get then
      var file := FilePath(filedir, path);
      if file in disk.files then Outcome(Reply(Ok200, OctetStream, disk.files[file]), None)
      else Outcome(NotFound, None)
    else if path == "/" then
      Outcome(Reply(Ok200, NoType, ""), None)
    else
      Outcome(NotFound, None)
  }

  /** The guards of the chain exclude each other, so their order never
      decides which branch runs. */
  lemma BranchesExclusive(path: string)
    ensures StartsWith(path, "/echo") ==> path != "/user-agent" && !StartsWith(path, "/files") && path != "/"
    ensures path == "/user-agent" ==> !StartsWith(path, "/files")
    ensures StartsWith(path, "/files") ==> path != "/"
  {
    if StartsWith(path, "/echo") {
      assert path[..5][1] == 'e';
      if |path| >= 6 { assert path[..6][1] == 'e'; }
    }
    if StartsWith(path, "/files") {
      assert path[..6][1] == 'f';
    }
  }

  /** Every reply is 404 exactly when no branch serves the request: the path
      falls under none of the guards, or the file branch's file operation
      fails. */
  lemma NotFoundIff(request: LegacyRequest, filedir: string, disk: Disk)
    ensures var file := FilePath(filedir, request.path);
            var path := request.path;
            HandleConnection(request, filedir, disk).reply.code == Err404
            <==> !StartsWith(path, "/echo") && path != "/user-agent" &&
                 (if StartsWith(path, "/files")
                  then (request.httpMethod == Http.Post && file !in disk.creatable)
                    || (request.httpMethod == Http.Get && file !in disk.files)
                  else path != "/")
  {
  }

  /** "/echo/" followed by text without another "/echo/" echoes that text. */
  lemma EchoRoundTrip(request: LegacyRequest, filedir: string, disk: Disk, s: string)
    requires request.path == "/echo/" + s && NoneBefore(s, "/echo/", |s| + 1)
    ensures HandleConnection(request, filedir, disk).reply == Reply(Ok200, TextPlain, s)
  {
    assert StartsWith("/echo/" + s, "/echo");
    ReplaceLeading("/echo/", s);
  }

  /** Every "/echo/" is removed, not only the leading one: a path made of
      pieces joined by "/echo/" echoes the pieces run together. */
  lemma EchoRemovesEveryMarker(pieces: seq<string>)
    requires |pieces| >= 1
    requires forall k :: 0 <= k < |pieces| ==> Separable(pieces[k], "/echo/")
    ensures Replace(Join(pieces, "/echo/"), "/echo/", "") == Join(pieces, "")
  {
    SplitJoin(pieces, "/echo/");
  }

  /** A POST to "/files/" + name stores the body in `filedir/name` when the
      file can be created, and answers 201. */
  lemma FilePostStoresBody(request: LegacyRequest, filedir: string, disk: Disk, name: string)
    requires request.path == "/files/" + name && NoneBefore(name, "/files/", |name| + 1)
    requires request.httpMethod == Http.Post && filedir + "/" + name in disk.creatable
    ensures HandleConnection(request, filedir, disk)
            == Outcome(Reply(Ok201, NoType, ""), Some((filedir + "/" + name, request.body)))
  {
    ReplaceLeading("/files/", name);
    assert StartsWith(request.path, "/files");
    BranchesExclusive(request.path);
  }

  /** A GET of "/files/" + name serves the contents of `filedir/name` as an
      octet stream when it can be opened. */
  lemma FileGetServesContents(request: LegacyRequest, filedir: string, disk: Disk, name: string)
    requires request.path == "/files/" + name && NoneBefore(name, "/files/", |name| + 1)
    requires request.httpMethod == Http.Get && filedir + "/" + name in disk.files
    ensures HandleConnection(request, filedir, disk).reply
            == Reply(Ok200, OctetStream, disk.files[filedir + "/" + name])
  {
    ReplaceLeading("/files/", name);
    assert StartsWith(request.path, "/files");
    BranchesExclusive(request.path);
  }
}
