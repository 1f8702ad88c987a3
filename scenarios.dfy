/** Whole requests taken through several parts at once: a request text
    through the framework's parser and then its route table, and the same
    text through the single-file server. */
module Scenarios {
  import opened Options
  import opened Text
  import opened Http
  import opened HttpRequest
  import opened HttpRoutes
  import L = LegacyServer

  /** The request line of a GET for `path`. */
  function GetLine(path: string): string {
    "GET " + path + " HTTP/1.1"
  }

  /** A single request line, no text after it but the blank line, splits
      into that one header line, and parsing it yields its method and path. */
  lemma {:induction false} SingleRequestLine(path: string)
    requires ' ' !in path && '\r' !in path
    ensures HeaderLines(GetLine(path) + HeaderEnd) == [GetLine(path)]
    ensures !ParseFails(GetLine(path) + HeaderEnd)
    ensures ParsedMethod(GetLine(path) + HeaderEnd) == Get
    ensures ParsedPath(GetLine(path) + HeaderEnd) == path
    ensures ParsedBody(GetLine(path) + HeaderEnd) == ""
  {
    var line := GetLine(path);
    assert line == "GET" + " " + path + " " + "HTTP/1.1";
    assert '\r' !in line;
    AbsentFirstChar(line, HeaderEnd);
    OnlyHeaderSectionScanned(line, "");
    assert line + HeaderEnd + "" == line + HeaderEnd;
    AbsentFirstChar(line, LineEnd);
    SplitWhole(line, LineEnd);
    RequestLineTokens("GET", path, "HTTP/1.1");
    assert StartsWith(line, "GET");
    LaterRequestLineWins([], line, []);
    assert [] + [line] + [] == [line];
    BodyRunsToEnd(line, "");
  }

  /** The template "/echo/{x}" accepts "/echo/" followed by any segment
      without a "/", and captures that segment. */
  lemma EchoTemplateCaptures(s: string)
    requires '/' !in s
    ensures Accepts(Split("/echo/{x}", "/"), Split("/echo/" + s, "/"))
    ensures Captures(Split("/echo/{x}", "/"), Split("/echo/" + s, "/")) == [s]
  {
    EchoSegments(s);
    assert IsCapture("{x}") && !IsCapture("echo") && !IsCapture("");
    TwoLiteralsThenCapture("", "echo", "{x}", s);
  }

  /** A template of two literals and a capture accepts the path with the same
      two literals and any last segment, and captures that segment. */
  lemma TwoLiteralsThenCapture(a: string, b: string, x: string, v: string)
    requires !IsCapture(a) && !IsCapture(b) && IsCapture(x)
    ensures Accepts([a, b, x], [a, b, v])
    ensures Captures([a, b, x], [a, b, v]) == [v]
  {
    var url, path := [a, b, x], [a, b, v];
    assert url[..2] == [a, b] && path[..2] == [a, b];
    assert [a, b][..1] == [a];
    assert Captures([a], [a]) == [] by {
      assert [a][..0] == [];
    }
    assert Captures([a, b], [a, b]) == [];
    assert !IsCapture(url[0]);
  }

  /** How "/echo/{x}" and "/echo/" + s split on "/". */
  lemma EchoSegments(s: string)
    requires '/' !in s
    ensures Split("/echo/{x}", "/") == ["", "echo", "{x}"]
    ensures Split("/echo/" + s, "/") == ["", "echo", s]
  {
    TemplateText();
    ThreeSegments("", "echo", "{x}");
    PathText(s);
    ThreeSegments("", "echo", s);
  }

  lemma TemplateText()
    ensures "/echo/{x}" == "" + "/" + "echo" + "/" + "{x}"
  {
    var t := "" + "/";
    assert t == "/";
    t := t + "echo";
    assert t == "/echo";
    t := t + "/";
    assert t == "/echo/";
    t := t + "{x}";
    assert t == "/echo/{x}";
  }

  lemma PathText(s: string)
    ensures "/echo/" + s == "" + "/" + "echo" + "/" + s
  {
    var t := "" + "/";
    assert t == "/";
    t := t + "echo";
    assert t == "/echo";
    t := t + "/";
    assert t == "/echo/";
  }

  /** Three "/"-free segments joined by "/" split back into themselves. */
  lemma ThreeSegments(a: string, b: string, c: string)
    requires '/' !in a && '/' !in b && '/' !in c
    ensures Split(a + "/" + b + "/" + c, "/") == [a, b, c]
  {
    AbsentFirstChar(a, "/");
    AbsentFirstChar(b, "/");
    AbsentFirstChar(c, "/");
    assert a + "/" + b + "/" + c == a + "/" + (b + "/" + c);
    SplitFirst(a, "/", b + "/" + c);
    SplitFirst(b, "/", c);
    SplitWhole(c, "/");
  }

  /** A GET of "/echo/" + s, parsed by the framework, is resolved by a table
      whose only GET route is "/echo/{x}" to that route, with the single
      parameter s. */
  method EchoThroughFramework<H>(s: string, handler: H) returns (request: Request, route: Option<Route<H>>)
    requires '/' !in s && ' ' !in s && '\r' !in s
    ensures request.path == "/echo/" + s && request.httpMethod == Get
    ensures route == Some(Route(Split("/echo/{x}", "/"), Handler(handler)))
    ensures request.param == [s]
  {
    SingleRequestLine("/echo/" + s);
    var parsed := FromText(GetLine("/echo/" + s) + HeaderEnd);
    request := parsed.value;
    var routes := new Routes<H>();
    routes.RegisterRoute(Get, "/echo/{x}", handler);
    EchoTemplateCaptures(s);
    route := routes.Resolve(request);
  }

  /** The single-file server answers the same request with s as a text/plain
      body. */
  lemma EchoThroughLegacyServer(s: string, filedir: string, disk: L.Disk)
    requires ' ' !in s && '\r' !in s && NoneBefore(s, "/echo/", |s| + 1)
    ensures var parsed := L.LegacyParse(GetLine("/echo/" + s) + HeaderEnd);
            && parsed.Some? && parsed.value.path == "/echo/" + s
            && L.HandleConnection(parsed.value, filedir, disk).reply == L.Reply(L.Ok200, L.TextPlain, s)
  {
    var line := GetLine("/echo/" + s);
    assert line == "GET" + " " + ("/echo/" + s) + " " + "HTTP/1.1";
    assert '\r' !in line;
    HeadOnlyLines(line);
    RequestLineTokens("GET", "/echo/" + s, "HTTP/1.1");
    assert StartsWith(line, "GET");
    LoneRequestLine(line);
    var request := L.LegacyParse(line + HeaderEnd).value;
    L.EchoRoundTrip(request, filedir, disk, s);
  }

  /** A line without a CR followed by the blank line splits into the line
      and two empty pieces. */
  lemma HeadOnlyLines(line: string)
    requires '\r' !in line
    ensures Split(line + HeaderEnd, LineEnd) == [line, "", ""]
  {
    assert line + HeaderEnd == line + LineEnd + LineEnd;
    AbsentFirstChar(line, LineEnd);
    SplitFirst(line, LineEnd, LineEnd);
    assert Split(LineEnd, LineEnd) == ["", ""] by {
      assert Separable("", LineEnd) by {
        assert "" + LineEnd == LineEnd;
      }
      SplitFirst("", LineEnd, "");
      assert "" + LineEnd + "" == LineEnd;
      SplitWhole("", LineEnd);
    }
  }

  /** A request line with a path followed by the blank line: the single-file
      server takes its path. */
  lemma LoneRequestLine(line: string)
    requires IsRequestLine(line) && HasPath(line)
    ensures L.LegacyFields([line, "", ""]).Some?
    ensures L.LegacyFields([line, "", ""]).value.path == PathOf(line)
  {
    var lines := [line, "", ""];
    assert !Panics(lines) by {
      forall k | 0 <= k < 3 ensures !IsPathless(lines[k]) { }
    }
    assert [] + [line] + ["", ""] == lines;
    LaterRequestLineWins([], line, ["", ""]);
  }
}
