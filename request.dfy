/** The framework's request (src/http/request.rs): the `Request` record whose
    `param` field the resolver fills in, the `RequestBuilder` that the parser
    fills field by field, and the parser that turns already-decoded request
    text into a `Request`. */
module HttpRequest {
  import opened Options
  import opened Text
  import opened Http

  /** A parsed request. Built once by the parser; afterwards only `param`
      changes, when a route with captures is resolved. Rust's getters are the
      plain field reads here. */
  class Request {
    var userAgent: string
    var httpMethod: HttpMethod
    var path: string
    var body: string
    var param: seq<string>

    constructor (userAgent: string, httpMethod: HttpMethod, path: string, body: string)
      ensures this.userAgent == userAgent && this.httpMethod == httpMethod
      ensures this.path == path && this.body == body && param == []
    {
      this.userAgent := userAgent;
      this.httpMethod := httpMethod;
      this.path := path;
      this.body := body;
      param := [];
    }

    /** `set_param`: replaces the captured parameters and nothing else. */
    method SetParam(param: seq<string>)
      modifies this`param
      ensures this.param == param
    {
      this.param := param;
    }
  }

  /** The parser's accumulator: every field starts unset and is set by the
      line that carries it. */
  class RequestBuilder {
    var userAgent: Option<string>
    var httpMethod: Option<HttpMethod>
    var path: Option<string>
    var body: Option<string>

    constructor ()
      ensures userAgent == None && httpMethod == None && path == None && body == None
    {
      userAgent, httpMethod, path, body := None, None, None, None;
    }

    method SetMethod(httpMethod: HttpMethod)
      modifies this`httpMethod
      ensures this.httpMethod == Some(httpMethod)
    {
      this.httpMethod := Some(httpMethod);
    }

    method SetPath(path: string)
      modifies this`path
      ensures this.path == Some(path)
    {
      this.path := Some(path);
    }

    method SetBody(body: string)
      modifies this`body
      ensures this.body == Some(body)
    {
      this.body := Some(body);
    }

    method SetUserAgent(userAgent: string)
      modifies this`userAgent
      ensures this.userAgent == Some(userAgent)
    {
      this.userAgent := Some(userAgent);
    }

    /** `build`: every unset field takes its default (an empty user agent,
        GET, the path "/", an empty body), and no parameters are captured yet. */
    method Build() returns (r: Request)
      ensures fresh(r)
      ensures r.userAgent == userAgent.GetOr("") && r.httpMethod == httpMethod.GetOr(Get)
      ensures r.path == path.GetOr("/") && r.body == body.GetOr("") && r.param == []
    {
      r := new Request(userAgent.GetOr(""), httpMethod.GetOr(Get), path.GetOr("/"), body.GetOr(""));
    }
  }

  // ---------------------------------------------------------------------
  // One header line at a time

  /** A line the parser takes for the request line. */
  predicate IsRequestLine(line: string) {
    StartsWith(line, "GET") || StartsWith(line, "POST")
  }

  predicate IsUserAgentLine(line: string) {
    StartsWith(line, "User-Agent")
  }

  /** No line is both a request line and a User-Agent line, so the order of
      the two tests does not matter. */
  lemma LineKindsDisjoint(line: string)
    ensures IsRequestLine(line) ==> !IsUserAgentLine(line)
  {
    if IsRequestLine(line) {
      assert line[0] == 'G' || line[0] == 'P' by {
        if StartsWith(line, "GET") {
          assert line[..3][0] == line[0];
        } else {
          assert line[..4][0] == line[0];
        }
      }
      if |line| >= 10 {
        assert line[..10][0] == line[0];
      }
    }
  }

  /** The request line has a second space-separated token. */
  predicate HasPath(line: string) {
    |Split(line, " ")| >= 2
  }

  /** A request line the parser cannot take a path from: it panics on it. */
  predicate IsPathless(line: string) {
    IsRequestLine(line) && !HasPath(line)
  }

  /** The httpMethod named by the first token: exactly "POST" is a POST, anything
      else (also "GET") is a GET. */
  function MethodOf(line: string): HttpMethod {
    if Split(line, " ")[0] == "POST" then Post else Get
  }

  function PathOf(line: string): string
    requires HasPath(line)
  {
    Split(line, " ")[1]
  }

  /** The second ": "-separated piece, or "" when there is none. */
  function UserAgentOf(line: string): string {
    var pieces := Split(line, ": ");
    if |pieces| >= 2 then pieces[1] else ""
  }

  // ---------------------------------------------------------------------
  // A sequence of lines

  /** The index of the last line that `p` accepts. */
  function LastIndex(lines: seq<string>, p: string -> bool): (r: Option<nat>)
    ensures r.Some? ==> r.value < |lines| && p(lines[r.value])
    ensures r.Some? ==> forall j :: r.value < j < |lines| ==> !p(lines[j])
    ensures r.None? ==> forall j :: 0 <= j < |lines| ==> !p(lines[j])
    decreases |lines|
  {
    if lines == [] then None
    else if p(lines[|lines| - 1]) then Some(|lines| - 1)
    else LastIndex(lines[..|lines| - 1], p)
  }

  /** The last line that `p` accepts. */
  function LastLine(lines: seq<string>, p: string -> bool): Option<string> {
    match LastIndex(lines, p)
    case None => None
    case Some(k) => Some(lines[k])
  }

  lemma LastIndexSnoc(lines: seq<string>, x: string, p: string -> bool)
    ensures LastIndex(lines + [x], p) == if p(x) then Some(|lines|) else LastIndex(lines, p)
  {
    assert (lines + [x])[..|lines|] == lines;
  }

  /** Some request line among the lines has no path: parsing them panics. */
  predicate Panics(lines: seq<string>) {
    exists k :: 0 <= k < |lines| && IsPathless(lines[k])
  }

  /** The httpMethod the lines set, if any: that of the last request line. */
  function MethodField(lines: seq<string>): Option<HttpMethod> {
    match LastLine(lines, IsRequestLine)
    case None => None
    case Some(line) => Some(MethodOf(line))
  }

  /** The path the lines set, if any: that of the last request line. */
  function PathField(lines: seq<string>): Option<string>
    requires !Panics(lines)
  {
    match LastLine(lines, IsRequestLine)
    case None => None
    case Some(line) => Some(PathOf(line))
  }

  /** The user agent the lines set, if any: that of the last User-Agent line. */
  function UserAgentField(lines: seq<string>): Option<string> {
    match LastLine(lines, IsUserAgentLine)
    case None => None
    case Some(line) => Some(UserAgentOf(line))
  }

  /** What one more header line does to the fields collected so far. */
  lemma FieldsStep(lines: seq<string>, x: string)
    ensures Panics(lines + [x]) <==> Panics(lines) || IsPathless(x)
    ensures MethodField(lines + [x]) == if IsRequestLine(x) then Some(MethodOf(x)) else MethodField(lines)
    ensures UserAgentField(lines + [x]) == if IsUserAgentLine(x) then Some(UserAgentOf(x)) else UserAgentField(lines)
    ensures !Panics(lines + [x]) ==>
      PathField(lines + [x]) == if IsRequestLine(x) then Some(PathOf(x)) else PathField(lines)
  {
    LastIndexSnoc(lines, x, IsRequestLine);
    LastIndexSnoc(lines, x, IsUserAgentLine);
    var all := lines + [x];
    if Panics(all) {
      var k :| 0 <= k < |all| && IsPathless(all[k]);
      if k < |lines| { assert all[k] == lines[k]; }
    }
    if Panics(lines) {
      var k :| 0 <= k < |lines| && IsPathless(lines[k]);
      assert all[k] == lines[k];
    }
    assert all[|lines|] == x;
  }

  // ---------------------------------------------------------------------
  // The whole request text

  /** The header lines: the text before the first blank line, split on CRLF. */
  function HeaderLines(value: string): seq<string> {
    Split(Split(value, HeaderEnd)[0], LineEnd)
  }

  /** The second piece of the text split on the blank line, if there is one. */
  function BodyField(value: string): Option<string> {
    var token := Split(value, HeaderEnd);
    if |token| >= 2 then Some(token[1]) else None
  }

  predicate ParseFails(value: string) {
    Panics(HeaderLines(value))
  }

  function ParsedMethod(value: string): HttpMethod {
    MethodField(HeaderLines(value)).GetOr(Get)
  }

  function ParsedPath(value: string): string
    requires !ParseFails(value)
  {
    PathField(HeaderLines(value)).GetOr("/")
  }

  function ParsedUserAgent(value: string): string {
    UserAgentField(HeaderLines(value)).GetOr("")
  }

  function ParsedBody(value: string): string {
    BodyField(value).GetOr("")
  }

  /** `From<String> for Request`: scans the header lines in order, setting
      httpMethod and path from each request line and the user agent from each
      User-Agent line, then takes the body, then builds. `None` stands for the
      panic on a request line without a path. */
  method FromText(value: string) returns (r: Option<Request>)
    ensures r.None? <==> ParseFails(value)
    ensures r.Some? ==> fresh(r.value) && !ParseFails(value)
    ensures r.Some? ==> r.value.httpMethod == ParsedMethod(value) && r.value.path == ParsedPath(value)
    ensures r.Some? ==> r.value.userAgent == ParsedUserAgent(value) && r.value.body == ParsedBody(value)
    ensures r.Some? ==> r.value.param == []
  {
    var token := Split(value, HeaderEnd);
    var requestHeader := Split(token[0], LineEnd);
    var request := new RequestBuilder();
    var i := 0;
    while i < |requestHeader|
      invariant 0 <= i <= |requestHeader|
      invariant !Panics(requestHeader[..i])
      invariant request.httpMethod == MethodField(requestHeader[..i])
      invariant request.path == PathField(requestHeader[..i])
      invariant request.userAgent == UserAgentField(requestHeader[..i])
      invariant request.body == None
    {
      var line := requestHeader[i];
      assert requestHeader[..i + 1] == requestHeader[..i] + [line];
      FieldsStep(requestHeader[..i], line);
      LineKindsDisjoint(line);
      if IsRequestLine(line) {
        var split := Split(line, " ");
        var httpMethod := match split[0] {
          case "GET" => Get
          case "POST" => Post
          case _ => Get
        };
        if |split| < 2 {
          // `expect("Failed to get path")` panics
          assert IsPathless(requestHeader[i]);
          return None;
        }
        assert httpMethod == MethodOf(line) && split[1] == PathOf(line);
        request.SetPath(split[1]);
        request.SetMethod(httpMethod);
      } else if IsUserAgentLine(line) {
        var pieces := Split(line, ": ");
        var userAgent := if |pieces| >= 2 then pieces[1] else "";
        assert userAgent == UserAgentOf(line);
        request.SetUserAgent(userAgent);
      }
      i := i + 1;
    }
    assert requestHeader[..i] == requestHeader;
    if |token| >= 2 {
      request.SetBody(token[1]);
    }
    var built := request.Build();
    return Some(built);
  }

  // ---------------------------------------------------------------------
  // Properties of the parser

  /** Only the text before the first blank line is scanned for header lines:
      whatever follows it never changes the header lines. */
  lemma OnlyHeaderSectionScanned(head: string, rest: string)
    requires Separable(head, HeaderEnd)
    ensures HeaderLines(head + HeaderEnd + rest) == Split(head, LineEnd)
  {
    SplitFirst(head, HeaderEnd, rest);
  }

  /** Without a blank line the whole text is header, and the body is empty. */
  lemma NoBlankLineNoBody(value: string)
    requires NoneBefore(value, HeaderEnd, |value| + 1)
    ensures HeaderLines(value) == Split(value, LineEnd)
    ensures ParsedBody(value) == ""
  {
    SplitWhole(value, HeaderEnd);
  }

  /** The body is the text between the first and the second blank line, not
      everything after the first. */
  lemma BodyIsSecondPiece(head: string, body: string, rest: string)
    requires Separable(head, HeaderEnd) && Separable(body, HeaderEnd)
    ensures ParsedBody(head + HeaderEnd + body + HeaderEnd + rest) == body
  {
    SplitFirst(body, HeaderEnd, rest);
    assert head + HeaderEnd + body + HeaderEnd + rest == head + HeaderEnd + (body + HeaderEnd + rest);
    SplitFirst(head, HeaderEnd, body + HeaderEnd + rest);
  }

  /** With a single blank line, the body is everything after it. */
  lemma BodyRunsToEnd(head: string, body: string)
    requires Separable(head, HeaderEnd) && NoneBefore(body, HeaderEnd, |body| + 1)
    ensures ParsedBody(head + HeaderEnd + body) == body
  {
    SplitFirst(head, HeaderEnd, body);
    SplitWhole(body, HeaderEnd);
  }

  lemma {:induction false} LastIndexSkips(a: seq<string>, x: string, b: seq<string>, p: string -> bool)
    requires !p(x)
    ensures LastLine(a + [x] + b, p) == LastLine(a + b, p)
    decreases |b|
  {
    if b == [] {
      assert a + [x] + b == a + [x];
      assert a + b == a;
      LastIndexSnoc(a, x, p);
    } else {
      var init, y := b[..|b| - 1], b[|b| - 1];
      assert a + [x] + b == (a + [x] + init) + [y];
      assert a + b == (a + init) + [y];
      LastIndexSnoc(a + [x] + init, y, p);
      LastIndexSnoc(a + init, y, p);
      LastIndexSkips(a, x, init, p);
      if p(y) {
        assert (a + [x] + b)[|a + [x] + init|] == y;
        assert (a + b)[|a + init|] == y;
      }
    }
  }

  /** A header line that is neither a request line nor a User-Agent line
      has no effect: dropping it changes no field and no failure. */
  lemma UnrelatedLineIgnored(a: seq<string>, x: string, b: seq<string>)
    requires !IsRequestLine(x) && !IsUserAgentLine(x)
    ensures Panics(a + [x] + b) <==> Panics(a + b)
    ensures MethodField(a + [x] + b) == MethodField(a + b)
    ensures UserAgentField(a + [x] + b) == UserAgentField(a + b)
    ensures !Panics(a + b) ==> PathField(a + [x] + b) == PathField(a + b)
  {
    LastIndexSkips(a, x, b, IsRequestLine);
    LastIndexSkips(a, x, b, IsUserAgentLine);
    var long, short := a + [x] + b, a + b;
    if Panics(long) {
      var k :| 0 <= k < |long| && IsPathless(long[k]);
      if k < |a| { assert short[k] == long[k]; }
      else if k > |a| { assert short[k - 1] == long[k]; }
    }
    if Panics(short) {
      var k :| 0 <= k < |short| && IsPathless(short[k]);
      if k < |a| { assert long[k] == short[k]; }
      else { assert long[k + 1] == short[k]; }
    }
  }

  /** A later request line overrides every earlier one: the last request
      line gives both method and path. */
  lemma LaterRequestLineWins(a: seq<string>, x: string, b: seq<string>)
    requires IsRequestLine(x) && !Panics(a + [x] + b)
    requires forall k :: 0 <= k < |b| ==> !IsRequestLine(b[k])
    ensures HasPath(x)
    ensures MethodField(a + [x] + b) == Some(MethodOf(x))
    ensures PathField(a + [x] + b) == Some(PathOf(x))
  {
    var lines := a + [x] + b;
    assert lines[|a|] == x;
  }

  /** Likewise the last User-Agent line gives the user agent. */
  lemma LaterUserAgentWins(a: seq<string>, x: string, b: seq<string>)
    requires IsUserAgentLine(x)
    requires forall k :: 0 <= k < |b| ==> !IsUserAgentLine(b[k])
    ensures UserAgentField(a + [x] + b) == Some(UserAgentOf(x))
  {
    var lines := a + [x] + b;
    assert lines[|a|] == x;
  }

  /** A request line "m p rest" gives the path `p`, and the method POST only
      when its first token is exactly "POST" ("POSTX" is a GET). */
  lemma RequestLineTokens(m: string, p: string, rest: string)
    requires ' ' !in m && ' ' !in p
    ensures HasPath(m + " " + p + " " + rest) && PathOf(m + " " + p + " " + rest) == p
    ensures MethodOf(m + " " + p + " " + rest) == if m == "POST" then Post else Get
  {
    AbsentFirstChar(m, " ");
    AbsentFirstChar(p, " ");
    SplitFirst(p, " ", rest);
    assert m + " " + p + " " + rest == m + " " + (p + " " + rest);
    SplitFirst(m, " ", p + " " + rest);
  }

  /** A request line with no space, such as "GET", has no path: the parser
      panics on it. */
  lemma BareRequestLinePanics(line: string, rest: string)
    requires IsRequestLine(line) && ' ' !in line && '\r' !in line
    ensures ParseFails(line + HeaderEnd + rest)
  {
    AbsentFirstChar(line, HeaderEnd);
    OnlyHeaderSectionScanned(line, rest);
    AbsentFirstChar(line, LineEnd);
    SplitWhole(line, LineEnd);
    AbsentFirstChar(line, " ");
    SplitWhole(line, " ");
    assert HeaderLines(line + HeaderEnd + rest)[0] == line;
  }

  /** The user agent is the text after "User-Agent: " up to the next ": ". */
  lemma UserAgentValue(v: string, rest: string)
    requires Separable(v, ": ")
    ensures UserAgentOf("User-Agent: " + v + ": " + rest) == v
  {
    AbsentFirstChar("User-Agent", ": ");
    SplitFirst(v, ": ", rest);
    assert "User-Agent: " + v + ": " + rest == "User-Agent" + ": " + (v + ": " + rest);
    SplitFirst("User-Agent", ": ", v + ": " + rest);
  }

  /** A User-Agent line without ": " gives an empty user agent. */
  lemma UserAgentWithoutSeparator(line: string)
    requires NoneBefore(line, ": ", |line| + 1)
    ensures UserAgentOf(line) == ""
  {
    SplitWhole(line, ": ");
  }
}
