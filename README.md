# A verified model of a small Rust HTTP/1.1 server

The repository is a small HTTP/1.1 server written in Rust. It has two parts.

- **A routing framework** in `src/http`.
  - A request text is parsed into a `Request` by `From<String>`. A `RequestBuilder` fills in the defaults.
  - A `Routes` table holds a GET list, a POST list and an optional not-found route.
  - The table resolves a request by splitting its path on `/` and matching the pieces against route templates. A template segment written `{...}` captures the path segment at its position. The captured values are stored on the request as its parameters.
  - Responses are built with a consuming `ResponseBuilder`, turned into a `Response`, and written out by its `Display` implementation.
- **A single-file server** in `src/main.rs`.
  - It has its own `respond` serializer and a line loop `parse_request`.
  - `handle_connection` is a chain of path tests: paths starting with `/echo`, exactly `/user-agent`, paths starting with `/files` for POST or GET, and exactly `/`. Every other path gets a 404.

This project models both parts in Dafny and proves what they do.

- `options.dfy`: the `Option` type.
- `text.dfy` (`Text`): the parts of Rust's `str` that the code relies on.
  - `split` with a string pattern is `Split`: it yields at least one piece and keeps empty pieces.
  - `replace` is `Replace`.
  - `IndexOf` is the leftmost search that `split` and `replace` perform, the position `find` would return.
  - `Join` is the inverse of `Split` that the model uses to state properties of it.
  - The decimal rendering of a `usize` is `DecimalDigits`.
- `http.dfy` (`Http`): the shared enums and the exact text of their `Display` implementations.
- `request.dfy` (`HttpRequest`): `Request`, `RequestBuilder` and the parser.
  - `FromText` is the parser's loop, proved against a line-by-line specification: the last request line and the last `User-Agent` line win.
  - The lemmas say which part of the text each field comes from.
- `response.dfy` (`HttpResponse`): `ResponseBuilder`, `Response` and their serialization.
  - It proves that the `Content-Length` line frames the body exactly.
  - It also proves that the builder's setters commute and override each other.
- `routes.dfy` (`HttpRoutes`): the route table as a class over sequences.
  - `Resolve` is proved to return the first route, in registration order, that accepts the path.
  - The lemmas about template matching:
    - capturing undoes instantiating a template;
    - instantiating the captured values undoes capturing;
    - a template made only of captures never matches;
    - registering a route never changes an earlier winner.
- `legacy.dfy` (`LegacyServer`): `respond`, the line loop of `parse_request`, and the branch chain of `handle_connection`.
  - The file system is a value passed in.
  - It proves that `respond` writes the same text as the framework's serializer in two cases: a content type with a non-empty message, and neither a type nor a message. It exhibits the two cases where they differ: a content type with an empty message, and `ContentType::None` with a non-empty message.
- `scenarios.dfy` (`Scenarios`): one request taken end to end through both servers.
  - In the framework, `GET /echo/s` is resolved against the template `/echo/{x}` with the single parameter `s`.
  - In the single-file server, the same request is answered with `s` as a text/plain body.

The model follows the code on these points, which are easy to misread:

- Both parsers keep the last request line and the last `User-Agent` line they see, not the first.
- In the framework the body is only the text between the first and second `\r\n\r\n`. Any later text is dropped.
- In the single-file server, request and `User-Agent` lines after the blank line still set those fields.
- `ContentType::None` together with `content(...)` makes the framework write a blank line right after the status line. The `Content-Length` line then falls into the body. This is the code's behaviour, stated as `UntypedContentEndsHeadersEarly`.

Text is taken to be ASCII throughout, so Rust's byte lengths are character counts.

## Model

| member | source | states |
|---|---|---|
| Text.IndexOf | src/http/request.rs:105 | the search `split` performs finds the leftmost occurrence of the pattern, or there is none at all |
| Text.Split | src/http/request.rs:105-106 | `split` yields at least one piece, and no piece contains the delimiter |
| Text.JoinSplit | src/main.rs:135 | joining the pieces of a split with the same delimiter gives back the text |
| Text.SplitFirst | src/http/request.rs:105-106 | when the text before the first delimiter cannot contain it, that text is the first piece and the rest splits on its own |
| Text.SplitJoin | src/http/routes.rs:106 | joining parts free of the delimiter and splitting again gives back the parts |
| Text.Replace | src/main.rs:135 | `replace` changes nothing when the pattern is replaced by itself, or when the pattern does not occur |
| Text.ReplaceScan | src/main.rs:135 | `replace` keeps the text before the leftmost occurrence, writes the replacement, and goes on after the occurrence; with no occurrence the text is unchanged |
| Text.ReplaceLeading | src/main.rs:135 | removing a leading pattern from a text with no other occurrence leaves exactly the rest |
| Text.DecimalDigits | src/http/response.rs:20 | the rendering of a `usize` is non-empty, all decimal digits, and has no leading zero |
| Text.DecimalRoundTrip | src/http/response.rs:20 | reading back the rendered digits gives the number |
| Http.ReasonPhrase | src/http/mod.rs:49-54 | each reason phrase is a single line |
| Http.StatusText | src/http/mod.rs:47-57 | the status text starts with the three decimal digits of the code and a space, and is one line |
| Http.CodeLine | src/http/mod.rs:47-57 | the displayed code is the three digits and a space, one line, ending in CRLF |
| Http.TypeHeader | src/http/mod.rs:35-41 | the header text is one line and is empty exactly for `ContentType::None` |
| Http.TypeLine | src/http/mod.rs:35-44 | the displayed type ends in CRLF and is a bare CRLF exactly for `ContentType::None` |
| Http.CodeLineInjective | src/http/mod.rs:47-57 | different codes display differently |
| Http.TypeLineInjective | src/http/mod.rs:35-44 | different content types display differently |
| HttpRequest.Request.constructor | src/http/request.rs:93-99 | a built request holds the given fields and an empty parameter list |
| HttpRequest.Request.SetParam | src/http/request.rs:33-35 | `set_param` replaces the parameter list and nothing else |
| HttpRequest.RequestBuilder.constructor | src/http/request.rs:47-54 | a new builder has every field unset |
| HttpRequest.RequestBuilder.SetMethod | src/http/request.rs:56-58 | sets the method only |
| HttpRequest.RequestBuilder.SetPath | src/http/request.rs:60-62 | sets the path only |
| HttpRequest.RequestBuilder.SetBody | src/http/request.rs:64-66 | sets the body only |
| HttpRequest.RequestBuilder.SetUserAgent | src/http/request.rs:68-70 | sets the user agent only |
| HttpRequest.RequestBuilder.Build | src/http/request.rs:72-100 | unset fields default to "", GET, "/" and "", and the parameters start empty |
| HttpRequest.LineKindsDisjoint | src/http/request.rs:110-121 | a request line is never treated as a `User-Agent` line |
| HttpRequest.FieldsStep | src/http/request.rs:109-125 | one more header line updates exactly the field its kind names, or panics when it is a request line without a path |
| HttpRequest.FromText | src/http/request.rs:103-132 | the parser fails exactly when some header line is a request line without a path; otherwise the method and path come from the last request line (default GET and "/"), the user agent from the last `User-Agent` line, the body from the second `\r\n\r\n` piece, and the parameters are empty |
| HttpRequest.OnlyHeaderSectionScanned | src/http/request.rs:105-106 | the header lines are the CRLF pieces of the text before the first blank line only |
| HttpRequest.NoBlankLineNoBody | src/http/request.rs:105-129 | without a blank line the whole text is header and the body is empty |
| HttpRequest.BodyIsSecondPiece | src/http/request.rs:127-129 | the body is the text between the first and second `\r\n\r\n`, not everything after the first |
| HttpRequest.BodyRunsToEnd | src/http/request.rs:127-129 | with one blank line the body runs to the end of the text |
| HttpRequest.UnrelatedLineIgnored | src/http/request.rs:109-125 | a line that is neither a request line nor a `User-Agent` line changes no field |
| HttpRequest.LaterRequestLineWins | src/http/request.rs:110-120 | the last request line decides the method and the path |
| HttpRequest.LaterUserAgentWins | src/http/request.rs:121-124 | the last `User-Agent` line decides the user agent |
| HttpRequest.RequestLineTokens | src/http/request.rs:111-117 | the method is the first space-separated token ("POST" gives POST, anything else GET) and the path is the second |
| HttpRequest.BareRequestLinePanics | src/http/request.rs:117 | a request line with no space has no path, and parsing fails |
| HttpRequest.UserAgentValue | src/http/request.rs:122 | the user agent is the text between the first and second ": " |
| HttpRequest.UserAgentWithoutSeparator | src/http/request.rs:122 | a `User-Agent` line without ": " gives the empty user agent |
| HttpResponse.ResponseBuilder.New | src/http/response.rs:39-46 | a new builder has no code and no content |
| HttpResponse.ResponseBuilder.Code | src/http/response.rs:48-51 | sets the code and leaves the content alone |
| HttpResponse.ResponseBuilder.Content | src/http/response.rs:53-58 | sets the type and the body together with a length equal to the body's, and leaves the code alone |
| HttpResponse.ResponseBuilder.ToResponse | src/http/response.rs:61-70 | the code defaults to 200, the body defaults to empty, the type, length and body carry over, and a builder whose content was set together yields a response whose length is its body's |
| HttpResponse.Serialize | src/http/response.rs:12-29 | the text starts with "HTTP/1.1 " and the code line, and ends with CRLF |
| HttpResponse.ChainKeepsContentTogether | src/http/response.rs:48-69 | any sequence of `code` and `content` calls from a fresh builder gives a response whose length matches its body, so the `unwrap` never panics |
| HttpResponse.SettersCommuteAndOverride | src/http/response.rs:48-58 | `code` and `content` commute, and a later call of the same setter overrides an earlier one |
| HttpResponse.SerializeUntyped | src/http/response.rs:14-24 | a response without content is the status line and a blank line |
| HttpResponse.SerializeTyped | src/http/response.rs:14-24 | a response with content is the status line, the type line, the `Content-Length` line, a blank line, the body and a final CRLF |
| HttpResponse.ContentIsFramedByLength | src/http/response.rs:17-24 | with a real content type, the first blank line ends the headers, the last header is `Content-Length: n`, and the body read from there is exactly the content |
| HttpResponse.UntypedContentEndsHeadersEarly | src/http/response.rs:17-21 | content with `ContentType::None` puts a blank line right after the status line, so `Content-Length` lands in the body |
| HttpResponse.TextPlainExample | src/http/response.rs:12-29 | a 200 text/plain "hi" serializes to the exact expected text |
| HttpResponse.EmptyOkExample | src/http/response.rs:12-29 | an untouched builder serializes to "HTTP/1.1 200 Ok" and a blank line |
| HttpRoutes.CaptureShape | src/http/routes.rs:64 | a template segment captures exactly when it is at least two characters long, starts with '{' and ends with '}' |
| HttpRoutes.Captures | src/http/routes.rs:62-65 | one captured value per `{...}` segment of the template |
| HttpRoutes.Instantiate | src/http/routes.rs:62-72 | filling a template's captures gives a path with one segment per template segment |
| HttpRoutes.FirstAccepted | src/http/routes.rs:57-79 | the index found is the first route of the list that accepts the path, and none exists when no route accepts it |
| HttpRoutes.NotFoundResponse | src/http/routes.rs:97-100 | the default not-found handler answers 404 with no content |
| HttpRoutes.NotFoundSerialized | src/http/routes.rs:97-100 | that answer is the exact text "HTTP/1.1 404 Not Found" and a blank line |
| HttpRoutes.Routes.constructor | src/http/routes.rs:33-39 | a new table has no routes and no not-found route |
| HttpRoutes.Routes.RegisterRoute | src/http/routes.rs:105-113 | the route, with its URL split on "/", is appended to its method's list and the other list is unchanged |
| HttpRoutes.Routes.SetNotFoundRoute | src/http/routes.rs:86-89 | the not-found route becomes the given handler with an empty URL |
| HttpRoutes.Routes.GetNotFoundRoute | src/http/routes.rs:91-103 | the set not-found route, or else the default route whose controller answers `NotFoundResponse()`, always with an empty URL |
| HttpRoutes.Routes.Resolve | src/http/routes.rs:43-84 | the result is the first route of the method's list whose template accepts the split path, and the request's parameters become its captures; with no such route the result is none and the parameters are unchanged |
| HttpRoutes.MatchSegments | src/http/routes.rs:58-76 | the segment loop matches exactly when the literals agree and at least one literal is present, and then collects the captures |
| HttpRoutes.CapturesStep | src/http/routes.rs:62-65 | one more segment adds its value to the captures exactly when the template segment is a capture |
| HttpRoutes.CapturesOfInstance | src/http/routes.rs:62-65 | capturing from a filled-in template gives back the values filled in |
| HttpRoutes.InstanceKeepsLiterals | src/http/routes.rs:66-71 | a filled-in template agrees with the template on every literal segment |
| HttpRoutes.AcceptsInstances | src/http/routes.rs:58-76 | a template accepts its filled-in instances exactly when it has a literal segment |
| HttpRoutes.AcceptedPathIsInstance | src/http/routes.rs:62-72 | a path that agrees with a template is that template filled with its own captures |
| HttpRoutes.AllCaptureNeverAccepted | src/http/routes.rs:58-76 | a template made only of captures never matches, because `is_matched` is never set |
| HttpRoutes.CountAllCaptures | src/http/routes.rs:62-65 | a template made only of captures captures every segment |
| HttpRoutes.RegisterKeepsEarlierWinner | src/http/routes.rs:105-113 | appending a route never changes which earlier route wins; it wins only when nothing before it accepts the path |
| HttpRoutes.LeastAccepted | src/http/routes.rs:57-79 | the first accepting route is the one chosen |
| LegacyServer.CodeLine | src/main.rs:46-56 | the single-file server's displayed code is the framework's, code for code: the status text and CRLF |
| LegacyServer.TypeLine | src/main.rs:34-44 | the single-file server's displayed content type is the framework's, type for type: the header text and CRLF |
| LegacyServer.RespondEnvelope | src/main.rs:100-118 | every reply starts with "HTTP/1.1 " and the code line, and ends with CRLF |
| LegacyServer.Respond | src/main.rs:100-118 | the serializer builds exactly the specified reply text |
| LegacyServer.RespondTypeLineIff | src/main.rs:104-107 | a `Content-Type` line follows the status line exactly when the type is not `ContentType::None` |
| LegacyServer.RespondLengthIff | src/main.rs:109-113 | a `Content-Length` line follows exactly when the message is non-empty |
| LegacyServer.RespondLayout | src/main.rs:100-118 | a non-empty reply is the status line, the optional type line, the `Content-Length` line, a blank line, the message and CRLF |
| LegacyServer.RespondHeadSeparable | src/main.rs:100-113 | the header block of a reply contains no blank line of its own |
| LegacyServer.RespondFramed | src/main.rs:109-113 | with a non-empty message, the first blank line ends the headers, the last header is `Content-Length: n`, and the body read from there is exactly the message |
| LegacyServer.RespondAgreesWithFramework | src/main.rs:100-118 | with a content type and a non-empty message, `respond` writes the same text as the framework's builder |
| LegacyServer.RespondAgreesWhenEmpty | src/main.rs:100-118 | without content, `respond` writes the same text as the framework's builder |
| LegacyServer.RespondDiffersOnEmptyContent | src/main.rs:109-113 | with a content type and an empty message, `respond` leaves out the `Content-Length` block that the framework writes |
| LegacyServer.RespondDiffersOnUntypedContent | src/main.rs:104-113 | with `ContentType::None` and a non-empty message, `respond` writes the `Content-Length` block and the message, unlike the framework with the code only, and two characters fewer than the framework with `content(message, None)` |
| LegacyServer.RespondOkExample | src/main.rs:182-184 | the reply to "/" is exactly "HTTP/1.1 200 Ok" and a blank line |
| LegacyServer.RespondTypedEmptyExample | src/main.rs:100-118 | a text/plain reply with an empty message has the type line but no length line |
| LegacyServer.ParseRequest | src/main.rs:67-97 | the loop yields the last request line's method and path (defaults GET and ""), the last `User-Agent` value, and the later lines after the first blank line as the body; a request line without a path panics |
| LegacyServer.LegacyBodyStep | src/main.rs:85-89 | a line joins the body only after a blank line and only when it is neither a request line nor a `User-Agent` line |
| LegacyServer.IgnoredBeforeBlank | src/main.rs:85-89 | before the first blank line nothing goes into the body |
| LegacyServer.BodyAfterBlank | src/main.rs:85-89 | after the first blank line, every other line is appended to the body with no separator |
| LegacyServer.DefaultsWithoutRequestLine | src/main.rs:69-73 | without a request line the path is "" and the method GET |
| LegacyServer.RequestLineAfterBlank | src/main.rs:75-82 | a request line still counts after the blank line, and the last one wins |
| LegacyServer.HandleConnection | src/main.rs:131-188 | each branch's reply: "/echo…" paths answer 200 text/plain with every "/echo/" removed from the path; "/user-agent" answers 200 text/plain with the user agent; "/" answers 200 with no type and no message; a POST of a "/files…" path whose file can be created answers 201 with no content and stores the request body there; a GET of an existing file answers 200 octet-stream with its contents; every 404 is the bare 404 reply; a file is stored exactly when the reply is 201, with the request body and the named path |
| LegacyServer.BranchesExclusive | src/main.rs:134-182 | the path tests of the chain exclude each other |
| LegacyServer.NotFoundIff | src/main.rs:131-188 | the reply is 404 exactly when no branch applies, or the named file cannot be created (POST) or opened (GET) |
| LegacyServer.EchoRoundTrip | src/main.rs:134-137 | "/echo/" + s is answered 200 text/plain with s |
| LegacyServer.EchoRemovesEveryMarker | src/main.rs:135 | every "/echo/" in the path is removed, not just the first |
| LegacyServer.FilePostStoresBody | src/main.rs:145-158 | a POST of "/files/name" that can be created answers 201 and stores the body under the directory |
| LegacyServer.FileGetServesContents | src/main.rs:164-175 | a GET of an existing "/files/name" answers 200 octet-stream with its contents |
| Scenarios.SingleRequestLine | src/http/request.rs:103-132 | a lone GET request line parses to its method and path with an empty body |
| Scenarios.EchoTemplateCaptures | src/http/routes.rs:56-78 | the template "/echo/{x}" accepts "/echo/" + s and captures s |
| Scenarios.EchoThroughFramework | src/http/app.rs:67-72 | a GET of "/echo/" + s, parsed and resolved against a table holding "/echo/{x}", finds that route with parameter s |
| Scenarios.EchoThroughLegacyServer | src/main.rs:131-137 | the single-file server answers the same request with s as a text/plain body |

## Left out

- Sockets, threads, the tokio runtime and the `App` plumbing are not modelled. That means `App::run`, the `handle` and `resolve` functions of app.rs, and the `unwrap` of a failed resolve.
- The decoding of raw bytes is left out: the fixed 512- and 1024-byte reads and `from_utf8_lossy`. The parsers take the decoded text as their input.
- Logging with `println!` and the `Debug` implementations have no effect on results, so they are left out.
- The `unsafe impl Send/Sync` markers are left out, because the model has no concurrency.
- The getters of `Request` and `Route` are left out. In the model they are plain field reads.
- A handler is an opaque value `H`. Calling a controller is not modelled, because its code is application code.
  - The one handler the core defines itself is the default 404 closure. It is modelled as `NotFoundResponse`.
- In `handle_connection` the file system is an input value. `File::create` succeeds exactly on the paths in `creatable`, and `File::open` on the keys of `files`.
  - The spawned task that writes the file is modelled only as the `(path, body)` pair it would store.
  - The panic of `read_to_string` on a file that is not valid UTF-8 is not modelled.
- A parse panic is modelled as a `None` result. This covers the `expect` on a request line without a second space-separated token.
- The single-file server defines its own `HttpMethod` and the same request-line and `User-Agent` handling as the framework's parser. The model shares one definition of each.
- Http.StatusText is written as the digits of the status number, a space and the reason phrase. This is the same text the `Display` implementation writes.
