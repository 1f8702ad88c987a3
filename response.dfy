/** The framework's response (src/http/response.rs): a `ResponseBuilder` whose
    setters consume and return the builder, the `Response` it converts into,
    and the wire text that `Response`'s `Display` writes. */
module HttpResponse {
  import opened Options
  import opened Text
  import opened Http

  const StatusLinePrefix := "HTTP/1.1 "

  const LengthHeader := "Content-Length: "

  datatype Response = Response(
    httpCode: HttpCode,
    contentType: Option<ContentType>,
    contentLength: Option<nat>,
    body: string)

  /** What a response made from a builder satisfies: content type and length
      are present together, the length is that of the body, and without a
      content type the body is empty. */
  predicate WellFramed(r: Response) {
    && (r.contentType.Some? <==> r.contentLength.Some?)
    && (r.contentLength.Some? ==> r.contentLength.value == |r.body|)
    && (r.contentType.None? ==> r.body == "")
  }

  datatype ResponseBuilder = ResponseBuilder(
    httpCode: Option<HttpCode>,
    contentType: Option<ContentType>,
    contentLength: Option<nat>,
    body: Option<string>)
  {
    /** Content type, length and body are set together or not at all, and
        the length is that of the body. */
    predicate ContentTogether() {
      && (contentType.Some? <==> contentLength.Some?)
      && (contentType.Some? <==> body.Some?)
      && (contentLength.Some? ==> contentLength.value == |body.value|)
    }

    /** `ResponseBuilder::new`: nothing set. */
    static function New(): (b: ResponseBuilder)
      ensures b.httpCode.None? && b.contentType.None? && b.ContentTogether()
    {
      ResponseBuilder(None, None, None, None)
    }

    /** `code`: sets the status code and leaves the content untouched. */
    function Code(c: HttpCode): (b: ResponseBuilder)
      ensures b.httpCode == Some(c)
      ensures b.contentType == contentType && b.contentLength == contentLength && b.body == body
    {
      this.(httpCode := Some(c))
    }

    /** `content`: sets type, length and body in one step and leaves the
        status code untouched. */
    function Content(content: string, t: ContentType): (b: ResponseBuilder)
      ensures b.httpCode == httpCode && b.ContentTogether()
      ensures b.contentType == Some(t) && b.body == Some(content)
    {
      this.(contentType := Some(t), contentLength := Some(|content|), body := Some(content))
    }

    /** `From<ResponseBuilder> for Response`: the status code defaults to
        200 and the body to empty. */
    function ToResponse(): (r: Response)
      ensures r.httpCode == httpCode.GetOr(Ok200)
      ensures r.contentType == contentType && r.contentLength == contentLength
      ensures r.body == body.GetOr("")
      ensures ContentTogether() ==> WellFramed(r)
    {
      Response(httpCode.GetOr(Ok200), contentType, contentLength, body.GetOr(""))
    }
  }

  /** `Display` for `Response`: the status line, then, only when a content
      type is present, its header line, the `Content-Length` line, a blank
      line and the body; then one final CRLF. The length is unwrapped when a
      type is present, so it must be there too. */
  function Serialize(r: Response): (s: string)
    requires r.contentType.Some? ==> r.contentLength.Some?
    ensures StartsWith(s, StatusLinePrefix + CodeLine(r.httpCode)) && EndsWith(s, LineEnd)
  {
    var head := StatusLinePrefix + CodeLine(r.httpCode);
    var content :=
      match r.contentType
      case None => ""
      case Some(t) =>
        TypeLine(t) + LengthHeader + DecimalDigits(r.contentLength.value) + HeaderEnd + r.body;
    assert (head + content + LineEnd)[..|head|] == head;
    head + content + LineEnd
  }

  /** One call on a builder. */
  datatype Setter = SetCode(code: HttpCode) | SetContent(content: string, contentType: ContentType)

  /** The builder after a chain of calls, applied left to right. */
  function Chain(b: ResponseBuilder, calls: seq<Setter>): ResponseBuilder
    decreases |calls|
  {
    if calls == [] then b
    else
      var next := match calls[0]
        case SetCode(c) => b.Code(c)
        case SetContent(x, t) => b.Content(x, t);
      Chain(next, calls[1..])
  }

  /** No chain of builder calls separates content type, length and body, so
      every response built from `ResponseBuilder::new()` is well framed and
      its serialization cannot panic on the length. */
  lemma {:induction false} ChainKeepsContentTogether(b: ResponseBuilder, calls: seq<Setter>)
    requires b.ContentTogether()
    ensures Chain(b, calls).ContentTogether()
    ensures WellFramed(Chain(b, calls).ToResponse())
    decreases |calls|
  {
    if calls != [] {
      match calls[0]
      case SetCode(c) => ChainKeepsContentTogether(b.Code(c), calls[1..]);
      case SetContent(x, t) => ChainKeepsContentTogether(b.Content(x, t), calls[1..]);
    }
  }

  /** The two setters touch disjoint fields, so they commute, and a later
      call of the same setter overrides the earlier one. */
  lemma SettersCommuteAndOverride(b: ResponseBuilder, c: HttpCode, c': HttpCode,
                                  x: string, t: ContentType, x': string, t': ContentType)
    ensures b.Code(c).Content(x, t) == b.Content(x, t).Code(c)
    ensures b.Code(c).Code(c') == b.Code(c')
    ensures b.Content(x, t).Content(x', t') == b.Content(x', t')
  {
  }

  /** The exact wire text of a built response without content: the status
      line and a blank line. */
  lemma SerializeUntyped(b: ResponseBuilder)
    requires b.ContentTogether() && b.contentType.None?
    ensures Serialize(b.ToResponse()) == StatusLinePrefix + CodeLine(b.httpCode.GetOr(Ok200)) + LineEnd
  {
  }

  /** The exact wire text of a built response with content: the status line,
      the type line, a `Content-Length` equal to the body's length, a blank
      line, the body and a final CRLF. */
  lemma SerializeTyped(b: ResponseBuilder)
    requires b.ContentTogether() && b.contentType.Some?
    ensures Serialize(b.ToResponse())
            == StatusLinePrefix + CodeLine(b.httpCode.GetOr(Ok200)) + TypeLine(b.contentType.value)
               + LengthHeader + DecimalDigits(|b.body.value|) + HeaderEnd + b.body.value + LineEnd
  {
    var r := b.ToResponse();
    var t, x := b.contentType.value, b.body.value;
    assert r.contentType == Some(t) && r.contentLength.value == |x| && r.body == x;
    var c := CodeLine(r.httpCode);
    assert Serialize(r) == StatusLinePrefix + c + (TypeLine(t) + LengthHeader + DecimalDigits(|x|) + HeaderEnd + x) + LineEnd;
    Flatten(StatusLinePrefix, c, TypeLine(t), LengthHeader, DecimalDigits(|x|), HeaderEnd, x, LineEnd);
  }

  lemma Flatten(p: string, c: string, t: string, l: string, d: string, h: string, x: string, e: string)
    ensures p + c + (t + l + d + h + x) + e == p + c + t + l + d + h + x + e
  {
  }

  /** Three single lines joined by CRLF, the last two non-empty, have their
      first blank line right at their end. */
  lemma HeadLinesSeparable(a: string, b: string, c: string)
    requires OneLine(a) && OneLine(b) && OneLine(c) && b != "" && c != ""
    ensures Separable(a + LineEnd + b + LineEnd + c, HeaderEnd)
  {
    AbsentFirstChar(a, HeaderEnd);
    SeparableNextLine(a, b);
    SeparableNextLine(a + LineEnd + b, c);
  }

  /** The `Content-Length` header text is a single line. */
  lemma LengthLineOneLine(n: nat)
    ensures OneLine(LengthHeader + DecimalDigits(n))
  {
    var d := DecimalDigits(n);
    assert forall i :: 0 <= i < |d| ==> IsDigit(d[i]);
    assert '\r' !in d && '\n' !in d;
  }

  /** `out` is a header block ending with `lengthLine`, the blank line,
      `body` and a final CRLF, and its first blank line is the one after the
      header block: a reader that cuts at the first blank line and takes the
      next `|body|` characters gets exactly `body`. */
  predicate LengthFramed(out: string, lengthLine: string, body: string) {
    && |out| >= |body| + 6
    && IndexOf(out, HeaderEnd) == Some(|out| - |body| - 6)
    && EndsWith(out[..|out| - |body| - 6], lengthLine)
    && out[|out| - |body| - 2..|out| - 2] == body
  }

  /** A header block `h + c` separable from the blank line, followed by a
      body `x` and the final CRLF, is framed by `c` around `x`. */
  lemma FramedText(out: string, h: string, c: string, x: string)
    requires out == h + c + HeaderEnd + x + LineEnd && Separable(h + c, HeaderEnd)
    ensures LengthFramed(out, c, x)
  {
    assert out == (h + c) + HeaderEnd + (x + LineEnd);
    FirstOccurrenceAfter(h + c, HeaderEnd, x + LineEnd);
    assert out[..|h + c|] == h + c;
  }

  lemma RegroupTyped(p: string, s: string, t: string, lh: string, d: string, x: string)
    ensures p + (s + LineEnd) + (t + LineEnd) + lh + d + HeaderEnd + x + LineEnd
         == (p + s + LineEnd + t + LineEnd + (lh + d)) + HeaderEnd + x + LineEnd
  {
  }

  lemma RegroupUntyped(p: string, s: string, lh: string, d: string, x: string)
    ensures p + (s + LineEnd) + LineEnd + lh + d + HeaderEnd + x + LineEnd
         == (p + s) + HeaderEnd + (lh + (d + HeaderEnd + x)) + LineEnd
  {
  }

  /** The output for a real content type, cut at its header block. */
  lemma TypedLayout(b: ResponseBuilder)
    requires b.ContentTogether() && b.contentType.Some? && b.contentType.value != NoType
    ensures var head := StatusLinePrefix + StatusText(b.httpCode.GetOr(Ok200)) + LineEnd
                        + TypeHeader(b.contentType.value) + LineEnd
                        + (LengthHeader + DecimalDigits(|b.body.value|));
            && Serialize(b.ToResponse()) == head + HeaderEnd + b.body.value + LineEnd
            && Separable(head, HeaderEnd)
  {
    var x := b.body.value;
    LengthLineOneLine(|x|);
    HeadLinesSeparable(StatusLinePrefix + StatusText(b.httpCode.GetOr(Ok200)),
                       TypeHeader(b.contentType.value), LengthHeader + DecimalDigits(|x|));
    SerializeTyped(b);
    RegroupTyped(StatusLinePrefix, StatusText(b.httpCode.GetOr(Ok200)), TypeHeader(b.contentType.value),
                 LengthHeader, DecimalDigits(|x|), x);
  }

  /** With a real content type, the first blank line of the output ends a
      header block that announces the body's length, and exactly that many
      characters of body follow it, then the final CRLF. */
  lemma ContentIsFramedByLength(b: ResponseBuilder)
    requires b.ContentTogether() && b.contentType.Some? && b.contentType.value != NoType
    ensures LengthFramed(Serialize(b.ToResponse()), LengthHeader + DecimalDigits(|b.body.value|), b.body.value)
  {
    var x := b.body.value;
    TypedLayout(b);
    FramedText(Serialize(b.ToResponse()), StatusLinePrefix + StatusText(b.httpCode.GetOr(Ok200)) + LineEnd
               + TypeHeader(b.contentType.value) + LineEnd,
               LengthHeader + DecimalDigits(|x|), x);
  }

  /** With `NoType`, the type line is a bare CRLF, so the header block ends
      right after the status line and the `Content-Length` line lands after
      the blank line, among the body text. */
  lemma UntypedContentEndsHeadersEarly(b: ResponseBuilder)
    requires b.ContentTogether() && b.contentType == Some(NoType)
    ensures var out := Serialize(b.ToResponse());
            var line1 := StatusLinePrefix + StatusText(b.httpCode.GetOr(Ok200));
            && IndexOf(out, HeaderEnd) == Some(|line1|)
            && StartsWith(out[|line1| + 4..], LengthHeader)
  {
    SerializeTyped(b);
    RegroupUntyped(StatusLinePrefix, StatusText(b.httpCode.GetOr(Ok200)), LengthHeader,
                   DecimalDigits(|b.body.value|), b.body.value);
    EarlyBlank(StatusLinePrefix + StatusText(b.httpCode.GetOr(Ok200)), LengthHeader,
               DecimalDigits(|b.body.value|) + HeaderEnd + b.body.value);
  }

  /** A single line followed by a blank line: the header block is that line
      alone, and what follows the blank line starts with `h`. */
  lemma EarlyBlank(line: string, h: string, x: string)
    requires OneLine(line)
    ensures var out := line + HeaderEnd + (h + x) + LineEnd;
            && IndexOf(out, HeaderEnd) == Some(|line|)
            && StartsWith(out[|line| + 4..], h)
  {
    var out := line + HeaderEnd + (h + x) + LineEnd;
    assert out == line + HeaderEnd + (h + x + LineEnd);
    AbsentFirstChar(line, HeaderEnd);
    FirstOccurrenceAfter(line, HeaderEnd, h + x + LineEnd);
    assert out[|line| + 4..][..|h|] == h;
  }

  lemma TextPlainExampleText()
    ensures StatusLinePrefix + CodeLine(Ok200) + TypeLine(TextPlain) + LengthHeader
            + DecimalDigits(|"hi"|) + HeaderEnd + "hi" + LineEnd
            == "HTTP/1.1 200 Ok\r\nContent-Type: text/plain\r\nContent-Length: 2\r\n\r\nhi\r\n"
  {
    assert CodeLine(Ok200) == "200 Ok\r\n" by { }
    assert TypeLine(TextPlain) == "Content-Type: text/plain\r\n" by { }
    assert DecimalDigits(|"hi"|) == "2" by { }
    TextPlainExampleLiterals();
  }

  lemma TextPlainExampleLiterals()
    ensures StatusLinePrefix + "200 Ok\r\n" + "Content-Type: text/plain\r\n" + LengthHeader
            + "2" + HeaderEnd + "hi" + LineEnd
            == "HTTP/1.1 200 Ok\r\nContent-Type: text/plain\r\nContent-Length: 2\r\n\r\nhi\r\n"
  {
    var out := StatusLinePrefix + "200 Ok\r\n";
    assert out == "HTTP/1.1 200 Ok\r\n";
    out := out + "Content-Type: text/plain\r\n";
    assert out == "HTTP/1.1 200 Ok\r\nContent-Type: text/plain\r\n";
    out := out + LengthHeader + "2";
    assert out == "HTTP/1.1 200 Ok\r\nContent-Type: text/plain\r\nContent-Length: 2";
    out := out + HeaderEnd + "hi" + LineEnd;
    assert out == "HTTP/1.1 200 Ok\r\nContent-Type: text/plain\r\nContent-Length: 2\r\n\r\nhi\r\n";
  }

  /** A plain-text "hi" with status 200 serializes to exactly
      "HTTP/1.1 200 Ok\r\nContent-Type: text/plain\r\nContent-Length: 2\r\n\r\nhi\r\n". */
  lemma TextPlainExample()
    ensures Serialize(ResponseBuilder.New().Code(Ok200).Content("hi", TextPlain).ToResponse())
            == "HTTP/1.1 200 Ok\r\nContent-Type: text/plain\r\nContent-Length: 2\r\n\r\nhi\r\n"
  {
    SerializeTyped(ResponseBuilder.New().Code(Ok200).Content("hi", TextPlain));
    TextPlainExampleText();
  }

  /** A builder with nothing set serializes to exactly "HTTP/1.1 200 Ok\r\n\r\n". */
  lemma EmptyOkExample()
    ensures Serialize(ResponseBuilder.New().ToResponse()) == "HTTP/1.1 200 Ok\r\n\r\n"
  {
    SerializeUntyped(ResponseBuilder.New());
  }
}
