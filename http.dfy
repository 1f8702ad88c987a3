/** The protocol vocabulary of the framework (src/http/mod.rs): request
    methods, status codes and content types, with the exact wire text their
    `Display` implementations produce. */
module Http {
  import opened Text

  /** The two request methods; equality is structural (`#[derive(PartialEq)]`). */
  datatype HttpMethod = Get | Post

  datatype HttpCode = Ok200 | Ok201 | Err404 | Err500

  /** `ContentType::None` is `NoType` here. */
  datatype ContentType = TextPlain | OctetStream | NoType

  const LineEnd := "\r\n"

  /** The blank line that ends a header section. */
  const HeaderEnd := "\r\n\r\n"

  /** Text with no carriage return and no line feed in it. */
  predicate OneLine(s: string) {
    '\r' !in s && '\n' !in s
  }

  /** The numeric status code a variant stands for. */
  function StatusNumber(c: HttpCode): nat {
    match c
    case Ok200 => 200
    case Ok201 => 201
    case Err404 => 404
    case Err500 => 500
  }

  /** The reason phrase written after each status code. */
  function ReasonPhrase(c: HttpCode): (r: string)
    ensures OneLine(r)
  {
    match c
    case Ok200 => "Ok"
    case Ok201 => "Created"
    case Err404 => "Not Found"
    case Err500 => "Internal Server Error"
  }

  /** The status code and reason phrase, without the line ending: "200 Ok",
      "201 Created", "404 Not Found", "500 Internal Server Error". */
  function StatusText(c: HttpCode): (r: string)
    ensures |r| > 4 && r[3] == ' ' && OneLine(r)
    ensures r[..3] == DecimalDigits(StatusNumber(c))
  {
    ThreeDigits(StatusNumber(c));
    var d := DecimalDigits(StatusNumber(c));
    assert forall i :: 0 <= i < |d| ==> IsDigit(d[i]);
    var r := d + " " + ReasonPhrase(c);
    assert r[..3] == d;
    r
  }

  /** `Display` for `HttpCode`: the rest of the status line after "HTTP/1.1 ".
      It starts with the three digits of the status code and is one line
      terminated by CRLF. */
  function CodeLine(c: HttpCode): (r: string)
    ensures |r| > 6 && r[..3] == DecimalDigits(StatusNumber(c)) && r[3] == ' '
    ensures EndsWith(r, LineEnd) && OneLine(r[..|r| - 2])
  {
    var s := StatusText(c);
    assert (s + LineEnd)[..|s|] == s;
    s + LineEnd
  }

  /** The `Content-Type` header text, empty for `NoType`. */
  function TypeHeader(t: ContentType): (r: string)
    ensures OneLine(r)
    ensures r == "" <==> t == NoType
  {
    match t
    case TextPlain => "Content-Type: text/plain"
    case OctetStream => "Content-Type: application/octet-stream"
    case NoType => ""
  }

  /** `Display` for `ContentType`: a header line terminated by CRLF, or a bare
      CRLF for `NoType`. */
  function TypeLine(t: ContentType): (r: string)
    ensures EndsWith(r, LineEnd) && OneLine(r[..|r| - 2])
    ensures r == LineEnd <==> t == NoType
  {
    var h := TypeHeader(t);
    assert (h + LineEnd)[..|h|] == h;
    h + LineEnd
  }

  /** Distinct status codes render distinctly: the three leading digits
      already tell them apart. */
  lemma CodeLineInjective(a: HttpCode, b: HttpCode)
    requires CodeLine(a) == CodeLine(b)
    ensures a == b
  {
    DecimalRoundTrip(StatusNumber(a));
    DecimalRoundTrip(StatusNumber(b));
  }

  /** Distinct content types render distinctly. */
  lemma TypeLineInjective(a: ContentType, b: ContentType)
    requires TypeLine(a) == TypeLine(b)
    ensures a == b
  {
    var ha, hb := TypeHeader(a), TypeHeader(b);
    assert ha == TypeLine(a)[..|TypeLine(a)| - 2];
    assert hb == TypeLine(b)[..|TypeLine(b)| - 2];
  }

  /** One more line after a header text ends the block no earlier: if the
      first blank line after `x` is at its end, then so it is after
      `x + CRLF + y` for a non-empty single line `y`. */
  lemma SeparableNextLine(x: string, y: string)
    requires Separable(x, HeaderEnd) && y != "" && OneLine(y)
    ensures Separable(x + LineEnd + y, HeaderEnd)
  {
    var p := x + LineEnd + y;
    var s := p + HeaderEnd;
    assert s[..|x| + 2] == (x + HeaderEnd)[..|x| + 2];
    assert s[|x| + 1] == '\n';
    assert forall k :: 0 <= k < |y| ==> s[|x| + 2 + k] == y[k];
    assert y[0] in y;
    forall j: nat | j < |p|
      ensures !OccursAt(s, HeaderEnd, j)
    {
      if j + 4 <= |s| {
        if j + 4 <= |x| + 2 {
          assert s[j..j + 4] == s[..|x| + 2][j..j + 4] == (x + HeaderEnd)[j..j + 4];
          assert !OccursAt(x + HeaderEnd, HeaderEnd, j);
        } else if j == |x| - 1 {
          assert s[j..j + 4][3] == y[0] != HeaderEnd[3];
        } else if j == |x| {
          assert s[j..j + 4][2] == y[0] != HeaderEnd[2];
        } else if j == |x| + 1 {
          assert s[j..j + 4][0] == '\n' != HeaderEnd[0];
        } else {
          assert y[j - |x| - 2] in y;
          assert s[j..j + 4][0] == y[j - |x| - 2] != HeaderEnd[0];
        }
      }
    }
  }
}
