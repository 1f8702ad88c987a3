/** The route table (src/http/routes.rs): templates split on "/" and kept in
    one bucket per request method, in registration order, plus an optional
    fallback route; and the resolver that matches a request path against the
    templates, segment by segment, capturing the `{...}` segments. */
module HttpRoutes {
  import opened Options
  import opened Text
  import opened Http
  import opened HttpRequest
  import opened HttpResponse

  /** A controller is a shared closure in the source; here it is an opaque
      handler value, or the built-in fallback that answers 404. */
  datatype Controller<H> = Handler(handler: H) | DefaultNotFound

  datatype Route<H> = Route(url: seq<string>, controller: Controller<H>)

  /** A template segment that captures: it starts with '{' and ends with '}'. */
  predicate IsCapture(segment: string) {
    StartsWith(segment, "{") && EndsWith(segment, "}")
  }

  /** A capture segment is brace-delimited and at least two characters long:
      a lone "{" or "}" is a literal. */
  lemma CaptureShape(segment: string)
    ensures IsCapture(segment) <==> 2 <= |segment| && segment[0] == '{' && segment[|segment| - 1] == '}'
  {
  }

  /** Every literal segment of the template equals the path segment at the
      same position. */
  predicate LiteralsAgree(url: seq<string>, path: seq<string>)
    requires |url| == |path|
  {
    forall i :: 0 <= i < |url| && !IsCapture(url[i]) ==> url[i] == path[i]
  }

  /** The template has at least one literal segment. */
  predicate HasLiteral(url: seq<string>) {
    exists i :: 0 <= i < |url| && !IsCapture(url[i])
  }

  /** When `resolve` takes a template for a path: the segment counts agree,
      no literal differs, and, because the match flag is raised only by an
      equal literal, at least one literal is present. */
  predicate Accepts(url: seq<string>, path: seq<string>) {
    |url| == |path| && LiteralsAgree(url, path) && HasLiteral(url)
  }

  /** The path segments at the capture positions of the template, left to
      right. */
  function Captures(url: seq<string>, path: seq<string>): (r: seq<string>)
    requires |url| == |path|
    ensures |r| == CaptureCount(url)
    decreases |url|
  {
    if url == [] then []
    else
      var n := |url| - 1;
      Captures(url[..n], path[..n]) + (if IsCapture(url[n]) then [path[n]] else [])
  }

  /** The number of capture segments of a template. */
  function CaptureCount(url: seq<string>): nat
    decreases |url|
  {
    if url == [] then 0
    else CaptureCount(url[..|url| - 1]) + (if IsCapture(url[|url| - 1]) then 1 else 0)
  }

  /** The path obtained from a template by putting `values`, in order, in
      place of its capture segments. */
  function Instantiate(url: seq<string>, values: seq<string>): (r: seq<string>)
    requires |values| == CaptureCount(url)
    ensures |r| == |url|
    decreases |url|
  {
    if url == [] then []
    else
      var n := |url| - 1;
      if IsCapture(url[n]) then Instantiate(url[..n], values[..|values| - 1]) + [values[|values| - 1]]
      else Instantiate(url[..n], values) + [url[n]]
  }

  /** The index of the first route in `bucket`, at or after `from`, that
      accepts `path`. */
  function FirstAcceptedFrom<H>(bucket: seq<Route<H>>, path: seq<string>, from: nat): (r: Option<nat>)
    requires from <= |bucket|
    ensures r.Some? ==> from <= r.value < |bucket| && Accepts(bucket[r.value].url, path)
    ensures r.Some? ==> forall j :: from <= j < r.value ==> !Accepts(bucket[j].url, path)
    ensures r.None? ==> forall j :: from <= j < |bucket| ==> !Accepts(bucket[j].url, path)
    decreases |bucket| - from
  {
    if from == |bucket| then None
    else if Accepts(bucket[from].url, path) then Some(from)
    else FirstAcceptedFrom(bucket, path, from + 1)
  }

  /** The index of the earliest registered route that accepts `path`. */
  function FirstAccepted<H>(bucket: seq<Route<H>>, path: seq<string>): (r: Option<nat>)
    ensures r.Some? ==> r.value < |bucket| && Accepts(bucket[r.value].url, path)
    ensures r.Some? ==> forall j :: 0 <= j < r.value ==> !Accepts(bucket[j].url, path)
    ensures r.None? ==> forall j :: 0 <= j < |bucket| ==> !Accepts(bucket[j].url, path)
  {
    FirstAcceptedFrom(bucket, path, 0)
  }

  /** The response the built-in fallback produces: 404 with no content. */
  function NotFoundResponse(): (r: Response)
    ensures r.httpCode == Err404 && r.contentType.None? && WellFramed(r)
  {
    ResponseBuilder.New().Code(Err404).ToResponse()
  }

  /** The reply a controller gives when the core itself defines it: the
      built-in fallback answers `NotFoundResponse()`; a registered handler is
      application code, so its reply is not known here. */
  function DefaultReply<H>(c: Controller<H>): Option<Response> {
    match c
    case DefaultNotFound => Some(NotFoundResponse())
    case Handler(_) => None
  }

  /** The fallback's reply on the wire is the bare 404 status line and the
      blank line. */
  lemma NotFoundSerialized()
    ensures Serialize(NotFoundResponse()) == "HTTP/1.1 404 Not Found\r\n\r\n"
  {
    SerializeUntyped(ResponseBuilder.New().Code(Err404));
    assert CodeLine(Err404) == "404 Not Found\r\n";
    var out := StatusLinePrefix + "404 Not Found\r\n";
    assert out == "HTTP/1.1 404 Not Found\r\n";
    out := out + LineEnd;
    assert out == "HTTP/1.1 404 Not Found\r\n\r\n";
  }

  class Routes<H> {
    var get: seq<Route<H>>
    var post: seq<Route<H>>
    var notFoundRoute: Option<Route<H>>

    /** The fallback route, when installed, has an empty template. */
    predicate Valid()
      reads this
    {
      notFoundRoute.Some? ==> notFoundRoute.value.url == []
    }

    /** `Routes::new`: both buckets empty, no fallback. */
    constructor ()
      ensures get == [] && post == [] && notFoundRoute == None
      ensures Valid()
    {
      get := [];
      post := [];
      notFoundRoute := None;
    }

    /** The bucket `resolve` searches for a request method. */
    function Bucket(m: HttpMethod): seq<Route<H>>
      reads this
    {
      match m
      case Get => get
      case Post => post
    }

    /** `register_route`: the template split on "/" goes, with its handler,
        to the end of its method's bucket; the other bucket and the fallback
        are unchanged. */
    method RegisterRoute(m: HttpMethod, url: string, controller: H)
      modifies this`get, this`post
      ensures Bucket(m) == old(Bucket(m)) + [Route(Split(url, "/"), Handler(controller))]
      ensures m == Get ==> post == old(post)
      ensures m == Post ==> get == old(get)
      ensures Valid() == old(Valid())
    {
      var route := Route(Split(url, "/"), Handler(controller));
      match m
      case Get => get := get + [route];
      case Post => post := post + [route];
    }

    /** `set_not_found_route`: installs the fallback with an empty template;
        the buckets are untouched. */
    method SetNotFoundRoute(controller: H)
      modifies this`notFoundRoute
      ensures notFoundRoute == Some(Route([], Handler(controller)))
      ensures Valid()
    {
      notFoundRoute := Some(Route([], Handler(controller)));
    }

    /** `get_not_found_route`: the installed fallback, or else a route with
        an empty template whose controller answers 404. */
    function GetNotFoundRoute(): (r: Route<H>)
      reads this
      ensures Valid() ==> r.url == []
      ensures notFoundRoute.Some? ==> r == notFoundRoute.value
      ensures notFoundRoute.None? ==> r == Route([], DefaultNotFound)
      ensures notFoundRoute.None? ==> DefaultReply(r.controller) == Some(NotFoundResponse())
    {
      notFoundRoute.GetOr(Route([], DefaultNotFound))
    }

    /** `resolve`: in the bucket of the request's method, the first route in
        registration order that accepts the path's "/"-separated segments; its
        captures become the request's parameters. When no route accepts the
        path, nothing is returned and the parameters are left as they were. */
    method Resolve(request: Request) returns (r: Option<Route<H>>)
      modifies request`param
      ensures var bucket := Bucket(request.httpMethod);
              var path := Split(request.path, "/");
              match FirstAccepted(bucket, path)
              case Some(k) => r == Some(bucket[k]) && request.param == Captures(bucket[k].url, path)
              case None => r == None && request.param == old(request.param)
    {
      var routes := Bucket(request.httpMethod);
      var path := Split(request.path, "/");
      var k := 0;
      while k < |routes|
        invariant 0 <= k <= |routes|
        invariant forall j :: 0 <= j < k ==> !Accepts(routes[j].url, path)
        invariant request.param == old(request.param)
      {
        var route := routes[k];
        if |route.url| == |path| {
          var isMatched, dynamicParam := MatchSegments(route.url, path);
          if isMatched {
            request.SetParam(dynamicParam);
            return Some(route);
          }
        }
        k := k + 1;
      }
      return None;
    }
  }

  /** The segment-by-segment comparison inside `resolve` for a template and
      a path of the same length: a capture segment collects the path segment,
      a differing literal stops the comparison unmatched, an equal literal
      raises the match flag. The flag ends raised exactly when the template
      accepts the path, and then the collected segments are its captures. */
  method MatchSegments(url: seq<string>, path: seq<string>) returns (isMatched: bool, dynamicParam: seq<string>)
    requires |url| == |path|
    ensures isMatched <==> Accepts(url, path)
    ensures isMatched ==> dynamicParam == Captures(url, path)
  {
    isMatched := false;
    dynamicParam := [];
    var i := 0;
    while i < |path|
      invariant 0 <= i <= |path|
      invariant forall m :: 0 <= m < i && !IsCapture(url[m]) ==> url[m] == path[m]
      invariant isMatched <==> exists m :: 0 <= m < i && !IsCapture(url[m])
      invariant dynamicParam == Captures(url[..i], path[..i])
    {
      var part := url[i];
      CapturesStep(url, path, i);
      if StartsWith(part, "{") && EndsWith(part, "}") {
        dynamicParam := dynamicParam + [path[i]];
      } else if path[i] != part {
        isMatched := false;
        assert !LiteralsAgree(url, path);
        break;
      } else {
        isMatched := true;
      }
      i := i + 1;
    }
    assert isMatched ==> url[..i] == url && path[..i] == path;
  }

  /** The captures of one more segment. */
  lemma CapturesStep(url: seq<string>, path: seq<string>, i: nat)
    requires i < |url| == |path|
    ensures Captures(url[..i + 1], path[..i + 1])
            == Captures(url[..i], path[..i]) + (if IsCapture(url[i]) then [path[i]] else [])
  {
    assert url[..i + 1][..i] == url[..i] && path[..i + 1][..i] == path[..i];
  }

  /** Reading back the captures of an instantiated template gives the values
      put in. */
  lemma {:induction false} CapturesOfInstance(url: seq<string>, values: seq<string>)
    requires |values| == CaptureCount(url)
    ensures Captures(url, Instantiate(url, values)) == values
    decreases |url|
  {
    if url != [] {
      var n := |url| - 1;
      var path := Instantiate(url, values);
      assert path[..n] == Instantiate(url[..n], if IsCapture(url[n]) then values[..|values| - 1] else values);
      if IsCapture(url[n]) {
        CapturesOfInstance(url[..n], values[..|values| - 1]);
      } else {
        CapturesOfInstance(url[..n], values);
      }
    }
  }

  /** An instantiated template keeps every literal segment in place. */
  lemma {:induction false} InstanceKeepsLiterals(url: seq<string>, values: seq<string>)
    requires |values| == CaptureCount(url)
    ensures LiteralsAgree(url, Instantiate(url, values))
    decreases |url|
  {
    if url != [] {
      var n := |url| - 1;
      var path := Instantiate(url, values);
      var vs := if IsCapture(url[n]) then values[..|values| - 1] else values;
      assert path[..n] == Instantiate(url[..n], vs);
      InstanceKeepsLiterals(url[..n], vs);
      forall i | 0 <= i < |url| && !IsCapture(url[i])
        ensures url[i] == path[i]
      {
        if i < n {
          assert url[..n][i] == url[i];
        }
      }
    }
  }

  /** A template accepts the paths obtained by filling in its captures
      exactly when it has a literal segment. */
  lemma AcceptsInstances(url: seq<string>, values: seq<string>)
    requires |values| == CaptureCount(url)
    ensures Accepts(url, Instantiate(url, values)) <==> HasLiteral(url)
  {
    InstanceKeepsLiterals(url, values);
  }

  /** Conversely, every path a template accepts is the template with the
      path's captures filled in. */
  lemma {:induction false} AcceptedPathIsInstance(url: seq<string>, path: seq<string>)
    requires |url| == |path| && LiteralsAgree(url, path)
    ensures Instantiate(url, Captures(url, path)) == path
    decreases |url|
  {
    if url != [] {
      var n := |url| - 1;
      var caps := Captures(url, path);
      var front := Captures(url[..n], path[..n]);
      assert caps[..|front|] == front;
      assert LiteralsAgree(url[..n], path[..n]) by {
        forall i | 0 <= i < n && !IsCapture(url[..n][i])
          ensures url[..n][i] == path[..n][i]
        {
          assert url[..n][i] == url[i];
        }
      }
      AcceptedPathIsInstance(url[..n], path[..n]);
      if IsCapture(url[n]) {
        assert caps[..|caps| - 1] == front && caps[|caps| - 1] == path[n];
      } else {
        assert caps == front && url[n] == path[n];
      }
      assert path == path[..n] + [path[n]];
    }
  }

  /** A template made only of captures is never taken, whatever the path. */
  lemma AllCaptureNeverAccepted(url: seq<string>, path: seq<string>)
    requires forall i :: 0 <= i < |url| ==> IsCapture(url[i])
    ensures !Accepts(url, path)
    ensures CaptureCount(url) == |url|
  {
    CountAllCaptures(url);
  }

  lemma {:induction false} CountAllCaptures(url: seq<string>)
    requires forall i :: 0 <= i < |url| ==> IsCapture(url[i])
    ensures CaptureCount(url) == |url|
    decreases |url|
  {
    if url != [] {
      CountAllCaptures(url[..|url| - 1]);
    }
  }

  /** Registering a route never changes which route an earlier match
      resolves to; a path nothing matched before resolves to the new route
      exactly when the new template accepts it. */
  lemma {:induction false} RegisterKeepsEarlierWinner<H>(bucket: seq<Route<H>>, route: Route<H>, path: seq<string>)
    ensures FirstAccepted(bucket + [route], path)
            == match FirstAccepted(bucket, path)
               case Some(k) => Some(k)
               case None => if Accepts(route.url, path) then Some(|bucket|) else None
  {
    var b := bucket + [route];
    assert forall j :: 0 <= j < |bucket| ==> b[j] == bucket[j];
    assert b[|bucket|] == route;
    match FirstAccepted(bucket, path)
    case Some(k) =>
      LeastAccepted(b, path, k);
    case None =>
      if Accepts(route.url, path) {
        LeastAccepted(b, path, |bucket|);
      }
  }

  /** An accepted route with no accepted route before it is the first one. */
  lemma LeastAccepted<H>(bucket: seq<Route<H>>, path: seq<string>, k: nat)
    requires k < |bucket| && Accepts(bucket[k].url, path)
    requires forall j :: 0 <= j < k ==> !Accepts(bucket[j].url, path)
    ensures FirstAccepted(bucket, path) == Some(k)
  {
  }
}
