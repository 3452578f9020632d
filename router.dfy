/** The route table of `handle_connection`: a top-down match on method and path. */
module Router {
  import opened Text

  const ECHO_PREFIX := "/echo/"
  const FILES_PREFIX := "/files/"

  datatype Route =
    | Root                  // GET /
    | Echo(value: string)   // GET /echo/<value>
    | UserAgentPage         // GET /user-agent
    | ReadFile(name: string)  // GET /files/<name>
    | WriteFile(name: string) // POST /files/<name>
    | NotFound              // anything else

  /** The first arm that matches wins; a prefix arm keeps everything after its prefix verbatim. */
  function RouteOf(verb: string, path: string): (r: Route)
    ensures verb != "GET" && verb != "POST" ==> r == NotFound
    ensures r.WriteFile? <==> verb == "POST" && StartsWith(path, FILES_PREFIX)
    ensures r.Echo? ==> path == ECHO_PREFIX + r.value
    ensures r.ReadFile? || r.WriteFile? ==> path == FILES_PREFIX + r.name
  {
    if verb == "GET" && path == "/" then Root
    else if verb == "GET" && StartsWith(path, ECHO_PREFIX) then Echo(path[|ECHO_PREFIX|..])
    else if verb == "GET" && path == "/user-agent" then UserAgentPage
    else if verb == "GET" && StartsWith(path, FILES_PREFIX) then ReadFile(path[|FILES_PREFIX|..])
    else if verb == "POST" && StartsWith(path, FILES_PREFIX) then WriteFile(path[|FILES_PREFIX|..])
    else NotFound
  }

  /** The one method and path that select a route other than `NotFound`. */
  function RequestFor(r: Route): (mp: (string, string))
    requires !r.NotFound?
  {
    match r
    case Root => ("GET", "/")
    case Echo(v) => ("GET", ECHO_PREFIX + v)
    case UserAgentPage => ("GET", "/user-agent")
    case ReadFile(n) => ("GET", FILES_PREFIX + n)
    case WriteFile(n) => ("POST", FILES_PREFIX + n)
  }

  /** Every route is reached by its request: no earlier arm shadows it. */
  lemma RouteOfRequestFor(r: Route)
    requires !r.NotFound?
    ensures RouteOf(RequestFor(r).0, RequestFor(r).1) == r
  {
    match r
    case Root =>
    case Echo(v) =>
      var p := ECHO_PREFIX + v;
      assert p[..|ECHO_PREFIX|] == ECHO_PREFIX && p[|ECHO_PREFIX|..] == v;
    case UserAgentPage =>
      assert !StartsWith("/user-agent", ECHO_PREFIX) by {
        assert "/user-agent"[1] != ECHO_PREFIX[1];
      }
    case ReadFile(n) =>
      var p := FILES_PREFIX + n;
      assert p[..|FILES_PREFIX|] == FILES_PREFIX && p[|FILES_PREFIX|..] == n;
      assert !StartsWith(p, ECHO_PREFIX) by {
        assert p[1] != ECHO_PREFIX[1];
      }
      assert p != "/user-agent" by {
        assert p[1] != "/user-agent"[1];
      }
    case WriteFile(n) =>
      var p := FILES_PREFIX + n;
      assert p[..|FILES_PREFIX|] == FILES_PREFIX && p[|FILES_PREFIX|..] == n;
  }

  /** Every request that is routed somewhere is exactly that route's request. */
  lemma RequestForRouteOf(verb: string, path: string)
    requires !RouteOf(verb, path).NotFound?
    ensures RequestFor(RouteOf(verb, path)) == (verb, path)
  {
    if StartsWith(path, ECHO_PREFIX) {
      assert path == ECHO_PREFIX + path[|ECHO_PREFIX|..];
    }
    if StartsWith(path, FILES_PREFIX) {
      assert path == FILES_PREFIX + path[|FILES_PREFIX|..];
    }
  }

  /** The fallback is taken exactly when no route's request is the one received. */
  lemma NotFoundIff(verb: string, path: string)
    ensures RouteOf(verb, path) == NotFound <==>
            forall r: Route :: !r.NotFound? ==> RequestFor(r) != (verb, path)
  {
    if RouteOf(verb, path) == NotFound {
      forall r: Route | !r.NotFound? ensures RequestFor(r) != (verb, path) {
        RouteOfRequestFor(r);
      }
    } else {
      RequestForRouteOf(verb, path);
    }
  }

  /** `/echo` without the trailing slash, and an empty request, fall through to 404. */
  lemma FallThroughExamples()
    ensures RouteOf("GET", "/echo") == NotFound
    ensures RouteOf("", "/") == NotFound
    ensures RouteOf("PUT", "/files/a") == NotFound
  {
  }
}
