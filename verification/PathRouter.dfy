/** Choosing a route by its path prefix and rewriting the path (`PathManager::get`,
    `rebuild_path_and_query`). */
module PathRouter {
  import opened Wrappers

  /** The route is a prefix of the path and ends where a segment ends; a route of one character is the
      default route. */
  predicate Matches(route: string, path: string) {
    route <= path && (|route| == 1 || |path| == |route| || path[|route|] == '/')
  }

  /** A route matches the path itself and what goes on behind it with a segment, so that `/app` does not match
      `/apple`; one of a single character matches whatever begins with it. */
  lemma SegmentsDecide(route: string, path: string)
    ensures Matches(route, path) <==> route == path || route + "/" <= path || (|route| == 1 && route <= path)
  {
    var n := |route|;
    if Matches(route, path) && n < |path| && path[n] == '/' {
      assert route + "/" == path[..n + 1];
    }
    if route + "/" <= path {
      assert route + "/" == path[..n + 1] && (route + "/")[n] == '/' && route == (route + "/")[..n] == path[..n];
    }
  }

  /** The scan over the routes, in the order the table happens to list them; of equally long matches the
      last one wins. */
  function Best(routes: seq<string>, path: string): Option<string> {
    if routes == [] then None
    else
      var n := |routes| - 1;
      var best := Best(routes[..n], path);
      if Matches(routes[n], path) && (best.None? || |best.value| <= |routes[n]|) then Some(routes[n]) else best
  }

  function Table(routes: seq<string>): set<string> {
    set r | r in routes
  }

  /** `r` is a longest matching route of the table. */
  predicate IsLongest(table: set<string>, path: string, r: Option<string>) {
    match r
    case None => forall route | route in table :: !Matches(route, path)
    case Some(best) =>
      && best in table && Matches(best, path)
      && forall route | route in table && Matches(route, path) :: |route| <= |best|
  }

  lemma {:induction false} BestIsLongest(routes: seq<string>, path: string)
    ensures IsLongest(Table(routes), path, Best(routes, path))
  {
    if routes != [] {
      var n := |routes| - 1;
      BestIsLongest(routes[..n], path);
      assert routes == routes[..n] + [routes[n]];
      assert Table(routes) == Table(routes[..n]) + {routes[n]};
    }
  }

  /** Two matching routes of one length are the same route, so the longest match is unique. */
  lemma LongestIsUnique(table: set<string>, path: string, a: Option<string>, b: Option<string>)
    requires IsLongest(table, path, a) && IsLongest(table, path, b)
    ensures a == b
  {
    if a.Some? && b.Some? {
      assert a.value == path[..|a.value|] && b.value == path[..|b.value|];
    }
  }

  /** The choice does not depend on the order in which the table is scanned. */
  lemma OrderIsIrrelevant(xs: seq<string>, ys: seq<string>, path: string)
    requires Table(xs) == Table(ys)
    ensures Best(xs, path) == Best(ys, path)
  {
    BestIsLongest(xs, path);
    BestIsLongest(ys, path);
    LongestIsUnique(Table(xs), path, Best(xs, path), Best(ys, path));
  }

  /** A longer route that matches is never skipped: every match is a prefix of the chosen route. */
  lemma LongerRouteWins(routes: seq<string>, path: string, route: string)
    requires route in routes && Matches(route, path)
    ensures Best(routes, path).Some? && route <= Best(routes, path).value <= path
  {
    BestIsLongest(routes, path);
    var best := Best(routes, path).value;
    assert route in Table(routes) && |route| <= |best|;
    assert route == path[..|route|] && best == path[..|best|] && best[..|route|] == path[..|route|];
  }

  /** A route that is the whole path is always chosen. */
  lemma ExactRouteWins(routes: seq<string>, path: string)
    requires path in routes
    ensures Best(routes, path) == Some(path)
  {
    LongerRouteWins(routes, path, path);
    assert Best(routes, path).value == path;
  }

  /** A route is found by every path that goes on behind it with a segment; a longer one can only refine it. */
  lemma SegmentIsFound(routes: seq<string>, route: string, rest: string)
    requires route in routes
    ensures var best := Best(routes, route + "/" + rest);
            best.Some? && route <= best.value <= route + "/" + rest
  {
    var path := route + "/" + rest;
    SegmentsDecide(route, path);
    LongerRouteWins(routes, path, route);
  }

  /** What is chosen is a route of the table that is the path, goes on with a segment there or has one
      character, and no other such route is longer. */
  lemma ChosenRouteEndsASegment(routes: seq<string>, path: string)
    requires Best(routes, path).Some?
    ensures var best := Best(routes, path).value;
            && best in routes && best <= path
            && (best == path || best + "/" <= path || |best| == 1)
            && forall r | r in routes && (r == path || r + "/" <= path || (|r| == 1 && r <= path)) :: |r| <= |best|
  {
    BestIsLongest(routes, path);
    SegmentsDecide(Best(routes, path).value, path);
    forall r | r in routes && (r == path || r + "/" <= path || (|r| == 1 && r <= path))
      ensures r in Table(routes) && |r| <= |Best(routes, path).value|
    {
      SegmentsDecide(r, path);
    }
  }

  /** Nothing is chosen if and only if no route is the path, goes on with a segment there or, having one
      character, begins it. */
  lemma NoRouteExactly(routes: seq<string>, path: string)
    ensures Best(routes, path).None? <==>
              forall r | r in routes :: !(r == path || r + "/" <= path || (|r| == 1 && r <= path))
  {
    BestIsLongest(routes, path);
    forall r | r in routes
      ensures r in Table(routes) && (Matches(r, path) <==> r == path || r + "/" <= path || (|r| == 1 && r <= path))
    {
      SegmentsDecide(r, path);
    }
  }

  /** The part of the path and query before the query. */
  function PathPart(data: string): string {
    if data == "" || data[0] == '?' then "" else [data[0]] + PathPart(data[1..])
  }

  lemma {:induction false} PathPartEnds(data: string)
    ensures PathPart(data) <= data && '?' !in PathPart(data)
    ensures |PathPart(data)| == |data| || data[|PathPart(data)|] == '?'
  {
    if data != "" && data[0] != '?' {
      PathPartEnds(data[1..]);
      assert data == [data[0]] + data[1..];
    }
  }

  /** The path ends at the first question mark. */
  lemma {:induction false} PathPartIs(path: string, query: string)
    requires '?' !in path
    ensures PathPart(path + "?" + query) == path && PathPart(path) == path
  {
    if path == "" {
      assert path + "?" + query == "?" + query;
    } else {
      PathPartIs(path[1..], query);
      assert (path + "?" + query)[1..] == path[1..] + "?" + query && path == [path[0]] + path[1..];
    }
  }

  /** The path a request is routed by; an empty one reads as `/`. */
  function PathOf(data: string): string {
    if PathPart(data) == "" then "/" else PathPart(data)
  }

  /** The path and query as text; only if both are empty does it read as `/`. */
  function TextOf(data: string): string {
    if data == "" then "/" else data
  }

  /** `rebuild_path_and_query`; `None` is its error. A request without a path counts as `/`. */
  function Rebuild(data: Option<string>, replace: Option<string>, matched: string): Option<string> {
    var original := if data.Some? then TextOf(data.value) else "/";
    match replace
    case None => Some(original)
    case Some(path) =>
      if matched == "" || |original| < |matched| then None else Some(path + original[|matched|..])
  }

  /** What follows the route in a request. */
  predicate IsRest(rest: string, route: string) {
    |route| == 1 || rest == "" || rest[0] == '/' || rest[0] == '?'
  }

  /** A query without a path in front of it, as in the absolute form `http://host?query`. */
  predicate IsBareQuery(data: string) {
    data != "" && data[0] == '?'
  }

  lemma MatchedTarget(route: string, data: string)
    requires Matches(route, PathOf(data)) && !IsBareQuery(data)
    ensures route <= TextOf(data) && TextOf(data) == route + TextOf(data)[|route|..]
    ensures IsRest(TextOf(data)[|route|..], route)
  {
    var path, text := PathOf(data), TextOf(data);
    PathPartEnds(data);
    assert path <= text && (|path| == |text| || text[|path|] == '?');
    assert route == path[..|route|] == text[..|route|];
    if |route| < |path| {
      assert text[|route|] == path[|route|];
    }
  }

  /** For the chosen route the rewrite fails only if that route is empty. Unless the request is a bare query
      it replaces exactly the route: what remains is empty or goes on with a segment or the query, except
      behind a route of one character. Of a bare query it eats the question mark. */
  lemma RewriteReplacesTheRoute(routes: seq<string>, data: string, replace: string)
    requires Best(routes, PathOf(data)).Some?
    ensures var route, text := Best(routes, PathOf(data)).value, TextOf(data);
            && (Rebuild(Some(data), Some(replace), route).None? <==> route == "")
            && (IsBareQuery(data) && route != "" ==>
                  route == "/" && Rebuild(Some(data), Some(replace), route) == Some(replace + data[1..]))
            && (!IsBareQuery(data) ==>
                  route <= text && text == route + text[|route|..] && IsRest(text[|route|..], route))
            && (!IsBareQuery(data) && route != "" ==>
                  Rebuild(Some(data), Some(replace), route) == Some(replace + text[|route|..]))
  {
    hide Best;
    var path := PathOf(data);
    BestIsLongest(routes, path);
    var route := Best(routes, path).value;
    if !IsBareQuery(data) {
      MatchedTarget(route, data);
    } else {
      assert path == "/" && route <= path;
      assert route == "" || route == "/";
    }
  }

  /** Without a replacement the request goes on unchanged, with `/` for a missing one. */
  lemma UnchangedWithoutReplacement(data: string, matched: string)
    ensures Rebuild(Some(data), None, matched) == Some(if data == "" then "/" else data)
    ensures Rebuild(None, None, matched) == Some("/")
  {
  }

  /** A request behind the route, with a query or without: the replacement takes the place of the route, and
      nothing else changes. */
  lemma RewrittenRequest(route: string, rest: string, query: string, replace: string)
    requires route != "" && '?' !in route && '?' !in rest
    ensures PathOf(route + rest + "?" + query) == PathOf(route + rest) == route + rest
    ensures Rebuild(Some(route + rest + "?" + query), Some(replace), route) == Some(replace + rest + "?" + query)
    ensures Rebuild(Some(route + rest), Some(replace), route) == Some(replace + rest)
  {
    PathPartIs(route + rest, query);
    var data := route + rest + "?" + query;
    assert data[|route|..] == rest + "?" + query && (route + rest)[|route|..] == rest;
    assert replace + (rest + "?" + query) == replace + rest + "?" + query;
  }

  /** The route is a part of the request, and what follows it is kept, if and only if the request is not a bare
      query. */
  lemma RouteIsPrefixExactly(routes: seq<string>, data: string)
    requires Best(routes, PathOf(data)).Some? && Best(routes, PathOf(data)).value != ""
    ensures Best(routes, PathOf(data)).value <= TextOf(data) <==> !IsBareQuery(data)
  {
    RewriteReplacesTheRoute(routes, data, "");
  }

  /** `http://host?x` behind the route `/`, rewritten to `/new`. */
  lemma BareQueryLosesItsMark()
    ensures Best(["/"], PathOf("?x")) == Some("/") && Rebuild(Some("?x"), Some("/new"), "/") == Some("/newx")
  {
    assert ["/"][..0] == [] && Matches("/", "/");
    assert "?x"[1..] == "x" && "/new" + "x" == "/newx";
  }
}
