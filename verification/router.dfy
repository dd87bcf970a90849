/**
 * The middleware path router (q36-middleware-router, Solution.java).
 *
 * A pattern is split on '/' into segments: `*` is a wildcard, a segment
 * starting with ':' is a parameter, anything else is a literal. A concrete
 * path is answered by the most specific matching route (most literals, then
 * most parameters, then most segments, then the earliest added); a query
 * pattern lists every stored route compatible with it, in insertion order.
 */
module Router {
  import opened Common
  import Strings

  datatype SegType = Static | Param | Wildcard

  datatype Parsed = Parsed(segs: seq<string>, types: seq<SegType>, staticCount: nat, paramCount: nat)

  datatype Route = Route(pattern: string, result: string, parsed: Parsed, order: nat)

  /** The routes in insertion order (the `LinkedHashMap`), and the next order number. */
  datatype Router = Router(routes: seq<Route>, counter: nat)

  const NotFound: string := "NOT_FOUND"

  // ---------------------------------------------------------------------------
  // Parsing
  // ---------------------------------------------------------------------------

  function Classify(seg: string): (t: SegType)
    ensures t == Wildcard <==> seg == "*"
    ensures t == Param <==> seg != [] && seg[0] == ':'
  {
    if seg == "*" then Wildcard
    else if |seg| > 0 && seg[0] == ':' then Param
    else Static
  }

  function Count(types: seq<SegType>, t: SegType): nat {
    if types == [] then 0
    else Count(types[..|types| - 1], t) + (if types[|types| - 1] == t then 1 else 0)
  }

  /** Segments line up with their types, no segment is empty, and the counters count the types. */
  predicate WellFormed(p: Parsed) {
    |p.types| == |p.segs| &&
    (forall i :: 0 <= i < |p.segs| ==> p.segs[i] != [] && p.types[i] == Classify(p.segs[i])) &&
    p.staticCount == Count(p.types, Static) && p.paramCount == Count(p.types, Param)
  }

  /** The loop of `parse` over the pieces of `split("/")`, skipping empty pieces. */
  function ParsePieces(raw: seq<string>): (p: Parsed)
    ensures WellFormed(p)
    ensures forall s :: s in p.segs <==> s in raw && s != []
    ensures |p.segs| <= |raw|
  {
    if raw == [] then Parsed([], [], 0, 0)
    else
      var p := ParsePieces(raw[..|raw| - 1]);
      var s := raw[|raw| - 1];
      assert raw == raw[..|raw| - 1] + [s];
      if s == [] then p
      else
        var t := Classify(s);
        var types := p.types + [t];
        assert types[..|types| - 1] == p.types;
        Parsed(p.segs + [s], types,
               p.staticCount + (if t == Static then 1 else 0),
               p.paramCount + (if t == Param then 1 else 0))
  }

  function Parse(path: string): (p: Parsed)
    ensures WellFormed(p)
  {
    if path == [] then Parsed([], [], 0, 0) else ParsePieces(Strings.Split(path, '/'))
  }

  /** Pieces that are all non-empty are kept as they are, in order. */
  lemma {:induction false} ParsePiecesKeeps(raw: seq<string>)
    requires forall k :: 0 <= k < |raw| ==> raw[k] != []
    ensures ParsePieces(raw).segs == raw
  {
    if raw != [] {
      ParsePiecesKeeps(raw[..|raw| - 1]);
      assert raw == raw[..|raw| - 1] + [raw[|raw| - 1]];
    }
  }

  /** Joining non-empty, slash-free segments with '/' and parsing gives the segments back. */
  lemma ParseJoin(segs: seq<string>)
    requires forall k :: 0 <= k < |segs| ==> segs[k] != [] && '/' !in segs[k]
    ensures Parse(Strings.Join(segs, '/')).segs == segs
  {
    if segs != [] {
      Strings.SplitJoin(segs, '/');
      ParsePiecesKeeps(segs);
      assert Strings.Join(segs, '/') != [] by {
        if |segs| > 1 {
          assert Strings.Join(segs, '/') == segs[0] + ['/'] + Strings.Join(segs[1..], '/');
        }
      }
    }
  }

  // ---------------------------------------------------------------------------
  // Matching and precedence
  // ---------------------------------------------------------------------------

  /** The per-position condition of `matchesConcrete`. */
  predicate SegMatches(route: Parsed, req: Parsed, i: nat)
    requires WellFormed(route) && WellFormed(req) && i < |route.segs| && i < |req.segs|
  {
    if route.types[i] == Static then route.segs[i] == req.segs[i] else req.segs[i] != []
  }

  function MatchFrom(req: Parsed, route: Parsed, i: nat): (b: bool)
    requires WellFormed(route) && WellFormed(req) && |req.segs| == |route.segs| && i <= |route.segs|
    ensures b <==> forall k :: i <= k < |route.segs| ==> SegMatches(route, req, k)
    decreases |route.segs| - i
  {
    if i == |route.segs| then true
    else if route.types[i] == Static then
      if route.segs[i] != req.segs[i] then assert !SegMatches(route, req, i); false
      else MatchFrom(req, route, i + 1)
    else if req.segs[i] == [] then false
    else MatchFrom(req, route, i + 1)
  }

  /** `matchesConcrete`: equal length, and every literal of the route equal to the request's segment. */
  function MatchesConcrete(req: Parsed, route: Parsed): (b: bool)
    requires WellFormed(route) && WellFormed(req)
    ensures b <==> |req.segs| == |route.segs| &&
                   forall k :: 0 <= k < |route.segs| && route.types[k] == Static ==> route.segs[k] == req.segs[k]
  {
    if |req.segs| != |route.segs| then false
    else
      var b := MatchFrom(req, route, 0);
      assert forall k :: 0 <= k < |route.segs| ==>
        (SegMatches(route, req, k) <==> (route.types[k] == Static ==> route.segs[k] == req.segs[k]));
      b
  }

  function CompatibleFrom(query: Parsed, stored: Parsed, i: nat): (b: bool)
    requires WellFormed(query) && WellFormed(stored) && |query.segs| == |stored.segs| && i <= |stored.segs|
    ensures b <==> forall k :: i <= k < |stored.segs| && query.types[k] == Static && stored.types[k] == Static ==>
                              query.segs[k] == stored.segs[k]
    decreases |stored.segs| - i
  {
    if i == |stored.segs| then true
    else if query.types[i] == Static && stored.types[i] == Static && query.segs[i] != stored.segs[i] then false
    else CompatibleFrom(query, stored, i + 1)
  }

  /** `isCompatible`: equal length, and no position where both are literals that differ. */
  function IsCompatible(query: Parsed, stored: Parsed): (b: bool)
    requires WellFormed(query) && WellFormed(stored)
    ensures b <==> |query.segs| == |stored.segs| &&
                   forall k :: 0 <= k < |stored.segs| && query.types[k] == Static && stored.types[k] == Static ==>
                     query.segs[k] == stored.segs[k]
  {
    if |query.segs| != |stored.segs| then false else CompatibleFrom(query, stored, 0)
  }

  /** `isBetter`: more literals, then more parameters, then more segments, then earlier insertion. */
  predicate IsBetter(a: Route, b: Route) {
    if a.parsed.staticCount != b.parsed.staticCount then a.parsed.staticCount > b.parsed.staticCount
    else if a.parsed.paramCount != b.parsed.paramCount then a.parsed.paramCount > b.parsed.paramCount
    else if |a.parsed.segs| != |b.parsed.segs| then |a.parsed.segs| > |b.parsed.segs|
    else a.order < b.order
  }

  lemma BetterIrreflexive(a: Route)
    ensures !IsBetter(a, a)
  {
  }

  lemma BetterTransitive(a: Route, b: Route, c: Route)
    requires IsBetter(a, b) && IsBetter(b, c)
    ensures IsBetter(a, c)
  {
  }

  /** Two routes with different insertion numbers are always ranked one way or the other. */
  lemma BetterTotal(a: Route, b: Route)
    requires a.order != b.order
    ensures IsBetter(a, b) || IsBetter(b, a)
  {
  }

  // ---------------------------------------------------------------------------
  // The router
  // ---------------------------------------------------------------------------

  /** Stored routes are well-formed and in increasing insertion order, below the counter. */
  predicate Shaped(r: Router) {
    (forall i :: 0 <= i < |r.routes| ==> WellFormed(r.routes[i].parsed) && r.routes[i].order < r.counter) &&
    (forall i, j :: 0 <= i < j < |r.routes| ==> r.routes[i].order < r.routes[j].order)
  }

  /** Each stored route carries its own pattern's parse, and no pattern is stored twice. */
  ghost predicate Valid(r: Router) {
    Shaped(r) &&
    (forall i :: 0 <= i < |r.routes| ==> r.routes[i].parsed == Parse(r.routes[i].pattern)) &&
    (forall i, j :: 0 <= i < j < |r.routes| ==> r.routes[i].pattern != r.routes[j].pattern)
  }

  function Empty(): (r: Router)
    ensures Valid(r) && r.routes == []
  {
    Router([], 0)
  }

  function IndexOfPattern(routes: seq<Route>, pattern: string): (o: Option<nat>)
    ensures o.None? <==> forall i :: 0 <= i < |routes| ==> routes[i].pattern != pattern
    ensures o.Some? ==> o.value < |routes| && routes[o.value].pattern == pattern
  {
    if routes == [] then None
    else if routes[|routes| - 1].pattern == pattern then Some(|routes| - 1)
    else IndexOfPattern(routes[..|routes| - 1], pattern)
  }

  /** `addRoute`: a stored pattern only gets its result replaced, in place; a new one goes last. */
  function AddRoute(r: Router, pattern: string, result: string): (r': Router)
    ensures |r'.routes| == |r.routes| || |r'.routes| == |r.routes| + 1
    ensures forall i :: 0 <= i < |r.routes| ==>
              r'.routes[i] == if r.routes[i].pattern == pattern then r.routes[i].(result := result) else r.routes[i]
    ensures |r'.routes| == |r.routes| + 1 <==> forall i :: 0 <= i < |r.routes| ==> r.routes[i].pattern != pattern
    ensures |r'.routes| == |r.routes| + 1 ==>
              r'.routes[|r.routes|] == Route(pattern, result, Parse(pattern), r.counter) && r'.counter == r.counter + 1
    requires Valid(r)
  {
    match IndexOfPattern(r.routes, pattern)
    case Some(i) => r.(routes := r.routes[i := r.routes[i].(result := result)])
    case None => Router(r.routes + [Route(pattern, result, Parse(pattern), r.counter)], r.counter + 1)
  }

  lemma AddRoutePreservesValid(r: Router, pattern: string, result: string)
    requires Valid(r)
    ensures Valid(AddRoute(r, pattern, result))
  {
    var r' := AddRoute(r, pattern, result);
    match IndexOfPattern(r.routes, pattern)
    case Some(i) =>
      assert r'.routes == r.routes[i := r.routes[i].(result := result)];
      forall a, b | 0 <= a < b < |r'.routes| ensures r'.routes[a].pattern != r'.routes[b].pattern {
        assert r'.routes[a].pattern == r.routes[a].pattern && r'.routes[b].pattern == r.routes[b].pattern;
      }
    case None =>
      var nr := Route(pattern, result, Parse(pattern), r.counter);
      assert r'.routes == r.routes + [nr];
      forall a, b | 0 <= a < b < |r'.routes| ensures r'.routes[a].pattern != r'.routes[b].pattern {
        if b < |r.routes| { assert r'.routes[a] == r.routes[a] && r'.routes[b] == r.routes[b]; }
      }
  }

  /** The loop of `callRoute`: the best matching route of the prefix scanned so far. */
  function Best(routes: seq<Route>, req: Parsed): (b: Option<Route>)
    requires WellFormed(req) && forall i :: 0 <= i < |routes| ==> WellFormed(routes[i].parsed)
    ensures b.None? <==> forall i :: 0 <= i < |routes| ==> !MatchesConcrete(req, routes[i].parsed)
    ensures b.Some? ==> b.value in routes && MatchesConcrete(req, b.value.parsed)
  {
    if routes == [] then None
    else
      var init := routes[..|routes| - 1];
      var last := routes[|routes| - 1];
      var b := Best(init, req);
      assert routes == init + [last];
      if !MatchesConcrete(req, last.parsed) then b
      else if b.None? || IsBetter(last, b.value) then Some(last)
      else b
  }

  /** No matching route beats the one the scan keeps. */
  lemma {:induction false} BestIsBest(routes: seq<Route>, req: Parsed)
    requires WellFormed(req) && forall i :: 0 <= i < |routes| ==> WellFormed(routes[i].parsed)
    requires forall i, j :: 0 <= i < j < |routes| ==> routes[i].order < routes[j].order
    ensures forall i :: 0 <= i < |routes| && MatchesConcrete(req, routes[i].parsed) ==>
              routes[i] == Best(routes, req).value || IsBetter(Best(routes, req).value, routes[i])
  {
    if routes != [] {
      var init := routes[..|routes| - 1];
      var last := routes[|routes| - 1];
      BestIsBest(init, req);
      var b := Best(init, req);
      var best := Best(routes, req);
      var lastWins := MatchesConcrete(req, last.parsed) && (b.None? || IsBetter(last, b.value));
      assert best == if lastWins then Some(last) else b;
      forall i | 0 <= i < |routes| && MatchesConcrete(req, routes[i].parsed)
        ensures routes[i] == best.value || IsBetter(best.value, routes[i])
      {
        if i < |routes| - 1 {
          assert routes[i] == init[i];
          if lastWins && routes[i] != b.value {
            BetterTransitive(last, b.value, routes[i]);
          }
        } else if !lastWins {
          var k :| 0 <= k < |init| && init[k] == b.value;
          assert b.value.order < last.order;
          BetterTotal(last, b.value);
        }
      }
    }
  }

  /** `callRoute`: the result of the best matching route, or "NOT_FOUND". */
  function CallRoute(r: Router, path: string): (out: string)
    requires Shaped(r)
    ensures (forall i :: 0 <= i < |r.routes| ==> !MatchesConcrete(Parse(path), r.routes[i].parsed)) ==> out == NotFound
    ensures (exists i :: 0 <= i < |r.routes| && MatchesConcrete(Parse(path), r.routes[i].parsed)) ==>
              exists i :: 0 <= i < |r.routes| && MatchesConcrete(Parse(path), r.routes[i].parsed) && out == r.routes[i].result
  {
    match Best(r.routes, Parse(path))
    case None => NotFound
    case Some(b) => b.result
  }

  /** The route `callRoute` answers with beats every other matching route. */
  lemma CallRouteMostSpecific(r: Router, path: string)
    requires Shaped(r)
    ensures var b := Best(r.routes, Parse(path));
            b.Some? ==> (CallRoute(r, path) == b.value.result &&
              forall i :: 0 <= i < |r.routes| && MatchesConcrete(Parse(path), r.routes[i].parsed) ==>
                r.routes[i] == b.value || IsBetter(b.value, r.routes[i]))
  {
    BestIsBest(r.routes, Parse(path));
  }

  function Compatible(routes: seq<Route>, query: Parsed): (out: seq<string>)
    requires WellFormed(query) && forall i :: 0 <= i < |routes| ==> WellFormed(routes[i].parsed)
    ensures |out| <= |routes|
    ensures forall x :: x in out <==>
              exists i :: 0 <= i < |routes| && IsCompatible(query, routes[i].parsed) && routes[i].result == x
  {
    if routes == [] then []
    else
      var init := routes[..|routes| - 1];
      var last := routes[|routes| - 1];
      assert routes == init + [last];
      var out := Compatible(init, query);
      if IsCompatible(query, last.parsed) then out + [last.result] else out
  }

  /** `searchRoutes`: the results of the compatible routes, in insertion order. */
  function SearchRoutes(r: Router, pattern: string): (out: seq<string>)
    requires Shaped(r)
    ensures |out| <= |r.routes|
    ensures forall x :: x in out <==>
              exists i :: 0 <= i < |r.routes| && IsCompatible(Parse(pattern), r.routes[i].parsed) && r.routes[i].result == x
  {
    Compatible(r.routes, Parse(pattern))
  }

  /** Results are listed in insertion order: a later-added compatible route comes after an earlier one. */
  lemma {:induction false} CompatibleAppend(routes: seq<Route>, extra: Route, query: Parsed)
    requires WellFormed(query) && WellFormed(extra.parsed)
    requires forall i :: 0 <= i < |routes| ==> WellFormed(routes[i].parsed)
    ensures Compatible(routes + [extra], query) ==
              Compatible(routes, query) + (if IsCompatible(query, extra.parsed) then [extra.result] else [])
  {
    assert (routes + [extra])[..|routes|] == routes;
  }
}
