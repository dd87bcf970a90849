/**
 * The connection pool (q49-connection-pool, Solution.java).
 *
 * Connections are the numbers 0 .. capacity-1. A request gets the lowest free
 * connection, or waits in a first-come-first-served queue when none is free.
 * Expiring a waiting request only forgets it in the waiting set; its queue
 * entry stays behind and is skipped when a released connection looks for the
 * oldest request still waiting.
 */
module ConnectionPool {
  import Strings
  import Ordering

  datatype Pool = Pool(
    capacity: int,
    free: set<int>,
    queue: seq<string>,
    waiting: set<string>,
    holding: map<string, int>)

  /** No connection is held by two requests. */
  predicate Injective(h: map<string, int>) {
    forall a, b :: a in h && b in h && a != b ==> h[a] != h[b]
  }

  /**
   * Every connection is either free or held by exactly one request, waiting
   * requests hold nothing and are still in the queue, and nobody waits while
   * a connection is free.
   */
  ghost predicate Valid(p: Pool) {
    && Injective(p.holding)
    && p.free !! p.holding.Values
    && p.free + p.holding.Values == Ordering.Range(p.capacity)
    && p.waiting !! p.holding.Keys
    && (forall x :: x in p.waiting ==> x in p.queue)
    && (p.free != {} ==> p.waiting == {})
  }

  /** `new ConnectionPool(capacity)`: every connection free, nobody waiting. */
  function Create(capacity: int): (p: Pool)
    ensures Valid(p)
    ensures p.free == Ordering.Range(capacity) && p.holding == map[] && p.waiting == {}
  {
    Pool(capacity, Ordering.Range(capacity), [], {}, map[])
  }

  // ---------------------------------------------------------------------------
  // acquireConnection
  // ---------------------------------------------------------------------------

  /** The request ids have not been used before: the pool's callers never acquire twice with one id. */
  predicate Fresh(p: Pool, req: string) {
    req !in p.holding && req !in p.waiting
  }

  /** `acquireConnection`: the lowest free connection, or -1 after joining the back of the queue. */
  function Acquire(p: Pool, req: string): (r: (Pool, int))
    requires Fresh(p, req)
    ensures p.free != {} ==> Ordering.IsMin(r.1, p.free)
    ensures p.free != {} ==> r.0 == p.(free := p.free - {r.1}, holding := p.holding[req := r.1])
    ensures p.free == {} ==> r.1 == -1 && r.0 == p.(queue := p.queue + [req], waiting := p.waiting + {req})
  {
    if p.free != {} then
      var id := Ordering.Min(p.free);
      (p.(free := p.free - {id}, holding := p.holding[req := id]), id)
    else
      (p.(queue := p.queue + [req], waiting := p.waiting + {req}), -1)
  }

  /** In a valid pool -1 means exactly that every connection is taken. */
  lemma AcquireFails(p: Pool, req: string)
    requires Valid(p) && Fresh(p, req)
    ensures Acquire(p, req).1 == -1 <==> p.free == {}
    ensures Acquire(p, req).1 == -1 ==> req in Acquire(p, req).0.waiting
  {
    if p.free != {} {
      var id := Acquire(p, req).1;
      assert id in Ordering.Range(p.capacity);
    }
  }

  lemma AcquireValid(p: Pool, req: string)
    requires Valid(p) && Fresh(p, req)
    ensures Valid(Acquire(p, req).0)
  {
    if p.free != {} {
      AddValues(p.holding, req, Acquire(p, req).1);
    }
  }

  // ---------------------------------------------------------------------------
  // The waiting queue
  // ---------------------------------------------------------------------------

  /** `pollNextValidWaitingRequest`: the position of the oldest queued request still waiting, or `|q|` when none is. */
  function FirstWaiting(q: seq<string>, w: set<string>): (k: nat)
    ensures k <= |q|
    ensures forall j :: 0 <= j < k ==> q[j] !in w
    ensures k < |q| ==> q[k] in w
  {
    if q == [] then 0
    else if q[0] in w then 0
    else 1 + FirstWaiting(q[1..], w)
  }

  /** A waiting request that is still queued is found. */
  lemma FirstWaitingFinds(q: seq<string>, w: set<string>, x: string)
    requires x in w && x in q
    ensures FirstWaiting(q, w) < |q|
  {
    var k :| 0 <= k < |q| && q[k] == x;
  }

  // ---------------------------------------------------------------------------
  // releaseConnection
  // ---------------------------------------------------------------------------

  /**
   * `releaseConnection`: false when `req` holds nothing. Otherwise the
   * connection passes to the oldest request still waiting, the queue entries
   * before it (all expired) and its own are dropped; with nobody waiting the
   * whole queue is drained and the connection becomes free.
   */
  function Release(p: Pool, req: string): (r: (Pool, bool))
    ensures !r.1 <==> req !in p.holding
    ensures !r.1 ==> r.0 == p
    ensures r.0.capacity == p.capacity
    ensures req !in p.waiting ==> req !in r.0.holding
  {
    if req !in p.holding then (p, false)
    else
      var id := p.holding[req];
      var rest := p.holding - {req};
      var k := FirstWaiting(p.queue, p.waiting);
      if k < |p.queue| then
        var next := p.queue[k];
        assert next in p.waiting;
        (p.(queue := p.queue[k + 1..], waiting := p.waiting - {next}, holding := rest[next := id]), true)
      else
        (p.(free := p.free + {id}, queue := [], holding := rest), true)
  }

  /** The released connection goes to the oldest waiting request; only when nobody waits is it freed. */
  lemma ReleaseHandsOver(p: Pool, req: string)
    requires Valid(p) && req in p.holding
    ensures var k := FirstWaiting(p.queue, p.waiting);
            if p.waiting != {} then
              && k < |p.queue|
              && Release(p, req).0.holding == (p.holding - {req})[p.queue[k] := p.holding[req]]
              && Release(p, req).0.free == p.free
            else
              && Release(p, req).0.free == p.free + {p.holding[req]}
              && Release(p, req).0.holding == p.holding - {req}
  {
    if p.waiting != {} {
      var x :| x in p.waiting;
      FirstWaitingFinds(p.queue, p.waiting, x);
    } else {
      assert FirstWaiting(p.queue, p.waiting) == |p.queue|;
    }
  }

  /** Whoever receives a connection on a release was still waiting. */
  lemma ReleaseGrantsWaiting(p: Pool, req: string, x: string)
    requires Valid(p)
    requires x in Release(p, req).0.holding && x !in p.holding
    ensures x in p.waiting
  {
  }

  lemma ReleaseValuesDrop(h: map<string, int>, req: string)
    requires Injective(h) && req in h
    ensures (h - {req}).Values == h.Values - {h[req]}
    ensures Injective(h - {req})
  {
    var r := h - {req};
    forall v | v in h.Values - {h[req]} ensures v in r.Values {
      var k :| k in h && h[k] == v;
      assert k != req && r[k] == v;
    }
  }

  lemma AddValues(h: map<string, int>, x: string, id: int)
    requires Injective(h) && x !in h && id !in h.Values
    ensures h[x := id].Values == h.Values + {id}
    ensures Injective(h[x := id])
  {
    var r := h[x := id];
    forall v | v in h.Values ensures v in r.Values {
      var k :| k in h && h[k] == v;
      assert r[k] == v;
    }
    assert r[x] == id;
    forall a, b | a in r && b in r && a != b ensures r[a] != r[b] {
      if a == x {
        assert r[b] == h[b];
      } else if b == x {
        assert r[a] == h[a];
      }
    }
  }

  /** After the first waiting request, every request still waiting is still queued. */
  lemma QueuedAfter(q: seq<string>, w: set<string>, k: nat)
    requires k < |q| && k == FirstWaiting(q, w)
    requires forall x :: x in w ==> x in q
    ensures forall x :: x in w - {q[k]} ==> x in q[k + 1..]
  {
    forall x | x in w - {q[k]} ensures x in q[k + 1..] {
      var j :| 0 <= j < |q| && q[j] == x;
      assert j > k;
      assert q[k + 1..][j - k - 1] == x;
    }
  }

  /** With nobody left waiting, draining the queue loses nobody. */
  lemma NoneWaiting(q: seq<string>, w: set<string>)
    requires FirstWaiting(q, w) == |q|
    requires forall x :: x in w ==> x in q
    ensures w == {}
  {
    if x :| x in w {
      FirstWaitingFinds(q, w, x);
    }
  }

  lemma ReleaseValid(p: Pool, req: string)
    requires Valid(p)
    ensures Valid(Release(p, req).0)
  {
    if req in p.holding {
      var id := p.holding[req];
      ReleaseValuesDrop(p.holding, req);
      var k := FirstWaiting(p.queue, p.waiting);
      if k < |p.queue| {
        AddValues(p.holding - {req}, p.queue[k], id);
        QueuedAfter(p.queue, p.waiting, k);
      } else {
        NoneWaiting(p.queue, p.waiting);
      }
    }
  }

  // ---------------------------------------------------------------------------
  // expireRequest
  // ---------------------------------------------------------------------------

  /** `expireRequest`: forgets a waiting request; a request that is not waiting is unaffected. */
  function Expire(p: Pool, req: string): (r: Pool)
    ensures req !in r.waiting && r.waiting + {req} >= p.waiting && r.waiting <= p.waiting
    ensures r.holding == p.holding && r.free == p.free && r.queue == p.queue
    ensures req !in p.waiting ==> r == p
  {
    p.(waiting := p.waiting - {req})
  }

  lemma ExpireValid(p: Pool, req: string)
    requires Valid(p)
    ensures Valid(Expire(p, req))
  {
  }

  /** An expired request never receives a connection from a later release. */
  lemma ExpiredNeverServed(p: Pool, req: string, other: string)
    requires Valid(p) && req !in p.holding
    ensures req !in Release(Expire(p, req), other).0.holding
  {
    ExpireValid(p, req);
    var e := Expire(p, req);
    if req in Release(e, other).0.holding {
      ReleaseGrantsWaiting(e, other, req);
    }
  }

  /** Acquiring with a free connection and releasing it again restores the pool, except that the drained queue is emptied. */
  lemma AcquireRelease(p: Pool, req: string)
    requires Valid(p) && Fresh(p, req) && p.free != {}
    ensures Release(Acquire(p, req).0, req) == (p.(queue := []), true)
  {
    var a := Acquire(p, req);
    assert a.0.waiting == {};
    assert FirstWaiting(a.0.queue, a.0.waiting) == |a.0.queue|;
    assert a.0.holding - {req} == p.holding;
    assert a.0.free + {a.1} == p.free;
  }

  // ---------------------------------------------------------------------------
  // getRequestsWithConnection
  // ---------------------------------------------------------------------------

  /** One line of the listing: request id, a dash, connection id. */
  function Line(req: string, id: int): string {
    req + "-" + Strings.IntToString(id)
  }

  function Lines(keys: seq<string>, h: map<string, int>): (r: seq<string>)
    requires forall k :: k in keys ==> k in h
    ensures |r| == |keys|
    ensures forall i :: 0 <= i < |keys| ==> r[i] == Line(keys[i], h[keys[i]])
  {
    if keys == [] then [] else [Line(keys[0], h[keys[0]])] + Lines(keys[1..], h)
  }

  /** The request ids of `h` in increasing order, each with its connection. */
  ghost predicate ListsHolding(r: seq<string>, keys: seq<string>, h: map<string, int>) {
    && |keys| == |r| == |h|
    && (forall k :: k in keys <==> k in h)
    && (forall i, j :: 0 <= i < j < |keys| ==> Strings.Less(keys[i], keys[j]))
    && (forall i :: 0 <= i < |r| ==> keys[i] in h && r[i] == Line(keys[i], h[keys[i]]))
  }

  /** `getRequestsWithConnection`: one line per holding request, ordered by request id. */
  function Listing(p: Pool): (r: seq<string>)
    ensures exists keys :: ListsHolding(r, keys, p.holding)
  {
    var keys := Ordering.SortedSet(p.holding.Keys);
    var r := Lines(keys, p.holding);
    assert ListsHolding(r, keys, p.holding);
    r
  }
}
