/** partition/graph.go: the transaction graph, and the counts that partition/partition_CLPA.go keeps about it. */
module ShardGraph {

  datatype Vertex = Vertex(addr: string)

  datatype Edge = Edge(a: Vertex, b: Vertex)

  /** What adding the edge appends to the list of `v`. */
  function Entries(e: Edge, v: Vertex): seq<Vertex> {
    (if e.a == v then [e.b] else []) + (if e.b == v then [e.a] else [])
  }

  /** Everything `AddEdge` has appended to the list of `v`, in order. */
  function Neighbours(es: seq<Edge>, v: Vertex): seq<Vertex> {
    if es == [] then [] else Neighbours(es[..|es| - 1], v) + Entries(es[|es| - 1], v)
  }

  type Adjacency = map<Vertex, seq<Vertex>>

  /** A missing list reads as an empty one. */
  function ListOf(adj: Adjacency, v: Vertex): seq<Vertex> {
    if v in adj then adj[v] else []
  }

  /** The lists are what adding the edges one by one made them. */
  ghost predicate Lists(adj: Adjacency, es: seq<Edge>) {
    forall v :: ListOf(adj, v) == Neighbours(es, v)
  }

  ghost predicate Covers(vs: set<Vertex>, es: seq<Edge>) {
    forall i | 0 <= i < |es| :: es[i].a in vs && es[i].b in vs
  }

  function Entered(adj: Adjacency, u: Vertex, v: Vertex): Adjacency {
    var one := adj[u := ListOf(adj, u) + [v]];
    one[v := ListOf(one, v) + [u]]
  }

  lemma ListsGrow(adj: Adjacency, es: seq<Edge>, u: Vertex, v: Vertex)
    requires Lists(adj, es)
    ensures Lists(Entered(adj, u, v), es + [Edge(u, v)])
  {
    forall w ensures ListOf(Entered(adj, u, v), w) == Neighbours(es + [Edge(u, v)], w) {
      NeighboursMore(es, Edge(u, v), w);
      EnteredAt(adj, u, v, w);
    }
  }

  lemma NeighboursMore(es: seq<Edge>, e: Edge, w: Vertex)
    ensures Neighbours(es + [e], w) == Neighbours(es, w) + Entries(e, w)
  {
    assert (es + [e])[..|es|] == es;
  }

  lemma EnteredAt(adj: Adjacency, u: Vertex, v: Vertex, w: Vertex)
    ensures ListOf(Entered(adj, u, v), w) == ListOf(adj, w) + Entries(Edge(u, v), w)
  {}

  class Graph {
    var vertexSet: set<Vertex>
    var edgeSet: Adjacency
    ghost var edges: seq<Edge>

    ghost predicate Valid()
      reads this
    {
      Lists(edgeSet, edges) && Covers(vertexSet, edges) && edgeSet.Keys <= vertexSet
    }

    constructor ()
      ensures Valid() && vertexSet == {} && edges == []
    {
      vertexSet, edgeSet, edges := {}, map[], [];
    }

    method AddVertex(v: Vertex)
      requires Valid()
      modifies this`vertexSet
      ensures Valid() && vertexSet == old(vertexSet) + {v}
    {
      vertexSet := vertexSet + {v};
    }

    method AddEdge(u: Vertex, v: Vertex)
      requires Valid()
      modifies this
      ensures Valid() && vertexSet == old(vertexSet) + {u, v} && edges == old(edges) + [Edge(u, v)]
    {
      if u !in vertexSet {
        AddVertex(u);
      }
      if v !in vertexSet {
        AddVertex(v);
      }
      ListsGrow(edgeSet, edges, u, v);
      edgeSet := edgeSet[u := ListOf(edgeSet, u) + [v]];
      edgeSet := edgeSet[v := ListOf(edgeSet, v) + [u]];
      edges := edges + [Edge(u, v)];
    }
  }

  // ---------- Counting ----------

  /** A vertex without an entry reads as being in shard 0. */
  function ShardOf(p: map<Vertex, int>, v: Vertex): int {
    if v in p then p[v] else 0
  }

  predicate Inside(p: map<Vertex, int>, e: Edge, k: int) {
    ShardOf(p, e.a) == k && ShardOf(p, e.b) == k
  }

  predicate Touches(p: map<Vertex, int>, e: Edge, k: int) {
    ShardOf(p, e.a) == k || ShardOf(p, e.b) == k
  }

  predicate Crosses(p: map<Vertex, int>, e: Edge) {
    ShardOf(p, e.a) != ShardOf(p, e.b)
  }

  function One(b: bool): nat {
    if b then 1 else 0
  }

  /** The number of edges with an end in shard `k`: the total weight of the edges associated with label k. */
  function Touching(es: seq<Edge>, p: map<Vertex, int>, k: int): nat {
    if es == [] then 0 else Touching(es[..|es| - 1], p, k) + One(Touches(p, es[|es| - 1], k))
  }

  /** The number of edges between different shards. */
  function Crossing(es: seq<Edge>, p: map<Vertex, int>): nat {
    if es == [] then 0 else Crossing(es[..|es| - 1], p) + One(Crosses(p, es[|es| - 1]))
  }

  function Members(vs: set<Vertex>, p: map<Vertex, int>, k: int): set<Vertex> {
    set v | v in vs && ShardOf(p, v) == k
  }

  // ---------- The recount, list by list ----------

  /** The entries of a neighbour list that lead to shard `k`. */
  function EntriesTo(ns: seq<Vertex>, p: map<Vertex, int>, k: int): nat {
    if ns == [] then 0 else EntriesTo(ns[..|ns| - 1], p, k) + One(ShardOf(p, ns[|ns| - 1]) == k)
  }

  lemma {:induction false} EntriesToAppend(ns: seq<Vertex>, ms: seq<Vertex>, p: map<Vertex, int>, k: int)
    ensures EntriesTo(ns + ms, p, k) == EntriesTo(ns, p, k) + EntriesTo(ms, p, k)
  {
    if ms == [] {
      assert ns + ms == ns;
    } else {
      EntriesToAppend(ns, ms[..|ms| - 1], p, k);
      assert (ns + ms)[..|ns + ms| - 1] == ns + ms[..|ms| - 1];
    }
  }

  /** The entry from `a` to `b` arrives in shard `k`, and starts there exactly if `inside`. */
  predicate Arrives(a: Vertex, b: Vertex, p: map<Vertex, int>, k: int, inside: bool) {
    ShardOf(p, b) == k && (ShardOf(p, a) == k) == inside
  }

  /** The entries that the edges put in the lists of the vertices of `done`, and that arrive in shard `k`. */
  function Arrivals(es: seq<Edge>, p: map<Vertex, int>, k: int, done: set<Vertex>, inside: bool): nat {
    if es == [] then
      0
    else
      var e := es[|es| - 1];
      Arrivals(es[..|es| - 1], p, k, done, inside)
      + One(e.a in done && Arrives(e.a, e.b, p, k, inside))
      + One(e.b in done && Arrives(e.b, e.a, p, k, inside))
  }

  lemma {:induction false} NoArrivals(es: seq<Edge>, p: map<Vertex, int>, k: int, inside: bool)
    ensures Arrivals(es, p, k, {}, inside) == 0
  {
    if es != [] {
      NoArrivals(es[..|es| - 1], p, k, inside);
    }
  }

  lemma EdgeEntries(e: Edge, p: map<Vertex, int>, k: int, v: Vertex)
    ensures EntriesTo(Entries(e, v), p, k)
         == One(e.a == v && ShardOf(p, e.b) == k) + One(e.b == v && ShardOf(p, e.a) == k)
  {
    OneEntry(e.a, p, k);
    OneEntry(e.b, p, k);
    EntriesToAppend(if e.a == v then [e.b] else [], if e.b == v then [e.a] else [], p, k);
  }

  lemma OneEntry(u: Vertex, p: map<Vertex, int>, k: int)
    ensures EntriesTo([u], p, k) == One(ShardOf(p, u) == k) && EntriesTo([], p, k) == 0
  {
    assert [u][..0] == [];
  }

  /** What one vertex adds to the arrivals, in the edges `es`. */
  function ArrivalsFrom(es: seq<Edge>, p: map<Vertex, int>, k: int, inside: bool, v: Vertex): nat {
    if (ShardOf(p, v) == k) == inside then EntriesTo(Neighbours(es, v), p, k) else 0
  }

  function LastArrivals(e: Edge, p: map<Vertex, int>, k: int, inside: bool, v: Vertex): nat {
    One(e.a == v && Arrives(e.a, e.b, p, k, inside)) + One(e.b == v && Arrives(e.b, e.a, p, k, inside))
  }

  lemma EdgeArrivals(es: seq<Edge>, p: map<Vertex, int>, k: int, inside: bool, v: Vertex)
    requires es != []
    ensures ArrivalsFrom(es, p, k, inside, v)
         == ArrivalsFrom(es[..|es| - 1], p, k, inside, v) + LastArrivals(es[|es| - 1], p, k, inside, v)
  {
    var es', e := es[..|es| - 1], es[|es| - 1];
    EntriesToAppend(Neighbours(es', v), Entries(e, v), p, k);
    EdgeEntries(e, p, k, v);
  }

  /** Counting the list of one more vertex. */
  lemma {:induction false} MoreArrivals(es: seq<Edge>, p: map<Vertex, int>, k: int, done: set<Vertex>, inside: bool, v: Vertex)
    requires v !in done
    ensures Arrivals(es, p, k, done + {v}, inside)
         == Arrivals(es, p, k, done, inside) + ArrivalsFrom(es, p, k, inside, v)
  {
    if es == [] {
      assert EntriesTo([], p, k) == 0;
    } else {
      MoreArrivals(es[..|es| - 1], p, k, done, inside, v);
      EdgeArrivals(es, p, k, inside, v);
    }
  }

  /** Edges with exactly one end in shard `k`. */
  function Leaving(es: seq<Edge>, p: map<Vertex, int>, k: int): nat {
    if es == [] then
      0
    else
      Leaving(es[..|es| - 1], p, k) + One(Touches(p, es[|es| - 1], k) && !Inside(p, es[|es| - 1], k))
  }

  function Within(es: seq<Edge>, p: map<Vertex, int>, k: int): nat {
    if es == [] then 0 else Within(es[..|es| - 1], p, k) + One(Inside(p, es[|es| - 1], k))
  }

  /** Every edge is entered in two lists: an edge inside a shard arrives there twice, one that leaves it once. */
  lemma {:induction false} AllArrivals(es: seq<Edge>, p: map<Vertex, int>, k: int, vs: set<Vertex>)
    requires Covers(vs, es)
    ensures Arrivals(es, p, k, vs, false) == Leaving(es, p, k)
    ensures Arrivals(es, p, k, vs, true) == 2 * Within(es, p, k)
    ensures Touching(es, p, k) == Leaving(es, p, k) + Within(es, p, k)
  {
    if es != [] {
      AllArrivals(es[..|es| - 1], p, k, vs);
      assert es[|es| - 1].a in vs;
    }
  }

  function SumOf(ns: seq<int>): int {
    if ns == [] then 0 else SumOf(ns[..|ns| - 1]) + ns[|ns| - 1]
  }

  function LeavingUpTo(es: seq<Edge>, p: map<Vertex, int>, n: nat): nat {
    if n == 0 then 0 else LeavingUpTo(es, p, n - 1) + Leaving(es, p, n - 1)
  }

  /** The ends that an edge between different shards has in the first `n` shards. */
  function EndsUpTo(e: Edge, p: map<Vertex, int>, n: nat): nat {
    if Crosses(p, e) then One(0 <= ShardOf(p, e.a) < n) + One(0 <= ShardOf(p, e.b) < n) else 0
  }

  lemma {:induction false} LeavingUpToMore(es: seq<Edge>, p: map<Vertex, int>, n: nat)
    requires es != []
    ensures LeavingUpTo(es, p, n) == LeavingUpTo(es[..|es| - 1], p, n) + EndsUpTo(es[|es| - 1], p, n)
  {
    if n > 0 {
      LeavingUpToMore(es, p, n - 1);
    }
  }

  ghost predicate InRange(p: map<Vertex, int>, n: nat) {
    forall v | v in p :: 0 <= p[v] < n
  }

  lemma {:induction false} NothingLeaves(p: map<Vertex, int>, n: nat)
    ensures LeavingUpTo([], p, n) == 0
  {
    if n > 0 {
      NothingLeaves(p, n - 1);
    }
  }

  /** An edge between different shards leaves exactly two of them. */
  lemma {:induction false} LeavingTwice(es: seq<Edge>, p: map<Vertex, int>, n: nat)
    requires InRange(p, n) && Covers(p.Keys, es)
    ensures LeavingUpTo(es, p, n) == 2 * Crossing(es, p)
  {
    if es == [] {
      NothingLeaves(p, n);
    } else {
      assert es[|es| - 1].a in p.Keys;
      LeavingUpToMore(es, p, n);
      LeavingTwice(es[..|es| - 1], p, n);
    }
  }

  lemma {:induction false} SumOfLeaving(es: seq<Edge>, p: map<Vertex, int>, w: seq<int>)
    requires forall k | 0 <= k < |w| :: w[k] == Leaving(es, p, k)
    ensures SumOf(w) == LeavingUpTo(es, p, |w|)
  {
    if w != [] {
      SumOfLeaving(es, p, w[..|w| - 1]);
    }
  }

  lemma {:induction false} HasNeighbours(es: seq<Edge>, i: nat)
    requires i < |es|
    ensures Neighbours(es, es[i].a) != [] && Neighbours(es, es[i].b) != []
  {
    if i < |es| - 1 {
      HasNeighbours(es[..|es| - 1], i);
    }
  }

  lemma ListsCover(adj: Adjacency, es: seq<Edge>)
    requires Lists(adj, es)
    ensures Covers(adj.Keys, es)
  {
    forall i | 0 <= i < |es| ensures es[i].a in adj && es[i].b in adj {
      HasNeighbours(es, i);
      assert ListOf(adj, es[i].a) != [] && ListOf(adj, es[i].b) != [];
    }
  }

  // ---------- The effect of moving one vertex ----------

  /** What `changeShardRecompute` does to the count of shard `k` for a neighbour in shard `s`. */
  function Shift(s: int, was: int, now: int, k: int): int {
    if s != now && s != was then
      (if k == now then 1 else if k == was then -1 else 0)
    else if s == now then
      (if k == was then -1 else 0)
    else
      (if k == now then 1 else 0)
  }

  function CrossShift(s: int, was: int, now: int): int {
    if s != now && s != was then 0 else if s == now then -1 else 1
  }

  function Shifts(ns: seq<Vertex>, p: map<Vertex, int>, was: int, now: int, k: int): int {
    if ns == [] then 0 else Shifts(ns[..|ns| - 1], p, was, now, k) + Shift(ShardOf(p, ns[|ns| - 1]), was, now, k)
  }

  function CrossShifts(ns: seq<Vertex>, p: map<Vertex, int>, was: int, now: int): int {
    if ns == [] then 0 else CrossShifts(ns[..|ns| - 1], p, was, now) + CrossShift(ShardOf(p, ns[|ns| - 1]), was, now)
  }

  lemma ShiftsMore(ns: seq<Vertex>, u: Vertex, p: map<Vertex, int>, was: int, now: int, k: int)
    ensures Shifts(ns + [u], p, was, now, k) == Shifts(ns, p, was, now, k) + Shift(ShardOf(p, u), was, now, k)
    ensures CrossShifts(ns + [u], p, was, now) == CrossShifts(ns, p, was, now) + CrossShift(ShardOf(p, u), was, now)
  {
    assert (ns + [u])[..|ns|] == ns;
  }

  ghost predicate LoopFreeAt(es: seq<Edge>, v: Vertex) {
    forall i | 0 <= i < |es| :: es[i] != Edge(v, v)
  }

  /** The other end of an edge at `v`. */
  function OtherEnd(e: Edge, v: Vertex): Vertex {
    if e.a == v then e.b else e.a
  }

  lemma EdgeMoves(e: Edge, p: map<Vertex, int>, v: Vertex, now: int, k: int)
    requires ShardOf(p, v) != now
    ensures var q, at, was := p[v := now], e.a == v || e.b == v, ShardOf(p, v);
            e != Edge(v, v) ==>
              && One(Touches(q, e, k)) - One(Touches(p, e, k))
                 == (if at then Shift(ShardOf(q, OtherEnd(e, v)), was, now, k) else 0)
              && One(Crosses(q, e)) - One(Crosses(p, e))
                 == (if at then CrossShift(ShardOf(q, OtherEnd(e, v)), was, now) else 0)
    ensures e == Edge(v, v) ==> !Crosses(p, e) && !Crosses(p[v := now], e)
  {}

  lemma EntriesAt(e: Edge, v: Vertex)
    ensures e == Edge(v, v) ==> Entries(e, v) == [v] + [v]
    ensures e != Edge(v, v) ==> Entries(e, v) == if e.a == v || e.b == v then [OtherEnd(e, v)] else []
  {}

  function LoopsAt(es: seq<Edge>, v: Vertex): nat {
    if es == [] then 0 else LoopsAt(es[..|es| - 1], v) + One(es[|es| - 1] == Edge(v, v))
  }

  lemma {:induction false} NoLoops(es: seq<Edge>, v: Vertex)
    ensures LoopsAt(es, v) == 0 <==> LoopFreeAt(es, v)
  {
    if es != [] {
      NoLoops(es[..|es| - 1], v);
      assert LoopFreeAt(es, v) <==> LoopFreeAt(es[..|es| - 1], v) && es[|es| - 1] != Edge(v, v);
    }
  }

  /** The count of a shard shifts by what the neighbours of the moved vertex say, but each self-loop makes it one too low. */
  lemma {:induction false} MoveShifts(es: seq<Edge>, p: map<Vertex, int>, v: Vertex, now: int, k: int)
    requires ShardOf(p, v) != now
    ensures Touching(es, p[v := now], k)
         == Touching(es, p, k) + Shifts(Neighbours(es, v), p[v := now], ShardOf(p, v), now, k)
          + (if k == ShardOf(p, v) || k == now then LoopsAt(es, v) else 0)
  {
    if es != [] {
      var es', e := es[..|es| - 1], es[|es| - 1];
      MoveShifts(es', p, v, now, k);
      EntriesAt(e, v);
      EdgeMoves(e, p, v, now, k);
      var ns, q, was := Neighbours(es', v), p[v := now], ShardOf(p, v);
      if e == Edge(v, v) {
        LoopMoves(ns, p, v, now, k);
      } else {
        ShiftsMore(ns, OtherEnd(e, v), q, was, now, k);
        assert ns + [] == ns;
      }
    }
  }

  /** One self-loop: two entries, both of which are seen in the new shard. */
  lemma LoopMoves(ns: seq<Vertex>, p: map<Vertex, int>, v: Vertex, now: int, k: int)
    requires ShardOf(p, v) != now
    ensures var q, was := p[v := now], ShardOf(p, v);
            && Shifts(ns + ([v] + [v]), q, was, now, k) == Shifts(ns, q, was, now, k) - (if k == was then 2 else 0)
            && CrossShifts(ns + ([v] + [v]), q, was, now) == CrossShifts(ns, q, was, now) - 2
            && One(Touches(q, Edge(v, v), k)) == One(k == now) && One(Touches(p, Edge(v, v), k)) == One(k == was)
  {
    var q, was := p[v := now], ShardOf(p, v);
    ShiftsMore(ns, v, q, was, now, k);
    ShiftsMore(ns + [v], v, q, was, now, k);
    assert ns + ([v] + [v]) == ns + [v] + [v];
  }

  /** The number of edges between shards shifts in the same way, except that each self-loop makes it two too low. */
  lemma {:induction false} MoveCrossShifts(es: seq<Edge>, p: map<Vertex, int>, v: Vertex, now: int)
    requires ShardOf(p, v) != now
    ensures Crossing(es, p[v := now])
         == Crossing(es, p) + CrossShifts(Neighbours(es, v), p[v := now], ShardOf(p, v), now) + 2 * LoopsAt(es, v)
  {
    if es != [] {
      var es', e := es[..|es| - 1], es[|es| - 1];
      MoveCrossShifts(es', p, v, now);
      EntriesAt(e, v);
      EdgeMoves(e, p, v, now, 0);
      var ns, q, was := Neighbours(es', v), p[v := now], ShardOf(p, v);
      if e == Edge(v, v) {
        LoopMoves(ns, p, v, now, 0);
      } else {
        ShiftsMore(ns, OtherEnd(e, v), q, was, now, 0);
        assert ns + [] == ns;
      }
    }
  }

  /** `w` counts the edges at each of the shards, and `cross` those between them. */
  ghost predicate Exact(es: seq<Edge>, p: map<Vertex, int>, w: seq<int>, cross: int) {
    && (forall k | 0 <= k < |w| :: w[k] == Touching(es, p, k))
    && cross == Crossing(es, p)
  }

  /** `w'` and `cross'` are what `changeShardRecompute` makes of `w` and `cross` when `v` has moved. */
  ghost predicate Shifted(es: seq<Edge>, p: map<Vertex, int>, v: Vertex, now: int,
                          w: seq<int>, cross: int, w': seq<int>, cross': int) {
    && |w'| == |w|
    && (forall k | 0 <= k < |w| :: w'[k] == w[k] + Shifts(Neighbours(es, v), p[v := now], ShardOf(p, v), now, k))
    && cross' == cross + CrossShifts(Neighbours(es, v), p[v := now], ShardOf(p, v), now)
  }

  /** A vertex has moved from one shard to another. */
  datatype Hop = Hop(v: Vertex, was: int, now: int)

  /** What the self-loops of the moved vertices have made the count of shard `k` too low by. */
  function Drift(es: seq<Edge>, hops: seq<Hop>, k: int): nat {
    if hops == [] then
      0
    else
      var hop := hops[|hops| - 1];
      Drift(es, hops[..|hops| - 1], k) + (if k == hop.was || k == hop.now then LoopsAt(es, hop.v) else 0)
  }

  /** The same for the number of edges between shards. */
  function CrossDrift(es: seq<Edge>, hops: seq<Hop>): nat {
    if hops == [] then 0 else CrossDrift(es, hops[..|hops| - 1]) + 2 * LoopsAt(es, hops[|hops| - 1].v)
  }

  /** The counts after the hops, compared with a recount. */
  ghost predicate Drifted(es: seq<Edge>, p: map<Vertex, int>, hops: seq<Hop>, w: seq<int>, cross: int) {
    && (forall k | 0 <= k < |w| :: w[k] == Touching(es, p, k) - Drift(es, hops, k))
    && cross == Crossing(es, p) - CrossDrift(es, hops)
  }

  /** Every move adds the self-loops of its vertex to the drift, and nothing else. */
  lemma MoveDrifts(es: seq<Edge>, p: map<Vertex, int>, hops: seq<Hop>, v: Vertex, now: int,
                   w: seq<int>, cross: int, w': seq<int>, cross': int)
    requires ShardOf(p, v) != now && Drifted(es, p, hops, w, cross) && Shifted(es, p, v, now, w, cross, w', cross')
    ensures Drifted(es, p[v := now], hops + [Hop(v, ShardOf(p, v), now)], w', cross')
  {
    var hops' := hops + [Hop(v, ShardOf(p, v), now)];
    assert hops'[..|hops|] == hops;
    MoveCrossShifts(es, p, v, now);
    forall k | 0 <= k < |w'| ensures w'[k] == Touching(es, p[v := now], k) - Drift(es, hops', k) {
      MoveShifts(es, p, v, now, k);
    }
  }

  lemma {:induction false} NoDrift(es: seq<Edge>, hops: seq<Hop>, k: int)
    ensures CrossDrift(es, hops) == 0 <==> forall i | 0 <= i < |hops| :: LoopFreeAt(es, hops[i].v)
    ensures CrossDrift(es, hops) == 0 ==> Drift(es, hops, k) == 0
  {
    if hops != [] {
      var rest, hop := hops[..|hops| - 1], hops[|hops| - 1];
      NoDrift(es, rest, k);
      NoLoops(es, hop.v);
      assert forall i | 0 <= i < |rest| :: rest[i] == hops[i];
    }
  }

  /** The counts agree with a recount exactly when no moved vertex has a self-loop. */
  lemma DriftedExactly(es: seq<Edge>, p: map<Vertex, int>, hops: seq<Hop>, w: seq<int>, cross: int)
    requires Drifted(es, p, hops, w, cross)
    ensures Exact(es, p, w, cross) <==> forall i | 0 <= i < |hops| :: LoopFreeAt(es, hops[i].v)
  {
    NoDrift(es, hops, 0);
    if CrossDrift(es, hops) == 0 {
      forall k | 0 <= k < |w| ensures w[k] == Touching(es, p, k) {
        NoDrift(es, hops, k);
      }
    }
  }

  /** One incremental update agrees with a recount exactly when the moved vertex has no self-loop. */
  lemma MoveExact(es: seq<Edge>, p: map<Vertex, int>, v: Vertex, now: int,
                  w: seq<int>, cross: int, w': seq<int>, cross': int)
    requires ShardOf(p, v) != now && Exact(es, p, w, cross) && Shifted(es, p, v, now, w, cross, w', cross')
    ensures Exact(es, p[v := now], w', cross') <==> LoopFreeAt(es, v)
  {
    assert Drifted(es, p, [], w, cross);
    MoveDrifts(es, p, [], v, now, w, cross, w', cross');
    var hops := [] + [Hop(v, ShardOf(p, v), now)];
    assert hops[0].v == v;
    DriftedExactly(es, p[v := now], hops, w', cross');
  }

  /** One self-loop: moving its vertex leaves a shard with minus one edge, and minus two edges between shards. */
  lemma SelfLoopMiscounts(v: Vertex)
    ensures var es, p := [Edge(v, v)], map[v := 0];
            && Exact(es, p, [1, 0], 0)
            && Shifted(es, p, v, 1, [1, 0], 0, [-1, 0], -2)
            && !Exact(es, p[v := 1], [-1, 0], -2)
  {
    var es, p := [Edge(v, v)], map[v := 0];
    var q, ns := p[v := 1], [] + [v] + [v];
    assert es[..0] == [] && Neighbours(es, v) == ns;
    ShiftsMore([], v, q, 0, 1, 0);
    ShiftsMore([] + [v], v, q, 0, 1, 0);
    ShiftsMore([], v, q, 0, 1, 1);
    ShiftsMore([] + [v], v, q, 0, 1, 1);
    OneEdge(Edge(v, v), p, 0);
    OneEdge(Edge(v, v), p, 1);
    OneEdge(Edge(v, v), q, 0);
  }

  lemma OneEdge(e: Edge, p: map<Vertex, int>, k: int)
    ensures Touching([e], p, k) == One(Touches(p, e, k)) && Crossing([e], p) == One(Crosses(p, e))
  {
    assert [e][..0] == [];
  }
}
