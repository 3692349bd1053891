/** partition/partition_CLPA.go: constrained label propagation with incrementally kept counts. */
module CLPA {
  import opened ShardGraph

  /** `Addr2Shard`: the shard of an address that has no entry yet. */
  const Addr2Shard: string -> int

  // ---------- Counting lists ----------

  /** The sums after the first entries of the list of a vertex in shard `vShard`. */
  ghost predicate Tallied(ns: seq<Vertex>, p: map<Vertex, int>, vShard: int,
                          w: seq<int>, inter: seq<int>, w': seq<int>, inter': seq<int>) {
    && |w'| == |w| == |inter| == |inter'|
    && (forall k | 0 <= k < |w| :: w'[k] == w[k] + (if k != vShard then EntriesTo(ns, p, k) else 0))
    && (forall k | 0 <= k < |w| :: inter'[k] == inter[k] + (if k == vShard then EntriesTo(ns, p, k) else 0))
  }

  method TallyList(lst: seq<Vertex>, p: map<Vertex, int>, vShard: int, w: seq<int>, inter: seq<int>)
    returns (w': seq<int>, inter': seq<int>)
    requires |w| == |inter| && forall i | 0 <= i < |lst| :: 0 <= ShardOf(p, lst[i]) < |w|
    ensures Tallied(lst, p, vShard, w, inter, w', inter')
  {
    w', inter' := w, inter;
    for i := 0 to |lst|
      invariant Tallied(lst[..i], p, vShard, w, inter, w', inter')
    {
      var uShard := ShardOf(p, lst[i]);
      assert lst[..i + 1][..i] == lst[..i];
      if vShard != uShard {
        w' := w'[uShard := w'[uShard] + 1];
      } else {
        inter' := inter'[uShard := inter'[uShard] + 1];
      }
    }
    assert lst[..|lst|] == lst;
  }

  /** The sums after the lists of the vertices `done`. */
  ghost predicate Counted(es: seq<Edge>, p: map<Vertex, int>, done: set<Vertex>, w: seq<int>, inter: seq<int>) {
    && |w| == |inter|
    && forall k | 0 <= k < |w| :: w[k] == Arrivals(es, p, k, done, false) && inter[k] == Arrivals(es, p, k, done, true)
  }

  lemma CountedMore(es: seq<Edge>, p: map<Vertex, int>, done: set<Vertex>, v: Vertex,
                    w: seq<int>, inter: seq<int>, w': seq<int>, inter': seq<int>)
    requires Counted(es, p, done, w, inter) && v !in done
    requires Tallied(Neighbours(es, v), p, ShardOf(p, v), w, inter, w', inter')
    ensures Counted(es, p, done + {v}, w', inter')
  {
    forall k | 0 <= k < |w'|
      ensures w'[k] == Arrivals(es, p, k, done + {v}, false) && inter'[k] == Arrivals(es, p, k, done + {v}, true)
    {
      MoreArrivals(es, p, k, done, false, v);
      MoreArrivals(es, p, k, done, true, v);
    }
  }

  method TallyAll(adj: Adjacency, p: map<Vertex, int>, n: nat, ghost es: seq<Edge>)
    returns (w: seq<int>, inter: seq<int>)
    requires Lists(adj, es) && Covers(p.Keys, es) && InRange(p, n)
    ensures |w| == n && Counted(es, p, adj.Keys, w, inter)
  {
    w, inter := seq(n, _ => 0), seq(n, _ => 0);
    var todo := adj.Keys;
    ghost var done: set<Vertex> := {};
    forall k | 0 <= k < n ensures Arrivals(es, p, k, done, false) == 0 && Arrivals(es, p, k, done, true) == 0 {
      NoArrivals(es, p, k, false);
      NoArrivals(es, p, k, true);
    }
    while todo != {}
      invariant |w| == n && Counted(es, p, done, w, inter) && done == adj.Keys - todo && todo <= adj.Keys
      decreases |todo|
    {
      var v: Vertex :| v in todo;
      assert adj[v] == ListOf(adj, v) == Neighbours(es, v);
      NeighboursIn(es, v, p, n);
      ghost var w0, inter0 := w, inter;
      w, inter := TallyList(adj[v], p, ShardOf(p, v), w, inter);
      CountedMore(es, p, done, v, w0, inter0, w, inter);
      todo := todo - {v};
      done := done + {v};
    }
    assert done == adj.Keys;
  }

  lemma {:induction false} NeighboursIn(es: seq<Edge>, v: Vertex, p: map<Vertex, int>, n: nat)
    requires Covers(p.Keys, es) && InRange(p, n)
    ensures forall i | 0 <= i < |Neighbours(es, v)| :: 0 <= ShardOf(p, Neighbours(es, v)[i]) < n
  {
    if es != [] {
      NeighboursIn(es[..|es| - 1], v, p, n);
      assert es[|es| - 1].a in p.Keys;
    }
  }

  method Sum(w: seq<int>) returns (s: int)
    ensures s == SumOf(w)
  {
    s := 0;
    for i := 0 to |w|
      invariant s == SumOf(w[..i])
    {
      assert w[..i + 1][..i] == w[..i];
      s := s + w[i];
    }
    assert w[..|w|] == w;
  }

  /** The full count: each edge between shards is entered once at either end, each edge inside a shard twice. */
  method Recount(adj: Adjacency, p: map<Vertex, int>, n: nat, ghost es: seq<Edge>)
    returns (w: seq<int>, cross: int)
    requires Lists(adj, es) && Covers(p.Keys, es) && InRange(p, n)
    ensures |w| == n && Exact(es, p, w, cross)
  {
    var leaving, inter := TallyAll(adj, p, n, es);
    ListsCover(adj, es);
    forall k | 0 <= k < n
      ensures leaving[k] == Leaving(es, p, k) && inter[k] == 2 * Within(es, p, k)
      ensures Touching(es, p, k) == Leaving(es, p, k) + Within(es, p, k)
    {
      AllArrivals(es, p, k, adj.Keys);
    }
    cross := Sum(leaving);
    SumOfLeaving(es, p, leaving);
    LeavingTwice(es, p, n);
    cross := cross / 2;
    w := seq(n, k requires 0 <= k < n => leaving[k] + inter[k] / 2);
  }

  /** The smallest count, capped. */
  ghost predicate IsMin(w: seq<int>, cap: int, m: int) {
    m <= cap && (m == cap || m in w) && forall k | 0 <= k < |w| :: m <= w[k]
  }

  method Smallest(w: seq<int>, cap: int) returns (m: int)
    ensures IsMin(w, cap, m)
  {
    m := cap;
    for i := 0 to |w|
      invariant IsMin(w[..i], cap, m)
    {
      if m > w[i] {
        m := w[i];
      }
    }
  }

  // ---------- Scores ----------

  /** A floating-point number, but for rounding. */
  datatype Score = Finite(value: real) | PlusInf | MinusInf | NaN

  predicate Below(a: Score, b: Score) {
    match (a, b)
    case (Finite(x), Finite(y)) => x < y
    case (MinusInf, Finite(_)) => true
    case (Finite(_), PlusInf) => true
    case (MinusInf, PlusInf) => true
    case _ => false
  }

  function Quotient(x: real, y: int): Score {
    if y != 0 then Finite(x / y as real) else if x > 0.0 then PlusInf else if x < 0.0 then MinusInf else NaN
  }

  /** `share * (1 - x)`, for a positive share. */
  function Discounted(share: real, x: Score): Score {
    match x
    case Finite(r) => Finite(share * (1.0 - r))
    case PlusInf => MinusInf
    case MinusInf => PlusInf
    case NaN => NaN
  }

  /** The share of the entries, less the penalty for the edges of the shard. */
  function Rated(entries: nat, degree: nat, edges: int, least: int, penalty: real): Score
    requires degree > 0
  {
    Discounted(entries as real / degree as real, Quotient(penalty * edges as real, least))
  }

  /** The score as a fraction; a penalty rules out every shard with edges while some shard has none. */
  lemma RatedExactly(entries: nat, degree: nat, edges: int, least: int, penalty: real)
    requires degree > 0
    ensures var score := Rated(entries, degree, edges, least, penalty);
      if least != 0 then
        score.Finite? &&
        score.value * degree as real * least as real == entries as real * (least as real - penalty * edges as real)
      else if penalty * edges as real > 0.0 then
        score == MinusInf && !Below(FLOOR, score)
      else
        score == if penalty * edges as real < 0.0 then PlusInf else NaN
  {
    if least != 0 {
      var d, m, e, x := degree as real, least as real, entries as real, penalty * edges as real;
      FractionCleared(e, d, x, m);
    }
  }

  lemma FractionCleared(e: real, d: real, x: real, m: real)
    requires d != 0.0 && m != 0.0
    ensures e / d * (1.0 - x / m) * d * m == e * (m - x)
  {
    var f, q := e / d, x / m;
    assert f * d == e && q * m == x;
    assert f * (1.0 - q) * d * m == (f * d) * ((1.0 - q) * m);
    assert (1.0 - q) * m == m - q * m;
  }

  method CountTo(lst: seq<Vertex>, p: map<Vertex, int>, k: int) returns (n: nat)
    ensures n == EntriesTo(lst, p, k)
  {
    n := 0;
    for i := 0 to |lst|
      invariant n == EntriesTo(lst[..i], p, k)
    {
      assert lst[..i + 1][..i] == lst[..i];
      if ShardOf(p, lst[i]) == k {
        n := n + 1;
      }
    }
    assert lst[..|lst|] == lst;
  }

  /** The score that a shard has to exceed. */
  const FLOOR := Finite(-9999.0)

  /** What the scores of the shards next to a vertex are computed from. */
  datatype Scoring = Scoring(ns: seq<Vertex>, p: map<Vertex, int>, w: seq<int>, least: int, penalty: real) {
    ghost predicate Valid() {
      forall i | 0 <= i < |ns| :: 0 <= ShardOf(p, ns[i]) < |w|
    }

    /** The score of shard `k`. */
    function In(k: int): Score
      requires 0 <= k < |w| && ns != []
    {
      Rated(EntriesTo(ns, p, k), |ns|, w[k], least, penalty)
    }

    /** The score of the shard of the `i`-th neighbour. */
    ghost function At(i: int): Score
      requires Valid() && 0 <= i < |ns|
    {
      In(ShardOf(p, ns[i]))
    }

    /** Among the first `n` neighbours, the `j`-th is the first one in a shard of maximal score. */
    ghost predicate Wins(n: nat, j: nat)
      requires Valid() && j < n <= |ns|
    {
      && Below(FLOOR, At(j)) && (forall i | 0 <= i < n :: !Below(At(j), At(i)))
      && forall i | 0 <= i < j :: At(i) != At(j)
    }

    /** The shard after the first `n` neighbours, and its score. */
    ghost predicate Leads(n: nat, now: int, s: int, max: Score)
      requires Valid() && n <= |ns|
    {
      || (s == now && max == FLOOR && forall i | 0 <= i < n :: !Below(FLOOR, At(i)))
      || exists j: nat | j < n :: s == ShardOf(p, ns[j]) && max == At(j) && Wins(n, j)
    }

    /** The shard of maximal score next to a vertex in shard `now`, or else `now`. */
    ghost predicate Picks(now: int, s: int)
      requires Valid()
    {
      exists max :: Leads(|ns|, now, s, max)
    }
  }

  lemma LeadsMore(sc: Scoring, n: nat, now: int, s: int, max: Score)
    requires sc.Valid() && n < |sc.ns| && sc.Leads(n, now, s, max)
    ensures if Below(max, sc.At(n)) then sc.Leads(n + 1, now, ShardOf(sc.p, sc.ns[n]), sc.At(n)) else sc.Leads(n + 1, now, s, max)
  {
    if Below(max, sc.At(n)) {
      forall i | 0 <= i < n ensures !Below(sc.At(n), sc.At(i)) && sc.At(i) != sc.At(n) {
        assert !Below(max, sc.At(i));
      }
      assert sc.Wins(n + 1, n);
    } else if !(s == now && max == FLOOR && forall i | 0 <= i < n :: !Below(FLOOR, sc.At(i))) {
      var j: nat :| j < n && s == ShardOf(sc.p, sc.ns[j]) && max == sc.At(j) && sc.Wins(n, j);
      assert sc.Wins(n + 1, j);
    }
  }

  /** The scores leave no choice. */
  lemma PicksOne(sc: Scoring, now: int, s: int, t: int)
    requires sc.Valid() && sc.Picks(now, s) && sc.Picks(now, t)
    ensures s == t
  {
  }

  // ---------- Members of shards ----------

  ghost predicate MembersCounted(vs: set<Vertex>, p: map<Vertex, int>, counts: seq<int>) {
    forall k | 0 <= k < |counts| :: counts[k] == |Members(vs, p, k)|
  }

  lemma JoinMembers(vs: set<Vertex>, p: map<Vertex, int>, v: Vertex, k: int)
    requires v !in vs
    ensures |Members(vs + {v}, p, k)| == |Members(vs, p, k)| + One(ShardOf(p, v) == k)
  {
    assert Members(vs + {v}, p, k) == Members(vs, p, k) + (if ShardOf(p, v) == k then {v} else {});
  }

  lemma MoveMembers(vs: set<Vertex>, p: map<Vertex, int>, v: Vertex, now: int, k: int)
    requires v in vs && ShardOf(p, v) != now
    ensures |Members(vs, p[v := now], k)| == |Members(vs, p, k)| - One(ShardOf(p, v) == k) + One(k == now)
  {
    var ms := Members(vs, p, k);
    assert Members(vs, p[v := now], k) == (if k == now then ms + {v} else ms - {v});
  }

  /** A vertex that joins for the first time, without an entry of its own, changes nothing for the others. */
  lemma NewEntry(vs: set<Vertex>, p: map<Vertex, int>, v: Vertex, s: int, k: int)
    requires v !in vs
    ensures Members(vs, p[v := s], k) == Members(vs, p, k)
  {}

  /** One more in the count of a shard is right exactly if the vertex is new. */
  lemma JoinCounts(vs: set<Vertex>, p: map<Vertex, int>, v: Vertex, s: int, counts: seq<int>)
    requires MembersCounted(vs, p, counts) && 0 <= s < |counts| && (v in p ==> p[v] == s) && vs <= p.Keys
    ensures MembersCounted(vs + {v}, p[v := s], counts[s := counts[s] + 1]) <==> v !in vs
  {
    if v in vs {
      assert vs + {v} == vs && p[v := s] == p;
      assert counts[s := counts[s] + 1][s] != |Members(vs, p, s)|;
    } else {
      forall k | 0 <= k < |counts|
        ensures |Members(vs + {v}, p[v := s], k)| == |Members(vs, p, k)| + One(s == k)
      {
        JoinMembers(vs, p[v := s], v, k);
        NewEntry(vs, p, v, s, k);
      }
    }
  }

  ghost predicate NoneEmptied(vs: set<Vertex>, p: map<Vertex, int>, q: map<Vertex, int>, n: nat) {
    forall k | 0 <= k < n && Members(vs, p, k) != {} :: Members(vs, q, k) != {}
  }

  lemma MoveCounts(vs: set<Vertex>, start: map<Vertex, int>, p: map<Vertex, int>, v: Vertex, now: int, counts: seq<int>)
    requires v in vs && v in p && 0 <= p[v] < |counts| && 0 <= now < |counts| && p[v] != now && counts[p[v]] > 1
    requires MembersCounted(vs, p, counts) && NoneEmptied(vs, start, p, |counts|)
    ensures MembersCounted(vs, p[v := now], counts[p[v] := counts[p[v]] - 1][now := counts[now] + 1])
    ensures NoneEmptied(vs, start, p[v := now], |counts|)
  {
    forall k | 0 <= k < |counts|
      ensures |Members(vs, p[v := now], k)| == |Members(vs, p, k)| - One(p[v] == k) + One(k == now)
      ensures Members(vs, p, k) != {} ==> Members(vs, p[v := now], k) != {}
    {
      MoveMembers(vs, p, v, now, k);
      assert Members(vs, p, k) != {} ==> |Members(vs, p, k)| > 0;
    }
  }

  /** The partition `p` with the entries of `res` put in. */
  function Applied(p: map<Vertex, int>, res: map<string, int>): map<Vertex, int> {
    map v | v in p :: if v.addr in res then res[v.addr] else p[v]
  }

  lemma AppliedMore(p: map<Vertex, int>, res: map<string, int>, v: Vertex, s: int)
    requires v in p
    ensures Applied(p, res[v.addr := s]) == Applied(p, res)[v := s]
  {
    assert forall u: Vertex :: u.addr == v.addr <==> u == v;
  }

  /** The partition after the hops. */
  function After(p: map<Vertex, int>, hops: seq<Hop>): map<Vertex, int> {
    if hops == [] then p else After(p, hops[..|hops| - 1])[hops[|hops| - 1].v := hops[|hops| - 1].now]
  }

  /** Each hop starts from where its vertex was, and goes elsewhere. */
  ghost predicate Hopping(p: map<Vertex, int>, hops: seq<Hop>) {
    hops != [] ==>
      var rest, hop := hops[..|hops| - 1], hops[|hops| - 1];
      Hopping(p, rest) && ShardOf(After(p, rest), hop.v) == hop.was != hop.now
  }

  ghost predicate Kept(vs: set<Vertex>, es: seq<Edge>, n: nat, start: map<Vertex, int>, hops: seq<Hop>, res: map<string, int>,
                       p: map<Vertex, int>, counts: seq<int>, w: seq<int>, cross: int) {
    && vs <= p.Keys && InRange(p, n) && |counts| == n && MembersCounted(vs, p, counts)
    && |w| == n && Drifted(es, p, hops, w, cross) && Hopping(start, hops) && p == After(start, hops)
    && p == Applied(start, res) && NoneEmptied(vs, start, p, n) && Recorded(hops, res)
  }

  /** The result holds exactly the vertices that have moved. */
  ghost predicate Recorded(hops: seq<Hop>, res: map<string, int>) {
    forall addr :: addr in res <==> exists hop :: hop in hops && hop.v.addr == addr
  }

  lemma RecordedMore(hops: seq<Hop>, res: map<string, int>, hop: Hop)
    requires Recorded(hops, res)
    ensures Recorded(hops + [hop], res[hop.v.addr := hop.now])
  {
    assert hop in hops + [hop];
    assert forall other :: other in hops + [hop] <==> other in hops || other == hop;
  }

  lemma HoppingMore(start: map<Vertex, int>, hops: seq<Hop>, v: Vertex, now: int)
    requires Hopping(start, hops) && ShardOf(After(start, hops), v) != now
    ensures var hops' := hops + [Hop(v, ShardOf(After(start, hops), v), now)];
            Hopping(start, hops') && After(start, hops') == After(start, hops)[v := now]
  {
    var hops' := hops + [Hop(v, ShardOf(After(start, hops), v), now)];
    assert hops'[..|hops|] == hops;
  }

  lemma MoveKeeps(vs: set<Vertex>, es: seq<Edge>, n: nat, start: map<Vertex, int>, hops: seq<Hop>, res: map<string, int>,
                  p: map<Vertex, int>, counts: seq<int>, w: seq<int>, cross: int,
                  v: Vertex, now: int, w': seq<int>, cross': int)
    requires Kept(vs, es, n, start, hops, res, p, counts, w, cross)
    requires v in vs && 0 <= now < n && now != p[v] && counts[p[v]] > 1
    requires Shifted(es, p, v, now, w, cross, w', cross')
    ensures Kept(vs, es, n, start, hops + [Hop(v, p[v], now)], res[v.addr := now], p[v := now],
                 counts[p[v] := counts[p[v]] - 1][now := counts[now] + 1], w', cross')
  {
    MoveDrifts(es, p, hops, v, now, w, cross, w', cross');
    HoppingMore(start, hops, v, now);
    AppliedMore(start, res, v, now);
    RecordedMore(hops, res, Hop(v, p[v], now));
    MoveCounts(vs, start, p, v, now, counts);
  }

  /** How often `v` has been moved. */
  function Moves(updates: map<string, int>, v: Vertex): int {
    if v.addr in updates then updates[v.addr] else 0
  }

  // ---------- A whole run ----------

  /** What the loops of the partitioning work on. */
  datatype Run = Run(p: map<Vertex, int>, counts: seq<int>, w: seq<int>, cross: int, least: int,
                     updates: map<string, int>, res: map<string, int>)

  ghost predicate Begins(es: seq<Edge>, p: map<Vertex, int>, a: Run) {
    a.p == p && Exact(es, p, a.w, a.cross) && IsMin(a.w, 0x7fffffff, a.least) && a.updates == map[] && a.res == map[]
  }

  ghost function ScoringOf(es: seq<Edge>, penalty: real, a: Run, v: Vertex): Scoring {
    Scoring(Neighbours(es, v), a.p, a.w, a.least, penalty)
  }

  /** `v` has moved to shard `to`, and is in the result. */
  ghost predicate MovedTo(es: seq<Edge>, a: Run, v: Vertex, to: int, b: Run) {
    var now := ShardOf(a.p, v);
    && 0 <= now < |a.counts| && 0 <= to < |a.counts|
    && b.p == a.p[v := to] && b.counts == a.counts[now := a.counts[now] - 1][to := a.counts[to] + 1]
    && Shifted(es, a.p, v, to, a.w, a.cross, b.w, b.cross) && IsMin(b.w, 0x7ffffffff, b.least)
    && b.updates == a.updates[v.addr := Moves(a.updates, v) + 1] && b.res == a.res[v.addr := to]
  }

  /** Whether `v` may still move. */
  predicate Movable(a: Run, v: Vertex) {
    var now := ShardOf(a.p, v);
    Moves(a.updates, v) < 50 && 0 <= now < |a.counts| && a.counts[now] > 1
  }

  /** A visit moves `v` to the shard of maximal score, unless it is there already or may not move. */
  ghost predicate Visited(es: seq<Edge>, penalty: real, a: Run, v: Vertex, b: Run) {
    if Movable(a, v) then
      var sc, now := ScoringOf(es, penalty, a, v), ShardOf(a.p, v);
      sc.Valid() && exists to :: sc.Picks(now, to) && Placed(es, a, v, to, b)
    else
      b == a
  }

  ghost predicate Placed(es: seq<Edge>, a: Run, v: Vertex, to: int, b: Run) {
    if to == ShardOf(a.p, v) then b == a else MovedTo(es, a, v, to, b)
  }

  /** No shard next to `v` has a higher score than its own. */
  ghost predicate Content(es: seq<Edge>, penalty: real, a: Run, v: Vertex) {
    var sc, now := ScoringOf(es, penalty, a, v), ShardOf(a.p, v);
    sc.Valid() && sc.Picks(now, now)
  }

  /** The vertices have been visited in this order. */
  ghost predicate RunsTo(es: seq<Edge>, penalty: real, a: Run, visits: seq<Vertex>, b: Run)
    decreases |visits|
  {
    if visits == [] then
      b == a
    else
      var rest, last := visits[..|visits| - 1], visits[|visits| - 1];
      exists m :: RunsTo(es, penalty, a, rest, m) && Visited(es, penalty, m, last, b)
  }

  /** `n` times every vertex once. */
  ghost predicate Rounds(visits: seq<Vertex>, vs: set<Vertex>, n: nat)
    decreases n
  {
    if n == 0 then
      visits == []
    else
      var k := |visits| - |vs|;
      k >= 0 && multiset(visits[k..]) == multiset(vs) && Rounds(visits[..k], vs, n - 1)
  }

  lemma RunsOn(es: seq<Edge>, penalty: real, a: Run, visits: seq<Vertex>, round: seq<Vertex>, m: Run, v: Vertex, b: Run)
    requires RunsTo(es, penalty, a, visits + round, m) && Visited(es, penalty, m, v, b)
    ensures RunsTo(es, penalty, a, visits + (round + [v]), b)
  {
    var on := visits + (round + [v]);
    assert on[..|on| - 1] == visits + round && on[|on| - 1] == v;
  }

  lemma VisitDone(es: seq<Edge>, penalty: real, a: Run, v: Vertex, to: int, b: Run)
    requires var sc := ScoringOf(es, penalty, a, v); sc.Valid() && sc.Picks(ShardOf(a.p, v), to)
    requires if to == ShardOf(a.p, v) || !Movable(a, v) then b == a else MovedTo(es, a, v, to, b)
    ensures Visited(es, penalty, a, v, b)
  {
    if Movable(a, v) {
      assert Placed(es, a, v, to, b);
    }
  }

  /** A round that has yet to visit the vertices `todo`. */
  ghost predicate RoundBut(round: seq<Vertex>, todo: set<Vertex>, vs: set<Vertex>) {
    multiset(round) + multiset(todo) == multiset(vs)
  }

  lemma RoundMore(round: seq<Vertex>, todo: set<Vertex>, vs: set<Vertex>, v: Vertex)
    requires RoundBut(round, todo, vs) && v in todo
    ensures RoundBut(round + [v], todo - {v}, vs)
  {
    assert multiset(todo) == multiset(todo - {v}) + multiset{v};
  }

  lemma RoundsMore(visits: seq<Vertex>, round: seq<Vertex>, vs: set<Vertex>, n: nat)
    requires Rounds(visits, vs, n) && multiset(round) == multiset(vs)
    ensures Rounds(visits + round, vs, n + 1)
  {
    assert |round| == |multiset(round)| == |vs|;
    assert (visits + round)[|visits|..] == round && (visits + round)[..|visits|] == visits;
  }

  /** A vertex whose neighbours are all in other shards, one of them with a score above the floor, moves there. */
  lemma DrawnAway(es: seq<Edge>, penalty: real, a: Run, v: Vertex, b: Run, i: nat)
    requires Visited(es, penalty, a, v, b) && Movable(a, v)
    requires var sc := ScoringOf(es, penalty, a, v); i < |sc.ns| && Below(FLOOR, sc.At(i))
    requires forall u | u in Neighbours(es, v) :: ShardOf(a.p, u) != ShardOf(a.p, v)
    ensures v in b.p && v.addr in b.res && b.p[v] == b.res[v.addr] != ShardOf(a.p, v)
    ensures exists u :: u in Neighbours(es, v) && ShardOf(a.p, u) == b.p[v]
  {
    var sc, now := ScoringOf(es, penalty, a, v), ShardOf(a.p, v);
    var to :| sc.Picks(now, to) && Placed(es, a, v, to, b);
    var max :| sc.Leads(|sc.ns|, now, to, max);
    var j: nat :| j < |sc.ns| && to == ShardOf(a.p, sc.ns[j]);
    assert sc.ns[j] in Neighbours(es, v);
  }

  lemma UpdatesGrowAt(es: seq<Edge>, penalty: real, a: Run, u: Vertex, b: Run, v: Vertex)
    requires Visited(es, penalty, a, u, b)
    ensures Moves(a.updates, v) <= Moves(b.updates, v)
  {
  }

  lemma {:induction false} UpdatesGrow(es: seq<Edge>, penalty: real, a: Run, visits: seq<Vertex>, b: Run, v: Vertex)
    requires RunsTo(es, penalty, a, visits, b)
    ensures Moves(a.updates, v) <= Moves(b.updates, v)
    decreases |visits|
  {
    if visits != [] {
      var rest := visits[..|visits| - 1];
      var m :| RunsTo(es, penalty, a, rest, m) && Visited(es, penalty, m, visits[|visits| - 1], b);
      UpdatesGrow(es, penalty, a, rest, m, v);
      UpdatesGrowAt(es, penalty, m, visits[|visits| - 1], b, v);
    }
  }

  lemma QuietVisit(es: seq<Edge>, penalty: real, a: Run, v: Vertex, b: Run)
    requires Visited(es, penalty, a, v, b) && Moves(b.updates, v) == Moves(a.updates, v)
    ensures b == a && (Movable(a, v) ==> Content(es, penalty, a, v))
  {
  }

  ghost predicate AllContent(es: seq<Edge>, penalty: real, a: Run, visits: seq<Vertex>) {
    forall v | v in visits && Movable(a, v) :: Content(es, penalty, a, v)
  }

  /** Visits that move nothing leave every vertex that may move in a shard of maximal score. */
  lemma {:induction false} QuietVisits(es: seq<Edge>, penalty: real, a: Run, visits: seq<Vertex>, b: Run)
    requires RunsTo(es, penalty, a, visits, b) && forall v :: Moves(b.updates, v) == Moves(a.updates, v)
    ensures b == a && AllContent(es, penalty, a, visits)
    decreases |visits|
  {
    if visits != [] {
      var rest, last := visits[..|visits| - 1], visits[|visits| - 1];
      var m :| RunsTo(es, penalty, a, rest, m) && Visited(es, penalty, m, last, b);
      forall v ensures Moves(m.updates, v) == Moves(a.updates, v) {
        UpdatesGrow(es, penalty, a, rest, m, v);
        UpdatesGrowAt(es, penalty, m, last, b, v);
      }
      QuietVisits(es, penalty, a, rest, m);
      QuietVisit(es, penalty, m, last, b);
      assert visits == rest + [last];
    }
  }

  ghost predicate KeptBy(vs: set<Vertex>, es: seq<Edge>, n: nat, start: map<Vertex, int>, hops: seq<Hop>, a: Run) {
    Kept(vs, es, n, start, hops, a.res, a.p, a.counts, a.w, a.cross)
  }

  lemma VisitMoves(es: seq<Edge>, penalty: real, a: Run, v: Vertex, b: Run) returns (to: int)
    requires Visited(es, penalty, a, v, b) && b != a
    ensures Movable(a, v) && MovedTo(es, a, v, to, b) && to != ShardOf(a.p, v)
  {
    var sc, now := ScoringOf(es, penalty, a, v), ShardOf(a.p, v);
    to :| sc.Picks(now, to) && Placed(es, a, v, to, b);
  }

  lemma VisitKeeps(vs: set<Vertex>, es: seq<Edge>, penalty: real, n: nat, start: map<Vertex, int>, hops: seq<Hop>,
                   a: Run, v: Vertex, b: Run)
    returns (hops': seq<Hop>)
    requires KeptBy(vs, es, n, start, hops, a) && v in vs && Visited(es, penalty, a, v, b)
    ensures KeptBy(vs, es, n, start, hops', b)
  {
    hops' := hops;
    if b != a {
      var to := VisitMoves(es, penalty, a, v, b);
      MoveKeeps(vs, es, n, start, hops, a.res, a.p, a.counts, a.w, a.cross, v, to, b.w, b.cross);
      hops' := hops + [Hop(v, a.p[v], to)];
    }
  }

  /** What every run keeps, whatever the scores: `hops` are its moves. */
  lemma {:induction false} RunKeeps(vs: set<Vertex>, es: seq<Edge>, penalty: real, n: nat, a: Run, visits: seq<Vertex>, b: Run)
    returns (hops: seq<Hop>)
    requires KeptBy(vs, es, n, a.p, [], a) && (forall v | v in visits :: v in vs) && RunsTo(es, penalty, a, visits, b)
    ensures KeptBy(vs, es, n, a.p, hops, b)
    decreases |visits|
  {
    if visits == [] {
      hops := [];
    } else {
      var rest, last := visits[..|visits| - 1], visits[|visits| - 1];
      var m :| RunsTo(es, penalty, a, rest, m) && Visited(es, penalty, m, last, b);
      hops := RunKeeps(vs, es, penalty, n, a, rest, m);
      hops := VisitKeeps(vs, es, penalty, n, a.p, hops, m, last, b);
    }
  }

  lemma {:induction false} RoundsWithin(visits: seq<Vertex>, vs: set<Vertex>, n: nat)
    requires Rounds(visits, vs, n)
    ensures forall v | v in visits :: v in vs
    decreases n
  {
    if n > 0 {
      var k := |visits| - |vs|;
      RoundsWithin(visits[..k], vs, n - 1);
      forall v | v in visits ensures v in vs {
        assert visits == visits[..k] + visits[k..];
        assert v in visits[k..] ==> v in multiset(visits[k..]);
      }
    }
  }

  /** A run that starts from exact counts. */
  lemma BeginKeeps(vs: set<Vertex>, es: seq<Edge>, n: nat, a: Run)
    requires Begins(es, a.p, a) && vs <= a.p.Keys && InRange(a.p, n) && |a.w| == |a.counts| == n
    requires MembersCounted(vs, a.p, a.counts)
    ensures KeptBy(vs, es, n, a.p, [], a)
  {
    assert Applied(a.p, a.res) == a.p;
  }

  /** What a whole partitioning keeps: its incremental counts end up exact exactly if no vertex with a loop has moved. */
  lemma PartitionKeeps(vs: set<Vertex>, es: seq<Edge>, penalty: real, n: nat, rounds: nat, a: Run, visits: seq<Vertex>, b: Run)
    returns (hops: seq<Hop>)
    requires Begins(es, a.p, a) && vs <= a.p.Keys && InRange(a.p, n) && |a.w| == |a.counts| == n
    requires MembersCounted(vs, a.p, a.counts) && Rounds(visits, vs, rounds) && RunsTo(es, penalty, a, visits, b)
    ensures KeptBy(vs, es, n, a.p, hops, b)
    ensures Exact(es, b.p, b.w, b.cross) <==> forall i | 0 <= i < |hops| :: LoopFreeAt(es, hops[i].v)
  {
    RoundsWithin(visits, vs, rounds);
    BeginKeeps(vs, es, n, a);
    hops := RunKeeps(vs, es, penalty, n, a, visits, b);
    DriftedExactly(es, b.p, hops, b.w, b.cross);
  }

  // ---------- The partitioning ----------

  class CLPAState {
    const netGraph: Graph
    const shardNum: nat
    const maxIterations: int
    const weightPenalty: real
    var partitionMap: map<Vertex, int>
    var edges2Shard: seq<int>
    var vertexsNumInShard: seq<int>
    var minEdges2Shard: int
    var crossShardEdgeNum: int

    ghost predicate Valid()
      reads this, netGraph
    {
      && netGraph.Valid() && netGraph.vertexSet <= partitionMap.Keys && InRange(partitionMap, shardNum)
      && |vertexsNumInShard| == shardNum && MembersCounted(netGraph.vertexSet, partitionMap, vertexsNumInShard)
    }

    /** What the loops need. */
    ghost predicate Ready()
      reads this, netGraph
    {
      && netGraph.Valid() && netGraph.vertexSet <= partitionMap.Keys && InRange(partitionMap, shardNum)
      && |vertexsNumInShard| == shardNum && |edges2Shard| == shardNum
    }

    /** The incrementally kept counts are those of a full recount. */
    ghost predicate CountsExact()
      reads this, netGraph
    {
      |edges2Shard| == shardNum && Exact(netGraph.edges, partitionMap, edges2Shard, crossShardEdgeNum)
    }

    /** `Init_CLPAState`, and the entries that the caller puts in for accounts moved in earlier rounds. */
    constructor (wp: real, mIter: int, sn: nat, moved: map<Vertex, int>)
      requires InRange(moved, sn)
      ensures Valid() && partitionMap == moved && shardNum == sn && maxIterations == mIter && weightPenalty == wp
      ensures fresh(netGraph) && netGraph.edges == [] && netGraph.vertexSet == {}
    {
      netGraph := new Graph();
      shardNum, maxIterations, weightPenalty := sn, mIter, wp;
      partitionMap := moved;
      vertexsNumInShard := seq(sn, _ => 0);
      edges2Shard, minEdges2Shard, crossShardEdgeNum := [], 0, 0;
      new;
      forall k | 0 <= k < shardNum ensures |Members({}, partitionMap, k)| == 0 {
        assert Members({}, partitionMap, k) == {};
      }
    }

    /** The member counts stay exact exactly if the vertex is new; `AddEdge` asks first. */
    method AddVertex(v: Vertex)
      requires Valid() && (v in partitionMap || 0 <= Addr2Shard(v.addr) < shardNum)
      modifies this`partitionMap, this`vertexsNumInShard, netGraph`vertexSet
      ensures netGraph.vertexSet == old(netGraph.vertexSet) + {v} && (Valid() <==> v !in old(netGraph.vertexSet))
      ensures partitionMap == if v in old(partitionMap) then old(partitionMap) else old(partitionMap)[v := Addr2Shard(v.addr)]
      ensures var s := partitionMap[v]; vertexsNumInShard == old(vertexsNumInShard)[s := old(vertexsNumInShard)[s] + 1]
    {
      netGraph.AddVertex(v);
      if v !in partitionMap {
        partitionMap := partitionMap[v := Addr2Shard(v.addr)];
      }
      var s := partitionMap[v];
      assert partitionMap == old(partitionMap)[v := s];
      JoinCounts(old(netGraph.vertexSet), old(partitionMap), v, s, vertexsNumInShard);
      vertexsNumInShard := vertexsNumInShard[s := vertexsNumInShard[s] + 1];
    }

    method AddEdge(u: Vertex, v: Vertex)
      requires Valid()
      requires u in partitionMap || 0 <= Addr2Shard(u.addr) < shardNum
      requires v in partitionMap || 0 <= Addr2Shard(v.addr) < shardNum
      modifies this`partitionMap, this`vertexsNumInShard, netGraph
      ensures Valid() && netGraph.edges == old(netGraph.edges) + [Edge(u, v)]
      ensures netGraph.vertexSet == old(netGraph.vertexSet) + {u, v}
      ensures forall w | w in old(partitionMap) :: w in partitionMap && partitionMap[w] == old(partitionMap[w])
    {
      if u !in netGraph.vertexSet {
        AddVertex(u);
      }
      if v !in netGraph.vertexSet {
        AddVertex(v);
      }
      ghost var vs := netGraph.vertexSet;
      netGraph.AddEdge(u, v);
      assert netGraph.vertexSet == vs;
    }

    method ComputeEdges2Shard()
      requires Valid()
      modifies this`edges2Shard, this`crossShardEdgeNum, this`minEdges2Shard
      ensures CountsExact() && IsMin(edges2Shard, 0x7fffffff, minEdges2Shard)
    {
      edges2Shard, crossShardEdgeNum := Recount(netGraph.edgeSet, partitionMap, shardNum, netGraph.edges);
      minEdges2Shard := Smallest(edges2Shard, 0x7fffffff);
    }

    /** `v` has just been moved from `was`. */
    method ChangeShardRecompute(v: Vertex, was: int, ghost before: map<Vertex, int>)
      requires netGraph.Valid() && |edges2Shard| == shardNum && Covers(partitionMap.Keys, netGraph.edges)
      requires InRange(partitionMap, shardNum) && v in partitionMap && 0 <= was < shardNum
      requires ShardOf(before, v) == was != partitionMap[v] && partitionMap == before[v := partitionMap[v]]
      modifies this`edges2Shard, this`crossShardEdgeNum, this`minEdges2Shard
      ensures Shifted(netGraph.edges, before, v, partitionMap[v],
                      old(edges2Shard), old(crossShardEdgeNum), edges2Shard, crossShardEdgeNum)
      ensures |edges2Shard| == shardNum && IsMin(edges2Shard, 0x7ffffffff, minEdges2Shard)
    {
      var now := partitionMap[v];
      var ns := ListOf(netGraph.edgeSet, v);
      assert ns == Neighbours(netGraph.edges, v);
      edges2Shard, crossShardEdgeNum := ShiftAll(ns, partitionMap, was, now, edges2Shard, crossShardEdgeNum);
      minEdges2Shard := Smallest(edges2Shard, 0x7ffffffff);
    }

    ghost function Scores(v: Vertex): Scoring
      reads this, netGraph
    {
      Scoring(Neighbours(netGraph.edges, v), partitionMap, edges2Shard, minEdges2Shard, weightPenalty)
    }

    method GetShardScore(v: Vertex, uShard: int) returns (score: Score)
      requires netGraph.Valid() && 0 <= uShard < |edges2Shard| && Neighbours(netGraph.edges, v) != []
      ensures score == Scores(v).In(uShard)
    {
      var lst := ListOf(netGraph.edgeSet, v);
      assert lst == Neighbours(netGraph.edges, v);
      var edgesTo := CountTo(lst, partitionMap, uShard);
      score := Rated(edgesTo, |lst|, edges2Shard[uShard], minEdges2Shard, weightPenalty);
    }

    method ChooseShard(v: Vertex) returns (s: int)
      requires Ready() && v in netGraph.vertexSet
      ensures 0 <= s < shardNum && Scores(v).Valid() && Scores(v).Picks(partitionMap[v], s)
    {
      NeighboursIn(netGraph.edges, v, partitionMap, shardNum);
      var ns := ListOf(netGraph.edgeSet, v);
      assert ns == Neighbours(netGraph.edges, v);
      ghost var sc := Scores(v);
      var max := Finite(-9999.0);
      s := partitionMap[v];
      var scores: map<int, Score> := map[];
      for i := 0 to |ns|
        invariant 0 <= s < shardNum && sc.Leads(i, partitionMap[v], s, max)
        invariant forall k | k in scores :: exists j: nat | j < i :: ShardOf(partitionMap, ns[j]) == k
      {
        var uShard := ShardOf(partitionMap, ns[i]);
        LeadsMore(sc, i, partitionMap[v], s, max);
        if uShard !in scores {
          var score := GetShardScore(v, uShard);
          scores := scores[uShard := score];
          if Below(max, score) {
            max, s := score, uShard;
          }
        }
      }
      assert sc.Leads(|ns|, partitionMap[v], s, max);
    }

    ghost function Now(updates: map<string, int>, res: map<string, int>): Run
      reads this
    {
      Run(partitionMap, vertexsNumInShard, edges2Shard, crossShardEdgeNum, minEdges2Shard, updates, res)
    }

    method Move(v: Vertex, to: int, updates: map<string, int>, res: map<string, int>)
      returns (updates': map<string, int>, res': map<string, int>)
      requires Ready() && v in netGraph.vertexSet && 0 <= to < shardNum && to != partitionMap[v]
      modifies this
      ensures Ready() && MovedTo(netGraph.edges, old(Now(updates, res)), v, to, Now(updates', res'))
    {
      var was := partitionMap[v];
      ghost var before := partitionMap;
      partitionMap := partitionMap[v := to];
      res' := res[v.addr := to];
      updates' := updates[v.addr := Moves(updates, v) + 1];
      vertexsNumInShard := vertexsNumInShard[was := vertexsNumInShard[was] - 1];
      vertexsNumInShard := vertexsNumInShard[to := vertexsNumInShard[to] + 1];
      ChangeShardRecompute(v, was, before);
    }

    /** The body of the loop over the vertices. */
    method Visit(v: Vertex, updates: map<string, int>, res: map<string, int>)
      returns (updates': map<string, int>, res': map<string, int>)
      requires Ready() && v in netGraph.vertexSet
      modifies this
      ensures Ready() && Visited(netGraph.edges, weightPenalty, old(Now(updates, res)), v, Now(updates', res'))
    {
      ghost var here := Now(updates, res);
      updates', res' := updates, res;
      if Moves(updates, v) < 50 {
        var s := ChooseShard(v);
        assert Scores(v) == ScoringOf(netGraph.edges, weightPenalty, here, v);
        if partitionMap[v] != s && vertexsNumInShard[partitionMap[v]] > 1 {
          updates', res' := Move(v, s, updates, res);
        }
        VisitDone(netGraph.edges, weightPenalty, here, v, s, Now(updates', res'));
      }
    }

    /** The loop over the vertices, in any order: `visits` goes on with each of them once. */
    method Sweep(updates: map<string, int>, res: map<string, int>, ghost first: Run, ghost visits: seq<Vertex>)
      returns (updates': map<string, int>, res': map<string, int>, ghost round: seq<Vertex>)
      requires Ready() && RunsTo(netGraph.edges, weightPenalty, first, visits, Now(updates, res))
      modifies this
      ensures Ready() && multiset(round) == multiset(netGraph.vertexSet)
      ensures RunsTo(netGraph.edges, weightPenalty, first, visits + round, Now(updates', res'))
    {
      updates', res', round := updates, res, [];
      var todo := netGraph.vertexSet;
      assert visits + round == visits;
      while todo != {}
        invariant Ready() && todo <= netGraph.vertexSet
        invariant RoundBut(round, todo, netGraph.vertexSet)
        invariant RunsTo(netGraph.edges, weightPenalty, first, visits + round, Now(updates', res'))
        decreases |todo|
      {
        var v: Vertex :| v in todo;
        ghost var here := Now(updates', res');
        updates', res' := Visit(v, updates', res');
        RunsOn(netGraph.edges, weightPenalty, first, visits, round, here, v, Now(updates', res'));
        RoundMore(round, todo, netGraph.vertexSet, v);
        todo := todo - {v};
        round := round + [v];
      }
    }

    /** The loop over the iterations. */
    method Iterate(ghost first: Run) returns (res: map<string, int>, ghost visits: seq<Vertex>, ghost last: Run)
      requires Ready() && first == Now(map[], map[])
      modifies this
      ensures Ready() && Rounds(visits, netGraph.vertexSet, if maxIterations < 0 then 0 else maxIterations)
      ensures RunsTo(netGraph.edges, weightPenalty, first, visits, last) && last == Now(last.updates, res)
    {
      var updates: map<string, int> := map[];
      res, visits := map[], [];
      for iter := 0 to if maxIterations < 0 then 0 else maxIterations
        invariant Ready() && Rounds(visits, netGraph.vertexSet, iter)
        invariant RunsTo(netGraph.edges, weightPenalty, first, visits, Now(updates, res))
      {
        ghost var round;
        updates, res, round := Sweep(updates, res, first, visits);
        RoundsMore(visits, round, netGraph.vertexSet, iter);
        visits := visits + round;
      }
      last := Now(updates, res);
    }

    /**
     Whatever the order of the vertices.  `last` holds the incrementally kept counts before the last recount, and
     `hops` the moves.
     */
    method Partition()
      returns (res: map<string, int>, cross: int, ghost hops: seq<Hop>, ghost visits: seq<Vertex>, ghost first: Run, ghost last: Run)
      requires Valid()
      modifies this
      ensures Valid() && CountsExact() && cross == Crossing(netGraph.edges, partitionMap)
      ensures Begins(netGraph.edges, old(partitionMap), first) && first.counts == old(vertexsNumInShard)
      ensures Rounds(visits, netGraph.vertexSet, if maxIterations < 0 then 0 else maxIterations)
      ensures RunsTo(netGraph.edges, weightPenalty, first, visits, last) && last.p == partitionMap && last.res == res
      ensures |last.w| == shardNum && Drifted(netGraph.edges, partitionMap, hops, last.w, last.cross)
      ensures (last.w == edges2Shard && last.cross == crossShardEdgeNum)
         <==> forall i | 0 <= i < |hops| :: LoopFreeAt(netGraph.edges, hops[i].v)
      ensures Hopping(old(partitionMap), hops) && partitionMap == After(old(partitionMap), hops)
      ensures partitionMap == Applied(old(partitionMap), res) && Recorded(hops, res)
      ensures NoneEmptied(netGraph.vertexSet, old(partitionMap), partitionMap, shardNum)
    {
      ComputeEdges2Shard();
      first := Now(map[], map[]);
      res, visits, last := Iterate(first);
      hops := PartitionKeeps(netGraph.vertexSet, netGraph.edges, weightPenalty, shardNum,
                             if maxIterations < 0 then 0 else maxIterations, first, visits, last);
      ComputeEdges2Shard();
      cross := crossShardEdgeNum;
    }
  }

  /** The loop of `changeShardRecompute`. */
  method ShiftAll(ns: seq<Vertex>, p: map<Vertex, int>, was: int, now: int, w: seq<int>, cross: int)
    returns (w': seq<int>, cross': int)
    requires 0 <= was < |w| && 0 <= now < |w| && was != now
    ensures |w'| == |w| && forall k | 0 <= k < |w| :: w'[k] == w[k] + Shifts(ns, p, was, now, k)
    ensures cross' == cross + CrossShifts(ns, p, was, now)
  {
    w', cross' := w, cross;
    for i := 0 to |ns|
      invariant |w'| == |w| && forall k | 0 <= k < |w| :: w'[k] == w[k] + Shifts(ns[..i], p, was, now, k)
      invariant cross' == cross + CrossShifts(ns[..i], p, was, now)
    {
      assert ns[..i + 1][..i] == ns[..i];
      var s := ShardOf(p, ns[i]);
      if s != now && s != was {
        w' := w'[now := w'[now] + 1];
        w' := w'[was := w'[was] - 1];
      } else if s == now {
        w' := w'[was := w'[was] - 1];
        cross' := cross' - 1;
      } else {
        w' := w'[now := w'[now] + 1];
        cross' := cross' + 1;
      }
    }
    assert ns[..|ns|] == ns;
  }
}
