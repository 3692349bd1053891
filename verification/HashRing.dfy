/**
 local/hash_ring.go: the skip list that keeps the scores of the virtual nodes in order, with the list of
 virtual nodes at each score.
 */
module HashRing {
  import opened Bytes

  class VirtualNode {
    const score: int
    var nodeIDs: seq<string>
    var nexts: seq<VirtualNode?>

    constructor (score: int, nodeIDs: seq<string>, nexts: seq<VirtualNode?>)
      ensures this.score == score && this.nodeIDs == nodeIDs && this.nexts == nexts
    {
      this.score, this.nodeIDs, this.nexts := score, nodeIDs, nexts;
    }
  }

  /** The virtual nodes at each score. */
  type Ring = map<int, seq<string>>

  /** The data keys recorded under each node. */
  type Data = map<string, set<string>>

  function KeysOf(data: Data, id: string): set<string> {
    if id in data then data[id] else {}
  }

  /** `DeleteNodeToDataKeys`: a node without keys loses its entry. */
  function DeleteKeys(data: Data, id: string, keys: set<string>): Data {
    if id !in data then data else if data[id] - keys == {} then data - {id} else data[id := data[id] - keys]
  }

  /** `AddNodeToDataKeys`. */
  function AddKeys(data: Data, id: string, keys: set<string>): Data {
    data[id := KeysOf(data, id) + keys]
  }

  // ---------- Linear search with wrap-around ----------

  /** The smallest score that is at least `score`, else the smallest of all, -1 if there is none. */
  ghost predicate IsCeiling(scores: set<int>, score: int, r: int) {
    if scores == {} then
      r == -1
    else
      && r in scores
      && (if exists s :: s in scores && s >= score
          then r >= score && forall s | s in scores && s >= score :: r <= s
          else forall s | s in scores :: r <= s)
  }

  /** The largest score that is at most `score`, else the largest of all, -1 if there is none. */
  ghost predicate IsFloor(scores: set<int>, score: int, r: int) {
    if scores == {} then
      r == -1
    else
      && r in scores
      && (if exists s :: s in scores && s <= score
          then r <= score && forall s | s in scores && s <= score :: s <= r
          else forall s | s in scores :: s <= r)
  }

  // ---------- The threads of the list ----------

  /** The nodes in order, the root in front; `links[i]` are the forward pointers of node `i`. */
  type Links = seq<seq<VirtualNode?>>

  /** The first node at or after `i` that is on level `l`. */
  ghost function NextAt(links: Links, i: nat, l: nat): (j: nat)
    requires i <= |links|
    ensures i <= j <= |links| && (j < |links| ==> |links[j]| > l)
    ensures forall k | i <= k < j :: |links[k]| <= l
    decreases |links| - i
  {
    if i == |links| || |links[i]| > l then i else NextAt(links, i + 1, l)
  }

  ghost predicate Ordered(spine: seq<VirtualNode>) {
    && |spine| > 0
    && (forall i, j | 0 < i < j < |spine| :: spine[i].score < spine[j].score)
    && (forall i | 0 < i < |spine| :: spine[i] != spine[0])
  }

  ghost predicate Heights(links: Links) {
    |links| > 0 && forall i | 0 < i < |links| :: 1 <= |links[i]| <= |links[0]|
  }

  /** What the pointer of node `i` on level `l` should be. */
  ghost function Target(spine: seq<VirtualNode>, links: Links, i: nat, l: nat): VirtualNode?
    requires |links| == |spine| && i < |spine|
  {
    NodeAt(spine, NextAt(links, i + 1, l))
  }

  ghost function NodeAt(spine: seq<VirtualNode>, j: nat): VirtualNode? {
    if j < |spine| then spine[j] else null
  }

  /** Level `l` threads exactly the nodes tall enough for it, in order. */
  ghost predicate Threaded(spine: seq<VirtualNode>, links: Links, l: nat) {
    && |links| == |spine|
    && forall i {:trigger Target(spine, links, i, l)} | 0 <= i < |spine| && l < |links[i]| :: links[i][l] == Target(spine, links, i, l)
  }

  /** Where `score` is or would be. */
  ghost function Rank(spine: seq<VirtualNode>, score: int, i: nat): (p: nat)
    requires i <= |spine|
    ensures i <= p <= |spine| && (p < |spine| ==> spine[p].score >= score)
    ensures forall k | i <= k < p :: spine[k].score < score
    decreases |spine| - i
  {
    if i == |spine| || spine[i].score >= score then i else Rank(spine, score, i + 1)
  }

  ghost function Pos(spine: seq<VirtualNode>, score: int): (p: nat)
    requires Ordered(spine)
    ensures 1 <= p <= |spine|
    ensures forall k | 1 <= k < |spine| :: spine[k].score < score <==> k < p
  {
    Rank(spine, score, 1)
  }

  ghost function LinksOf(spine: seq<VirtualNode>): (links: Links)
    reads spine
    ensures |links| == |spine| && forall i | 0 <= i < |spine| :: links[i] == spine[i].nexts
  {
    seq(|spine|, i requires 0 <= i < |spine| reads spine => spine[i].nexts)
  }

  /** Node `i` is the last one below `score` on level `l`. */
  ghost predicate LastBelow(spine: seq<VirtualNode>, links: Links, i: nat, l: nat, score: int)
    requires Ordered(spine) && |links| == |spine|
  {
    i < Pos(spine, score) <= NextAt(links, i + 1, l)
  }

  lemma AboveBelow(spine: seq<VirtualNode>, links: Links, i: nat, l: nat, score: int)
    requires Ordered(spine) && |links| == |spine| && Threaded(spine, links, l) && i < |spine| && l < |links[i]|
    requires LastBelow(spine, links, i, l, score)
    ensures var next := links[i][l];
      if next != null && next.score == score then
        NextAt(links, i + 1, l) == Pos(spine, score) < |spine| && next == spine[Pos(spine, score)]
      else
        NextAt(links, i + 1, l) > Pos(spine, score) || Pos(spine, score) == |spine| || spine[Pos(spine, score)].score > score
  {
    assert links[i][l] == Target(spine, links, i, l);
  }

  /** Move right on `level` as long as the scores stay below `score`. */
  method Advance(move: VirtualNode, level: nat, score: int, ghost spine: seq<VirtualNode>, ghost i: nat)
    returns (m: VirtualNode, ghost j: nat)
    requires Ordered(spine) && i < Pos(spine, score) && spine[i] == move && level < |move.nexts|
    requires Threaded(spine, LinksOf(spine), level)
    ensures i <= j < |spine| && m == spine[j] && level < |m.nexts| && LastBelow(spine, LinksOf(spine), j, level, score)
  {
    m, j := move, i;
    ghost var links := LinksOf(spine);
    assert links[j][level] == Target(spine, links, j, level);
    while m.nexts[level] != null && m.nexts[level].score < score
      invariant i <= j < Pos(spine, score) && m == spine[j] && level < |m.nexts|
      invariant links[j][level] == Target(spine, links, j, level)
      decreases |spine| - j
    {
      j := NextAt(links, j + 1, level);
      m := m.nexts[level];
      assert links[j][level] == Target(spine, links, j, level);
    }
  }

  /** Every level is a sorted sublist of the one below, and no empty level is kept. */
  ghost predicate SkipList(spine: seq<VirtualNode>, links: Links) {
    && Ordered(spine) && |links| == |spine| && Heights(links)
    && forall l | 0 <= l < |links[0]| :: Threaded(spine, links, l) && links[0][l] != null
  }

  lemma NextNode(spine: seq<VirtualNode>, links: Links, i: nat, l: nat)
    requires SkipList(spine, links) && i < |spine| && l < |links[i]|
    ensures links[i][l] == Target(spine, links, i, l)
    ensures links[i][l] == null <==> NextAt(links, i + 1, l) == |spine|
  {
    assert Threaded(spine, links, l);
  }

  /** The bottom level visits every node. */
  lemma Bottom(spine: seq<VirtualNode>, links: Links, i: nat)
    requires SkipList(spine, links) && i < |spine|
    ensures links[0] == [] <==> |spine| == 1
    ensures links[0] != [] ==> links[i] != [] && links[i][0] == if i + 1 < |spine| then spine[i + 1] else null
  {
    assert |spine| > 1 ==> 1 <= |links[1]| <= |links[0]|;
    if links[0] != [] {
      NextNode(spine, links, i, 0);
      NextNode(spine, links, 0, 0);
    }
  }

  ghost function At(spine: seq<VirtualNode>, score: int): VirtualNode?
    requires Ordered(spine)
  {
    var p := Pos(spine, score);
    if p < |spine| && spine[p].score == score then spine[p] else null
  }

  /** `get`. */
  method Locate(root: VirtualNode, score: int, ghost spine: seq<VirtualNode>) returns (node: VirtualNode?)
    requires SkipList(spine, LinksOf(spine)) && root == spine[0]
    ensures node == At(spine, score)
  {
    var move := root;
    ghost var i: nat := 0;
    var level: nat := |root.nexts|;
    ghost var links := LinksOf(spine);
    while level > 0
      invariant level <= |root.nexts| && i < Pos(spine, score) && move == spine[i] && level <= |move.nexts|
      invariant level < |root.nexts| ==> LastBelow(spine, links, i, level, score)
      invariant level < |root.nexts| && NextAt(links, i + 1, level) == Pos(spine, score) ==> At(spine, score) == null
    {
      level := level - 1;
      move, i := Advance(move, level, score, spine, i);
      AboveBelow(spine, links, i, level, score);
      if move.nexts[level] != null && move.nexts[level].score == score {
        return move.nexts[level];
      }
    }
    node := null;
  }

  /** The descent that `ceiling` and `floor` share: the last node below `score`. */
  method Descend(root: VirtualNode, score: int, ghost spine: seq<VirtualNode>) returns (move: VirtualNode)
    requires SkipList(spine, LinksOf(spine)) && root == spine[0]
    ensures move == spine[Pos(spine, score) - 1]
  {
    move := root;
    ghost var i: nat := 0;
    var level: nat := |root.nexts|;
    ghost var links := LinksOf(spine);
    while level > 0
      invariant level <= |root.nexts| && i < Pos(spine, score) && move == spine[i] && level <= |move.nexts|
      invariant level < |root.nexts| ==> LastBelow(spine, links, i, level, score)
    {
      level := level - 1;
      move, i := Advance(move, level, score, spine, i);
    }
  }

  /** Where linear search finds the ceiling. */
  ghost function CeilingIndex(spine: seq<VirtualNode>, score: int): (c: nat)
    requires Ordered(spine) && |spine| > 1
    ensures 0 < c < |spine|
  {
    if Pos(spine, score) < |spine| then Pos(spine, score) else 1
  }

  ghost function FloorIndex(spine: seq<VirtualNode>, score: int): (f: nat)
    requires Ordered(spine) && |spine| > 1
    ensures 0 < f < |spine|
  {
    if At(spine, score) != null then Pos(spine, score) else if Pos(spine, score) > 1 then Pos(spine, score) - 1 else |spine| - 1
  }

  /** `ceiling`, or else `first`. */
  method CeilingScan(root: VirtualNode, score: int, ghost spine: seq<VirtualNode>) returns (r: int)
    requires SkipList(spine, LinksOf(spine)) && root == spine[0]
    ensures r == if |spine| == 1 then -1 else spine[CeilingIndex(spine, score)].score
  {
    Bottom(spine, LinksOf(spine), Pos(spine, score) - 1);
    Bottom(spine, LinksOf(spine), 0);
    if |root.nexts| == 0 {
      return -1;
    }
    var move := Descend(root, score, spine);
    if move.nexts[0] != null {
      return move.nexts[0].score;
    }
    r := root.nexts[0].score;
  }

  /** `floor`, or else `last`. */
  method FloorScan(root: VirtualNode, score: int, ghost spine: seq<VirtualNode>) returns (r: int)
    requires SkipList(spine, LinksOf(spine)) && root == spine[0]
    ensures r == if |spine| == 1 then -1 else spine[FloorIndex(spine, score)].score
  {
    Bottom(spine, LinksOf(spine), Pos(spine, score) - 1);
    if |root.nexts| == 0 {
      return -1;
    }
    var move := Descend(root, score, spine);
    if move.nexts[0] != null && move.nexts[0].score == score {
      return score;
    }
    if move != root {
      return move.score;
    }
    r := Last(root, spine);
  }

  /** `last`: run to the end of every level. */
  method Last(root: VirtualNode, ghost spine: seq<VirtualNode>) returns (r: int)
    requires SkipList(spine, LinksOf(spine)) && root == spine[0]
    ensures r == if |spine| == 1 then -1 else spine[|spine| - 1].score
  {
    var move := root;
    ghost var i: nat := 0;
    var level: nat := |root.nexts|;
    ghost var links := LinksOf(spine);
    while level > 0
      invariant level <= |root.nexts| && i < |spine| && move == spine[i] && level <= |move.nexts|
      invariant level < |root.nexts| ==> NextAt(links, i + 1, level) == |spine|
    {
      level := level - 1;
      while move.nexts[level] != null
        invariant i < |spine| && move == spine[i] && level < |move.nexts|
        decreases |spine| - i
      {
        NextNode(spine, links, i, level);
        i := NextAt(links, i + 1, level);
        move := move.nexts[level];
      }
      NextNode(spine, links, i, level);
    }
    if move == root {
      return -1;
    }
    r := move.score;
  }

  // ---------- Splicing in and out ----------

  /** From `i` on, the same nodes reach each level. */
  ghost predicate SameHeights(a: Links, b: Links, i: nat) {
    |a| == |b| && forall k | i <= k < |a| :: |a[k]| == |b[k]|
  }

  lemma NextAtSame(a: Links, b: Links, i: nat, l: nat)
    requires SameHeights(a, b, i) && i <= |a|
    ensures NextAt(a, i, l) == NextAt(b, i, l)
  {}

  /** Node `i` is the one whose pointer on level `l` passes over position `p`. */
  ghost predicate Passes(links: Links, i: nat, l: nat, p: nat) {
    i < p <= |links| && i < |links| && l < |links[i]| && NextAt(links, i + 1, l) >= p
  }

  lemma PassesUnique(links: Links, i: nat, j: nat, l: nat, p: nat)
    requires Passes(links, i, l, p) && Passes(links, j, l, p)
    ensures i == j
  {}

  /** On each level of `detour` from `level` up, the pointer that passes over `p` is replaced; the others are untouched. */
  ghost predicate Rerouted(links: Links, cur: Links, detour: seq<VirtualNode?>, p: nat, level: nat) {
    && SameHeights(links, cur, 0)
    && forall i, l | 0 <= i < |links| && 0 <= l < |links[i]| :: cur[i][l] == Route(links, detour, p, level, i, l)
  }

  ghost function Route(links: Links, detour: seq<VirtualNode?>, p: nat, level: nat, i: nat, l: nat): VirtualNode?
    requires i < |links| && l < |links[i]|
  {
    if level <= l < |detour| && Passes(links, i, l, p) then detour[l] else links[i][l]
  }

  ghost function Everywhere(node: VirtualNode, height: nat): (detour: seq<VirtualNode?>)
    ensures |detour| == height && forall l | 0 <= l < height :: detour[l] == node
  {
    seq(height, _ => node)
  }

  /** The pointers of the new node, filled in from the top down to `level`. */
  ghost predicate Filling(spine: seq<VirtualNode>, links: Links, nexts: seq<VirtualNode?>, p: nat, height: nat, level: nat) {
    && |nexts| == height && |links| == |spine| && p <= |spine|
    && forall l | level <= l < height ::
         nexts[l] == if NextAt(links, p, l) < |spine| then spine[NextAt(links, p, l)] else null
  }

  lemma ReroutedThreaded(spine: seq<VirtualNode>, links: Links, cur: Links, detour: seq<VirtualNode?>, p: nat, level: nat)
    requires Rerouted(links, cur, detour, p, level + 1) && Threaded(spine, links, level)
    ensures Threaded(spine, cur, level)
  {
    forall i | 0 <= i < |spine| && level < |cur[i]| ensures cur[i][level] == Target(spine, cur, i, level) {
      NextAtSame(links, cur, i + 1, level);
      assert links[i][level] == Target(spine, links, i, level);
    }
  }

  lemma RerouteStep(links: Links, cur: Links, detour: seq<VirtualNode?>, p: nat, level: nat, j: nat)
    requires Rerouted(links, cur, detour, p, level + 1) && level < |detour| && Passes(links, j, level, p)
    ensures Rerouted(links, cur[j := cur[j][level := detour[level]]], detour, p, level)
  {
    var cur' := cur[j := cur[j][level := detour[level]]];
    forall i, l | 0 <= i < |links| && 0 <= l < |links[i]|
      ensures cur'[i][l] == Route(links, detour, p, level, i, l)
    {
      if l == level && Passes(links, i, l, p) {
        PassesUnique(links, i, j, l, p);
      }
    }
  }

  lemma PassedNext(links: Links, j: nat, l: nat, p: nat)
    requires Passes(links, j, l, p)
    ensures NextAt(links, j + 1, l) == NextAt(links, p, l)
  {}

  function InsertAt<T>(s: seq<T>, p: nat, x: T): (r: seq<T>)
    requires p <= |s|
    ensures |r| == |s| + 1 && r[p] == x
    ensures (forall i | 0 <= i < p :: r[i] == s[i]) && (forall i | p < i < |r| :: r[i] == s[i - 1])
  {
    s[..p] + [x] + s[p..]
  }

  lemma NextAtIs(links: Links, i: nat, l: nat, j: nat)
    requires i <= j <= |links| && (j < |links| ==> |links[j]| > l) && forall k | i <= k < j :: |links[k]| <= l
    ensures NextAt(links, i, l) == j
  {}

  /** After the new node, everything has moved by one. */
  lemma NextAtBehind(links: Links, cur: Links, nexts: seq<VirtualNode?>, p: nat, i: nat, l: nat)
    requires SameHeights(links, cur, 0) && p <= i <= |links|
    ensures NextAt(InsertAt(cur, p, nexts), i + 1, l) == NextAt(links, i, l) + 1
  {
    var links', j := InsertAt(cur, p, nexts), NextAt(links, i, l);
    forall k | i + 1 <= k < j + 1 ensures |links'[k]| <= l {
      assert |links[k - 1]| <= l;
    }
    NextAtIs(links', i + 1, l, j + 1);
  }

  /** Before it, a pointer stays, or leads to the new node, or passes it. */
  lemma NextAtAhead(links: Links, cur: Links, nexts: seq<VirtualNode?>, p: nat, i: nat, l: nat)
    requires SameHeights(links, cur, 0) && i <= p <= |links|
    ensures NextAt(InsertAt(cur, p, nexts), i, l)
         == if NextAt(links, i, l) < p then NextAt(links, i, l) else if |nexts| > l then p else NextAt(links, i, l) + 1
  {
    var links', j := InsertAt(cur, p, nexts), NextAt(links, i, l);
    forall k | i <= k < p && k < j ensures |links'[k]| <= l {
      assert |links[k]| <= l;
    }
    if j < p {
      NextAtIs(links', i, l, j);
    } else if |nexts| > l {
      NextAtIs(links', i, l, p);
    } else {
      forall k | p < k < j + 1 ensures |links'[k]| <= l {
        assert |links[k - 1]| <= l;
      }
      NextAtIs(links', i, l, j + 1);
    }
  }

  lemma SplicedAhead(spine: seq<VirtualNode>, links: Links, cur: Links, node: VirtualNode,
                     nexts: seq<VirtualNode?>, p: nat, l: nat, i: nat)
    requires |links| == |spine| && i < p <= |spine| && SameHeights(links, cur, 0)
    requires l < |links[i]| && links[i][l] == Target(spine, links, i, l)
    requires cur[i][l] == Route(links, Everywhere(node, |nexts|), p, 0, i, l)
    ensures cur[i][l] == Target(InsertAt(spine, p, node), InsertAt(cur, p, nexts), i, l)
  {
    NextAtAhead(links, cur, nexts, p, i + 1, l);
  }

  lemma SplicedBehind(spine: seq<VirtualNode>, links: Links, cur: Links, node: VirtualNode,
                      nexts: seq<VirtualNode?>, p: nat, l: nat, i: nat)
    requires |links| == |spine| && p <= i < |spine| && SameHeights(links, cur, 0)
    requires l < |links[i]| && links[i][l] == Target(spine, links, i, l)
    requires cur[i][l] == Route(links, Everywhere(node, |nexts|), p, 0, i, l)
    ensures cur[i][l] == Target(InsertAt(spine, p, node), InsertAt(cur, p, nexts), i + 1, l)
  {
    NextAtBehind(links, cur, nexts, p, i + 1, l);
  }

  lemma SplicedOld(spine: seq<VirtualNode>, links: Links, cur: Links, node: VirtualNode, nexts: seq<VirtualNode?>,
                   p: nat, l: nat, i: nat)
    requires |links| == |spine| && p <= |spine| && i < |spine|
    requires Rerouted(links, cur, Everywhere(node, |nexts|), p, 0) && Threaded(spine, links, l) && l < |cur[i]|
    ensures cur[i][l] == Target(InsertAt(spine, p, node), InsertAt(cur, p, nexts), if i < p then i else i + 1, l)
  {
    assert cur[i][l] == Route(links, Everywhere(node, |nexts|), p, 0, i, l);
    if i < p {
      SplicedAhead(spine, links, cur, node, nexts, p, l, i);
    } else {
      SplicedBehind(spine, links, cur, node, nexts, p, l, i);
    }
  }

  lemma SplicedNew(spine: seq<VirtualNode>, links: Links, cur: Links, node: VirtualNode, nexts: seq<VirtualNode?>, p: nat, l: nat)
    requires |links| == |spine| && p <= |spine| && SameHeights(links, cur, 0) && l < |nexts|
    requires Filling(spine, links, nexts, p, |nexts|, 0)
    ensures nexts[l] == Target(InsertAt(spine, p, node), InsertAt(cur, p, nexts), p, l)
  {
    NextAtBehind(links, cur, nexts, p, p, l);
  }

  lemma SplicedAt(spine: seq<VirtualNode>, links: Links, cur: Links, node: VirtualNode, nexts: seq<VirtualNode?>,
                  p: nat, l: nat, i: nat)
    requires |cur| == |links| == |spine| && p <= |spine| && i <= |spine| && l < |InsertAt(cur, p, nexts)[i]|
    requires Rerouted(links, cur, Everywhere(node, |nexts|), p, 0) && Filling(spine, links, nexts, p, |nexts|, 0)
    requires Threaded(spine, links, l)
    ensures InsertAt(cur, p, nexts)[i][l] == Target(InsertAt(spine, p, node), InsertAt(cur, p, nexts), i, l)
  {
    if i == p {
      SplicedNew(spine, links, cur, node, nexts, p, l);
    } else {
      var j := if i < p then i else i - 1;
      assert InsertAt(cur, p, nexts)[i] == cur[j];
      SplicedOld(spine, links, cur, node, nexts, p, l, j);
    }
  }

  lemma SplicedThreaded(spine: seq<VirtualNode>, links: Links, cur: Links, node: VirtualNode,
                        nexts: seq<VirtualNode?>, p: nat, l: nat)
    requires |links| == |spine| && p <= |spine|
    requires Rerouted(links, cur, Everywhere(node, |nexts|), p, 0) && Filling(spine, links, nexts, p, |nexts|, 0)
    requires Threaded(spine, links, l)
    ensures Threaded(InsertAt(spine, p, node), InsertAt(cur, p, nexts), l)
  {
    var spine', links' := InsertAt(spine, p, node), InsertAt(cur, p, nexts);
    forall i | 0 <= i < |links'| && l < |links'[i]| ensures links'[i][l] == Target(spine', links', i, l) {
      SplicedAt(spine, links, cur, node, nexts, p, l, i);
    }
  }

  /** A skip list whose root reaches `height`, with levels below that still empty. */
  ghost predicate Raised(spine: seq<VirtualNode>, links: Links, height: nat) {
    && Ordered(spine) && |links| == |spine| && Heights(links) && height <= |links[0]|
    && (forall l | 0 <= l < |links[0]| :: Threaded(spine, links, l))
    && forall l | height <= l < |links[0]| :: links[0][l] != null
  }

  lemma RootRaised(spine: seq<VirtualNode>, links: Links, links': Links, height: nat)
    requires SkipList(spine, links) && |links| == |links'| && (forall i | 0 < i < |links| :: links'[i] == links[i])
    requires |links'[0]| == if |links[0]| < height then height else |links[0]|
    requires forall l | 0 <= l < |links'[0]| :: links'[0][l] == if l < |links[0]| then links[0][l] else null
    ensures Raised(spine, links', height)
  {
    forall l | 0 <= l < |links'[0]| ensures Threaded(spine, links', l) {
      forall i | 0 <= i < |spine| && l < |links'[i]| ensures links'[i][l] == Target(spine, links', i, l) {
        NextAtSame(links, links', i + 1, l);
        if l < |links[i]| {
          NextNode(spine, links, i, l);
        }
      }
    }
  }

  /** Grow the root to the levels of the new node. */
  method Raise(root: VirtualNode, height: nat, ghost spine: seq<VirtualNode>)
    requires SkipList(spine, LinksOf(spine)) && spine[0] == root
    modifies root`nexts
    ensures Raised(spine, LinksOf(spine), height)
  {
    ghost var links := LinksOf(spine);
    if |root.nexts| < height {
      root.nexts := root.nexts + seq(height - |root.nexts|, _ => null);
    }
    RootRaised(spine, links, LinksOf(spine), height);
  }

  lemma InsertOrdered(spine: seq<VirtualNode>, node: VirtualNode)
    requires Ordered(spine) && At(spine, node.score) == null && node !in spine
    ensures Ordered(InsertAt(spine, Pos(spine, node.score), node))
  {}

  lemma SplicedSkipList(spine: seq<VirtualNode>, links: Links, cur: Links, node: VirtualNode, nexts: seq<VirtualNode?>, p: nat)
    requires Raised(spine, links, |nexts|) && nexts != []
    requires p == Pos(spine, node.score) && At(spine, node.score) == null && node !in spine
    requires Rerouted(links, cur, Everywhere(node, |nexts|), p, 0) && Filling(spine, links, nexts, p, |nexts|, 0)
    ensures SkipList(InsertAt(spine, p, node), InsertAt(cur, p, nexts))
  {
    InsertOrdered(spine, node);
    var links' := InsertAt(cur, p, nexts);
    forall l | 0 <= l < |links[0]| ensures Threaded(InsertAt(spine, p, node), links', l) && links'[0][l] != null {
      SplicedThreaded(spine, links, cur, node, nexts, p, l);
      RootPointer(spine, links, cur, node, nexts, p, l);
    }
  }

  lemma RootPointer(spine: seq<VirtualNode>, links: Links, cur: Links, node: VirtualNode, nexts: seq<VirtualNode?>,
                    p: nat, l: nat)
    requires |links| == |spine| && 0 < p <= |spine| && Rerouted(links, cur, Everywhere(node, |nexts|), p, 0)
    requires l < |links[0]| && links[0][l] == Target(spine, links, 0, l) && (|nexts| <= l ==> links[0][l] != null)
    ensures cur[0][l] != null
  {
    assert cur[0][l] == Route(links, Everywhere(node, |nexts|), p, 0, 0, l);
  }

  lemma FillingStep(spine: seq<VirtualNode>, links: Links, nexts: seq<VirtualNode?>, p: nat, height: nat,
                    level: nat, i: nat, next: VirtualNode?)
    requires level < height && Filling(spine, links, nexts, p, height, level + 1) && Passes(links, i, level, p)
    requires next == Target(spine, links, i, level)
    ensures Filling(spine, links, nexts[level := next], p, height, level)
  {
    PassedNext(links, i, level, p);
  }

  /** The pointers of a level that is still to come are the old ones. */
  lemma ReroutedPointer(spine: seq<VirtualNode>, links: Links, cur: Links, detour: seq<VirtualNode?>, p: nat,
                        level: nat, score: int, i: nat)
    requires Rerouted(links, cur, detour, p, level + 1) && Threaded(spine, links, level) && Ordered(spine)
    requires p == Pos(spine, score) && LastBelow(spine, cur, i, level, score) && level < |cur[i]|
    ensures Passes(links, i, level, p) && cur[i][level] == Target(spine, links, i, level)
  {
    NextAtSame(links, cur, i + 1, level);
  }

  /** The new node is spliced in on every level from `level` up. */
  ghost predicate Linking(spine: seq<VirtualNode>, links: Links, node: VirtualNode, p: nat, height: nat, level: nat)
    reads spine, node
  {
    Rerouted(links, LinksOf(spine), Everywhere(node, height), p, level) && Filling(spine, links, node.nexts, p, height, level)
  }

  method LinkLevel(move: VirtualNode, newNode: VirtualNode, level: nat, ghost spine: seq<VirtualNode>,
                   ghost links: Links, ghost p: nat, ghost height: nat, ghost i: nat)
    returns (m: VirtualNode, ghost j: nat)
    requires Ordered(spine) && newNode !in spine && p == Pos(spine, newNode.score) && level < height
    requires Threaded(spine, links, level) && Linking(spine, links, newNode, p, height, level + 1)
    requires i < p && move == spine[i] && level < |move.nexts|
    modifies spine`nexts, newNode`nexts
    ensures Linking(spine, links, newNode, p, height, level)
    ensures j < p && m == spine[j] && level < |m.nexts|
  {
    ghost var cur := LinksOf(spine);
    ghost var detour := Everywhere(newNode, height);
    ReroutedThreaded(spine, links, cur, detour, p, level);
    m, j := Advance(move, level, newNode.score, spine, i);
    ReroutedPointer(spine, links, cur, detour, p, level, newNode.score, j);
    RerouteStep(links, cur, detour, p, level, j);
    FillingStep(spine, links, newNode.nexts, p, height, level, j, m.nexts[level]);
    newNode.nexts := newNode.nexts[level := m.nexts[level]];
    SetNext(m, level, newNode, spine, j);
  }

  method SetNext(m: VirtualNode, level: nat, next: VirtualNode?, ghost spine: seq<VirtualNode>, ghost j: nat)
    requires Ordered(spine) && j < |spine| && m == spine[j] && level < |m.nexts|
    modifies m`nexts
    ensures m.nexts == old(m.nexts)[level := next]
    ensures LinksOf(spine) == old(LinksOf(spine))[j := m.nexts]
  {
    ghost var cur := LinksOf(spine);
    m.nexts := m.nexts[level := next];
    UpdatedLinks(spine, cur, j, level, next);
  }

  lemma UpdatedLinks(spine: seq<VirtualNode>, cur: Links, j: nat, level: nat, next: VirtualNode?)
    requires Ordered(spine) && |cur| == |spine| && j < |spine| && level < |cur[j]|
    requires forall i | 0 <= i < |spine| && i != j :: spine[i].nexts == cur[i]
    requires spine[j].nexts == cur[j][level := next]
    ensures LinksOf(spine) == cur[j := cur[j][level := next]]
  {}

  /** The loop of `Add`: splice the new node in on each of its levels, from the top down. */
  method Link(root: VirtualNode, newNode: VirtualNode, ghost spine: seq<VirtualNode>)
    requires Raised(spine, LinksOf(spine), |newNode.nexts|) && spine[0] == root
    requires newNode !in spine && At(spine, newNode.score) == null && newNode.nexts != []
    modifies spine`nexts, newNode`nexts
    ensures var spine' := InsertAt(spine, Pos(spine, newNode.score), newNode); SkipList(spine', LinksOf(spine'))
  {
    ghost var links, p := LinksOf(spine), Pos(spine, newNode.score);
    var height := |newNode.nexts|;
    var move, level := root, height;
    ghost var i: nat := 0;
    while level > 0
      invariant 0 <= level <= height && i < p && move == spine[i] && level <= |move.nexts|
      invariant Linking(spine, links, newNode, p, height, level)
    {
      level := level - 1;
      move, i := LinkLevel(move, newNode, level, spine, links, p, height, i);
    }
    SplicedSkipList(spine, links, LinksOf(spine), newNode, newNode.nexts, p);
    LinksOfInserted(spine, newNode, p);
  }

  lemma LinksOfInserted(spine: seq<VirtualNode>, node: VirtualNode, p: nat)
    requires p <= |spine|
    ensures LinksOf(InsertAt(spine, p, node)) == InsertAt(LinksOf(spine), p, node.nexts)
  {}

  /** The second half of `Add`: a new node with the levels that were rolled. */
  method InsertNode(root: VirtualNode, score: int, nodeID: string, rLevel: nat, ghost spine: seq<VirtualNode>, ghost ring: Ring)
    returns (newNode: VirtualNode)
    requires SkipList(spine, LinksOf(spine)) && spine[0] == root && Holds(spine, ring) && score !in ring
    modifies spine`nexts
    ensures fresh(newNode) && newNode.score == score
    ensures InList(InsertAt(spine, Pos(spine, score), newNode), ring[score := [nodeID]])
  {
    HoldsAt(spine, ring, score);
    newNode := new VirtualNode(score, [nodeID], seq(rLevel + 1, _ => null));
    RaiseAndLink(root, newNode, spine);
    assert Holds(spine, ring) by {
      assert forall i | 0 <= i < |spine| :: spine[i].nodeIDs == old(spine[i].nodeIDs);
    }
    HoldsInserted(spine, ring, newNode, Pos(spine, score));
  }

  method RaiseAndLink(root: VirtualNode, newNode: VirtualNode, ghost spine: seq<VirtualNode>)
    requires SkipList(spine, LinksOf(spine)) && spine[0] == root
    requires newNode !in spine && At(spine, newNode.score) == null && newNode.nexts != []
    modifies spine`nexts, newNode`nexts
    ensures var spine' := InsertAt(spine, Pos(spine, newNode.score), newNode); SkipList(spine', LinksOf(spine'))
  {
    Raise(root, |newNode.nexts|, spine);
    Link(root, newNode, spine);
  }

  function RemoveAt<T>(s: seq<T>, p: nat): (r: seq<T>)
    requires p < |s|
    ensures |r| == |s| - 1
    ensures (forall i | 0 <= i < p :: r[i] == s[i]) && (forall i | p <= i < |r| :: r[i] == s[i + 1])
  {
    s[..p] + s[p + 1..]
  }

  lemma RemoveAtFewer<T>(s: seq<T>, p: nat)
    requires p < |s|
    ensures (set x | x in RemoveAt(s, p)) <= (set x | x in s)
  {}

  lemma NextAtPast(links: Links, cur: Links, p: nat, i: nat, l: nat)
    requires SameHeights(links, cur, 0) && p < i <= |links|
    ensures NextAt(RemoveAt(cur, p), i - 1, l) == NextAt(links, i, l) - 1
  {
    var links', j := RemoveAt(cur, p), NextAt(links, i, l);
    forall k | i - 1 <= k < j - 1 ensures |links'[k]| <= l {
      assert |links[k + 1]| <= l;
    }
    NextAtIs(links', i - 1, l, j - 1);
  }

  /** Where position `a` is once position `p` is gone; `b` follows on `p`. */
  function Closed(p: nat, a: nat, b: nat): nat
    requires b > p
  {
    if a < p then a else if a == p then b - 1 else a - 1
  }

  lemma NextAtShort(links: Links, cur: Links, p: nat, i: nat, l: nat)
    requires SameHeights(links, cur, 0) && i <= p < |links|
    ensures NextAt(RemoveAt(cur, p), i, l) == Closed(p, NextAt(links, i, l), NextAt(links, p + 1, l))
  {
    var links', j := RemoveAt(cur, p), NextAt(links, i, l);
    var j' := if j == p then NextAt(links, p + 1, l) else j;
    forall k | i <= k < p && k < j ensures |links'[k]| <= l {
      assert |links[k]| <= l;
    }
    if j < p {
      NextAtIs(links', i, l, j);
    } else {
      forall k | p <= k < j' - 1 ensures |links'[k]| <= l {
        assert |links[k + 1]| <= l;
      }
      NextAtIs(links', i, l, j' - 1);
    }
  }

  lemma TargetShort(spine: seq<VirtualNode>, links: Links, cur: Links, p: nat, l: nat, i: nat)
    requires |links| == |spine| && i < p < |spine| && SameHeights(links, cur, 0)
    ensures var j := NextAt(links, i + 1, l);
      Target(RemoveAt(spine, p), RemoveAt(cur, p), i, l) == Target(spine, links, if j == p then p else i, l)
  {
    NextAtShort(links, cur, p, i + 1, l);
    NodeRemoved(spine, p, NextAt(links, i + 1, l), NextAt(links, p + 1, l));
  }

  lemma NodeRemoved(spine: seq<VirtualNode>, p: nat, a: nat, b: nat)
    requires p < |spine| && b > p
    ensures NodeAt(RemoveAt(spine, p), Closed(p, a, b)) == NodeAt(spine, if a == p then b else a)
  {}

  lemma UnsplicedAhead(spine: seq<VirtualNode>, links: Links, cur: Links, p: nat, l: nat, i: nat)
    requires |links| == |spine| && i < p < |spine| && SameHeights(links, cur, 0)
    requires l < |links[i]| && links[i][l] == Target(spine, links, i, l)
    requires l < |links[p]| ==> links[p][l] == Target(spine, links, p, l)
    ensures Route(links, links[p], p, 0, i, l) == Target(RemoveAt(spine, p), RemoveAt(cur, p), i, l)
  {
    TargetShort(spine, links, cur, p, l, i);
    assert NextAt(links, i + 1, l) > p ==> |links[p]| <= l;
  }

  lemma UnsplicedBehind(spine: seq<VirtualNode>, links: Links, cur: Links, p: nat, l: nat, i: nat)
    requires |links| == |spine| && p < i < |spine| && SameHeights(links, cur, 0)
    requires l < |links[i]| && links[i][l] == Target(spine, links, i, l)
    ensures Route(links, links[p], p, 0, i, l) == Target(RemoveAt(spine, p), RemoveAt(cur, p), i - 1, l)
  {
    NextAtPast(links, cur, p, i + 1, l);
  }

  lemma UnsplicedAt(spine: seq<VirtualNode>, links: Links, cur: Links, p: nat, l: nat, i: nat)
    requires |links| == |spine| && p < |spine| && Rerouted(links, cur, links[p], p, 0) && Threaded(spine, links, l)
    requires i < |spine| - 1 && l < |RemoveAt(cur, p)[i]|
    ensures RemoveAt(cur, p)[i][l] == Target(RemoveAt(spine, p), RemoveAt(cur, p), i, l)
  {
    var k := if i < p then i else i + 1;
    assert cur[k][l] == Route(links, links[p], p, 0, k, l) && links[k][l] == Target(spine, links, k, l);
    if i < p {
      UnsplicedAhead(spine, links, cur, p, l, k);
    } else {
      UnsplicedBehind(spine, links, cur, p, l, k);
    }
  }

  lemma UnsplicedThreaded(spine: seq<VirtualNode>, links: Links, cur: Links, p: nat, l: nat)
    requires |links| == |spine| && p < |spine| && Rerouted(links, cur, links[p], p, 0) && Threaded(spine, links, l)
    ensures Threaded(RemoveAt(spine, p), RemoveAt(cur, p), l)
  {
    var links' := RemoveAt(cur, p);
    forall i | 0 <= i < |links'| && l < |links'[i]| ensures links'[i][l] == Target(RemoveAt(spine, p), links', i, l) {
      UnsplicedAt(spine, links, cur, p, l, i);
    }
  }

  lemma Unspliced(spine: seq<VirtualNode>, links: Links, cur: Links, p: nat)
    requires SkipList(spine, links) && 0 < p < |spine| && Rerouted(links, cur, links[p], p, 0)
    ensures Raised(RemoveAt(spine, p), RemoveAt(cur, p), |links[0]|)
  {
    forall l | 0 <= l < |links[0]| ensures Threaded(RemoveAt(spine, p), RemoveAt(cur, p), l) {
      UnsplicedThreaded(spine, links, cur, p, l);
    }
  }

  /** Cutting the root at its first empty level. */
  lemma Trimmed(spine: seq<VirtualNode>, links: Links, top: nat)
    requires |links| > 0 && Raised(spine, links, |links[0]|) && top <= |links[0]|
    requires (forall l | 0 <= l < top :: links[0][l] != null) && (top < |links[0]| ==> links[0][top] == null)
    ensures SkipList(spine, links[0 := links[0][..top]])
  {
    var links' := links[0 := links[0][..top]];
    if top < |links[0]| {
      assert Threaded(spine, links, top) && links[0][top] == Target(spine, links, 0, top);
    }
    forall l | 0 <= l < top ensures Threaded(spine, links', l) {
      assert Threaded(spine, links, l);
      forall i | 0 <= i < |spine| && l < |links'[i]| ensures links'[i][l] == Target(spine, links', i, l) {
        NextAtSame(links, links', i + 1, l);
        assert links[i][l] == Target(spine, links, i, l);
      }
    }
  }

  /** A pointer over `p` leads to node `p` exactly when that node is tall enough. */
  lemma LeadsTo(spine: seq<VirtualNode>, links: Links, p: nat, level: nat, score: int, j: nat)
    requires Ordered(spine) && |links| == |spine| && p < |spine| && p == Pos(spine, score) && spine[p].score == score
    requires Passes(links, j, level, p)
    ensures var next := Target(spine, links, j, level);
      if level < |links[p]| then next == spine[p] else next == null || next.score > score
  {}

  lemma RerouteSkip(links: Links, cur: Links, detour: seq<VirtualNode?>, p: nat, level: nat)
    requires Rerouted(links, cur, detour, p, level + 1) && |detour| <= level
    ensures Rerouted(links, cur, detour, p, level)
  {
    forall i, l | 0 <= i < |links| && 0 <= l < |links[i]| ensures cur[i][l] == Route(links, detour, p, level, i, l) {
      assert cur[i][l] == Route(links, detour, p, level + 1, i, l);
    }
  }

  method UnlinkLevel(move: VirtualNode, level: nat, score: int, ghost spine: seq<VirtualNode>, ghost links: Links,
                     ghost p: nat, ghost i: nat)
    returns (m: VirtualNode, ghost j: nat)
    requires Ordered(spine) && |links| == |spine| && p == Pos(spine, score) && p < |spine| && spine[p].score == score
    requires Threaded(spine, links, level) && Rerouted(links, LinksOf(spine), links[p], p, level + 1)
    requires i < p && move == spine[i] && level < |move.nexts|
    modifies spine`nexts
    ensures Rerouted(links, LinksOf(spine), links[p], p, level) && j < p && m == spine[j] && level < |m.nexts|
  {
    ghost var cur := LinksOf(spine);
    ReroutedThreaded(spine, links, cur, links[p], p, level);
    m, j := Advance(move, level, score, spine, i);
    ReroutedPointer(spine, links, cur, links[p], p, level, score, j);
    LeadsTo(spine, links, p, level, score, j);
    if m.nexts[level] == null || m.nexts[level].score > score {
      RerouteSkip(links, cur, links[p], p, level);
    } else {
      assert cur[p][level] == Route(links, links[p], p, level + 1, p, level);
      RerouteStep(links, cur, links[p], p, level, j);
      SetNext(m, level, m.nexts[level].nexts[level], spine, j);
    }
  }

  lemma NotReroutedYet(links: Links, detour: seq<VirtualNode?>, p: nat)
    requires |links| > 0 && |detour| <= |links[0]|
    ensures Rerouted(links, links, detour, p, |links[0]|)
  {}

  /** The first loop of `Rem`'s second half: take the node out on every level. */
  method Unlink(root: VirtualNode, score: int, ghost spine: seq<VirtualNode>)
    requires SkipList(spine, LinksOf(spine)) && spine[0] == root && At(spine, score) != null
    modifies spine`nexts
    ensures var spine' := RemoveAt(spine, Pos(spine, score)); Raised(spine', LinksOf(spine'), |root.nexts|)
  {
    ghost var links, p := LinksOf(spine), Pos(spine, score);
    var move, level := root, |root.nexts|;
    ghost var i: nat := 0;
    NotReroutedYet(links, links[p], p);
    while level > 0
      invariant 0 <= level <= |links[0]| && i < p && move == spine[i] && level <= |move.nexts|
      invariant Rerouted(links, LinksOf(spine), links[p], p, level)
    {
      level := level - 1;
      move, i := UnlinkLevel(move, level, score, spine, links, p, i);
    }
    Unspliced(spine, links, LinksOf(spine), p);
    assert LinksOf(RemoveAt(spine, p)) == RemoveAt(LinksOf(spine), p);
  }

  /** The last loop of `Rem`: drop the empty levels. */
  method Trim(root: VirtualNode, ghost spine: seq<VirtualNode>)
    requires spine != [] && spine[0] == root && Raised(spine, LinksOf(spine), |root.nexts|)
    modifies root`nexts
    ensures SkipList(spine, LinksOf(spine))
  {
    ghost var links := LinksOf(spine);
    var level := 0;
    while level < |root.nexts| && root.nexts[level] != null
      invariant level <= |root.nexts| && forall l | 0 <= l < level :: root.nexts[l] != null
    {
      level := level + 1;
    }
    Trimmed(spine, links, level);
    root.nexts := root.nexts[..level];
    assert LinksOf(spine) == links[0 := links[0][..level]];
  }

  /** The second half of `Rem`: the last virtual node of a score takes the score with it. */
  method DeleteNode(root: VirtualNode, score: int, ghost spine: seq<VirtualNode>, ghost ring: Ring)
    requires InList(spine, ring) && spine[0] == root && score in ring
    modifies spine`nexts
    ensures Pos(spine, score) < |spine| && InList(RemoveAt(spine, Pos(spine, score)), ring - {score})
  {
    HoldsAt(spine, ring, score);
    HoldsRemoved(spine, ring, Pos(spine, score));
    Unlink(root, score, spine);
    Trim(root, RemoveAt(spine, Pos(spine, score)));
  }

  lemma HoldsRemoved(spine: seq<VirtualNode>, ring: Ring, p: nat)
    requires Ordered(spine) && Holds(spine, ring) && 0 < p < |spine|
    ensures Holds(RemoveAt(spine, p), ring - {spine[p].score})
  {
    var spine', ring' := RemoveAt(spine, p), ring - {spine[p].score};
    forall s | s in ring' ensures exists i | 0 < i < |spine'| :: spine'[i].score == s {
      var i :| 0 < i < |spine| && spine[i].score == s;
      assert spine'[if i < p then i else i - 1].score == s;
    }
  }

  /** A skip list with the given contents. */
  ghost predicate InList(spine: seq<VirtualNode>, ring: Ring)
    reads spine
  {
    exists links :: links == LinksOf(spine) && SkipList(spine, links) && Holds(spine, ring)
  }

  class SkiplistHashRing {
    const root: VirtualNode
    var nodeToReplicas: map<string, nat>
    var nodeToDataKey: Data

    ghost var spine: seq<VirtualNode>
    ghost var ring: Ring

    ghost function Nodes(): set<VirtualNode>
      reads this
    {
      set n | n in spine
    }

    /** The list is a skip list, and `ring` is what it holds. */
    ghost predicate Valid()
      reads this, spine
    {
      InList(spine, ring) && spine[0] == root
    }

    constructor ()
      ensures Valid() && fresh(root) && spine == [root]
      ensures ring == map[] && nodeToReplicas == map[] && nodeToDataKey == map[]
    {
      var r := new VirtualNode(0, [], []);
      root, spine, ring := r, [r], map[];
      nodeToReplicas, nodeToDataKey := map[], map[];
      new;
      assert SkipList(spine, LinksOf(spine));
    }

    /** `Node`: an error if there is no such score. */
    method Node(score: int) returns (r: Result<seq<string>>)
      requires Valid()
      ensures r == if score in ring then Ok(ring[score]) else Err
    {
      HoldsAt(spine, ring, score);
      var node := Locate(root, score, spine);
      if node == null {
        return Err;
      }
      r := Ok(node.nodeIDs);
    }

    method Ceiling(score: int) returns (r: int)
      requires Valid()
      ensures IsCeiling(ring.Keys, score, r)
    {
      r := CeilingScan(root, score, spine);
      if |spine| == 1 {
        EmptyRing(spine, ring);
      } else {
        CeilingAt(spine, ring, score);
      }
    }

    method Floor(score: int) returns (r: int)
      requires Valid()
      ensures IsFloor(ring.Keys, score, r)
    {
      r := FloorScan(root, score, spine);
      if |spine| == 1 {
        EmptyRing(spine, ring);
      } else {
        FloorAt(spine, ring, score);
      }
    }

    /** `Add`, with the level that `roll` happened to give. */
    method Add(score: int, nodeID: string, rLevel: nat)
      requires Valid()
      modifies this`spine, this`ring, Nodes()`nexts, Nodes()`nodeIDs
      ensures Valid() && ring == AddTo(old(ring), score, nodeID)
      ensures fresh(Nodes() - old(Nodes()))
    {
      HoldsAt(spine, ring, score);
      var target := Locate(root, score, spine);
      if target != null {
        if nodeID !in target.nodeIDs {
          SetIDs(target, target.nodeIDs + [nodeID]);
        }
        return;
      }
      AddNew(score, nodeID, rLevel);
    }

    method AddNew(score: int, nodeID: string, rLevel: nat)
      requires Valid() && score !in ring
      modifies this`spine, this`ring, Nodes()`nexts
      ensures Valid() && ring == old(ring)[score := [nodeID]]
      ensures fresh(Nodes() - old(Nodes()))
    {
      var newNode := InsertNode(root, score, nodeID, rLevel, spine, ring);
      Adopt(InsertAt(spine, Pos(spine, score), newNode), ring[score := [nodeID]]);
    }

    ghost method Adopt(spine': seq<VirtualNode>, ring': Ring)
      requires InList(spine', ring') && spine'[0] == root
      modifies this`spine, this`ring
      ensures Valid() && spine == spine' && ring == ring'
    {
      var links := LinksOf(spine');
      spine, ring := spine', ring';
      assert LinksOf(spine) == links;
    }

    /** Replace the list of virtual nodes at a score. */
    method SetIDs(node: VirtualNode, nodeIDs: seq<string>)
      requires Valid() && node.score in ring && node == At(spine, node.score) && nodeIDs != []
      modifies this`ring, node`nodeIDs
      ensures Valid() && ring == old(ring)[node.score := nodeIDs]
    {
      ghost var links, p := LinksOf(spine), Pos(spine, node.score);
      node.nodeIDs := nodeIDs;
      ring := ring[node.score := nodeIDs];
      assert LinksOf(spine) == links;
      assert forall i | 0 < i < |spine| && i != p :: spine[i].score != node.score && spine[i] != node;
    }

    /** `Rem`: an error, and no change, if the virtual node is not there. */
    method Rem(score: int, nodeID: string) returns (ok: bool)
      requires Valid()
      modifies this`spine, this`ring, this`nodeToDataKey, Nodes()`nexts, Nodes()`nodeIDs
      ensures Valid() && (ok <==> score in old(ring) && nodeID in old(ring)[score])
      ensures ring == (if ok then RemoveFrom(old(ring), score, nodeID) else old(ring))
      ensures nodeToDataKey == (if ok then old(nodeToDataKey) - {nodeID} else old(nodeToDataKey))
      ensures Nodes() <= old(Nodes())
    {
      HoldsAt(spine, ring, score);
      var target := Locate(root, score, spine);
      if target == null {
        return false;
      }
      var index := IndexOf(target.nodeIDs, nodeID);
      if index == |target.nodeIDs| {
        return false;
      }
      ok := true;
      nodeToDataKey := nodeToDataKey - {nodeID};
      RemoveIndex(target, index);
    }

    /** Take one virtual node out, and the score with the last one. */
    method RemoveIndex(target: VirtualNode, index: nat)
      requires Valid() && target.score in ring && target == At(spine, target.score) && index < |target.nodeIDs|
      modifies this`spine, this`ring, Nodes()`nexts, Nodes()`nodeIDs
      ensures Valid() && Nodes() <= old(Nodes())
      ensures var ids := old(target.nodeIDs);
        ring == if |ids| > 1 then old(ring)[target.score := ids[..index] + ids[index + 1..]] else old(ring) - {target.score}
    {
      if |target.nodeIDs| > 1 {
        SetIDs(target, target.nodeIDs[..index] + target.nodeIDs[index + 1..]);
      } else {
        RemoveScore(target.score);
      }
    }

    method RemoveScore(score: int)
      requires Valid() && score in ring
      modifies this`spine, this`ring, Nodes()`nexts
      ensures Valid() && ring == old(ring) - {score}
      ensures Nodes() <= old(Nodes())
    {
      DeleteNode(root, score, spine, ring);
      RemoveAtFewer(spine, Pos(spine, score));
      Adopt(RemoveAt(spine, Pos(spine, score)), ring - {score});
    }

    method AddNodeToReplica(nodeID: string, replicas: nat)
      requires Valid()
      modifies this`nodeToReplicas
      ensures Valid() && nodeToReplicas == old(nodeToReplicas)[nodeID := replicas]
    {
      nodeToReplicas := nodeToReplicas[nodeID := replicas];
    }

    method DeleteNodeToReplica(nodeID: string)
      requires Valid()
      modifies this`nodeToReplicas
      ensures Valid() && nodeToReplicas == old(nodeToReplicas) - {nodeID}
    {
      nodeToReplicas := nodeToReplicas - {nodeID};
    }

    method DataKeys(nodeID: string) returns (keys: set<string>)
      ensures keys == KeysOf(nodeToDataKey, nodeID)
    {
      keys := if nodeID in nodeToDataKey then nodeToDataKey[nodeID] else {};
    }

    method AddNodeToDataKeys(nodeID: string, dataKeys: set<string>)
      requires Valid()
      modifies this`nodeToDataKey
      ensures Valid() && nodeToDataKey == AddKeys(old(nodeToDataKey), nodeID, dataKeys)
    {
      var oldKeys := if nodeID in nodeToDataKey then nodeToDataKey[nodeID] else {};
      nodeToDataKey := nodeToDataKey[nodeID := oldKeys + dataKeys];
    }

    method DeleteNodeToDataKeys(nodeID: string, dataKeys: set<string>)
      requires Valid()
      modifies this`nodeToDataKey
      ensures Valid() && nodeToDataKey == DeleteKeys(old(nodeToDataKey), nodeID, dataKeys)
    {
      if nodeID !in nodeToDataKey {
        return;
      }
      nodeToDataKey := nodeToDataKey[nodeID := nodeToDataKey[nodeID] - dataKeys];
      if nodeToDataKey[nodeID] == {} {
        nodeToDataKey := nodeToDataKey - {nodeID};
      }
    }
  }

  /** The effect of `Add` on the ring. */
  function AddTo(ring: Ring, score: int, nodeID: string): Ring {
    if score !in ring then ring[score := [nodeID]]
    else if nodeID in ring[score] then ring
    else ring[score := ring[score] + [nodeID]]
  }

  /** The first position of `id`, the length if there is none. */
  method IndexOf(ids: seq<string>, id: string) returns (index: nat)
    ensures index <= |ids| && (index == |ids| <==> id !in ids)
    ensures index < |ids| ==> ids[..index] + ids[index + 1..] == WithoutID(ids, id)
  {
    index := 0;
    while index < |ids| && ids[index] != id
      invariant index <= |ids| && id !in ids[..index]
    {
      index := index + 1;
    }
    if index < |ids| {
      WithoutIDAt(ids, id, index);
    }
  }

  /** `ids` with the first `id` left out. */
  function WithoutID(ids: seq<string>, id: string): seq<string> {
    if ids == [] then [] else if ids[0] == id then ids[1..] else [ids[0]] + WithoutID(ids[1..], id)
  }

  lemma {:induction false} WithoutIDAt(ids: seq<string>, id: string, index: nat)
    requires index < |ids| && ids[index] == id && id !in ids[..index]
    ensures WithoutID(ids, id) == ids[..index] + ids[index + 1..]
  {
    if index > 0 {
      assert ids[1..][..index - 1] == ids[..index][1..];
      assert ids[0] in ids[..index];
      WithoutIDAt(ids[1..], id, index - 1);
      assert ids[..index] + ids[index + 1..] == [ids[0]] + (ids[1..][..index - 1] + ids[1..][index..]);
    }
  }

  /** The effect of `Rem` on the ring. */
  function RemoveFrom(ring: Ring, score: int, nodeID: string): Ring
    requires score in ring
  {
    if |ring[score]| > 1 then ring[score := WithoutID(ring[score], nodeID)] else ring - {score}
  }

  lemma EmptyRing(spine: seq<VirtualNode>, ring: Ring)
    requires Holds(spine, ring) && |spine| == 1
    ensures ring.Keys == {}
  {
    assert forall s :: s !in ring.Keys;
  }

  lemma CeilingAt(spine: seq<VirtualNode>, ring: Ring, score: int)
    requires Ordered(spine) && Holds(spine, ring) && |spine| > 1
    ensures IsCeiling(ring.Keys, score, spine[CeilingIndex(spine, score)].score)
  {
    var c := CeilingIndex(spine, score);
    assert spine[c].score in ring.Keys;
    forall s | s in ring.Keys
      ensures if spine[c].score >= score then s >= spine[c].score || s < score else score > s >= spine[c].score
    {
      var i :| 0 < i < |spine| && spine[i].score == s;
    }
  }

  lemma FloorAt(spine: seq<VirtualNode>, ring: Ring, score: int)
    requires Ordered(spine) && Holds(spine, ring) && |spine| > 1
    ensures IsFloor(ring.Keys, score, spine[FloorIndex(spine, score)].score)
  {
    var f := FloorIndex(spine, score);
    assert spine[f].score in ring.Keys;
    forall s | s in ring.Keys
      ensures if spine[f].score <= score then s <= spine[f].score || s > score else score < s <= spine[f].score
    {
      var i :| 0 < i < |spine| && spine[i].score == s;
    }
  }

  /** `ring` maps each score of the list to its virtual nodes. */
  ghost predicate Holds(spine: seq<VirtualNode>, ring: Ring)
    reads spine`nodeIDs
  {
    && (forall i | 0 < i < |spine| ::
          spine[i].score in ring && ring[spine[i].score] == spine[i].nodeIDs && spine[i].nodeIDs != [])
    && (forall s | s in ring :: exists i | 0 < i < |spine| :: spine[i].score == s)
  }

  lemma HoldsInserted(spine: seq<VirtualNode>, ring: Ring, node: VirtualNode, p: nat)
    requires Holds(spine, ring) && 0 < p <= |spine| && node.score !in ring && node.nodeIDs != []
    ensures Holds(InsertAt(spine, p, node), ring[node.score := node.nodeIDs])
  {
    var spine', ring' := InsertAt(spine, p, node), ring[node.score := node.nodeIDs];
    forall s | s in ring' ensures exists i | 0 < i < |spine'| :: spine'[i].score == s {
      if s == node.score {
        assert spine'[p].score == s;
      } else {
        var i :| 0 < i < |spine| && spine[i].score == s;
        assert spine'[if i < p then i else i + 1].score == s;
      }
    }
  }

  lemma HoldsAt(spine: seq<VirtualNode>, ring: Ring, score: int)
    requires Ordered(spine) && Holds(spine, ring)
    ensures score in ring <==> Pos(spine, score) < |spine| && spine[Pos(spine, score)].score == score
  {
    if score in ring {
      var i :| 0 < i < |spine| && spine[i].score == score;
      assert i == Pos(spine, score);
    }
  }
}
