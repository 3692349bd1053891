/** The doubly linked flush list of trie/database.go: dirty nodes from the oldest to the newest. */
module FlushList {
  import opened Bytes

  /** Node hashes; zero is the meta root, and "none" in the links. */
  type Hash = nat

  datatype CachedNode = CachedNode(size: nat, parents: nat, flushPrev: Hash, flushNext: Hash)

  /** The dirty nodes, without the meta root. */
  type Dirties = map<Hash, CachedNode>

  ghost predicate NextOk(d: Dirties, list: seq<Hash>, i: nat) {
    i < |list| && list[i] in d && d[list[i]].flushNext == if i + 1 < |list| then list[i + 1] else 0
  }

  ghost predicate PrevOk(d: Dirties, list: seq<Hash>, i: nat) {
    i < |list| && list[i] in d && (i > 0 ==> d[list[i]].flushPrev == list[i - 1])
  }

  /**
   The list from `oldest` is `list`, with the right back-links except at the head.  `newest` is only
   right while there is something in the list.
   */
  ghost predicate Threaded(d: Dirties, list: seq<Hash>, oldest: Hash, newest: Hash) {
    && Distinct(list) && 0 !in list
    && (if list == [] then oldest == 0 else oldest == list[0] && newest == list[|list| - 1])
    && (forall i | 0 <= i < |list| :: NextOk(d, list, i))
    && (forall i | 0 <= i < |list| :: PrevOk(d, list, i))
  }

  /** A link of the meta root may be set as well, but it is never read. */
  function SetPrev(d: Dirties, h: Hash, prev: Hash): Dirties {
    if h in d then d[h := d[h].(flushPrev := prev)] else d
  }

  function SetNext(d: Dirties, h: Hash, next: Hash): Dirties {
    if h in d then d[h := d[h].(flushNext := next)] else d
  }

  datatype Ends = Ends(dirties: Dirties, oldest: Hash, newest: Hash)

  /** The switch that takes a node out of the list. */
  function Unlink(d: Dirties, oldest: Hash, newest: Hash, h: Hash): Ends
    requires h in d
  {
    var node := d[h];
    if h == oldest then
      Ends(SetPrev(d, node.flushNext, 0), node.flushNext, newest)
    else if h == newest then
      Ends(SetNext(d, node.flushPrev, 0), oldest, node.flushPrev)
    else
      Ends(SetPrev(SetNext(d, node.flushPrev, node.flushNext), node.flushNext, node.flushPrev), oldest, newest)
  }

  function Without(list: seq<Hash>, p: nat): (r: seq<Hash>)
    requires p < |list|
    ensures |r| == |list| - 1
    ensures (forall i | 0 <= i < p :: r[i] == list[i]) && (forall i | p <= i < |r| :: r[i] == list[i + 1])
  {
    list[..p] + list[p + 1..]
  }

  lemma WithoutMembers(list: seq<Hash>, p: nat)
    requires Distinct(list) && p < |list|
    ensures Distinct(Without(list, p)) && forall h :: h in Without(list, p) <==> h in list && h != list[p]
  {
    var r := Without(list, p);
    forall h ensures h in r <==> h in list && h != list[p] {
      if h in list && h != list[p] {
        var i :| 0 <= i < |list| && list[i] == h;
        assert r[if i < p then i else i - 1] == h;
      }
    }
  }

  /** Only links change. */
  ghost predicate SameCounts(d: Dirties, d': Dirties) {
    d'.Keys == d.Keys && forall h | h in d :: d'[h].size == d[h].size && d'[h].parents == d[h].parents
  }

  lemma UnlinkCounts(d: Dirties, oldest: Hash, newest: Hash, h: Hash)
    requires h in d
    ensures SameCounts(d, Unlink(d, oldest, newest, h).dirties)
  {}

  /** Taking the node at position `p` out leaves the rest of the list. */
  lemma UnlinkThreaded(d: Dirties, list: seq<Hash>, oldest: Hash, newest: Hash, p: nat)
    requires Threaded(d, list, oldest, newest) && p < |list| && list[p] in d
    ensures var e := Unlink(d, oldest, newest, list[p]); Threaded(e.dirties, Without(list, p), e.oldest, e.newest)
  {
    var e, r := Unlink(d, oldest, newest, list[p]), Without(list, p);
    WithoutMembers(list, p);
    assert NextOk(d, list, p) && PrevOk(d, list, p) && NextOk(d, list, 0);
    UnlinkCounts(d, oldest, newest, list[p]);
    forall i | 0 <= i < |r| ensures NextOk(e.dirties, r, i) && PrevOk(e.dirties, r, i) {
      UnlinkAt(d, list, oldest, newest, p, i);
    }
    UnlinkEnds(d, list, oldest, newest, p);
  }

  lemma UnlinkAt(d: Dirties, list: seq<Hash>, oldest: Hash, newest: Hash, p: nat, i: nat)
    requires Threaded(d, list, oldest, newest) && p < |list| && list[p] in d && i < |list| - 1
    ensures var e := Unlink(d, oldest, newest, list[p]);
      NextOk(e.dirties, Without(list, p), i) && PrevOk(e.dirties, Without(list, p), i)
  {
    var k := if i < p then i else i + 1;
    assert NextOk(d, list, p) && PrevOk(d, list, p) && NextOk(d, list, k) && PrevOk(d, list, k);
    if p > 0 {
      assert NextOk(d, list, p - 1) && list[p - 1] in d;
    }
    if p + 1 < |list| {
      assert PrevOk(d, list, p + 1) && list[p + 1] in d;
    }
  }

  lemma UnlinkEnds(d: Dirties, list: seq<Hash>, oldest: Hash, newest: Hash, p: nat)
    requires Threaded(d, list, oldest, newest) && p < |list| && list[p] in d
    ensures var e, r := Unlink(d, oldest, newest, list[p]), Without(list, p);
      if r == [] then e.oldest == 0 else e.oldest == r[0] && e.newest == r[|r| - 1]
  {
    assert NextOk(d, list, p) && PrevOk(d, list, p);
  }

  /** The tail of `insert`: the new node becomes the newest. */
  function Link(d: Dirties, oldest: Hash, newest: Hash, h: Hash, size: nat): Ends {
    var d' := d[h := CachedNode(size, 0, newest, 0)];
    if oldest == 0 then Ends(d', h, h) else Ends(SetNext(d', newest, h), oldest, h)
  }

  lemma LinkThreaded(d: Dirties, list: seq<Hash>, oldest: Hash, newest: Hash, h: Hash, size: nat)
    requires Threaded(d, list, oldest, newest) && h !in d && h != 0
    ensures var e := Link(d, oldest, newest, h, size);
      && Threaded(e.dirties, list + [h], e.oldest, e.newest) && e.dirties.Keys == d.Keys + {h}
      && e.dirties[h].size == size && e.dirties[h].parents == 0
      && forall n | n in d :: e.dirties[n].size == d[n].size && e.dirties[n].parents == d[n].parents
  {
    var e, r := Link(d, oldest, newest, h, size), list + [h];
    forall i | 0 <= i < |list| ensures list[i] in d && list[i] != h {
      assert NextOk(d, list, i);
    }
    forall i | 0 <= i < |r| ensures NextOk(e.dirties, r, i) && PrevOk(e.dirties, r, i) {
      if i < |list| {
        assert NextOk(d, list, i) && PrevOk(d, list, i);
      }
    }
  }

  /** The sizes of the nodes of the list, with 32 bytes for each hash. */
  ghost function SumSize(d: Dirties, list: seq<Hash>): nat
    requires forall h | h in list :: h in d
  {
    if list == [] then 0 else SumSize(d, list[..|list| - 1]) + 32 + d[list[|list| - 1]].size
  }

  lemma {:induction false} SumSame(d: Dirties, d': Dirties, list: seq<Hash>)
    requires forall h | h in list :: h in d && h in d' && d'[h].size == d[h].size
    ensures SumSize(d', list) == SumSize(d, list)
  {
    if list != [] {
      SumSame(d, d', list[..|list| - 1]);
    }
  }

  lemma {:induction false} SumWithout(d: Dirties, list: seq<Hash>, p: nat)
    requires p < |list| && forall h | h in list :: h in d
    ensures SumSize(d, list) == SumSize(d, Without(list, p)) + 32 + d[list[p]].size
  {
    var last, r := |list| - 1, Without(list, p);
    if p == last {
      assert r == list[..last];
    } else {
      SumWithout(d, list[..last], p);
      assert r[..|r| - 1] == Without(list[..last], p) && r[|r| - 1] == list[last];
    }
  }

  /** Deleting the head: the next node becomes the head, whatever its back-link says. */
  lemma HeadThreaded(d: Dirties, list: seq<Hash>, oldest: Hash, newest: Hash)
    requires Threaded(d, list, oldest, newest) && list != []
    ensures oldest in d && Threaded(d - {oldest}, Without(list, 0), d[oldest].flushNext, newest)
  {
    var d', r := d - {oldest}, Without(list, 0);
    WithoutMembers(list, 0);
    assert NextOk(d, list, 0);
    forall i | 0 <= i < |r| ensures NextOk(d', r, i) && PrevOk(d', r, i) {
      assert NextOk(d, list, i + 1) && PrevOk(d, list, i + 1);
    }
  }

  lemma DeleteThreaded(d: Dirties, list: seq<Hash>, oldest: Hash, newest: Hash, h: Hash)
    requires Threaded(d, list, oldest, newest) && h !in list
    ensures Threaded(d - {h}, list, oldest, newest)
  {
    forall i | 0 <= i < |list| ensures NextOk(d - {h}, list, i) && PrevOk(d - {h}, list, i) {
      assert NextOk(d, list, i) && PrevOk(d, list, i);
    }
  }
}
