/**
 The write cache of trie/database.go: dirty nodes with reference counts, threaded on the flush list, with
 garbage collection, partial flush and two-phase commit.  Nodes are named by their hashes, and a hash
 determines the hashes of its children.
 */
module TrieCache {
  import opened Bytes
  import opened FlushList

  /** The children of each node, and why they form no cycle. */
  ghost predicate Acyclic(kids: Hash -> seq<Hash>, rank: Hash -> nat) {
    forall h, k {:trigger k in kids(h)} | k in kids(h) :: k != 0 && rank(k) < rank(h)
  }

  // ---------- Counting references ----------

  function Occurs(s: seq<Hash>, h: Hash): nat {
    multiset(s)[h]
  }

  /** The references to `h` from the nodes of `list`. */
  ghost function Refs(kids: Hash -> seq<Hash>, list: seq<Hash>, h: Hash): nat {
    if list == [] then 0 else Refs(kids, list[..|list| - 1], h) + Occurs(kids(list[|list| - 1]), h)
  }

  lemma {:induction false} RefsWithout(kids: Hash -> seq<Hash>, list: seq<Hash>, p: nat, h: Hash)
    requires p < |list|
    ensures Refs(kids, list, h) == Refs(kids, Without(list, p), h) + Occurs(kids(list[p]), h)
  {
    var last, r := |list| - 1, Without(list, p);
    if p == last {
      assert r == list[..last];
    } else {
      RefsWithout(kids, list[..last], p, h);
      assert r[..|r| - 1] == Without(list[..last], p) && r[|r| - 1] == list[last];
    }
  }

  /** A node that refers to `h` is counted. */
  lemma RefsFrom(kids: Hash -> seq<Hash>, list: seq<Hash>, p: nat, h: Hash)
    requires p < |list| && h in kids(list[p])
    ensures Refs(kids, list, h) > 0
  {
    RefsWithout(kids, list, p, h);
  }

  lemma {:induction false} SomeReferrer(kids: Hash -> seq<Hash>, list: seq<Hash>, h: Hash)
    requires Refs(kids, list, h) > 0
    ensures exists m :: m in list && h in kids(m)
  {
    if h in kids(list[|list| - 1]) {
      assert list[|list| - 1] in list;
    } else {
      SomeReferrer(kids, list[..|list| - 1], h);
      var m :| m in list[..|list| - 1] && h in kids(m);
      assert m in list;
    }
  }

  function MetaCount(meta: map<Hash, nat>, h: Hash): nat {
    if h in meta then meta[h] else 0
  }

  // ---------- What every step keeps ----------

  /** The children of a listed node come before it, or are on disk. */
  ghost predicate ChildrenFirst(kids: Hash -> seq<Hash>, list: seq<Hash>, disk: set<Hash>) {
    forall i, k | 0 <= i < |list| && k in kids(list[i]) && k !in disk :: k in list[..i]
  }

  ghost predicate DiskClosed(kids: Hash -> seq<Hash>, disk: set<Hash>) {
    forall h, k | h in disk && k in kids(h) :: k in disk
  }

  ghost predicate RootsThere(meta: map<Hash, nat>, list: seq<Hash>, disk: set<Hash>) {
    forall r | r in meta :: r != 0 && meta[r] > 0 && (r in list || r in disk)
  }

  /** Nodes that are not on disk know how often they are referred to, `pend` included. */
  ghost predicate Counted(kids: Hash -> seq<Hash>, d: Dirties, list: seq<Hash>, meta: map<Hash, nat>,
                          disk: set<Hash>, pend: multiset<Hash>) {
    forall h | h in list && h !in disk :: h in d && d[h].parents == Total(kids, list, meta, pend, h)
  }

  ghost function Total(kids: Hash -> seq<Hash>, list: seq<Hash>, meta: map<Hash, nat>, pend: multiset<Hash>, h: Hash): nat {
    Refs(kids, list, h) + MetaCount(meta, h) + pend[h]
  }

  ghost predicate PendThere(pend: multiset<Hash>, list: seq<Hash>, disk: set<Hash>) {
    forall h | h in pend :: h != 0 && (h in list || h in disk)
  }

  /** The part of the database that collection changes. */
  datatype State = State(dirties: Dirties, oldest: Hash, newest: Hash, size: int)

  /**
   The invariant in the middle of a collection: nodes in `dying` are off the list but not deleted yet,
   references in `pend` are gone but still counted, and `extra` is the size of the dying nodes.
   */
  ghost predicate InFlight(kids: Hash -> seq<Hash>, meta: map<Hash, nat>, disk: set<Hash>, st: State, list: seq<Hash>,
                           dying: set<Hash>, pend: multiset<Hash>, extra: int) {
    && Threaded(st.dirties, list, st.oldest, st.newest)
    && (forall h :: h in st.dirties <==> h in list || h in dying) && (forall h | h in dying :: h !in list)
    && ChildrenFirst(kids, list, disk) && DiskClosed(kids, disk) && RootsThere(meta, list, disk)
    && Counted(kids, st.dirties, list, meta, disk, pend) && PendThere(pend, list, disk)
    && st.size == SumSize(st.dirties, list) + extra
  }

  function Decrement(d: Dirties, h: Hash): Dirties
    requires h in d
  {
    if d[h].parents > 0 then d[h := d[h].(parents := d[h].parents - 1)] else d
  }

  lemma SameLinks(d: Dirties, d': Dirties, list: seq<Hash>, oldest: Hash, newest: Hash)
    requires Threaded(d, list, oldest, newest)
    requires forall h | h in d :: h in d' && d'[h].flushPrev == d[h].flushPrev && d'[h].flushNext == d[h].flushNext
    ensures Threaded(d', list, oldest, newest)
  {
    forall i | 0 <= i < |list| ensures NextOk(d', list, i) && PrevOk(d', list, i) {
      assert NextOk(d, list, i) && PrevOk(d, list, i);
    }
  }

  /** A pending reference is taken off the count. */
  lemma DecrementKeeps(kids: Hash -> seq<Hash>, meta: map<Hash, nat>, disk: set<Hash>, st: State, list: seq<Hash>,
                       dying: set<Hash>, pend: multiset<Hash>, extra: int, c: Hash)
    requires InFlight(kids, meta, disk, st, list, dying, pend, extra) && c in list && c in pend
    ensures c in st.dirties
    ensures InFlight(kids, meta, disk, st.(dirties := Decrement(st.dirties, c)), list, dying, pend - multiset{c}, extra)
  {
    var d' := Decrement(st.dirties, c);
    SameLinks(st.dirties, d', list, st.oldest, st.newest);
    SumSame(st.dirties, d', list);
  }

  /** A pending reference to a node that is not dirty. */
  lemma MissingKeeps(kids: Hash -> seq<Hash>, meta: map<Hash, nat>, disk: set<Hash>, st: State, list: seq<Hash>,
                     dying: set<Hash>, pend: multiset<Hash>, extra: int, c: Hash)
    requires InFlight(kids, meta, disk, st, list, dying, pend, extra) && c !in list && c in pend
    ensures InFlight(kids, meta, disk, st, list, dying, pend - multiset{c}, extra)
  {}

  lemma StillBefore(list: seq<Hash>, p: nat, i: nat, k: Hash)
    requires p < |list| && i < |list| - 1 && k != list[p] && k in list[..if i < p then i else i + 1]
    ensures k in Without(list, p)[..i]
  {
    var r, j := Without(list, p), if i < p then i else i + 1;
    var q :| 0 <= q < j && list[..j][q] == k;
    assert r[..i][if q < p then q else q - 1] == k;
  }

  lemma DropChildrenFirst(kids: Hash -> seq<Hash>, list: seq<Hash>, disk: set<Hash>, p: nat)
    requires ChildrenFirst(kids, list, disk) && p < |list|
    requires list[p] !in disk ==> Refs(kids, list, list[p]) == 0
    ensures ChildrenFirst(kids, Without(list, p), disk)
  {
    var r := Without(list, p);
    forall i, k | 0 <= i < |r| && k in kids(r[i]) && k !in disk ensures k in r[..i] {
      var j := if i < p then i else i + 1;
      assert k in list[..j];
      RefsFrom(kids, list, j, k);
      StillBefore(list, p, i, k);
    }
  }

  lemma DropCounted(kids: Hash -> seq<Hash>, d: Dirties, d': Dirties, list: seq<Hash>, meta: map<Hash, nat>,
                    disk: set<Hash>, pend: multiset<Hash>, p: nat)
    requires Counted(kids, d, list, meta, disk, pend) && p < |list| && Distinct(list) && SameCounts(d, d')
    ensures Counted(kids, d', Without(list, p), meta, disk, pend + multiset(kids(list[p])))
  {
    var r := Without(list, p);
    WithoutMembers(list, p);
    forall h | h in r && h !in disk ensures h in d' && d'[h].parents == Total(kids, r, meta, pend + multiset(kids(list[p])), h) {
      RefsWithout(kids, list, p, h);
    }
  }

  lemma DropPend(kids: Hash -> seq<Hash>, rank: Hash -> nat, list: seq<Hash>, disk: set<Hash>, pend: multiset<Hash>, p: nat)
    requires Acyclic(kids, rank) && PendThere(pend, list, disk) && ChildrenFirst(kids, list, disk) && p < |list| && Distinct(list)
    requires list[p] !in disk ==> list[p] !in pend
    ensures PendThere(pend + multiset(kids(list[p])), Without(list, p), disk)
  {
    WithoutMembers(list, p);
    forall h | h in pend + multiset(kids(list[p])) ensures h != 0 && (h in Without(list, p) || h in disk) {
      if h in kids(list[p]) {
        assert rank(h) < rank(list[p]);
        assert h !in disk ==> h in list[..p];
      } else {
        assert h in pend;
      }
    }
  }

  /** A node without references leaves the list, and its own references become pending. */
  lemma DropKeeps(kids: Hash -> seq<Hash>, rank: Hash -> nat, meta: map<Hash, nat>, disk: set<Hash>, st: State, list: seq<Hash>,
                  dying: set<Hash>, pend: multiset<Hash>, extra: int, p: nat)
    requires Acyclic(kids, rank) && InFlight(kids, meta, disk, st, list, dying, pend, extra)
    requires p < |list| && list[p] in st.dirties && st.dirties[list[p]].parents == 0
    ensures var c, e := list[p], Unlink(st.dirties, st.oldest, st.newest, list[p]);
      InFlight(kids, meta, disk, State(e.dirties, e.oldest, e.newest, st.size), Without(list, p),
               dying + {c}, pend + multiset(kids(c)), extra + 32 + st.dirties[c].size)
  {
    var c, e, r := list[p], Unlink(st.dirties, st.oldest, st.newest, list[p]), Without(list, p);
    WithoutMembers(list, p);
    UnlinkThreaded(st.dirties, list, st.oldest, st.newest, p);
    UnlinkCounts(st.dirties, st.oldest, st.newest, c);
    DropChildrenFirst(kids, list, disk, p);
    DropCounted(kids, st.dirties, e.dirties, list, meta, disk, pend, p);
    DropPend(kids, rank, list, disk, pend, p);
    SumWithout(st.dirties, list, p);
    SumSame(st.dirties, e.dirties, r);
  }

  /** A dying node is deleted. */
  lemma ForgetKeeps(kids: Hash -> seq<Hash>, meta: map<Hash, nat>, disk: set<Hash>, st: State, list: seq<Hash>,
                    dying: set<Hash>, pend: multiset<Hash>, extra: int, c: Hash, size: int)
    requires InFlight(kids, meta, disk, st, list, dying + {c}, pend, extra + size) && c !in dying
    ensures InFlight(kids, meta, disk, st.(dirties := st.dirties - {c}, size := st.size - size), list, dying, pend, extra)
  {
    var d' := st.dirties - {c};
    forall i | 0 <= i < |list| ensures NextOk(d', list, i) && PrevOk(d', list, i) {
      assert NextOk(st.dirties, list, i) && PrevOk(st.dirties, list, i);
    }
    SumSame(st.dirties, d', list);
  }

  /**
   Nodes have left the list.  Whatever is left without references was so before, and whatever had none
   is still there.
   */
  ghost predicate Shrunk(kids: Hash -> seq<Hash>, meta: map<Hash, nat>, disk: set<Hash>,
                         list: seq<Hash>, pend: multiset<Hash>, list': seq<Hash>, pend': multiset<Hash>) {
    && (forall h | h in list' ::
          && h in list && Total(kids, list', meta, pend', h) <= Total(kids, list, meta, pend, h)
          && (h !in disk && Total(kids, list', meta, pend', h) == 0 ==> Total(kids, list, meta, pend, h) == 0))
    && (forall h | h in list && Total(kids, list, meta, pend, h) == 0 :: h in list')
  }

  lemma ShrunkTrans(kids: Hash -> seq<Hash>, meta: map<Hash, nat>, disk: set<Hash>,
                    a: seq<Hash>, p: multiset<Hash>, b: seq<Hash>, q: multiset<Hash>, c: seq<Hash>, r: multiset<Hash>)
    requires Shrunk(kids, meta, disk, a, p, b, q) && Shrunk(kids, meta, disk, b, q, c, r)
    ensures Shrunk(kids, meta, disk, a, p, c, r)
  {}

  lemma DropShrinks(kids: Hash -> seq<Hash>, meta: map<Hash, nat>, disk: set<Hash>, list: seq<Hash>,
                    pend: multiset<Hash>, c: Hash, p: nat)
    requires Distinct(list) && p < |list| && list[p] == c && c in pend
    ensures Shrunk(kids, meta, disk, list, pend, Without(list, p), pend - multiset{c} + multiset(kids(c)))
  {
    WithoutMembers(list, p);
    forall h | h in Without(list, p)
      ensures Total(kids, Without(list, p), meta, pend - multiset{c} + multiset(kids(c)), h) == Total(kids, list, meta, pend, h)
    {
      RefsWithout(kids, list, p, h);
    }
  }

  lemma MissingShrinks(kids: Hash -> seq<Hash>, meta: map<Hash, nat>, disk: set<Hash>, list: seq<Hash>,
                       pend: multiset<Hash>, c: Hash)
    requires c !in list
    ensures Shrunk(kids, meta, disk, list, pend, list, pend - multiset{c})
  {}

  /** A node that keeps a reference is not left without. */
  lemma KeptShrinks(kids: Hash -> seq<Hash>, d: Dirties, meta: map<Hash, nat>, disk: set<Hash>, list: seq<Hash>,
                    pend: multiset<Hash>, c: Hash)
    requires Counted(kids, d, list, meta, disk, pend - multiset{c}) && c in d && d[c].parents > 0
    ensures Shrunk(kids, meta, disk, list, pend, list, pend - multiset{c})
  {}

  lemma RemoveStep(kids: Hash -> seq<Hash>, rank: Hash -> nat, meta: map<Hash, nat>, disk: set<Hash>, st: State, list: seq<Hash>,
                   dying: set<Hash>, pend: multiset<Hash>, extra: int, p: nat)
    requires Acyclic(kids, rank) && InFlight(kids, meta, disk, st, list, dying, pend, extra)
    requires p < |list| && list[p] in st.dirties && st.dirties[list[p]].parents == 0
    ensures var c, e := list[p], Unlink(st.dirties, st.oldest, st.newest, list[p]);
      InFlight(kids, meta, disk, State(e.dirties, e.oldest, e.newest, st.size), Without(list, p),
               dying + {c}, pend + multiset(kids(c)), extra + 32 + st.dirties[c].size)
    ensures Shrunk(kids, meta, disk, list, pend + multiset{list[p]}, Without(list, p), pend + multiset(kids(list[p])))
  {
    DropKeeps(kids, rank, meta, disk, st, list, dying, pend, extra, p);
    DropShrinks(kids, meta, disk, list, pend + multiset{list[p]}, list[p], p);
    assert pend + multiset{list[p]} - multiset{list[p]} == pend;
  }

  // ---------- Inserting and flushing ----------

  /** Every node knows of the new references `ks`. */
  ghost predicate Bumped(d: Dirties, d': Dirties, ks: seq<Hash>) {
    && d'.Keys == d.Keys
    && forall h | h in d :: d'[h] == d[h].(parents := d[h].parents + Occurs(ks, h))
  }

  lemma InsertCounted(kids: Hash -> seq<Hash>, rank: Hash -> nat, d: Dirties, d': Dirties, list: seq<Hash>,
                      meta: map<Hash, nat>, disk: set<Hash>, h: Hash)
    requires Acyclic(kids, rank) && Counted(kids, d, list, meta, disk, multiset{}) && h !in list && h !in d
    requires ChildrenFirst(kids, list, disk) && RootsThere(meta, list, disk)
    requires h in d' && d'[h].parents == 0 && forall n | n in d :: n in d' && d'[n].parents == d[n].parents + Occurs(kids(h), n)
    ensures Counted(kids, d', list + [h], meta, disk, multiset{})
  {
    var r := list + [h];
    assert r[..|r| - 1] == list;
    forall n | n in r && n !in disk ensures n in d' && d'[n].parents == Total(kids, r, meta, multiset{}, n) {
      if n == h {
        assert h !in kids(h);
        NotReferred(kids, list, disk, h);
      } else {
        assert n in list;
      }
    }
  }

  lemma {:induction false} NoReferrer(kids: Hash -> seq<Hash>, list: seq<Hash>, h: Hash)
    requires forall m | m in list :: h !in kids(m)
    ensures Refs(kids, list, h) == 0
  {
    if list != [] {
      NoReferrer(kids, list[..|list| - 1], h);
    }
  }

  lemma NotReferred(kids: Hash -> seq<Hash>, list: seq<Hash>, disk: set<Hash>, h: Hash)
    requires ChildrenFirst(kids, list, disk) && h !in list && h !in disk
    ensures Refs(kids, list, h) == 0
  {
    forall m | m in list ensures h !in kids(m) {
      if h in kids(m) {
        KidThere(kids, list, disk, m, h);
      }
    }
    NoReferrer(kids, list, h);
  }

  lemma KidThere(kids: Hash -> seq<Hash>, list: seq<Hash>, disk: set<Hash>, m: Hash, k: Hash)
    requires ChildrenFirst(kids, list, disk) && m in list && k in kids(m)
    ensures k in list || k in disk
  {
    var i :| 0 <= i < |list| && list[i] == m;
    assert k !in disk ==> k in list[..i];
  }

  lemma InsertChildrenFirst(kids: Hash -> seq<Hash>, list: seq<Hash>, disk: set<Hash>, h: Hash)
    requires ChildrenFirst(kids, list, disk) && forall k | k in kids(h) :: k in list || k in disk
    ensures ChildrenFirst(kids, list + [h], disk)
  {
    var r := list + [h];
    forall i, k | 0 <= i < |r| && k in kids(r[i]) && k !in disk ensures k in r[..i] {
      assert r[..i] == list[..i];
    }
  }

  lemma InsertSize(d: Dirties, d': Dirties, list: seq<Hash>, h: Hash)
    requires (forall n | n in list :: n in d && n in d' && d'[n].size == d[n].size) && h in d'
    ensures SumSize(d', list + [h]) == SumSize(d, list) + 32 + d'[h].size
  {
    var r := list + [h];
    assert r[..|r| - 1] == list;
    SumSame(d, d', list);
  }

  /** A new node whose children are all there. */
  lemma InsertKeeps(kids: Hash -> seq<Hash>, rank: Hash -> nat, meta: map<Hash, nat>, disk: set<Hash>, st: State,
                    d: Dirties, list: seq<Hash>, h: Hash, size: nat)
    requires Acyclic(kids, rank) && InFlight(kids, meta, disk, st, list, {}, multiset{}, 0) && h != 0 && h !in st.dirties
    requires Bumped(st.dirties, d, kids(h)) && forall k | k in kids(h) :: k in list || k in disk
    ensures var e := Link(d, st.oldest, st.newest, h, size);
      InFlight(kids, meta, disk, State(e.dirties, e.oldest, e.newest, st.size + 32 + size), list + [h], {}, multiset{}, 0)
  {
    var e := Link(d, st.oldest, st.newest, h, size);
    SameLinks(st.dirties, d, list, st.oldest, st.newest);
    LinkThreaded(d, list, st.oldest, st.newest, h, size);
    Inserted(kids, rank, meta, disk, st, State(e.dirties, e.oldest, e.newest, st.size + 32 + size), list, h);
  }

  lemma Inserted(kids: Hash -> seq<Hash>, rank: Hash -> nat, meta: map<Hash, nat>, disk: set<Hash>, st: State,
                 st': State, list: seq<Hash>, h: Hash)
    requires Acyclic(kids, rank) && InFlight(kids, meta, disk, st, list, {}, multiset{}, 0) && h !in st.dirties
    requires (forall k | k in kids(h) :: k in list || k in disk)
    requires Threaded(st'.dirties, list + [h], st'.oldest, st'.newest) && st'.dirties.Keys == st.dirties.Keys + {h}
    requires st'.dirties[h].parents == 0 && st'.size == st.size + 32 + st'.dirties[h].size
    requires forall n | n in st.dirties ::
               st'.dirties[n].size == st.dirties[n].size && st'.dirties[n].parents == st.dirties[n].parents + Occurs(kids(h), n)
    ensures InFlight(kids, meta, disk, st', list + [h], {}, multiset{}, 0)
  {
    InsertCounted(kids, rank, st.dirties, st'.dirties, list, meta, disk, h);
    InsertChildrenFirst(kids, list, disk, h);
    InsertSize(st.dirties, st'.dirties, list, h);
  }

  /** More on disk asks for less. */
  lemma DiskGrows(kids: Hash -> seq<Hash>, meta: map<Hash, nat>, disk: set<Hash>, disk': set<Hash>, st: State, list: seq<Hash>)
    requires InFlight(kids, meta, disk, st, list, {}, multiset{}, 0) && disk <= disk' && DiskClosed(kids, disk')
    ensures InFlight(kids, meta, disk', st, list, {}, multiset{}, 0)
  {}

  /** A node that is on disk may leave the cache. */
  lemma UncacheKeeps(kids: Hash -> seq<Hash>, meta: map<Hash, nat>, disk: set<Hash>, st: State, st': State,
                     list: seq<Hash>, p: nat)
    requires InFlight(kids, meta, disk, st, list, {}, multiset{}, 0) && p < |list| && list[p] in disk && list[p] in st.dirties
    requires Threaded(st'.dirties, Without(list, p), st'.oldest, st'.newest) && st'.dirties.Keys == st.dirties.Keys - {list[p]}
    requires forall h | h in st'.dirties :: st'.dirties[h].size == st.dirties[h].size && st'.dirties[h].parents == st.dirties[h].parents
    requires st'.size == st.size - (32 + st.dirties[list[p]].size)
    ensures InFlight(kids, meta, disk, st', Without(list, p), {}, multiset{}, 0)
  {
    var r := Without(list, p);
    WithoutMembers(list, p);
    DropChildrenFirst(kids, list, disk, p);
    forall h | h in r && h !in disk ensures st'.dirties[h].parents == Total(kids, r, meta, multiset{}, h) {
      RefsWithout(kids, list, p, h);
    }
    SumWithout(st.dirties, list, p);
    SumSame(st.dirties, st'.dirties, r);
  }

  /** A root gains or loses one reference from the meta root. */
  lemma MetaMoves(kids: Hash -> seq<Hash>, meta: map<Hash, nat>, meta': map<Hash, nat>, disk: set<Hash>, st: State,
                  d: Dirties, list: seq<Hash>,
                  pend: multiset<Hash>, r: Hash)
    requires InFlight(kids, meta, disk, st, list, {}, multiset{}, 0) && (r in list || r in disk) && r != 0
    requires SameKeysAndLinks(st.dirties, d) && (forall h | h in d && h != r :: d[h].parents == st.dirties[h].parents)
    requires (forall h | h != r :: MetaCount(meta', h) == MetaCount(meta, h)) && meta'.Keys <= meta.Keys + {r}
    requires (forall h | h in meta' :: meta'[h] > 0) && (pend == multiset{} || pend == multiset{r})
    requires r in d ==> d[r].parents + MetaCount(meta, r) == st.dirties[r].parents + MetaCount(meta', r) + pend[r]
    ensures InFlight(kids, meta', disk, st.(dirties := d), list, {}, pend, 0)
  {
    SameLinks(st.dirties, d, list, st.oldest, st.newest);
    SumSame(st.dirties, d, list);
  }

  ghost predicate SameKeysAndLinks(d: Dirties, d': Dirties) {
    && d'.Keys == d.Keys
    && forall h | h in d :: d'[h].size == d[h].size && d'[h].flushPrev == d[h].flushPrev && d'[h].flushNext == d[h].flushNext
  }

  // ---------- Collection as a function ----------

  /** The cache: the dirty nodes and their list, the references of the meta root, and what is on disk. */
  datatype Cache = Cache(st: State, list: seq<Hash>, meta: map<Hash, nat>, metaSize: int, disk: set<Hash>)

  ghost function IndexOf(list: seq<Hash>, h: Hash): (i: nat)
    requires h in list
    ensures i < |list| && list[i] == h
  {
    if list[0] == h then 0 else 1 + IndexOf(list[1..], h)
  }

  ghost function RemoveOne(list: seq<Hash>, h: Hash): seq<Hash> {
    if h in list then Without(list, IndexOf(list, h)) else list
  }

  /** `dereference` once the parent's side of the reference is gone. */
  ghost function Deref(kids: Hash -> seq<Hash>, rank: Hash -> nat, c: Cache, h: Hash): (c': Cache)
    requires Acyclic(kids, rank)
    ensures c'.meta == c.meta && c'.metaSize == c.metaSize && c'.disk == c.disk
    decreases rank(h), 2, 0
  {
    if h !in c.st.dirties then
      c
    else
      var d := Decrement(c.st.dirties, h);
      var c1 := c.(st := c.st.(dirties := d));
      if d[h].parents > 0 then c1 else Drop(kids, rank, c1, h)
  }

  /** A node leaves the list, its children lose a reference each, and it is deleted. */
  ghost function Drop(kids: Hash -> seq<Hash>, rank: Hash -> nat, c: Cache, h: Hash): (c': Cache)
    requires Acyclic(kids, rank) && h in c.st.dirties
    ensures c'.meta == c.meta && c'.metaSize == c.metaSize && c'.disk == c.disk
    decreases rank(h), 1, 0
  {
    var c2 := DerefAll(kids, rank, OffList(c, h), kids(h), rank(h));
    c2.(st := c2.st.(dirties := c2.st.dirties - {h}, size := c2.st.size - (32 + c.st.dirties[h].size)))
  }

  ghost function OffList(c: Cache, h: Hash): Cache
    requires h in c.st.dirties
  {
    var e := Unlink(c.st.dirties, c.st.oldest, c.st.newest, h);
    c.(st := State(e.dirties, e.oldest, e.newest, c.st.size), list := RemoveOne(c.list, h))
  }

  ghost function DerefAll(kids: Hash -> seq<Hash>, rank: Hash -> nat, c: Cache, ks: seq<Hash>, bound: nat): (c': Cache)
    requires Acyclic(kids, rank) && forall k | k in ks :: rank(k) < bound
    ensures c'.meta == c.meta && c'.metaSize == c.metaSize && c'.disk == c.disk
    decreases bound, 0, |ks|
  {
    if ks == [] then c else Deref(kids, rank, DerefAll(kids, rank, c, ks[..|ks| - 1], bound), ks[|ks| - 1])
  }

  ghost predicate Flying(kids: Hash -> seq<Hash>, c: Cache, dying: set<Hash>, pend: multiset<Hash>, extra: int) {
    InFlight(kids, c.meta, c.disk, c.st, c.list, dying, pend, extra)
  }

  ghost predicate Shrinks(kids: Hash -> seq<Hash>, c: Cache, pend: multiset<Hash>, c': Cache, pend': multiset<Hash>) {
    c'.meta == c.meta && c'.disk == c.disk && Shrunk(kids, c.meta, c.disk, c.list, pend, c'.list, pend')
  }

  /** One pending reference less. */
  lemma {:induction false} DerefKeeps(kids: Hash -> seq<Hash>, rank: Hash -> nat, c: Cache, dying: set<Hash>,
                                      pend: multiset<Hash>, extra: int, h: Hash)
    requires Acyclic(kids, rank) && Flying(kids, c, dying, pend, extra) && h in pend && forall y | y in dying :: rank(y) > rank(h)
    ensures var c' := Deref(kids, rank, c, h);
      Flying(kids, c', dying, pend - multiset{h}, extra) && Shrinks(kids, c, pend, c', pend - multiset{h})
    decreases rank(h), 2, 0
  {
    if h !in c.st.dirties {
      MissingKeeps(kids, c.meta, c.disk, c.st, c.list, dying, pend, extra, h);
      MissingShrinks(kids, c.meta, c.disk, c.list, pend, h);
    } else {
      DecrementKeeps(kids, c.meta, c.disk, c.st, c.list, dying, pend, extra, h);
      var c1 := c.(st := c.st.(dirties := Decrement(c.st.dirties, h)));
      if c1.st.dirties[h].parents > 0 {
        KeptShrinks(kids, c1.st.dirties, c.meta, c.disk, c.list, pend, h);
      } else {
        DropAllKeeps(kids, rank, c1, dying, pend - multiset{h}, extra, h);
        assert pend - multiset{h} + multiset{h} == pend;
      }
    }
  }

  lemma {:induction false} DropAllKeeps(kids: Hash -> seq<Hash>, rank: Hash -> nat, c: Cache, dying: set<Hash>,
                                        pend: multiset<Hash>, extra: int, h: Hash)
    requires Acyclic(kids, rank) && Flying(kids, c, dying, pend, extra) && h in c.list && h in c.st.dirties && c.st.dirties[h].parents == 0
    requires forall y | y in dying :: rank(y) > rank(h)
    ensures var c' := Drop(kids, rank, c, h);
      Flying(kids, c', dying, pend, extra) && Shrinks(kids, c, pend + multiset{h}, c', pend)
    decreases rank(h), 1, 0
  {
    var size := 32 + c.st.dirties[h].size;
    RemoveStep(kids, rank, c.meta, c.disk, c.st, c.list, dying, pend, extra, IndexOf(c.list, h));
    var c1 := OffList(c, h);
    DerefAllKeeps(kids, rank, c1, dying + {h}, pend, extra + size, kids(h), rank(h));
    var c2 := DerefAll(kids, rank, c1, kids(h), rank(h));
    ShrunkTrans(kids, c.meta, c.disk, c.list, pend + multiset{h}, c1.list, pend + multiset(kids(h)), c2.list, pend);
    ForgetKeeps(kids, c.meta, c.disk, c2.st, c2.list, dying, pend, extra, h, size);
  }

  lemma {:induction false} DerefAllKeeps(kids: Hash -> seq<Hash>, rank: Hash -> nat, c: Cache, dying: set<Hash>,
                                         pend: multiset<Hash>, extra: int, ks: seq<Hash>, bound: nat)
    requires Acyclic(kids, rank) && Flying(kids, c, dying, pend + multiset(ks), extra)
    requires (forall k | k in ks :: rank(k) < bound) && forall y | y in dying :: rank(y) >= bound
    ensures var c' := DerefAll(kids, rank, c, ks, bound);
      Flying(kids, c', dying, pend, extra) && Shrinks(kids, c, pend + multiset(ks), c', pend)
    decreases bound, 0, |ks|
  {
    if ks == [] {
      assert pend + multiset(ks) == pend;
    } else {
      var rest, k := ks[..|ks| - 1], ks[|ks| - 1];
      LastPending(pend, ks);
      DerefAllKeeps(kids, rank, c, dying, pend + multiset{k}, extra, rest, bound);
      var c1 := DerefAll(kids, rank, c, rest, bound);
      DerefKeeps(kids, rank, c1, dying, pend + multiset{k}, extra, k);
      ShrunkTrans(kids, c.meta, c.disk, c.list, pend + multiset(ks), c1.list, pend + multiset{k},
                  DerefAll(kids, rank, c, ks, bound).list, pend);
    }
  }

  lemma LastPending(pend: multiset<Hash>, ks: seq<Hash>)
    requires ks != []
    ensures var rest, k := ks[..|ks| - 1], ks[|ks| - 1];
      pend + multiset{k} + multiset(rest) == pend + multiset(ks) && pend + multiset{k} - multiset{k} == pend
  {
    assert ks == ks[..|ks| - 1] + [ks[|ks| - 1]];
  }

  // ---------- The operations ----------

  ghost predicate CacheOk(kids: Hash -> seq<Hash>, rank: Hash -> nat, c: Cache) {
    Acyclic(kids, rank) && Steady(kids, c) && c.metaSize == 34 * |c.meta|
  }

  /** Nothing is dying and nothing is pending. */
  ghost predicate Steady(kids: Hash -> seq<Hash>, c: Cache) {
    exists pend :: pend == multiset{} && Flying(kids, c, {}, pend, 0)
  }

  /** The callback of `insert`: the children that are dirty gain a parent. */
  function Bump(d: Dirties, ks: seq<Hash>): Dirties {
    if ks == [] then
      d
    else
      var d1, k := Bump(d, ks[..|ks| - 1]), ks[|ks| - 1];
      if k in d1 then d1[k := d1[k].(parents := d1[k].parents + 1)] else d1
  }

  lemma {:induction false} BumpIs(d: Dirties, ks: seq<Hash>)
    ensures Bumped(d, Bump(d, ks), ks)
  {
    if ks != [] {
      BumpIs(d, ks[..|ks| - 1]);
      assert ks == ks[..|ks| - 1] + [ks[|ks| - 1]];
    }
  }

  /** `insert`; the size is stored and added in 16 bits. */
  ghost function InsertTo(kids: Hash -> seq<Hash>, c: Cache, h: Hash, size: nat): Cache {
    if h in c.st.dirties then
      c
    else
      var short := size % 0x1_0000;
      var e := Link(Bump(c.st.dirties, kids(h)), c.st.oldest, c.st.newest, h, short);
      c.(st := State(e.dirties, e.oldest, e.newest, c.st.size + (32 + short) % 0x1_0000), list := c.list + [h])
  }

  /** The largest stored size that the 16-bit addition of the hash length leaves alone. */
  const MAX_SIZE: nat := 65503

  /** The total grows by what is inserted exactly when neither the stored size nor the addition wraps around. */
  lemma SizeWrapsAbove(kids: Hash -> seq<Hash>, c: Cache, h: Hash, size: nat)
    requires h !in c.st.dirties
    ensures InsertTo(kids, c, h, size).st.size == c.st.size + 32 + size <==> size <= MAX_SIZE
  {}

  /** Inserting a node whose children are there keeps the invariant, unless its size makes the addition wrap around. */
  lemma InsertOk(kids: Hash -> seq<Hash>, rank: Hash -> nat, c: Cache, h: Hash, size: nat)
    requires CacheOk(kids, rank, c) && h != 0 && forall k | k in kids(h) :: k in c.list || k in c.disk
    ensures CacheOk(kids, rank, InsertTo(kids, c, h, size)) <==> h in c.st.dirties || size % 0x1_0000 <= MAX_SIZE
  {
    if h !in c.st.dirties {
      InsertFlies(kids, rank, c, h, size % 0x1_0000);
      InsertNarrow(kids, c, h, size);
      OneSizeFits(kids, InsertWide(kids, c, h, size % 0x1_0000), InsertTo(kids, c, h, size).st.size);
    }
  }

  lemma InsertKeys(kids: Hash -> seq<Hash>, c: Cache, h: Hash, size: nat)
    ensures InsertTo(kids, c, h, size).st.dirties.Keys == c.st.dirties.Keys + {h}
  {
    BumpIs(c.st.dirties, kids(h));
  }

  lemma DirtyIsListed(kids: Hash -> seq<Hash>, rank: Hash -> nat, c: Cache, h: Hash)
    requires CacheOk(kids, rank, c)
    ensures h in c.st.dirties <==> h in c.list
  {}

  lemma InsertNarrow(kids: Hash -> seq<Hash>, c: Cache, h: Hash, size: nat)
    requires h !in c.st.dirties
    ensures var wide, c' := InsertWide(kids, c, h, size % 0x1_0000), InsertTo(kids, c, h, size);
      c' == Resized(wide, c'.st.size) && (c'.st.size == wide.st.size <==> size % 0x1_0000 <= MAX_SIZE)
  {}

  ghost function Resized(c: Cache, size: int): Cache {
    c.(st := c.st.(size := size))
  }

  /** The size of the cache is determined by its nodes. */
  lemma OneSizeFits(kids: Hash -> seq<Hash>, c: Cache, size: int)
    requires Flying(kids, c, {}, multiset{}, 0)
    ensures Steady(kids, Resized(c, size)) <==> size == c.st.size
  {
    if size == c.st.size {
      assert Resized(c, size) == c;
    }
  }

  /** The state after an insertion, if sizes had no width. */
  ghost function InsertWide(kids: Hash -> seq<Hash>, c: Cache, h: Hash, size: nat): Cache {
    var e := Link(Bump(c.st.dirties, kids(h)), c.st.oldest, c.st.newest, h, size);
    c.(st := State(e.dirties, e.oldest, e.newest, c.st.size + 32 + size), list := c.list + [h])
  }

  lemma InsertFlies(kids: Hash -> seq<Hash>, rank: Hash -> nat, c: Cache, h: Hash, size: nat)
    requires Acyclic(kids, rank) && Flying(kids, c, {}, multiset{}, 0) && h != 0 && h !in c.st.dirties
    requires forall k | k in kids(h) :: k in c.list || k in c.disk
    ensures Flying(kids, InsertWide(kids, c, h, size), {}, multiset{}, 0)
  {
    BumpIs(c.st.dirties, kids(h));
    InsertKeeps(kids, rank, c.meta, c.disk, c.st, Bump(c.st.dirties, kids(h)), c.list, h, size);
  }

  /** `reference` from the meta root; nothing happens for a node that is not dirty. */
  ghost function ReferenceTo(c: Cache, h: Hash): Cache {
    if h !in c.st.dirties then
      c
    else
      var node, count := c.st.dirties[h], MetaCount(c.meta, h);
      c.(st := c.st.(dirties := c.st.dirties[h := node.(parents := node.parents + 1)]), meta := c.meta[h := count + 1],
         metaSize := if count == 0 then c.metaSize + 34 else c.metaSize)
  }

  lemma ReferenceOk(kids: Hash -> seq<Hash>, rank: Hash -> nat, c: Cache, h: Hash)
    requires CacheOk(kids, rank, c)
    ensures CacheOk(kids, rank, ReferenceTo(c, h))
  {
    ReferenceFlies(kids, c, h);
    assert Flying(kids, ReferenceTo(c, h), {}, multiset{}, 0);
    ReferenceSize(c, h);
  }

  lemma ReferenceFlies(kids: Hash -> seq<Hash>, c: Cache, h: Hash)
    requires Flying(kids, c, {}, multiset{}, 0)
    ensures Flying(kids, ReferenceTo(c, h), {}, multiset{}, 0)
  {
    if h in c.st.dirties {
      var c' := ReferenceTo(c, h);
      MetaMoves(kids, c.meta, c'.meta, c.disk, c.st, c'.st.dirties, c.list, multiset{}, h);
    }
  }

  lemma ReferenceSize(c: Cache, h: Hash)
    requires (forall r | r in c.meta :: c.meta[r] > 0) && c.metaSize == 34 * |c.meta|
    ensures ReferenceTo(c, h).metaSize == 34 * |ReferenceTo(c, h).meta|
  {
    var n := MetaCount(c.meta, h) + 1;
    assert c.meta[h := n].Keys == c.meta.Keys + {h};
    if h in c.meta {
      assert c.meta[h := n].Keys == c.meta.Keys;
    }
  }

  /** The meta root's side of `dereference`; a root without a counted reference loses none. */
  ghost function Release(c: Cache, root: Hash): Cache {
    if root !in c.meta then c
    else if c.meta[root] <= 1 then c.(meta := c.meta - {root}, metaSize := c.metaSize - 34)
    else c.(meta := c.meta[root := c.meta[root] - 1])
  }

  ghost function DereferenceOf(kids: Hash -> seq<Hash>, rank: Hash -> nat, c: Cache, root: Hash): Cache
    requires Acyclic(kids, rank)
  {
    if root == 0 then c else Deref(kids, rank, Release(c, root), root)
  }

  /** What releasing a new reference leaves. */
  lemma ReleaseReference(c: Cache, h: Hash)
    requires h in c.st.dirties && (h in c.meta ==> c.meta[h] > 0)
    ensures var c' := Release(ReferenceTo(c, h), h);
      c' == c.(st := c.st.(dirties := c'.st.dirties)) && h in c'.st.dirties && Decrement(c'.st.dirties, h) == c.st.dirties
  {
    var node, c' := c.st.dirties[h], Release(ReferenceTo(c, h), h);
    assert c'.st.dirties == c.st.dirties[h := node.(parents := node.parents + 1)];
    assert Decrement(c'.st.dirties, h)[h] == node;
    assert c'.meta == c.meta;
  }

  /** A reference to a cached node counts once, and one dereference takes it back, exactly if the node had a parent before. */
  lemma ReferenceUndone(kids: Hash -> seq<Hash>, rank: Hash -> nat, c: Cache, h: Hash)
    requires Acyclic(kids, rank) && h != 0 && h in c.st.dirties && (h in c.meta ==> c.meta[h] > 0)
    ensures forall r :: MetaCount(ReferenceTo(c, h).meta, r) == MetaCount(c.meta, r) + if r == h then 1 else 0
    ensures DereferenceOf(kids, rank, ReferenceTo(c, h), h) == c <==> c.st.dirties[h].parents > 0
  {
    ReleaseReference(c, h);
    var c' := Release(ReferenceTo(c, h), h);
    assert c'.(st := c'.st.(dirties := c.st.dirties)) == c;
    if c.st.dirties[h].parents == 0 {
      assert h !in Drop(kids, rank, c, h).st.dirties;
    }
  }

  /** A root whose reference is outstanding, or was skipped because the root was on disk; or no node of the cache at all. */
  ghost predicate Releasable(c: Cache, root: Hash) {
    root in c.meta || root in c.disk || root !in c.st.dirties
  }

  lemma ReleaseFlies(kids: Hash -> seq<Hash>, c: Cache, root: Hash)
    requires Flying(kids, c, {}, multiset{}, 0) && root != 0 && (root in c.meta || root in c.disk)
    ensures Flying(kids, Release(c, root), {}, multiset{root}, 0)
  {
    if root in c.meta {
      MetaMoves(kids, c.meta, Release(c, root).meta, c.disk, c.st, c.st.dirties, c.list, multiset{root}, root);
    }
  }

  lemma DereferenceOk(kids: Hash -> seq<Hash>, rank: Hash -> nat, c: Cache, root: Hash)
    requires CacheOk(kids, rank, c) && Releasable(c, root)
    ensures CacheOk(kids, rank, DereferenceOf(kids, rank, c, root))
    ensures Shrinks(kids, Release(c, root), multiset{root}, DereferenceOf(kids, rank, c, root), multiset{})
  {
    if root != 0 && (root in c.meta || root in c.disk) {
      ReleaseFlies(kids, c, root);
      DerefKeeps(kids, rank, Release(c, root), {}, multiset{root}, 0, root);
      assert multiset{root} - multiset{root} == multiset{};
      assert Flying(kids, DereferenceOf(kids, rank, c, root), {}, multiset{}, 0);
      ReleaseSize(c, root);
    } else {
      NothingReleased(kids, rank, c, root);
    }
  }

  lemma NothingReleased(kids: Hash -> seq<Hash>, rank: Hash -> nat, c: Cache, root: Hash)
    requires CacheOk(kids, rank, c) && (root == 0 || (root !in c.meta && root !in c.st.dirties))
    ensures DereferenceOf(kids, rank, c, root) == c && Release(c, root) == c
    ensures Shrinks(kids, c, multiset{root}, c, multiset{})
  {
    assert root !in c.list;
  }

  lemma ReleaseSize(c: Cache, root: Hash)
    requires (root in c.meta ==> c.meta[root] > 0) && c.metaSize == 34 * |c.meta|
    ensures Release(c, root).metaSize == 34 * |Release(c, root).meta|
  {
    if root in c.meta {
      assert (c.meta - {root}).Keys == c.meta.Keys - {root};
      assert c.meta[root := 1].Keys == c.meta.Keys;
    }
  }

  /** A batch is written. */
  ghost function WriteTo(c: Cache, batch: set<Hash>): Cache {
    c.(disk := c.disk + batch)
  }

  lemma WriteOk(kids: Hash -> seq<Hash>, rank: Hash -> nat, c: Cache, batch: set<Hash>)
    requires CacheOk(kids, rank, c) && DiskClosed(kids, c.disk + batch)
    ensures CacheOk(kids, rank, WriteTo(c, batch))
  {
    DiskGrows(kids, c.meta, c.disk, c.disk + batch, c.st, c.list);
    assert Flying(kids, WriteTo(c, batch), {}, multiset{}, 0);
  }

  /** `cleaner.Put`: a node that has been written leaves the cache. */
  ghost function Clean(c: Cache, h: Hash): Cache {
    if h !in c.st.dirties then
      c
    else
      var e := Unlink(c.st.dirties, c.st.oldest, c.st.newest, h);
      c.(st := State(e.dirties - {h}, e.oldest, e.newest, c.st.size - (32 + c.st.dirties[h].size)), list := RemoveOne(c.list, h))
  }

  lemma CleanOk(kids: Hash -> seq<Hash>, rank: Hash -> nat, c: Cache, h: Hash)
    requires CacheOk(kids, rank, c) && h in c.disk
    ensures CacheOk(kids, rank, Clean(c, h))
    ensures forall n :: n in Clean(c, h).list <==> n in c.list && n != h
  {
    if h in c.st.dirties {
      var p := IndexOf(c.list, h);
      WithoutMembers(c.list, p);
      UnlinkThreaded(c.st.dirties, c.list, c.st.oldest, c.st.newest, p);
      UnlinkCounts(c.st.dirties, c.st.oldest, c.st.newest, h);
      var e := Unlink(c.st.dirties, c.st.oldest, c.st.newest, h);
      DeleteThreaded(e.dirties, Without(c.list, p), e.oldest, e.newest, h);
      UncacheKeeps(kids, c.meta, c.disk, c.st, Clean(c, h).st, c.list, p);
      assert Flying(kids, Clean(c, h), {}, multiset{}, 0);
    }
  }

  /** The last loop of `Cap`: the oldest node leaves the cache. */
  ghost function DropHead(c: Cache): Cache {
    if c.st.oldest !in c.st.dirties then
      c
    else
      var node := c.st.dirties[c.st.oldest];
      c.(st := State(c.st.dirties - {c.st.oldest}, node.flushNext, c.st.newest, c.st.size - (32 + node.size)), list := Tail(c.list))
  }

  lemma DropHeadOk(kids: Hash -> seq<Hash>, rank: Hash -> nat, c: Cache)
    requires CacheOk(kids, rank, c) && c.list != [] && c.list[0] in c.disk
    ensures c.st.oldest == c.list[0] && c.st.oldest in c.st.dirties && CacheOk(kids, rank, DropHead(c))
  {
    HeadThreaded(c.st.dirties, c.list, c.st.oldest, c.st.newest);
    assert Without(c.list, 0) == Tail(c.list);
    UncacheKeeps(kids, c.meta, c.disk, c.st, DropHead(c).st, c.list, 0);
    assert Flying(kids, DropHead(c), {}, multiset{}, 0);
  }

  ghost function Elems(list: seq<Hash>): set<Hash> {
    set h | h in list
  }

  /** The oldest nodes can be written in any number, with everything below them on disk. */
  lemma PrefixClosed(kids: Hash -> seq<Hash>, list: seq<Hash>, disk: set<Hash>, m: nat)
    requires ChildrenFirst(kids, list, disk) && DiskClosed(kids, disk) && m <= |list|
    ensures DiskClosed(kids, disk + Elems(list[..m]))
  {
    var disk' := disk + Elems(list[..m]);
    forall h, k | h in disk' && k in kids(h) ensures k in disk' {
      if h !in disk {
        var i :| 0 <= i < m && list[i] == h;
        if k !in disk {
          assert k in list[..i];
          assert list[..i] <= list[..m];
        }
      }
    }
  }

  // ---------- Availability ----------

  ghost predicate StepOk(kids: Hash -> seq<Hash>, p: seq<Hash>, i: nat) {
    0 < i < |p| && p[i] in kids(p[i - 1])
  }

  ghost predicate Path(kids: Hash -> seq<Hash>, p: seq<Hash>, from: Hash, to: Hash) {
    p != [] && p[0] == from && p[|p| - 1] == to && forall i | 0 < i < |p| :: StepOk(kids, p, i)
  }

  ghost predicate Reaches(kids: Hash -> seq<Hash>, from: Hash, to: Hash) {
    exists p :: Path(kids, p, from, to)
  }

  lemma {:induction false} ReachedThere(kids: Hash -> seq<Hash>, list: seq<Hash>, disk: set<Hash>, p: seq<Hash>,
                                        from: Hash, to: Hash)
    requires ChildrenFirst(kids, list, disk) && DiskClosed(kids, disk) && Path(kids, p, from, to) && (from in list || from in disk)
    ensures to in list || to in disk
    decreases p
  {
    if |p| > 1 {
      var q := p[..|p| - 1];
      forall i | 0 < i < |q| ensures StepOk(kids, q, i) {
        assert StepOk(kids, p, i);
      }
      assert Path(kids, q, from, q[|q| - 1]) && StepOk(kids, p, |p| - 1);
      ReachedThere(kids, list, disk, q, from, q[|q| - 1]);
      if q[|q| - 1] !in disk {
        KidThere(kids, list, disk, q[|q| - 1], to);
      }
    }
  }

  /** Everything reachable from a live root is in the cache or on disk. */
  lemma Available(kids: Hash -> seq<Hash>, rank: Hash -> nat, c: Cache, root: Hash, h: Hash)
    requires CacheOk(kids, rank, c) && root in c.meta && Reaches(kids, root, h)
    ensures h in c.st.dirties || h in c.disk
  {
    var p :| Path(kids, p, root, h);
    ReachedThere(kids, c.list, c.disk, p, root, h);
  }

  // ---------- What collection removes ----------

  /** A dirty node that nothing refers to, and no root: it was never referenced. */
  ghost predicate Orphan(kids: Hash -> seq<Hash>, c: Cache, h: Hash) {
    h in c.list && Total(kids, c.list, c.meta, multiset{}, h) == 0
  }

  ghost predicate Live(kids: Hash -> seq<Hash>, c: Cache, meta: map<Hash, nat>, h: Hash) {
    || (exists r :: r in meta && Reaches(kids, r, h))
    || (exists o :: Orphan(kids, c, o) && Reaches(kids, o, h))
  }

  ghost function Higher(rank: Hash -> nat, list: seq<Hash>, h: Hash): set<Hash> {
    set x | x in list && rank(x) > rank(h)
  }

  lemma ReachesSelf(kids: Hash -> seq<Hash>, h: Hash)
    ensures Reaches(kids, h, h)
  {
    assert Path(kids, [h], h, h);
  }

  lemma ReachesKid(kids: Hash -> seq<Hash>, from: Hash, m: Hash, h: Hash)
    requires Reaches(kids, from, m) && h in kids(m)
    ensures Reaches(kids, from, h)
  {
    var p :| Path(kids, p, from, m);
    var q := p + [h];
    forall i | 0 < i < |q| ensures StepOk(kids, q, i) {
      assert i < |p| ==> StepOk(kids, p, i);
    }
    assert Path(kids, q, from, h);
  }

  lemma LiveKid(kids: Hash -> seq<Hash>, c: Cache, meta: map<Hash, nat>, m: Hash, h: Hash)
    requires Live(kids, c, meta, m) && h in kids(m)
    ensures Live(kids, c, meta, h)
  {
    if r :| r in meta && Reaches(kids, r, m) {
      ReachesKid(kids, r, m, h);
    } else {
      var o :| Orphan(kids, c, o) && Reaches(kids, o, m);
      ReachesKid(kids, o, m, h);
    }
  }

  /** Whatever is left after a collection, and is not on disk, is still wanted. */
  lemma {:induction false} LeftIsLive(kids: Hash -> seq<Hash>, rank: Hash -> nat, c: Cache, c': Cache, h: Hash)
    requires Acyclic(kids, rank) && DiskClosed(kids, c.disk) && h in c'.list && h !in c.disk
    requires forall n | n in c'.list && n !in c.disk && Total(kids, c'.list, c'.meta, multiset{}, n) == 0 :: Orphan(kids, c, n)
    ensures Live(kids, c, c'.meta, h)
    decreases Higher(rank, c'.list, h)
  {
    ReachesSelf(kids, h);
    if Total(kids, c'.list, c'.meta, multiset{}, h) == 0 {
      assert Orphan(kids, c, h);
    } else if Refs(kids, c'.list, h) > 0 {
      SomeReferrer(kids, c'.list, h);
      var m :| m in c'.list && h in kids(m);
      assert m in Higher(rank, c'.list, h) && Higher(rank, c'.list, m) <= Higher(rank, c'.list, h);
      LeftIsLive(kids, rank, c, c', m);
      LiveKid(kids, c, c'.meta, m, h);
    }
  }

  /** The counts of the meta root before and after, and the reference that is let go. */
  lemma ReleaseTotals(kids: Hash -> seq<Hash>, c: Cache, root: Hash, h: Hash)
    requires root in c.meta ==> c.meta[root] > 0
    requires root in c.meta || h != root
    ensures Total(kids, c.list, Release(c, root).meta, multiset{root}, h) == Total(kids, c.list, c.meta, multiset{}, h)
  {}

  /** What is left without references was so before, and stays. */
  lemma NoNewOrphans(kids: Hash -> seq<Hash>, rank: Hash -> nat, c: Cache, root: Hash, n: Hash)
    requires CacheOk(kids, rank, c) && Releasable(c, root) && n !in c.disk
    ensures var c' := DereferenceOf(kids, rank, c, root);
      && (n in c'.list && Total(kids, c'.list, c'.meta, multiset{}, n) == 0 ==> Orphan(kids, c, n))
      && (Orphan(kids, c, n) ==> n in c'.list)
  {
    DereferenceOk(kids, rank, c, root);
    if n in c.list {
      ReleaseTotals(kids, c, root, n);
    }
  }

  /** What is wanted stays, or is on disk. */
  lemma LiveStays(kids: Hash -> seq<Hash>, rank: Hash -> nat, c: Cache, c': Cache, h: Hash)
    requires CacheOk(kids, rank, c') && Live(kids, c, c'.meta, h) && (forall o | Orphan(kids, c, o) :: o in c'.list || o in c'.disk)
    ensures h in c'.st.dirties || h in c'.disk
  {
    if r :| r in c'.meta && Reaches(kids, r, h) {
      Available(kids, rank, c', r, h);
    } else {
      var o :| Orphan(kids, c, o) && Reaches(kids, o, h);
      var p :| Path(kids, p, o, h);
      ReachedThere(kids, c'.list, c'.disk, p, o, h);
    }
  }

  /** Of the nodes without a copy on disk, dereferencing a root removes exactly those that nothing wants any more. */
  lemma CollectsExactly(kids: Hash -> seq<Hash>, rank: Hash -> nat, c: Cache, root: Hash, h: Hash)
    requires CacheOk(kids, rank, c) && Releasable(c, root) && h in c.st.dirties && h !in c.disk
    ensures var c' := DereferenceOf(kids, rank, c, root); h in c'.st.dirties <==> Live(kids, c, c'.meta, h)
  {
    var c' := DereferenceOf(kids, rank, c, root);
    DereferenceOk(kids, rank, c, root);
    forall n | n !in c.disk
      ensures n in c'.list && Total(kids, c'.list, c'.meta, multiset{}, n) == 0 ==> Orphan(kids, c, n)
      ensures Orphan(kids, c, n) ==> n in c'.list
    {
      NoNewOrphans(kids, rank, c, root, n);
    }
    if h in c'.list {
      LeftIsLive(kids, rank, c, c', h);
    }
    if Live(kids, c, c'.meta, h) {
      LiveStays(kids, rank, c, c', h);
    }
  }

  // ---------- The database ----------

  lemma EmptyOk(kids: Hash -> seq<Hash>, rank: Hash -> nat, disk: set<Hash>)
    requires Acyclic(kids, rank) && DiskClosed(kids, disk)
    ensures CacheOk(kids, rank, Cache(State(map[], 0, 0, 0), [], map[], 0, disk))
  {
    assert Flying(kids, Cache(State(map[], 0, 0, 0), [], map[], 0, disk), {}, multiset{}, 0);
  }

  class Database {
    /** The children of the node with a given hash. */
    const kids: Hash -> seq<Hash>
    ghost const rank: Hash -> nat

    /** The bookkeeping size of a cached node. */
    const nodeSize: nat

    var dirties: Dirties
    var oldest: Hash
    var newest: Hash
    var dirtiesSize: int
    var metaChildren: map<Hash, nat>
    var childrenSize: int
    var disk: set<Hash>

    ghost var list: seq<Hash>

    ghost function Now(): Cache
      reads this
    {
      Cache(State(dirties, oldest, newest, dirtiesSize), list, metaChildren, childrenSize, disk)
    }

    ghost predicate Valid()
      reads this
    {
      CacheOk(kids, rank, Now())
    }

    constructor (kids: Hash -> seq<Hash>, ghost rank: Hash -> nat, nodeSize: nat, disk: set<Hash>)
      requires Acyclic(kids, rank) && DiskClosed(kids, disk)
      ensures Valid() && this.kids == kids && Now() == Cache(State(map[], 0, 0, 0), [], map[], 0, disk)
    {
      this.kids, this.rank, this.nodeSize, this.disk := kids, rank, nodeSize, disk;
      dirties, oldest, newest, dirtiesSize := map[], 0, 0, 0;
      metaChildren, childrenSize, list := map[], 0, [];
      new;
      EmptyOk(kids, rank, disk);
      assert Now() == Cache(State(map[], 0, 0, 0), [], map[], 0, disk);
    }

    /** `insert`, when the children are there already. */
    method Insert(h: Hash, size: nat)
      requires Valid() && h != 0 && forall k | k in kids(h) :: k in list || k in disk
      modifies this`dirties, this`oldest, this`newest, this`dirtiesSize, this`list
      ensures Now() == InsertTo(kids, old(Now()), h, size)
      ensures Valid() <==> h in old(dirties) || size % 0x1_0000 <= MAX_SIZE
    {
      InsertOk(kids, rank, Now(), h, size);
      InsertEntry(h, size);
    }

    method InsertEntry(h: Hash, size: nat)
      modifies this`dirties, this`oldest, this`newest, this`dirtiesSize, this`list
      ensures Now() == InsertTo(kids, old(Now()), h, size)
    {
      if h in dirties {
        return;
      }
      var ks := kids(h);
      for i := 0 to |ks|
        invariant dirties == Bump(old(dirties), ks[..i])
        modifies this`dirties
      {
        assert ks[..i + 1][..i] == ks[..i];
        if ks[i] in dirties {
          dirties := dirties[ks[i] := dirties[ks[i]].(parents := dirties[ks[i]].parents + 1)];
        }
      }
      assert ks[..|ks|] == ks;
      var short := size % 0x1_0000;
      dirties := dirties[h := CachedNode(short, 0, newest, 0)];
      if oldest == 0 {
        oldest, newest := h, h;
      } else {
        dirties := SetNext(dirties, newest, h);
        newest := h;
      }
      dirtiesSize := dirtiesSize + (32 + short) % 0x1_0000;
      list := list + [h];
    }

    /** `reference` from the meta root. */
    method Reference(child: Hash)
      requires Valid()
      modifies this`dirties, this`metaChildren, this`childrenSize
      ensures Valid() && Now() == ReferenceTo(old(Now()), child)
      ensures child in old(dirties) ==>
        forall r :: MetaCount(metaChildren, r) == MetaCount(old(metaChildren), r) + if r == child then 1 else 0
    {
      ReferenceOk(kids, rank, Now(), child);
      CountReference(child);
    }

    method CountReference(child: Hash)
      modifies this`dirties, this`metaChildren, this`childrenSize
      ensures Now() == ReferenceTo(old(Now()), child)
    {
      if child !in dirties {
        return;
      }
      dirties := dirties[child := dirties[child].(parents := dirties[child].parents + 1)];
      var count := if child in metaChildren then metaChildren[child] else 0;
      metaChildren := metaChildren[child := count + 1];
      if metaChildren[child] == 1 {
        childrenSize := childrenSize + 34;
      }
    }

    /** `Dereference`; the meta root itself is refused. */
    method Dereference(root: Hash)
      requires Valid() && Releasable(Now(), root)
      modifies this`dirties, this`oldest, this`newest, this`dirtiesSize, this`metaChildren, this`childrenSize, this`list
      ensures Valid() && Now() == DereferenceOf(kids, rank, old(Now()), root)
    {
      DereferenceOk(kids, rank, Now(), root);
      if root == 0 {
        return;
      }
      LetGo(root);
      DerefNode(root);
    }

    /** The meta root's side. */
    method LetGo(root: Hash)
      modifies this`metaChildren, this`childrenSize
      ensures Now() == Release(old(Now()), root)
    {
      if root !in metaChildren {
        return;
      }
      if metaChildren[root] > 1 {
        metaChildren := metaChildren[root := metaChildren[root] - 1];
      } else {
        metaChildren := metaChildren - {root};
        childrenSize := childrenSize - 34;
      }
    }

    method DerefNode(h: Hash)
      requires Acyclic(kids, rank)
      modifies this`dirties, this`oldest, this`newest, this`dirtiesSize, this`list
      ensures Now() == Deref(kids, rank, old(Now()), h)
      decreases rank(h), 2
    {
      if h !in dirties {
        return;
      }
      if dirties[h].parents > 0 {
        dirties := dirties[h := dirties[h].(parents := dirties[h].parents - 1)];
      }
      if dirties[h].parents == 0 {
        DropNode(h);
      }
    }

    /** A node without references leaves the list, lets its children go, and is deleted. */
    method DropNode(h: Hash)
      requires Acyclic(kids, rank) && h in dirties
      modifies this`dirties, this`oldest, this`newest, this`dirtiesSize, this`list
      ensures Now() == Drop(kids, rank, old(Now()), h)
      decreases rank(h), 1
    {
      var node := dirties[h];
      TakeOff(h);
      DerefChildren(h);
      dirties := dirties - {h};
      dirtiesSize := dirtiesSize - (32 + node.size);
    }

    /** The switch that takes a node off the flush list. */
    method TakeOff(h: Hash)
      requires h in dirties
      modifies this`dirties, this`oldest, this`newest, this`list
      ensures Now() == OffList(old(Now()), h)
    {
      var node := dirties[h];
      if h == oldest {
        oldest := node.flushNext;
        dirties := SetPrev(dirties, node.flushNext, 0);
      } else if h == newest {
        newest := node.flushPrev;
        dirties := SetNext(dirties, node.flushPrev, 0);
      } else {
        dirties := SetNext(dirties, node.flushPrev, node.flushNext);
        dirties := SetPrev(dirties, node.flushNext, node.flushPrev);
      }
      list := RemoveOne(list, h);
    }

    method DerefChildren(h: Hash)
      requires Acyclic(kids, rank)
      modifies this`dirties, this`oldest, this`newest, this`dirtiesSize, this`list
      ensures Now() == DerefAll(kids, rank, old(Now()), kids(h), rank(h))
      decreases rank(h), 0
    {
      var ks := kids(h);
      for i := 0 to |ks|
        invariant forall k | k in ks[..i] :: k in kids(h)
        invariant Now() == DerefAll(kids, rank, old(Now()), ks[..i], rank(h))
      {
        assert ks[..i + 1][..i] == ks[..i] && ks[i] in kids(h);
        DerefNode(ks[i]);
      }
      assert ks[..|ks|] == ks;
    }

    /** The first half of `Cap`: write the oldest nodes, in batches, until the rest is small enough. */
    method WriteOldest(limit: int) returns (stop: Hash, ghost m: nat)
      requires Valid()
      modifies this`disk
      ensures Valid() && Writing(old(Now()), Now(), stop, m, {}) && m <= |list| && Enough(old(Now()), m, limit, nodeSize)
    {
      var size := CountedSize(limit);
      var batch: set<Hash>;
      stop, m, batch := oldest, 0, {};
      while size > limit && stop != 0
        invariant Writing(old(Now()), Now(), stop, m, batch) && Sized(old(Now()), m, size, limit, nodeSize)
        decreases |old(list)| - m
      {
        stop, size, batch := WriteNext(stop, size, batch, limit, old(Now()), m);
        m := m + 1;
      }
      NoZero(kids, rank, old(Now()));
      SizedEnds(old(Now()), Now(), stop, m, batch, size, limit, nodeSize);
      WriteBatch(batch, old(Now()), stop, m);
    }

    /** The size that `Cap` starts from. */
    method CountedSize(ghost limit: int) returns (size: int)
      requires Valid()
      ensures Writing(Now(), Now(), oldest, 0, {}) && Sized(Now(), 0, size, limit, nodeSize)
    {
      size := dirtiesSize + |dirties| * nodeSize + childrenSize - |metaChildren| * 34;
      OverheadIs(|dirties|, nodeSize);
      SizedStart(kids, rank, Now(), limit, nodeSize);
      WritingStart(kids, rank, Now());
    }

    /** One round of the loop: the next node goes to the batch, and the batch may be full. */
    method WriteNext(stop: Hash, size: int, batch: set<Hash>, limit: int, ghost c0: Cache, ghost m: nat)
      returns (stop': Hash, size': int, batch': set<Hash>)
      requires CacheOk(kids, rank, c0) && Writing(c0, Now(), stop, m, batch) && stop != 0
      requires Sized(c0, m, size, limit, nodeSize) && size > limit
      modifies this`disk
      ensures m < |c0.list| && Writing(c0, Now(), stop', m + 1, batch') && Sized(c0, m + 1, size', limit, nodeSize)
    {
      WritingStep(kids, rank, c0, Now(), stop, m, batch);
      var node := dirties[stop];
      batch' := batch + {stop};
      size' := size - (32 + node.size + nodeSize);
      stop' := node.flushNext;
      SizedNext(c0, m, size, limit, nodeSize, node.size);
      if * {
        WriteBatch(batch', c0, stop', m + 1);
        batch' := {};
      }
    }

    /** Write a batch: the invariant holds before the nodes leave the cache. */
    method WriteBatch(batch: set<Hash>, ghost c0: Cache, ghost stop: Hash, ghost m: nat)
      requires CacheOk(kids, rank, c0) && Writing(c0, Now(), stop, m, batch)
      modifies this`disk
      ensures Valid() && Writing(c0, Now(), stop, m, {})
    {
      WritingFlush(kids, rank, c0, Now(), stop, m, batch);
      disk := disk + batch;
    }

    /** The second half of `Cap`: what has been written leaves the cache. */
    method DropOldest(stop: Hash, ghost m: nat)
      requires Valid() && m <= |list| && stop == Spot(list, m) && Elems(list[..m]) <= disk
      modifies this`dirties, this`oldest, this`dirtiesSize, this`list
      ensures Now() == FixHead(DropHeads(old(Now()), m))
    {
      ghost var i: nat := 0;
      HeadsAt(kids, rank, Now(), 0, m);
      while oldest != stop
        invariant Dropping(old(Now()), Now(), i, m, stop)
        decreases m - i
      {
        HeadsAt(kids, rank, old(Now()), i + 1, m);
        DroppingNext(old(Now()), Now(), i, m, stop);
        DropFirst();
        i := i + 1;
      }
      if oldest != 0 {
        dirties := SetPrev(dirties, oldest, 0);
      }
    }

    method DropFirst()
      requires oldest in dirties
      modifies this`dirties, this`oldest, this`dirtiesSize, this`list
      ensures Now() == DropHead(old(Now()))
    {
      var node := dirties[oldest];
      dirties := dirties - {oldest};
      oldest := node.flushNext;
      dirtiesSize := dirtiesSize - (32 + node.size);
      list := Tail(list);
    }

    /** `Cap`: the oldest nodes go to disk until the rest is small enough, or everything is there, and no more than that. */
    method Cap(limit: int) returns (ghost m: nat)
      requires Valid()
      modifies this`dirties, this`oldest, this`dirtiesSize, this`disk, this`list
      ensures Valid() && m <= |old(list)| && Capped(old(Now()), Now(), m) && Enough(old(Now()), m, limit, nodeSize)
      ensures list == [] || Footprint(Now(), nodeSize) <= limit
    {
      var stop;
      stop, m := WriteOldest(limit);
      WrittenIs(old(Now()), Now(), stop, m);
      ghost var c := Now();
      DropOldest(stop, m);
      CapOk(kids, rank, old(Now()), c, m);
      CapSize(kids, rank, old(Now()), Now(), m, nodeSize);
    }

    /** Write the batch, then replay it: what has been written leaves the cache. */
    method Flush(batch: set<Hash>)
      requires Valid() && BatchOk(kids, Now(), batch)
      modifies this`dirties, this`oldest, this`newest, this`dirtiesSize, this`list, this`disk
      ensures Valid() && Flushed(old(Now()), batch, Now())
    {
      BatchWritten(kids, rank, Now(), batch);
      disk := disk + batch;
      Replay(batch);
    }

    /** `batch.Replay(uncacher)`. */
    method Replay(batch: set<Hash>)
      requires Valid() && batch <= disk
      modifies this`dirties, this`oldest, this`newest, this`dirtiesSize, this`list
      ensures Valid() && Replayed(old(Now()), batch, Now())
    {
      var rest := batch;
      while rest != {}
        invariant rest <= batch && Valid() && Replayed(old(Now()), batch - rest, Now())
        decreases rest
      {
        var h :| h in rest;
        ReplayStep(kids, rank, old(Now()), Now(), batch - rest, h);
        Put(h);
        assert batch - (rest - {h}) == batch - rest + {h};
        rest := rest - {h};
      }
      assert batch - {} == batch;
    }

    /** `cleaner.Put`. */
    method Put(h: Hash)
      modifies this`dirties, this`oldest, this`newest, this`dirtiesSize, this`list
      ensures Now() == Clean(old(Now()), h)
    {
      if h !in dirties {
        return;
      }
      var node := dirties[h];
      TakeOff(h);
      dirties := dirties - {h};
      dirtiesSize := dirtiesSize - (32 + node.size);
    }

    /** `commit`: children first, then the node, flushing whenever the batch is full. */
    method CommitNode(h: Hash, batch: set<Hash>) returns (batch': set<Hash>)
      requires Valid() && BatchOk(kids, Now(), batch)
      modifies this`dirties, this`oldest, this`newest, this`dirtiesSize, this`list, this`disk
      ensures Valid() && BatchOk(kids, Now(), batch') && Progress(kids, old(Now()), batch, Now(), batch')
      ensures (h in old(list) || h in old(disk) ==> h in disk + batch') && Out(Now(), batch', h)
      decreases rank(h), 2
    {
      batch' := batch;
      if h !in dirties {
        return;
      }
      batch' := CommitChildren(h, batch);
      ghost var c, b := Now(), batch';
      batch' := WriteNode(h, batch');
      ProgressTrans(kids, old(Now()), batch, c, b, Now(), batch');
    }

    method CommitChildren(h: Hash, batch: set<Hash>) returns (batch': set<Hash>)
      requires Valid() && BatchOk(kids, Now(), batch) && h in list
      modifies this`dirties, this`oldest, this`newest, this`dirtiesSize, this`list, this`disk
      ensures Valid() && BatchOk(kids, Now(), batch') && Progress(kids, old(Now()), batch, Now(), batch')
      ensures forall k | k in kids(h) :: k in disk + batch' && Out(Now(), batch', k)
      decreases rank(h), 1
    {
      batch' := batch;
      CommittingStart(kids, Now(), batch, h);
      for i := 0 to |kids(h)|
        invariant Valid() && Committing(kids, old(Now()), batch, Now(), batch', h, i)
      {
        batch' := CommitChild(h, i, batch', old(Now()), batch);
      }
      CommittingEnd(kids, old(Now()), batch, Now(), batch', h);
    }

    method CommitChild(h: Hash, i: nat, batch: set<Hash>, ghost c0: Cache, ghost b0: set<Hash>) returns (batch': set<Hash>)
      requires Valid() && i < |kids(h)| && Committing(kids, c0, b0, Now(), batch, h, i)
      modifies this`dirties, this`oldest, this`newest, this`dirtiesSize, this`list, this`disk
      ensures Valid() && Committing(kids, c0, b0, Now(), batch', h, i + 1)
      decreases rank(h), 0
    {
      ghost var c := Now();
      assert kids(h)[i] in kids(h);
      CommittingKid(kids, c0, b0, c, batch, h, i);
      batch' := CommitNode(kids(h)[i], batch);
      CommittingStep(kids, c0, b0, c, batch, Now(), batch', h, i);
    }

    /** `WriteLegacyTrieNode`, and a flush if the batch is large. */
    method WriteNode(h: Hash, batch: set<Hash>) returns (batch': set<Hash>)
      requires Valid() && BatchOk(kids, Now(), batch)
      requires forall k | k in kids(h) :: k in disk + batch && Out(Now(), batch, k)
      modifies this`dirties, this`oldest, this`newest, this`dirtiesSize, this`list, this`disk
      ensures Valid() && BatchOk(kids, Now(), batch') && Progress(kids, old(Now()), batch, Now(), batch')
      ensures h in disk + batch' && Out(Now(), batch', h)
    {
      batch' := batch + {h};
      JoinsBatch(kids, Now(), batch, h);
      if * {
        ghost var c := Now();
        Flush(batch');
        FlushProgress(kids, c, batch', Now());
        ProgressTrans(kids, c, batch, c, batch', Now(), {});
        batch' := {};
      }
    }

    /** `Commit`: the trie under `root` is on disk, and what was cached of it has left the cache. */
    method Commit(root: Hash)
      requires Valid()
      modifies this`dirties, this`oldest, this`newest, this`dirtiesSize, this`list, this`disk
      ensures Valid() && Progress(kids, old(Now()), {}, Now(), {})
      ensures (root in old(list) || root in old(disk) ==> root in disk) && root !in dirties
    {
      var batch := CommitNode(root, {});
      ghost var c := Now();
      Flush(batch);
      FlushProgress(kids, c, batch, Now());
      ProgressTrans(kids, old(Now()), {}, c, batch, Now(), {});
    }
  }

  /** The children of the nodes of a batch are on disk or in the batch. */
  ghost predicate BatchOk(kids: Hash -> seq<Hash>, c: Cache, batch: set<Hash>) {
    forall h, k | h in batch && k in kids(h) :: k in c.disk || k in batch
  }

  /** The node has left the cache, or will with the batch. */
  ghost predicate Out(c: Cache, batch: set<Hash>, h: Hash) {
    h in batch || h !in c.list
  }

  /** A node that goes takes its children along. */
  ghost predicate GoesWith(kids: Hash -> seq<Hash>, c: Cache, batch: set<Hash>, c': Cache, batch': set<Hash>) {
    forall h, k | h in c.list && !Out(c, batch, h) && Out(c', batch', h) && k in kids(h) :: Out(c', batch', k)
  }

  /** Nodes have moved to the disk or towards it: none has been lost, and none that was written has stayed. */
  ghost predicate Progress(kids: Hash -> seq<Hash>, c: Cache, batch: set<Hash>, c': Cache, batch': set<Hash>) {
    && c'.meta == c.meta && c'.metaSize == c.metaSize && c.disk <= c'.disk && c.disk + batch <= c'.disk + batch'
    && (forall h | h in c.list :: h in c'.list || h in c'.disk) && (forall h | h in c'.list :: h in c.list)
    && (forall h | h in c'.list && h in c'.disk :: h in c.disk) && (forall h | Out(c, batch, h) :: Out(c', batch', h))
    && GoesWith(kids, c, batch, c', batch')
  }

  lemma ProgressTrans(kids: Hash -> seq<Hash>, a: Cache, p: set<Hash>, b: Cache, q: set<Hash>, c: Cache, r: set<Hash>)
    requires Progress(kids, a, p, b, q) && Progress(kids, b, q, c, r)
    ensures Progress(kids, a, p, c, r)
  {
    forall h, k | h in a.list && !Out(a, p, h) && Out(c, r, h) && k in kids(h) ensures Out(c, r, k) {
      assert Out(b, q, h) ==> Out(b, q, k);
    }
  }

  /** A node whose children are out joins the batch. */
  lemma JoinsBatch(kids: Hash -> seq<Hash>, c: Cache, batch: set<Hash>, h: Hash)
    requires forall k | k in kids(h) :: Out(c, batch, k)
    ensures Progress(kids, c, batch, c, batch + {h})
  {}

  lemma FlushProgress(kids: Hash -> seq<Hash>, c: Cache, batch: set<Hash>, c': Cache)
    requires Flushed(c, batch, c')
    ensures Progress(kids, c, batch, c', {})
  {
    forall h ensures Out(c', {}, h) <==> Out(c, batch, h) {}
  }

  /** The first `i` children of `h` are on disk or in the batch, and the others can be found. */
  ghost predicate CommittingTo(kids: Hash -> seq<Hash>, c0: Cache, b0: set<Hash>, c: Cache, b: set<Hash>, h: Hash,
                               i: nat, ks: seq<Hash>) {
    && ks == kids(h) && i <= |ks| && BatchOk(kids, c, b) && Progress(kids, c0, b0, c, b)
    && (forall j | 0 <= j < i :: ks[j] in c.disk + b && Out(c, b, ks[j])) && forall k | k in ks :: k in c.list || k in c.disk
  }

  ghost predicate Committing(kids: Hash -> seq<Hash>, c0: Cache, b0: set<Hash>, c: Cache, b: set<Hash>, h: Hash, i: nat) {
    exists ks :: CommittingTo(kids, c0, b0, c, b, h, i, ks)
  }

  lemma CommittingStart(kids: Hash -> seq<Hash>, c: Cache, b: set<Hash>, h: Hash)
    requires Steady(kids, c) && BatchOk(kids, c, b) && h in c.list
    ensures Committing(kids, c, b, c, b, h, 0)
  {
    KidsThere(kids, c, h);
    assert CommittingTo(kids, c, b, c, b, h, 0, kids(h));
  }

  lemma CommittingKid(kids: Hash -> seq<Hash>, c0: Cache, b0: set<Hash>, c: Cache, b: set<Hash>, h: Hash, i: nat)
    requires Committing(kids, c0, b0, c, b, h, i) && i < |kids(h)|
    ensures BatchOk(kids, c, b) && (kids(h)[i] in c.list || kids(h)[i] in c.disk)
  {}

  lemma CommittingStep(kids: Hash -> seq<Hash>, c0: Cache, b0: set<Hash>, c: Cache, b: set<Hash>, c': Cache,
                       b': set<Hash>, h: Hash, i: nat)
    requires Committing(kids, c0, b0, c, b, h, i) && i < |kids(h)| && Progress(kids, c, b, c', b') && BatchOk(kids, c', b')
    requires kids(h)[i] in c'.disk + b' && Out(c', b', kids(h)[i])
    ensures Committing(kids, c0, b0, c', b', h, i + 1)
  {
    ProgressTrans(kids, c0, b0, c, b, c', b');
    assert CommittingTo(kids, c0, b0, c', b', h, i + 1, kids(h));
  }

  lemma CommittingEnd(kids: Hash -> seq<Hash>, c0: Cache, b0: set<Hash>, c: Cache, b: set<Hash>, h: Hash)
    requires Committing(kids, c0, b0, c, b, h, |kids(h)|)
    ensures BatchOk(kids, c, b) && Progress(kids, c0, b0, c, b) && forall k | k in kids(h) :: k in c.disk + b && Out(c, b, k)
  {}

  ghost predicate Flushed(c: Cache, batch: set<Hash>, c': Cache) {
    c'.meta == c.meta && c'.metaSize == c.metaSize && c'.disk == c.disk + batch && forall h :: h in c'.list <==> h in c.list && h !in batch
  }

  ghost predicate Replayed(c: Cache, batch: set<Hash>, c': Cache) {
    c'.meta == c.meta && c'.metaSize == c.metaSize && c'.disk == c.disk && forall h :: h in c'.list <==> h in c.list && h !in batch
  }

  lemma ReplayStep(kids: Hash -> seq<Hash>, rank: Hash -> nat, c0: Cache, c: Cache, done: set<Hash>, h: Hash)
    requires CacheOk(kids, rank, c) && Replayed(c0, done, c) && h in c.disk
    ensures CacheOk(kids, rank, Clean(c, h)) && Replayed(c0, done + {h}, Clean(c, h))
  {
    CleanOk(kids, rank, c, h);
  }

  /** A batch may be written at any time: the disk stays closed, and everything is still in the cache. */
  lemma BatchWritten(kids: Hash -> seq<Hash>, rank: Hash -> nat, c: Cache, batch: set<Hash>)
    requires CacheOk(kids, rank, c) && BatchOk(kids, c, batch)
    ensures CacheOk(kids, rank, WriteTo(c, batch))
  {
    forall h, k | h in c.disk + batch && k in kids(h) ensures k in c.disk + batch {}
    WriteOk(kids, rank, c, batch);
  }

  lemma KidsThere(kids: Hash -> seq<Hash>, c: Cache, h: Hash)
    requires Steady(kids, c) && h in c.list
    ensures forall k | k in kids(h) :: k in c.list || k in c.disk
  {
    forall k | k in kids(h) ensures k in c.list || k in c.disk {
      KidThere(kids, c.list, c.disk, h, k);
    }
  }

  /** Everything below a node on disk is on disk. */
  lemma {:induction false} OnDisk(kids: Hash -> seq<Hash>, disk: set<Hash>, p: seq<Hash>, from: Hash, to: Hash)
    requires DiskClosed(kids, disk) && from in disk && Path(kids, p, from, to)
    ensures to in disk
  {
    ReachedThere(kids, [], disk, p, from, to);
  }

  ghost function Tail(list: seq<Hash>): seq<Hash> {
    if list == [] then [] else list[1..]
  }

  /** `k` nodes leave at the head. */
  ghost function DropHeads(c: Cache, k: nat): Cache {
    if k == 0 then c else DropHead(DropHeads(c, k - 1))
  }

  /** The oldest node has no predecessor. */
  ghost function FixHead(c: Cache): Cache {
    if c.st.oldest == 0 then c else c.(st := c.st.(dirties := SetPrev(c.st.dirties, c.st.oldest, 0)))
  }

  /** The oldest `m` nodes are on disk and no longer in the cache; the others are as they were. */
  ghost predicate Capped(c0: Cache, c: Cache, m: nat)
    requires m <= |c0.list|
  {
    && c.list == c0.list[m..] && c.disk == c0.disk + Elems(c0.list[..m]) && c.meta == c0.meta && c.metaSize == c0.metaSize
    && SameSizes(c0, c)
  }

  ghost predicate SameSizes(c0: Cache, c: Cache) {
    forall h | h in c.list :: h in c0.st.dirties && h in c.st.dirties && c.st.dirties[h].size == c0.st.dirties[h].size
  }

  /** What `k` deletions at the head leave. */
  ghost predicate Headed(c0: Cache, c: Cache, k: nat) {
    && k <= |c0.list| && c.list == c0.list[k..] && c.disk == c0.disk && c.meta == c0.meta && c.metaSize == c0.metaSize
    && SameSizes(c0, c)
  }

  lemma {:induction false} DropHeadsOk(kids: Hash -> seq<Hash>, rank: Hash -> nat, c: Cache, k: nat)
    requires CacheOk(kids, rank, c) && k <= |c.list| && Elems(c.list[..k]) <= c.disk
    ensures CacheOk(kids, rank, DropHeads(c, k)) && Headed(c, DropHeads(c, k), k)
  {
    if k == 0 {
      assert c.list[0..] == c.list;
    } else {
      assert c.list[..k - 1] == c.list[..k][..k - 1] && c.list[..k][k - 1] in Elems(c.list[..k]);
      DropHeadsOk(kids, rank, c, k - 1);
      DropOnce(kids, rank, c, DropHeads(c, k - 1), k - 1);
    }
  }

  lemma DropOnce(kids: Hash -> seq<Hash>, rank: Hash -> nat, c0: Cache, c: Cache, k: nat)
    requires CacheOk(kids, rank, c) && Headed(c0, c, k) && k < |c0.list| && c0.list[k] in c0.disk
    ensures CacheOk(kids, rank, DropHead(c)) && Headed(c0, DropHead(c), k + 1)
  {
    assert c.list[0] == c0.list[k];
    DropHeadOk(kids, rank, c);
    HeadedOn(c0, c, k);
  }

  lemma HeadedOn(c0: Cache, c: Cache, k: nat)
    requires Headed(c0, c, k) && k < |c0.list| && Distinct(c.list) && c.st.oldest == c.list[0]
    ensures Headed(c0, DropHead(c), k + 1)
  {
    assert c.list[1..] == c0.list[k + 1..];
  }

  /** Where the list starts after `i` deletions. */
  lemma HeadsAt(kids: Hash -> seq<Hash>, rank: Hash -> nat, c: Cache, i: nat, m: nat)
    requires CacheOk(kids, rank, c) && i <= m <= |c.list| && Elems(c.list[..m]) <= c.disk
    ensures AtHead(DropHeads(c, i), i, m, Spot(c.list, m))
  {
    assert c.list[..i] <= c.list[..m];
    DropHeadsOk(kids, rank, c, i);
    SameSpot(c.list, i, m);
  }

  /** `i` of the `m` nodes before `stop` have been dropped. */
  ghost predicate Dropping(c0: Cache, c: Cache, i: nat, m: nat, stop: Hash) {
    i <= m && c == DropHeads(c0, i) && AtHead(c, i, m, stop)
  }

  /** The list starts at `stop` exactly if nothing is left to drop. */
  ghost predicate AtHead(c: Cache, i: nat, m: nat, stop: Hash) {
    (c.st.oldest == stop <==> i == m) && (i < m ==> c.st.oldest in c.st.dirties)
  }

  lemma DropsOne(c0: Cache, i: nat)
    ensures DropHeads(c0, i + 1) == DropHead(DropHeads(c0, i))
  {}

  lemma DroppingNext(c0: Cache, c: Cache, i: nat, m: nat, stop: Hash)
    requires Dropping(c0, c, i, m, stop) && c.st.oldest != stop && (i < m ==> AtHead(DropHeads(c0, i + 1), i + 1, m, stop))
    ensures c.st.oldest in c.st.dirties && i < m && Dropping(c0, DropHead(c), i + 1, m, stop)
  {
    DropsOne(c0, i);
  }

  lemma CapOk(kids: Hash -> seq<Hash>, rank: Hash -> nat, c0: Cache, c: Cache, m: nat)
    requires CacheOk(kids, rank, c) && m <= |c0.list| && c == c0.(disk := c0.disk + Elems(c0.list[..m]))
    ensures CacheOk(kids, rank, FixHead(DropHeads(c, m))) && Capped(c0, FixHead(DropHeads(c, m)), m)
  {
    DropHeadsOk(kids, rank, c, m);
    FixHeadOk(kids, rank, DropHeads(c, m));
  }

  lemma FixHeadOk(kids: Hash -> seq<Hash>, rank: Hash -> nat, c: Cache)
    requires CacheOk(kids, rank, c)
    ensures CacheOk(kids, rank, FixHead(c))
    ensures FixHead(c) == c.(st := FixHead(c).st) && FixHead(c).st.dirties.Keys == c.st.dirties.Keys
    ensures forall h | h in c.st.dirties :: FixHead(c).st.dirties[h].size == c.st.dirties[h].size
  {
    HeadLinkOk(kids, rank, c);
  }

  lemma CapSize(kids: Hash -> seq<Hash>, rank: Hash -> nat, c0: Cache, c: Cache, m: nat, nodeSize: nat)
    requires CacheOk(kids, rank, c) && m <= |c0.list| && Capped(c0, c, m) && forall h | h in c0.list :: h in c0.st.dirties
    ensures Footprint(c, nodeSize) == Rest(c0, m, nodeSize)
  {
    SizeOf(kids, rank, c);
    SumSame(c0.st.dirties, c.st.dirties, c.list);
  }

  /** Position `i` of the list, as the links give it. */
  ghost function Spot(list: seq<Hash>, i: nat): Hash {
    if i < |list| then list[i] else 0
  }

  lemma SameSpot(list: seq<Hash>, i: nat, j: nat)
    requires Distinct(list) && 0 !in list && i <= |list| && j <= |list|
    ensures Spot(list, i) == Spot(list, j) <==> i == j
  {}

  lemma HeadLinkOk(kids: Hash -> seq<Hash>, rank: Hash -> nat, c: Cache)
    requires CacheOk(kids, rank, c)
    ensures CacheOk(kids, rank, c.(st := c.st.(dirties := SetPrev(c.st.dirties, c.st.oldest, 0))))
  {
    var c' := c.(st := c.st.(dirties := SetPrev(c.st.dirties, c.st.oldest, 0)));
    forall i | 0 <= i < |c.list| ensures NextOk(c'.st.dirties, c.list, i) && PrevOk(c'.st.dirties, c.list, i) {
      assert NextOk(c.st.dirties, c.list, i) && PrevOk(c.st.dirties, c.list, i);
    }
    SumSame(c.st.dirties, c'.st.dirties, c.list);
    assert Flying(kids, c', {}, multiset{}, 0);
  }

  lemma WrittenIs(c0: Cache, c: Cache, stop: Hash, m: nat)
    requires Writing(c0, c, stop, m, {})
    ensures m <= |c0.list| && c == c0.(disk := c0.disk + Elems(c0.list[..m])) && stop == Spot(c0.list, m)
  {
    var written: nat :| WritingFrom(c0, c, stop, m, {}, written);
    NothingBetween(c0.list, written, m);
  }

  lemma NothingBetween(list: seq<Hash>, i: nat, j: nat)
    requires i <= j <= |list|
    ensures Elems(list[i..j]) == {} <==> i == j
  {
    if i < j {
      assert list[i..j][0] in Elems(list[i..j]);
    }
  }

  /** The oldest `written` nodes are on disk, those up to `m` are in the batch, and `stop` is the next one. */
  ghost predicate WritingFrom(c0: Cache, c: Cache, stop: Hash, m: nat, batch: set<Hash>, written: nat) {
    && written <= m <= |c0.list| && c == c0.(disk := c0.disk + Elems(c0.list[..written]))
    && batch == Elems(c0.list[written..m]) && stop == if m < |c0.list| then c0.list[m] else 0
  }

  ghost predicate Writing(c0: Cache, c: Cache, stop: Hash, m: nat, batch: set<Hash>) {
    exists written :: WritingFrom(c0, c, stop, m, batch, written)
  }

  /** Dropping `m` nodes is enough, and dropping fewer is not. */
  ghost predicate Enough(c: Cache, m: nat, limit: int, nodeSize: nat) {
    && m <= |c.list| && (forall h | h in c.list :: h in c.st.dirties)
    && (m == |c.list| || Rest(c, m, nodeSize) <= limit) && (m > 0 ==> Rest(c, m - 1, nodeSize) > limit)
  }

  /** The size left after `m` nodes; before the last of them it was too large. */
  ghost predicate Sized(c: Cache, m: nat, size: int, limit: int, nodeSize: nat) {
    && m <= |c.list| && (forall h | h in c.list :: h in c.st.dirties)
    && size == Rest(c, m, nodeSize) && (m > 0 ==> Rest(c, m - 1, nodeSize) > limit)
  }

  lemma SizedStart(kids: Hash -> seq<Hash>, rank: Hash -> nat, c: Cache, limit: int, nodeSize: nat)
    requires CacheOk(kids, rank, c)
    ensures Sized(c, 0, Footprint(c, nodeSize), limit, nodeSize)
  {
    SizeOf(kids, rank, c);
    assert c.list[0..] == c.list;
  }

  lemma SizedNext(c: Cache, m: nat, size: int, limit: int, nodeSize: nat, nodeBytes: nat)
    requires Sized(c, m, size, limit, nodeSize) && size > limit && m < |c.list| && nodeBytes == c.st.dirties[c.list[m]].size
    ensures Sized(c, m + 1, size - (32 + nodeBytes + nodeSize), limit, nodeSize)
  {
    RestStep(c, m, nodeSize);
  }

  lemma SizedEnds(c0: Cache, c: Cache, stop: Hash, m: nat, batch: set<Hash>, size: int, limit: int, nodeSize: nat)
    requires Writing(c0, c, stop, m, batch) && Sized(c0, m, size, limit, nodeSize) && (size <= limit || stop == 0) && 0 !in c0.list
    ensures Enough(c0, m, limit, nodeSize) && |c.list| == |c0.list|
  {
    var written :| WritingFrom(c0, c, stop, m, batch, written);
    assert m < |c0.list| ==> c0.list[m] in c0.list;
  }

  lemma NoZero(kids: Hash -> seq<Hash>, rank: Hash -> nat, c: Cache)
    requires CacheOk(kids, rank, c)
    ensures 0 !in c.list
  {}

  lemma WritingStart(kids: Hash -> seq<Hash>, rank: Hash -> nat, c: Cache)
    requires CacheOk(kids, rank, c)
    ensures Writing(c, c, c.st.oldest, 0, {})
  {
    assert c.list[0..] == c.list && Elems(c.list[..0]) == {} && Elems(c.list[0..0]) == {};
    assert WritingFrom(c, c, c.st.oldest, 0, {}, 0);
  }

  lemma WritingStep(kids: Hash -> seq<Hash>, rank: Hash -> nat, c0: Cache, c: Cache, stop: Hash, m: nat, batch: set<Hash>)
    requires CacheOk(kids, rank, c0) && Writing(c0, c, stop, m, batch) && stop != 0
    ensures m < |c0.list| && stop in c.st.dirties && stop == c0.list[m] && c.st == c0.st
    ensures Writing(c0, c, c.st.dirties[stop].flushNext, m + 1, batch + {stop})
  {
    var written :| WritingFrom(c0, c, stop, m, batch, written);
    assert NextOk(c.st.dirties, c.list, m);
    BatchGrows(c.list, written, m);
    assert WritingFrom(c0, c, c.st.dirties[stop].flushNext, m + 1, batch + {stop}, written);
  }

  lemma WritingFlush(kids: Hash -> seq<Hash>, rank: Hash -> nat, c0: Cache, c: Cache, stop: Hash, m: nat, batch: set<Hash>)
    requires CacheOk(kids, rank, c0) && Writing(c0, c, stop, m, batch)
    ensures CacheOk(kids, rank, WriteTo(c, batch)) && Writing(c0, WriteTo(c, batch), stop, m, {})
  {
    var written :| WritingFrom(c0, c, stop, m, batch, written);
    FlushPrefix(c0.list, written, m);
    PrefixClosed(kids, c0.list, c0.disk, m);
    WriteOk(kids, rank, c0, Elems(c0.list[..m]));
    WritingWrites(c0, c, stop, m, batch, written);
  }

  lemma WritingWrites(c0: Cache, c: Cache, stop: Hash, m: nat, batch: set<Hash>, written: nat)
    requires WritingFrom(c0, c, stop, m, batch, written) && Elems(c0.list[..m]) == Elems(c0.list[..written]) + batch
    ensures WriteTo(c, batch) == WriteTo(c0, Elems(c0.list[..m])) && Writing(c0, WriteTo(c, batch), stop, m, {})
  {
    assert WritingFrom(c0, WriteTo(c, batch), stop, m, {}, m);
  }

  /** The size that `Cap` goes by, for the nodes from `m` on. */
  ghost function Rest(c: Cache, m: nat, nodeSize: nat): int
    requires m <= |c.list| && forall h | h in c.list :: h in c.st.dirties
  {
    SumSize(c.st.dirties, c.list[m..]) + Overhead(|c.list| - m, nodeSize)
  }

  /** What the cache entries of `n` nodes take. */
  function Overhead(n: nat, nodeSize: nat): nat {
    if n == 0 then 0 else Overhead(n - 1, nodeSize) + nodeSize
  }

  lemma {:induction false} OverheadIs(n: nat, nodeSize: nat)
    ensures Overhead(n, nodeSize) == n * nodeSize
  {
    if n > 0 {
      OverheadIs(n - 1, nodeSize);
      assert n * nodeSize == (n - 1) * nodeSize + nodeSize;
    }
  }

  /** The size of the cache as `Cap` computes it: nodes, their entries, and references beyond those of the meta root. */
  ghost function Footprint(c: Cache, nodeSize: nat): int {
    c.st.size + Overhead(|c.st.dirties|, nodeSize) + c.metaSize - |c.meta| * 34
  }

  lemma RestStep(c: Cache, m: nat, nodeSize: nat)
    requires m < |c.list| && forall h | h in c.list :: h in c.st.dirties
    ensures Rest(c, m + 1, nodeSize) == Rest(c, m, nodeSize) - (32 + c.st.dirties[c.list[m]].size + nodeSize)
  {
    SumWithout(c.st.dirties, c.list[m..], 0);
    assert Without(c.list[m..], 0) == c.list[m + 1..];
  }

  lemma {:induction false} DistinctSize(list: seq<Hash>, keys: set<Hash>)
    requires Distinct(list) && forall h :: h in keys <==> h in list
    ensures |keys| == |list|
  {
    if list == [] {
      assert keys == {};
    } else {
      var rest, last := list[..|list| - 1], list[|list| - 1];
      DistinctSize(rest, keys - {last});
      assert last in keys;
    }
  }

  lemma SizeOf(kids: Hash -> seq<Hash>, rank: Hash -> nat, c: Cache)
    requires CacheOk(kids, rank, c)
    ensures |c.st.dirties| == |c.list| && c.st.size == SumSize(c.st.dirties, c.list) && c.metaSize == |c.meta| * 34
  {
    DistinctSize(c.list, c.st.dirties.Keys);
    assert |c.st.dirties| == |c.st.dirties.Keys|;
  }

  lemma BatchGrows(list: seq<Hash>, written: nat, m: nat)
    requires written <= m < |list|
    ensures Elems(list[written..m + 1]) == Elems(list[written..m]) + {list[m]}
  {
    assert list[written..m + 1] == list[written..m] + [list[m]];
  }

  lemma FlushPrefix(list: seq<Hash>, written: nat, m: nat)
    requires written <= m <= |list|
    ensures Elems(list[..m]) == Elems(list[..written]) + Elems(list[written..m])
    ensures Elems(list[m..m]) == {}
  {
    assert list[..m] == list[..written] + list[written..m];
  }
}
