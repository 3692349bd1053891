/**
 `Database.Update` of trie/database.go on the reference-counted cache: a committed node set goes into the cache
 in an order that has every child there before its parent.
 */
module CacheUpdate {
  import opened Bytes
  import opened HexEncoding
  import opened Rlp
  import opened Nodes
  import opened Tree
  import opened TreeEncoding
  import opened Store
  import opened Trie
  import opened AccessList
  import opened Committer
  import opened Reload
  import opened Paths
  import TrieCache

  /** Hashes as numbers: the zero hash, and no other, is 0. */
  ghost predicate Numbers(name: Hash32 -> nat) {
    name(ZERO_HASH) == 0 && forall a, b | name(a) == name(b) :: a == b
  }

  ghost predicate Live(nodes: map<Hex, MemoryNode>, p: Hex) {
    p in nodes && nodes[p].hash != ZERO_HASH
  }

  /** The children that the cache sees in a node of the set are those that `forGatherChildren` finds. */
  ghost predicate SeesChildren(kids: nat -> seq<nat>, name: Hash32 -> nat, nodes: map<Hex, MemoryNode>) {
    forall p, k | Live(nodes, p) && k in kids(name(nodes[p].hash)) :: NamesOneOf(name, Gathered(nodes[p].node), k)
  }

  ghost predicate NamesOneOf(name: Hash32 -> nat, hs: set<Hash32>, k: nat) {
    exists h :: h in hs && name(h) == k
  }

  /** No live entry is too large for the 16-bit size arithmetic. */
  ghost predicate Fit(nodes: map<Hex, MemoryNode>, size: MemoryNode -> nat) {
    forall p | Live(nodes, p) :: size(nodes[p]) % 0x1_0000 <= TrieCache.MAX_SIZE
  }

  /** The cache holds the nodes of `dirties`. */
  ghost predicate Mirrors(name: Hash32 -> nat, dirties: map<Hash32, Collapsed>, c: TrieCache.Cache) {
    forall h: Hash32 :: h in dirties <==> name(h) in c.st.dirties
  }

  ghost predicate Has(c: TrieCache.Cache, k: nat) {
    k in c.list || k in c.disk
  }

  /** Whatever could be read can be found in the cache or on disk. */
  ghost predicate HasAll(name: Hash32 -> nat, db: Store, c: TrieCache.Cache) {
    forall h | h in db :: Has(c, name(h))
  }

  /** The entries at the first `i` paths are there. */
  ghost predicate HasFirst(name: Hash32 -> nat, nodes: map<Hex, MemoryNode>, order: seq<Hex>, i: nat, c: TrieCache.Cache)
    requires i <= |order|
  {
    forall j | 0 <= j < i && Live(nodes, order[j]) :: Has(c, name(nodes[order[j]].hash))
  }

  lemma InsertHas(kids: nat -> seq<nat>, rank: nat -> nat, c: TrieCache.Cache, h: nat, size: nat)
    requires TrieCache.CacheOk(kids, rank, c)
    ensures var c' := TrieCache.InsertTo(kids, c, h, size);
            Has(c', h) && (forall k | Has(c, k) :: Has(c', k)) && c'.st.dirties.Keys == c.st.dirties.Keys + {h}
  {
    TrieCache.InsertKeys(kids, c, h, size);
    TrieCache.DirtyIsListed(kids, rank, c, h);
  }

  lemma MirrorStep(name: Hash32 -> nat, dirties: map<Hash32, Collapsed>, c: TrieCache.Cache, n: MemoryNode, c': TrieCache.Cache)
    requires Numbers(name) && Mirrors(name, dirties, c) && n.hash != ZERO_HASH
    requires c'.st.dirties.Keys == c.st.dirties.Keys + {name(n.hash)}
    ensures Mirrors(name, WithNode(dirties, n), c')
  {}

  /** The node set of a commit, and the order in which its entries are inserted. */
  ghost predicate Ordered(nodes: map<Hex, MemoryNode>, access: map<Hex, Bytes>, t: Tree, db: Store, order: seq<Hex>) {
    && Minimal(t) && Describes(nodes, access, t, db)
    && (forall p :: p in order <==> p in nodes) && (forall j, k | 0 <= j < k < |order| :: PathLess(order[k], order[j]))
  }

  lemma LiveIsInner(nodes: map<Hex, MemoryNode>, access: map<Hex, Bytes>, t: Tree, db: Store, p: Hex)
    requires Minimal(t) && Describes(nodes, access, t, db) && Live(nodes, p)
    ensures IsInner(t)
  {
    assert EntryOk(nodes[p], t, p, true, p in access);
  }

  lemma ChildThere(name: Hash32 -> nat, nodes: map<Hex, MemoryNode>, access: map<Hex, Bytes>, t: Tree, db: Store,
                   order: seq<Hex>, i: nat, c: TrieCache.Cache, h: Hash32)
    requires Ordered(nodes, access, t, db, order) && i < |order| && Live(nodes, order[i]) && h in Gathered(nodes[order[i]].node)
    requires h != ZERO_HASH && HasAll(name, db, c) && HasFirst(name, nodes, order, i, c)
    ensures Has(c, name(h))
  {
    LiveIsInner(nodes, access, t, db, order[i]);
    ChildrenInsertedFirst(nodes, access, t, db, order, i, h);
    if h !in db {
      var j :| 0 <= j < i && nodes[order[j]].hash == h;
      assert order[j] in order;
    }
  }

  /** When `Update` comes to an entry, the children are there. */
  lemma ChildrenThere(kids: nat -> seq<nat>, name: Hash32 -> nat, nodes: map<Hex, MemoryNode>, access: map<Hex, Bytes>,
                      t: Tree, db: Store, order: seq<Hex>, i: nat, c: TrieCache.Cache)
    requires Ordered(nodes, access, t, db, order) && i < |order| && Live(nodes, order[i]) && SeesChildren(kids, name, nodes)
    requires name(ZERO_HASH) == 0 && (forall k | k in kids(name(nodes[order[i]].hash)) :: k != 0)
    requires HasAll(name, db, c) && HasFirst(name, nodes, order, i, c)
    ensures forall k | k in kids(name(nodes[order[i]].hash)) :: k in c.list || k in c.disk
  {
    forall k | k in kids(name(nodes[order[i]].hash)) ensures Has(c, k) {
      assert NamesOneOf(name, Gathered(nodes[order[i]].node), k);
      var h :| h in Gathered(nodes[order[i]].node) && name(h) == k;
      ChildThere(name, nodes, access, t, db, order, i, c, h);
    }
  }

  /** The entries at the first `i` paths have been inserted. */
  ghost predicate Updating(name: Hash32 -> nat, nodes: map<Hex, MemoryNode>, db: Store, dirties: map<Hash32, Collapsed>,
                           order: seq<Hex>, i: nat, c: TrieCache.Cache) {
    i <= |order| && HasAll(name, db, c) && HasFirst(name, nodes, order, i, c) && Mirrors(name, Inserted(dirties, nodes, order[..i]), c)
  }

  lemma UpdatingSkip(name: Hash32 -> nat, nodes: map<Hex, MemoryNode>, db: Store, dirties: map<Hash32, Collapsed>,
                     order: seq<Hex>, i: nat, c: TrieCache.Cache)
    requires Updating(name, nodes, db, dirties, order, i, c) && i < |order| && order[i] in nodes && !Live(nodes, order[i])
    ensures Updating(name, nodes, db, dirties, order, i + 1, c)
  {
    InsertedNext(dirties, nodes, order, i);
  }

  lemma UpdatingStep(kids: nat -> seq<nat>, rank: nat -> nat, name: Hash32 -> nat, nodes: map<Hex, MemoryNode>, db: Store,
                     dirties: map<Hash32, Collapsed>, order: seq<Hex>, i: nat, c: TrieCache.Cache, size: nat)
    requires TrieCache.CacheOk(kids, rank, c) && Numbers(name)
    requires Updating(name, nodes, db, dirties, order, i, c) && i < |order| && Live(nodes, order[i])
    ensures Updating(name, nodes, db, dirties, order, i + 1, TrieCache.InsertTo(kids, c, name(nodes[order[i]].hash), size))
  {
    var n := nodes[order[i]];
    var c' := TrieCache.InsertTo(kids, c, name(n.hash), size);
    InsertedNext(dirties, nodes, order, i);
    InsertHas(kids, rank, c, name(n.hash), size);
    MirrorStep(name, Inserted(dirties, nodes, order[..i]), c, n, c');
  }

  /** One round of `Update`. */
  method InsertNext(cache: TrieCache.Database, name: Hash32 -> nat, size: MemoryNode -> nat, nodes: map<Hex, MemoryNode>,
                    paths: seq<Hex>, i: nat, ghost access: map<Hex, Bytes>, ghost t: Tree, ghost db: Store,
                    ghost dirties: map<Hash32, Collapsed>)
    requires cache.Valid() && Numbers(name) && SeesChildren(cache.kids, name, nodes) && Fit(nodes, size)
    requires Ordered(nodes, access, t, db, paths) && i < |paths| && Updating(name, nodes, db, dirties, paths, i, cache.Now())
    modifies cache
    ensures cache.Valid() && Updating(name, nodes, db, dirties, paths, i + 1, cache.Now()) && cache.disk == old(cache.disk)
  {
    assert paths[i] in paths;
    var n := nodes[paths[i]];
    if n.hash == ZERO_HASH {
      UpdatingSkip(name, nodes, db, dirties, paths, i, cache.Now());
    } else {
      assert Live(nodes, paths[i]) && name(n.hash) != 0;
      ChildrenThere(cache.kids, name, nodes, access, t, db, paths, i, cache.Now());
      UpdatingStep(cache.kids, cache.rank, name, nodes, db, dirties, paths, i, cache.Now(), size(n));
      cache.Insert(name(n.hash), size(n));
    }
  }

  /** `Update`: the invariant of the cache survives, and the cache holds what `Reload.Update` says. */
  method Update(cache: TrieCache.Database, name: Hash32 -> nat, size: MemoryNode -> nat, nodes: map<Hex, MemoryNode>,
                ghost access: map<Hex, Bytes>, ghost t: Tree, ghost db: Store, ghost dirties: map<Hash32, Collapsed>)
    returns (ghost out: map<Hash32, Collapsed>)
    requires cache.Valid() && Numbers(name) && SeesChildren(cache.kids, name, nodes) && Fit(nodes, size)
    requires Minimal(t) && Describes(nodes, access, t, db) && HasAll(name, db, cache.Now())
    requires Mirrors(name, dirties, cache.Now())
    modifies cache
    ensures cache.Valid() && HasAll(name, db, cache.Now()) && cache.disk == old(cache.disk)
    ensures Updated(dirties, nodes, out) && Mirrors(name, out, cache.Now())
  {
    var paths := BottomUp(nodes.Keys);
    for i := 0 to |paths|
      invariant cache.Valid() && Updating(name, nodes, db, dirties, paths, i, cache.Now()) && cache.disk == old(cache.disk)
    {
      InsertNext(cache, name, size, nodes, paths, i, access, t, db, dirties);
    }
    assert paths[..|paths|] == paths;
    InsertedKeeps(dirties, nodes, paths);
    out := Inserted(dirties, nodes, paths);
  }
}
