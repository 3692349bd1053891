/** trie/sync.go: a whole download, driven by whoever answers the requests. */
module Download {
  import opened Bytes
  import opened HexEncoding
  import opened Rlp
  import opened Nodes
  import opened Tree
  import opened TreeEncoding
  import opened Store
  import opened AccessList
  import opened Committer
  import opened Reload
  import opened SyncState
  import opened SyncProgress
  import Sync
  import Traversal

  // ---------- A trie as a source ----------

  /** `src` has exactly the nodes of `t` that are stored on their own, each under its path. */
  ghost predicate SourceOf(src: Source, t: Tree) {
    && Minimal(t)
    && (forall p :: p in src <==> StoredAt(t, p, true))
    && (forall p | p in src :: src[p].blob == Enc(NodeAt(t, p)) && src[p].hash == Keccak(Enc(NodeAt(t, p))))
  }

  /** The paths of all nodes: finitely many. */
  ghost function AllPaths(t: Tree): set<Hex>
    requires Minimal(t)
  {
    set v | v in Traversal.PreOrder(t, []) :: v.path
  }

  /** Every trie with nodes of less than 2^64 bytes is a source. */
  ghost function TrieSource(t: Tree, blobs: iset<Bytes>): (src: Source)
    requires Minimal(t) && Sound(blobs) && Within(t, blobs)
    ensures SourceOf(src, t)
  {
    AllPathsHas(t);
    AllWithin(t, blobs);
    map p | p in AllPaths(t) && StoredAt(t, p, true) :: Offer(Keccak(Enc(NodeAt(t, p))), Enc(NodeAt(t, p)))
  }

  lemma AllWithin(t: Tree, blobs: iset<Bytes>)
    requires Minimal(t) && Within(t, blobs)
    ensures forall p | StoredAt(t, p, true) :: Enc(NodeAt(t, p)) in blobs
  {
    forall p | StoredAt(t, p, true) ensures Enc(NodeAt(t, p)) in blobs {
      WithinAt(t, p, blobs);
    }
  }

  lemma AllPathsHas(t: Tree)
    requires Minimal(t)
    ensures forall p | StoredAt(t, p, true) :: p in AllPaths(t)
  {
    forall p | StoredAt(t, p, true) ensures p in AllPaths(t) {
      NodeAtPath(t, p);
      Traversal.NodeVisits(t, [], p);
      var s :| Traversal.Visit([] + p, s) in Traversal.PreOrder(t, []);
      assert [] + p == p && Traversal.Visit(p, s).path == p;
    }
  }

  /** A link of a stored node leads to a child that is stored on its own. */
  lemma LinkIsChild(t: Tree, hash: Hash32, l: Link)
    requires Minimal(t) && IsInner(t) && |Enc(t)| < SIZE_LIMIT && Refers(Sync.Decode, hash, Enc(t), l)
    ensures l.step != [] && StoredAt(t, l.step, false) && Keccak(Enc(NodeAt(t, l.step))) == l.hash
  {
    DecodeEnc(Some(hash), t);
    match t
    case Ext(k, c) => ExtLink(k, c, hash, l);
    case Branch(cs) => BranchLink(cs, hash, l);
  }

  /** A child whose reference loads as a hash. */
  lemma HashedChild(c: Tree, hash: Hash32)
    requires Minimal(c) && Expand(None, RefTo(c)) == HashNode(hash)
    ensures StoredAt(c, [], false) && Keccak(Enc(c)) == hash && NodeAt(c, []) == c
  {
    assert RefTo(c) == HashRef(hash);
  }

  lemma ExtLink(k: Hex, c: Tree, hash: Hash32, l: Link)
    requires Minimal(Ext(k, c)) && IsLink(Expand(Some(hash), Collapse(Ext(k, c))), l)
    ensures l.step == k != [] && StoredAt(Ext(k, c), k, false) && Keccak(Enc(NodeAt(Ext(k, c), k))) == l.hash
  {
    CompactRoundTrip(k);
    assert Collapse(Ext(k, c)) == RawShort(HexToCompact(k), RefTo(c));
    HashedChild(c, l.hash);
    assert k[|k|..] == [];
    assert NodeAt(Ext(k, c), k) == NodeAt(c, []);
  }

  lemma BranchLink(cs: seq<Tree>, hash: Hash32, l: Link)
    requires Minimal(Branch(cs)) && IsLink(Expand(Some(hash), Collapse(Branch(cs))), l)
    ensures l.step != [] && StoredAt(Branch(cs), l.step, false) && Keccak(Enc(NodeAt(Branch(cs), l.step))) == l.hash
  {
    assert Collapse(Branch(cs)) == RawFull(RefsTo(cs));
    HashedChild(cs[l.step[0]], l.hash);
    assert l.step[1..] == [];
    assert NodeAt(Branch(cs), l.step) == NodeAt(cs[l.step[0]], []);
  }

  lemma LinkReaches(src: Source, t: Tree, p: Hex, l: Link)
    requires SourceOf(src, t) && p in src && Refers(Sync.Decode, src[p].hash, src[p].blob, l)
    ensures l.step != [] && p + l.step in src && src[p + l.step].hash == l.hash
  {
    LinkIsChild(NodeAt(t, p), src[p].hash, l);
    NodeAtBelow(t, p, l.step);
    assert StoredAt(t, p + l.step, true);
  }

  lemma NodeReaches(src: Source, t: Tree, p: Hex)
    requires SourceOf(src, t) && p in src
    ensures var n := Sync.Decode(src[p].hash, src[p].blob); n.Ok? && Reaches(src, p, n.value)
  {
    DecodeEnc(Some(src[p].hash), NodeAt(t, p));
    forall l | IsLink(Sync.Decode(src[p].hash, src[p].blob).value, l)
      ensures l.step != [] && p + l.step in src && src[p + l.step].hash == l.hash
    {
      LinkReaches(src, t, p, l);
    }
  }

  lemma SourceServes(src: Source, t: Tree)
    requires SourceOf(src, t)
    ensures Serves(Sync.Decode, src)
  {
    forall p | p in src
      ensures Sync.Decode(src[p].hash, src[p].blob).Ok? && Reaches(src, p, Sync.Decode(src[p].hash, src[p].blob).value)
    {
      NodeReaches(src, t, p);
    }
  }

  // ---------- The download ----------

  /** The node of the source at a path that is waited for is accepted. */
  method Answer(s: Sync.Scheduler, path: Hex, src: Source, ghost base: Store, ghost root: Hash32)
    requires s.Sane() && Honest(s.Now(), src, base, root)
    requires path in s.nodeReqs && s.reqs[s.nodeReqs[path]].data.None?
    modifies s
    ensures s.Sane() && Honest(s.Now(), src, base, root) && Todo(s.Now(), src) == Todo(old(s.Now()), src) - 1
  {
    ghost var was, id := s.Now(), s.nodeReqs[path];
    assert Live(was, id) && Agrees(was.reqs[id], src);
    var r, missing := s.ProcessNode(path, src[path].blob);
    assert r == Sync.Done by {
      assert was.codec(src[path].hash, src[path].blob).Ok?;
    }
    HonestStep(was, id, src, missing, base, root);
  }

  method Flush(s: Sync.Scheduler, src: Source, ghost base: Store, ghost root: Hash32)
    requires s.Sane() && Honest(s.Now(), src, base, root)
    modifies s
    ensures s.Sane() && Honest(s.Now(), src, base, root) && Todo(s.Now(), src) == Todo(old(s.Now()), src)
    ensures s.nodes == map[] && s.nodeReqs == old(s.nodeReqs)
  {
    ghost var was := s.Now();
    s.Commit();
    HonestCommit(was, s.database, src, base, root);
  }

  /**
   Request, answer, and write out from time to time, until nothing is pending: the requests may be answered in any
   order.  It ends, with the root and everything below it in the database.
   */
  method Fetch(root: Hash32, database: Store, src: Source) returns (s: Sync.Scheduler)
    requires ChildClosed(Sync.Decode, database) && Serves(Sync.Decode, src) && HasRoot(src, database, root)
    ensures fresh(s) && s.nodeReqs == map[] && (root == EMPTY_ROOT || root in s.database)
    ensures ChildClosed(Sync.Decode, s.database) && Topped(database, s.database, src)
  {
    HonestStart(Sync.Decode, src, database, root);
    s := new Sync.Scheduler(root, database);
    while s.nodeReqs != map[]
      invariant fresh(s) && s.Sane() && Honest(s.Now(), src, database, root)
      decreases Todo(s.Now(), src)
    {
      HonestProgress(s.Now(), src, database, root);
      assert exists path :: path in s.nodeReqs && s.reqs[s.nodeReqs[path]].data.None? by {
        var k: nat :| Live(s.Now(), k) && Waits(s.Now(), k) && Agrees(s.reqs[k], src);
        assert s.reqs[k].path in s.nodeReqs;
      }
      var path :| path in s.nodeReqs && s.reqs[s.nodeReqs[path]].data.None?;
      Answer(s, path, src, database, root);
      var flush: bool := *;
      if flush {
        Flush(s, src, database, root);
      }
    }
    Flush(s, src, database, root);
    KnownOnDisk(s.Now(), root);
  }

  lemma KnownOnDisk(s: State, root: Hash32)
    requires Inv(s) && Wanted(s, root) && s.pending == map[] && s.nodes == map[]
    ensures root == EMPTY_ROOT || root in s.disk
    ensures ChildClosed(s.codec, s.disk)
  {
    forall p ensures !InBatch(s, p, root) {}
  }

  /** A download from peers that have the trie `t` ends with all of `t` in the database. */
  method FetchTrie(database: Store, root: Hash32, src: Source, ghost t: Tree, ghost blobs: iset<Bytes>) returns (s: Sync.Scheduler)
    requires SourceOf(src, t) && IsInner(t) && root == RootHash(t) != EMPTY_ROOT
    requires ChildClosed(Sync.Decode, database) && Sync.Honest(database, t, blobs)
    ensures fresh(s) && s.nodeReqs == map[] && Saved(s.database, t)
  {
    SourceServes(src, t);
    assert StoredAt(t, [], true);
    s := Fetch(root, database, src);
    ToppedHonest(database, s.database, src, t, blobs);
    Sync.ClosedIsSaved(s.database, t, blobs);
  }

  lemma ToppedHonest(base: Store, disk: Store, src: Source, t: Tree, blobs: iset<Bytes>)
    requires SourceOf(src, t) && Sync.Honest(base, t, blobs) && Topped(base, disk, src)
    ensures Sync.Honest(disk, t, blobs)
  {
    AllWithin(t, blobs);
    forall h | h in disk ensures disk[h] in blobs && Keccak(disk[h]) == h {
      if !(h in base && disk[h] == base[h]) {
        var p :| FromSource(src, p, h, disk[h]);
        assert p in src && StoredAt(t, p, true);
      }
    }
  }
}
