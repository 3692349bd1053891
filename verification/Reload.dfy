/**
 `Database.Update` of trie/database.go takes over a node set, and `New` at the returned root then
 finds the committed trie.
 */
module Reload {
  import opened Bytes
  import opened HexEncoding
  import opened Rlp
  import opened Nodes
  import opened Tree
  import opened TreeEncoding
  import opened Store
  import opened Tracer
  import opened Trie
  import opened AccessList
  import opened Committer
  import opened Paths

  // ---------- The order of insertion ----------

  method LastPath(paths: set<Hex>) returns (last: Hex)
    requires paths != {}
    ensures last in paths && forall p | p in paths && p != last :: PathLess(p, last)
  {
    last :| last in paths;
    var rest := paths - {last};
    while rest != {}
      invariant rest <= paths && last in paths && last !in rest
      invariant forall p | p in paths - rest && p != last :: PathLess(p, last)
    {
      var p :| p in rest;
      rest := rest - {p};
      PathLessTotal(p, last);
      if PathLess(last, p) {
        forall q | q in paths - rest && q != p ensures PathLess(q, p) {
          if q != last {
            PathLessTrans(q, last, p);
          }
        }
        last := p;
      }
    }
  }

  /** The paths of `forEachWithOrder`: sorted backwards, so that a node comes after everything below it. */
  method BottomUp(paths: set<Hex>) returns (order: seq<Hex>)
    ensures forall p :: p in order <==> p in paths
    ensures forall i, j | 0 <= i < j < |order| :: PathLess(order[j], order[i])
  {
    order := [];
    var rest := paths;
    while rest != {}
      invariant rest <= paths && forall p :: p in order <==> p in paths - rest
      invariant forall i, j | 0 <= i < j < |order| :: PathLess(order[j], order[i])
      invariant forall i, p | 0 <= i < |order| && p in rest :: PathLess(p, order[i])
    {
      var last := LastPath(rest);
      order := order + [last];
      rest := rest - {last};
    }
  }

  // ---------- Update ----------

  /** What `insert` and `isDeleted` let through. */
  ghost predicate Updated(dirties: map<Hash32, Collapsed>, nodes: map<Hex, MemoryNode>, out: map<Hash32, Collapsed>) {
    && (forall h | h in dirties :: h in out && out[h] == dirties[h])
    && (forall p | p in nodes && nodes[p].hash != ZERO_HASH :: nodes[p].hash in out)
    && (forall h | h in out && h !in dirties :: h != ZERO_HASH && MemoryNode(h, out[h]) in nodes.Values)
  }

  /** The cache after inserting the live entries at these paths, in this order; a cached node stays. */
  function Inserted(dirties: map<Hash32, Collapsed>, nodes: map<Hex, MemoryNode>, order: seq<Hex>): map<Hash32, Collapsed> {
    if order == [] then
      dirties
    else
      var before := Inserted(dirties, nodes, order[..|order| - 1]);
      var p := order[|order| - 1];
      if p in nodes then WithNode(before, nodes[p]) else before
  }

  /** `insert`, for an entry that is not a deletion. */
  function WithNode(dirties: map<Hash32, Collapsed>, n: MemoryNode): map<Hash32, Collapsed> {
    if n.hash != ZERO_HASH && n.hash !in dirties then dirties[n.hash := n.node] else dirties
  }

  lemma {:induction false} InsertedKeeps(dirties: map<Hash32, Collapsed>, nodes: map<Hex, MemoryNode>, order: seq<Hex>)
    ensures var out := Inserted(dirties, nodes, order);
            && (forall h | h in dirties :: h in out && out[h] == dirties[h])
            && (forall p | p in order && p in nodes && nodes[p].hash != ZERO_HASH :: nodes[p].hash in out)
            && (forall h | h in out && h !in dirties :: h != ZERO_HASH && MemoryNode(h, out[h]) in nodes.Values)
  {
    if order != [] {
      InsertedKeeps(dirties, nodes, order[..|order| - 1]);
      var p := order[|order| - 1];
      assert p in nodes ==> p in nodes.Keys;
    }
  }

  lemma InsertedNext(dirties: map<Hash32, Collapsed>, nodes: map<Hex, MemoryNode>, order: seq<Hex>, i: nat)
    requires i < |order| && order[i] in nodes
    ensures Inserted(dirties, nodes, order[..i + 1]) == WithNode(Inserted(dirties, nodes, order[..i]), nodes[order[i]])
  {
    assert order[..i + 1][..i] == order[..i];
  }

  /** `Update`, and the order of the insertions. */
  method Update(dirties: map<Hash32, Collapsed>, nodes: map<Hex, MemoryNode>)
    returns (out: map<Hash32, Collapsed>, ghost order: seq<Hex>)
    ensures Updated(dirties, nodes, out) && out == Inserted(dirties, nodes, order)
    ensures (forall p :: p in order <==> p in nodes) && forall i, j | 0 <= i < j < |order| :: PathLess(order[j], order[i])
  {
    out := dirties;
    var paths := BottomUp(nodes.Keys);
    order := paths;
    for i := 0 to |paths|
      invariant out == Inserted(dirties, nodes, paths[..i])
    {
      assert paths[i] in paths;
      InsertedNext(dirties, nodes, paths, i);
      var n := nodes[paths[i]];
      if n.hash != ZERO_HASH && n.hash !in out {
        out := out[n.hash := n.node];
      }
    }
    assert paths[..|paths|] == paths;
    InsertedKeeps(dirties, nodes, paths);
  }

  // ---------- Children before parents ----------

  /** `forGatherChildren`. */
  function Gathered(c: Collapsed): set<Hash32> {
    match c
    case HashRef(h) => {h}
    case RawShort(_, v) => Gathered(v)
    case RawFull(cs) => set i, h | 0 <= i < 16 && i < |cs| && h in Gathered(cs[i]) :: h
    case _ => {}
  }

  lemma {:induction false} EncodeAllHolds(cs: seq<Collapsed>, i: nat)
    requires i < |cs|
    ensures |Encode(cs[i])| <= |EncodeAll(cs)|
  {
    if i > 0 {
      EncodeAllHolds(cs[1..], i - 1);
    }
  }

  /** Nothing that is short enough to be embedded refers to a node by its hash. */
  lemma {:induction false} SmallGathersNothing(c: Collapsed, h: Hash32)
    requires |Encode(c)| < 32
    ensures h !in Gathered(c)
    decreases c
  {
    assert c.HashRef? ==> |Encode(c)| == 33;
    match c
    case RawShort(_, v) => SmallGathersNothing(v, h);
    case RawFull(cs) =>
      forall i | 0 <= i < |cs| ensures h !in Gathered(cs[i]) {
        EncodeAllHolds(cs, i);
        SmallGathersNothing(cs[i], h);
      }
    case _ =>
  }

  /** The hash can be read already, or is that of an entry further down. */
  ghost predicate Provided(nodes: map<Hex, MemoryNode>, db: Store, path: Hex, h: Hash32) {
    h in db || exists q :: path < q && q in nodes && nodes[q].hash == h
  }

  lemma ReferenceProvided(nodes: map<Hex, MemoryNode>, db: Store, c: Tree, path: Hex, step: Hex, h: Hash32)
    requires Minimal(c) && CoveredRef(nodes, db, c, path + step) && step != [] && h in Gathered(RefTo(c))
    ensures Provided(nodes, db, path, h)
  {
    if IsInner(c) && |Enc(c)| >= 32 {
      assert h == Keccak(Enc(c));
      if !Linked(db, c) {
        assert path < path + step && Entry(nodes, path + step) == Some(Record(c));
      }
    } else if IsInner(c) {
      SmallGathersNothing(RefTo(c), h);
    }
  }

  lemma ChildrenProvided(nodes: map<Hex, MemoryNode>, db: Store, t: Tree, path: Hex, h: Hash32)
    requires Minimal(t) && IsInner(t) && Covered(nodes, db, t, path) && h in Gathered(Collapse(t))
    ensures Provided(nodes, db, path, h)
  {
    match t
    case Ext(k, c) => ReferenceProvided(nodes, db, c, path, k, h);
    case Branch(cs) =>
      var rs := RefsTo(cs);
      var i: HexDigit :| i < |rs| && h in Gathered(rs[i]);
      ReferenceProvided(nodes, db, cs[i], path, [i], h);
  }

  lemma BelowIsCovered(nodes: map<Hex, MemoryNode>, db: Store, t: Tree, path: Hex)
    requires Minimal(t) && (Below(db, t) || CoveredRef(nodes, db, t, path))
    ensures Covered(nodes, db, t, path)
  {
    if Below(db, t) {
      match t
      case Ext(k, c) => assert CoveredRef(nodes, db, c, path + k);
      case Branch(cs) =>
        forall i | 0 <= i < 17 ensures CoveredRef(nodes, db, cs[i], path + [i]) {
          assert Linked(db, cs[i]);
        }
      case _ =>
    }
  }

  /** Coverage reaches every node. */
  lemma {:induction false} CoveredAt(nodes: map<Hex, MemoryNode>, db: Store, t: Tree, path: Hex, p: Hex)
    requires Minimal(t) && Covered(nodes, db, t, path) && IsInner(NodeAt(t, p))
    ensures Covered(nodes, db, NodeAt(t, p), path + p)
    decreases t, 0
  {
    if p == [] {
      assert path + p == path;
    } else {
      match t
      case Ext(k, c) => CoveredBelow(nodes, db, c, path, k, p);
      case Branch(cs) => CoveredBelow(nodes, db, cs[p[0]], path, [p[0]], p);
    }
  }

  lemma {:induction false} CoveredBelow(nodes: map<Hex, MemoryNode>, db: Store, c: Tree, path: Hex, step: Hex, p: Hex)
    requires Minimal(c) && CoveredRef(nodes, db, c, path + step) && step <= p && IsInner(NodeAt(c, p[|step|..]))
    ensures Covered(nodes, db, NodeAt(c, p[|step|..]), path + p)
    decreases c, 1
  {
    BelowIsCovered(nodes, db, c, path + step);
    CoveredAt(nodes, db, c, path + step, p[|step|..]);
    assert path + step + p[|step|..] == path + p;
  }

  /**
   When `Update` comes to a node, every child that it refers to by hash can be read already or has
   just been inserted: the flush list never gets a parent before its children.
   */
  lemma ChildrenInsertedFirst(nodes: map<Hex, MemoryNode>, access: map<Hex, Bytes>, t: Tree, db: Store,
                              order: seq<Hex>, i: nat, h: Hash32)
    requires Minimal(t) && IsInner(t) && Describes(nodes, access, t, db)
    requires (forall p :: p in order <==> p in nodes)
    requires forall j, k | 0 <= j < k < |order| :: PathLess(order[k], order[j])
    requires i < |order| && nodes[order[i]].hash != ZERO_HASH && h in Gathered(nodes[order[i]].node)
    ensures h in db || exists j :: 0 <= j < i && nodes[order[j]].hash == h
  {
    var p := order[i];
    assert p in order;
    EntryProvided(nodes, access, t, db, p, h);
    if h !in db {
      var q :| p < q && q in nodes && nodes[q].hash == h;
      assert q in order;
      var j :| 0 <= j < |order| && order[j] == q;
      PrefixIsLess(p, q);
      PathLessTotal(p, q);
    }
  }

  lemma EntryProvided(nodes: map<Hex, MemoryNode>, access: map<Hex, Bytes>, t: Tree, db: Store, p: Hex, h: Hash32)
    requires Minimal(t) && IsInner(t) && Describes(nodes, access, t, db)
    requires p in nodes && nodes[p].hash != ZERO_HASH && h in Gathered(nodes[p].node)
    ensures Provided(nodes, db, p, h)
  {
    assert EntryOk(nodes[p], t, p, true, p in access);
    RootIsCovered(nodes, db, t);
    CoveredAt(nodes, db, t, [], p);
    assert [] + p == p;
    ChildrenProvided(nodes, db, NodeAt(t, p), p, h);
  }

  lemma RootIsCovered(nodes: map<Hex, MemoryNode>, db: Store, t: Tree)
    requires Minimal(t) && CoveredRoot(nodes, db, t, [])
    ensures Covered(nodes, db, t, [])
  {
    if Saved(db, t) {
      BelowIsCovered(nodes, db, t, []);
    }
  }

  // ---------- The reader ----------

  predicate Readable(dirties: map<Hash32, Collapsed>) {
    forall h | h in dirties :: |Encode(dirties[h])| < SIZE_LIMIT
  }

  /** `Database.Node`: dirty nodes first, then the disk. */
  function View(dirties: map<Hash32, Collapsed>, disk: Store): Store
    requires Readable(dirties)
  {
    map h | h in dirties.Keys + disk.Keys :: if h in dirties then Encode(dirties[h]) else disk[h]
  }

  /** Keccak behaves on `blobs`: no collision, and no hash that reads as a deletion. */
  ghost predicate Sound(blobs: iset<Bytes>) {
    && (forall b | b in blobs :: |b| < SIZE_LIMIT && Keccak(b) != ZERO_HASH)
    && (forall a, b | a in blobs && b in blobs && Keccak(a) == Keccak(b) :: a == b)
  }

  /** Every entry is one of `blobs`, under its hash. */
  ghost predicate Addressed(db: Store, blobs: iset<Bytes>) {
    forall h | h in db :: db[h] in blobs && Keccak(db[h]) == h
  }

  /** The encoding of every node of `t` is one of `blobs`. */
  ghost predicate Within(t: Tree, blobs: iset<Bytes>)
    requires Minimal(t)
  {
    match t
    case Empty => true
    case Leaf(_) => true
    case Ext(_, c) => Enc(t) in blobs && Within(c, blobs)
    case Branch(cs) => Enc(t) in blobs && forall i | 0 <= i < 17 :: Within(cs[i], blobs)
  }

  lemma {:induction false} WithinAt(t: Tree, path: Hex, blobs: iset<Bytes>)
    requires Minimal(t) && Within(t, blobs) && IsInner(NodeAt(t, path))
    ensures Enc(NodeAt(t, path)) in blobs
  {
    if path != [] {
      match t
      case Ext(k, c) => WithinAt(c, path[|k|..], blobs);
      case Branch(cs) => WithinAt(cs[path[0]], path[1..], blobs);
    }
  }

  ghost predicate Extends(db: Store, db': Store) {
    forall h | h in db :: h in db' && db'[h] == db[h]
  }

  /** Every node of the set can be read under its hash. */
  ghost predicate Carries(db: Store, nodes: map<Hex, MemoryNode>) {
    forall p | p in nodes && nodes[p].hash != ZERO_HASH ::
      nodes[p].hash in db && db[nodes[p].hash] == Encode(nodes[p].node)
  }

  lemma {:induction false} LinkedGrows(db: Store, db': Store, t: Tree)
    requires Minimal(t) && Linked(db, t) && Extends(db, db')
    ensures Linked(db', t)
    decreases t, 1
  {
    BelowGrows(db, db', t);
  }

  lemma {:induction false} BelowGrows(db: Store, db': Store, t: Tree)
    requires Minimal(t) && Below(db, t) && Extends(db, db')
    ensures Below(db', t)
    decreases t, 0
  {
    match t
    case Ext(_, c) => LinkedGrows(db, db', c);
    case Branch(cs) =>
      forall i | 0 <= i < 17 ensures Linked(db', cs[i]) {
        LinkedGrows(db, db', cs[i]);
      }
    case _ =>
  }

  lemma {:induction false} CoveredIsLinked(nodes: map<Hex, MemoryNode>, db: Store, db': Store, t: Tree, path: Hex,
                                           blobs: iset<Bytes>)
    requires Minimal(t) && CoveredRef(nodes, db, t, path) && Within(t, blobs) && Sound(blobs)
    requires Extends(db, db') && Carries(db', nodes)
    ensures Linked(db', t)
    decreases t, 1
  {
    if Linked(db, t) {
      LinkedGrows(db, db', t);
    } else {
      CoveredIsBelow(nodes, db, db', t, path, blobs);
      if IsInner(t) && |Enc(t)| >= 32 {
        RecordCarried(nodes, db', t, path, blobs);
      }
    }
  }

  lemma RecordCarried(nodes: map<Hex, MemoryNode>, db: Store, t: Tree, path: Hex, blobs: iset<Bytes>)
    requires Minimal(t) && IsInner(t) && Within(t, blobs) && Sound(blobs)
    requires Entry(nodes, path) == Some(Record(t)) && Carries(db, nodes)
    ensures Has(db, t)
  {}

  lemma {:induction false} CoveredIsBelow(nodes: map<Hex, MemoryNode>, db: Store, db': Store, t: Tree, path: Hex,
                                          blobs: iset<Bytes>)
    requires Minimal(t) && Covered(nodes, db, t, path) && Within(t, blobs) && Sound(blobs)
    requires Extends(db, db') && Carries(db', nodes)
    ensures Below(db', t)
    decreases t, 0
  {
    match t
    case Ext(k, c) => CoveredIsLinked(nodes, db, db', c, path + k, blobs);
    case Branch(cs) =>
      forall i | 0 <= i < 17 ensures Linked(db', cs[i]) {
        CoveredIsLinked(nodes, db, db', cs[i], path + [i], blobs);
      }
    case _ =>
  }

  lemma CoveredRootIsSaved(nodes: map<Hex, MemoryNode>, db: Store, db': Store, t: Tree, blobs: iset<Bytes>)
    requires Minimal(t) && IsInner(t) && CoveredRoot(nodes, db, t, []) && Within(t, blobs) && Sound(blobs)
    requires Extends(db, db') && Carries(db', nodes)
    ensures Saved(db', t)
  {
    if Saved(db, t) {
      BelowGrows(db, db', t);
    } else {
      CoveredIsBelow(nodes, db, db', t, [], blobs);
      RecordCarried(nodes, db', t, [], blobs);
    }
  }

  // ---------- Commit and reload ----------

  /** The entries of a node set are nodes among `blobs`, each under its hash. */
  ghost predicate AllIn(nodes: map<Hex, MemoryNode>, blobs: iset<Bytes>) {
    forall p | p in nodes && nodes[p].hash != ZERO_HASH ::
      Encode(nodes[p].node) in blobs && Keccak(Encode(nodes[p].node)) == nodes[p].hash
  }

  lemma DescribesAllIn(nodes: map<Hex, MemoryNode>, access: map<Hex, Bytes>, t: Tree, db: Store, blobs: iset<Bytes>)
    requires Minimal(t) && Describes(nodes, access, t, db) && Within(t, blobs)
    ensures AllIn(nodes, blobs)
  {
    forall p | p in nodes && nodes[p].hash != ZERO_HASH
      ensures Encode(nodes[p].node) in blobs && Keccak(Encode(nodes[p].node)) == nodes[p].hash
    {
      assert EntryOk(nodes[p], t, p, true, p in access);
      WithinAt(t, p, blobs);
    }
  }

  lemma NewEntries(dirties: map<Hash32, Collapsed>, nodes: map<Hex, MemoryNode>, out: map<Hash32, Collapsed>,
                   blobs: iset<Bytes>, h: Hash32)
    requires Updated(dirties, nodes, out) && AllIn(nodes, blobs) && h in out && h !in dirties
    ensures Encode(out[h]) in blobs && Keccak(Encode(out[h])) == h
  {
    var p :| p in nodes && nodes[p] == MemoryNode(h, out[h]);
  }

  /** `Update` only adds to what can be read, and adds the whole node set. */
  lemma UpdateExtends(dirties: map<Hash32, Collapsed>, disk: Store, nodes: map<Hex, MemoryNode>,
                      out: map<Hash32, Collapsed>, blobs: iset<Bytes>)
    requires Sound(blobs) && Readable(dirties) && Addressed(View(dirties, disk), blobs)
    requires Updated(dirties, nodes, out) && AllIn(nodes, blobs)
    ensures Readable(out) && Addressed(View(out, disk), blobs)
    ensures Extends(View(dirties, disk), View(out, disk)) && Carries(View(out, disk), nodes)
  {
    var db := View(dirties, disk);
    forall h | h in out ensures Encode(out[h]) in blobs && Keccak(Encode(out[h])) == h {
      if h in dirties {
        assert h in db && db[h] == Encode(out[h]);
      } else {
        NewEntries(dirties, nodes, out, blobs, h);
      }
    }
    var db' := View(out, disk);
    forall h | h in db' ensures db'[h] in blobs && Keccak(db'[h]) == h {
      if h !in out {
        assert h in db && db[h] == db'[h];
      }
    }
  }

  /** The committed trie can be read from the updated database. */
  lemma CommitIsSaved(dirties: map<Hash32, Collapsed>, disk: Store, nodes: map<Hex, MemoryNode>, out: map<Hash32, Collapsed>,
                      access: map<Hex, Bytes>, t: Tree, blobs: iset<Bytes>)
    requires Minimal(t) && IsInner(t) && Within(t, blobs) && Sound(blobs)
    requires Readable(dirties) && Addressed(View(dirties, disk), blobs)
    requires Describes(nodes, access, t, View(dirties, disk)) && Updated(dirties, nodes, out)
    ensures Readable(out) && Addressed(View(out, disk), blobs) && Saved(View(out, disk), t)
  {
    DescribesAllIn(nodes, access, t, View(dirties, disk), blobs);
    UpdateExtends(dirties, disk, nodes, out, blobs);
    CoveredRootIsSaved(nodes, View(dirties, disk), View(out, disk), t, blobs);
  }

  /** A root hash that `New` takes for a real trie exactly when it is one. */
  ghost predicate ProperRoot(t: Tree)
    requires Minimal(t)
  {
    IsInner(t) ==> RootHash(t) != EMPTY_ROOT
  }

  /** What a commit hands to `Update`. */
  ghost predicate CommitOf(nodes: NodeSet?, t: Tree, db: Store)
    requires Minimal(t)
    reads nodes
  {
    if nodes == null then IsInner(t) && Saved(db, t) else Describes(nodes.nodes, nodes.accessList, t, db)
  }

  method TakeOver(nodes: NodeSet?, dirties: map<Hash32, Collapsed>, disk: Store, ghost t: Tree, ghost blobs: iset<Bytes>)
    returns (out: map<Hash32, Collapsed>)
    requires Readable(dirties) && Minimal(t) && !t.Leaf? && CommitOf(nodes, t, View(dirties, disk))
    requires Sound(blobs) && Addressed(View(dirties, disk), blobs) && Within(t, blobs)
    ensures Readable(out) && Addressed(View(out, disk), blobs)
    ensures IsInner(t) ==> Saved(View(out, disk), t)
  {
    if nodes == null {
      return dirties;
    }
    ghost var order;
    out, order := Update(dirties, nodes.nodes);
    DescribesAllIn(nodes.nodes, nodes.accessList, t, View(dirties, disk), blobs);
    UpdateExtends(dirties, disk, nodes.nodes, out, blobs);
    if IsInner(t) {
      CommitIsSaved(dirties, disk, nodes.nodes, out, nodes.accessList, t, blobs);
    }
  }

  method GetFrom(rootHash: Hash32, dirties: map<Hash32, Collapsed>, disk: Store, key: Bytes, ghost t: Tree,
                 ghost blobs: iset<Bytes>)
    returns (value: Option<Bytes>)
    requires Minimal(t) && !t.Leaf? && rootHash == RootHash(t) && ProperRoot(t)
    requires Readable(dirties) && Within(t, blobs) && Sound(blobs)
    requires IsInner(t) ==> Saved(View(dirties, disk), t)
    ensures value == Lookup(t, KeybytesToHex(key))
  {
    var trie := new Trie(rootHash, View(dirties, disk), t);
    value := trie.Get(key);
  }

  /** Commit, hand the node set to the database, open the trie at the new root: it answers as before. */
  method CommitAndReload(trie: Trie, dirties: map<Hash32, Collapsed>, disk: Store, key: Bytes, ghost blobs: iset<Bytes>)
    returns (before: Option<Bytes>, after: Option<Bytes>)
    requires trie.Valid() && Readable(dirties) && trie.db == View(dirties, disk)
    requires Sound(blobs) && Addressed(trie.db, blobs) && Within(trie.tree, blobs) && ProperRoot(trie.tree)
    modifies trie, trie.tracer
    ensures before == after
  {
    ghost var t := trie.tree;
    before := trie.Get(key);
    var rootHash, nodes := CommitTrie(trie);
    var out := TakeOver(nodes, dirties, disk, t, blobs);
    after := GetFrom(rootHash, out, disk, key, t, blobs);
  }
}
