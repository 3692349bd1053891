/**
 Committing a trie: trie/committer.go collects the changed nodes in the node set of trie/nodeset.go,
 trie/database.go takes them over, and the trie can be opened again at the returned root.
 */
module Committer {
  import opened Bytes
  import opened HexEncoding
  import opened Rlp
  import opened Nodes
  import opened Tree
  import opened TreeEncoding
  import opened Store
  import opened Tracer
  import opened AccessList
  import opened Trie
  import Hasher

  /** A node of the node set; the zero hash marks a deletion. */
  datatype MemoryNode = MemoryNode(hash: Hash32, node: Collapsed)

  const DELETED: MemoryNode := MemoryNode(ZERO_HASH, NoNode)

  class NodeSet {
    var nodes: map<Hex, MemoryNode>
    const accessList: map<Hex, Bytes>

    constructor (accessList: map<Hex, Bytes>)
      ensures nodes == map[] && this.accessList == accessList
    {
      nodes, this.accessList := map[], accessList;
    }

    method MarkUpdated(path: Hex, n: MemoryNode)
      modifies this
      ensures nodes == old(nodes)[path := n]
    {
      nodes := nodes[path := n];
    }

    method MarkDeleted(path: Hex)
      modifies this
      ensures nodes == old(nodes)[path := DELETED]
    {
      nodes := nodes[path := DELETED];
    }
  }

  // ---------- What a node set says about a trie ----------

  ghost function Record(t: Tree): MemoryNode
    requires Minimal(t)
  {
    MemoryNode(Keccak(Enc(t)), Collapse(t))
  }

  /** An entry is the node stored at its path, or deletes a node that was read and is stored no more. */
  ghost predicate EntryOk(e: MemoryNode, t: Tree, path: Hex, root: bool, read: bool)
    requires Minimal(t)
  {
    if StoredAt(t, path, root) then e == Record(NodeAt(t, path)) else e == DELETED && read
  }

  function Entry(nodes: map<Hex, MemoryNode>, path: Hex): Option<MemoryNode> {
    if path in nodes then Some(nodes[path]) else None
  }

  /** Everything below `t` that is referenced by hash is in the store, or in the node set. */
  ghost predicate Covered(nodes: map<Hex, MemoryNode>, db: Store, t: Tree, path: Hex)
    requires Minimal(t)
    decreases t, 0
  {
    match t
    case Empty => true
    case Leaf(_) => true
    case Ext(k, c) => CoveredRef(nodes, db, c, path + k)
    case Branch(cs) => forall i | 0 <= i < 17 :: CoveredRef(nodes, db, cs[i], path + [i])
  }

  ghost predicate CoveredRef(nodes: map<Hex, MemoryNode>, db: Store, t: Tree, path: Hex)
    requires Minimal(t)
    decreases t, 1
  {
    || Linked(db, t)
    || (Covered(nodes, db, t, path) && (IsInner(t) && |Enc(t)| >= 32 ==> Entry(nodes, path) == Some(Record(t))))
  }

  ghost predicate CoveredRoot(nodes: map<Hex, MemoryNode>, db: Store, t: Tree, path: Hex)
    requires Minimal(t)
  {
    Saved(db, t) || (Covered(nodes, db, t, path) && Entry(nodes, path) == Some(Record(t)))
  }

  /** The node sets agree on the paths below `path`. */
  ghost predicate SameBelow(before: map<Hex, MemoryNode>, after: map<Hex, MemoryNode>, path: Hex) {
    forall p | path <= p :: Entry(after, p) == Entry(before, p)
  }

  lemma {:induction false} CoveredFrame(before: map<Hex, MemoryNode>, after: map<Hex, MemoryNode>, db: Store, t: Tree, path: Hex)
    requires Minimal(t) && CoveredRef(before, db, t, path) && SameBelow(before, after, path)
    ensures CoveredRef(after, db, t, path)
    decreases t
  {
    if !Linked(db, t) {
      match t
      case Ext(k, c) =>
        CoveredFrame(before, after, db, c, path + k);
      case Branch(cs) =>
        forall i | 0 <= i < 17 ensures CoveredRef(after, db, cs[i], path + [i]) {
          CoveredFrame(before, after, db, cs[i], path + [i]);
        }
      case _ =>
    }
  }

  /** What committing the node at `path` does to the node set. */
  ghost predicate Grown(before: map<Hex, MemoryNode>, after: map<Hex, MemoryNode>, access: map<Hex, Bytes>,
                        t: Tree, path: Hex, root: bool)
    requires Minimal(t)
  {
    && (forall p | !(path <= p) :: Entry(after, p) == Entry(before, p))
    && (forall p | path <= p && Entry(after, p) != Entry(before, p) ::
          p in after && EntryOk(after[p], t, p[|path|..], root, p in access))
  }

  // ---------- What is embedded now ----------

  /** A node that is not stored on its own. */
  ghost predicate EmbeddedAt(t: Tree, q: Hex, root: bool)
    requires Minimal(t)
  {
    IsInner(NodeAt(t, q)) && !StoredAt(t, q, root)
  }

  /** An embedded node whose path was read is deleted there, unless a commit leaves that part alone. */
  ghost predicate SweptAt(n: Node, t: Tree, path: Hex, root: bool, nodes: map<Hex, MemoryNode>, access: map<Hex, Bytes>, q: Hex)
    requires Minimal(t)
  {
    EmbeddedAt(t, q, root) && path + q in access && !Kept(n, q) ==> Entry(nodes, path + q) == Some(DELETED)
  }

  ghost predicate Swept(n: Node, t: Tree, path: Hex, root: bool, nodes: map<Hex, MemoryNode>, access: map<Hex, Bytes>)
    requires Minimal(t)
  {
    forall q {:trigger SweptAt(n, t, path, root, nodes, access, q)} :: SweptAt(n, t, path, root, nodes, access, q)
  }

  lemma SweptFrame(n: Node, t: Tree, path: Hex, root: bool, before: map<Hex, MemoryNode>, after: map<Hex, MemoryNode>,
                   access: map<Hex, Bytes>)
    requires Minimal(t) && Swept(n, t, path, root, before, access) && SameBelow(before, after, path)
    ensures Swept(n, t, path, root, after, access)
  {
    forall q ensures SweptAt(n, t, path, root, after, access, q) {
      assert SweptAt(n, t, path, root, before, access, q) && path <= path + q;
    }
  }

  /** Nothing to sweep: no node, or nothing that a commit changes. */
  lemma SweptBare(n: Node, t: Tree, path: Hex, root: bool, nodes: map<Hex, MemoryNode>, access: map<Hex, Bytes>)
    requires Minimal(t) && (t.Empty? || t.Leaf? || n.HashNode? || ((n.ShortNode? || n.FullNode?) && Clean(n.flags)))
    ensures Swept(n, t, path, root, nodes, access)
  {
    forall q ensures SweptAt(n, t, path, root, nodes, access, q) {}
  }

  /** What storing the node at `path` leaves there. */
  ghost predicate StoredOver(mid: map<Hex, MemoryNode>, after: map<Hex, MemoryNode>, access: map<Hex, Bytes>,
                             t: Tree, path: Hex, root: bool)
    requires Minimal(t)
  {
    && (forall p | p != path :: Entry(after, p) == Entry(mid, p))
    && (!root && |Enc(t)| < 32 && path in access ==> Entry(after, path) == Some(DELETED))
  }

  lemma SweptShort(k: Hex, v: Node, f: Flags, c: Tree, path: Hex, root: bool,
                   mid: map<Hex, MemoryNode>, after: map<Hex, MemoryNode>, access: map<Hex, Bytes>)
    requires Minimal(Ext(k, c)) && Minimal(c) && Swept(v, c, path + k, false, mid, access)
    requires StoredOver(mid, after, access, Ext(k, c), path, root)
    ensures Swept(ShortNode(k, v, f), Ext(k, c), path, root, after, access)
  {
    var n, t := ShortNode(k, v, f), Ext(k, c);
    forall q ensures SweptAt(n, t, path, root, after, access, q) {
      if q == [] {
        assert path + q == path;
      } else if k <= q {
        var r := q[|k|..];
        assert q == k + r && path + q == path + k + r;
        assert SweptAt(v, c, path + k, false, mid, access, r);
      }
    }
  }

  lemma SweptFull(cs: seq<Node>, f: Flags, ts: seq<Tree>, path: Hex, root: bool,
                  mid: map<Hex, MemoryNode>, after: map<Hex, MemoryNode>, access: map<Hex, Bytes>)
    requires Minimal(Branch(ts)) && |cs| == 17 && StoredOver(mid, after, access, Branch(ts), path, root)
    requires forall i | 0 <= i < 17 :: Minimal(ts[i]) && Swept(cs[i], ts[i], path + [i], false, mid, access)
    ensures Swept(FullNode(cs, f), Branch(ts), path, root, after, access)
  {
    forall q ensures SweptAt(FullNode(cs, f), Branch(ts), path, root, after, access, q) {
      if q == [] {
        assert path + q == path;
      } else {
        assert Swept(cs[q[0]], ts[q[0]], path + [q[0]], false, mid, access);
        SweptFullAt(cs, f, ts, path, root, mid, after, access, q);
      }
    }
  }

  lemma SweptFullAt(cs: seq<Node>, f: Flags, ts: seq<Tree>, path: Hex, root: bool,
                    mid: map<Hex, MemoryNode>, after: map<Hex, MemoryNode>, access: map<Hex, Bytes>, q: Hex)
    requires Minimal(Branch(ts)) && |cs| == 17 && q != [] && StoredOver(mid, after, access, Branch(ts), path, root)
    requires SweptAt(cs[q[0]], ts[q[0]], path + [q[0]], false, mid, access, q[1..])
    ensures SweptAt(FullNode(cs, f), Branch(ts), path, root, after, access, q)
  {
    assert q == [q[0]] + q[1..] && path + q == path + [q[0]] + q[1..];
  }

  // ---------- One node ----------

  lemma EntryBelowExt(e: MemoryNode, k: Hex, c: Tree, q: Hex, root: bool, read: bool)
    requires Minimal(Ext(k, c)) && k <= q && EntryOk(e, c, q[|k|..], false, read)
    ensures EntryOk(e, Ext(k, c), q, root, read)
  {}

  lemma EntryBelowBranch(e: MemoryNode, cs: seq<Tree>, q: Hex, root: bool, read: bool)
    requires Minimal(Branch(cs)) && q != [] && EntryOk(e, cs[q[0]], q[1..], false, read)
    ensures EntryOk(e, Branch(cs), q, root, read)
  {}

  lemma GrownBelowExt(before: map<Hex, MemoryNode>, after: map<Hex, MemoryNode>, access: map<Hex, Bytes>, k: Hex,
                      c: Tree, path: Hex, root: bool)
    requires Minimal(Ext(k, c)) && Grown(before, after, access, c, path + k, false)
    ensures Grown(before, after, access, Ext(k, c), path, root) && Entry(after, path) == Entry(before, path)
  {
    forall p | path <= p && Entry(after, p) != Entry(before, p)
      ensures p in after && EntryOk(after[p], Ext(k, c), p[|path|..], root, p in access)
    {
      assert path + k <= p;
      assert p[|path|..][|k|..] == p[|path + k|..];
      EntryBelowExt(after[p], k, c, p[|path|..], root, p in access);
    }
  }

  lemma GrownBelowBranch(before: map<Hex, MemoryNode>, after: map<Hex, MemoryNode>, access: map<Hex, Bytes>,
                         cs: seq<Tree>, i: nat, path: Hex, root: bool)
    requires Minimal(Branch(cs)) && i < 17 && Grown(before, after, access, cs[i], path + [i], false)
    ensures Grown(before, after, access, Branch(cs), path, root) && Entry(after, path) == Entry(before, path)
  {
    forall p | path <= p && Entry(after, p) != Entry(before, p)
      ensures p in after && EntryOk(after[p], Branch(cs), p[|path|..], root, p in access)
    {
      assert path + [i] <= p;
      assert p[|path|..][0] == i && p[|path|..][1..] == p[|path + [i]|..];
      EntryBelowBranch(after[p], cs, p[|path|..], root, p in access);
    }
  }

  lemma GrownTrans(a: map<Hex, MemoryNode>, b: map<Hex, MemoryNode>, c: map<Hex, MemoryNode>,
                   access: map<Hex, Bytes>, t: Tree, path: Hex, root: bool)
    requires Minimal(t) && Grown(a, b, access, t, path, root) && Grown(b, c, access, t, path, root)
    ensures Grown(a, c, access, t, path, root)
  {
    forall p | path <= p && Entry(c, p) != Entry(a, p) ensures p in c && EntryOk(c[p], t, p[|path|..], root, p in access) {
      if Entry(c, p) == Entry(b, p) {
        assert EntryOk(b[p], t, p[|path|..], root, p in access);
      }
    }
  }

  /** The node set and the reference that committing the node at `path` leaves. */
  ghost predicate Committed(before: map<Hex, MemoryNode>, after: map<Hex, MemoryNode>, access: map<Hex, Bytes>,
                            t: Tree, path: Hex, db: Store, root: bool, c: Collapsed)
    requires Minimal(t)
  {
    && Grown(before, after, access, t, path, root)
    && (root ==> CoveredRoot(after, db, t, path) && c == HashRef(Keccak(Enc(t))))
    && (!root ==> CoveredRef(after, db, t, path) && c == RefTo(t))
  }

  lemma CoveredBesides(nodes: map<Hex, MemoryNode>, e: MemoryNode, db: Store, t: Tree, path: Hex)
    requires Minimal(t) && Covered(nodes, db, t, path)
    ensures Covered(nodes[path := e], db, t, path)
  {
    match t
    case Ext(k, c) => CoveredFrame(nodes, nodes[path := e], db, c, path + k);
    case Branch(cs) =>
      forall i | 0 <= i < 17 ensures CoveredRef(nodes[path := e], db, cs[i], path + [i]) {
        CoveredFrame(nodes, nodes[path := e], db, cs[i], path + [i]);
      }
    case _ =>
  }

  lemma GrownAt(nodes: map<Hex, MemoryNode>, e: MemoryNode, access: map<Hex, Bytes>, t: Tree, path: Hex, root: bool)
    requires Minimal(t) && EntryOk(e, t, [], root, path in access)
    ensures Grown(nodes, nodes[path := e], access, t, path, root)
  {
    assert path[|path|..] == [];
  }

  lemma StoreCommits(before: map<Hex, MemoryNode>, mid: map<Hex, MemoryNode>, access: map<Hex, Bytes>, t: Tree,
                     path: Hex, db: Store, root: bool)
    requires Minimal(t) && IsInner(t) && Grown(before, mid, access, t, path, root) && Covered(mid, db, t, path)
    requires root || |Enc(t)| >= 32
    ensures Committed(before, mid[path := Record(t)], access, t, path, db, root, HashRef(Keccak(Enc(t))))
  {
    CoveredBesides(mid, Record(t), db, t, path);
    GrownAt(mid, Record(t), access, t, path, root);
    GrownTrans(before, mid, mid[path := Record(t)], access, t, path, root);
  }

  lemma EmbedCommits(before: map<Hex, MemoryNode>, mid: map<Hex, MemoryNode>, access: map<Hex, Bytes>, t: Tree,
                     path: Hex, db: Store)
    requires Minimal(t) && IsInner(t) && Grown(before, mid, access, t, path, false) && Covered(mid, db, t, path)
    requires |Enc(t)| < 32
    ensures Committed(before, if path in access then mid[path := DELETED] else mid, access, t, path, db, false, Collapse(t))
  {
    if path in access {
      CoveredBesides(mid, DELETED, db, t, path);
      GrownAt(mid, DELETED, access, t, path, false);
      GrownTrans(before, mid, mid[path := DELETED], access, t, path, false);
    }
  }

  /** `store`: a node with a hash goes to the node set, one without stays in its parent. */
  method StoreNode(nodeSet: NodeSet, path: Hex, collapsed: Collapsed, hash: Option<Hash32>,
                   ghost t: Tree, ghost db: Store, ghost root: bool, ghost before: map<Hex, MemoryNode>)
    returns (c: Collapsed)
    requires Minimal(t) && IsInner(t) && collapsed == Collapse(t)
    requires Grown(before, nodeSet.nodes, nodeSet.accessList, t, path, root) && Covered(nodeSet.nodes, db, t, path)
    requires if hash.Some? then HashStandsFor(hash.value, t, root) else !root && |Enc(t)| < 32
    modifies nodeSet
    ensures Committed(before, nodeSet.nodes, nodeSet.accessList, t, path, db, root, c)
    ensures StoredOver(old(nodeSet.nodes), nodeSet.nodes, nodeSet.accessList, t, path, root)
  {
    if hash.None? {
      EmbedCommits(before, nodeSet.nodes, nodeSet.accessList, t, path, db);
      if path in nodeSet.accessList {
        nodeSet.MarkDeleted(path);
      }
      return collapsed;
    }
    StoreCommits(before, nodeSet.nodes, nodeSet.accessList, t, path, db, root);
    nodeSet.MarkUpdated(path, MemoryNode(hash.value, collapsed));
    c := HashRef(hash.value);
  }

  /** `commit` is called on nodes that are hashed already. */
  ghost predicate Ready(n: Node, t: Tree, db: Store, root: bool) {
    Minimal(t) && IsInner(t) && Represents(n, t, db, root) && Hashed(n, t) && (root ==> Hasher.HasHash(n))
  }

  method Commit(nodeSet: NodeSet, path: Hex, n: Node, ghost t: Tree, ghost db: Store, ghost root: bool) returns (c: Collapsed)
    requires Ready(n, t, db, root)
    modifies nodeSet
    ensures Committed(old(nodeSet.nodes), nodeSet.nodes, nodeSet.accessList, t, path, db, root, c)
    ensures Swept(n, t, path, root, nodeSet.nodes, nodeSet.accessList)
    decreases t, 1
  {
    match n
    case HashNode(h) =>
      SweptBare(n, t, path, root, nodeSet.nodes, nodeSet.accessList);
      c := HashRef(h);
    case ShortNode(k, v, f) =>
      if f.hash.Some? && !f.dirty {
        SweptBare(n, t, path, root, nodeSet.nodes, nodeSet.accessList);
        return HashRef(f.hash.value);
      }
      var ref := CommitVal(nodeSet, path + k, v, t.child, db);
      ghost var mid := nodeSet.nodes;
      GrownBelowExt(old(nodeSet.nodes), mid, nodeSet.accessList, k, t.child, path, root);
      c := StoreNode(nodeSet, path, RawShort(HexToCompact(k), ref), f.hash, t, db, root, old(nodeSet.nodes));
      SweptShort(k, v, f, t.child, path, root, mid, nodeSet.nodes, nodeSet.accessList);
    case FullNode(cs, f) =>
      if f.hash.Some? && !f.dirty {
        SweptBare(n, t, path, root, nodeSet.nodes, nodeSet.accessList);
        return HashRef(f.hash.value);
      }
      var refs := CommitChildren(nodeSet, path, cs, t, db, root);
      ghost var mid := nodeSet.nodes;
      c := StoreNode(nodeSet, path, RawFull(refs), f.hash, t, db, root, old(nodeSet.nodes));
      SweptFull(cs, f, t.children, path, root, mid, nodeSet.nodes, nodeSet.accessList);
  }

  /** The child of a short node: only a full node needs committing. */
  method CommitVal(nodeSet: NodeSet, path: Hex, v: Node, ghost t: Tree, ghost db: Store) returns (c: Collapsed)
    requires Minimal(t) && (t.Leaf? || t.Branch?) && Represents(v, t, db, false) && Hashed(v, t)
    modifies nodeSet
    ensures Committed(old(nodeSet.nodes), nodeSet.nodes, nodeSet.accessList, t, path, db, false, c)
    ensures Swept(v, t, path, false, nodeSet.nodes, nodeSet.accessList)
    decreases t, 2
  {
    if !v.FullNode? {
      SweptBare(v, t, path, false, nodeSet.nodes, nodeSet.accessList);
    }
    match v
    case FullNode(_, _) => c := Commit(nodeSet, path, v, t, db, false);
    case HashNode(h) => c := HashRef(h);
    case ValueNode(b) => c := Value(b);
  }

  /** Children `0..i` of a full node are committed. */
  ghost predicate Committing(before: map<Hex, MemoryNode>, now: map<Hex, MemoryNode>, access: map<Hex, Bytes>,
                             t: Tree, path: Hex, db: Store, root: bool, i: nat, refs: seq<Collapsed>)
    requires Minimal(t) && t.Branch?
  {
    && i <= 17 && |refs| == i && Grown(before, now, access, t, path, root)
    && forall j | 0 <= j < i :: refs[j] == RefTo(t.children[j]) && CoveredRef(now, db, t.children[j], path + [j])
  }

  lemma CommittingStep(before: map<Hex, MemoryNode>, now: map<Hex, MemoryNode>, after: map<Hex, MemoryNode>,
                       access: map<Hex, Bytes>,
                       t: Tree, path: Hex, db: Store, root: bool, i: nat, refs: seq<Collapsed>, c: Collapsed)
    requires Minimal(t) && t.Branch? && i < 17 && Committing(before, now, access, t, path, db, root, i, refs)
    requires Committed(now, after, access, t.children[i], path + [i], db, false, c)
    ensures Committing(before, after, access, t, path, db, root, i + 1, refs + [c])
  {
    GrownBelowBranch(now, after, access, t.children, i, path, root);
    GrownTrans(before, now, after, access, t, path, root);
    SiblingsCovered(now, after, t, path, db, i);
  }

  lemma SiblingsCovered(now: map<Hex, MemoryNode>, after: map<Hex, MemoryNode>, t: Tree, path: Hex, db: Store, i: HexDigit)
    requires Minimal(t) && t.Branch? && forall p | !(path + [i] <= p) :: Entry(after, p) == Entry(now, p)
    requires forall j | 0 <= j < i :: CoveredRef(now, db, t.children[j], path + [j])
    ensures forall j | 0 <= j < i :: CoveredRef(after, db, t.children[j], path + [j])
  {
    forall j: HexDigit | j < i ensures CoveredRef(after, db, t.children[j], path + [j]) {
      SiblingsApart(now, after, path, i, j);
      CoveredFrame(now, after, db, t.children[j], path + [j]);
    }
  }

  lemma SiblingsApart(before: map<Hex, MemoryNode>, after: map<Hex, MemoryNode>, path: Hex, i: HexDigit, j: HexDigit)
    requires i != j && forall p | !(path + [i] <= p) :: Entry(after, p) == Entry(before, p)
    ensures SameBelow(before, after, path + [j])
  {
    forall p | path + [j] <= p ensures Entry(after, p) == Entry(before, p) {
      assert p[|path|] == j;
      assert !(path + [i] <= p);
    }
  }

  /** Children `0..i` have been swept. */
  ghost predicate SweptTo(cs: seq<Node>, t: Tree, path: Hex, nodes: map<Hex, MemoryNode>, access: map<Hex, Bytes>, i: nat)
    requires Minimal(t) && t.Branch? && |cs| == 17 && i <= 17
  {
    forall j: HexDigit | j < i :: Swept(cs[j], t.children[j], path + [j], false, nodes, access)
  }

  lemma SweptStep(cs: seq<Node>, t: Tree, path: Hex, now: map<Hex, MemoryNode>, after: map<Hex, MemoryNode>,
                  access: map<Hex, Bytes>, i: HexDigit)
    requires Minimal(t) && t.Branch? && |cs| == 17 && SweptTo(cs, t, path, now, access, i)
    requires forall p | !(path + [i] <= p) :: Entry(after, p) == Entry(now, p)
    requires Swept(cs[i], t.children[i], path + [i], false, after, access)
    ensures SweptTo(cs, t, path, after, access, i + 1)
  {
    forall j: HexDigit | j < i ensures Swept(cs[j], t.children[j], path + [j], false, after, access) {
      SiblingsApart(now, after, path, i, j);
      SweptFrame(cs[j], t.children[j], path + [j], false, now, after, access);
    }
  }

  method CommitChild(nodeSet: NodeSet, path: Hex, child: Node, ghost t: Tree, ghost db: Store) returns (c: Collapsed)
    requires Minimal(t) && !t.Leaf? && Represents(child, t, db, false) && Hashed(child, t)
    modifies nodeSet
    ensures Committed(old(nodeSet.nodes), nodeSet.nodes, nodeSet.accessList, t, path, db, false, c)
    ensures Swept(child, t, path, false, nodeSet.nodes, nodeSet.accessList)
    decreases t, 2
  {
    if child.NilNode? {
      SweptBare(child, t, path, false, nodeSet.nodes, nodeSet.accessList);
      return NoNode;
    }
    if child.HashNode? {
      SweptBare(child, t, path, false, nodeSet.nodes, nodeSet.accessList);
      return HashRef(child.hash);
    }
    c := Commit(nodeSet, path, child, t, db, false);
  }

  method CommitChildren(nodeSet: NodeSet, path: Hex, cs: seq<Node>, ghost t: Tree, ghost db: Store, ghost root: bool)
    returns (refs: seq<Collapsed>)
    requires Minimal(t) && t.Branch? && |cs| == 17
    requires forall i | 0 <= i < 17 :: Represents(cs[i], t.children[i], db, false) && Hashed(cs[i], t.children[i])
    modifies nodeSet
    ensures refs == RefsTo(t.children) && Covered(nodeSet.nodes, db, t, path)
    ensures Grown(old(nodeSet.nodes), nodeSet.nodes, nodeSet.accessList, t, path, root)
    ensures SweptTo(cs, t, path, nodeSet.nodes, nodeSet.accessList, 17)
    decreases t, 0
  {
    refs := [];
    for i := 0 to 16
      invariant Committing(old(nodeSet.nodes), nodeSet.nodes, nodeSet.accessList, t, path, db, root, i, refs)
      invariant SweptTo(cs, t, path, nodeSet.nodes, nodeSet.accessList, i)
    {
      ghost var now := nodeSet.nodes;
      assert Slot(i, t.children[i]);
      var c := CommitChild(nodeSet, path + [i], cs[i], t.children[i], db);
      CommittingStep(old(nodeSet.nodes), now, nodeSet.nodes, nodeSet.accessList, t, path, db, root, i, refs, c);
      SweptStep(cs, t, path, now, nodeSet.nodes, nodeSet.accessList, i);
      refs := refs + [c];
    }
    assert Slot(16, t.children[16]);
    var last := if cs[16].ValueNode? then Value(cs[16].value) else NoNode;
    CommittingStep(old(nodeSet.nodes), nodeSet.nodes, nodeSet.nodes, nodeSet.accessList, t, path, db, root, 16, refs, last);
    SweptBare(cs[16], t.children[16], path + [16], false, nodeSet.nodes, nodeSet.accessList);
    refs := refs + [last];
  }

  // ---------- The trie ----------

  /** `markDeletions`. */
  method MarkDeletions(tracer: Tracer, nodeSet: NodeSet)
    modifies nodeSet
    ensures forall p :: Entry(nodeSet.nodes, p)
                     == if p in tracer.deletes && p in nodeSet.accessList then Some(DELETED) else Entry(old(nodeSet.nodes), p)
  {
    var rest := tracer.deletes;
    while rest != {}
      invariant rest <= tracer.deletes
      invariant forall p :: Entry(nodeSet.nodes, p)
                         == if p in tracer.deletes - rest && p in nodeSet.accessList then Some(DELETED) else Entry(old(nodeSet.nodes), p)
    {
      var path :| path in rest;
      if path in nodeSet.accessList {
        nodeSet.MarkDeleted(path);
      }
      rest := rest - {path};
    }
  }

  /** A node set from which the trie `t` can be loaded again, on top of `db`. */
  ghost predicate Describes(nodes: map<Hex, MemoryNode>, access: map<Hex, Bytes>, t: Tree, db: Store)
    requires Minimal(t)
  {
    && (forall p | p in nodes :: EntryOk(nodes[p], t, p, true, p in access))
    && (IsInner(t) ==> CoveredRoot(nodes, db, t, []))
  }

  /** Paths that were loaded and read, and hold no node any more, are deleted. */
  ghost predicate AllDeleted(nodes: map<Hex, MemoryNode>, access: map<Hex, Bytes>, t: Tree, loaded: iset<Hex>) {
    forall p | p in access && p in loaded && !IsNodePath(t, p) :: Entry(nodes, p) == Some(DELETED)
  }

  ghost predicate OnlyDeleted(nodes: map<Hex, MemoryNode>, access: map<Hex, Bytes>, t: Tree) {
    forall p | p in nodes :: nodes[p] == DELETED && p in access && !IsNodePath(t, p)
  }

  lemma CommittedDescribes(before: map<Hex, MemoryNode>, after: map<Hex, MemoryNode>, access: map<Hex, Bytes>,
                           t: Tree, db: Store, c: Collapsed, loaded: iset<Hex>)
    requires Minimal(t) && Committed(before, after, access, t, [], db, true, c)
    requires OnlyDeleted(before, access, t) && AllDeleted(before, access, t, loaded)
    ensures Describes(after, access, t, db) && AllDeleted(after, access, t, loaded)
  {
    forall p | p in after ensures EntryOk(after[p], t, p, true, p in access) {
      assert [] <= p && p[0..] == p;
      NodeAtPath(t, p);
    }
    forall p | p in before ensures Entry(after, p) == Some(DELETED) {
      assert [] <= p && p[0..] == p;
      NodeAtPath(t, p);
    }
  }

  method NewNodeSet(tracer: Tracer, ghost t: Tree, ghost loaded: iset<Hex>) returns (nodes: NodeSet)
    requires Minimal(t) && Exact(tracer.State(), loaded, NodePaths(t))
    ensures fresh(nodes) && nodes.accessList == tracer.accessList
    ensures OnlyDeleted(nodes.nodes, nodes.accessList, t) && AllDeleted(nodes.nodes, nodes.accessList, t, loaded)
  {
    nodes := new NodeSet(tracer.accessList);
    MarkDeletions(tracer, nodes);
    forall p | p in nodes.nodes ensures nodes.nodes[p] == DELETED && p in nodes.accessList && !IsNodePath(t, p) {
      assert Entry(nodes.nodes, p).Some?;
    }
  }

  method CommitRoot(nodes: NodeSet, root: Node, ghost t: Tree, ghost db: Store, ghost loaded: iset<Hex>) returns (hash: Hash32)
    requires Ready(root, t, db, true)
    requires OnlyDeleted(nodes.nodes, nodes.accessList, t) && AllDeleted(nodes.nodes, nodes.accessList, t, loaded)
    modifies nodes
    ensures hash == RootHash(t) && Swept(root, t, [], true, nodes.nodes, nodes.accessList)
    ensures Describes(nodes.nodes, nodes.accessList, t, db) && AllDeleted(nodes.nodes, nodes.accessList, t, loaded)
  {
    var c := Commit(nodes, [], root, t, db, true);
    CommittedDescribes(old(nodes.nodes), nodes.nodes, nodes.accessList, t, db, c, loaded);
    hash := c.hash;
  }

  lemma CleanIsSaved(root: Node, t: Tree, db: Store, base: Tree, access: map<Hex, Bytes>)
    requires Ready(root, t, db, true) && !root.HashNode? && !root.flags.dirty && Watches(root, t, [], base, access)
    ensures root.flags.hash == Some(RootHash(t)) && Saved(db, t) && t == base
  {
    var here: Hex := [];
    assert TracksAt(root, t, here, base, access, here) && here + here == here;
  }

  /** The deletions are exactly the nodes that were stored on their own and are so no longer. */
  ghost predicate DeletesExactly(nodes: map<Hex, MemoryNode>, base: Tree, t: Tree)
    requires Minimal(base) && Minimal(t)
  {
    forall p :: Entry(nodes, p) == Some(DELETED) <==> StoredAt(base, p, true) && !StoredAt(t, p, true)
  }

  lemma GoneIsDeleted(nodes: map<Hex, MemoryNode>, root: Node, t: Tree, base: Tree, access: map<Hex, Bytes>, p: Hex)
    requires Watches(root, t, [], base, access) && Swept(root, t, [], true, nodes, access)
    requires AllDeleted(nodes, access, t, NodePaths(base)) && StoredAt(base, p, true) && !StoredAt(t, p, true)
    ensures Entry(nodes, p) == Some(DELETED)
  {
    assert TracksAt(root, t, [], base, access, p) && [] + p == p;
    HiddenIsKept(root, p);
    NodeAtPath(base, p);
    NodeAtPath(t, p);
    assert SweptAt(root, t, [], true, nodes, access, p);
  }

  lemma DeletedExactly(nodes: map<Hex, MemoryNode>, root: Node, t: Tree, base: Tree, access: map<Hex, Bytes>)
    requires Watches(root, t, [], base, access) && Swept(root, t, [], true, nodes, access)
    requires AllDeleted(nodes, access, t, NodePaths(base)) && forall p | p in nodes :: EntryOk(nodes[p], t, p, true, p in access)
    ensures DeletesExactly(nodes, base, t)
  {
    forall p ensures Entry(nodes, p) == Some(DELETED) <==> StoredAt(base, p, true) && !StoredAt(t, p, true) {
      if StoredAt(base, p, true) && !StoredAt(t, p, true) {
        GoneIsDeleted(nodes, root, t, base, access, p);
      }
    }
  }

  /** `Trie.Commit`; no node set is returned when nothing changed. */
  method CommitTrie(trie: Trie) returns (rootHash: Hash32, nodes: NodeSet?)
    requires trie.Valid()
    modifies trie, trie.tracer
    ensures rootHash == RootHash(old(trie.tree))
    ensures trie.root == if old(trie.tree).Empty? then NilNode else HashNode(rootHash)
    ensures nodes == null ==> IsInner(old(trie.tree)) && Saved(trie.db, old(trie.tree))
    ensures nodes != null ==> fresh(nodes) && nodes.accessList == old(trie.tracer.accessList)
    ensures nodes != null ==> Describes(nodes.nodes, nodes.accessList, old(trie.tree), trie.db)
    ensures if nodes == null then old(trie.tree) == trie.base else DeletesExactly(nodes.nodes, trie.base, old(trie.tree))
    ensures trie.tracer.State() == Changes({}, {}) && trie.tracer.accessList == map[]
  {
    nodes := NewNodeSet(trie.tracer, trie.tree, NodePaths(trie.base));
    if trie.root == NilNode {
      rootHash := EMPTY_ROOT;
      SweptBare(trie.root, trie.tree, [], true, nodes.nodes, nodes.accessList);
      DeletedExactly(nodes.nodes, trie.root, trie.tree, trie.base, nodes.accessList);
    } else {
      rootHash := trie.Hash();
      var root := trie.root;
      if !root.HashNode? && !root.flags.dirty {
        CleanIsSaved(root, trie.tree, trie.db, trie.base, trie.tracer.accessList);
        trie.root := HashNode(root.flags.hash.value);
        nodes := null;
      } else {
        var hash := CommitRoot(nodes, root, trie.tree, trie.db, NodePaths(trie.base));
        DeletedExactly(nodes.nodes, root, trie.tree, trie.base, nodes.accessList);
        trie.root := HashNode(hash);
      }
    }
    trie.tracer.Reset();
  }
}
