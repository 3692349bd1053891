/** trie/proof.go: Merkle proofs of presence and absence. */
module Proof {
  import opened Bytes
  import opened HexEncoding
  import opened Nodes
  import opened Tree
  import opened TreeEncoding
  import opened Store
  import opened Trie
  import opened Tracer
  import Hasher

  // ---------- The nodes that a key passes ----------

  /** The nodes on the path of `key`, from the root down to where it ends or is missing. */
  ghost function PathTrees(t: Tree, key: Hex): seq<Tree>
    requires CanPut(t, key)
    decreases t
  {
    match t
    case Empty => []
    case Leaf(_) => []
    case Ext(k, c) =>
      if k <= key then
        ExtStep(k, c, key);
        [t] + PathTrees(c, key[|k|..])
      else
        [t]
    case Branch(cs) =>
      BranchStep(cs, key);
      [t] + PathTrees(cs[key[0]], key[1..])
  }

  datatype Place = Place(tree: Tree, key: Hex)

  /** Follow `key` through the embedded nodes below `t`, to a hash, a value or nothing. */
  ghost function Walk(t: Tree, key: Hex): (p: Place)
    requires CanPut(t, key) && IsInner(t)
    ensures CanPut(p.tree, p.key) && Lookup(p.tree, p.key) == Lookup(t, key)
    ensures |p.key| < |key| && (IsInner(p.tree) ==> |Enc(p.tree)| >= 32)
    decreases t, 0
  {
    match t
    case Ext(k, c) =>
      if k <= key then
        ExtStep(k, c, key);
        WalkRef(c, key[|k|..])
      else
        Place(Empty, [])
    case Branch(cs) =>
      BranchStep(cs, key);
      WalkRef(cs[key[0]], key[1..])
  }

  ghost function WalkRef(t: Tree, key: Hex): (p: Place)
    requires CanPut(t, key)
    ensures CanPut(p.tree, p.key) && Lookup(p.tree, p.key) == Lookup(t, key)
    ensures |p.key| <= |key| && (IsInner(p.tree) ==> |Enc(p.tree)| >= 32)
    decreases t, 1
  {
    if IsInner(t) && |Enc(t)| < 32 then Walk(t, key) else Place(t, key)
  }

  /** The encodings of the separately stored nodes that a verifier of `key` must see. */
  ghost function Chain(t: Tree, key: Hex): set<Bytes>
    requires CanPut(t, key) && IsInner(t)
    decreases |key|
  {
    var p := Walk(t, key);
    {Enc(t)} + if IsInner(p.tree) then Chain(p.tree, p.key) else {}
  }

  // ---------- Verification ----------

  /** No entry of the proof collides with a node in `encs`. */
  ghost predicate Authentic(proofDb: Store, encs: set<Bytes>) {
    forall e | e in encs :: Keccak(e) in proofDb ==> proofDb[Keccak(e)] == e
  }

  ghost predicate Complete(proofDb: Store, encs: set<Bytes>) {
    forall e | e in encs :: Keccak(e) in proofDb
  }

  /** `tn` is what the walk from some node has reached at `cur`, with `key` left. */
  ghost predicate At(tn: Node, cur: Tree, key: Hex, target: Place) {
    && CanPut(cur, key)
    && (|| (IsInner(cur) && (exists h :: tn == Expand(h, Collapse(cur))) && Walk(cur, key) == target)
        || (tn == Expand(None, RefTo(cur)) && WalkRef(cur, key) == target))
  }

  lemma AtShort(tn: Node, cur: Tree, key: Hex, target: Place)
    requires At(tn, cur, key, target) && tn.ShortNode?
    ensures cur.Ext? && tn.key == cur.key && tn.key != []
    ensures if tn.key <= key then
        At(tn.val, cur.child, key[|tn.key|..], target)
      else
        Expand(None, RefTo(target.tree)) == NilNode
  {
    AtInner(tn, cur, key, target);
    AtStepExt(tn, cur, key, target);
    RefToBare(Empty);
  }

  lemma AtFull(tn: Node, cur: Tree, key: Hex, target: Place)
    requires At(tn, cur, key, target) && tn.FullNode?
    ensures cur.Branch? && |tn.children| == 17 && key != []
    ensures At(tn.children[key[0]], cur.children[key[0]], key[1..], target)
  {
    AtInner(tn, cur, key, target);
    AtStepBranch(tn, cur, key, target);
  }

  lemma AtEnd(tn: Node, cur: Tree, key: Hex, target: Place)
    requires At(tn, cur, key, target) && (tn.HashNode? || tn.NilNode? || tn.ValueNode?)
    ensures tn == Expand(None, RefTo(target.tree)) && key == target.key
  {
    if cur.Ext? {
      AtStepExt(tn, cur, key, target);
    } else if cur.Branch? {
      AtStepBranch(tn, cur, key, target);
    }
  }

  lemma AtInner(tn: Node, cur: Tree, key: Hex, target: Place)
    requires At(tn, cur, key, target) && (tn.ShortNode? || tn.FullNode?)
    ensures cur.Ext? <==> tn.ShortNode?
    ensures cur.Branch? <==> tn.FullNode?
  {
    RefToBare(cur);
  }

  lemma RefToBare(t: Tree)
    requires Minimal(t)
    ensures t.Empty? ==> RefTo(t) == NoNode
    ensures t.Leaf? ==> RefTo(t) == Value(t.value)
  {}

  lemma AtStepExt(tn: Node, cur: Tree, key: Hex, target: Place)
    requires At(tn, cur, key, target) && cur.Ext?
    ensures tn.ShortNode? || (tn.HashNode? && target == Place(cur, key) && tn == Expand(None, RefTo(cur)))
    ensures tn.ShortNode? ==> tn.key == cur.key
    ensures tn.ShortNode? && !(cur.key <= key) ==> target == Place(Empty, [])
    ensures tn.ShortNode? && cur.key <= key ==> At(tn.val, cur.child, key[|cur.key|..], target)
  {
    CompactRoundTrip(cur.key);
    if cur.key <= key {
      ExtStep(cur.key, cur.child, key);
    }
  }

  lemma AtStepBranch(tn: Node, cur: Tree, key: Hex, target: Place)
    requires At(tn, cur, key, target) && cur.Branch?
    ensures tn.FullNode? || (tn.HashNode? && target == Place(cur, key) && tn == Expand(None, RefTo(cur)))
    ensures tn.FullNode? ==> |tn.children| == 17 && key != []
    ensures tn.FullNode? ==> At(tn.children[key[0]], cur.children[key[0]], key[1..], target)
  {
    BranchStep(cur.children, key);
    if tn.FullNode? {
      assert tn.children == ExpandAll(RefsTo(cur.children));
      assert tn.children[key[0]] == Expand(None, RefTo(cur.children[key[0]]));
    }
  }

  /** `get` with resolved nodes skipped: the child that the decoded node leads to. */
  method GetChild(n: Node, key: Hex, ghost t: Tree, ghost target: Place) returns (rest: Hex, cld: Node)
    requires At(n, t, key, target)
    ensures cld == Expand(None, RefTo(target.tree)) && (cld.HashNode? ==> rest == target.key)
  {
    var tn := n;
    rest := key;
    ghost var cur := t;
    while true
      invariant At(tn, cur, rest, target)
      decreases |rest|
    {
      match tn
      case ShortNode(k, v, _) =>
        AtShort(tn, cur, rest, target);
        if |rest| < |k| || k != rest[..|k|] {
          return [], NilNode;
        }
        tn, rest, cur := v, rest[|k|..], cur.child;
      case FullNode(cs, _) =>
        AtFull(tn, cur, rest, target);
        tn, rest, cur := cs[rest[0]], rest[1..], cur.children[rest[0]];
      case HashNode(_) =>
        AtEnd(tn, cur, rest, target);
        return rest, tn;
      case NilNode =>
        AtEnd(tn, cur, rest, target);
        return rest, tn;
      case ValueNode(_) =>
        AtEnd(tn, cur, rest, target);
        return [], tn;
    }
  }

  lemma ChainLinks(proofDb: Store, t: Tree, key: Hex)
    requires CanPut(t, key) && IsInner(t) && Authentic(proofDb, Chain(t, key))
    ensures Keccak(Enc(t)) in proofDb ==> proofDb[Keccak(Enc(t))] == Enc(t)
    ensures var p := Walk(t, key);
      if IsInner(p.tree) then
        && Authentic(proofDb, Chain(p.tree, p.key))
        && (Complete(proofDb, Chain(t, key)) <==> Keccak(Enc(t)) in proofDb && Complete(proofDb, Chain(p.tree, p.key)))
      else
        Complete(proofDb, Chain(t, key)) <==> Keccak(Enc(t)) in proofDb
  {
    assert Enc(t) in Chain(t, key);
  }

  /** Every entry sits under the hash of its bytes. */
  ghost predicate Consistent(proofDb: Store) {
    forall h | h in proofDb :: Keccak(proofDb[h]) == h
  }

  ghost predicate NoCollision(proofDb: Store, encs: set<Bytes>) {
    forall h, e | h in proofDb && e in encs :: Keccak(e) == Keccak(proofDb[h]) ==> e == proofDb[h]
  }

  /** The state of the loop of `VerifyProof`: the rest of the question, and whether it can be answered. */
  ghost predicate Verifying(proofDb: Store, wantHash: Hash32, rest: Hex, cur: Tree, answer: Option<Bytes>, complete: bool) {
    && CanPut(cur, rest) && IsInner(cur) && wantHash == Keccak(Enc(cur))
    && Lookup(cur, rest) == answer
    && Authentic(proofDb, Chain(cur, rest)) && (Complete(proofDb, Chain(cur, rest)) <==> complete)
  }

  lemma VerifyStep(proofDb: Store, wantHash: Hash32, rest: Hex, cur: Tree, answer: Option<Bytes>, complete: bool)
    requires Verifying(proofDb, wantHash, rest, cur, answer, complete)
    ensures wantHash !in proofDb ==> !complete
    ensures wantHash in proofDb ==>
      && DecodeNode(Some(wantHash), proofDb[wantHash]).Ok?
      && At(DecodeNode(Some(wantHash), proofDb[wantHash]).value, cur, rest, Walk(cur, rest))
    ensures wantHash in proofDb && IsInner(Walk(cur, rest).tree) ==>
      Verifying(proofDb, Keccak(Enc(Walk(cur, rest).tree)), Walk(cur, rest).key, Walk(cur, rest).tree, answer, complete)
    ensures wantHash in proofDb && !IsInner(Walk(cur, rest).tree) ==> complete
  {
    ChainLinks(proofDb, cur, rest);
    if wantHash in proofDb {
      DecodeEnc(Some(wantHash), cur);
    }
  }

  /** Where the walk ends, the child is the answer or the next hash. */
  lemma WalkEnd(t: Tree, key: Hex)
    requires CanPut(t, key) && IsInner(t)
    ensures var p := Walk(t, key);
      match Expand(None, RefTo(p.tree))
      case NilNode => p.tree.Empty? && Lookup(t, key) == None
      case ValueNode(v) => p.tree.Leaf? && Lookup(t, key) == Some(v)
      case HashNode(h) => IsInner(p.tree) && h == Keccak(Enc(p.tree))
      case _ => false
  {
    var p := Walk(t, key);
    RefToBare(p.tree);
  }

  /**
   Soundness and completeness of verification against the root hash of `t`: whatever the proof
   contains, the outcome is an error or the trie's own answer, and it is the answer exactly when the
   nodes of the chain are there.
   */
  method VerifyProof(rootHash: Hash32, key: Bytes, proofDb: Store, ghost t: Tree) returns (r: Result<Option<Bytes>>)
    requires Minimal(t) && IsInner(t) && rootHash == RootHash(t)
    requires Consistent(proofDb) && NoCollision(proofDb, Chain(t, KeybytesToHex(key)))
    ensures r == if Complete(proofDb, Chain(t, KeybytesToHex(key))) then Ok(Lookup(t, KeybytesToHex(key))) else Err
  {
    var rest, wantHash := KeybytesToHex(key), rootHash;
    ghost var cur, answer, complete := t, Lookup(t, rest), Complete(proofDb, Chain(t, rest));
    while true
      invariant Verifying(proofDb, wantHash, rest, cur, answer, complete)
      decreases |rest|
    {
      VerifyStep(proofDb, wantHash, rest, cur, answer, complete);
      if wantHash !in proofDb {
        return Err;
      }
      var n := DecodeNode(Some(wantHash), proofDb[wantHash]);
      ghost var p := Walk(cur, rest);
      WalkEnd(cur, rest);
      var keyrest, cld := GetChild(n.value, rest, cur, p);
      match cld
      case NilNode => return Ok(None);
      case ValueNode(v) => return Ok(Some(v));
      case HashNode(h) =>
        rest, wantHash, cur := keyrest, h, p.tree;
    }
  }

  // ---------- Construction ----------

  /** The proof entries of the nodes `path[i..]`: separately stored nodes, and the root. */
  ghost function AddProof(proofDb: Store, path: seq<Tree>, i: nat, fromLevel: nat): Store
    requires i <= |path| && Fits(path)
    decreases |path| - i
  {
    if i == |path| then
      proofDb
    else
      AddProof(if i >= fromLevel then AddNode(proofDb, path[i], i == 0) else proofDb, path, i + 1, fromLevel)
  }

  ghost function AddNode(proofDb: Store, t: Tree, root: bool): Store
    requires Minimal(t) && |Enc(t)| < SIZE_LIMIT
  {
    if root || |Enc(t)| >= 32 then proofDb[Keccak(Enc(t)) := Enc(t)] else proofDb
  }

  /** Go slices are shorter than 2^64 bytes. */
  ghost predicate Fits(path: seq<Tree>) {
    forall i | 0 <= i < |path| :: Minimal(path[i]) && |Enc(path[i])| < SIZE_LIMIT
  }

  /** The trees that the nodes on the path stand for. */
  ghost predicate Collected(nodes: seq<Node>, trees: seq<Tree>, db: Store) {
    |nodes| == |trees| && forall i | 0 <= i < |nodes| ::
      Minimal(trees[i]) && IsInner(trees[i]) && Represents(nodes[i], trees[i], db, i == 0) && !nodes[i].HashNode?
  }

  lemma CollectedMore(nodes: seq<Node>, trees: seq<Tree>, db: Store, n: Node, t: Tree)
    requires Collected(nodes, trees, db) && Minimal(t) && IsInner(t) && !n.HashNode?
    requires Represents(n, t, db, nodes == [])
    ensures Collected(nodes + [n], trees + [t], db)
  {}

  lemma PathExt(t: Tree, key: Hex)
    requires CanPut(t, key) && t.Ext?
    ensures if t.key <= key then
        CanPut(t.child, key[|t.key|..]) && PathTrees(t, key) == [t] + PathTrees(t.child, key[|t.key|..])
      else
        PathTrees(t, key) == [t] + PathTrees(Empty, key)
  {
    if t.key <= key {
      ExtStep(t.key, t.child, key);
    }
  }

  lemma PathBranch(t: Tree, key: Hex)
    requires CanPut(t, key) && t.Branch?
    ensures key != [] && CanPut(t.children[key[0]], key[1..])
    ensures PathTrees(t, key) == [t] + PathTrees(t.children[key[0]], key[1..])
  {
    BranchStep(t.children, key);
  }

  /** The state of the first loop of `Prove`: the path is what is collected and what lies below `cur`. */
  ghost predicate Collecting(nodes: seq<Node>, tn: Node, rest: Hex, done: seq<Tree>, cur: Tree, db: Store, path: seq<Tree>) {
    && CanPut(cur, rest) && Represents(tn, cur, db, nodes == [])
    && Collected(nodes, done, db) && done + PathTrees(cur, rest) == path
  }

  lemma CollectShort(nodes: seq<Node>, tn: Node, rest: Hex, done: seq<Tree>, cur: Tree, db: Store, path: seq<Tree>)
    requires Collecting(nodes, tn, rest, done, cur, db, path) && tn.ShortNode?
    ensures cur.Ext? && tn.key == cur.key && tn.key != []
    ensures if tn.key <= rest then
        Collecting(nodes + [tn], tn.val, rest[|tn.key|..], done + [cur], cur.child, db, path)
      else
        Collecting(nodes + [tn], NilNode, rest, done + [cur], Empty, db, path)
  {
    CollectedMore(nodes, done, db, tn, cur);
    PathExt(cur, rest);
    if tn.key <= rest {
      assert done + [cur] + PathTrees(cur.child, rest[|tn.key|..]) == done + PathTrees(cur, rest);
    }
  }

  lemma CollectFull(nodes: seq<Node>, tn: Node, rest: Hex, done: seq<Tree>, cur: Tree, db: Store, path: seq<Tree>)
    requires Collecting(nodes, tn, rest, done, cur, db, path) && tn.FullNode?
    ensures cur.Branch? && |tn.children| == 17 && rest != []
    ensures Collecting(nodes + [tn], tn.children[rest[0]], rest[1..], done + [cur], cur.children[rest[0]], db, path)
  {
    CollectedMore(nodes, done, db, tn, cur);
    PathBranch(cur, rest);
    assert done + [cur] + PathTrees(cur.children[rest[0]], rest[1..]) == done + PathTrees(cur, rest);
  }

  lemma CollectHash(nodes: seq<Node>, tn: Node, rest: Hex, done: seq<Tree>, cur: Tree, db: Store, path: seq<Tree>)
    requires Collecting(nodes, tn, rest, done, cur, db, path) && tn.HashNode?
    ensures IsInner(cur) && Saved(db, cur) && tn.hash == Keccak(Enc(cur))
    ensures Collecting(nodes, Resolve(db, tn.hash, cur), rest, done, cur, db, path) && !Resolve(db, tn.hash, cur).HashNode?
  {
    ResolveRepresents(db, tn.hash, cur, nodes == []);
  }

  lemma CollectEnd(nodes: seq<Node>, tn: Node, rest: Hex, done: seq<Tree>, cur: Tree, db: Store, path: seq<Tree>)
    requires Collecting(nodes, tn, rest, done, cur, db, path) && (rest == [] || tn == NilNode)
    ensures Collected(nodes, path, db)
  {
    assert PathTrees(cur, rest) == [];
  }

  /** The first loop of `Prove`. */
  method PathNodes(root: Node, db: Store, key: Hex, ghost t: Tree) returns (nodes: seq<Node>)
    requires Minimal(t) && !t.Leaf? && IsKey(key) && Represents(root, t, db, true)
    ensures Collected(nodes, PathTrees(t, key), db)
  {
    var tn, rest := root, key;
    nodes := [];
    ghost var cur, done, path := t, [], PathTrees(t, key);
    while |rest| > 0 && tn != NilNode
      invariant Collecting(nodes, tn, rest, done, cur, db, path)
      decreases |rest|, if tn.HashNode? then 2 else if tn.NilNode? then 0 else 1
    {
      match tn
      case ShortNode(k, v, _) =>
        CollectShort(nodes, tn, rest, done, cur, db, path);
        nodes, done := nodes + [tn], done + [cur];
        if |rest| < |k| || k != rest[..|k|] {
          tn, cur := NilNode, Empty;
        } else {
          tn, rest, cur := v, rest[|k|..], cur.child;
        }
      case FullNode(cs, _) =>
        CollectFull(nodes, tn, rest, done, cur, db, path);
        nodes, done := nodes + [tn], done + [cur];
        tn, rest, cur := cs[rest[0]], rest[1..], cur.children[rest[0]];
      case HashNode(h) =>
        CollectHash(nodes, tn, rest, done, cur, db, path);
        tn := Resolve(db, h, cur);
      case ValueNode(_) =>
        assert false;
    }
    CollectEnd(nodes, tn, rest, done, cur, db, path);
  }

  method Prove(root: Node, db: Store, key: Bytes, fromLevel: nat, proofDb: Store, ghost t: Tree) returns (out: Store)
    requires Minimal(t) && !t.Leaf? && Represents(root, t, db, true) && Fits(PathTrees(t, KeybytesToHex(key)))
    ensures out == AddProof(proofDb, PathTrees(t, KeybytesToHex(key)), 0, fromLevel)
  {
    ghost var path := PathTrees(t, KeybytesToHex(key));
    var nodes := PathNodes(root, db, KeybytesToHex(key), t);
    out := proofDb;
    var skip := fromLevel;
    for i := 0 to |nodes|
      invariant skip == if i < fromLevel then fromLevel - i else 0
      invariant AddProof(out, path, i, fromLevel) == AddProof(proofDb, path, 0, fromLevel)
    {
      if skip > 0 {
        skip := skip - 1;
      } else {
        out := PutProofNode(nodes[i], i == 0, out, db, path[i]);
      }
    }
  }

  /** The body of the second loop of `Prove`. */
  method PutProofNode(n: Node, root: bool, proofDb: Store, ghost db: Store, ghost t: Tree) returns (out: Store)
    requires Minimal(t) && IsInner(t) && Represents(n, t, db, root) && !n.HashNode? && |Enc(t)| < SIZE_LIMIT
    ensures out == AddNode(proofDb, t, root)
  {
    Hasher.CollapseNodeCorrect(n, t, db, root);
    var enc := Encode(Hasher.CollapseNode(n));
    if |enc| >= 32 || root {
      return proofDb[Keccak(enc) := enc];
    }
    out := proofDb;
  }

  // ---------- Proofs that are constructed verify ----------

  lemma WalkStep(t: Tree, key: Hex) returns (c: Tree, rest: Hex)
    requires CanPut(t, key) && IsInner(t) && IsInner(Walk(t, key).tree)
    ensures c < t && CanPut(c, rest) && IsInner(c)
    ensures Walk(t, key) == WalkRef(c, rest) && PathTrees(t, key) == [t] + PathTrees(c, rest)
  {
    if t.Ext? {
      PathExt(t, key);
      c, rest := t.child, key[|t.key|..];
    } else {
      PathBranch(t, key);
      c, rest := t.children[key[0]], key[1..];
    }
    assert Walk(t, key) == WalkRef(c, rest);
  }

  lemma WalkSuffix(t: Tree, key: Hex) returns (off: nat)
    requires CanPut(t, key) && IsInner(t) && IsInner(Walk(t, key).tree)
    ensures off <= |PathTrees(t, key)|
    ensures PathTrees(t, key)[off..] == PathTrees(Walk(t, key).tree, Walk(t, key).key)
    decreases t
  {
    var c, rest := WalkStep(t, key);
    var path := PathTrees(t, key);
    if |Enc(c)| < 32 {
      var more := WalkSuffix(c, rest);
      off := more + 1;
      assert path[off..] == path[1..][more..];
    } else {
      off := 1;
    }
  }

  /** `e` is one of the encodings that `Prove` adds from level 0. */
  ghost predicate StoredOnPath(path: seq<Tree>, e: Bytes) {
    exists i :: 0 <= i < |path| && Minimal(path[i]) && Enc(path[i]) == e && (i == 0 || |e| >= 32)
  }

  lemma StoredOnPathSuffix(path: seq<Tree>, off: nat, e: Bytes)
    requires off <= |path| && StoredOnPath(path[off..], e) && |e| >= 32
    ensures StoredOnPath(path, e)
  {
    var i :| 0 <= i < |path[off..]| && Minimal(path[off..][i]) && Enc(path[off..][i]) == e;
    assert path[off..][i] == path[off + i];
  }

  lemma ChainTailLong(t: Tree, key: Hex, e: Bytes)
    requires CanPut(t, key) && IsInner(t) && |Enc(t)| >= 32 && e in Chain(t, key)
    ensures |e| >= 32
    decreases |key|
  {
    var p := Walk(t, key);
    if e != Enc(t) {
      ChainTailLong(p.tree, p.key, e);
    }
  }

  lemma {:induction false} ChainListed(t: Tree, key: Hex, e: Bytes)
    requires CanPut(t, key) && IsInner(t) && e in Chain(t, key)
    ensures StoredOnPath(PathTrees(t, key), e)
    decreases |key|
  {
    if e == Enc(t) {
      PathStartsHere(t, key);
    } else {
      var p := Walk(t, key);
      var off := WalkSuffix(t, key);
      ChainListed(p.tree, p.key, e);
      ChainTailLong(p.tree, p.key, e);
      StoredOnPathSuffix(PathTrees(t, key), off, e);
    }
  }

  lemma PathStartsHere(t: Tree, key: Hex)
    requires CanPut(t, key) && IsInner(t)
    ensures PathTrees(t, key) != [] && PathTrees(t, key)[0] == t
  {
    if t.Ext? {
      PathExt(t, key);
    } else {
      PathBranch(t, key);
    }
  }

  ghost predicate NodeOnPath(path: seq<Tree>, e: Bytes) {
    exists i :: 0 <= i < |path| && Minimal(path[i]) && Enc(path[i]) == e
  }

  lemma {:induction false} AddProofEntries(proofDb: Store, path: seq<Tree>, i: nat, fromLevel: nat)
    requires i <= |path| && Fits(path) && Consistent(proofDb)
    ensures var out := AddProof(proofDb, path, i, fromLevel);
      && Consistent(out)
      && forall h | h in out :: (h in proofDb && out[h] == proofDb[h]) || NodeOnPath(path, out[h])
    decreases |path| - i
  {
    if i < |path| {
      var next := if i >= fromLevel then AddNode(proofDb, path[i], i == 0) else proofDb;
      AddProofEntries(next, path, i + 1, fromLevel);
      assert NodeOnPath(path, Enc(path[i]));
    }
  }

  lemma {:induction false} AddProofGrows(proofDb: Store, path: seq<Tree>, i: nat, fromLevel: nat, h: Hash32)
    requires i <= |path| && Fits(path) && h in proofDb
    ensures h in AddProof(proofDb, path, i, fromLevel)
    decreases |path| - i
  {
    if i < |path| {
      AddProofGrows(if i >= fromLevel then AddNode(proofDb, path[i], i == 0) else proofDb, path, i + 1, fromLevel, h);
    }
  }

  lemma {:induction false} AddProofHas(proofDb: Store, path: seq<Tree>, i: nat, j: nat)
    requires i <= j < |path| && Fits(path) && (j == 0 || |Enc(path[j])| >= 32)
    ensures Keccak(Enc(path[j])) in AddProof(proofDb, path, i, 0)
    decreases |path| - i
  {
    var next := AddNode(proofDb, path[i], i == 0);
    if i < j {
      AddProofHas(next, path, i + 1, j);
    } else {
      AddProofGrows(next, path, i + 1, 0, Keccak(Enc(path[j])));
    }
  }

  /** No two byte strings among the path's nodes and the store's entries share a hash. */
  ghost predicate PathCollisionFree(proofDb: Store, path: seq<Tree>) {
    && (forall a, b | NodeOnPath(path, a) && NodeOnPath(path, b) :: Keccak(a) == Keccak(b) ==> a == b)
    && (forall a, h | NodeOnPath(path, a) && h in proofDb :: Keccak(a) == Keccak(proofDb[h]) ==> a == proofDb[h])
  }

  /** What `Prove` adds from level 0 makes `VerifyProof` return the trie's answer, present or absent. */
  lemma ProofVerifies(proofDb: Store, t: Tree, key: Hex)
    requires Minimal(t) && IsInner(t) && IsKey(key) && Fits(PathTrees(t, key))
    requires Consistent(proofDb) && PathCollisionFree(proofDb, PathTrees(t, key))
    ensures var out := AddProof(proofDb, PathTrees(t, key), 0, 0);
      Consistent(out) && NoCollision(out, Chain(t, key)) && Complete(out, Chain(t, key))
  {
    var path := PathTrees(t, key);
    var out := AddProof(proofDb, path, 0, 0);
    AddProofEntries(proofDb, path, 0, 0);
    forall e | e in Chain(t, key) ensures NodeOnPath(path, e) && Keccak(e) in out {
      ChainListed(t, key, e);
      var i :| 0 <= i < |path| && Minimal(path[i]) && Enc(path[i]) == e && (i == 0 || |e| >= 32);
      AddProofHas(proofDb, path, 0, i);
    }
  }

  /** A proof made from a trie and checked against its hash yields exactly what the trie holds. */
  method ProveAndVerify(root: Node, db: Store, key: Bytes, ghost t: Tree) returns (r: Result<Option<Bytes>>)
    requires Minimal(t) && IsInner(t) && Represents(root, t, db, true)
    requires Fits(PathTrees(t, KeybytesToHex(key))) && PathCollisionFree(map[], PathTrees(t, KeybytesToHex(key)))
    ensures r == Ok(Lookup(t, KeybytesToHex(key)))
  {
    ProofVerifies(map[], t, KeybytesToHex(key));
    var proofDb := Prove(root, db, key, 0, map[], t);
    Hasher.HashCorrect(root, t, db, true);
    var rootHash := Hasher.Hash(root, true).hashed.hash;
    r := VerifyProof(rootHash, key, proofDb, t);
  }
}
