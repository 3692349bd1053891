/**
 When an in-memory node stands for an abstract trie: subtrees may be loaded, or present only as the
 hash of what the node reader can supply, and loaded nodes may carry cached hashes.
 */
module Store {
  import opened Bytes
  import opened HexEncoding
  import opened Rlp
  import opened Nodes
  import opened Tree
  import opened TreeEncoding

  type Blob = b: Bytes | |b| < SIZE_LIMIT

  /** What the node reader answers, by node hash. */
  type Store = map<Hash32, Blob>

  ghost predicate Has(db: Store, t: Tree)
    requires Minimal(t)
  {
    Keccak(Enc(t)) in db && db[Keccak(Enc(t))] == Enc(t)
  }

  /** Every node below `t` that is referenced by hash can be read. */
  ghost predicate Below(db: Store, t: Tree)
    requires Minimal(t)
    decreases t, 0
  {
    match t
    case Empty => true
    case Leaf(_) => true
    case Ext(_, c) => Linked(db, c)
    case Branch(cs) => forall i | 0 <= i < 17 :: Linked(db, cs[i])
  }

  ghost predicate Linked(db: Store, t: Tree)
    requires Minimal(t)
    decreases t, 1
  {
    Below(db, t) && (IsInner(t) && |Enc(t)| >= 32 ==> Has(db, t))
  }

  ghost predicate Saved(db: Store, t: Tree)
    requires Minimal(t)
  {
    Has(db, t) && Below(db, t)
  }

  /** `h` may stand for `t`: short nodes are hashed only at the root. */
  ghost predicate HashStandsFor(h: Hash32, t: Tree, root: bool)
    requires Minimal(t)
  {
    h == Keccak(Enc(t)) && (root || |Enc(t)| >= 32)
  }

  /** A cached hash is the right one; a clean node is in the store, or embedded in one that is. */
  ghost predicate FlagsOk(f: Flags, t: Tree, db: Store, root: bool)
    requires Minimal(t)
  {
    match f.hash
    case Some(h) => HashStandsFor(h, t, root) && (!f.dirty ==> Saved(db, t))
    case None => f.dirty || (!root && |Enc(t)| < 32)
  }

  ghost predicate Represents(n: Node, t: Tree, db: Store, root: bool)
    requires Minimal(t)
    decreases t
  {
    match t
    case Empty => n == NilNode
    case Leaf(v) => n == ValueNode(v)
    case Ext(k, c) =>
      || IsHashOf(n, t, db, root)
      || (&& n.ShortNode? && n.key == k && FlagsOk(n.flags, t, db, root)
          && Represents(n.val, c, db, false)
          && (n.flags.hash.Some? ==> Hashed(n.val, c)))
    case Branch(cs) =>
      || IsHashOf(n, t, db, root)
      || (&& n.FullNode? && |n.children| == 17 && FlagsOk(n.flags, t, db, root)
          && (forall i | 0 <= i < 17 :: Represents(n.children[i], cs[i], db, false))
          && (n.flags.hash.Some? ==> forall i | 0 <= i < 17 :: Hashed(n.children[i], cs[i])))
  }

  /** Every loaded node that is long enough carries its hash. */
  ghost predicate Hashed(n: Node, t: Tree)
    requires Minimal(t)
    decreases t
  {
    match t
    case Empty => true
    case Leaf(_) => true
    case Ext(k, c) =>
      n.ShortNode? ==> (|Enc(t)| >= 32 ==> n.flags.hash.Some?) && Hashed(n.val, c)
    case Branch(cs) =>
      n.FullNode? && |n.children| == 17 ==>
        (|Enc(t)| >= 32 ==> n.flags.hash.Some?) && forall i | 0 <= i < 17 :: Hashed(n.children[i], cs[i])
  }

  ghost predicate IsHashOf(n: Node, t: Tree, db: Store, root: bool)
    requires Minimal(t)
  {
    n.HashNode? && HashStandsFor(n.hash, t, root) && Saved(db, t)
  }

  ghost predicate HashOk(hash: Option<Hash32>, t: Tree, db: Store, root: bool)
    requires Minimal(t)
  {
    match hash
    case Some(h) => HashStandsFor(h, t, root) && Saved(db, t)
    case None => !root && |Enc(t)| < 32
  }

  /** The expansion of a stored node represents it. */
  lemma {:induction false} ExpandRepresents(hash: Option<Hash32>, t: Tree, db: Store, root: bool)
    requires Minimal(t) && IsInner(t) && Below(db, t) && HashOk(hash, t, db, root)
    ensures Represents(Expand(hash, Collapse(t)), t, db, root)
    ensures Hashed(Expand(hash, Collapse(t)), t)
    decreases t, 0
  {
    match t
    case Ext(k, c) =>
      CompactRoundTrip(k);
      ExpandRefRepresents(c, db);
    case Branch(cs) =>
      forall i | 0 <= i < 17
        ensures Represents(Expand(None, RefTo(cs[i])), cs[i], db, false) && Hashed(Expand(None, RefTo(cs[i])), cs[i])
      {
        ExpandRefRepresents(cs[i], db);
      }
  }

  lemma ExpandRefRepresents(t: Tree, db: Store)
    requires Minimal(t) && Linked(db, t)
    ensures Represents(Expand(None, RefTo(t)), t, db, false) && Hashed(Expand(None, RefTo(t)), t)
    decreases t, 1
  {
    if IsInner(t) && |Enc(t)| < 32 {
      ExpandRepresents(None, t, db, false);
    }
  }

  /** `mustDecodeNode(hash, blob)` of a node that the reader has. */
  function Resolve(db: Store, hash: Hash32, ghost t: Tree): (n: Node)
    requires Minimal(t) && IsInner(t) && Saved(db, t) && hash == Keccak(Enc(t))
    ensures n == Expand(Some(hash), Collapse(t))
  {
    DecodeEnc(Some(hash), t);
    DecodeNode(Some(hash), db[hash]).value
  }

  lemma ResolveRepresents(db: Store, hash: Hash32, t: Tree, root: bool)
    requires Minimal(t) && IsInner(t) && IsHashOf(HashNode(hash), t, db, root)
    ensures Represents(Resolve(db, hash, t), t, db, root) && Hashed(Resolve(db, hash, t), t)
    ensures !Resolve(db, hash, t).HashNode?
  {
    ExpandRepresents(Some(hash), t, db, root);
  }
}
