/** trie/hasher.go: collapsing a node to its hash while caching hashes in a copy. */
module Hasher {
  import opened Bytes
  import opened HexEncoding
  import opened Nodes
  import opened Tree
  import opened TreeEncoding
  import opened Store

  datatype Hashing = Hashing(hashed: Collapsed, cached: Node)

  predicate HexKeys(n: Node) {
    match n
    case ShortNode(k, v, _) => IsHex(k) && HexKeys(v)
    case FullNode(cs, _) => forall i | 0 <= i < |cs| :: HexKeys(cs[i])
    case _ => true
  }

  /** Value and hash nodes have no children: they are left as they are. */
  function Bare(n: Node): Collapsed {
    match n
    case ValueNode(v) => Value(v)
    case HashNode(h) => HashRef(h)
    case _ => NoNode
  }

  /** `shortnodeToHash` and `fullnodeToHash`, with the result cached in the copy. */
  function Seal(collapsed: Collapsed, copy: Node, force: bool): Hashing
    requires copy.ShortNode? || copy.FullNode?
  {
    var enc := Encode(collapsed);
    if |enc| < 32 && !force then
      Hashing(collapsed, copy.(flags := copy.flags.(hash := None)))
    else
      Hashing(HashRef(Keccak(enc)), copy.(flags := copy.flags.(hash := Some(Keccak(enc)))))
  }

  function Hash(n: Node, force: bool): Hashing
    requires HexKeys(n)
    decreases n
  {
    match n
    case ShortNode(k, v, f) =>
      if f.hash.Some? then
        Hashing(HashRef(f.hash.value), n)
      else
        var child := Hash(v, false);
        Seal(RawShort(HexToCompact(k), child.hashed), ShortNode(k, child.cached, f), force)
    case FullNode(cs, f) =>
      if f.hash.Some? then
        Hashing(HashRef(f.hash.value), n)
      else
        Seal(RawFull(HashedAll(cs)), FullNode(CachedAll(cs), f), force)
    case _ => Hashing(Bare(n), n)
  }

  function HashedAll(ns: seq<Node>): (cs: seq<Collapsed>)
    requires forall i | 0 <= i < |ns| :: HexKeys(ns[i])
    ensures |cs| == |ns| && forall i | 0 <= i < |ns| :: cs[i] == Hash(ns[i], false).hashed
    decreases ns
  {
    if ns == [] then [] else [Hash(ns[0], false).hashed] + HashedAll(ns[1..])
  }

  function CachedAll(ns: seq<Node>): (cs: seq<Node>)
    requires forall i | 0 <= i < |ns| :: HexKeys(ns[i])
    ensures |cs| == |ns| && forall i | 0 <= i < |ns| :: cs[i] == Hash(ns[i], false).cached
    decreases ns
  {
    if ns == [] then [] else [Hash(ns[0], false).cached] + CachedAll(ns[1..])
  }

  lemma {:induction false} RepresentsHexKeys(n: Node, t: Tree, db: Store, root: bool)
    requires Minimal(t) && Represents(n, t, db, root)
    ensures HexKeys(n)
    decreases t
  {
    match n
    case ShortNode(k, v, _) => RepresentsHexKeys(v, t.child, db, false);
    case FullNode(cs, _) =>
      forall i | 0 <= i < 17 ensures HexKeys(cs[i]) {
        RepresentsHexKeys(cs[i], t.children[i], db, false);
      }
    case _ =>
  }

  ghost predicate HashedAs(r: Hashing, t: Tree, db: Store, root: bool)
    requires Minimal(t)
  {
    && Represents(r.cached, t, db, root) && Hashed(r.cached, t)
    && r.hashed == (if root && IsInner(t) then HashRef(Keccak(Enc(t))) else RefTo(t))
    && (root ==> HasHash(r.cached))
  }

  /** A loaded node with its hash cached, or one that cannot have any. */
  predicate HasHash(n: Node) {
    n.ShortNode? || n.FullNode? ==> n.flags.hash.Some?
  }

  /**
   Hashing with any mixture of cached hashes, hash-only subtrees and embedded short nodes computes
   the hash of the abstract trie, and changes nothing but caches.
   */
  lemma {:induction false} HashCorrect(n: Node, t: Tree, db: Store, root: bool)
    requires Minimal(t) && Represents(n, t, db, root)
    ensures HexKeys(n) && HashedAs(Hash(n, root), t, db, root)
    decreases t
  {
    RepresentsHexKeys(n, t, db, root);
    match n
    case ShortNode(k, v, f) =>
      if f.hash.None? {
        HashCorrect(v, t.child, db, false);
        SealCorrect(Collapse(t), ShortNode(k, Hash(v, false).cached, f), t, db, root);
      }
    case FullNode(cs, f) =>
      if f.hash.None? {
        forall i | 0 <= i < 17 ensures HexKeys(cs[i]) && HashedAs(Hash(cs[i], false), t.children[i], db, false) {
          HashCorrect(cs[i], t.children[i], db, false);
        }
        assert HashedAll(cs) == RefsTo(t.children);
        SealCorrect(Collapse(t), FullNode(CachedAll(cs), f), t, db, root);
      }
    case _ =>
  }

  lemma SealCorrect(collapsed: Collapsed, copy: Node, t: Tree, db: Store, root: bool)
    requires Minimal(t) && IsInner(t) && collapsed == Collapse(t)
    requires copy.ShortNode? || copy.FullNode?
    requires Represents(copy, t, db, root) && copy.flags.hash.None?
    requires copy.ShortNode? ==> Hashed(copy.val, t.child)
    requires copy.FullNode? ==> forall i | 0 <= i < 17 :: Hashed(copy.children[i], t.children[i])
    ensures HashedAs(Seal(collapsed, copy, root), t, db, root)
  {}

  /** The collapsed node that `proofHash` returns. */
  function CollapseNode(n: Node): Collapsed
    requires HexKeys(n)
  {
    match n
    case ShortNode(k, v, _) => RawShort(HexToCompact(k), Hash(v, false).hashed)
    case FullNode(cs, _) => RawFull(HashedAll(cs))
    case _ => Bare(n)
  }

  lemma CollapseNodeCorrect(n: Node, t: Tree, db: Store, root: bool)
    requires Minimal(t) && IsInner(t) && Represents(n, t, db, root) && !n.HashNode?
    ensures HexKeys(n) && CollapseNode(n) == Collapse(t)
  {
    RepresentsHexKeys(n, t, db, root);
    match n
    case ShortNode(k, v, _) => HashCorrect(v, t.child, db, false);
    case FullNode(cs, _) =>
      forall i | 0 <= i < 17 ensures HashedAll(cs)[i] == RefTo(t.children[i]) {
        HashCorrect(cs[i], t.children[i], db, false);
      }
      assert HashedAll(cs) == RefsTo(t.children);
  }
}
