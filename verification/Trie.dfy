/**
 trie/trie.go: a trie whose nodes are loaded on demand.  `get`, `insert` and `delete` are recursive and
 copy on write; the trie object holds the root and the tracer.
 */
module Trie {
  import opened Bytes
  import opened HexEncoding
  import opened Nodes
  import opened Tree
  import opened TreeEncoding
  import opened Store
  import opened Tracer
  import opened AccessList
  import Hasher

  const NEW_FLAG: Flags := Flags(None, true)

  const ZERO_HASH: Hash32 := [0, 0, 0, 0, 0, 0, 0, 0, 0, 0, 0, 0, 0, 0, 0, 0,
                              0, 0, 0, 0, 0, 0, 0, 0, 0, 0, 0, 0, 0, 0, 0, 0]

  function NilChildren(): (cs: seq<Node>)
    ensures |cs| == 17 && forall i | 0 <= i < 17 :: cs[i] == NilNode
  {
    [NilNode, NilNode, NilNode, NilNode, NilNode, NilNode, NilNode, NilNode, NilNode,
     NilNode, NilNode, NilNode, NilNode, NilNode, NilNode, NilNode, NilNode]
  }

  function HangNode(key: Hex, n: Node): Node {
    if key == [] then n else ShortNode(key, n, NEW_FLAG)
  }

  function ForkNode(k: Hex, v: Node, key: Hex, leaf: Node, m: nat): Node
    requires m < |k| && m < |key|
  {
    FullNode(NilChildren()[k[m] := HangNode(k[m + 1..], v)][key[m] := HangNode(key[m + 1..], leaf)], NEW_FLAG)
  }

  lemma HangRepresents(k: Hex, n: Node, c: Tree, db: Store, i: int)
    requires 0 <= i < |k| && IsHex(k) && Minimal(c) && (if HasTerm(k) then c.Leaf? else c.Branch?)
    requires Represents(n, c, db, false)
    ensures Minimal(Hang(k[i + 1..], c)) && Represents(HangNode(k[i + 1..], n), Hang(k[i + 1..], c), db, false)
  {
    HangMinimal(k, c, i);
  }

  lemma ForkRepresents(k: Hex, v: Node, c: Tree, key: Hex, value: Bytes, m: nat, db: Store, root: bool)
    requires Minimal(Ext(k, c)) && IsKey(key) && value != [] && Represents(v, c, db, false)
    requires m < |k| && m < |key| && k[m] != key[m]
    ensures Minimal(Fork(k, c, key, Leaf(value), m))
    ensures Represents(ForkNode(k, v, key, ValueNode(value), m), Fork(k, c, key, Leaf(value), m), db, root)
  {
    ForkMinimal(k, c, key, value, m);
    HangRepresents(k, v, c, db, m);
    HangRepresents(key, ValueNode(value), Leaf(value), db, m);
  }

  lemma PutForkRepresents(n: Node, t: Tree, key: Hex, value: Bytes, m: nat, db: Store, root: bool)
    requires Minimal(t) && IsKey(key) && Represents(n, t, db, root) && n.ShortNode? && value != []
    requires m == PrefixLen(key, n.key) < |n.key| && m < |key|
    ensures var branch := ForkNode(n.key, n.val, key, ValueNode(value), m);
            && Minimal(Put(t, key, value))
            && Represents(if m == 0 then branch else ShortNode(key[..m], branch, NEW_FLAG), Put(t, key, value), db, root)
  {
    PutMinimal(t, key, value);
    ForkRepresents(n.key, n.val, t.child, key, value, m, db, m == 0 && root);
  }

  /** What `Place`, `Place` and `OnInsert` report. */
  lemma ForkTraced(s: Changes, k: Hex, key: Hex, prefix: Hex, m: nat)
    requires m < |k| && m < |key|
    ensures var s1 := AfterInserts(s, HangPaths(prefix + k[..m + 1], k[m + 1..]));
            var s2 := AfterInserts(s1, HangPaths(prefix + key[..m + 1], key[m + 1..]));
            AfterInserts(s, ForkPaths(k, key, prefix, m)) == if m == 0 then s2 else AfterInsert(s2, prefix + key[..m])
  {
    var p1, p2 := HangPaths(prefix + k[..m + 1], k[m + 1..]), HangPaths(prefix + key[..m + 1], key[m + 1..]);
    AfterInsertsAppend(s, p1, p2);
    if m == 0 {
      assert p1 + p2 + [] == p1 + p2;
    } else {
      AfterInsertsAppend(s, p1 + p2, [prefix + key[..m]]);
    }
  }

  lemma ShortStep(t: Tree, key: Hex, pos: nat)
    requires Minimal(t) && t.Ext? && pos + |t.key| <= |key| && IsKey(key[pos..]) && t.key == key[pos..pos + |t.key|]
    ensures KeyFor(t.child, key[pos + |t.key|..]) && Lookup(t, key[pos..]) == Lookup(t.child, key[pos + |t.key|..])
    ensures key[..pos + |t.key|] == key[..pos] + t.key
  {
    ExtStep(t.key, t.child, key[pos..]);
    assert key[pos..][|t.key|..] == key[pos + |t.key|..];
  }

  lemma ShortMiss(t: Tree, key: Hex, pos: nat)
    requires t.Ext? && pos <= |key|
    requires |key| - pos < |t.key| || t.key != key[pos..pos + |t.key|]
    ensures Lookup(t, key[pos..]) == None
  {
    if |t.key| <= |key| - pos {
      assert key[pos..pos + |t.key|] == key[pos..][..|t.key|];
    }
  }

  lemma FullStep(t: Tree, key: Hex, pos: nat)
    requires Minimal(t) && t.Branch? && pos <= |key| && IsKey(key[pos..])
    ensures pos < |key| && CanPut(t.children[key[pos]], key[pos + 1..])
    ensures Lookup(t, key[pos..]) == Lookup(t.children[key[pos]], key[pos + 1..])
  {
    BranchStep(t.children, key[pos..]);
    assert key[pos..][1..] == key[pos + 1..];
  }

  /** `n'` is `n` with more of the same trie loaded. */
  ghost predicate Reloads(n: Node, n': Node, t: Tree, db: Store, root: bool)
    requires Minimal(t)
  {
    Represents(n', t, db, root) && (Hashed(n, t) ==> Hashed(n', t))
  }

  lemma ReloadShort(n: Node, child: Node, t: Tree, db: Store, root: bool)
    requires Minimal(t) && Represents(n, t, db, root) && n.ShortNode? && Reloads(n.val, child, t.child, db, false)
    ensures Reloads(n, n.(val := child), t, db, root)
  {}

  /** A short node whose child may have been loaded. */
  lemma ShortLoaded(n: Node, t: Tree, child: Node, prefix: Hex, base: Tree, access: Access, access': Access, db: Store, root: bool)
    requires Minimal(t) && Represents(n, t, db, root) && n.ShortNode? && Reloads(n.val, child, t.child, db, false)
    requires Watches(n, t, prefix, base, access) && access.Keys <= access'.Keys
    requires Watches(child, t.child, prefix + n.key, base, access')
    ensures Reloads(n, n.(val := child), t, db, root) && Watches(n.(val := child), t, prefix, base, access')
  {
    ReloadShort(n, child, t, db, root);
    ShortReloaded(n, t, child, prefix, base, access, access');
  }

  lemma ReloadFull(n: Node, i: nat, child: Node, t: Tree, db: Store, root: bool)
    requires Minimal(t) && Represents(n, t, db, root) && n.FullNode? && i < 17
    requires Reloads(n.children[i], child, t.children[i], db, false)
    ensures Reloads(n, n.(children := n.children[i := child]), t, db, root)
  {}

  // ---------- The account of what has been read ----------

  lemma PrefixedTracks(k: Hex, child: Node, c: Tree, prefix: Hex, base: Tree, access: Access)
    requires Minimal(c) && Minimal(base) && (c.Ext? || c.Branch?) && Minimal(Prefixed(k, c)) && k != []
    requires SeenBut(access, base, prefix, k) && Tracks(child, c, prefix + k, base, access)
    requires child.ShortNode? ==> c.Ext? && child.key == c.key
    ensures child.ShortNode? ==> Tracks(ShortNode(k + child.key, child.val, NEW_FLAG), Prefixed(k, c), prefix, base, access)
    ensures c.Branch? ==> Tracks(ShortNode(k, child, NEW_FLAG), Prefixed(k, c), prefix, base, access)
  {
    if child.ShortNode? {
      ShortChild(child, c, prefix + k, base, access);
      SeenButFurther(access, base, prefix, k, child.key);
      assert prefix + k + child.key == prefix + (k + child.key);
      ShortMade(k + child.key, child.val, NEW_FLAG, c.child, prefix, base, access);
    }
    if c.Branch? {
      ShortMade(k, child, NEW_FLAG, c, prefix, base, access);
    }
  }

  /** A subtree moved below the digits `k[..i + 1]` that lead to it anyway. */
  lemma HangTracks(k: Hex, v: Node, c: Tree, i: nat, prefix: Hex, base: Tree, access: Access)
    requires i < |k| && Minimal(c) && Minimal(Hang(k[i + 1..], c)) && Minimal(base)
    requires SeenBut(access, base, prefix, k) && Tracks(v, c, prefix + k, base, access)
    ensures Tracks(HangNode(k[i + 1..], v), Hang(k[i + 1..], c), prefix + k[..i + 1], base, access)
  {
    if i + 1 == |k| {
      assert k[..i + 1] == k;
    } else {
      SeenButBelow(access, base, prefix, k, i + 1);
      assert prefix + k[..i + 1] + k[i + 1..] == prefix + k;
      ShortMade(k[i + 1..], v, NEW_FLAG, c, prefix + k[..i + 1], base, access);
    }
  }

  lemma HangValueTracks(k: Hex, value: Bytes, prefix: Hex, base: Tree, access: Access)
    requires Minimal(Hang(k, Leaf(value))) && Minimal(Leaf(value)) && Minimal(base) && AllSeen(access, base, prefix)
    ensures Tracks(HangNode(k, ValueNode(value)), Hang(k, Leaf(value)), prefix, base, access)
  {
    if k == [] {
      BareTracks(ValueNode(value), Leaf(value), prefix, base, access);
    } else {
      forall r ensures SeenAt(access, base, prefix + k + r) {
        assert prefix + k + r == prefix + (k + r);
      }
      BareTracks(ValueNode(value), Leaf(value), prefix + k, base, access);
      ShortMade(k, ValueNode(value), NEW_FLAG, Leaf(value), prefix, base, access);
    }
  }

  lemma ForkChildTracks(k: Hex, v: Node, c: Tree, key: Hex, value: Bytes, m: nat, j: HexDigit, prefix: Hex, base: Tree, access: Access)
    requires Minimal(Ext(k, c)) && IsKey(key) && value != [] && Minimal(base) && m < |k| && m < |key| && k[m] != key[m]
    requires SeenBut(access, base, prefix, k) && Tracks(v, c, prefix + k, base, access) && Minimal(Fork(k, c, key, Leaf(value), m))
    ensures Tracks(ForkNode(k, v, key, ValueNode(value), m).children[j], Fork(k, c, key, Leaf(value), m).children[j],
                   prefix + k[..m] + [j], base, access)
  {
    assert Minimal(Fork(k, c, key, Leaf(value), m).children[j]);
    if j == k[m] {
      HangTracks(k, v, c, m, prefix, base, access);
      assert prefix + k[..m + 1] == prefix + k[..m] + [j];
    } else {
      SeenButBelow(access, base, prefix, k, m);
      SeenBeside(access, base, prefix + k[..m], k[m..], [j]);
      if j == key[m] {
        HangValueTracks(key[m + 1..], value, prefix + k[..m] + [j], base, access);
      } else {
        BareTracks(NilNode, Empty, prefix + k[..m] + [j], base, access);
      }
    }
  }

  lemma ForkTracks(k: Hex, v: Node, c: Tree, key: Hex, value: Bytes, m: nat, prefix: Hex, base: Tree, access: Access)
    requires Minimal(Ext(k, c)) && IsKey(key) && value != [] && Minimal(base) && m < |k| && m < |key| && k[m] != key[m]
    requires SeenBut(access, base, prefix, k) && Tracks(v, c, prefix + k, base, access) && Minimal(Fork(k, c, key, Leaf(value), m))
    ensures Tracks(ForkNode(k, v, key, ValueNode(value), m), Fork(k, c, key, Leaf(value), m), prefix + k[..m], base, access)
  {
    var n, t := ForkNode(k, v, key, ValueNode(value), m), Fork(k, c, key, Leaf(value), m);
    SeenButBelow(access, base, prefix, k, m);
    assert SeenAt(access, base, prefix + k[..m]) by {
      assert prefix + k[..m] + [] == prefix + k[..m] && !(k[m..] <= []);
    }
    forall j | 0 <= j < 17 ensures Tracks(n.children[j], t.children[j], prefix + k[..m] + [j], base, access) {
      ForkChildTracks(k, v, c, key, value, m, j, prefix, base, access);
    }
    FullMade(n.children, t.children, NEW_FLAG, prefix + k[..m], base, access);
  }

  lemma PutForkTracks(n: Node, t: Tree, key: Hex, value: Bytes, m: nat, prefix: Hex, base: Tree, access: Access)
    requires Minimal(t) && t.Ext? && IsKey(key) && n.ShortNode? && n.key == t.key && value != [] && Minimal(base)
    requires m == PrefixLen(key, n.key) < |n.key| && m < |key| && Tracks(n, t, prefix, base, access)
    requires Minimal(Put(t, key, value))
    ensures var branch := ForkNode(n.key, n.val, key, ValueNode(value), m);
            Tracks(if m == 0 then branch else ShortNode(key[..m], branch, NEW_FLAG), Put(t, key, value), prefix, base, access)
  {
    ShortChild(n, t, prefix, base, access);
    ForkMinimal(n.key, t.child, key, value, m);
    ForkTracks(n.key, n.val, t.child, key, value, m, prefix, base, access);
    assert key[..m] == n.key[..m];
    if m == 0 {
      assert prefix + n.key[..m] == prefix;
    } else {
      SeenButAbove(access, base, prefix, n.key, m);
      ShortMade(key[..m], ForkNode(n.key, n.val, key, ValueNode(value), m), NEW_FLAG, Fork(n.key, t.child, key, Leaf(value), m),
                prefix, base, access);
    }
  }

  lemma SeenButMore(access: Access, access': Access, base: Tree, prefix: Hex, k: Hex)
    requires Minimal(base) && SeenBut(access, base, prefix, k) && access.Keys <= access'.Keys
    ensures SeenBut(access', base, prefix, k)
  {
    forall r | !(k <= r) ensures SeenAt(access', base, prefix + r) {
      assert SeenAt(access, base, prefix + r);
    }
  }

  lemma LeafGone(n: Node, t: Tree, prefix: Hex, base: Tree, access: Access)
    requires Minimal(t) && Minimal(base) && n.ShortNode? && n.val.ValueNode? && t.Ext? && n.key == t.key
    requires Tracks(n, t, prefix, base, access)
    ensures Tracks(NilNode, Empty, prefix, base, access)
  {
    forall r ensures TracksAt(NilNode, Empty, prefix, base, access, r) {
      assert TracksAt(n, t, prefix, base, access, r);
      assert n.key <= r ==> !Hidden(n.val, r[|n.key|..]);
    }
  }

  /** A new child below a short node, with more read than before. */
  lemma ShortTracks(n: Node, t: Tree, child: Node, c: Tree, prefix: Hex, base: Tree, access: Access, access': Access)
    requires Minimal(t) && Minimal(base) && n.ShortNode? && t.Ext? && n.key == t.key && access.Keys <= access'.Keys
    requires Tracks(n, t, prefix, base, access)
    requires Minimal(c) && Minimal(Ext(n.key, c)) && Tracks(child, c, prefix + n.key, base, access')
    ensures Tracks(ShortNode(n.key, child, NEW_FLAG), Ext(n.key, c), prefix, base, access') && Tracks(n, t, prefix, base, access')
  {
    ShortChild(n, t, prefix, base, access);
    SeenButMore(access, access', base, prefix, n.key);
    ShortMade(n.key, child, NEW_FLAG, c, prefix, base, access');
    TracksMore(n, t, prefix, base, access, access');
  }

  lemma FullTracks(n: Node, t: Tree, i: nat, child: Node, c: Tree, prefix: Hex, base: Tree, access: Access, access': Access)
    requires Minimal(t) && Minimal(base) && n.FullNode? && t.Branch? && |n.children| == 17 && i < 17
    requires access.Keys <= access'.Keys && Tracks(n, t, prefix, base, access)
    requires Minimal(c) && Minimal(Branch(t.children[i := c])) && Tracks(child, c, prefix + [i], base, access')
    ensures Tracks(FullNode(n.children[i := child], NEW_FLAG), Branch(t.children[i := c]), prefix, base, access')
    ensures Tracks(n, t, prefix, base, access')
  {
    FullChildren(n, t, prefix, base, access);
    ChildReplaced(n.children, t.children, i, child, c, prefix, base, access, access');
    FullMade(n.children[i := child], t.children[i := c], NEW_FLAG, prefix, base, access');
    TracksMore(n, t, prefix, base, access, access');
  }

  /** One child left: everything that was below the others has been read. */
  lemma LoneSeen(cs: seq<Node>, ts: seq<Tree>, pos: HexDigit, prefix: Hex, base: Tree, access: Access)
    requires Minimal(base) && AllTracked(cs, ts, prefix, base, access)
    requires forall i | 0 <= i < 17 && i != pos :: cs[i] == NilNode
    ensures SeenBut(access, base, prefix, [pos])
  {
    forall r | !([pos] <= r) ensures SeenAt(access, base, prefix + r) {
      if r == [] {
        assert prefix + r == prefix;
      } else {
        assert r == [r[0]] + r[1..] && prefix + r == prefix + [r[0]] + r[1..] && r[0] != pos;
        assert Tracks(cs[r[0]], ts[r[0]], prefix + [r[0]], base, access);
        assert TracksAt(cs[r[0]], ts[r[0]], prefix + [r[0]], base, access, r[1..]);
      }
    }
  }

  /** Caching hashes changes neither what is hidden nor what a commit leaves alone. */
  lemma {:induction false} HashKeeps(n: Node, t: Tree, db: Store, root: bool, q: Hex)
    requires Minimal(t) && Represents(n, t, db, root) && Hasher.HexKeys(n)
    ensures Hidden(Hasher.Hash(n, root).cached, q) <==> Hidden(n, q)
    ensures Kept(Hasher.Hash(n, root).cached, q) <==> Kept(n, q)
    decreases t
  {
    match n
    case ShortNode(k, v, f) =>
      if f.hash.None? {
        SealedFlags(n, t, db, root);
        if k <= q {
          HashKeeps(v, t.child, db, false, q[|k|..]);
        }
      }
    case FullNode(cs, f) =>
      if f.hash.None? {
        SealedFlags(n, t, db, root);
        if q != [] {
          HashKeeps(cs[q[0]], t.children[q[0]], db, false, q[1..]);
        }
      }
    case _ =>
  }

  /** A node that gets a hash is dirty, so it does not become clean. */
  lemma SealedFlags(n: Node, t: Tree, db: Store, root: bool)
    requires Minimal(t) && Represents(n, t, db, root) && Hasher.HexKeys(n) && (n.ShortNode? || n.FullNode?) && n.flags.hash.None?
    ensures var n' := Hasher.Hash(n, root).cached;
            && !Clean(n'.flags)
            && (n.ShortNode? ==> n' == ShortNode(n.key, Hasher.Hash(n.val, false).cached, n'.flags))
            && (n.FullNode? ==> n' == FullNode(Hasher.CachedAll(n.children), n'.flags))
  {
    Hasher.HashCorrect(n, t, db, root);
  }

  lemma HashTracks(n: Node, t: Tree, db: Store, root: bool, prefix: Hex, base: Tree, access: Access)
    requires Minimal(t) && Represents(n, t, db, root) && Hasher.HexKeys(n) && Minimal(base) && Tracks(n, t, prefix, base, access)
    ensures Tracks(Hasher.Hash(n, root).cached, t, prefix, base, access)
  {
    forall r ensures TracksAt(Hasher.Hash(n, root).cached, t, prefix, base, access, r) {
      HashKeeps(n, t, db, root, r);
      assert TracksAt(n, t, prefix, base, access, r);
    }
  }

  class Trie {
    var root: Node
    var unhashed: nat
    const db: Store
    const tracer: Tracer

    ghost var tree: Tree

    /** The trie as it was loaded. */
    ghost const base: Tree

    /** The root stands for `tree`, and the tracer knows what has been read and what changed since `base` was loaded. */
    ghost predicate Valid()
      reads this, tracer
    {
      && Minimal(tree) && !tree.Leaf? && Represents(root, tree, db, true)
      && Minimal(base) && Exact(tracer.State(), NodePaths(base), NodePaths(tree))
      && Watches(root, tree, [], base, tracer.accessList)
    }

    /** `New`: the trie with root hash `rootHash`, read from `db`. */
    constructor (rootHash: Hash32, db: Store, ghost t: Tree)
      requires Minimal(t) && !t.Leaf?
      requires IsInner(t) ==> rootHash == RootHash(t) && Saved(db, t) && rootHash != ZERO_HASH && rootHash != EMPTY_ROOT
      requires t.Empty? ==> rootHash == ZERO_HASH || rootHash == EMPTY_ROOT
      ensures Valid() && tree == t && base == t && this.db == db && fresh(tracer)
    {
      this.db := db;
      tracer := new Tracer();
      root, unhashed := NilNode, 0;
      tree, base := t, t;
      new;
      OpenTracks(rootHash, t);
      if rootHash != ZERO_HASH && rootHash != EMPTY_ROOT {
        root := ResolveAndTrack(rootHash, [], t, true);
      }
    }

    /** `resolveAndTrack`. */
    method ResolveAndTrack(hash: Hash32, prefix: Hex, ghost t: Tree, ghost isRoot: bool) returns (n: Node)
      requires Minimal(t) && IsInner(t) && IsHashOf(HashNode(hash), t, db, isRoot) && (isRoot ==> prefix == [])
      requires Watches(HashNode(hash), t, prefix, base, tracer.accessList)
      modifies tracer`accessList
      ensures Represents(n, t, db, isRoot) && Hashed(n, t) && !n.HashNode?
      ensures tracer.accessList == old(tracer.accessList)[prefix := Enc(t)] && Watches(n, t, prefix, base, tracer.accessList)
    {
      ResolveTracks(hash, t, prefix, base, tracer.accessList);
      tracer.OnRead(prefix, db[hash]);
      ResolveRepresents(db, hash, t, isRoot);
      n := Resolve(db, hash, t);
    }

    /** `get`: the answer, and the node with whatever had to be loaded on the way. */
    method GetAt(n: Node, ghost t: Tree, key: Hex, pos: nat, ghost isRoot: bool)
      returns (value: Option<Bytes>, newNode: Node, didResolve: bool)
      requires pos <= |key| && CanPut(t, key[pos..]) && Represents(n, t, db, isRoot) && (isRoot ==> pos == 0)
      requires Watches(n, t, key[..pos], base, tracer.accessList)
      modifies tracer`accessList
      ensures value == Lookup(t, key[pos..]) && Reloads(n, newNode, t, db, isRoot) && (!didResolve ==> newNode == n)
      ensures Watches(newNode, t, key[..pos], base, tracer.accessList) && old(tracer.accessList).Keys <= tracer.accessList.Keys
      decreases t, if n.HashNode? then 3 else 2
    {
      match n
      case NilNode => return None, n, false;
      case ValueNode(v) => return Some(v), n, false;
      case ShortNode(_, _, _) =>
        value, newNode, didResolve := GetShort(n, t, key, pos, isRoot);
      case FullNode(_, _) =>
        value, newNode, didResolve := GetFull(n, t, key, pos, isRoot);
      case HashNode(h) =>
        var child := ResolveAndTrack(h, key[..pos], t, isRoot);
        value, newNode, didResolve := GetAt(child, t, key, pos, isRoot);
        didResolve := true;
    }

    method GetShort(n: Node, ghost t: Tree, key: Hex, pos: nat, ghost isRoot: bool)
      returns (value: Option<Bytes>, newNode: Node, didResolve: bool)
      requires pos <= |key| && CanPut(t, key[pos..]) && Represents(n, t, db, isRoot) && n.ShortNode? && (isRoot ==> pos == 0)
      requires Watches(n, t, key[..pos], base, tracer.accessList)
      modifies tracer`accessList
      ensures value == Lookup(t, key[pos..]) && Reloads(n, newNode, t, db, isRoot) && (!didResolve ==> newNode == n)
      ensures Watches(newNode, t, key[..pos], base, tracer.accessList) && old(tracer.accessList).Keys <= tracer.accessList.Keys
      decreases t, 1
    {
      var k := n.key;
      assert k == t.key;
      if |key| - pos < |k| || k != key[pos..pos + |k|] {
        ShortMiss(t, key, pos);
        return None, n, false;
      }
      value, newNode, didResolve := GetBelow(n, t, key, pos, isRoot);
    }

    /** The key goes on below a short node. */
    method GetBelow(n: Node, ghost t: Tree, key: Hex, pos: nat, ghost isRoot: bool)
      returns (value: Option<Bytes>, newNode: Node, didResolve: bool)
      requires pos <= |key| && CanPut(t, key[pos..]) && Represents(n, t, db, isRoot) && n.ShortNode? && (isRoot ==> pos == 0)
      requires n.key == t.key && |key| - pos >= |n.key| && n.key == key[pos..pos + |n.key|]
      requires Watches(n, t, key[..pos], base, tracer.accessList)
      modifies tracer`accessList
      ensures value == Lookup(t, key[pos..]) && Reloads(n, newNode, t, db, isRoot) && (!didResolve ==> newNode == n)
      ensures Watches(newNode, t, key[..pos], base, tracer.accessList) && old(tracer.accessList).Keys <= tracer.accessList.Keys
      decreases t, 0
    {
      var k := n.key;
      ShortStep(t, key, pos);
      ghost var access := tracer.accessList;
      ShortChild(n, t, key[..pos], base, access);
      assert key[..pos + |k|] == key[..pos] + k;
      var child;
      value, child, didResolve := GetAt(n.val, t.child, key, pos + |k|, false);
      newNode := if didResolve then n.(val := child) else n;
      assert newNode == n.(val := child);
      ShortLoaded(n, t, child, key[..pos], base, access, tracer.accessList, db, isRoot);
    }

    method GetFull(n: Node, ghost t: Tree, key: Hex, pos: nat, ghost isRoot: bool)
      returns (value: Option<Bytes>, newNode: Node, didResolve: bool)
      requires pos <= |key| && CanPut(t, key[pos..]) && Represents(n, t, db, isRoot) && n.FullNode? && (isRoot ==> pos == 0)
      requires Watches(n, t, key[..pos], base, tracer.accessList)
      modifies tracer`accessList
      ensures value == Lookup(t, key[pos..]) && Reloads(n, newNode, t, db, isRoot) && (!didResolve ==> newNode == n)
      ensures Watches(newNode, t, key[..pos], base, tracer.accessList) && old(tracer.accessList).Keys <= tracer.accessList.Keys
      decreases t, 0
    {
      FullStep(t, key, pos);
      ghost var access := tracer.accessList;
      FullChildren(n, t, key[..pos], base, access);
      assert key[..pos + 1] == key[..pos] + [key[pos]];
      var child;
      value, child, didResolve := GetAt(n.children[key[pos]], t.children[key[pos]], key, pos + 1, false);
      newNode := if didResolve then n.(children := n.children[key[pos] := child]) else n;
      assert newNode.children == n.children[key[pos] := child];
      ReloadFull(n, key[pos], child, t, db, isRoot);
      FullReloaded(n, t, key[pos], child, key[..pos], base, access, tracer.accessList);
    }

    /** `insert(nil, prefix, key, value)`. */
    method Place(prefix: Hex, key: Hex, value: Node) returns (n: Node)
      modifies tracer`inserts, tracer`deletes
      ensures n == HangNode(key, value)
      ensures tracer.State() == AfterInserts(old(tracer.State()), HangPaths(prefix, key))
    {
      if |key| == 0 {
        return value;
      }
      tracer.OnInsert(prefix);
      n := ShortNode(key, value, NEW_FLAG);
    }

    method Insert(n: Node, ghost t: Tree, prefix: Hex, key: Hex, value: Bytes, ghost isRoot: bool)
      returns (dirty: bool, nn: Node)
      requires CanPut(t, key) && Represents(n, t, db, isRoot) && value != [] && (isRoot ==> prefix == [])
      requires Watches(n, t, prefix, base, tracer.accessList)
      modifies tracer
      ensures Minimal(PutChild(t, key, value)) && Represents(nn, PutChild(t, key, value), db, isRoot)
      ensures Watches(nn, PutChild(t, key, value), prefix, base, tracer.accessList)
      ensures old(tracer.accessList).Keys <= tracer.accessList.Keys
      ensures dirty <==> PutChild(t, key, value) != t
      ensures tracer.State() == AfterInserts(old(tracer.State()), PutPaths(t, prefix, key))
      decreases t, if n.HashNode? then 2 else 1
    {
      if |key| == 0 {
        BareSeen(n, t, prefix, base, tracer.accessList);
        BareTracks(ValueNode(value), Leaf(value), prefix, base, tracer.accessList);
        return n != ValueNode(value), ValueNode(value);
      }
      PutMinimal(t, key, value);
      match n
      case NilNode =>
        BareSeen(n, t, prefix, base, tracer.accessList);
        HangValueTracks(key, value, prefix, base, tracer.accessList);
        nn := Place(prefix, key, ValueNode(value));
        dirty := true;
      case ShortNode(k, v, _) =>
        dirty, nn := InsertShort(n, t, prefix, key, value, isRoot);
      case FullNode(cs, _) =>
        dirty, nn := InsertFull(n, t, prefix, key, value, isRoot);
      case HashNode(h) =>
        var rn := ResolveAndTrack(h, prefix, t, isRoot);
        ghost var access := tracer.accessList;
        dirty, nn := Insert(rn, t, prefix, key, value, isRoot);
        if !dirty {
          TracksMore(rn, t, prefix, base, access, tracer.accessList);
          nn := rn;
        }
    }

    method InsertFull(n: Node, ghost t: Tree, prefix: Hex, key: Hex, value: Bytes, ghost isRoot: bool)
      returns (dirty: bool, nn: Node)
      requires Minimal(t) && IsKey(key) && Represents(n, t, db, isRoot) && n.FullNode? && value != []
      requires Watches(n, t, prefix, base, tracer.accessList)
      modifies tracer
      ensures Minimal(Put(t, key, value)) && Represents(nn, Put(t, key, value), db, isRoot)
      ensures Watches(nn, Put(t, key, value), prefix, base, tracer.accessList)
      ensures old(tracer.accessList).Keys <= tracer.accessList.Keys
      ensures dirty <==> Put(t, key, value) != t
      ensures tracer.State() == AfterInserts(old(tracer.State()), PutPaths(t, prefix, key))
      decreases t, 0
    {
      PutMinimal(t, key, value);
      BranchStep(t.children, key);
      FullChildren(n, t, prefix, base, tracer.accessList);
      ghost var i, c := key[0], PutChild(t.children[key[0]], key[1..], value);
      var child;
      dirty, child := Insert(n.children[key[0]], t.children[i], prefix + [key[0]], key[1..], value, false);
      FullUpdated(n, t, i, child, c, db, isRoot);
      FullTracks(n, t, i, child, c, prefix, base, old(tracer.accessList), tracer.accessList);
      nn := if dirty then FullNode(n.children[key[0] := child], NEW_FLAG) else n;
    }

    method InsertShort(n: Node, ghost t: Tree, prefix: Hex, key: Hex, value: Bytes, ghost isRoot: bool)
      returns (dirty: bool, nn: Node)
      requires Minimal(t) && IsKey(key) && Represents(n, t, db, isRoot) && n.ShortNode? && value != []
      requires Watches(n, t, prefix, base, tracer.accessList)
      modifies tracer
      ensures Minimal(Put(t, key, value)) && Represents(nn, Put(t, key, value), db, isRoot)
      ensures Watches(nn, Put(t, key, value), prefix, base, tracer.accessList)
      ensures old(tracer.accessList).Keys <= tracer.accessList.Keys
      ensures dirty <==> Put(t, key, value) != t
      ensures tracer.State() == AfterInserts(old(tracer.State()), PutPaths(t, prefix, key))
      decreases t, 0
    {
      PutMinimal(t, key, value);
      var m := CommonPrefix(key, n.key);
      if m == |n.key| {
        PutBelow(t, key, value, prefix);
        ShortChild(n, t, prefix, base, tracer.accessList);
        var child;
        dirty, child := Insert(n.val, t.child, prefix + key[..m], key[m..], value, false);
        ShortTracks(n, t, child, PutChild(t.child, key[m..], value), prefix, base, old(tracer.accessList), tracer.accessList);
        nn := if dirty then ShortNode(n.key, child, NEW_FLAG) else n;
      } else {
        KeysDiverge(key, n.key);
        nn := InsertFork(n, t, prefix, key, value, m, isRoot);
        dirty := true;
      }
    }

    /** Branch out at the first digit where the keys differ. */
    method InsertFork(n: Node, ghost t: Tree, prefix: Hex, key: Hex, value: Bytes, m: nat, ghost isRoot: bool)
      returns (nn: Node)
      requires Minimal(t) && IsKey(key) && Represents(n, t, db, isRoot) && n.ShortNode? && value != []
      requires m == PrefixLen(key, n.key) < |n.key| && m < |key| && Watches(n, t, prefix, base, tracer.accessList)
      modifies tracer`inserts, tracer`deletes
      ensures Minimal(Put(t, key, value)) && Represents(nn, Put(t, key, value), db, isRoot)
      ensures Watches(nn, Put(t, key, value), prefix, base, tracer.accessList)
      ensures tracer.State() == AfterInserts(old(tracer.State()), ForkPaths(n.key, key, prefix, m))
    {
      ForkTraced(tracer.State(), n.key, key, prefix, m);
      PutForkRepresents(n, t, key, value, m, db, isRoot);
      PutForkTracks(n, t, key, value, m, prefix, base, tracer.accessList);
      var older := Place(prefix + n.key[..m + 1], n.key[m + 1..], n.val);
      var newer := Place(prefix + key[..m + 1], key[m + 1..], ValueNode(value));
      nn := FullNode(NilChildren()[n.key[m] := older][key[m] := newer], NEW_FLAG);
      assert nn == ForkNode(n.key, n.val, key, ValueNode(value), m);
      if m > 0 {
        tracer.OnInsert(prefix + key[..m]);
        nn := ShortNode(key[..m], nn, NEW_FLAG);
      }
    }

    method Delete(n: Node, ghost t: Tree, prefix: Hex, key: Hex, ghost isRoot: bool)
      returns (dirty: bool, nn: Node)
      requires CanPut(t, key) && Represents(n, t, db, isRoot) && (isRoot ==> prefix == [])
      requires Watches(n, t, prefix, base, tracer.accessList)
      modifies tracer
      ensures Minimal(RemoveAt(t, key)) && Represents(nn, RemoveAt(t, key), db, isRoot)
      ensures Watches(nn, RemoveAt(t, key), prefix, base, tracer.accessList)
      ensures old(tracer.accessList).Keys <= tracer.accessList.Keys
      ensures (dirty <==> RemoveAt(t, key) != t) && (dirty ==> !nn.HashNode?)
      ensures tracer.State() == AfterDeletes(old(tracer.State()), RemovePathsAt(t, prefix, key))
      decreases t, if n.HashNode? then 2 else 1
    {
      match n
      case NilNode => return false, NilNode;
      case ValueNode(_) =>
        BareSeen(n, t, prefix, base, tracer.accessList);
        BareTracks(NilNode, Empty, prefix, base, tracer.accessList);
        return true, NilNode;
      case ShortNode(_, _, _) =>
        dirty, nn := DeleteShort(n, t, prefix, key, isRoot);
      case FullNode(_, _) =>
        dirty, nn := DeleteFull(n, t, prefix, key, isRoot);
      case HashNode(h) =>
        var rn := ResolveAndTrack(h, prefix, t, isRoot);
        ghost var access := tracer.accessList;
        dirty, nn := Delete(rn, t, prefix, key, isRoot);
        if !dirty {
          TracksMore(rn, t, prefix, base, access, tracer.accessList);
          nn := rn;
        }
    }

    method DeleteShort(n: Node, ghost t: Tree, prefix: Hex, key: Hex, ghost isRoot: bool)
      returns (dirty: bool, nn: Node)
      requires Minimal(t) && IsKey(key) && Represents(n, t, db, isRoot) && n.ShortNode?
      requires Watches(n, t, prefix, base, tracer.accessList)
      modifies tracer
      ensures Minimal(Remove(t, key)) && Represents(nn, Remove(t, key), db, isRoot)
      ensures Watches(nn, Remove(t, key), prefix, base, tracer.accessList)
      ensures old(tracer.accessList).Keys <= tracer.accessList.Keys
      ensures (dirty <==> Remove(t, key) != t) && (dirty ==> !nn.HashNode?)
      ensures tracer.State() == AfterDeletes(old(tracer.State()), RemovePaths(t, prefix, key))
      decreases t, 0
    {
      RemoveMinimal(t, key);
      var matchlen := CommonPrefix(key, n.key);
      if matchlen < |n.key| {
        return false, n;
      }
      if matchlen == |key| {
        LeafGone(n, t, prefix, base, tracer.accessList);
        tracer.OnDelete(prefix);
        return true, NilNode;
      }
      dirty, nn := DeleteBelow(n, t, prefix, key, isRoot);
    }

    method DeleteBelow(n: Node, ghost t: Tree, prefix: Hex, key: Hex, ghost isRoot: bool)
      returns (dirty: bool, nn: Node)
      requires Minimal(t) && t.Ext? && IsKey(key) && Represents(n, t, db, isRoot) && n.ShortNode? && Minimal(Remove(t, key))
      requires PrefixLen(key, n.key) == |n.key| < |key| && Watches(n, t, prefix, base, tracer.accessList)
      modifies tracer
      ensures Represents(nn, Remove(t, key), db, isRoot)
      ensures Watches(nn, Remove(t, key), prefix, base, tracer.accessList)
      ensures old(tracer.accessList).Keys <= tracer.accessList.Keys
      ensures (dirty <==> Remove(t, key) != t) && (dirty ==> !nn.HashNode?)
      ensures tracer.State() == AfterDeletes(old(tracer.State()), RemovePaths(t, prefix, key))
      decreases t, -1
    {
      ShortChild(n, t, prefix, base, tracer.accessList);
      RemoveBelow(t, key);
      ghost var s0 := tracer.State();
      var rest := key[|n.key|..];
      var child;
      dirty, child := Delete(n.val, t.child, prefix + key[..|n.key|], rest, false);
      ghost var c := Remove(t.child, rest);
      AfterDeletesAppend(s0, RemovePaths(t.child, prefix + n.key, rest), MergePaths(prefix + n.key, c));
      if !dirty {
        TracksMore(n, t, prefix, base, old(tracer.accessList), tracer.accessList);
        return false, n;
      }
      SeenButMore(old(tracer.accessList), tracer.accessList, base, prefix, n.key);
      nn := Rejoin(n.key, child, c, prefix, isRoot);
    }

    /** A short node above what is left of its child; two short nodes become one. */
    method Rejoin(key: Hex, child: Node, ghost c: Tree, prefix: Hex, ghost isRoot: bool) returns (nn: Node)
      requires key != [] && AllNibbles(key) && Minimal(c) && (c.Ext? || c.Branch?) && Represents(child, c, db, false)
      requires !child.HashNode? && Minimal(base) && AccessOk(tracer.accessList, base)
      requires SeenBut(tracer.accessList, base, prefix, key) && Tracks(child, c, prefix + key, base, tracer.accessList)
      modifies tracer`inserts, tracer`deletes
      ensures Minimal(Prefixed(key, c)) && Represents(nn, Prefixed(key, c), db, isRoot) && !nn.HashNode?
      ensures Watches(nn, Prefixed(key, c), prefix, base, tracer.accessList)
      ensures tracer.State() == AfterDeletes(old(tracer.State()), MergePaths(prefix + key, c))
    {
      PrefixedRepresents(key, child, c, db, isRoot);
      PrefixedTracks(key, child, c, prefix, base, tracer.accessList);
      if child.ShortNode? {
        tracer.OnDelete(prefix + key);
        return ShortNode(key + child.key, child.val, NEW_FLAG);
      }
      nn := ShortNode(key, child, NEW_FLAG);
    }

    method DeleteFull(n: Node, ghost t: Tree, prefix: Hex, key: Hex, ghost isRoot: bool)
      returns (dirty: bool, nn: Node)
      requires Minimal(t) && IsKey(key) && Represents(n, t, db, isRoot) && n.FullNode?
      requires Watches(n, t, prefix, base, tracer.accessList)
      modifies tracer
      ensures Minimal(Remove(t, key)) && Represents(nn, Remove(t, key), db, isRoot)
      ensures Watches(nn, Remove(t, key), prefix, base, tracer.accessList)
      ensures old(tracer.accessList).Keys <= tracer.accessList.Keys
      ensures (dirty <==> Remove(t, key) != t) && (dirty ==> !nn.HashNode?)
      ensures tracer.State() == AfterDeletes(old(tracer.State()), RemovePaths(t, prefix, key))
      decreases t, 0
    {
      ghost var s0, i := tracer.State(), key[0];
      RemoveInBranch(t, key);
      RemovePathsInBranch(t, prefix, key);
      ghost var below := RemovePathsAt(t.children[i], prefix + [i], key[1..]);
      FullChildren(n, t, prefix, base, tracer.accessList);
      var child;
      dirty, child := Delete(n.children[key[0]], t.children[i], prefix + [key[0]], key[1..], false);
      if !dirty {
        TracksMore(n, t, prefix, base, old(tracer.accessList), tracer.accessList);
        return false, n;
      }
      if child != NilNode {
        FullTracks(n, t, i, child, RemoveAt(t.children[i], key[1..]), prefix, base, old(tracer.accessList), tracer.accessList);
        FullUpdated(n, t, i, child, RemoveAt(t.children[i], key[1..]), db, isRoot);
        return true, FullNode(n.children[key[0] := child], NEW_FLAG);
      }
      AfterDeletesAppend(s0, below, ReducePaths(prefix, t.children[i := Empty]));
      FullEmptied(n, t, i, db, isRoot);
      ChildReplaced(n.children, t.children, i, NilNode, Empty, prefix, base, old(tracer.accessList), tracer.accessList);
      nn := ReduceFull(n.children[key[0] := child], t.children[i := Empty], prefix, isRoot);
    }

    /** Replace a full node with a single child left by a short node. */
    method ReduceFull(cs: seq<Node>, ghost ts: seq<Tree>, prefix: Hex, ghost isRoot: bool) returns (nn: Node)
      requires Remaining(cs, ts, db) && Minimal(Reduce(ts))
      requires Minimal(base) && AccessOk(tracer.accessList, base) && AllTracked(cs, ts, prefix, base, tracer.accessList)
      modifies tracer
      ensures Represents(nn, Reduce(ts), db, isRoot) && !nn.HashNode?
      ensures Watches(nn, Reduce(ts), prefix, base, tracer.accessList)
      ensures old(tracer.accessList).Keys <= tracer.accessList.Keys
      ensures tracer.State() == AfterDeletes(old(tracer.State()), ReducePaths(prefix, ts))
    {
      var pos := LoneChild(cs);
      LoneChildReduces(cs, ts, db, pos, prefix);
      if pos < 0 {
        FullMade(cs, ts, NEW_FLAG, prefix, base, tracer.accessList);
        return FullNode(cs, NEW_FLAG);
      }
      LoneSeen(cs, ts, pos, prefix, base, tracer.accessList);
      if pos != 16 {
        var cnode := cs[pos];
        if cnode.HashNode? {
          cnode := ResolveAndTrack(cnode.hash, prefix + [pos], ts[pos], false);
        }
        PrefixedRepresents([pos], cnode, ts[pos], db, isRoot);
        SeenButMore(old(tracer.accessList), tracer.accessList, base, prefix, [pos]);
        PrefixedTracks([pos], cnode, ts[pos], prefix, base, tracer.accessList);
        if cnode.ShortNode? {
          tracer.OnDelete(prefix + [pos]);
          return ShortNode([pos] + cnode.key, cnode.val, NEW_FLAG);
        }
        PrefixedRepresents([pos], cs[pos], ts[pos], db, isRoot);
        TracksMore(cs[pos], ts[pos], prefix + [pos], base, old(tracer.accessList), tracer.accessList);
        PrefixedTracks([pos], cs[pos], ts[pos], prefix, base, tracer.accessList);
      } else {
        ShortMade([pos], cs[pos], NEW_FLAG, ts[pos], prefix, base, tracer.accessList);
      }
      nn := ShortNode([pos], cs[pos], NEW_FLAG);
    }

    /** The index of the only child, -1 if there is none, -2 if there are several. */
    method LoneChild(cs: seq<Node>) returns (pos: int)
      requires |cs| == 17
      ensures -2 <= pos < 17
      ensures pos >= 0 ==> cs[pos] != NilNode && forall i | 0 <= i < 17 && i != pos :: cs[i] == NilNode
      ensures pos == -1 ==> forall i | 0 <= i < 17 :: cs[i] == NilNode
      ensures pos == -2 ==> exists i, j | 0 <= i < j < 17 :: cs[i] != NilNode && cs[j] != NilNode
    {
      pos := -1;
      for i := 0 to 17
        invariant -1 <= pos < i
        invariant pos >= 0 ==> cs[pos] != NilNode
        invariant forall j | 0 <= j < i && j != pos :: cs[j] == NilNode
      {
        if cs[i] != NilNode {
          if pos == -1 {
            pos := i;
          } else {
            return -2;
          }
        }
      }
    }

    method Get(key: Bytes) returns (value: Option<Bytes>)
      requires Valid()
      modifies this`root, tracer`accessList
      ensures Valid() && value == Lookup(tree, KeybytesToHex(key))
    {
      var k := KeybytesToHex(key);
      assert k[0..] == k && k[..0] == [];
      var newRoot, didResolve;
      value, newRoot, didResolve := GetAt(root, tree, k, 0, true);
      if didResolve {
        root := newRoot;
      }
    }

    /** `update`: an empty value deletes the key. */
    method Update(key: Bytes, value: Bytes)
      requires Valid()
      modifies this, tracer
      ensures Valid() && tree == Apply(old(tree), key, value)
    {
      if |value| != 0 {
        unhashed := unhashed + 1;
        var k := KeybytesToHex(key);
        PutKeepsExact(tracer.State(), NodePaths(base), tree, k, value);
        PutMinimal(tree, k, value);
        var dirty;
        dirty, root := Insert(root, tree, [], k, value, true);
        tree := Put(tree, k, value);
      } else {
        DeleteKey(key);
      }
    }

    /** `Delete`. */
    method DeleteKey(key: Bytes)
      requires Valid()
      modifies this, tracer
      ensures Valid() && tree == Apply(old(tree), key, [])
    {
      unhashed := unhashed + 1;
      var k := KeybytesToHex(key);
      RemoveKeepsExact(tracer.State(), NodePaths(base), tree, k);
      RemoveMinimal(tree, k);
      var dirty;
      dirty, root := Delete(root, tree, [], k, true);
      tree := Remove(tree, k);
    }

    method Hash() returns (hash: Hash32)
      requires Valid()
      modifies this`root, this`unhashed
      ensures Valid() && hash == RootHash(tree) && Hashed(root, tree) && Hasher.HasHash(root)
    {
      if root == NilNode {
        return EMPTY_ROOT;
      }
      Hasher.HashCorrect(root, tree, db, true);
      HashTracks(root, tree, db, true, [], base, tracer.accessList);
      var r := Hasher.Hash(root, true);
      root, unhashed := r.cached, 0;
      hash := r.hashed.hash;
    }
  }

  /** The effect of `Update` on the abstract trie. */
  function Apply(t: Tree, key: Bytes, value: Bytes): Tree
    requires Minimal(t) && !t.Leaf?
  {
    if value != [] then Put(t, KeybytesToHex(key), value) else Remove(t, KeybytesToHex(key))
  }

  lemma LoneChildReduces(cs: seq<Node>, ts: seq<Tree>, db: Store, pos: int, prefix: Hex)
    requires Remaining(cs, ts, db) && -2 <= pos < 17
    requires pos >= 0 ==> cs[pos] != NilNode && forall i | 0 <= i < 17 && i != pos :: cs[i] == NilNode
    requires pos == -1 ==> forall i | 0 <= i < 17 :: cs[i] == NilNode
    requires pos == -2 ==> exists i, j | 0 <= i < j < 17 :: cs[i] != NilNode && cs[j] != NilNode
    ensures pos >= 0 ==> Reduce(ts) == Prefixed([pos], ts[pos]) && Slot(pos, ts[pos]) && !ts[pos].Empty?
    ensures pos >= 0 ==> ReducePaths(prefix, ts) == MergePaths(prefix + [pos], ts[pos])
    ensures pos < 0 ==> Reduce(ts) == Branch(ts)
    ensures pos < 0 ==> ReducePaths(prefix, ts) == []
  {
    assert forall i | 0 <= i < 17 :: cs[i] == NilNode <==> ts[i].Empty?;
    var p := FirstChild(ts, 0);
    if pos >= 0 {
      assert p == pos && FirstChild(ts, p + 1) == 17;
    } else if pos == -2 {
      var i, j :| 0 <= i < j < 17 && cs[i] != NilNode && cs[j] != NilNode;
      assert p <= i && FirstChild(ts, p + 1) <= j;
    }
  }

  ghost function RemoveAt(t: Tree, key: Hex): Tree
    requires CanPut(t, key)
  {
    if t.Empty? then Empty else Remove(t, key)
  }

  ghost function RemovePathsAt(t: Tree, prefix: Hex, key: Hex): seq<Hex>
    requires CanPut(t, key)
  {
    if t.Empty? then [] else RemovePaths(t, prefix, key)
  }

  lemma RemoveBelow(t: Tree, key: Hex)
    requires Minimal(t) && t.Ext? && IsKey(key) && PrefixLen(key, t.key) == |t.key| < |key|
    ensures key[..|t.key|] == t.key && t.child.Branch? && KeyFor(t.child, key[|t.key|..])
    ensures var c := Remove(t.child, key[|t.key|..]);
      Minimal(c) && (c.Ext? || c.Branch?) && Remove(t, key) == Prefixed(t.key, c) && (c == t.child <==> Remove(t, key) == t)
  {
    ExtStep(t.key, t.child, key);
    RemoveMinimal(t.child, key[|t.key|..]);
  }

  lemma RemoveInBranch(t: Tree, key: Hex)
    requires Minimal(t) && t.Branch? && IsKey(key)
    ensures Minimal(Remove(t, key)) && CanPut(t.children[key[0]], key[1..])
    ensures var c := t.children[key[0]]; var c' := RemoveAt(c, key[1..]);
      && Minimal(c') && !c'.Leaf? && (c' == c <==> Remove(t, key) == t)
      && (c' != c ==> Remove(t, key) == if c'.Empty? then Reduce(t.children[key[0] := Empty]) else Branch(t.children[key[0] := c']))
  {
    var i := key[0];
    RemoveMinimal(t, key);
    BranchStep(t.children, key);
    if !t.children[i].Empty? {
      RemoveMinimal(t.children[i], key[1..]);
      assert t.children[i := Empty][i] != t.children[i];
      assert t.children[i := t.children[i]] == t.children;
    }
  }

  lemma RemovePathsInBranch(t: Tree, prefix: Hex, key: Hex)
    requires Minimal(t) && t.Branch? && IsKey(key) && CanPut(t.children[key[0]], key[1..])
    ensures var c := t.children[key[0]]; var c' := RemoveAt(c, key[1..]);
      RemovePaths(t, prefix, key) == RemovePathsAt(c, prefix + [key[0]], key[1..])
        + (if c'.Empty? && !c.Empty? then ReducePaths(prefix, t.children[key[0] := Empty]) else [])
    ensures var below := RemovePathsAt(t.children[key[0]], prefix + [key[0]], key[1..]); below + [] == below
  {
    BranchStep(t.children, key);
  }

  lemma FullEmptied(n: Node, t: Tree, i: nat, db: Store, root: bool)
    requires Minimal(t) && Represents(n, t, db, root) && n.FullNode? && i < 17
    ensures Remaining(n.children[i := NilNode], t.children[i := Empty], db)
  {
    var ts := t.children[i := Empty];
    forall j | 0 <= j < 17 ensures Slot(j, ts[j]) {
      assert Slot(j, t.children[j]);
    }
  }

  /** `cs` are the children of a full node, whose count may have dropped below two. */
  ghost predicate Remaining(cs: seq<Node>, ts: seq<Tree>, db: Store) {
    && |cs| == 17 && |ts| == 17
    && forall i | 0 <= i < 17 :: Minimal(ts[i]) && Slot(i, ts[i]) && Represents(cs[i], ts[i], db, false)
  }

  lemma PrefixedRepresents(k: Hex, child: Node, c: Tree, db: Store, root: bool)
    requires k != [] && AllNibbles(k) && Minimal(c) && (c.Ext? || c.Branch?) && Represents(child, c, db, false)
    ensures Minimal(Prefixed(k, c))
    ensures child.ShortNode? ==> c.Ext? && Represents(ShortNode(k + child.key, child.val, NEW_FLAG), Prefixed(k, c), db, root)
    ensures c.Branch? ==> Represents(ShortNode(k, child, NEW_FLAG), Prefixed(k, c), db, root)
  {
    PrefixedMinimal(k, c);
  }

  lemma PutBelow(t: Tree, key: Hex, v: Bytes, prefix: Hex)
    requires Minimal(t) && t.Ext? && IsKey(key) && PrefixLen(key, t.key) == |t.key|
    ensures key[..|t.key|] == t.key && CanPut(t.child, key[|t.key|..])
    ensures Put(t, key, v) == Ext(t.key, PutChild(t.child, key[|t.key|..], v))
    ensures PutPaths(t, prefix, key) == PutPaths(t.child, prefix + t.key, key[|t.key|..])
  {
    ExtStep(t.key, t.child, key);
  }

  lemma FullUpdated(n: Node, t: Tree, i: nat, child: Node, c: Tree, db: Store, root: bool)
    requires Minimal(t) && Represents(n, t, db, root) && n.FullNode? && i < 17
    requires Minimal(c) && Represents(child, c, db, false) && Minimal(Branch(t.children[i := c]))
    ensures Represents(FullNode(n.children[i := child], NEW_FLAG), Branch(t.children[i := c]), db, root)
    ensures t.children[i := c] == t.children <==> c == t.children[i]
  {}
}
