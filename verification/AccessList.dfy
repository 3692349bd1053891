/**
 What the access list of trie/tracer.go knows: which nodes of the trie that was loaded have been read since, and
 which parts of it are still as they were.
 */
module AccessList {
  import opened Bytes
  import opened HexEncoding
  import opened Nodes
  import opened Tree
  import opened TreeEncoding
  import opened Tracer

  // ---------- Nodes at paths ----------

  /** The node of `t` at `path`, `Empty` if there is none. */
  ghost function NodeAt(t: Tree, path: Hex): (r: Tree)
    requires Minimal(t)
    ensures Minimal(r) && (r.Empty? || IsInner(r))
  {
    match t
    case Empty => Empty
    case Leaf(_) => Empty
    case Ext(k, c) => if path == [] then t else if k <= path then NodeAt(c, path[|k|..]) else Empty
    case Branch(cs) => if path == [] then t else NodeAt(cs[path[0]], path[1..])
  }

  lemma {:induction false} NodeAtPath(t: Tree, path: Hex)
    requires Minimal(t)
    ensures IsInner(NodeAt(t, path)) <==> IsNodePath(t, path)
  {
    match t
    case Ext(k, c) =>
      if path != [] && k <= path {
        NodeAtPath(c, path[|k|..]);
      }
    case Branch(cs) =>
      if path != [] {
        NodeAtPath(cs[path[0]], path[1..]);
      }
    case _ =>
  }

  lemma {:induction false} NodeAtBelow(t: Tree, p: Hex, q: Hex)
    requires Minimal(t) && IsInner(NodeAt(t, p))
    ensures NodeAt(t, p + q) == NodeAt(NodeAt(t, p), q)
    decreases t
  {
    if p == [] {
      assert p + q == q;
    } else {
      match t
      case Ext(k, c) =>
        assert k <= p && (p + q)[|k|..] == p[|k|..] + q && k <= p + q;
        NodeAtBelow(c, p[|k|..], q);
      case Branch(cs) =>
        assert (p + q)[1..] == p[1..] + q;
        NodeAtBelow(cs[p[0]], p[1..], q);
    }
  }

  /** The node at `path` is stored on its own, not inside its parent. */
  ghost predicate StoredAt(t: Tree, path: Hex, root: bool)
    requires Minimal(t)
  {
    IsInner(NodeAt(t, path)) && ((root && path == []) || |Enc(NodeAt(t, path))| >= 32)
  }

  // ---------- Parts of a node that are as they were loaded ----------

  /** The path leads to or below a subtree that is there only as a hash. */
  predicate Hidden(n: Node, q: Hex) {
    match n
    case HashNode(_) => true
    case ShortNode(k, v, _) => k <= q && Hidden(v, q[|k|..])
    case FullNode(cs, _) => q != [] && q[0] < |cs| && Hidden(cs[q[0]], q[1..])
    case _ => false
  }

  predicate Clean(f: Flags) {
    f.hash.Some? && !f.dirty
  }

  /** The path leads to or below a subtree that a commit leaves alone. */
  predicate Kept(n: Node, q: Hex) {
    match n
    case HashNode(_) => true
    case ShortNode(k, v, f) => Clean(f) || (k <= q && Kept(v, q[|k|..]))
    case FullNode(cs, f) => Clean(f) || (q != [] && q[0] < |cs| && Kept(cs[q[0]], q[1..]))
    case _ => false
  }

  lemma {:induction false} HiddenIsKept(n: Node, q: Hex)
    ensures Hidden(n, q) ==> Kept(n, q)
    decreases n
  {
    match n
    case ShortNode(k, v, _) =>
      if k <= q {
        HiddenIsKept(v, q[|k|..]);
      }
    case FullNode(cs, _) =>
      if q != [] && q[0] < |cs| {
        HiddenIsKept(cs[q[0]], q[1..]);
      }
    case _ =>
  }

  // ---------- The account of what has been read ----------

  type Access = map<Hex, Bytes>

  /** Every entry is a stored node of the loaded trie. */
  ghost predicate AccessOk(access: Access, base: Tree)
    requires Minimal(base)
  {
    forall p | p in access :: StoredAt(base, p, true) && access[p] == Enc(NodeAt(base, p))
  }

  ghost predicate SeenAt(access: Access, base: Tree, p: Hex)
    requires Minimal(base)
  {
    StoredAt(base, p, true) ==> p in access
  }

  /** What was stored at `prefix + r` has been read or is still hidden, and what is kept is as it was. */
  ghost predicate TracksAt(n: Node, t: Tree, prefix: Hex, base: Tree, access: Access, r: Hex)
    requires Minimal(t) && Minimal(base)
  {
    && (SeenAt(access, base, prefix + r) || Hidden(n, r))
    && (Kept(n, r) ==> NodeAt(t, r) == NodeAt(base, prefix + r))
  }

  /** The node `n` at `prefix`, which stands for `t`, is accounted for. */
  ghost predicate Tracks(n: Node, t: Tree, prefix: Hex, base: Tree, access: Access)
    requires Minimal(t) && Minimal(base)
  {
    forall r {:trigger TracksAt(n, t, prefix, base, access, r)} :: TracksAt(n, t, prefix, base, access, r)
  }

  /** The node is accounted for, and every entry is right. */
  ghost predicate Watches(n: Node, t: Tree, prefix: Hex, base: Tree, access: Access) {
    Minimal(t) && Minimal(base) && AccessOk(access, base) && Tracks(n, t, prefix, base, access)
  }

  lemma TracksMore(n: Node, t: Tree, prefix: Hex, base: Tree, access: Access, access': Access)
    requires Minimal(t) && Minimal(base) && Tracks(n, t, prefix, base, access) && access.Keys <= access'.Keys
    ensures Tracks(n, t, prefix, base, access')
  {
    forall r ensures TracksAt(n, t, prefix, base, access', r) {
      assert TracksAt(n, t, prefix, base, access, r);
    }
  }

  /** Everything below `prefix`, but not below `prefix + k`, has been read. */
  ghost predicate SeenBut(access: Access, base: Tree, prefix: Hex, k: Hex)
    requires Minimal(base)
  {
    forall r {:trigger SeenAt(access, base, prefix + r)} | !(k <= r) :: SeenAt(access, base, prefix + r)
  }

  ghost predicate AllSeen(access: Access, base: Tree, prefix: Hex)
    requires Minimal(base)
  {
    forall r {:trigger SeenAt(access, base, prefix + r)} :: SeenAt(access, base, prefix + r)
  }

  // ---------- Short nodes ----------

  lemma ShortChild(n: Node, t: Tree, prefix: Hex, base: Tree, access: Access)
    requires Minimal(t) && Minimal(base) && n.ShortNode? && t.Ext? && n.key == t.key && Tracks(n, t, prefix, base, access)
    ensures Tracks(n.val, t.child, prefix + n.key, base, access) && SeenBut(access, base, prefix, n.key)
  {
    var k := n.key;
    forall r ensures TracksAt(n.val, t.child, prefix + k, base, access, r) {
      assert TracksAt(n, t, prefix, base, access, k + r);
      assert (k + r)[|k|..] == r && prefix + (k + r) == prefix + k + r;
    }
    forall r | !(k <= r) ensures SeenAt(access, base, prefix + r) {
      assert TracksAt(n, t, prefix, base, access, r);
    }
  }

  lemma ShortMade(k: Hex, child: Node, f: Flags, c: Tree, prefix: Hex, base: Tree, access: Access)
    requires Minimal(Ext(k, c)) && Minimal(base) && !Clean(f)
    requires SeenBut(access, base, prefix, k) && Tracks(child, c, prefix + k, base, access)
    ensures Tracks(ShortNode(k, child, f), Ext(k, c), prefix, base, access)
  {
    var n, t := ShortNode(k, child, f), Ext(k, c);
    forall r ensures TracksAt(n, t, prefix, base, access, r) {
      if k <= r {
        var q := r[|k|..];
        assert r == k + q && prefix + r == prefix + k + q;
        assert TracksAt(child, c, prefix + k, base, access, q);
      } else {
        assert SeenAt(access, base, prefix + r);
      }
    }
  }

  /** More of the same trie has been loaded below a short node. */
  lemma ShortReloaded(n: Node, t: Tree, child: Node, prefix: Hex, base: Tree, access: Access, access': Access)
    requires Minimal(t) && Minimal(base) && n.ShortNode? && t.Ext? && n.key == t.key && access.Keys <= access'.Keys
    requires Tracks(n, t, prefix, base, access) && Tracks(child, t.child, prefix + n.key, base, access')
    ensures Tracks(n.(val := child), t, prefix, base, access')
  {
    var k := n.key;
    forall r ensures TracksAt(n.(val := child), t, prefix, base, access', r) {
      assert TracksAt(n, t, prefix, base, access, r);
      if k <= r {
        var q := r[|k|..];
        assert r == k + q && prefix + r == prefix + k + q;
        assert TracksAt(child, t.child, prefix + k, base, access', q);
      }
    }
  }

  lemma SeenButFurther(access: Access, base: Tree, prefix: Hex, k: Hex, l: Hex)
    requires Minimal(base) && SeenBut(access, base, prefix, k) && SeenBut(access, base, prefix + k, l)
    ensures SeenBut(access, base, prefix, k + l)
  {
    forall r | !(k + l <= r) ensures SeenAt(access, base, prefix + r) {
      if k <= r {
        var q := r[|k|..];
        assert r == k + q && prefix + r == prefix + k + q;
        assert !(l <= q);
        assert SeenAt(access, base, prefix + k + q);
      }
    }
  }

  // ---------- Full nodes ----------

  /** The children of a full node at `prefix`, and the node itself. */
  ghost predicate AllTracked(cs: seq<Node>, ts: seq<Tree>, prefix: Hex, base: Tree, access: Access)
    requires Minimal(base)
  {
    && |cs| == 17 && |ts| == 17 && SeenAt(access, base, prefix)
    && forall i | 0 <= i < 17 :: Minimal(ts[i]) && Tracks(cs[i], ts[i], prefix + [i], base, access)
  }

  lemma FullChildren(n: Node, t: Tree, prefix: Hex, base: Tree, access: Access)
    requires Minimal(t) && Minimal(base) && n.FullNode? && t.Branch? && |n.children| == 17 && Tracks(n, t, prefix, base, access)
    ensures AllTracked(n.children, t.children, prefix, base, access)
  {
    assert TracksAt(n, t, prefix, base, access, []) && prefix + [] == prefix;
    forall i: HexDigit ensures Minimal(t.children[i]) && Tracks(n.children[i], t.children[i], prefix + [i], base, access) {
      forall r ensures TracksAt(n.children[i], t.children[i], prefix + [i], base, access, r) {
        assert TracksAt(n, t, prefix, base, access, [i] + r);
        FullChildAt(n.children, t.children, n.flags, prefix, base, access, i, r);
      }
    }
  }

  lemma FullChildAt(cs: seq<Node>, ts: seq<Tree>, f: Flags, prefix: Hex, base: Tree, access: Access, i: HexDigit, r: Hex)
    requires Minimal(Branch(ts)) && Minimal(base) && |cs| == 17
    requires TracksAt(FullNode(cs, f), Branch(ts), prefix, base, access, [i] + r)
    ensures TracksAt(cs[i], ts[i], prefix + [i], base, access, r)
  {
    assert ([i] + r)[1..] == r && prefix + ([i] + r) == prefix + [i] + r;
  }

  lemma FullMade(cs: seq<Node>, ts: seq<Tree>, f: Flags, prefix: Hex, base: Tree, access: Access)
    requires Minimal(Branch(ts)) && Minimal(base) && !Clean(f) && AllTracked(cs, ts, prefix, base, access)
    ensures Tracks(FullNode(cs, f), Branch(ts), prefix, base, access)
  {
    forall r ensures TracksAt(FullNode(cs, f), Branch(ts), prefix, base, access, r) {
      if r == [] {
        assert prefix + r == prefix;
      } else {
        assert Minimal(ts[r[0]]) && Tracks(cs[r[0]], ts[r[0]], prefix + [r[0]], base, access);
        FullAt(cs, ts, f, prefix, base, access, r);
      }
    }
  }

  lemma FullAt(cs: seq<Node>, ts: seq<Tree>, f: Flags, prefix: Hex, base: Tree, access: Access, r: Hex)
    requires Minimal(Branch(ts)) && Minimal(base) && !Clean(f) && |cs| == 17 && r != []
    requires TracksAt(cs[r[0]], ts[r[0]], prefix + [r[0]], base, access, r[1..])
    ensures TracksAt(FullNode(cs, f), Branch(ts), prefix, base, access, r)
  {
    assert prefix + r == prefix + [r[0]] + r[1..];
    assert NodeAt(Branch(ts), r) == NodeAt(ts[r[0]], r[1..]);
    assert Hidden(FullNode(cs, f), r) == Hidden(cs[r[0]], r[1..]);
  }

  lemma FullReloaded(n: Node, t: Tree, i: nat, child: Node, prefix: Hex, base: Tree, access: Access, access': Access)
    requires Minimal(t) && Minimal(base) && n.FullNode? && t.Branch? && |n.children| == 17 && i < 17
    requires access.Keys <= access'.Keys && Tracks(n, t, prefix, base, access)
    requires Tracks(child, t.children[i], prefix + [i], base, access')
    ensures Tracks(n.(children := n.children[i := child]), t, prefix, base, access')
  {
    var n' := n.(children := n.children[i := child]);
    forall r ensures TracksAt(n', t, prefix, base, access', r) {
      assert TracksAt(n, t, prefix, base, access, r);
      if r != [] && r[0] == i {
        assert r == [i] + r[1..] && prefix + r == prefix + [i] + r[1..];
        assert TracksAt(child, t.children[i], prefix + [i], base, access', r[1..]);
      }
    }
  }

  lemma ChildReplaced(cs: seq<Node>, ts: seq<Tree>, i: nat, child: Node, c: Tree, prefix: Hex, base: Tree, access: Access, access': Access)
    requires Minimal(base) && AllTracked(cs, ts, prefix, base, access) && access.Keys <= access'.Keys && i < 17
    requires Minimal(c) && Tracks(child, c, prefix + [i], base, access')
    ensures AllTracked(cs[i := child], ts[i := c], prefix, base, access')
  {
    forall j | 0 <= j < 17 ensures Tracks(cs[i := child][j], ts[i := c][j], prefix + [j], base, access') {
      if j != i {
        TracksMore(cs[j], ts[j], prefix + [j], base, access, access');
      }
    }
  }

  // ---------- Bare nodes ----------

  lemma BareTracks(n: Node, t: Tree, prefix: Hex, base: Tree, access: Access)
    requires Minimal(t) && Minimal(base) && (n.NilNode? || n.ValueNode?) && AllSeen(access, base, prefix)
    ensures Tracks(n, t, prefix, base, access)
  {
    forall r ensures TracksAt(n, t, prefix, base, access, r) {
      assert SeenAt(access, base, prefix + r);
    }
  }

  lemma BareSeen(n: Node, t: Tree, prefix: Hex, base: Tree, access: Access)
    requires Minimal(t) && Minimal(base) && (n.NilNode? || n.ValueNode?) && Tracks(n, t, prefix, base, access)
    ensures AllSeen(access, base, prefix)
  {
    forall r ensures SeenAt(access, base, prefix + r) {
      assert TracksAt(n, t, prefix, base, access, r);
    }
  }

  lemma SeenBeside(access: Access, base: Tree, prefix: Hex, k: Hex, q: Hex)
    requires Minimal(base) && SeenBut(access, base, prefix, k) && !(k <= q) && !(q <= k)
    ensures AllSeen(access, base, prefix + q)
  {
    forall r ensures SeenAt(access, base, prefix + q + r) {
      assert prefix + q + r == prefix + (q + r);
      if k <= q + r {
        PrefixesMeet(k, q, r);
      }
      assert SeenAt(access, base, prefix + (q + r));
    }
  }

  lemma PrefixesMeet(k: Hex, q: Hex, r: Hex)
    requires k <= q + r
    ensures k <= q || q <= k
  {
    if |k| <= |q| {
      assert k == (q + r)[..|k|] == q[..|k|];
    } else {
      assert q == (q + r)[..|q|] == k[..|q|];
    }
  }

  lemma SeenButBelow(access: Access, base: Tree, prefix: Hex, k: Hex, m: nat)
    requires Minimal(base) && SeenBut(access, base, prefix, k) && m <= |k|
    ensures SeenBut(access, base, prefix + k[..m], k[m..])
  {
    forall r | !(k[m..] <= r) ensures SeenAt(access, base, prefix + k[..m] + r) {
      assert prefix + k[..m] + r == prefix + (k[..m] + r);
      assert (k[..m] + r)[m..] == r && k == k[..m] + k[m..];
      assert !(k <= k[..m] + r);
      assert SeenAt(access, base, prefix + (k[..m] + r));
    }
  }

  /** The other way: what is not below the first digits has been read as well. */
  lemma SeenButAbove(access: Access, base: Tree, prefix: Hex, k: Hex, m: nat)
    requires Minimal(base) && SeenBut(access, base, prefix, k) && m <= |k|
    ensures SeenBut(access, base, prefix, k[..m])
  {
    forall r | !(k[..m] <= r) ensures SeenAt(access, base, prefix + r) {
      assert !(k <= r);
    }
  }

  // ---------- Loading ----------

  /** In a node that has just been loaded, everything stored further down is behind a hash. */
  lemma {:induction false} ExpandHides(hash: Option<Hash32>, t: Tree, r: Hex)
    requires Minimal(t) && IsInner(t) && r != [] && StoredAt(t, r, false)
    ensures Hidden(Expand(hash, Collapse(t)), r)
    decreases t, 0
  {
    match t
    case Ext(k, c) =>
      CompactRoundTrip(k);
      RefHides(c, r[|k|..]);
    case Branch(cs) =>
      RefHides(cs[r[0]], r[1..]);
      assert Expand(hash, Collapse(t)).children[r[0]] == Expand(None, RefTo(cs[r[0]]));
  }

  lemma {:induction false} RefHides(c: Tree, r: Hex)
    requires Minimal(c) && StoredAt(c, r, false)
    ensures Hidden(Expand(None, RefTo(c)), r)
    decreases c, 1
  {
    if r != [] && |Enc(c)| < 32 {
      ExpandHides(None, c, r);
    }
  }

  /** Loading the node behind a hash, and noting its blob, keeps the account. */
  lemma ResolveTracks(hash: Hash32, t: Tree, prefix: Hex, base: Tree, access: Access)
    requires Minimal(t) && IsInner(t) && Minimal(base) && AccessOk(access, base) && (prefix == [] || |Enc(t)| >= 32)
    requires Tracks(HashNode(hash), t, prefix, base, access)
    ensures var access' := access[prefix := Enc(t)];
            Tracks(Expand(Some(hash), Collapse(t)), t, prefix, base, access') && AccessOk(access', base)
  {
    var n, access' := Expand(Some(hash), Collapse(t)), access[prefix := Enc(t)];
    assert TracksAt(HashNode(hash), t, prefix, base, access, []) && prefix + [] == prefix;
    forall r ensures TracksAt(n, t, prefix, base, access', r) {
      assert TracksAt(HashNode(hash), t, prefix, base, access, r);
      if r == [] {
        assert prefix + r == prefix;
      } else if StoredAt(base, prefix + r, true) {
        ExpandHides(Some(hash), t, r);
      }
    }
  }

  /** A trie that has just been opened. */
  lemma OpenTracks(hash: Hash32, t: Tree)
    requires Minimal(t)
    ensures IsInner(t) ==> Tracks(HashNode(hash), t, [], t, map[])
    ensures t.Empty? ==> Tracks(NilNode, t, [], t, map[])
  {
    forall r: Hex ensures [] + r == r {}
    if IsInner(t) {
      forall r ensures TracksAt(HashNode(hash), t, [], t, map[], r) {}
    } else if t.Empty? {
      forall r ensures TracksAt(NilNode, t, [], t, map[], r) {}
    }
  }
}
