/**
 The change tracer of trie/tracer.go, and which node paths an insertion or deletion reports to it.
 */
module Tracer {
  import opened Bytes
  import opened HexEncoding
  import opened Tree

  datatype Changes = Changes(inserts: set<Hex>, deletes: set<Hex>)

  function AfterInsert(c: Changes, path: Hex): Changes {
    if path in c.deletes then c.(deletes := c.deletes - {path}) else c.(inserts := c.inserts + {path})
  }

  function AfterDelete(c: Changes, path: Hex): Changes {
    if path in c.inserts then c.(inserts := c.inserts - {path}) else c.(deletes := c.deletes + {path})
  }

  function AfterInserts(c: Changes, paths: seq<Hex>): Changes
    decreases paths
  {
    if paths == [] then c else AfterInserts(AfterInsert(c, paths[0]), paths[1..])
  }

  function AfterDeletes(c: Changes, paths: seq<Hex>): Changes
    decreases paths
  {
    if paths == [] then c else AfterDeletes(AfterDelete(c, paths[0]), paths[1..])
  }

  lemma {:induction false} AfterInsertsAppend(c: Changes, a: seq<Hex>, b: seq<Hex>)
    ensures AfterInserts(c, a + b) == AfterInserts(AfterInserts(c, a), b)
    decreases a
  {
    if a == [] {
      assert [] + b == b;
    } else {
      assert (a + b)[1..] == a[1..] + b;
      AfterInsertsAppend(AfterInsert(c, a[0]), a[1..], b);
    }
  }

  lemma {:induction false} AfterDeletesAppend(c: Changes, a: seq<Hex>, b: seq<Hex>)
    ensures AfterDeletes(c, a + b) == AfterDeletes(AfterDeletes(c, a), b)
    decreases a
  {
    if a == [] {
      assert [] + b == b;
    } else {
      assert (a + b)[1..] == a[1..] + b;
      AfterDeletesAppend(AfterDelete(c, a[0]), a[1..], b);
    }
  }

  class Tracer {
    var inserts: set<Hex>
    var deletes: set<Hex>
    var accessList: map<Hex, Bytes>

    constructor ()
      ensures State() == Changes({}, {}) && accessList == map[]
    {
      inserts, deletes, accessList := {}, {}, map[];
    }

    function State(): Changes
      reads this
    {
      Changes(inserts, deletes)
    }

    method OnRead(path: Hex, val: Bytes)
      modifies this`accessList
      ensures accessList == old(accessList)[path := val]
    {
      accessList := accessList[path := val];
    }

    method OnInsert(path: Hex)
      modifies this`inserts, this`deletes
      ensures State() == AfterInsert(old(State()), path)
    {
      if path in deletes {
        deletes := deletes - {path};
        return;
      }
      inserts := inserts + {path};
    }

    method OnDelete(path: Hex)
      modifies this`inserts, this`deletes
      ensures State() == AfterDelete(old(State()), path)
    {
      if path in inserts {
        inserts := inserts - {path};
        return;
      }
      deletes := deletes + {path};
    }

    method Reset()
      modifies this
      ensures State() == Changes({}, {}) && accessList == map[]
    {
      inserts, deletes, accessList := {}, {}, map[];
    }
  }

  // ---------- Node paths ----------

  /** The paths of the nodes of `t`; a value is part of its parent. */
  predicate IsNodePath(t: Tree, path: Hex) {
    match t
    case Empty => false
    case Leaf(_) => false
    case Ext(k, c) => path == [] || (k <= path && IsNodePath(c, path[|k|..]))
    case Branch(cs) => path == [] || (|cs| == 17 && IsNodePath(cs[path[0]], path[1..]))
  }

  function HangPaths(at: Hex, rest: Hex): seq<Hex> {
    if rest == [] then [] else [at]
  }

  /** What `insert` passes to `onInsert`, in order. */
  function PutPaths(t: Tree, prefix: Hex, key: Hex): seq<Hex>
    requires Minimal(t) && (KeyFor(t, key) || (t.Empty? && key == []))
    decreases t
  {
    match t
    case Empty => HangPaths(prefix, key)
    case Leaf(_) => []
    case Ext(k, c) =>
      var m := PrefixLen(key, k);
      if m == |k| then
        ExtStep(k, c, key);
        PutPaths(c, prefix + k, key[m..])
      else
        KeysDiverge(key, k);
        ForkPaths(k, key, prefix, m)
    case Branch(cs) =>
      BranchStep(cs, key);
      PutPaths(cs[key[0]], prefix + [key[0]], key[1..])
  }

  function ForkPaths(k: Hex, key: Hex, prefix: Hex, m: nat): seq<Hex>
    requires m < |k| && m < |key|
  {
    HangPaths(prefix + k[..m + 1], k[m + 1..])
    + HangPaths(prefix + key[..m + 1], key[m + 1..])
    + (if m == 0 then [] else [prefix + key[..m]])
  }

  /** What `delete` passes to `onDelete`, in order. */
  function RemovePaths(t: Tree, prefix: Hex, key: Hex): seq<Hex>
    requires Minimal(t) && KeyFor(t, key)
    decreases t
  {
    match t
    case Empty => []
    case Leaf(_) => []
    case Ext(k, c) =>
      if PrefixLen(key, k) < |k| then
        []
      else if |k| == |key| then
        [prefix]
      else
        ExtStep(k, c, key);
        RemovePaths(c, prefix + k, key[|k|..]) + MergePaths(prefix + k, Remove(c, key[|k|..]))
    case Branch(cs) =>
      BranchStep(cs, key);
      var c := cs[key[0]];
      if c.Empty? then
        []
      else
        RemovePaths(c, prefix + [key[0]], key[1..])
        + if Remove(c, key[1..]).Empty? then ReducePaths(prefix, cs[key[0] := Empty]) else []
  }

  /** An extension merged into its parent disappears. */
  function MergePaths(at: Hex, c: Tree): seq<Hex> {
    if c.Ext? then [at] else []
  }

  function ReducePaths(prefix: Hex, cs: seq<Tree>): seq<Hex>
    requires |cs| == 17
  {
    var p := FirstChild(cs, 0);
    if p < 17 && FirstChild(cs, p + 1) == 17 then MergePaths(prefix + [p], cs[p]) else []
  }

  // ---------- The reported paths are exactly the changed ones ----------

  lemma Cancel(prefix: Hex, a: Hex, b: Hex)
    ensures prefix + a == prefix + b <==> a == b
  {
    assert (prefix + a)[|prefix|..] == a && (prefix + b)[|prefix|..] == b;
  }

  lemma PrefixCancel(prefix: Hex, a: Hex, b: Hex)
    ensures prefix + a <= prefix + b <==> a <= b
  {
    assert (prefix + a)[|prefix|..] == a && (prefix + b)[|prefix|..] == b;
  }

  lemma HangNodePath(key: Hex, t: Tree, q: Hex)
    ensures IsNodePath(Hang(key, t), q)
       <==> (key != [] && q == []) || (key <= q && IsNodePath(t, q[|key|..]))
  {
    if key == [] {
      assert q[0..] == q;
    }
  }

  lemma ForkNodePath(k: Hex, c: Tree, key: Hex, v: Bytes, m: nat, r: Hex)
    requires Minimal(Ext(k, c)) && IsKey(key) && m < |k| && m < |key| && k[m] != key[m]
    ensures IsNodePath(Fork(k, c, key, Leaf(v), m), r)
       <==> || r == []
            || (k[m + 1..] != [] && r == [k[m]])
            || (key[m + 1..] != [] && r == [key[m]])
            || (k[m..] <= r && IsNodePath(c, r[|k| - m..]))
  {
    if r != [] {
      assert r == [r[0]] + r[1..];
      HangNodePath(k[m + 1..], c, r[1..]);
      HangNodePath(key[m + 1..], Leaf(v), r[1..]);
      assert k[m..] == [k[m]] + k[m + 1..];
      if r[0] == k[m] {
        assert k[m..] <= r <==> k[m + 1..] <= r[1..];
        if k[m..] <= r {
          assert r[1..][|k| - m - 1..] == r[|k| - m..];
        }
      }
    }
  }

  lemma ExtNodePathFrom(k: Hex, c: Tree, m: nat, r: Hex)
    requires m <= |k|
    ensures IsNodePath(Ext(k, c), k[..m] + r)
       <==> (m == 0 && r == []) || (k[m..] <= r && IsNodePath(c, r[|k| - m..]))
  {
    var q := k[..m] + r;
    assert k == k[..m] + k[m..];
    assert k <= q <==> k[m..] <= r by {
      assert q[m..] == r;
    }
    if k <= q {
      assert q[|k|..] == r[|k| - m..];
    }
  }

  /** The paths that appear when `key` leaves `k` after `m` digits. */
  predicate IsForkPath(k: Hex, key: Hex, m: nat, q: Hex)
    requires m < |k| && m < |key|
  {
    || (k[m + 1..] != [] && q == k[..m + 1])
    || (key[m + 1..] != [] && q == key[..m + 1])
    || (m > 0 && q == key[..m])
  }

  lemma ForkPathFrom(k: Hex, key: Hex, m: nat, r: Hex)
    requires m < |k| && m < |key| && k[..m] == key[..m]
    ensures IsForkPath(k, key, m, k[..m] + r)
       <==> (k[m + 1..] != [] && r == [k[m]]) || (key[m + 1..] != [] && r == [key[m]]) || (m > 0 && r == [])
  {
    var pre := k[..m];
    assert k[..m + 1] == pre + [k[m]] && key[..m + 1] == pre + [key[m]] && key[..m] == pre + [];
    Cancel(pre, r, [k[m]]);
    Cancel(pre, r, [key[m]]);
    Cancel(pre, r, []);
  }

  lemma PutForkNodePath(k: Hex, c: Tree, key: Hex, v: Bytes, m: nat, q: Hex)
    requires Minimal(Ext(k, c)) && IsKey(key) && m == PrefixLen(key, k) < |k| && m < |key|
    ensures IsNodePath(Put(Ext(k, c), key, v), q) <==> IsNodePath(Ext(k, c), q) || IsForkPath(k, key, m, q)
  {
    var pre := k[..m];
    var f := Fork(k, c, key, Leaf(v), m);
    assert pre == key[..m];
    if pre <= q {
      var r := q[m..];
      assert q == pre + r;
      ForkNodePath(k, c, key, v, m, r);
      ExtNodePathFrom(k, c, m, r);
      ForkPathFrom(k, key, m, r);
      assert IsNodePath(Put(Ext(k, c), key, v), q) <==> IsNodePath(f, r) by {
        assert m == 0 ==> q == r;
      }
    } else {
      NotBelow(k, key, m, q);
    }
  }

  lemma NotBelow(k: Hex, key: Hex, m: nat, q: Hex)
    requires m < |k| && m < |key| && k[..m] == key[..m] && !(k[..m] <= q)
    ensures !IsForkPath(k, key, m, q) && !(k <= q)
  {
    assert k[..m] <= k[..m + 1] && key[..m] <= key[..m + 1];
  }

  ghost predicate CanPut(t: Tree, key: Hex) {
    Minimal(t) && (KeyFor(t, key) || (t.Empty? && key == []))
  }

  lemma ForkPathsMember(k: Hex, key: Hex, prefix: Hex, m: nat, q: Hex)
    requires m < |k| && m < |key|
    ensures prefix + q in ForkPaths(k, key, prefix, m) <==> IsForkPath(k, key, m, q)
  {
    Cancel(prefix, q, k[..m + 1]);
    Cancel(prefix, q, key[..m + 1]);
    Cancel(prefix, q, key[..m]);
  }

  lemma ForkPathsUnder(k: Hex, key: Hex, prefix: Hex, m: nat, e: Hex)
    requires m < |k| && m < |key| && e in ForkPaths(k, key, prefix, m)
    ensures prefix <= e
  {}

  lemma {:induction false} PutPathsUnder(t: Tree, prefix: Hex, key: Hex, e: Hex)
    requires CanPut(t, key) && e in PutPaths(t, prefix, key)
    ensures prefix <= e
    decreases t
  {
    match t
    case Empty =>
    case Ext(k, c) =>
      var m := PrefixLen(key, k);
      if m == |k| {
        ExtStep(k, c, key);
        PutPathsUnder(c, prefix + k, key[m..], e);
      } else {
        KeysDiverge(key, k);
        ForkPathsUnder(k, key, prefix, m, e);
      }
    case Branch(cs) =>
      BranchStep(cs, key);
      PutPathsUnder(cs[key[0]], prefix + [key[0]], key[1..], e);
  }

  lemma PutDown(k: Hex, c: Tree, prefix: Hex, key: Hex, v: Bytes)
    requires CanPut(Ext(k, c), key) && PrefixLen(key, k) == |k|
    ensures CanPut(c, key[|k|..]) && PutChild(Ext(k, c), key, v) == Ext(k, PutChild(c, key[|k|..], v))
    ensures PutPaths(Ext(k, c), prefix, key) == PutPaths(c, prefix + k, key[|k|..])
  {
    ExtStep(k, c, key);
    assert Put(Ext(k, c), key, v) == Ext(k, Put(c, key[|k|..], v));
  }

  lemma PutDownBranch(cs: seq<Tree>, prefix: Hex, key: Hex, v: Bytes)
    requires CanPut(Branch(cs), key)
    ensures |cs| == 17 && key != [] && key[0] < 17 && CanPut(cs[key[0]], key[1..])
    ensures PutChild(Branch(cs), key, v) == Branch(cs[key[0] := PutChild(cs[key[0]], key[1..], v)])
    ensures PutPaths(Branch(cs), prefix, key) == PutPaths(cs[key[0]], prefix + [key[0]], key[1..])
  {
    BranchStep(cs, key);
  }

  /** Insertion reports exactly the paths at which it creates a node. */
  lemma {:induction false} PutPathsExact(t: Tree, prefix: Hex, key: Hex, v: Bytes, q: Hex)
    requires CanPut(t, key)
    ensures prefix + q in PutPaths(t, prefix, key) <==> IsNodePath(PutChild(t, key, v), q) && !IsNodePath(t, q)
    ensures IsNodePath(t, q) ==> IsNodePath(PutChild(t, key, v), q)
    decreases t, 0
  {
    match t
    case Empty =>
      Cancel(prefix, q, []);
      assert prefix + [] == prefix;
      HangNodePath(key, Leaf(v), q);
      assert PutChild(t, key, v) == Hang(key, Leaf(v));
    case Leaf(_) =>
    case Ext(k, c) =>
      var m := PrefixLen(key, k);
      if m == |k| {
        PutDown(k, c, prefix, key, v);
        PutPathsBelow(c, prefix, k, key[m..], v, q);
      } else {
        KeysDiverge(key, k);
        PutForkNodePath(k, c, key, v, m, q);
        ForkPathsMember(k, key, prefix, m, q);
        ForkPathNew(k, c, key, m, q);
      }
    case Branch(cs) =>
      PutDownBranch(cs, prefix, key, v);
      PutPathsBelow(cs[key[0]], prefix, [key[0]], key[1..], v, q);
      BranchNodePath(cs, key[0], PutChild(cs[key[0]], key[1..], v), q);
  }

  lemma BranchNodePath(cs: seq<Tree>, i: nat, c: Tree, q: Hex)
    requires |cs| == 17 && i < 17
    ensures IsNodePath(Branch(cs[i := c]), q)
       <==> if [i] <= q then IsNodePath(c, q[1..]) else IsNodePath(Branch(cs), q)
    ensures [i] <= q ==> (IsNodePath(Branch(cs), q) <==> IsNodePath(cs[i], q[1..]))
  {}

  /** The same below a step of `k` digits, where paths outside that step are untouched. */
  lemma PutPathsBelow(c: Tree, prefix: Hex, k: Hex, key: Hex, v: Bytes, q: Hex)
    requires CanPut(c, key)
    ensures prefix + q in PutPaths(c, prefix + k, key)
       <==> k <= q && IsNodePath(PutChild(c, key, v), q[|k|..]) && !IsNodePath(c, q[|k|..])
    ensures k <= q && IsNodePath(c, q[|k|..]) ==> IsNodePath(PutChild(c, key, v), q[|k|..])
    decreases c, 1
  {
    PrefixCancel(prefix, k, q);
    if k <= q {
      assert prefix + q == (prefix + k) + q[|k|..];
      PutPathsExact(c, prefix + k, key, v, q[|k|..]);
    } else if prefix + q in PutPaths(c, prefix + k, key) {
      PutPathsUnder(c, prefix + k, key, prefix + q);
    }
  }

  lemma ForkPathNew(k: Hex, c: Tree, key: Hex, m: nat, q: Hex)
    requires m < |k| && m < |key| && k[m] != key[m]
    ensures IsForkPath(k, key, m, q) ==> !IsNodePath(Ext(k, c), q)
  {}

  lemma PrefixedNodePath(k: Hex, c: Tree, q: Hex)
    requires k != [] && (c.Ext? ==> c.key != [])
    ensures IsNodePath(Prefixed(k, c), q)
       <==> q == [] || (k <= q && IsNodePath(c, q[|k|..]) && !(c.Ext? && q == k))
  {
    if c.Ext? && k <= q {
      var r := q[|k|..];
      assert q == k + r;
      assert k + c.key <= q <==> c.key <= r;
      if c.key <= r {
        assert q[|k + c.key|..] == r[|c.key|..];
      }
    }
  }

  lemma MergePathsMember(prefix: Hex, k: Hex, c: Tree, q: Hex)
    ensures prefix + q in MergePaths(prefix + k, c) <==> c.Ext? && q == k
  {
    Cancel(prefix, q, k);
  }

  lemma ReduceNodePath(prefix: Hex, cs: seq<Tree>, q: Hex)
    requires |cs| == 17 && forall i | 0 <= i < 17 :: Minimal(cs[i])
    ensures prefix + q in ReducePaths(prefix, cs) <==> IsNodePath(Branch(cs), q) && !IsNodePath(Reduce(cs), q)
    ensures IsNodePath(Reduce(cs), q) ==> IsNodePath(Branch(cs), q)
  {
    var p := FirstChild(cs, 0);
    if p < 17 && FirstChild(cs, p + 1) == 17 {
      PrefixedNodePath([p], cs[p], q);
      MergePathsMember(prefix, [p], cs[p], q);
    }
  }

  lemma {:induction false} RemovePathsUnder(t: Tree, prefix: Hex, key: Hex, e: Hex)
    requires Minimal(t) && KeyFor(t, key) && e in RemovePaths(t, prefix, key)
    ensures prefix <= e
    decreases t
  {
    match t
    case Ext(k, c) =>
      if PrefixLen(key, k) == |k| < |key| {
        ExtStep(k, c, key);
        if e in RemovePaths(c, prefix + k, key[|k|..]) {
          RemovePathsUnder(c, prefix + k, key[|k|..], e);
        }
      }
    case Branch(cs) =>
      BranchStep(cs, key);
      if e in RemovePaths(cs[key[0]], prefix + [key[0]], key[1..]) {
        RemovePathsUnder(cs[key[0]], prefix + [key[0]], key[1..], e);
      }
  }

  /** Deletion reports exactly the paths at which a node disappears. */
  lemma {:induction false} RemovePathsExact(t: Tree, prefix: Hex, key: Hex, q: Hex)
    requires Minimal(t) && KeyFor(t, key)
    ensures prefix + q in RemovePaths(t, prefix, key) <==> IsNodePath(t, q) && !IsNodePath(Remove(t, key), q)
    ensures IsNodePath(Remove(t, key), q) ==> IsNodePath(t, q)
    decreases t, 0
  {
    match t
    case Empty =>
    case Leaf(_) =>
    case Ext(k, c) =>
      if PrefixLen(key, k) == |k| {
        if |k| < |key| {
          ExtStep(k, c, key);
          RemoveMinimal(c, key[|k|..]);
          RemovePathsBelow(c, prefix, k, key[|k|..], q);
          PrefixedNodePath(k, Remove(c, key[|k|..]), q);
          MergePathsMember(prefix, k, Remove(c, key[|k|..]), q);
        } else {
          assert c.Leaf?;
          Cancel(prefix, q, []);
          assert prefix + [] == prefix;
        }
      }
    case Branch(cs) =>
      BranchStep(cs, key);
      var i := key[0];
      if !cs[i].Empty? {
        var c' := Remove(cs[i], key[1..]);
        RemovePathsBelow(cs[i], prefix, [i], key[1..], q);
        BranchNodePath(cs, i, c', q);
        if c'.Empty? {
          ReduceNodePath(prefix, cs[i := c'], q);
        }
      }
  }

  lemma RemovePathsBelow(c: Tree, prefix: Hex, k: Hex, key: Hex, q: Hex)
    requires Minimal(c) && KeyFor(c, key)
    ensures prefix + q in RemovePaths(c, prefix + k, key)
       <==> k <= q && IsNodePath(c, q[|k|..]) && !IsNodePath(Remove(c, key), q[|k|..])
    ensures k <= q && IsNodePath(Remove(c, key), q[|k|..]) ==> IsNodePath(c, q[|k|..])
    decreases c, 1
  {
    PrefixCancel(prefix, k, q);
    if k <= q {
      assert prefix + q == (prefix + k) + q[|k|..];
      RemovePathsExact(c, prefix + k, key, q[|k|..]);
    } else if prefix + q in RemovePaths(c, prefix + k, key) {
      RemovePathsUnder(c, prefix + k, key, prefix + q);
    }
  }

  lemma {:induction false} PutPathsDistinct(t: Tree, prefix: Hex, key: Hex)
    requires CanPut(t, key)
    ensures Distinct(PutPaths(t, prefix, key))
    decreases t
  {
    match t
    case Empty =>
    case Leaf(_) =>
    case Ext(k, c) =>
      var m := PrefixLen(key, k);
      if m == |k| {
        ExtStep(k, c, key);
        PutPathsDistinct(c, prefix + k, key[m..]);
      } else {
        KeysDiverge(key, k);
        ForkPathsDistinct(k, key, prefix, m);
      }
    case Branch(cs) =>
      BranchStep(cs, key);
      PutPathsDistinct(cs[key[0]], prefix + [key[0]], key[1..]);
  }

  lemma ForkPathsDistinct(k: Hex, key: Hex, prefix: Hex, m: nat)
    requires m < |k| && m < |key| && k[m] != key[m]
    ensures Distinct(ForkPaths(k, key, prefix, m))
  {
    var a, b := prefix + k[..m + 1], prefix + key[..m + 1];
    assert a[|prefix| + m] != b[|prefix| + m];
  }

  lemma {:induction false} RemovePathsDistinct(t: Tree, prefix: Hex, key: Hex)
    requires Minimal(t) && KeyFor(t, key)
    ensures Distinct(RemovePaths(t, prefix, key))
    decreases t
  {
    match t
    case Empty =>
    case Leaf(_) =>
    case Ext(k, c) =>
      if PrefixLen(key, k) == |k| < |key| {
        ExtStep(k, c, key);
        var rest := key[|k|..];
        RemovePathsDistinct(c, prefix + k, rest);
        RemovePathsBelow(c, prefix, k, rest, k);
        DistinctAppend(RemovePaths(c, prefix + k, rest), MergePaths(prefix + k, Remove(c, rest)));
      }
    case Branch(cs) =>
      BranchStep(cs, key);
      var i := key[0];
      if !cs[i].Empty? {
        RemovePathsDistinct(cs[i], prefix + [i], key[1..]);
        RemoveBranchDistinct(cs, prefix, i, key[1..]);
      }
  }

  lemma RemoveBranchDistinct(cs: seq<Tree>, prefix: Hex, i: nat, key: Hex)
    requires |cs| == 17 && i < 17 && Minimal(cs[i]) && KeyFor(cs[i], key)
    requires Distinct(RemovePaths(cs[i], prefix + [i], key))
    ensures Distinct(RemovePaths(cs[i], prefix + [i], key) + ReducePaths(prefix, cs[i := Empty]))
    ensures Distinct(RemovePaths(cs[i], prefix + [i], key) + [])
  {
    var a, b := RemovePaths(cs[i], prefix + [i], key), ReducePaths(prefix, cs[i := Empty]);
    var p := FirstChild(cs[i := Empty], 0);
    if b != [] {
      RemovePathsBelow(cs[i], prefix, [i], key, [p]);
      assert b == [prefix + [p]] && p != i && [i][0] != [p][0];
    }
    DistinctAppend(a, b);
  }

  lemma DistinctAppend(a: seq<Hex>, b: seq<Hex>)
    requires Distinct(a) && |b| <= 1 && (b != [] ==> b[0] !in a)
    ensures Distinct(a + b) && a + [] == a
  {}

  /** The tracer's promise: `inserts` and `deletes` are the two differences between node-path sets. */
  ghost predicate Exact(c: Changes, loaded: iset<Hex>, current: iset<Hex>) {
    forall p ::
      && (p in c.inserts <==> p in current && p !in loaded)
      && (p in c.deletes <==> p in loaded && p !in current)
  }

  ghost function NodePaths(t: Tree): iset<Hex> {
    iset p | IsNodePath(t, p)
  }

  lemma {:induction false} AfterInsertsExact(c: Changes, paths: seq<Hex>, loaded: iset<Hex>, current: iset<Hex>)
    requires Exact(c, loaded, current) && Distinct(paths) && forall p | p in paths :: p !in current
    ensures Exact(AfterInserts(c, paths), loaded, current + iset p | p in paths)
    decreases paths
  {
    if paths == [] {
      assert current + (iset p: Hex | p in paths) == current;
    } else {
      var next := current + iset{paths[0]};
      AfterInsertsExact(AfterInsert(c, paths[0]), paths[1..], loaded, next);
      assert current + (iset p | p in paths) == next + (iset p | p in paths[1..]);
    }
  }

  lemma {:induction false} AfterDeletesExact(c: Changes, paths: seq<Hex>, loaded: iset<Hex>, current: iset<Hex>)
    requires Exact(c, loaded, current) && Distinct(paths) && forall p | p in paths :: p in current
    ensures Exact(AfterDeletes(c, paths), loaded, current - iset p | p in paths)
    decreases paths
  {
    if paths == [] {
      assert current - (iset p: Hex | p in paths) == current;
    } else {
      var next := current - iset{paths[0]};
      AfterDeletesExact(AfterDelete(c, paths[0]), paths[1..], loaded, next);
      assert current - (iset p | p in paths) == next - (iset p | p in paths[1..]);
    }
  }

  /** An insertion keeps the tracer exact, whatever happened since the trie was loaded. */
  lemma PutKeepsExact(c: Changes, loaded: iset<Hex>, t: Tree, key: Hex, v: Bytes)
    requires Minimal(t) && IsKey(key) && !t.Leaf? && Exact(c, loaded, NodePaths(t))
    ensures Exact(AfterInserts(c, PutPaths(t, [], key)), loaded, NodePaths(Put(t, key, v)))
  {
    var paths := PutPaths(t, [], key);
    forall q
      ensures q in paths <==> IsNodePath(Put(t, key, v), q) && !IsNodePath(t, q)
      ensures IsNodePath(t, q) ==> IsNodePath(Put(t, key, v), q)
    {
      PutPathsExact(t, [], key, v, q);
      assert [] + q == q;
    }
    PutPathsDistinct(t, [], key);
    AfterInsertsExact(c, paths, loaded, NodePaths(t));
    assert NodePaths(t) + (iset p | p in paths) == NodePaths(Put(t, key, v));
  }

  lemma RemoveKeepsExact(c: Changes, loaded: iset<Hex>, t: Tree, key: Hex)
    requires Minimal(t) && IsKey(key) && !t.Leaf? && Exact(c, loaded, NodePaths(t))
    ensures Exact(AfterDeletes(c, RemovePaths(t, [], key)), loaded, NodePaths(Remove(t, key)))
  {
    var paths := RemovePaths(t, [], key);
    forall q
      ensures q in paths <==> IsNodePath(t, q) && !IsNodePath(Remove(t, key), q)
      ensures IsNodePath(Remove(t, key), q) ==> IsNodePath(t, q)
    {
      RemovePathsExact(t, [], key, q);
      assert [] + q == q;
    }
    RemovePathsDistinct(t, [], key);
    AfterDeletesExact(c, paths, loaded, NodePaths(t));
    assert NodePaths(t) - (iset p | p in paths) == NodePaths(Remove(t, key));
  }
}
