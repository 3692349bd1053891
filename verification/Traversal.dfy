/** The order in which trie/iterator.go visits the nodes of a trie, and what is left of it at each point. */
module Traversal {
  import opened Bytes
  import opened HexEncoding
  import opened Paths
  import opened Tree
  import Tracer

  datatype Visit = Visit(path: Hex, tree: Tree)

  /** Every node once, before the nodes below it. */
  function PreOrder(t: Tree, path: Hex): seq<Visit>
    requires Minimal(t)
    decreases t, 18
  {
    if t.Empty? then [] else [Visit(path, t)] + Rest(t, 0, path)
  }

  /** The children of `t` from number `from` on; the child of an extension is number 0. */
  function Rest(t: Tree, from: nat, path: Hex): seq<Visit>
    requires Minimal(t)
    decreases t, if from <= 17 then 17 - from else 0
  {
    match t
    case Ext(k, c) => if from == 0 then PreOrder(c, path + k) else []
    case Branch(cs) => if from < 17 then PreOrder(cs[from], path + [from]) + Rest(t, from + 1, path) else []
    case _ => []
  }

  // ---------- Sorted, without repetitions ----------

  ghost predicate Sorted(vs: seq<Visit>) {
    forall i, j | 0 <= i < j < |vs| :: PathLess(vs[i].path, vs[j].path)
  }

  ghost predicate AllUnder(vs: seq<Visit>, path: Hex) {
    forall i | 0 <= i < |vs| :: path <= vs[i].path
  }

  lemma SortedJoin(us: seq<Visit>, vs: seq<Visit>)
    requires Sorted(us) && Sorted(vs)
    requires forall i, j | 0 <= i < |us| && 0 <= j < |vs| :: PathLess(us[i].path, vs[j].path)
    ensures Sorted(us + vs)
  {}

  /** Everything in `vs` is below one of the children of `path` from number `from` on. */
  ghost predicate UnderChildren(vs: seq<Visit>, path: Hex, from: nat) {
    forall i | 0 <= i < |vs| :: UnderChild(vs[i].path, path, from)
  }

  ghost predicate UnderChild(p: Hex, path: Hex, from: nat) {
    path < p && p[|path|] >= from
  }

  lemma Beside(p: Hex, q: Hex, path: Hex, i: HexDigit)
    requires path + [i] <= p && UnderChild(q, path, i + 1)
    ensures PathLess(p, q)
  {
    var j := q[|path|];
    assert p == path + [i] + p[|path| + 1..];
    assert q == path + [j] + q[|path| + 1..];
    SiblingsLess(path, i, p[|path| + 1..], j, q[|path| + 1..]);
  }

  lemma {:induction false} PreOrderSorted(t: Tree, path: Hex)
    requires Minimal(t)
    ensures Sorted(PreOrder(t, path)) && AllUnder(PreOrder(t, path), path)
    decreases t, 18
  {
    if !t.Empty? {
      RestSorted(t, 0, path);
      forall j | 0 <= j < |Rest(t, 0, path)| ensures PathLess(path, Rest(t, 0, path)[j].path) {
        PrefixIsLess(path, Rest(t, 0, path)[j].path);
      }
      SortedJoin([Visit(path, t)], Rest(t, 0, path));
    }
  }

  lemma {:induction false} RestSorted(t: Tree, from: nat, path: Hex)
    requires Minimal(t)
    ensures Sorted(Rest(t, from, path))
    ensures forall i | 0 <= i < |Rest(t, from, path)| :: path < Rest(t, from, path)[i].path
    ensures t.Branch? ==> UnderChildren(Rest(t, from, path), path, from)
    decreases t, if from <= 17 then 17 - from else 0
  {
    match t
    case Ext(k, c) =>
      if from == 0 {
        PreOrderSorted(c, path + k);
        forall i | 0 <= i < |PreOrder(c, path + k)| ensures path < PreOrder(c, path + k)[i].path {
          assert path < path + k;
        }
      }
    case Branch(cs) =>
      if from < 17 {
        PreOrderSorted(cs[from], path + [from]);
        RestSorted(t, from + 1, path);
        BranchRestSorted(cs, from, path, PreOrder(cs[from], path + [from]), Rest(t, from + 1, path));
      }
    case _ =>
  }

  lemma BranchRestSorted(cs: seq<Tree>, from: HexDigit, path: Hex, us: seq<Visit>, vs: seq<Visit>)
    requires Sorted(us) && AllUnder(us, path + [from]) && Sorted(vs) && UnderChildren(vs, path, from + 1)
    ensures Sorted(us + vs) && UnderChildren(us + vs, path, from)
    ensures forall i | 0 <= i < |us + vs| :: path < (us + vs)[i].path
  {
    forall i, j | 0 <= i < |us| && 0 <= j < |vs| ensures PathLess(us[i].path, vs[j].path) {
      Beside(us[i].path, vs[j].path, path, from);
    }
    SortedJoin(us, vs);
    forall i | 0 <= i < |us| ensures UnderChild(us[i].path, path, from) {
      assert path + [from] <= us[i].path;
      assert us[i].path[..|path|] == path;
    }
  }

  // ---------- The visits are the nodes ----------

  /** The part of `t` at path `q`. */
  function Sub(t: Tree, q: Hex): Option<Tree> {
    if t.Empty? then None
    else if q == [] then Some(t)
    else match t
      case Ext(k, c) => if k != [] && k <= q then Sub(c, q[|k|..]) else None
      case Branch(cs) => if |cs| == 17 then Sub(cs[q[0]], q[1..]) else None
      case _ => None
  }

  /** The visits are exactly the parts of the trie, each at its path. */
  lemma {:induction false} VisitsAre(t: Tree, path: Hex, q: Hex, s: Tree)
    requires Minimal(t)
    ensures Visit(path + q, s) in PreOrder(t, path) <==> Sub(t, q) == Some(s)
    decreases t, 18
  {
    if !t.Empty? {
      RestSorted(t, 0, path);
      if q == [] {
        assert path + q == path;
      } else {
        match t
        case Leaf(_) =>
        case Ext(k, c) => VisitsBelow(c, path, k, q, s);
        case Branch(cs) => VisitsRest(t, 0, path, q, s);
      }
    }
  }

  lemma {:induction false} VisitsBelow(c: Tree, path: Hex, k: Hex, q: Hex, s: Tree)
    requires Minimal(c) && k != []
    ensures Visit(path + q, s) in PreOrder(c, path + k) <==> k <= q && Sub(c, q[|k|..]) == Some(s)
    decreases c, 19
  {
    PreOrderSorted(c, path + k);
    VisitedUnder(PreOrder(c, path + k), path, k, q, s);
    if k <= q {
      assert path + q == path + k + q[|k|..];
      VisitsAre(c, path + k, q[|k|..], s);
    }
  }

  lemma VisitedUnder(vs: seq<Visit>, path: Hex, k: Hex, q: Hex, s: Tree)
    requires AllUnder(vs, path + k)
    ensures Visit(path + q, s) in vs ==> k <= q
  {
    if Visit(path + q, s) in vs {
      var i :| 0 <= i < |vs| && vs[i] == Visit(path + q, s);
      assert path + k <= vs[i].path;
      assert (path + q)[|path|..|path| + |k|] == k == q[..|k|];
    }
  }

  lemma {:induction false} VisitsRest(t: Tree, from: nat, path: Hex, q: Hex, s: Tree)
    requires Minimal(t) && t.Branch? && q != []
    ensures Visit(path + q, s) in Rest(t, from, path) <==> q[0] >= from && Sub(t, q) == Some(s)
    decreases t, if from <= 17 then 17 - from else 0
  {
    if from < 17 {
      VisitsRest(t, from + 1, path, q, s);
      VisitsChild(t, from, path, q, s);
      RestStep(t, from, path, Visit(path + q, s));
    }
  }

  lemma {:induction false} VisitsChild(t: Tree, i: HexDigit, path: Hex, q: Hex, s: Tree)
    requires Minimal(t) && t.Branch? && q != []
    ensures Visit(path + q, s) in PreOrder(t.children[i], path + [i]) <==> q[0] == i && Sub(t, q) == Some(s)
    decreases t, 0
  {
    VisitsBelow(t.children[i], path, [i], q, s);
    assert [i] <= q <==> q[0] == i;
  }

  lemma RestStep(t: Tree, from: HexDigit, path: Hex, v: Visit)
    requires Minimal(t) && t.Branch?
    ensures v in Rest(t, from, path) <==> v in PreOrder(t.children[from], path + [from]) || v in Rest(t, from + 1, path)
  {}

  lemma {:induction false} SubNodePath(t: Tree, q: Hex)
    requires Minimal(t)
    ensures Tracer.IsNodePath(t, q) <==> Sub(t, q).Some? && (Sub(t, q).value.Ext? || Sub(t, q).value.Branch?)
    decreases t
  {
    match t
    case Ext(k, c) =>
      if k <= q {
        SubNodePath(c, q[|k|..]);
      }
    case Branch(cs) =>
      if q != [] {
        SubNodePath(cs[q[0]], q[1..]);
      }
    case _ =>
  }

  /** Every node path is visited, and no other path as a node; with `PreOrderSorted`, each once. */
  lemma NodeVisits(t: Tree, path: Hex, q: Hex)
    requires Minimal(t)
    ensures Tracer.IsNodePath(t, q) <==> exists s :: Visit(path + q, s) in PreOrder(t, path) && (s.Ext? || s.Branch?)
  {
    SubNodePath(t, q);
    if Tracer.IsNodePath(t, q) {
      VisitsAre(t, path, q, Sub(t, q).value);
    }
    forall s | Visit(path + q, s) in PreOrder(t, path) ensures Sub(t, q) == Some(s) {
      VisitsAre(t, path, q, s);
    }
  }

  // ---------- The leaves are the content ----------

  ghost predicate VisitsLeaf(vs: seq<Visit>, path: Hex, v: Bytes) {
    Visit(path, Leaf(v)) in vs
  }

  lemma {:induction false} SubLookup(t: Tree, key: Hex, v: Bytes)
    requires Minimal(t) && KeyFor(t, key)
    ensures Sub(t, key) == Some(Leaf(v)) <==> Lookup(t, key) == Some(v)
    decreases t
  {
    match t
    case Ext(k, c) =>
      if k <= key {
        ExtStep(k, c, key);
        SubLookup(c, key[|k|..], v);
      }
    case Branch(cs) =>
      BranchStep(cs, key);
      if !cs[key[0]].Empty? {
        SubLookup(cs[key[0]], key[1..], v);
      }
    case _ =>
  }

  /** A key is visited as a leaf with its value exactly if the trie maps it to that value. */
  lemma LeafVisits(t: Tree, path: Hex, key: Hex, v: Bytes)
    requires Minimal(t) && KeyFor(t, key)
    ensures VisitsLeaf(PreOrder(t, path), path + key, v) <==> Lookup(t, key) == Some(v)
  {
    VisitsAre(t, path, key, Leaf(v));
    SubLookup(t, key, v);
  }

  // ---------- What is left ----------

  /** A node on the way to the current one: the child last moved to, and where the path to the node's parent ends. */
  datatype Frame = Frame(tree: Tree, index: int, pathlen: nat)

  ghost predicate FramesOk(fs: seq<Frame>) {
    forall i | 0 <= i < |fs| :: Minimal(fs[i].tree) && !fs[i].tree.Empty? && fs[i].index >= -1
  }

  function UpTo(path: Hex, n: nat): Hex {
    if n <= |path| then path[..n] else path
  }

  function Top(fs: seq<Frame>): Frame
    requires fs != []
  {
    fs[|fs| - 1]
  }

  /** The visits still to come after the node at the top, which is at `path`. */
  ghost function Remaining(fs: seq<Frame>, path: Hex): seq<Visit>
    requires FramesOk(fs)
  {
    if fs == [] then
      []
    else
      Rest(Top(fs).tree, Top(fs).index + 1, path) + Remaining(fs[..|fs| - 1], UpTo(path, Top(fs).pathlen))
  }

  ghost predicate HasChild(t: Tree, j: int) {
    match t
    case Ext(_, _) => j == 0
    case Branch(cs) => 0 <= j < 17 && |cs| == 17 && !cs[j].Empty?
    case _ => false
  }

  ghost function Child(t: Tree, j: int): Tree
    requires HasChild(t, j)
  {
    if t.Ext? then t.child else t.children[j]
  }

  ghost function Step(t: Tree, j: int): Hex
    requires HasChild(t, j)
  {
    if t.Ext? then t.key else [j]
  }

  lemma ChildIsMinimal(t: Tree, j: int)
    requires Minimal(t) && HasChild(t, j)
    ensures Minimal(Child(t, j)) && !Child(t, j).Empty?
  {}

  ghost predicate NoChildIn(t: Tree, from: int, end: int) {
    forall i | from <= i < end :: !HasChild(t, i)
  }

  lemma {:induction false} RestSkips(t: Tree, from: nat, end: nat, path: Hex)
    requires Minimal(t) && from <= end && NoChildIn(t, from, end)
    ensures Rest(t, from, path) == Rest(t, end, path)
    decreases end - from
  {
    if from < end {
      assert !HasChild(t, from);
      RestSkips(t, from + 1, end, path);
    }
  }

  lemma RestMoves(t: Tree, j: nat, path: Hex)
    requires Minimal(t) && HasChild(t, j)
    ensures Minimal(Child(t, j)) && !Child(t, j).Empty?
    ensures Rest(t, j, path)
         == [Visit(path + Step(t, j), Child(t, j))] + Rest(Child(t, j), 0, path + Step(t, j)) + Rest(t, j + 1, path)
  {}

  lemma RestEnds(t: Tree, from: nat, path: Hex)
    requires Minimal(t) && NoChildIn(t, from, 17)
    ensures Rest(t, from, path) == []
  {
    if from < 17 {
      RestSkips(t, from, 17, path);
    }
  }

  /** Child number `j` of the top node is the next to move to. */
  function Turned(fs: seq<Frame>, j: int): seq<Frame>
    requires fs != []
  {
    fs[|fs| - 1 := Top(fs).(index := j - 1)]
  }

  /** Child number `j` of the top node has been moved to. */
  ghost function Pushed(fs: seq<Frame>, j: int, path: Hex): seq<Frame>
    requires fs != [] && HasChild(Top(fs).tree, j)
  {
    Turned(fs, j + 1) + [Frame(Child(Top(fs).tree, j), -1, |path|)]
  }

  lemma TurnedRemaining(fs: seq<Frame>, j: nat, path: Hex)
    requires FramesOk(fs) && fs != []
    ensures FramesOk(Turned(fs, j))
    ensures Remaining(Turned(fs, j), path)
         == Rest(Top(fs).tree, j, path) + Remaining(fs[..|fs| - 1], UpTo(path, Top(fs).pathlen))
  {
    assert Turned(fs, j)[..|fs| - 1] == fs[..|fs| - 1];
  }

  /** Turning to the next child that is there loses nothing. */
  lemma TurnToNext(fs: seq<Frame>, j: nat, path: Hex)
    requires FramesOk(fs) && fs != [] && Top(fs).index + 1 <= j && NoChildIn(Top(fs).tree, Top(fs).index + 1, j)
    ensures FramesOk(Turned(fs, j)) && Remaining(Turned(fs, j), path) == Remaining(fs, path)
  {
    TurnedRemaining(fs, j, path);
    RestSkips(Top(fs).tree, Top(fs).index + 1, j, path);
  }

  lemma PopRemaining(fs: seq<Frame>, path: Hex)
    requires FramesOk(fs) && fs != [] && NoChildIn(Top(fs).tree, Top(fs).index + 1, 17)
    ensures Remaining(fs, path) == Remaining(fs[..|fs| - 1], UpTo(path, Top(fs).pathlen))
  {
    RestEnds(Top(fs).tree, Top(fs).index + 1, path);
  }

  lemma PushedOk(fs: seq<Frame>, j: nat, path: Hex)
    requires FramesOk(fs) && fs != [] && HasChild(Top(fs).tree, j)
    ensures FramesOk(Pushed(fs, j, path))
  {
    ChildIsMinimal(Top(fs).tree, j);
    TurnedRemaining(fs, j + 1, path);
  }

  lemma PushedRemaining(fs: seq<Frame>, j: nat, path: Hex)
    requires FramesOk(fs) && fs != [] && HasChild(Top(fs).tree, j) && FramesOk(Pushed(fs, j, path))
    requires Minimal(Child(Top(fs).tree, j)) && FramesOk(Turned(fs, j + 1))
    ensures Remaining(Pushed(fs, j, path), path + Step(Top(fs).tree, j))
         == Rest(Child(Top(fs).tree, j), 0, path + Step(Top(fs).tree, j)) + Remaining(Turned(fs, j + 1), path)
  {
    var fs', path' := Pushed(fs, j, path), path + Step(Top(fs).tree, j);
    assert fs'[..|fs'| - 1] == Turned(fs, j + 1) && UpTo(path', |path|) == path;
  }

  /** Moving to the child that was turned to takes the first of the remaining visits. */
  lemma PushRemaining(fs: seq<Frame>, j: nat, path: Hex)
    requires FramesOk(fs) && fs != [] && HasChild(Top(fs).tree, j) && Top(fs).index == j - 1
    ensures FramesOk(Pushed(fs, j, path))
    ensures var path' := path + Step(Top(fs).tree, j);
            Remaining(fs, path) == [Visit(path', Child(Top(fs).tree, j))] + Remaining(Pushed(fs, j, path), path')
  {
    var t, path' := Top(fs).tree, path + Step(Top(fs).tree, j);
    PushedOk(fs, j, path);
    ChildIsMinimal(t, j);
    RestMoves(t, j, path);
    TurnedRemaining(fs, j + 1, path);
    PushedRemaining(fs, j, path);
    Joined(Visit(path', Child(t, j)), Rest(Child(t, j), 0, path'), Rest(t, j + 1, path),
           Remaining(fs[..|fs| - 1], UpTo(path, Top(fs).pathlen)));
  }

  lemma Joined(v: Visit, a: seq<Visit>, b: seq<Visit>, c: seq<Visit>)
    ensures ([v] + a + b) + c == [v] + (a + (b + c))
  {}

  // ---------- Seeking ----------

  /** The visits at or after `key`. */
  function Keep(vs: seq<Visit>, key: Hex): seq<Visit> {
    if vs == [] then [] else (if PathLess(vs[0].path, key) then [] else [vs[0]]) + Keep(vs[1..], key)
  }

  ghost predicate AllBefore(vs: seq<Visit>, key: Hex) {
    forall i | 0 <= i < |vs| :: PathLess(vs[i].path, key)
  }

  lemma {:induction false} KeepAfter(us: seq<Visit>, vs: seq<Visit>, key: Hex)
    requires AllBefore(us, key)
    ensures Keep(us + vs, key) == Keep(vs, key)
  {
    if us == [] {
      assert us + vs == vs;
    } else {
      assert (us + vs)[1..] == us[1..] + vs;
      KeepAfter(us[1..], vs, key);
    }
  }

  lemma {:induction false} KeepSorted(vs: seq<Visit>, key: Hex)
    requires Sorted(vs) && (vs != [] ==> !PathLess(vs[0].path, key))
    ensures Keep(vs, key) == vs
  {
    if vs != [] {
      if |vs| > 1 && PathLess(vs[1].path, key) {
        PathLessTrans(vs[0].path, vs[1].path, key);
      }
      KeepSorted(vs[1..], key);
    }
  }

  /** `left` is the end of `all`, and has all of its visits at or after `key`. */
  ghost predicate Seeking(all: seq<Visit>, left: seq<Visit>, key: Hex) {
    |left| <= |all| && all[|all| - |left|..] == left && Keep(all, key) == Keep(left, key)
  }

  lemma SeekPast(all: seq<Visit>, before: seq<Visit>, left: seq<Visit>, key: Hex)
    requires Seeking(all, before + left, key) && AllBefore(before, key)
    ensures Seeking(all, left, key)
  {
    KeepAfter(before, left, key);
    assert all[|all| - |left|..] == all[|all| - |before + left|..][|before|..];
  }

  lemma SeekEnds(all: seq<Visit>, left: seq<Visit>, key: Hex)
    requires Sorted(all) && Seeking(all, left, key) && (left != [] ==> !PathLess(left[0].path, key))
    ensures left == Keep(all, key)
  {
    KeepSorted(left, key);
  }

  /** Everything below a node is before the key if the node is, and is not on the way to the key. */
  lemma BelowBefore(vs: seq<Visit>, path: Hex, key: Hex)
    requires AllUnder(vs, path) && PathLess(path, key) && !(path <= key)
    ensures AllBefore(vs, key)
  {
    forall i | 0 <= i < |vs| ensures PathLess(vs[i].path, key) {
      assert path <= vs[i].path;
      LessBelow(path, key, vs[i].path[|path|..]);
      assert path + vs[i].path[|path|..] == vs[i].path;
    }
  }

  /** A sibling before a node that is itself before the key is before it with its whole subtree. */
  lemma SiblingBefore(path: Hex, i: HexDigit, j: HexDigit, key: Hex)
    requires i < j && PathLess(path + [j], key)
    ensures PathLess(path + [i], key) && !(path + [i] <= key)
  {
    SiblingsLess(path, i, [], j, []);
    assert path + [i] + [] == path + [i] && path + [j] + [] == path + [j];
    PathLessTrans(path + [i], path + [j], key);
    if path + [i] <= key {
      var x := key[|path| + 1..];
      assert key == path + [i] + x;
      SiblingsLess(path, i, x, j, []);
      PathLessTotal(key, path + [j]);
    }
  }

  /** What `nextChildAt` passes over on its way to child `j` is before the key. */
  lemma {:induction false} PassedOver(cs: seq<Tree>, from: nat, j: nat, path: Hex, key: Hex) returns (before: seq<Visit>)
    requires Minimal(Branch(cs)) && from <= j < 17 && PathLess(path + [j], key)
    ensures Rest(Branch(cs), from, path) == before + Rest(Branch(cs), j, path) && AllBefore(before, key)
    decreases j - from
  {
    if from == j {
      before := [];
    } else {
      var later := PassedOver(cs, from + 1, j, path, key);
      SiblingBefore(path, from, j, key);
      PreOrderSorted(cs[from], path + [from]);
      BelowBefore(PreOrder(cs[from], path + [from]), path + [from], key);
      before := PreOrder(cs[from], path + [from]) + later;
    }
  }

  /** Turning to a child during a seek: the next one, or a later one that is before the key. */
  ghost predicate SeekTarget(t: Tree, from: int, j: int, path: Hex, key: Hex) {
    && from <= j && HasChild(t, j)
    && (NoChildIn(t, from, j) || (t.Branch? && PathLess(path + Step(t, j), key)))
  }

  lemma SeekTurn(all: seq<Visit>, fs: seq<Frame>, j: nat, path: Hex, key: Hex)
    requires FramesOk(fs) && fs != [] && Seeking(all, Remaining(fs, path), key)
    requires SeekTarget(Top(fs).tree, Top(fs).index + 1, j, path, key)
    ensures FramesOk(Turned(fs, j)) && Seeking(all, Remaining(Turned(fs, j), path), key)
    ensures |Remaining(Turned(fs, j), path)| <= |Remaining(fs, path)|
  {
    var t, from := Top(fs).tree, Top(fs).index + 1;
    if NoChildIn(t, from, j) {
      TurnToNext(fs, j, path);
    } else {
      var before := PassedOver(t.children, from, j, path, key);
      var low := Remaining(fs[..|fs| - 1], UpTo(path, Top(fs).pathlen));
      TurnedRemaining(fs, j, path);
      assert before + Rest(t, j, path) + low == before + (Rest(t, j, path) + low) by {
        JoinedTwo(before, Rest(t, j, path), low);
      }
      SeekPast(all, before, Rest(t, j, path) + low, key);
    }
  }

  lemma JoinedTwo(a: seq<Visit>, b: seq<Visit>, c: seq<Visit>)
    ensures a + b + c == a + (b + c)
  {}

  /** Leaving a node that is before the key and not on the way to it. */
  lemma SeekPop(all: seq<Visit>, fs: seq<Frame>, path: Hex, key: Hex)
    requires FramesOk(fs) && fs != [] && Seeking(all, Remaining(fs, path), key)
    requires PathLess(path, key) && !(path <= key)
    ensures Seeking(all, Remaining(fs[..|fs| - 1], UpTo(path, Top(fs).pathlen)), key)
  {
    var before := Rest(Top(fs).tree, Top(fs).index + 1, path);
    RestSorted(Top(fs).tree, Top(fs).index + 1, path);
    BelowBefore(before, path, key);
    SeekPast(all, before, Remaining(fs[..|fs| - 1], UpTo(path, Top(fs).pathlen)), key);
  }

  /** Moving during a seek to the child that was turned to, when that is before the key. */
  lemma SeekPush(all: seq<Visit>, fs: seq<Frame>, j: nat, path: Hex, key: Hex)
    requires FramesOk(fs) && fs != [] && HasChild(Top(fs).tree, j) && Top(fs).index == j - 1
    requires Seeking(all, Remaining(fs, path), key) && PathLess(path + Step(Top(fs).tree, j), key)
    ensures FramesOk(Pushed(fs, j, path))
    ensures Seeking(all, Remaining(Pushed(fs, j, path), path + Step(Top(fs).tree, j)), key)
  {
    PushRemaining(fs, j, path);
    var path' := path + Step(Top(fs).tree, j);
    SeekPast(all, [Visit(path', Child(Top(fs).tree, j))], Remaining(Pushed(fs, j, path), path'), key);
  }

  lemma {:induction false} KeepLeaf(vs: seq<Visit>, key: Hex, path: Hex, v: Bytes)
    ensures VisitsLeaf(Keep(vs, key), path, v) <==> VisitsLeaf(vs, path, v) && !PathLess(path, key)
  {
    if vs != [] {
      KeepLeaf(vs[1..], key, path, v);
      assert vs == [vs[0]] + vs[1..];
    }
  }

  /** The leaves at or after `start` are the entries of the trie whose keys are. */
  lemma LeavesFrom(t: Tree, start: Hex, key: Hex, v: Bytes)
    requires Minimal(t) && !t.Leaf? && IsKey(key)
    ensures VisitsLeaf(Keep(PreOrder(t, []), start), key, v) <==> Lookup(t, key) == Some(v) && !PathLess(key, start)
  {
    KeepLeaf(PreOrder(t, []), start, key, v);
    LeafVisits(t, [], key, v);
    assert [] + key == key;
  }

  /** Exactly the paths of leaves end with the terminator. */
  ghost predicate TermAtLeaf(v: Visit) {
    IsHex(v.path) && (HasTerm(v.path) <==> v.tree.Leaf?)
  }

  lemma {:induction false} PathsEndAtLeaves(t: Tree, path: Hex)
    requires Minimal(t) && IsHex(path) && (HasTerm(path) <==> t.Leaf?)
    ensures forall i | 0 <= i < |PreOrder(t, path)| :: TermAtLeaf(PreOrder(t, path)[i])
    decreases t, 18
  {
    if !t.Empty? {
      RestEndsAtLeaves(t, 0, path);
    }
  }

  lemma {:induction false} RestEndsAtLeaves(t: Tree, from: nat, path: Hex)
    requires Minimal(t) && IsHex(path) && (HasTerm(path) <==> t.Leaf?)
    ensures forall i | 0 <= i < |Rest(t, from, path)| :: TermAtLeaf(Rest(t, from, path)[i])
    decreases t, if from <= 17 then 17 - from else 0
  {
    match t
    case Ext(k, c) =>
      if from == 0 {
        PathsEndAtLeaves(c, path + k);
      }
    case Branch(cs) =>
      if from < 17 {
        assert Slot(from, cs[from]);
        if !cs[from].Empty? {
          PathsEndAtLeaves(cs[from], path + [from]);
        }
        RestEndsAtLeaves(t, from + 1, path);
      }
    case _ =>
  }
}
