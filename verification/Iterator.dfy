/** trie/iterator.go: the node iterator, over loaded and hash-only nodes. */
module Iterator {
  import opened Bytes
  import opened HexEncoding
  import opened Paths
  import opened Nodes
  import opened Tree
  import opened TreeEncoding
  import opened Store
  import opened Traversal
  import Trie

  datatype IteratorState = IteratorState(node: Node, index: int, pathlen: nat)

  /** A resolved node that stands for `t`. */
  ghost predicate StateOk(s: IteratorState, t: Tree, db: Store, root: bool) {
    Minimal(t) && !t.Empty? && s.index >= -1 && Represents(s.node, t, db, root) && !s.node.HashNode?
  }

  ghost predicate StackOk(stack: seq<IteratorState>, trees: seq<Tree>, db: Store) {
    |trees| == |stack| && forall i | 0 <= i < |stack| :: StateOk(stack[i], trees[i], db, i == 0)
  }

  ghost function FramesOf(stack: seq<IteratorState>, trees: seq<Tree>): seq<Frame>
    requires |trees| == |stack|
  {
    seq(|stack|, i requires 0 <= i < |stack| => Frame(trees[i], stack[i].index, stack[i].pathlen))
  }

  lemma StackIsFrames(stack: seq<IteratorState>, trees: seq<Tree>, db: Store)
    requires StackOk(stack, trees, db)
    ensures FramesOk(FramesOf(stack, trees))
  {
    forall i | 0 <= i < |stack|
      ensures Minimal(trees[i]) && !trees[i].Empty? && stack[i].index >= -1
    {
      assert StateOk(stack[i], trees[i], db, i == 0);
    }
  }

  // ---------- Children of loaded nodes ----------

  lemma NilIffEmpty(n: Node, t: Tree, db: Store)
    requires Minimal(t) && Represents(n, t, db, false)
    ensures n.NilNode? <==> t.Empty?
  {}

  /** The node has the children of `t`, and is reached in the same way. */
  ghost predicate SameShape(n: Node, t: Tree) {
    && (n.ShortNode? <==> t.Ext?) && (n.FullNode? <==> t.Branch?)
    && (t.Ext? ==> n.key == t.key)
    && (t.Branch? ==> |n.children| == |t.children| == 17 && forall i | 0 <= i < 17 :: n.children[i].NilNode? <==> t.children[i].Empty?)
  }

  lemma LoadedShape(n: Node, t: Tree, db: Store, root: bool)
    requires Minimal(t) && !t.Empty? && Represents(n, t, db, root) && !n.HashNode?
    ensures SameShape(n, t)
  {
    if t.Branch? {
      forall i | 0 <= i < 17 ensures n.children[i].NilNode? <==> t.children[i].Empty? {
        NilIffEmpty(n.children[i], t.children[i], db);
      }
    }
  }

  lemma ChildRepresents(n: Node, t: Tree, db: Store, root: bool, j: int)
    requires Minimal(t) && Represents(n, t, db, root) && !n.HashNode? && HasChild(t, j)
    ensures Minimal(Child(t, j)) && !Child(t, j).Empty?
    ensures t.Ext? ==> n.ShortNode? && Represents(n.val, Child(t, j), db, false)
    ensures t.Branch? ==> n.FullNode? && |n.children| == 17 && Represents(n.children[j], Child(t, j), db, false)
  {
    ChildIsMinimal(t, j);
  }

  /** `findChild`: the first child that is there. */
  method FindChild(children: seq<Node>, index: nat) returns (found: bool, j: nat)
    requires |children| == 17
    ensures found ==> index <= j < 17 && !children[j].NilNode? && forall i | index <= i < j :: children[i].NilNode?
    ensures !found ==> forall i | index <= i < 17 :: children[i].NilNode?
  {
    j := index;
    while j < 17
      invariant index <= j && (index <= 17 ==> j <= 17)
      invariant forall i | index <= i < j && i < 17 :: children[i].NilNode?
    {
      if !children[j].NilNode? {
        return true, j;
      }
      j := j + 1;
    }
    return false, 0;
  }

  /** `nextChild`: the next child of a node of which the children before `from` are done. */
  method NextChild(n: Node, ghost t: Tree, from: nat) returns (found: bool, j: nat)
    requires SameShape(n, t)
    ensures found ==> from <= j && HasChild(t, j) && NoChildIn(t, from, j)
    ensures !found ==> NoChildIn(t, from, 17)
  {
    match n
    case FullNode(cs, _) => found, j := FindChild(cs, from);
    case ShortNode(_, _, _) => return from == 0, 0;
    case _ => return false, 0;
  }

  /** `nextChildAt`: the last child before the key, or else the next one. */
  method NextChildAt(n: Node, ghost t: Tree, from: nat, path: Hex, key: Hex) returns (found: bool, j: nat)
    requires SameShape(n, t)
    ensures found ==> SeekTarget(t, from, j, path, key)
    ensures !found ==> NoChildIn(t, from, 17)
  {
    match n
    case FullNode(cs, _) =>
      found, j := FindChild(cs, from);
      if !found {
        return;
      }
      assert HasChild(t, j) && Step(t, j) == [j] && NoChildIn(t, from, j);
      if !PathLess(path + [j], key) {
        return;
      }
      while true
        invariant from <= j < 17 && HasChild(t, j) && PathLess(path + [j], key)
        decreases 17 - j
      {
        var more, next := FindChild(cs, j + 1);
        if !more || !PathLess(path + [next], key) {
          assert Step(t, j) == [j];
          return;
        }
        j := next;
      }
    case ShortNode(_, _, _) => return from == 0, 0;
    case _ => return false, 0;
  }

  function ChildNode(n: Node, j: nat): Node
    requires n.ShortNode? || (n.FullNode? && j < |n.children|)
  {
    if n.ShortNode? then n.val else n.children[j]
  }

  function StepNode(n: Node, j: nat): Hex
    requires n.ShortNode? || (n.FullNode? && j <= 16)
  {
    if n.ShortNode? then n.key else [j]
  }

  function PushedStack(stack: seq<IteratorState>, j: nat, child: Node, pathlen: nat): seq<IteratorState>
    requires stack != []
  {
    stack[|stack| - 1 := stack[|stack| - 1].(index := j)] + [IteratorState(child, -1, pathlen)]
  }

  lemma StateTurned(s: IteratorState, t: Tree, db: Store, root: bool, index: int)
    requires StateOk(s, t, db, root) && index >= -1
    ensures StateOk(s.(index := index), t, db, root)
  {}

  lemma PushedStackOk(stack: seq<IteratorState>, trees: seq<Tree>, db: Store, j: nat, s: IteratorState, t: Tree)
    requires StackOk(stack, trees, db) && stack != [] && StateOk(s, t, db, false) && s.index == -1
    ensures StackOk(PushedStack(stack, j, s.node, s.pathlen), trees + [t], db)
  {
    var stack', trees' := PushedStack(stack, j, s.node, s.pathlen), trees + [t];
    forall i | 0 <= i < |stack'| ensures StateOk(stack'[i], trees'[i], db, i == 0) {
      if i < |stack| {
        StateTurned(stack[i], trees[i], db, i == 0, j);
      }
    }
  }

  lemma PushedFrames(stack: seq<IteratorState>, trees: seq<Tree>, j: nat, child: Node, path: Hex)
    requires |stack| == |trees| && stack != [] && HasChild(trees[|trees| - 1], j)
    ensures FramesOf(PushedStack(stack, j, child, |path|), trees + [Child(trees[|trees| - 1], j)])
         == Pushed(FramesOf(stack, trees), j, path)
  {}

  lemma RootRemaining(t: Tree)
    requires Minimal(t) && !t.Empty?
    ensures Remaining([Frame(t, -1, 0)], []) == Rest(t, 0, [])
  {
    assert [Frame(t, -1, 0)][..0] == [];
  }

  // ---------- The iterator ----------

  class NodeIterator {
    const root: Node
    const db: Store
    ghost const tree: Tree
    var stack: seq<IteratorState>
    var path: Hex
    var ended: bool
    ghost var trees: seq<Tree>

    constructor (root: Node, db: Store, ended: bool, ghost t: Tree)
      requires Minimal(t) && (!ended ==> IsInner(t) && Represents(root, t, db, true))
      ensures Valid() && tree == t && this.ended == ended && stack == []
    {
      this.root, this.db, this.ended, tree := root, db, ended, t;
      stack, path, trees := [], [], [];
    }

    ghost predicate Valid()
      reads this
    {
      && Minimal(tree) && (!ended ==> IsInner(tree) && Represents(root, tree, db, true))
      && StackOk(stack, trees, db)
    }

    /** The visits still to come. */
    ghost function Left(): seq<Visit>
      requires Valid()
      reads this
    {
      if ended then
        []
      else if stack == [] then
        PreOrder(tree, [])
      else
        StackIsFrames(stack, trees, db);
        Remaining(FramesOf(stack, trees), path)
    }

    ghost function Frames(): (fs: seq<Frame>)
      requires Valid()
      reads this
      ensures FramesOk(fs)
    {
      StackIsFrames(stack, trees, db);
      FramesOf(stack, trees)
    }

    /** The node that the iterator is at. */
    ghost function Current(): Visit
      requires Valid() && stack != []
      reads this
    {
      Visit(path, trees[|trees| - 1])
    }

    method ResolveNode(n: Node, ghost t: Tree, ghost isRoot: bool) returns (m: Node)
      requires Minimal(t) && !t.Empty? && Represents(n, t, db, isRoot)
      ensures Represents(m, t, db, isRoot) && !m.HashNode?
    {
      if n.HashNode? {
        ResolveRepresents(db, n.hash, t, isRoot);
        m := Resolve(db, n.hash, t);
      } else {
        m := n;
      }
    }

    /** `init` and `push`: start at the root. */
    method Start()
      requires Valid() && !ended && stack == []
      modifies this`stack, this`path, this`trees
      ensures Valid() && stack != [] && Current() == Visit([], tree)
      ensures [Visit([], tree)] + Left() == old(Left()) && Frames() == [Frame(tree, -1, 0)]
    {
      var n := ResolveNode(root, tree, true);
      stack, path, trees := [IteratorState(n, -1, 0)], [], [tree];
      assert FramesOf(stack, trees) == [Frame(tree, -1, 0)];
      RootRemaining(tree);
    }

    method Pop()
      requires Valid() && stack != []
      modifies this`stack, this`path, this`trees
      ensures Valid() && Frames() == old(Frames())[..|old(Frames())| - 1]
      ensures path == UpTo(old(path), old(Top(Frames()).pathlen))
    {
      var last := stack[|stack| - 1];
      path := UpTo(path, last.pathlen);
      stack, trees := stack[..|stack| - 1], trees[..|trees| - 1];
    }

    /** Sets the index of the top node, so that child `j` is the next to move to. */
    method Turn(j: nat)
      requires Valid() && stack != []
      modifies this`stack
      ensures Valid() && stack != [] && Frames() == Turned(old(Frames()), j)
    {
      var top := stack[|stack| - 1];
      stack := stack[|stack| - 1 := top.(index := j - 1)];
      assert FramesOf(stack, trees) == Turned(old(Frames()), j);
    }

    /** Child `j` of the top node, resolved, and the step to it. */
    method LoadChild(j: nat) returns (child: Node, step: Hex)
      requires Valid() && stack != [] && HasChild(trees[|trees| - 1], j)
      ensures StateOk(IteratorState(child, -1, |path|), Child(trees[|trees| - 1], j), db, false)
      ensures step == Step(trees[|trees| - 1], j)
    {
      ghost var t := trees[|trees| - 1];
      var top := stack[|stack| - 1];
      assert StateOk(top, t, db, |stack| == 1);
      LoadedShape(top.node, t, db, |stack| == 1);
      ChildRepresents(top.node, t, db, |stack| == 1, j);
      child := ResolveNode(ChildNode(top.node, j), Child(t, j), false);
      step := StepNode(top.node, j);
    }

    /** `push`: moves to child `j` of the top node. */
    method PushChild(j: nat)
      requires Valid() && !ended && stack != [] && HasChild(Top(Frames()).tree, j) && Top(Frames()).index == j - 1
      modifies this`stack, this`path, this`trees
      ensures Valid() && stack != [] && [Current()] + Left() == old(Left())
      ensures Frames() == Pushed(old(Frames()), j, old(path)) && path == old(path + Step(Top(Frames()).tree, j))
    {
      PushRemaining(Frames(), j, path);
      var child, step := LoadChild(j);
      ghost var c := Child(trees[|trees| - 1], j);
      PushedStackOk(stack, trees, db, j, IteratorState(child, -1, |path|), c);
      PushedFrames(stack, trees, j, child, path);
      stack, trees, path := PushedStack(stack, j, child, |path|), trees + [c], path + step;
    }

    /** The loop of `peek`: up to the next node that has a child left, and its index set to that child. */
    method Advance() returns (found: bool, j: nat)
      requires Valid() && !ended
      modifies this`stack, this`path, this`trees
      ensures Valid() && Remaining(Frames(), path) == old(Remaining(Frames(), path))
      ensures if found then stack != [] && HasChild(Top(Frames()).tree, j) && Top(Frames()).index == j - 1 else stack == []
    {
      while stack != []
        invariant Valid() && Remaining(Frames(), path) == old(Remaining(Frames(), path))
        decreases |stack|
      {
        found, j := ChildOfTop();
        if found {
          TurnToNext(Frames(), j, path);
          Turn(j);
          return true, j;
        }
        PopRemaining(Frames(), path);
        Pop();
      }
      return false, 0;
    }

    method ChildOfTop() returns (found: bool, j: nat)
      requires Valid() && stack != []
      ensures found ==> Top(Frames()).index + 1 <= j && HasChild(Top(Frames()).tree, j)
      ensures found ==> NoChildIn(Top(Frames()).tree, Top(Frames()).index + 1, j)
      ensures !found ==> NoChildIn(Top(Frames()).tree, Top(Frames()).index + 1, 17)
    {
      var top := stack[|stack| - 1];
      assert StateOk(top, trees[|trees| - 1], db, |stack| == 1);
      LoadedShape(top.node, trees[|trees| - 1], db, |stack| == 1);
      found, j := NextChild(top.node, trees[|trees| - 1], top.index + 1);
    }

    /** What `Next` moves through: everything left, or what is left without the nodes below the current one. */
    ghost function Ahead(descend: bool): seq<Visit>
      requires Valid()
      reads this
    {
      if descend || ended || stack == [] then
        Left()
      else
        Remaining(Frames()[..|Frames()| - 1], UpTo(path, Top(Frames()).pathlen))
    }

    /** Moves to the next node, if there is one. */
    method Next(descend: bool) returns (ok: bool)
      requires Valid()
      modifies this
      ensures Valid() && (ok <==> old(Ahead(descend)) != [])
      ensures ok ==> stack != [] && [Current()] + Left() == old(Ahead(descend))
      ensures !ok ==> Left() == []
    {
      if ended {
        return false;
      }
      if stack == [] {
        Start();
        return true;
      }
      if !descend {
        Pop();
      }
      var j;
      ok, j := Advance();
      if ok {
        PushChild(j);
      } else {
        ended := true;
      }
    }

    // ---------- Seeking ----------

    method ChildOfTopAt(key: Hex) returns (found: bool, j: nat)
      requires Valid() && stack != []
      ensures found ==> SeekTarget(Top(Frames()).tree, Top(Frames()).index + 1, j, path, key)
      ensures !found ==> NoChildIn(Top(Frames()).tree, Top(Frames()).index + 1, 17)
    {
      var top := stack[|stack| - 1];
      assert StateOk(top, trees[|trees| - 1], db, |stack| == 1);
      LoadedShape(top.node, trees[|trees| - 1], db, |stack| == 1);
      found, j := NextChildAt(top.node, trees[|trees| - 1], top.index + 1, path, key);
    }

    /** The loop of `peekSeek`. */
    method AdvanceTo(key: Hex, ghost all: seq<Visit>) returns (found: bool, j: nat)
      requires Valid() && !ended && Seeking(all, Remaining(Frames(), path), key)
      modifies this`stack, this`path, this`trees
      ensures Valid() && Seeking(all, Remaining(Frames(), path), key)
      ensures |Remaining(Frames(), path)| <= old(|Remaining(Frames(), path)|)
      ensures if found then stack != [] && HasChild(Top(Frames()).tree, j) && Top(Frames()).index == j - 1 else stack == []
    {
      while stack != []
        invariant Valid() && Seeking(all, Remaining(Frames(), path), key)
        invariant |Remaining(Frames(), path)| <= old(|Remaining(Frames(), path)|)
        decreases |stack|
      {
        found, j := ChildOfTopAt(key);
        if found {
          SeekTurn(all, Frames(), j, path, key);
          Turn(j);
          return true, j;
        }
        PopRemaining(Frames(), path);
        Pop();
      }
      return false, 0;
    }

    method ChildPath(j: nat) returns (p: Hex)
      requires Valid() && stack != [] && HasChild(Top(Frames()).tree, j)
      ensures p == path + Step(Top(Frames()).tree, j)
    {
      var top := stack[|stack| - 1];
      assert StateOk(top, trees[|trees| - 1], db, |stack| == 1);
      LoadedShape(top.node, trees[|trees| - 1], db, |stack| == 1);
      p := path + StepNode(top.node, j);
    }

    /** Between the rounds of a seek: only nodes before the key have been passed. */
    ghost predicate OnTheWay(key: Hex, all: seq<Visit>)
      requires Valid()
      reads this
    {
      !ended && Seeking(all, Left(), key) && (stack != [] ==> PathLess(path, key))
    }

    /** The first round of a seek, at the root. */
    method SeekRoot(key: Hex, ghost all: seq<Visit>) returns (done: bool)
      requires Valid() && OnTheWay(key, all) && stack == [] && Sorted(all)
      modifies this`stack, this`path, this`trees
      ensures Valid()
      ensures if done then Left() == Keep(all, key) else OnTheWay(key, all) && |Left()| < old(|Left()|)
    {
      if !PathLess([], key) {
        SeekEnds(all, Left(), key);
        return true;
      }
      Start();
      SeekPast(all, [Visit([], tree)], Left(), key);
      return false;
    }

    /** Leave the current node if it does not lead to the key. */
    method LeaveDetour(key: Hex, ghost all: seq<Visit>)
      requires Valid() && !ended && stack != [] && PathLess(path, key) && Seeking(all, Remaining(Frames(), path), key)
      modifies this`stack, this`path, this`trees
      ensures Valid() && Seeking(all, Remaining(Frames(), path), key)
      ensures |Remaining(Frames(), path)| <= old(|Remaining(Frames(), path)|)
    {
      if !(path <= key) {
        SeekPop(all, Frames(), path, key);
        Pop();
      }
    }

    /** Go on to the child that was turned to, unless it is at or after the key. */
    method Approach(j: nat, key: Hex, ghost all: seq<Visit>) returns (done: bool)
      requires Valid() && !ended && stack != [] && HasChild(Top(Frames()).tree, j) && Top(Frames()).index == j - 1
      requires Seeking(all, Remaining(Frames(), path), key) && Sorted(all)
      modifies this`stack, this`path, this`trees
      ensures Valid()
      ensures if done then Left() == Keep(all, key) else OnTheWay(key, all) && |Left()| < old(|Left()|)
    {
      var childPath := ChildPath(j);
      if !PathLess(childPath, key) {
        PushRemaining(Frames(), j, path);
        SeekEnds(all, Left(), key);
        return true;
      }
      SeekPush(all, Frames(), j, path, key);
      PushChild(j);
      return false;
    }

    /** A later round. */
    method SeekOn(key: Hex, ghost all: seq<Visit>) returns (done: bool)
      requires Valid() && OnTheWay(key, all) && stack != [] && Sorted(all)
      modifies this
      ensures Valid()
      ensures if done then Left() == Keep(all, key) else OnTheWay(key, all) && |Left()| < old(|Left()|)
    {
      LeaveDetour(key, all);
      var found, j := AdvanceTo(key, all);
      if found {
        done := Approach(j, key, all);
      } else {
        ended := true;
        SeekEnds(all, [], key);
        return true;
      }
    }

    /** `seek`: up to just before the first node at or after the nibbles of the key. */
    method Seek(prefix: Bytes)
      requires Valid() && !ended && stack == []
      modifies this
      ensures Valid() && Left() == Keep(PreOrder(tree, []), Unpack(prefix))
    {
      var key := KeybytesToHex(prefix);
      key := key[..|key| - 1];
      assert key == Unpack(prefix);
      ghost var all := Left();
      PreOrderSorted(tree, []);
      var done := SeekRoot(key, all);
      while !done
        invariant Valid() && (done ==> Left() == Keep(all, key)) && (!done ==> OnTheWay(key, all) && stack != [])
        decreases !done, |Left()|
      {
        done := SeekOn(key, all);
      }
    }

    /** The leaves still to come. */
    ghost function LeavesLeft(): seq<Visit>
      requires Valid()
      reads this
    {
      Leaves(Left())
    }

    /** The loop of the key-value iterator: on to the next leaf. */
    method NextLeaf() returns (ok: bool, key: Hex, value: Bytes)
      requires Valid() && ProperPaths(Left())
      modifies this
      ensures Valid() && ProperPaths(Left())
      ensures ok <==> old(LeavesLeft()) != []
      ensures ok ==> [Visit(key, Leaf(value))] + LeavesLeft() == old(LeavesLeft())
      ensures !ok ==> Left() == []
    {
      while true
        invariant Valid() && ProperPaths(Left()) && LeavesLeft() == old(LeavesLeft())
        decreases |Left()|
      {
        ghost var before := Left();
        ok := Next(true);
        if !ok {
          return false, [], [];
        }
        assert before[0] == Current() && before[1..] == Left();
        LeavesStep(before);
        if HasTerm(path) {
          value := ValueAtTop();
          return true, path, value;
        }
      }
    }

    method ValueAtTop() returns (value: Bytes)
      requires Valid() && stack != [] && trees[|trees| - 1].Leaf?
      ensures Leaf(value) == trees[|trees| - 1]
    {
      assert StateOk(stack[|stack| - 1], trees[|trees| - 1], db, |stack| == 1);
      value := stack[|stack| - 1].node.value;
    }
  }

  function Leaves(vs: seq<Visit>): seq<Visit> {
    if vs == [] then [] else (if vs[0].tree.Leaf? then [vs[0]] else []) + Leaves(vs[1..])
  }

  ghost predicate ProperPaths(vs: seq<Visit>) {
    forall i | 0 <= i < |vs| :: TermAtLeaf(vs[i])
  }

  lemma LeavesStep(vs: seq<Visit>)
    requires vs != [] && ProperPaths(vs)
    ensures ProperPaths(vs[1..]) && (HasTerm(vs[0].path) <==> vs[0].tree.Leaf?)
    ensures Leaves(vs) == if HasTerm(vs[0].path) then [vs[0]] + Leaves(vs[1..]) else Leaves(vs[1..])
  {
    assert TermAtLeaf(vs[0]);
  }

  lemma {:induction false} KeepProper(vs: seq<Visit>, key: Hex)
    requires ProperPaths(vs)
    ensures ProperPaths(Keep(vs, key))
  {
    if vs != [] {
      KeepProper(vs[1..], key);
    }
  }

  /** `newNodeIterator`. */
  method NewNodeIterator(trie: Trie.Trie, start: Bytes) returns (it: NodeIterator)
    requires trie.Valid() && (IsInner(trie.tree) ==> RootHash(trie.tree) != EMPTY_ROOT)
    modifies trie`root, trie`unhashed
    ensures trie.Valid() && fresh(it) && it.Valid() && it.tree == trie.tree
    ensures it.Left() == Keep(PreOrder(it.tree, []), Unpack(start)) && ProperPaths(it.Left())
  {
    var hash := trie.Hash();
    if hash == EMPTY_ROOT {
      it := new NodeIterator(trie.root, trie.db, true, trie.tree);
    } else {
      it := new NodeIterator(trie.root, trie.db, false, trie.tree);
      it.Seek(start);
    }
    PathsEndAtLeaves(it.tree, []);
    KeepProper(PreOrder(it.tree, []), Unpack(start));
  }
}
