/** trie/stacktrie.go: the nodes of a stack trie, overwritten in place as keys arrive. */
module StackNodes {
  import opened Bytes
  import opened HexEncoding
  import opened Nodes
  import opened TreeEncoding
  import opened StackTrie

  datatype NodeType = EmptyNode | BranchNode | ExtNode | LeafNode | HashedNode

  type Slots = s: seq<StackNode?> | |s| == 16 witness seq(16, _ => null)

  function NoSlots(): (s: Slots)
    ensures forall i | 0 <= i < 16 :: s[i] == null
  {
    seq(16, _ => null)
  }

  class StackNode {
    var nodeType: NodeType
    var val: Bytes
    var key: Hex
    var children: Slots

    /** This node and everything below it. */
    ghost var repr: set<StackNode>

    constructor (nodeType: NodeType, key: Hex, val: Bytes)
      ensures this.nodeType == nodeType && this.key == key && this.val == val
      ensures Childless() && repr == {this}
    {
      this.nodeType, this.key, this.val := nodeType, key, val;
      children := NoSlots();
      repr := {this};
    }

    /** The child hangs below this node, and the node is not below the child. */
    ghost predicate Has(c: StackNode?)
      reads this, repr
    {
      c != null && c in repr && c.repr <= repr - {this}
    }

    ghost predicate Childless()
      reads this
    {
      forall i | 0 <= i < 16 :: children[i] == null
    }

    /** Different children share nothing. */
    ghost predicate Apart(i: int, j: int)
      requires 0 <= i < 16 && 0 <= j < 16
      reads this, repr
    {
      var a, b := children[i], children[j];
      i != j && Has(a) && Has(b) ==> a.repr !! b.repr
    }

    ghost predicate Shows(s: Stack)
      reads this, repr
      decreases s, 0
    {
      && this in repr
      && match s
         case NoStack => nodeType == EmptyNode && Childless()
         case LeafStack(k, v) => nodeType == LeafNode && key == k && val == v && Childless()
         case HashedStack(v) => nodeType == HashedNode && val == v && Childless()
         case ExtStack(k, c) =>
           && nodeType == ExtNode && key == k && Has(children[0]) && children[0].Shows(c)
           && forall i | 1 <= i < 16 :: children[i] == null
         case BranchStack(cs) =>
           && nodeType == BranchNode && |cs| == 16
           && (forall i, j {:trigger Apart(i, j)} | 0 <= i < 16 && 0 <= j < 16 :: Apart(i, j))
           && forall i | 0 <= i < 16 :: Slot(i, cs[i])
    }

    /** The child at slot `i`, if there is one, is below this node and shows `s`. */
    ghost predicate Slot(i: int, s: Stack)
      requires 0 <= i < 16
      reads this, repr
      decreases s, 1
    {
      if s.NoStack? then children[i] == null else Has(children[i]) && children[i].Shows(s)
    }

    /** Returning a node to the pool empties it. */
    method Reset()
      modifies this
      ensures nodeType == EmptyNode && Childless() && repr == {this}
    {
      key, val, children, nodeType := [], [], NoSlots(), EmptyNode;
      repr := {this};
    }

    /** The end of `hashRec`: what is left of the node is its encoding, or the hash of it. */
    method Finish(enc: Bytes)
      requires this in repr
      modifies this
      ensures repr == old(repr) && Shows(HashedStack(Shrink(enc)))
    {
      nodeType, key, children := HashedNode, [], NoSlots();
      val := if |enc| < 32 then enc else Keccak(enc);
    }

    method HashRec(ghost s: Stack)
      requires Shows(s) && NibbleKeys(s)
      modifies repr
      ensures repr == old(repr) && Shows(Hashed(s))
      decreases s, 0
    {
      match nodeType
      case HashedNode =>
      case EmptyNode =>
        nodeType, key, val := HashedNode, [], EMPTY_ROOT;
      case BranchNode =>
        var nodes := HashChildren(s.children);
        Finish(Encode(RawFull(nodes + [NoNode])));
      case ExtNode =>
        var child := children[0];
        child.HashRec(s.child);
        var n := RawShort(HexToCompact(key), RefOf(child.val));
        child.Reset();
        Finish(Encode(n));
      case LeafNode =>
        Finish(Encode(RawShort(HexToCompact(key + [TERMINATOR]), Value(val))));
    }

    /** Hashes one child of a branch. */
    method HashChild(i: nat, ghost cs: seq<Stack>)
      requires Shows(BranchStack(cs)) && i < 16 && NibbleKeys(cs[i]) && children[i] != null
      modifies repr
      ensures repr == old(repr) && children == old(children) && Shows(BranchStack(cs[i := Hashed(cs[i])]))
      decreases cs[i], 1
    {
      OthersApart(i, cs);
      children[i].HashRec(cs[i]);
      ghost var next := cs[i := Hashed(cs[i])];
      forall k | 0 <= k < 16 ensures Slot(k, next[k]) {
        assert old(Slot(k, cs[k]));
      }
      forall k, j | 0 <= k < 16 && 0 <= j < 16 ensures Apart(k, j) {
        assert old(Apart(k, j) && Slot(k, cs[k]) && Slot(j, cs[j]));
      }
    }

    lemma SlotHas(i: nat, s: Stack)
      requires i < 16 && Slot(i, s)
      ensures children[i] == null <==> s.NoStack?
      ensures children[i] != null ==> Has(children[i]) && children[i].Shows(s) && children[i] in children[i].repr
    {}

    /** The other children of a branch have nothing in common with child `i`. */
    lemma OthersApart(i: nat, cs: seq<Stack>)
      requires Shows(BranchStack(cs)) && i < 16 && children[i] != null
      ensures Has(children[i]) && children[i].Shows(cs[i])
      ensures forall k | 0 <= k < 16 && k != i && children[k] != null ::
                Has(children[k]) && children[k] in children[k].repr && children[k].repr !! children[i].repr
    {
      SlotHas(i, cs[i]);
      forall k | 0 <= k < 16 && k != i && children[k] != null
        ensures Has(children[k]) && children[k] in children[k].repr && children[k].repr !! children[i].repr
      {
        SlotHas(k, cs[k]);
        assert Apart(i, k);
      }
    }

    /** Releases one child of a branch. */
    method DropChild(i: nat, ghost cs: seq<Stack>)
      requires Shows(BranchStack(cs)) && i < 16 && children[i] != null
      modifies repr
      ensures repr == old(repr) && Shows(BranchStack(cs[i := NoStack]))
    {
      OthersApart(i, cs);
      var child := children[i];
      children := children[i := null];
      child.Reset();
      ghost var next := cs[i := NoStack];
      forall k | 0 <= k < 16 ensures Slot(k, next[k]) {
        assert old(Slot(k, cs[k]));
      }
      forall k, j | 0 <= k < 16 && 0 <= j < 16 ensures Apart(k, j) {
        assert old(Apart(k, j) && Slot(k, cs[k]) && Slot(j, cs[j]));
      }
    }

    method HashOut(i: nat, ghost cs: seq<Stack>) returns (ref: Collapsed)
      requires Shows(BranchStack(cs)) && i < 16 && NibbleKeys(cs[i]) && children[i] != null
      modifies repr
      ensures repr == old(repr) && ref == RefOf(HashVal(cs[i])) && Shows(BranchStack(cs[i := NoStack]))
      decreases cs[i], 2
    {
      HashChild(i, cs);
      SlotHas(i, cs[i := Hashed(cs[i])][i]);
      ref := RefOf(children[i].val);
      DropChild(i, cs[i := Hashed(cs[i])]);
      assert cs[i := Hashed(cs[i])][i := NoStack] == cs[i := NoStack];
    }

    /** Hashes the children of a branch one by one, and lets go of them. */
    method HashChildren(ghost cs: seq<Stack>) returns (nodes: seq<Collapsed>)
      requires Shows(BranchStack(cs)) && NibbleKeys(BranchStack(cs))
      modifies repr
      ensures repr == old(repr) && this in repr && nodes == ChildRefs(cs)
      decreases cs
    {
      nodes := [];
      ghost var cur := cs;
      for i := 0 to 16
        invariant repr == old(repr) && |nodes| == i && Shows(BranchStack(cur)) && cur[i..] == cs[i..]
        invariant forall k | 0 <= k < i :: nodes[k] == if cs[k].NoStack? then NoNode else RefOf(HashVal(cs[k]))
      {
        assert cur[i] == cur[i..][0] == cs[i..][0] == cs[i];
        if children[i] == null {
          nodes := nodes + [NoNode];
        } else {
          var ref := HashOut(i, cur);
          nodes := nodes + [ref];
          cur := cur[i := NoStack];
        }
      }
    }

    // ---------- Insertion ----------

    /** `getDiffIndex`: where `k` departs from this node's key; running out of `k` before that is a panic. */
    method GetDiffIndex(k: Hex) returns (ok: bool, m: nat)
      ensures m == PrefixLen(k, key) && (ok <==> m < |k| || m == |key|)
    {
      m := 0;
      while m < |key|
        invariant m <= |key| && m <= |k| && k[..m] == key[..m]
      {
        if m == |k| {
          PrefixLenUnique(k, key, m);
          return false, m;
        }
        if key[m] != k[m] {
          PrefixLenUnique(k, key, m);
          return true, m;
        }
        m := m + 1;
      }
      PrefixLenUnique(k, key, m);
      return true, m;
    }

    /** Hashes the elder sibling of slot `idx`, unless that is done already. */
    method CloseElderOf(idx: nat, ghost cs: seq<Stack>)
      requires Shows(BranchStack(cs)) && NibbleKeys(BranchStack(cs)) && idx < 16
      modifies repr
      ensures repr == old(repr) && children == old(children) && Shows(BranchStack(CloseElder(cs, idx)))
    {
      var i := idx;
      while i > 0
        invariant 0 <= i <= idx && Elder(cs, idx) == Elder(cs, i)
        invariant repr == old(repr) && children == old(children) && Shows(BranchStack(cs))
      {
        i := i - 1;
        SlotHas(i, cs[i]);
        if children[i] != null {
          if children[i].nodeType != HashedNode {
            HashChild(i, cs);
          } else {
            assert cs[i := Hashed(cs[i])] == cs;
          }
          return;
        }
      }
    }

    /** `insert`; `ok` is false where the source panics. */
    method Insert(k: Hex, value: Bytes, ghost s: Stack) returns (ok: bool)
      requires Shows(s) && NibbleKeys(s) && AllNibbles(k)
      modifies repr
      ensures ok <==> StackTrie.Insert(s, k, value).Ok?
      ensures ok ==> Shows(StackTrie.Insert(s, k, value).value)
      ensures fresh(repr - old(repr))
      decreases s, 3
    {
      match nodeType
      case BranchNode => ok := InsertInBranch(k, value, s.children);
      case ExtNode => ok := InsertInExt(k, value, s.key, s.child);
      case LeafNode => ok := InsertInLeaf(k, value);
      case EmptyNode =>
        nodeType, key, val := LeafNode, k, value;
        return true;
      case HashedNode => return false;
    }

    /** A leaf at a free slot of a branch. */
    method AddLeaf(i: nat, k: Hex, value: Bytes, ghost cs: seq<Stack>)
      requires Shows(BranchStack(cs)) && i < 16 && children[i] == null
      modifies this
      ensures Shows(BranchStack(cs[i := LeafStack(k, value)])) && fresh(repr - old(repr))
    {
      var leaf := new StackNode(LeafNode, k, value);
      children := children[i := leaf];
      repr := repr + {leaf};
      ghost var next := cs[i := LeafStack(k, value)];
      forall m | 0 <= m < 16 ensures Slot(m, next[m]) {
        assert old(Slot(m, cs[m]));
      }
      forall m, j | 0 <= m < 16 && 0 <= j < 16 ensures Apart(m, j) {
        assert old(Apart(m, j) && Slot(m, cs[m]) && Slot(j, cs[j]));
      }
    }

    method InsertInBranch(k: Hex, value: Bytes, ghost cs: seq<Stack>) returns (ok: bool)
      requires Shows(BranchStack(cs)) && NibbleKeys(BranchStack(cs)) && AllNibbles(k)
      modifies repr
      ensures ok <==> StackTrie.Insert(BranchStack(cs), k, value).Ok?
      ensures ok ==> Shows(StackTrie.Insert(BranchStack(cs), k, value).value)
      ensures fresh(repr - old(repr))
      decreases cs, 0
    {
      if k == [] {
        return false;
      }
      var idx := k[0];
      CloseElderOf(idx, cs);
      ghost var closed := CloseElder(cs, idx);
      assert closed[idx] == cs[idx];
      if children[idx] == null {
        AddLeaf(idx, k[1..], value, closed);
        return true;
      }
      ok := InsertInChild(idx, k[1..], value, closed);
    }

    method InsertInChild(i: nat, k: Hex, value: Bytes, ghost cs: seq<Stack>) returns (ok: bool)
      requires Shows(BranchStack(cs)) && i < 16 && NibbleKeys(cs[i]) && AllNibbles(k) && children[i] != null
      modifies repr
      ensures ok <==> StackTrie.Insert(cs[i], k, value).Ok?
      ensures ok ==> Shows(BranchStack(cs[i := StackTrie.Insert(cs[i], k, value).value]))
      ensures fresh(repr - old(repr))
      decreases cs[i], 4
    {
      OthersApart(i, cs);
      ok := children[i].Insert(k, value, cs[i]);
      repr := repr + children[i].repr;
      if ok {
        ghost var next := cs[i := StackTrie.Insert(cs[i], k, value).value];
        forall m | 0 <= m < 16 ensures Slot(m, next[m]) {
          assert old(Slot(m, cs[m]));
        }
        forall m, j | 0 <= m < 16 && 0 <= j < 16 ensures Apart(m, j) {
          assert old(Apart(m, j) && Slot(m, cs[m]) && Slot(j, cs[j]));
        }
      }
    }

    /** Turns this node into a branch with an older child and a new leaf. */
    method Branch(n: StackNode, ghost older: Stack, i: nat, leafKey: Hex, value: Bytes, j: nat)
      requires n.Shows(older) && this !in n.repr && !older.NoStack? && i < 16 && j < 16 && i != j
      modifies this
      ensures Shows(BranchStack(NoStacks()[i := older][j := LeafStack(leafKey, value)])) && key == old(key)
      ensures fresh(repr - {this} - n.repr)
    {
      var o := new StackNode(LeafNode, leafKey, value);
      nodeType, children := BranchNode, NoSlots()[i := n][j := o];
      repr := {this, o} + n.repr;
    }

    /** Turns this node into an extension of `common` to such a branch. */
    method Extend(common: Hex, n: StackNode, ghost older: Stack, i: nat, leafKey: Hex, value: Bytes, j: nat)
      requires n.Shows(older) && this !in n.repr && !older.NoStack? && i < 16 && j < 16 && i != j
      modifies this
      ensures Shows(ExtStack(common, BranchStack(NoStacks()[i := older][j := LeafStack(leafKey, value)])))
      ensures fresh(repr - {this} - n.repr)
    {
      var p := new StackNode(BranchNode, [], []);
      p.Branch(n, older, i, leafKey, value, j);
      nodeType, key, children := ExtNode, common, NoSlots()[0 := p];
      repr := {this} + p.repr;
    }

    /** Splits this node's key at digit `m`, over the hashed rest `n` of what it held. */
    method Fork(n: StackNode, ghost older: Stack, m: nat, k: Hex, value: Bytes)
      requires n.Shows(older) && this !in n.repr && !older.NoStack?
      requires m < |key| && m < |k| && key[m] < 16 && k[m] < 16 && key[m] != k[m] && key[..m] == k[..m]
      modifies this
      ensures Shows(Split(old(key), older, k, value, m)) && fresh(repr - {this} - n.repr)
    {
      var orig, common := key[m], key[..m];
      val := [];
      if m == 0 {
        key := [];
        Branch(n, older, orig, k[m + 1..], value, k[m]);
      } else {
        Extend(common, n, older, orig, k[m + 1..], value, k[m]);
      }
    }

    /** The rest of an extension below digit `m` of its key, hashed. */
    method HashBelow(m: nat, ghost k: Hex, ghost c: Stack) returns (n: StackNode)
      requires Shows(ExtStack(k, c)) && NibbleKeys(ExtStack(k, c)) && m < |k|
      modifies repr - {this}
      ensures n.Shows(Hashed(BelowSplit(k, c, m))) && this !in n.repr && fresh(n.repr - old(repr))
    {
      var child := children[0];
      if m < |key| - 1 {
        n := new StackNode(ExtNode, key[m + 1..], []);
        n.children, n.repr := NoSlots()[0 := child], {n} + child.repr;
        n.HashRec(ExtStack(k[m + 1..], c));
      } else {
        n := child;
        n.HashRec(c);
      }
    }

    method InsertInExt(k: Hex, value: Bytes, ghost ek: Hex, ghost c: Stack) returns (ok: bool)
      requires Shows(ExtStack(ek, c)) && NibbleKeys(ExtStack(ek, c)) && AllNibbles(k)
      modifies repr
      ensures ok <==> StackTrie.Insert(ExtStack(ek, c), k, value).Ok?
      ensures ok ==> Shows(StackTrie.Insert(ExtStack(ek, c), k, value).value)
      ensures fresh(repr - old(repr))
      decreases c, 5
    {
      var m;
      ok, m := GetDiffIndex(k);
      if !ok {
        return;
      }
      if m == |key| {
        ok := children[0].Insert(k[m..], value, c);
        repr := repr + children[0].repr;
        return;
      }
      var n := HashBelow(m, ek, c);
      Fork(n, Hashed(BelowSplit(ek, c, m)), m, k, value);
    }

    method InsertInLeaf(k: Hex, value: Bytes) returns (ok: bool)
      requires Shows(LeafStack(key, val)) && AllNibbles(key) && AllNibbles(k)
      modifies repr
      ensures ok <==> StackTrie.Insert(LeafStack(old(key), old(val)), k, value).Ok?
      ensures ok ==> Shows(StackTrie.Insert(LeafStack(old(key), old(val)), k, value).value)
      ensures fresh(repr - old(repr))
    {
      var m;
      ok, m := GetDiffIndex(k);
      if !ok || m >= |key| {
        return false;
      }
      var n := new StackNode(LeafNode, key[m + 1..], val);
      n.HashRec(LeafStack(key[m + 1..], val));
      Fork(n, Hashed(LeafStack(key[m + 1..], val)), m, k, value);
    }

    /** `Update`. */
    method Update(k: Bytes, value: Bytes, ghost s: Stack) returns (ok: bool)
      requires Shows(s) && NibbleKeys(s)
      modifies repr
      ensures ok <==> value != [] && StackTrie.Insert(s, Unpack(k), value).Ok?
      ensures ok ==> Shows(StackTrie.Insert(s, Unpack(k), value).value)
      ensures fresh(repr - old(repr))
    {
      var hex := KeybytesToHex(k);
      if |value| == 0 {
        return false;
      }
      assert hex[..|hex| - 1] == Unpack(k);
      ok := Insert(hex[..|hex| - 1], value, s);
    }

    /** `Hash`. */
    method Hash(ghost s: Stack) returns (h: Hash32)
      requires Shows(s) && NibbleKeys(s)
      modifies repr
      ensures h == RootOf(s) && Shows(Hashed(s))
    {
      HashRec(s);
      h := if |val| == 32 then val else Keccak(val);
    }
  }
}
