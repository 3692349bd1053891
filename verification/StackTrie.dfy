/**
 trie/stacktrie.go: a trie built from keys in increasing order that hashes away each subtree as soon
 as no later key can reach it.  `Err` stands for the panics of the source.
 */
module StackTrie {
  import opened Bytes
  import opened HexEncoding
  import opened Rlp
  import opened Nodes
  import opened Tree
  import opened TreeEncoding

  /** `NoStack` is both the empty stack trie and an absent child. */
  datatype Stack =
    | NoStack
    | BranchStack(children: seq<Stack>)
    | ExtStack(key: Hex, child: Stack)
    | LeafStack(key: Hex, value: Bytes)
    | HashedStack(val: Bytes)

  // ---------- Hashing ----------

  /** An encoding shorter than 32 bytes is kept as it is. */
  function Shrink(enc: Bytes): Bytes {
    if |enc| < 32 then enc else Keccak(enc)
  }

  function RefOf(val: Bytes): Collapsed {
    if |val| == 32 then HashRef(val) else RawBlob(val)
  }

  predicate NibbleKeys(s: Stack) {
    match s
    case BranchStack(cs) => |cs| == 16 && forall i | 0 <= i < 16 :: NibbleKeys(cs[i])
    case ExtStack(k, c) => AllNibbles(k) && NibbleKeys(c)
    case LeafStack(k, _) => AllNibbles(k)
    case _ => true
  }

  /** What `hashRec` leaves in `val`. */
  function HashVal(s: Stack): Bytes
    requires NibbleKeys(s)
    decreases s
  {
    match s
    case NoStack => EMPTY_ROOT
    case BranchStack(cs) => Shrink(Encode(RawFull(ChildRefs(cs) + [NoNode])))
    case ExtStack(k, c) => Shrink(Encode(RawShort(HexToCompact(k), RefOf(HashVal(c)))))
    case LeafStack(k, v) => Shrink(Encode(RawShort(HexToCompact(k + [TERMINATOR]), Value(v))))
    case HashedStack(v) => v
  }

  function ChildRefs(cs: seq<Stack>): (rs: seq<Collapsed>)
    requires forall i | 0 <= i < |cs| :: NibbleKeys(cs[i])
    ensures |rs| == |cs|
    ensures forall i | 0 <= i < |cs| :: rs[i] == if cs[i].NoStack? then NoNode else RefOf(HashVal(cs[i]))
    decreases cs
  {
    if cs == [] then
      []
    else
      [if cs[0].NoStack? then NoNode else RefOf(HashVal(cs[0]))] + ChildRefs(cs[1..])
  }

  /** `hash`. */
  function Hashed(s: Stack): Stack
    requires NibbleKeys(s)
  {
    HashedStack(HashVal(s))
  }

  /** `Hash`: the root is hashed even when its encoding is short. */
  function RootOf(s: Stack): Hash32
    requires NibbleKeys(s)
  {
    var val := HashVal(s);
    if |val| == 32 then val else Keccak(val)
  }

  // ---------- Insertion ----------

  function NoStacks(): (cs: seq<Stack>)
    ensures |cs| == 16 && forall i | 0 <= i < 16 :: cs[i] == NoStack
  {
    [NoStack, NoStack, NoStack, NoStack, NoStack, NoStack, NoStack, NoStack,
     NoStack, NoStack, NoStack, NoStack, NoStack, NoStack, NoStack, NoStack]
  }

  /** The occupied slot nearest below `i`, -1 if there is none. */
  function Elder(cs: seq<Stack>, i: nat): (e: int)
    requires i <= |cs|
    ensures -1 <= e < i && (forall j | e < j < i :: cs[j].NoStack?) && (e >= 0 ==> !cs[e].NoStack?)
  {
    if i == 0 then -1 else if !cs[i - 1].NoStack? then i - 1 else Elder(cs, i - 1)
  }

  /** Hash the elder sibling of slot `i`. */
  function CloseElder(cs: seq<Stack>, i: nat): seq<Stack>
    requires |cs| == 16 && i < 16 && forall j | 0 <= j < 16 :: NibbleKeys(cs[j])
  {
    var e := Elder(cs, i);
    if e >= 0 then cs[e := Hashed(cs[e])] else cs
  }

  function SplitChildren(k: Hex, older: Stack, key: Hex, value: Bytes, m: nat): (cs: seq<Stack>)
    requires m < |k| && m < |key| && k[m] < 16 && key[m] < 16 && k[m] != key[m]
    ensures |cs| == 16 && cs[k[m]] == older && cs[key[m]] == LeafStack(key[m + 1..], value)
    ensures forall i | 0 <= i < 16 && i != k[m] && i != key[m] :: cs[i] == NoStack
  {
    NoStacks()[k[m] := older][key[m] := LeafStack(key[m + 1..], value)]
  }

  /** The branch where `k` and `key` part, with everything on the side of `k` hashed. */
  function Split(k: Hex, older: Stack, key: Hex, value: Bytes, m: nat): Stack
    requires m < |k| && m < |key| && k[m] < 16 && key[m] < 16 && k[m] != key[m]
  {
    var branch := BranchStack(SplitChildren(k, older, key, value, m));
    if m == 0 then branch else ExtStack(key[..m], branch)
  }

  /** What is left of an extension below the branch that replaces its digit `m`. */
  function BelowSplit(k: Hex, c: Stack, m: nat): (s: Stack)
    requires m < |k| && NibbleKeys(ExtStack(k, c))
    ensures NibbleKeys(s)
  {
    if m < |k| - 1 then ExtStack(k[m + 1..], c) else c
  }

  function Insert(s: Stack, key: Hex, value: Bytes): Result<Stack>
    requires NibbleKeys(s) && AllNibbles(key)
    decreases s
  {
    match s
    case NoStack => Ok(LeafStack(key, value))
    case BranchStack(cs) =>
      if key == [] then
        Err
      else
        var i := key[0];
        var closed := CloseElder(cs, i);
        if cs[i].NoStack? then
          Ok(BranchStack(closed[i := LeafStack(key[1..], value)]))
        else
          var c := Insert(cs[i], key[1..], value);
          if c.Err? then Err else Ok(BranchStack(closed[i := c.value]))
    case ExtStack(k, c) =>
      var m := PrefixLen(key, k);
      if m == |k| then
        var c' := Insert(c, key[m..], value);
        if c'.Err? then Err else Ok(ExtStack(k, c'.value))
      else if m == |key| then
        Err
      else
        Ok(Split(k, Hashed(BelowSplit(k, c, m)), key, value, m))
    case LeafStack(k, v) =>
      var m := PrefixLen(key, k);
      if m == |k| || m == |key| then
        Err
      else
        Ok(Split(k, Hashed(LeafStack(k[m + 1..], v)), key, value, m))
    case HashedStack(_) => Err
  }

  // ---------- What a stack trie stands for ----------

  ghost predicate StandsFor(s: Stack, t: Tree)
    requires Minimal(t)
    decreases t
  {
    match s
    case NoStack => t == Empty
    case BranchStack(cs) =>
      && t.Branch? && |cs| == 16 && t.children[16] == Empty
      && forall i | 0 <= i < 16 :: StandsFor(cs[i], t.children[i])
    case ExtStack(k, c) => t.Ext? && t.key == k && t.child.Branch? && StandsFor(c, t.child)
    case LeafStack(k, v) => AllNibbles(k) && t == Ext(k + [TERMINATOR], Leaf(v))
    case HashedStack(v) => IsInner(t) && v == Shrink(Enc(t))
  }

  lemma {:induction false} StandsForNibbleKeys(s: Stack, t: Tree)
    requires Minimal(t) && StandsFor(s, t)
    ensures NibbleKeys(s)
    decreases t
  {
    match s
    case BranchStack(cs) =>
      forall i | 0 <= i < 16 ensures NibbleKeys(cs[i]) {
        StandsForNibbleKeys(cs[i], t.children[i]);
      }
    case ExtStack(k, c) => StandsForNibbleKeys(c, t.child);
    case _ =>
  }

  lemma {:induction false} EncodeRefOf(t: Tree)
    requires Minimal(t) && IsInner(t)
    ensures Encode(RefOf(Shrink(Enc(t)))) == Encode(RefTo(t))
  {}

  lemma {:induction false} EncodeAllCongruent(a: seq<Collapsed>, b: seq<Collapsed>)
    requires |a| == |b| && forall i | 0 <= i < |a| :: Encode(a[i]) == Encode(b[i])
    ensures EncodeAll(a) == EncodeAll(b)
  {
    if a != [] {
      EncodeAllCongruent(a[1..], b[1..]);
    }
  }

  /** Hashing a stack trie gives the reference to what it stands for, hashed subtrees and all. */
  lemma {:induction false} HashValCorrect(s: Stack, t: Tree)
    requires Minimal(t) && StandsFor(s, t) && !t.Empty?
    ensures NibbleKeys(s) && HashVal(s) == Shrink(Enc(t))
    decreases t
  {
    StandsForNibbleKeys(s, t);
    match s
    case BranchStack(cs) =>
      forall i | 0 <= i < 16 && !cs[i].NoStack? ensures HashVal(cs[i]) == Shrink(Enc(t.children[i])) {
        HashValCorrect(cs[i], t.children[i]);
      }
      BranchHashVal(cs, t);
    case ExtStack(k, c) =>
      HashValCorrect(c, t.child);
      ExtHashVal(k, c, t);
    case LeafStack(k, v) => LeafHashVal(k, v);
    case HashedStack(_) =>
  }

  lemma {:induction false} ExtHashVal(k: Hex, c: Stack, t: Tree)
    requires Minimal(t) && StandsFor(ExtStack(k, c), t) && NibbleKeys(ExtStack(k, c))
    requires HashVal(c) == Shrink(Enc(t.child))
    ensures HashVal(ExtStack(k, c)) == Shrink(Enc(t))
  {
    EncodeRefOf(t.child);
    assert Collapse(t) == RawShort(HexToCompact(k), RefTo(t.child));
  }

  lemma {:induction false} LeafHashVal(k: Hex, v: Bytes)
    requires AllNibbles(k) && v != []
    ensures Minimal(Ext(k + [TERMINATOR], Leaf(v)))
    ensures HashVal(LeafStack(k, v)) == Shrink(Enc(Ext(k + [TERMINATOR], Leaf(v))))
  {
    assert RefTo(Leaf(v)) == Value(v);
  }

  lemma {:induction false} BranchHashVal(cs: seq<Stack>, t: Tree)
    requires Minimal(t) && StandsFor(BranchStack(cs), t) && NibbleKeys(BranchStack(cs))
    requires forall i | 0 <= i < 16 && !cs[i].NoStack? :: HashVal(cs[i]) == Shrink(Enc(t.children[i]))
    ensures HashVal(BranchStack(cs)) == Shrink(Enc(t))
  {
    var a, b := ChildRefs(cs) + [NoNode], RefsTo(t.children);
    forall i | 0 <= i < 17 ensures Encode(a[i]) == Encode(b[i]) {
      if i < 16 {
        ChildRefEncodes(cs, t, i);
      }
    }
    EncodeFullCongruent(a, b);
    assert Collapse(t) == RawFull(b);
  }

  lemma {:induction false} EncodeFullCongruent(a: seq<Collapsed>, b: seq<Collapsed>)
    requires |a| == |b| && forall i | 0 <= i < |a| :: Encode(a[i]) == Encode(b[i])
    ensures Encode(RawFull(a)) == Encode(RawFull(b))
  {
    EncodeAllCongruent(a, b);
  }

  lemma {:induction false} ChildRefEncodes(cs: seq<Stack>, t: Tree, i: nat)
    requires Minimal(t) && StandsFor(BranchStack(cs), t) && NibbleKeys(BranchStack(cs)) && i < 16
    requires !cs[i].NoStack? ==> HashVal(cs[i]) == Shrink(Enc(t.children[i]))
    ensures Encode(ChildRefs(cs)[i]) == Encode(RefTo(t.children[i]))
  {
    assert StandsFor(cs[i], t.children[i]);
    if !t.children[i].Empty? {
      ChildIsInner(t, i);
      EncodeRefOf(t.children[i]);
    }
  }

  lemma {:induction false} ChildIsInner(t: Tree, i: nat)
    requires Minimal(t) && t.Branch? && i < 16 && !t.children[i].Empty?
    ensures IsInner(t.children[i])
  {
    assert Slot(i, t.children[i]);
  }

  lemma {:induction false} RootOfCorrect(s: Stack, t: Tree)
    requires Minimal(t) && StandsFor(s, t)
    ensures NibbleKeys(s) && RootOf(s) == RootHash(t)
  {
    if t.Empty? {
      assert s.NoStack?;
    } else {
      HashValCorrect(s, t);
    }
  }

  // ---------- Insertion in order ----------

  /** Lexicographic order at the first difference. */
  predicate SplitsBelow(a: Hex, b: Hex) {
    var m := PrefixLen(a, b);
    m < |a| && m < |b| && a[m] < b[m]
  }

  function Whole(key: Hex): (h: Hex)
    requires AllNibbles(key)
    ensures IsKey(h)
  {
    key + [TERMINATOR]
  }

  /** Every key of `t` is as long as `key` and comes before it. */
  ghost predicate AllBefore(t: Tree, key: Hex)
    requires AllNibbles(key)
  {
    forall h | IsKey(h) && Lookup(t, h).Some? :: |h| == |Whole(key)| && SplitsBelow(h, Whole(key))
  }

  /** The rightmost path is still open. */
  predicate Open(s: Stack) {
    match s
    case NoStack => true
    case BranchStack(cs) => var e := Elder(cs, |cs|); e >= 0 && Open(cs[e])
    case ExtStack(_, c) => Open(c)
    case LeafStack(_, _) => true
    case HashedStack(_) => false
  }

  lemma {:induction false} LessAt(a: Hex, b: Hex, m: nat)
    requires m < |a| && m < |b| && a[..m] == b[..m] && a[m] != b[m]
    ensures PrefixLen(a, b) == m && (SplitsBelow(a, b) <==> a[m] < b[m])
  {
    PrefixLenUnique(a, b, m);
  }

  lemma {:induction false} LessBelow(pre: Hex, a: Hex, b: Hex)
    ensures SplitsBelow(pre + a, pre + b) <==> SplitsBelow(a, b)
  {
    var m := PrefixLen(a, b);
    assert (pre + a)[..|pre| + m] == pre + a[..m] && (pre + b)[..|pre| + m] == pre + b[..m];
    PrefixLenUnique(pre + a, pre + b, |pre| + m);
  }

  lemma {:induction false} Before(t: Tree, key: Hex, h: Hex)
    requires AllNibbles(key) && AllBefore(t, key) && IsKey(h) && Lookup(t, h).Some?
    ensures |h| == |key| + 1 && SplitsBelow(h, Whole(key))
  {}

  /** Below an extension whose key `key` follows. */
  lemma {:induction false} BeforeBelowExt(k: Hex, c: Tree, key: Hex)
    requires Minimal(Ext(k, c)) && c.Branch? && AllNibbles(key) && AllBefore(Ext(k, c), key) && k <= key
    ensures AllBefore(c, key[|k|..])
  {
    var rest := key[|k|..];
    assert Whole(key) == k + Whole(rest);
    forall h | IsKey(h) && Lookup(c, h).Some? ensures |h| == |Whole(rest)| && SplitsBelow(h, Whole(rest)) {
      HeldInExt(k, c, h);
      LessBelow(k, h, Whole(rest));
    }
  }

  /** An extension that `key` leaves is left to the right. */
  lemma {:induction false} BeforeLeavesExt(k: Hex, c: Tree, key: Hex)
    requires Minimal(Ext(k, c)) && c.Branch? && AllNibbles(key) && AllBefore(Ext(k, c), key) && !(k <= key)
    ensures PrefixLen(key, k) < |k| && PrefixLen(key, k) < |key|
    ensures k[PrefixLen(key, k)] < key[PrefixLen(key, k)]
  {
    SomeKeyHeld(c);
    var rest := SomeKey(c);
    HeldInExt(k, c, rest);
    Before(Ext(k, c), key, k + rest);
    assert AllNibbles(k);
    LeavesRight(k, rest, key);
  }

  lemma {:induction false} LeavesRight(k: Hex, rest: Hex, key: Hex)
    requires AllNibbles(k) && AllNibbles(key) && rest != [] && |k + rest| == |key| + 1
    requires SplitsBelow(k + rest, Whole(key)) && !(k <= key)
    ensures PrefixLen(key, k) < |k| && PrefixLen(key, k) < |key|
    ensures k[PrefixLen(key, k)] < key[PrefixLen(key, k)]
  {
    var p := PrefixLen(key, k);
    assert p < |k|;
    assert p < |key|;
    assert (k + rest)[..p] == k[..p] && Whole(key)[..p] == key[..p];
    LessAt(k + rest, Whole(key), p);
  }

  lemma {:induction false} BeforeBranch(cs: seq<Tree>, key: Hex)
    requires Minimal(Branch(cs)) && cs[16] == Empty && AllNibbles(key) && AllBefore(Branch(cs), key)
    ensures key != [] && AllBefore(cs[key[0]], key[1..]) && forall i | key[0] < i < 17 :: cs[i] == Empty
  {
    BranchFirst(cs);
    KeyOfBranchLong(cs, FirstChild(cs, 0));
    BeforeBelowBranch(cs, key);
    forall j | key[0] < j < 17 ensures cs[j] == Empty {
      if cs[j] != Empty {
        SomeKeyBelow(cs, j);
        LessAt([j] + SomeKey(cs[j]), Whole(key), 0);
      }
    }
  }

  lemma {:induction false} KeyOfBranchLong(cs: seq<Tree>, f: nat)
    requires Minimal(Branch(cs)) && cs[16] == Empty && f < 17 && !cs[f].Empty?
    ensures IsKey([f] + SomeKey(cs[f])) && Lookup(Branch(cs), [f] + SomeKey(cs[f])).Some?
    ensures |[f] + SomeKey(cs[f])| >= 2
  {
    SomeKeyBelow(cs, f);
    SomeKeyHeld(cs[f]);
    assert Slot(f, cs[f]);
  }

  lemma {:induction false} BeforeBelowBranch(cs: seq<Tree>, key: Hex)
    requires Minimal(Branch(cs)) && AllNibbles(key) && AllBefore(Branch(cs), key) && key != []
    ensures AllBefore(cs[key[0]], key[1..])
  {
    var i, rest := key[0], key[1..];
    assert Whole(key) == [i] + Whole(rest);
    forall h | IsKey(h) && Lookup(cs[i], h).Some? ensures |h| == |Whole(rest)| && SplitsBelow(h, Whole(rest)) {
      HeldInBranch(cs, i, h);
      Before(Branch(cs), key, [i] + h);
      LessBelow([i], h, Whole(rest));
    }
  }

  lemma {:induction false} HeldInBranch(cs: seq<Tree>, i: nat, h: Hex)
    requires |cs| == 17 && i < 16 && IsKey(h)
    ensures IsKey([i] + h) && Lookup(Branch(cs), [i] + h) == Lookup(cs[i], h)
  {
    assert ([i] + h)[1..] == h;
  }

  lemma {:induction false} PrefixLenWhole(key: Hex, k: Hex)
    requires AllNibbles(key) && AllNibbles(k)
    ensures PrefixLen(Whole(key), k) == PrefixLen(key, k)
  {
    var m := PrefixLen(key, k);
    assert Whole(key)[..m] == key[..m];
    PrefixLenUnique(Whole(key), k, m);
  }

  lemma {:induction false} HashedStandsFor(s: Stack, t: Tree)
    requires Minimal(t) && StandsFor(s, t) && IsInner(t)
    ensures NibbleKeys(s) && StandsFor(Hashed(s), t)
  {
    HashValCorrect(s, t);
  }

  /** The new branch, when the old side `older` stands for what hangs there. */
  lemma {:induction false} SplitStandsFor(k: Hex, c: Tree, older: Stack, key: Hex, value: Bytes, m: nat)
    requires Minimal(Ext(k, c)) && AllNibbles(key) && value != []
    requires m == PrefixLen(Whole(key), k) < |k| && m < |key| && k[m] < key[m]
    requires Minimal(Hang(k[m + 1..], c)) && StandsFor(older, Hang(k[m + 1..], c)) && !older.NoStack?
    ensures Becomes(Ok(Split(k, older, key, value, m)), Put(Ext(k, c), Whole(key), value))
  {
    var whole := Whole(key);
    PutMinimal(Ext(k, c), whole, value);
    WholeFrom(key, m);
    ForkStandsFor(k, c, older, key, value, m);
    BecomesStack(Split(k, older, key, value, m), Put(Ext(k, c), whole, value));
  }

  lemma {:induction false} ForkStandsFor(k: Hex, c: Tree, older: Stack, key: Hex, value: Bytes, m: nat)
    requires Minimal(Ext(k, c)) && AllNibbles(key) && value != []
    requires m < |k| && m < |key| && k[m] < key[m]
    requires Minimal(Hang(k[m + 1..], c)) && StandsFor(older, Hang(k[m + 1..], c)) && !older.NoStack?
    ensures var f := Fork(k, c, Whole(key), Leaf(value), m);
            var b := BranchStack(SplitChildren(k, older, key, value, m));
            Minimal(f) && StandsFor(b, f) && Open(b)
  {
    ForkMinimal(k, c, Whole(key), value, m);
    var f := Fork(k, c, Whole(key), Leaf(value), m);
    var cs := SplitChildren(k, older, key, value, m);
    forall i | 0 <= i < 16 ensures StandsFor(cs[i], f.children[i]) {
      ForkSlot(k, c, older, key, value, m, i);
    }
    ElderIs(cs, key[m]);
  }

  lemma {:induction false} ForkChild(k: Hex, c: Tree, key: Hex, leaf: Tree, m: nat, i: nat)
    requires m < |k| && m < |key| && k[m] != key[m] && i < 17
    ensures Fork(k, c, key, leaf, m).children[i]
         == if i == key[m] then Hang(key[m + 1..], leaf) else if i == k[m] then Hang(k[m + 1..], c) else Empty
  {}

  lemma {:induction false} WholeFrom(key: Hex, i: nat)
    requires AllNibbles(key) && i <= |key|
    ensures Whole(key)[i..] == Whole(key[i..]) && Whole(key)[..i] == key[..i]
  {}

  lemma {:induction false} ForkSlot(k: Hex, c: Tree, older: Stack, key: Hex, value: Bytes, m: nat, i: nat)
    requires AllNibbles(key) && value != []
    requires m < |k| && m < |key| && k[m] < key[m] && i < 16
    requires Minimal(Hang(k[m + 1..], c)) && StandsFor(older, Hang(k[m + 1..], c))
    ensures Minimal(Fork(k, c, Whole(key), Leaf(value), m).children[i])
    ensures StandsFor(SplitChildren(k, older, key, value, m)[i], Fork(k, c, Whole(key), Leaf(value), m).children[i])
  {
    ForkChild(k, c, Whole(key), Leaf(value), m, i);
    if i == key[m] {
      WholeFrom(key, m + 1);
    }
  }

  lemma {:induction false} ElderIs(cs: seq<Stack>, i: nat)
    requires |cs| == 16 && i < 16 && !cs[i].NoStack? && forall j | i < j < 16 :: cs[j].NoStack?
    ensures Elder(cs, 16) == i
  {}

  /** Inserting at slot `i` of a branch, with the elder sibling hashed. */
  lemma {:induction false} BranchUpdated(cs: seq<Stack>, t: Tree, i: nat, s: Stack, c: Tree)
    requires Minimal(t) && StandsFor(BranchStack(cs), t) && NibbleKeys(BranchStack(cs)) && i < 16
    requires forall j | i < j < 17 :: t.children[j] == Empty
    requires Minimal(c) && StandsFor(s, c) && !s.NoStack? && Open(s) && Minimal(Branch(t.children[i := c]))
    ensures Becomes(Ok(BranchStack(CloseElder(cs, i)[i := s])), Branch(t.children[i := c]))
  {
    var ss, ts := CloseElder(cs, i)[i := s], t.children[i := c];
    forall j | 0 <= j < 16 ensures StandsFor(ss[j], ts[j]) && (i < j ==> ss[j].NoStack?) {
      assert StandsFor(cs[j], t.children[j]);
      if j != i {
        ElderClosed(cs, t, i, j);
      }
    }
    ElderIs(ss, i);
    BecomesStack(BranchStack(ss), Branch(ts));
  }

  lemma {:induction false} ElderClosed(cs: seq<Stack>, t: Tree, i: nat, j: nat)
    requires Minimal(t) && StandsFor(BranchStack(cs), t) && NibbleKeys(BranchStack(cs)) && i < 16 && j < 16
    ensures StandsFor(CloseElder(cs, i)[j], t.children[j])
    ensures i < j ==> CloseElder(cs, i)[j] == cs[j]
  {
    assert StandsFor(cs[j], t.children[j]);
    if j == Elder(cs, i) {
      ChildIsInner(t, j);
      HashedStandsFor(cs[j], t.children[j]);
    }
  }

  /** No panic, and a stack trie that stands for `t`. */
  ghost predicate Becomes(r: Result<Stack>, t: Tree) {
    Minimal(t) && exists s :: r == Ok(s) && StandsFor(s, t) && Open(s) && !s.NoStack?
  }

  lemma {:induction false} BecomesStack(s: Stack, t: Tree)
    requires Minimal(t) && StandsFor(s, t) && Open(s) && !s.NoStack?
    ensures Becomes(Ok(s), t)
  {}

  /** One insertion in order: it does not panic, and the result stands for the updated trie. */
  lemma {:induction false} InsertCorrect(s: Stack, t: Tree, key: Hex, value: Bytes)
    requires Minimal(t) && StandsFor(s, t) && Open(s)
    requires AllNibbles(key) && AllBefore(t, key) && value != []
    ensures NibbleKeys(s) && !t.Leaf? && Becomes(Insert(s, key, value), Put(t, Whole(key), value))
    decreases t
  {
    StandsForNibbleKeys(s, t);
    PutMinimal(t, Whole(key), value);
    match s
    case NoStack =>
    case BranchStack(cs) => InsertBranch(cs, t, key, value);
    case ExtStack(k, c) => InsertExt(k, c, t, key, value);
    case LeafStack(k, v) => InsertLeaf(k, v, key, value);
  }

  lemma {:induction false} InsertBranch(cs: seq<Stack>, t: Tree, key: Hex, value: Bytes)
    requires Minimal(t) && StandsFor(BranchStack(cs), t) && Open(BranchStack(cs)) && NibbleKeys(BranchStack(cs))
    requires AllNibbles(key) && AllBefore(t, key) && value != [] && Minimal(Put(t, Whole(key), value))
    ensures Becomes(Insert(BranchStack(cs), key, value), Put(t, Whole(key), value))
    decreases t, 0
  {
    BeforeBranch(t.children, key);
    var i, rest := key[0], key[1..];
    PutInBranch(t, key, value);
    assert StandsFor(cs[i], t.children[i]);
    var c := PutChild(t.children[i], Whole(rest), value);
    if cs[i].NoStack? {
      BranchUpdated(cs, t, i, LeafStack(rest, value), c);
    } else {
      ElderIs(cs, i);
      InsertCorrect(cs[i], t.children[i], rest, value);
      BranchUpdated(cs, t, i, Insert(cs[i], rest, value).value, c);
    }
  }

  lemma {:induction false} PutInBranch(t: Tree, key: Hex, value: Bytes)
    requires Minimal(t) && t.Branch? && AllNibbles(key) && key != [] && value != []
    ensures !t.children[key[0]].Leaf?
    ensures Put(t, Whole(key), value) == Branch(t.children[key[0] := Put(t.children[key[0]], Whole(key[1..]), value)])
    ensures Minimal(Put(t.children[key[0]], Whole(key[1..]), value))
  {
    assert Whole(key)[0] == key[0] && Whole(key)[1..] == Whole(key[1..]);
    BranchStep(t.children, Whole(key));
    PutMinimal(t.children[key[0]], Whole(key[1..]), value);
  }

  lemma {:induction false} InsertExt(k: Hex, c: Stack, t: Tree, key: Hex, value: Bytes)
    requires Minimal(t) && StandsFor(ExtStack(k, c), t) && Open(c) && NibbleKeys(ExtStack(k, c))
    requires AllNibbles(key) && AllBefore(t, key) && value != [] && Minimal(Put(t, Whole(key), value))
    ensures Becomes(Insert(ExtStack(k, c), key, value), Put(t, Whole(key), value))
    decreases t, 0
  {
    if k <= key {
      BeforeBelowExt(k, t.child, key);
      InsertCorrect(c, t.child, key[|k|..], value);
      InsertBelowExt(k, c, t, key, value);
    } else {
      InsertExtSplit(k, c, t, key, value);
    }
  }

  lemma {:induction false} InsertBelowExt(k: Hex, c: Stack, t: Tree, key: Hex, value: Bytes)
    requires Minimal(t) && StandsFor(ExtStack(k, c), t) && NibbleKeys(ExtStack(k, c)) && AllNibbles(key) && k <= key
    requires value != [] && Minimal(Put(t, Whole(key), value))
    requires Becomes(Insert(c, key[|k|..], value), Put(t.child, Whole(key[|k|..]), value))
    ensures Becomes(Insert(ExtStack(k, c), key, value), Put(t, Whole(key), value))
  {
    PutInExt(t, key, value);
    PrefixLenUnique(key, k, |k|);
  }

  lemma {:induction false} PutInExt(t: Tree, key: Hex, value: Bytes)
    requires Minimal(t) && t.Ext? && t.child.Branch? && AllNibbles(key) && value != [] && t.key <= key
    ensures Put(t, Whole(key), value) == Ext(t.key, Put(t.child, Whole(key[|t.key|..]), value))
    ensures Put(t.child, Whole(key[|t.key|..]), value).Branch?
  {
    var k := t.key;
    PrefixLenUnique(Whole(key), k, |k|);
    assert Whole(key)[|k|..] == Whole(key[|k|..]);
    PutMinimal(t.child, Whole(key[|k|..]), value);
  }

  lemma {:induction false} InsertExtSplit(k: Hex, c: Stack, t: Tree, key: Hex, value: Bytes)
    requires Minimal(t) && StandsFor(ExtStack(k, c), t) && NibbleKeys(ExtStack(k, c))
    requires AllNibbles(key) && AllBefore(t, key) && value != [] && !(k <= key)
    ensures Becomes(Insert(ExtStack(k, c), key, value), Put(t, Whole(key), value))
  {
    PrefixLenWhole(key, k);
    var m := PrefixLen(key, k);
    BeforeLeavesExt(k, t.child, key);
    BelowSplitHashed(k, c, t, m);
    SplitStandsFor(k, t.child, Hashed(BelowSplit(k, c, m)), key, value, m);
    InsertDepartsExt(k, c, key, value);
  }

  lemma {:induction false} InsertDepartsExt(k: Hex, c: Stack, key: Hex, value: Bytes)
    requires NibbleKeys(ExtStack(k, c)) && AllNibbles(key)
    requires PrefixLen(key, k) < |k| && PrefixLen(key, k) < |key|
    ensures var m := PrefixLen(key, k);
            Insert(ExtStack(k, c), key, value) == Ok(Split(k, Hashed(BelowSplit(k, c, m)), key, value, m))
  {}

  lemma {:induction false} BelowSplitHashed(k: Hex, c: Stack, t: Tree, m: nat)
    requires Minimal(t) && StandsFor(ExtStack(k, c), t) && NibbleKeys(ExtStack(k, c)) && m < |k|
    ensures Minimal(Hang(k[m + 1..], t.child))
    ensures StandsFor(Hashed(BelowSplit(k, c, m)), Hang(k[m + 1..], t.child))
  {
    HangMinimal(k, t.child, m);
    HashedStandsFor(BelowSplit(k, c, m), Hang(k[m + 1..], t.child));
  }

  lemma {:induction false} LeafLeavesRight(k: Hex, key: Hex)
    requires AllNibbles(k) && AllNibbles(key) && |k| == |key| && SplitsBelow(Whole(k), Whole(key))
    ensures var m := PrefixLen(key, k); m < |k| && k[m] < key[m] && PrefixLen(Whole(key), Whole(k)) == m
  {
    var m := PrefixLen(key, k);
    assert Whole(k)[..m] == k[..m] && Whole(key)[..m] == key[..m];
    PrefixLenUnique(Whole(k), Whole(key), if m == |k| then |k| + 1 else m);
    PrefixLenUnique(Whole(key), Whole(k), m);
  }

  lemma {:induction false} InsertLeaf(k: Hex, v: Bytes, key: Hex, value: Bytes)
    requires AllNibbles(k) && v != [] && AllNibbles(key) && value != []
    requires Minimal(Ext(Whole(k), Leaf(v))) && AllBefore(Ext(Whole(k), Leaf(v)), key)
    ensures Becomes(Insert(LeafStack(k, v), key, value), Put(Ext(Whole(k), Leaf(v)), Whole(key), value))
  {
    var t := Ext(Whole(k), Leaf(v));
    assert Lookup(t, Whole(k)).Some?;
    Before(t, key, Whole(k));
    LeafLeavesRight(k, key);
    InsertLeafSplit(k, v, key, value);
  }

  lemma {:induction false} InsertLeafSplit(k: Hex, v: Bytes, key: Hex, value: Bytes)
    requires AllNibbles(k) && v != [] && AllNibbles(key) && value != []
    requires Minimal(Ext(Whole(k), Leaf(v))) && |k| == |key|
    requires var m := PrefixLen(key, k); m < |k| && k[m] < key[m] && PrefixLen(Whole(key), Whole(k)) == m
    ensures Becomes(Insert(LeafStack(k, v), key, value), Put(Ext(Whole(k), Leaf(v)), Whole(key), value))
  {
    var m := PrefixLen(key, k);
    var older := LeafStack(k[m + 1..], v);
    LeafSplitHashed(k, v, m);
    SplitStandsFor(Whole(k), Leaf(v), Hashed(older), key, value, m);
    InsertDepartsLeaf(k, v, key, value);
  }

  lemma {:induction false} InsertDepartsLeaf(k: Hex, v: Bytes, key: Hex, value: Bytes)
    requires AllNibbles(k) && AllNibbles(key) && PrefixLen(key, k) < |k| && PrefixLen(key, k) < |key|
    ensures var m := PrefixLen(key, k);
            Insert(LeafStack(k, v), key, value) == Ok(Split(Whole(k), Hashed(LeafStack(k[m + 1..], v)), key, value, m))
  {}

  lemma {:induction false} LeafSplitHashed(k: Hex, v: Bytes, m: nat)
    requires AllNibbles(k) && v != [] && m < |k|
    ensures Minimal(Hang(Whole(k)[m + 1..], Leaf(v)))
    ensures StandsFor(Hashed(LeafStack(k[m + 1..], v)), Hang(Whole(k)[m + 1..], Leaf(v)))
  {
    WholeFrom(k, m + 1);
    HangMinimal(Whole(k), Leaf(v), m);
    HashedStandsFor(LeafStack(k[m + 1..], v), Ext(Whole(k[m + 1..]), Leaf(v)));
  }
}
