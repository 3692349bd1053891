/**
 The abstract trie: what a Merkle Patricia trie is once cached hashes, dirty flags and the split into
 loaded and hash-only subtrees are forgotten.  `Put` and `Remove` are the shape changes of
 trie/trie.go; the rest of the project ties the real node structures to this one.
 */
module Tree {
  import opened Bytes
  import opened HexEncoding

  datatype Tree = Empty | Leaf(value: Bytes) | Ext(key: Hex, child: Tree) | Branch(children: seq<Tree>)

  /** A whole key: nibbles closed by the terminator. */
  predicate IsKey(key: Hex) {
    IsHex(key) && HasTerm(key)
  }

  /** The rest of a key below `t`: used up at a value, unfinished anywhere else. */
  predicate KeyFor(t: Tree, key: Hex) {
    if t.Leaf? then key == [] else IsKey(key)
  }

  ghost predicate Populated(cs: seq<Tree>, i: int, j: int) {
    0 <= i < j < |cs| && !cs[i].Empty? && !cs[j].Empty?
  }

  ghost predicate AtLeastTwo(cs: seq<Tree>) {
    exists i, j :: Populated(cs, i, j)
  }

  /** What may hang at slot `i` of a branch. */
  ghost predicate Slot(i: int, c: Tree) {
    if i == TERMINATOR then c.Empty? || c.Leaf? else !c.Leaf?
  }

  /**
   The minimal form: no empty extension key, no extension below an extension, at least two children
   in every branch, values exactly where the terminator leads.
   */
  ghost predicate Minimal(t: Tree) {
    match t
    case Empty => true
    case Leaf(v) => v != []
    case Ext(k, c) => k != [] && IsHex(k) && Minimal(c) && (if HasTerm(k) then c.Leaf? else c.Branch?)
    case Branch(cs) =>
      && |cs| == 17
      && (forall i | 0 <= i < 17 :: Slot(i, cs[i]) && Minimal(cs[i]))
      && AtLeastTwo(cs)
  }

  function Lookup(t: Tree, key: Hex): Option<Bytes> {
    match t
    case Empty => None
    case Leaf(v) => Some(v)
    case Ext(k, c) => if k <= key then Lookup(c, key[|k|..]) else None
    case Branch(cs) => if key == [] || |cs| != 17 then None else Lookup(cs[key[0]], key[1..])
  }

  // ---------- Insertion ----------

  function Hang(key: Hex, t: Tree): Tree {
    if key == [] then t else Ext(key, t)
  }

  function NoChildren(): (cs: seq<Tree>)
    ensures |cs| == 17 && forall i | 0 <= i < 17 :: cs[i] == Empty
  {
    [Empty, Empty, Empty, Empty, Empty, Empty, Empty, Empty, Empty,
     Empty, Empty, Empty, Empty, Empty, Empty, Empty, Empty]
  }

  /** The branch at the first digit where `k` and `key` differ. */
  function Fork(k: Hex, c: Tree, key: Hex, leaf: Tree, m: nat): Tree
    requires m < |k| && m < |key|
  {
    Branch(NoChildren()[k[m] := Hang(k[m + 1..], c)][key[m] := Hang(key[m + 1..], leaf)])
  }

  lemma KeysDiverge(key: Hex, k: Hex)
    requires IsKey(key) && IsHex(k) && PrefixLen(key, k) < |k|
    ensures PrefixLen(key, k) < |key|
  {
  }

  function Put(t: Tree, key: Hex, v: Bytes): Tree
    requires Minimal(t) && KeyFor(t, key)
    decreases t, 0
  {
    match t
    case Empty => Ext(key, Leaf(v))
    case Leaf(_) => Leaf(v)
    case Ext(k, c) =>
      var m := PrefixLen(key, k);
      if m == |k| then
        ExtStep(k, c, key);
        Ext(k, Put(c, key[m..], v))
      else
        KeysDiverge(key, k);
        if m == 0 then Fork(k, c, key, Leaf(v), m) else Ext(key[..m], Fork(k, c, key, Leaf(v), m))
    case Branch(cs) =>
      BranchStep(cs, key);
      Branch(cs[key[0] := PutChild(cs[key[0]], key[1..], v)])
  }

  /** Insertion below a branch: an empty slot 16 takes the bare value. */
  function PutChild(t: Tree, key: Hex, v: Bytes): Tree
    requires Minimal(t) && (KeyFor(t, key) || (t.Empty? && key == []))
    decreases t, 1
  {
    if key == [] then Leaf(v) else Put(t, key, v)
  }

  lemma ExtStep(k: Hex, c: Tree, key: Hex)
    requires Minimal(Ext(k, c)) && IsKey(key) && k <= key
    ensures KeyFor(c, key[|k|..])
  {
    var rest := key[|k|..];
    if HasTerm(k) {
      assert key[|k| - 1] == TERMINATOR;
    } else {
      assert rest == [] ==> key == k;
    }
  }

  lemma BranchStep(cs: seq<Tree>, key: Hex)
    requires Minimal(Branch(cs)) && IsKey(key)
    ensures key[0] == TERMINATOR <==> key[1..] == []
    ensures key[0] == TERMINATOR ==> cs[key[0]].Empty? || cs[key[0]].Leaf?
    ensures key[0] != TERMINATOR ==> KeyFor(cs[key[0]], key[1..])
  {
    assert Slot(key[0], cs[key[0]]);
  }

  lemma HangMinimal(k: Hex, c: Tree, i: int)
    requires 0 <= i < |k| && IsHex(k) && Minimal(c) && (if HasTerm(k) then c.Leaf? else c.Branch?)
    ensures Slot(k[i], Hang(k[i + 1..], c)) && Minimal(Hang(k[i + 1..], c)) && !Hang(k[i + 1..], c).Empty?
  {}

  lemma ForkMinimal(k: Hex, c: Tree, key: Hex, v: Bytes, m: nat)
    requires Minimal(Ext(k, c)) && IsKey(key) && v != []
    requires m < |k| && m < |key| && k[m] != key[m]
    ensures Minimal(Fork(k, c, key, Leaf(v), m))
  {
    HangMinimal(k, c, m);
    HangMinimal(key, Leaf(v), m);
    var cs := Fork(k, c, key, Leaf(v), m).children;
    assert if k[m] < key[m] then Populated(cs, k[m], key[m]) else Populated(cs, key[m], k[m]);
  }

  lemma BranchUpdateMinimal(cs: seq<Tree>, i: int, c: Tree)
    requires Minimal(Branch(cs)) && 0 <= i < 17 && Slot(i, c) && Minimal(c) && !c.Empty?
    ensures Minimal(Branch(cs[i := c]))
  {
    var a, b :| Populated(cs, a, b);
    assert Populated(cs[i := c], a, b);
  }

  lemma {:induction false} PutMinimal(t: Tree, key: Hex, v: Bytes)
    requires Minimal(t) && KeyFor(t, key) && v != []
    ensures Minimal(Put(t, key, v)) && !Put(t, key, v).Empty?
    ensures Put(t, key, v).Leaf? <==> t.Leaf?
    ensures t.Branch? ==> Put(t, key, v).Branch?
    decreases t
  {
    match t
    case Empty =>
    case Leaf(_) =>
    case Ext(k, c) =>
      var m := PrefixLen(key, k);
      if m == |k| {
        ExtStep(k, c, key);
        PutMinimal(c, key[m..], v);
      } else {
        KeysDiverge(key, k);
        ForkMinimal(k, c, key, v, m);
      }
    case Branch(cs) =>
      BranchStep(cs, key);
      var i := key[0];
      if i != TERMINATOR {
        PutMinimal(cs[i], key[1..], v);
      }
      BranchUpdateMinimal(cs, i, PutChild(cs[i], key[1..], v));
  }

  lemma KeyPrefixEqual(a: Hex, b: Hex)
    requires IsKey(a) && IsHex(b) && a <= b
    ensures a == b
  {}

  lemma LookupHang(key: Hex, t: Tree, other: Hex)
    ensures Lookup(Hang(key, t), other) == if key <= other then Lookup(t, other[|key|..]) else None
  {
    if key == [] {
      assert other[0..] == other;
    }
  }

  /** What the fork below `pre == key[..m] == k[..m]` answers. */
  lemma LookupFork(k: Hex, c: Tree, key: Hex, v: Bytes, m: nat, other: Hex)
    requires Minimal(Ext(k, c)) && IsKey(key) && IsKey(other)
    requires m < |k| && m < |key| && k[m] != key[m] && key[..m] == k[..m] && key[..m] <= other
    ensures Lookup(Fork(k, c, key, Leaf(v), m), other[m..])
         == if other == key then Some(v) else Lookup(Ext(k, c), other)
  {
    var f := Fork(k, c, key, Leaf(v), m);
    var rest := other[m..];
    assert rest != [] by {
      assert other == key[..m] + rest;
    }
    assert rest[1..] == other[m + 1..];
    PrefixFrom(key, other, m);
    PrefixFrom(k, other, m);
    if rest[0] == key[m] {
      LookupHang(key[m + 1..], Leaf(v), rest[1..]);
      if key <= other {
        KeyPrefixEqual(key, other);
      }
    } else if rest[0] == k[m] {
      LookupHang(k[m + 1..], c, rest[1..]);
      if k <= other {
        assert rest[1..][|k| - m - 1..] == other[|k|..];
      }
    }
  }

  lemma PrefixFrom(k: Hex, other: Hex, m: nat)
    requires m < |k| && m < |other| && k[..m] <= other
    ensures k <= other <==> k[m] == other[m] && k[m + 1..] <= other[m + 1..]
  {
    assert k == k[..m] + [k[m]] + k[m + 1..];
    assert other == other[..m] + [other[m]] + other[m + 1..];
  }

  ghost predicate PutAnswers(t: Tree, key: Hex, v: Bytes, other: Hex)
    requires Minimal(t) && KeyFor(t, key)
  {
    Lookup(Put(t, key, v), other) == if other == key then Some(v) else Lookup(t, other)
  }

  /** Insertion changes the answer for its own key and for no other. */
  lemma {:induction false} LookupPut(t: Tree, key: Hex, v: Bytes, other: Hex)
    requires Minimal(t) && KeyFor(t, key) && KeyFor(t, other)
    ensures Lookup(Put(t, key, v), other) == if other == key then Some(v) else Lookup(t, other)
    decreases t
  {
    match t
    case Empty =>
      LookupHang(key, Leaf(v), other);
      if key <= other {
        KeyPrefixEqual(key, other);
      }
    case Leaf(_) =>
    case Ext(k, c) =>
      var m := PrefixLen(key, k);
      if m == |k| {
        ExtStep(k, c, key);
        if k <= other {
          ExtStep(k, c, other);
          LookupPut(c, key[m..], v, other[m..]);
        }
        LookupPutExt(k, c, key, v, other);
      } else {
        KeysDiverge(key, k);
        LookupPutFork(k, c, key, v, other);
      }
    case Branch(cs) =>
      BranchStep(cs, key);
      BranchStep(cs, other);
      if key[0] == other[0] && key[0] != TERMINATOR {
        LookupPut(cs[key[0]], key[1..], v, other[1..]);
      }
      LookupPutBranch(cs, key, v, other);
  }

  lemma LookupPutExt(k: Hex, c: Tree, key: Hex, v: Bytes, other: Hex)
    requires Minimal(Ext(k, c)) && IsKey(key) && IsKey(other) && PrefixLen(key, k) == |k| && KeyFor(c, key[|k|..])
    requires k <= other ==> PutAnswers(c, key[|k|..], v, other[|k|..])
    ensures Lookup(Put(Ext(k, c), key, v), other) == if other == key then Some(v) else Lookup(Ext(k, c), other)
  {
    assert key == k + key[|k|..];
    if k <= other {
      assert other == k + other[|k|..];
    }
  }

  lemma LookupPutBranch(cs: seq<Tree>, key: Hex, v: Bytes, other: Hex)
    requires Minimal(Branch(cs)) && IsKey(key) && IsKey(other)
    requires key[0] != TERMINATOR ==> KeyFor(cs[key[0]], key[1..])
    requires key[0] == other[0] != TERMINATOR ==> PutAnswers(cs[key[0]], key[1..], v, other[1..])
    ensures Lookup(Put(Branch(cs), key, v), other) == if other == key then Some(v) else Lookup(Branch(cs), other)
  {
    BranchStep(cs, key);
    BranchStep(cs, other);
    assert key == [key[0]] + key[1..] && other == [other[0]] + other[1..];
  }

  lemma LookupPutFork(k: Hex, c: Tree, key: Hex, v: Bytes, other: Hex)
    requires Minimal(Ext(k, c)) && IsKey(key) && IsKey(other) && PrefixLen(key, k) < |k|
    ensures Lookup(Put(Ext(k, c), key, v), other) == if other == key then Some(v) else Lookup(Ext(k, c), other)
  {
    var m := PrefixLen(key, k);
    KeysDiverge(key, k);
    if key[..m] <= other {
      LookupFork(k, c, key, v, m, other);
      assert m == 0 ==> other[m..] == other;
    }
  }

  // ---------- Deletion ----------

  /** The first occupied slot at or after `i`, 17 if there is none. */
  function FirstChild(cs: seq<Tree>, i: nat): (p: nat)
    requires |cs| == 17 && i <= 17
    ensures i <= p <= 17 && (forall j | i <= j < p :: cs[j].Empty?) && (p < 17 ==> !cs[p].Empty?)
    decreases 17 - i
  {
    if i == 17 || !cs[i].Empty? then i else FirstChild(cs, i + 1)
  }

  /** A branch with a single child left becomes an extension, merged with the child if that is one. */
  function Reduce(cs: seq<Tree>): Tree
    requires |cs| == 17
  {
    var p := FirstChild(cs, 0);
    if p < 17 && FirstChild(cs, p + 1) == 17 then Prefixed([p], cs[p]) else Branch(cs)
  }

  /** `c` with `k` in front, keeping extensions merged. */
  function Prefixed(k: Hex, c: Tree): Tree {
    if c.Ext? then Ext(k + c.key, c.child) else Ext(k, c)
  }

  function Remove(t: Tree, key: Hex): Tree
    requires Minimal(t) && KeyFor(t, key)
    decreases t
  {
    match t
    case Empty => Empty
    case Leaf(_) => Empty
    case Ext(k, c) =>
      if PrefixLen(key, k) < |k| then
        t
      else if |k| == |key| then
        Empty
      else
        ExtStep(k, c, key);
        Prefixed(k, Remove(c, key[|k|..]))
    case Branch(cs) =>
      BranchStep(cs, key);
      var c := cs[key[0]];
      if c.Empty? then
        t
      else
        var c' := Remove(c, key[1..]);
        if c'.Empty? then Reduce(cs[key[0] := c']) else Branch(cs[key[0] := c'])
  }

  lemma PrefixedMinimal(k: Hex, c: Tree)
    requires k != [] && AllNibbles(k) && Minimal(c) && (c.Ext? || c.Branch?)
    ensures Minimal(Prefixed(k, c))
  {}

  lemma ReduceMinimal(cs: seq<Tree>, i: int)
    requires Minimal(Branch(cs)) && 0 <= i < 17
    ensures Minimal(Reduce(cs[i := Empty])) && (Reduce(cs[i := Empty]).Branch? || Reduce(cs[i := Empty]).Ext?)
  {
    var cs' := cs[i := Empty];
    var a, b :| Populated(cs, a, b);
    var p := FirstChild(cs', 0);
    assert p < 17 by {
      assert if a == i then !cs'[b].Empty? else !cs'[a].Empty?;
    }
    var q := FirstChild(cs', p + 1);
    assert Slot(p, cs'[p]);
    if q == 17 {
      if p != TERMINATOR {
        PrefixedMinimal([p], cs'[p]);
      }
    } else {
      assert Populated(cs', p, q);
    }
  }

  lemma {:induction false} RemoveMinimal(t: Tree, key: Hex)
    requires Minimal(t) && KeyFor(t, key)
    ensures Minimal(Remove(t, key)) && !Remove(t, key).Leaf?
    ensures t.Branch? ==> Remove(t, key).Branch? || Remove(t, key).Ext?
    decreases t
  {
    match t
    case Empty =>
    case Leaf(_) =>
    case Ext(k, c) =>
      if PrefixLen(key, k) == |k| < |key| {
        ExtStep(k, c, key);
        RemoveMinimal(c, key[|k|..]);
        PrefixedMinimal(k, Remove(c, key[|k|..]));
      }
    case Branch(cs) =>
      BranchStep(cs, key);
      var i := key[0];
      if !cs[i].Empty? {
        RemoveMinimal(cs[i], key[1..]);
        if Remove(cs[i], key[1..]).Empty? {
          ReduceMinimal(cs, i);
        } else {
          BranchUpdateMinimal(cs, i, Remove(cs[i], key[1..]));
        }
      }
  }

  lemma LookupPrefixed(k: Hex, c: Tree, other: Hex)
    ensures Lookup(Prefixed(k, c), other) == if k <= other then Lookup(c, other[|k|..]) else None
  {
    if c.Ext? {
      LookupExtChain(k, c.key, c.child, other);
    }
  }

  lemma LookupExtChain(k: Hex, k': Hex, c: Tree, other: Hex)
    ensures Lookup(Ext(k + k', c), other) == if k <= other then Lookup(Ext(k', c), other[|k|..]) else None
  {
    if k <= other {
      var rest := other[|k|..];
      assert other == k + rest;
      if k' <= rest {
        assert rest[|k'|..] == other[|k + k'|..];
      }
    }
  }

  lemma LookupReduce(cs: seq<Tree>, other: Hex)
    requires |cs| == 17 && other != []
    ensures Lookup(Reduce(cs), other) == Lookup(cs[other[0]], other[1..])
  {
    var p := FirstChild(cs, 0);
    if p < 17 {
      LookupPrefixed([p], cs[p], other);
    }
  }

  /** Deletion changes the answer for its own key and for no other. */
  lemma {:induction false} LookupRemove(t: Tree, key: Hex, other: Hex)
    requires Minimal(t) && KeyFor(t, key) && KeyFor(t, other)
    ensures Lookup(Remove(t, key), other) == if other == key then None else Lookup(t, other)
    decreases t
  {
    match t
    case Empty =>
    case Leaf(_) =>
    case Ext(k, c) =>
      RemoveInExt(k, c, key);
      if k < key {
        if k <= other {
          ExtStep(k, c, other);
          LookupRemove(c, key[|k|..], other[|k|..]);
        }
        LookupRemoveExt(k, c, Remove(c, key[|k|..]), key, other);
      } else if k == key && k <= other {
        KeyPrefixEqual(k, other);
      }
    case Branch(cs) =>
      BranchStep(cs, key);
      BranchStep(cs, other);
      if key[0] == other[0] && !cs[key[0]].Empty? {
        LookupRemove(cs[key[0]], key[1..], other[1..]);
      }
      LookupRemoveBranch(cs, key, other);
  }

  lemma RemoveInExt(k: Hex, c: Tree, key: Hex)
    requires Minimal(Ext(k, c)) && IsKey(key)
    ensures !(k <= key) ==> Remove(Ext(k, c), key) == Ext(k, c)
    ensures k == key ==> Remove(Ext(k, c), key) == Empty
    ensures k < key ==> KeyFor(c, key[|k|..]) && Remove(Ext(k, c), key) == Prefixed(k, Remove(c, key[|k|..]))
  {
    if k <= key {
      ExtStep(k, c, key);
      PrefixLenUnique(key, k, |k|);
    }
  }

  lemma LookupRemoveExt(k: Hex, c: Tree, c': Tree, key: Hex, other: Hex)
    requires k <= key
    requires (k <= other ==>
               Lookup(c', other[|k|..]) == if other[|k|..] == key[|k|..] then None else Lookup(c, other[|k|..]))
    ensures Lookup(Prefixed(k, c'), other) == if other == key then None else Lookup(Ext(k, c), other)
  {
    LookupPrefixed(k, c', other);
    assert key == k + key[|k|..];
    if k <= other {
      assert other == k + other[|k|..];
    }
  }

  lemma LookupRemoveBranch(cs: seq<Tree>, key: Hex, other: Hex)
    requires Minimal(Branch(cs)) && IsKey(key) && IsKey(other)
    requires !cs[key[0]].Empty? ==> KeyFor(cs[key[0]], key[1..])
    requires (key[0] == other[0] && !cs[key[0]].Empty? ==>
               Lookup(Remove(cs[key[0]], key[1..]), other[1..])
               == if other[1..] == key[1..] then None else Lookup(cs[key[0]], other[1..]))
    ensures Lookup(Remove(Branch(cs), key), other) == if other == key then None else Lookup(Branch(cs), other)
  {
    var i := key[0];
    assert key == [i] + key[1..] && other == [other[0]] + other[1..];
    if !cs[i].Empty? && Remove(cs[i], key[1..]).Empty? {
      LookupReduce(cs[i := Empty], other);
    }
  }

  // ---------- The shape is determined by the content ----------

  /** Some key that `t` holds. */
  function SomeKey(t: Tree): Hex
    requires Minimal(t) && !t.Empty?
  {
    match t
    case Leaf(_) => []
    case Ext(k, c) => k + SomeKey(c)
    case Branch(cs) => var i := FirstChild(cs, 0); BranchFirst(cs); [i] + SomeKey(cs[i])
  }

  lemma BranchFirst(cs: seq<Tree>)
    requires Minimal(Branch(cs))
    ensures FirstChild(cs, 0) < 17
  {
    var a, b :| Populated(cs, a, b);
  }

  lemma {:induction false} SomeKeyHeld(t: Tree)
    requires Minimal(t) && !t.Empty?
    ensures KeyFor(t, SomeKey(t)) && Lookup(t, SomeKey(t)).Some?
  {
    match t
    case Leaf(_) =>
    case Ext(k, c) =>
      SomeKeyHeld(c);
      SomeKeyInExt(k, c);
    case Branch(cs) =>
      BranchFirst(cs);
      SomeKeyBelow(cs, FirstChild(cs, 0));
  }

  lemma SomeKeyInExt(k: Hex, c: Tree)
    requires Minimal(Ext(k, c)) && KeyFor(c, SomeKey(c)) && Lookup(c, SomeKey(c)).Some?
    ensures IsKey(k + SomeKey(c)) && Lookup(Ext(k, c), k + SomeKey(c)).Some?
  {
    assert (k + SomeKey(c))[|k|..] == SomeKey(c);
  }

  lemma SomeKeyBelow(cs: seq<Tree>, i: nat)
    requires Minimal(Branch(cs)) && i < 17 && !cs[i].Empty?
    ensures IsKey([i] + SomeKey(cs[i])) && Lookup(Branch(cs), [i] + SomeKey(cs[i])).Some?
    decreases cs, 0
  {
    SomeKeyHeld(cs[i]);
    assert Slot(i, cs[i]);
    assert ([i] + SomeKey(cs[i]))[1..] == SomeKey(cs[i]);
  }

  ghost predicate SameContent(a: Tree, b: Tree) {
    forall key | IsKey(key) :: Lookup(a, key) == Lookup(b, key)
  }

  lemma HeldKeyStartsWith(k: Hex, c: Tree, key: Hex)
    requires Lookup(Ext(k, c), key).Some?
    ensures k <= key
  {}

  /** A branch holds a key that does not start with `d`. */
  lemma KeyElsewhere(cs: seq<Tree>, d: nat) returns (key: Hex)
    requires Minimal(Branch(cs))
    ensures IsKey(key) && Lookup(Branch(cs), key).Some? && key[0] != d
  {
    var a, b :| Populated(cs, a, b);
    var i := if a == d then b else a;
    SomeKeyBelow(cs, i);
    key := [i] + SomeKey(cs[i]);
  }

  lemma ExtNotBranch(k: Hex, c: Tree, cs: seq<Tree>)
    requires Minimal(Ext(k, c)) && Minimal(Branch(cs))
    ensures !SameContent(Ext(k, c), Branch(cs))
  {
    var key := KeyElsewhere(cs, k[0]);
    assert Lookup(Ext(k, c), key).None?;
  }

  lemma EmptyIsEmpty(t: Tree)
    requires Minimal(t) && !t.Leaf? && !t.Empty?
    ensures !SameContent(t, Empty)
  {
    SomeKeyHeld(t);
  }

  /** The key of an extension is the longest common prefix of what it holds. */
  lemma ExtKeyNoLonger(k1: Hex, c1: Tree, k2: Hex, c2: Tree)
    requires Minimal(Ext(k1, c1)) && Minimal(Ext(k2, c2)) && SameContent(Ext(k1, c1), Ext(k2, c2))
    ensures k2 <= k1
  {
    if c1.Leaf? {
      assert Lookup(Ext(k1, c1), k1).Some?;
      HeldKeyStartsWith(k2, c2, k1);
    } else {
      var other := KeyElsewhere(c1.children, if |k1| < |k2| then k2[|k1|] else 17);
      HeldInExt(k1, c1, other);
      HeldKeyStartsWith(k2, c2, k1 + other);
      PrefixStopsBefore(k2, k1, other);
    }
  }

  lemma PrefixStopsBefore(k2: Hex, k1: Hex, rest: Hex)
    requires k2 <= k1 + rest && rest != [] && (|k1| < |k2| ==> k2[|k1|] != rest[0])
    ensures k2 <= k1
  {}

  lemma HeldInExt(k: Hex, c: Tree, key: Hex)
    requires Minimal(Ext(k, c)) && c.Branch? && IsKey(key)
    ensures IsKey(k + key) && Lookup(Ext(k, c), k + key) == Lookup(c, key)
  {
    assert (k + key)[|k|..] == key;
  }

  lemma SameContentBelowExt(k: Hex, c1: Tree, c2: Tree)
    requires Minimal(Ext(k, c1)) && Minimal(Ext(k, c2)) && c1.Branch? && c2.Branch?
    requires SameContent(Ext(k, c1), Ext(k, c2))
    ensures SameContent(c1, c2)
  {
    forall key | IsKey(key) ensures Lookup(c1, key) == Lookup(c2, key) {
      HeldInExt(k, c1, key);
      HeldInExt(k, c2, key);
    }
  }

  lemma SameValueBelowExt(k: Hex, c1: Tree, c2: Tree)
    requires Minimal(Ext(k, c1)) && Minimal(Ext(k, c2)) && c1.Leaf? && SameContent(Ext(k, c1), Ext(k, c2))
    ensures c1 == c2
  {
    assert IsKey(k) && k[|k|..] == [];
    assert Lookup(Ext(k, c1), k) == Lookup(Ext(k, c2), k);
  }

  lemma SameContentBelowBranch(a: seq<Tree>, b: seq<Tree>, i: nat)
    requires Minimal(Branch(a)) && Minimal(Branch(b)) && SameContent(Branch(a), Branch(b)) && i < 16
    ensures SameContent(a[i], b[i])
  {
    forall key | IsKey(key) ensures Lookup(a[i], key) == Lookup(b[i], key) {
      var whole := [i] + key;
      assert IsKey(whole) && whole[1..] == key;
    }
  }

  lemma SameValueSlot(a: seq<Tree>, b: seq<Tree>)
    requires Minimal(Branch(a)) && Minimal(Branch(b)) && SameContent(Branch(a), Branch(b))
    ensures a[16] == b[16]
  {
    var key: Hex := [TERMINATOR];
    assert IsKey(key) && key[1..] == [];
    assert Slot(16, a[16]) && Slot(16, b[16]);
    assert Lookup(Branch(a), key) == Lookup(a[16], []);
    assert Lookup(Branch(b), key) == Lookup(b[16], []);
  }

  /** Two minimal tries with the same content are the same trie. */
  lemma {:induction false} MinimalUnique(a: Tree, b: Tree)
    requires Minimal(a) && Minimal(b) && !a.Leaf? && !b.Leaf? && SameContent(a, b)
    ensures a == b
    decreases a
  {
    if a.Empty? || b.Empty? {
      if a != b {
        EmptyIsEmpty(if a.Empty? then b else a);
      }
    } else if a.Ext? && b.Ext? {
      ExtKeyNoLonger(a.key, a.child, b.key, b.child);
      ExtKeyNoLonger(b.key, b.child, a.key, a.child);
      if a.child.Branch? {
        SameContentBelowExt(a.key, a.child, b.child);
        MinimalUnique(a.child, b.child);
      } else {
        SameValueBelowExt(a.key, a.child, b.child);
      }
    } else if a.Branch? && b.Branch? {
      forall i | 0 <= i < 17 ensures a.children[i] == b.children[i] {
        if i < 16 {
          SameContentBelowBranch(a.children, b.children, i);
          assert Slot(i, a.children[i]) && Slot(i, b.children[i]);
          MinimalUnique(a.children[i], b.children[i]);
        } else {
          SameValueSlot(a.children, b.children);
        }
      }
    } else if a.Ext? {
      ExtNotBranch(a.key, a.child, b.children);
    } else {
      ExtNotBranch(b.key, b.child, a.children);
    }
  }
}
