/** Whole runs of the stack trie against whole runs of the trie. */
module StackTrieRuns {
  import opened Bytes
  import opened HexEncoding
  import opened Tree
  import opened TreeEncoding
  import opened History
  import Trie
  import S = StackTrie
  import StackNodes

  /** `bytes.Compare(a, b) < 0`, for strings of one length. */
  predicate BytesLess(a: Bytes, b: Bytes) {
    |a| > 0 && |b| > 0 && (a[0] < b[0] || (a[0] == b[0] && BytesLess(a[1..], b[1..])))
  }

  predicate Ordered(us: seq<Update>, i: nat, j: nat)
    requires i < |us| && j < |us|
  {
    |us[i].key| == |us[j].key| && BytesLess(us[i].key, us[j].key)
  }

  /** Strictly increasing keys of equal length with non-empty values. */
  ghost predicate Increasing(us: seq<Update>) {
    && (forall i | 0 <= i < |us| :: us[i].value != [])
    && (forall i, j | 0 <= i < j < |us| :: Ordered(us, i, j))
  }

  /** `Update` on a stack trie; deletion is not supported. */
  function Step(s: S.Stack, u: Update): Result<S.Stack>
    requires S.NibbleKeys(s)
  {
    if u.value == [] then Err else S.Insert(s, Unpack(u.key), u.value)
  }

  /** The state reached by the updates, if no update panics. */
  ghost predicate Reaches(us: seq<Update>, s: S.Stack) {
    if us == [] then
      s == S.NoStack
    else
      exists before :: Reaches(us[..|us| - 1], before) && S.NibbleKeys(before) && Step(before, us[|us| - 1]) == Ok(s)
  }

  lemma {:induction false} BytesLessHex(a: Bytes, b: Bytes)
    requires |a| == |b| && BytesLess(a, b)
    ensures S.SplitsBelow(KeybytesToHex(a), KeybytesToHex(b))
  {
    var x, y := KeybytesToHex(a), KeybytesToHex(b);
    assert x == [High(a[0]), Low(a[0])] + KeybytesToHex(a[1..]);
    assert y == [High(b[0]), Low(b[0])] + KeybytesToHex(b[1..]);
    if a[0] == b[0] {
      BytesLessHex(a[1..], b[1..]);
      S.LessBelow([High(a[0]), Low(a[0])], KeybytesToHex(a[1..]), KeybytesToHex(b[1..]));
    } else if High(a[0]) == High(b[0]) {
      S.LessAt(x, y, 1);
    } else {
      S.LessAt(x, y, 0);
    }
  }

  lemma {:induction false} RunMapKeys(us: seq<Update>, key: Bytes) returns (i: nat)
    requires key in RunMap(us)
    ensures i < |us| && us[i].key == key
  {
    var last := |us| - 1;
    if us[last].key == key {
      i := last;
    } else {
      i := RunMapKeys(us[..last], key);
    }
  }

  /** Everything inserted so far comes before the next key. */
  lemma NextKeyIsLater(us: seq<Update>, u: Update)
    requires Increasing(us + [u])
    ensures S.AllBefore(RunTree(us), Unpack(u.key))
  {
    var t, all := RunTree(us), us + [u];
    RunModels(us);
    assert S.Whole(Unpack(u.key)) == KeybytesToHex(u.key);
    forall h | IsKey(h) && Lookup(t, h).Some?
      ensures |h| == |KeybytesToHex(u.key)| && S.SplitsBelow(h, KeybytesToHex(u.key))
    {
      var key := KeyOfHex(h);
      assert Find(RunMap(us), key).Some?;
      var i := RunMapKeys(us, key);
      assert Ordered(all, i, |us|);
      BytesLessHex(key, u.key);
    }
  }

  lemma IncreasingPrefix(us: seq<Update>)
    requires us != [] && Increasing(us)
    ensures Increasing(us[..|us| - 1])
  {
    var ws := us[..|us| - 1];
    forall i, j | 0 <= i < j < |ws| ensures Ordered(ws, i, j) {
      assert Ordered(us, i, j);
    }
  }

  /** An in-order run of the stack trie never panics, and stands for the trie given the same updates. */
  lemma {:induction false} RunStandsFor(us: seq<Update>) returns (s: S.Stack)
    requires Increasing(us)
    ensures Reaches(us, s) && S.StandsFor(s, RunTree(us)) && S.Open(s)
  {
    if us == [] {
      s := S.NoStack;
    } else {
      var ws, u := us[..|us| - 1], us[|us| - 1];
      assert us == ws + [u];
      IncreasingPrefix(us);
      var before := RunStandsFor(ws);
      NextKeyIsLater(ws, u);
      S.InsertCorrect(before, RunTree(ws), Unpack(u.key), u.value);
      s := Step(before, u).value;
    }
  }

  lemma {:induction false} ReachesUnique(us: seq<Update>, a: S.Stack, b: S.Stack)
    requires Reaches(us, a) && Reaches(us, b)
    ensures a == b
  {
    if us != [] {
      var ws := us[..|us| - 1];
      var x :| Reaches(ws, x) && S.NibbleKeys(x) && Step(x, us[|us| - 1]) == Ok(a);
      var y :| Reaches(ws, y) && S.NibbleKeys(y) && Step(y, us[|us| - 1]) == Ok(b);
      ReachesUnique(ws, x, y);
    }
  }

  /**
   For every strictly increasing sequence of equal-length keys with non-empty values, the stack trie
   runs to completion and its hash is the root hash of a trie given the same updates.
   */
  lemma StackTrieMatchesTrie(us: seq<Update>)
    requires Increasing(us)
    ensures exists s :: Reaches(us, s)
    ensures forall s | Reaches(us, s) :: S.NibbleKeys(s) && S.RootOf(s) == RootHash(RunTree(us))
  {
    var s := RunStandsFor(us);
    S.RootOfCorrect(s, RunTree(us));
    forall r | Reaches(us, r) ensures r == s {
      ReachesUnique(us, r, s);
    }
  }

  lemma {:induction false} IncreasingUpTo(us: seq<Update>, i: nat)
    requires Increasing(us) && i <= |us|
    ensures Increasing(us[..i])
  {
    forall j, k | 0 <= j < k < i ensures Ordered(us[..i], j, k) {
      assert Ordered(us, j, k);
    }
  }

  /** The next update of an in-order run does not panic. */
  lemma RunNext(us: seq<Update>, i: nat, s: S.Stack)
    requires Increasing(us) && i < |us| && Reaches(us[..i], s)
    ensures S.NibbleKeys(s) && Step(s, us[i]).Ok? && Reaches(us[..i + 1], Step(s, us[i]).value)
  {
    IncreasingUpTo(us, i + 1);
    var next := RunStandsFor(us[..i + 1]);
    assert us[..i + 1][..i] == us[..i];
    var before :| Reaches(us[..i], before) && S.NibbleKeys(before) && Step(before, us[i]) == Ok(next);
    ReachesUnique(us[..i], before, s);
  }

  /** Streaming the updates through a stack trie, whose nodes are overwritten in place. */
  method StackRoot(us: seq<Update>) returns (root: Hash32)
    requires Increasing(us)
    ensures root == RootHash(RunTree(us))
  {
    var st := new StackNodes.StackNode(StackNodes.EmptyNode, [], []);
    ghost var s: S.Stack := S.NoStack;
    for i := 0 to |us|
      invariant Reaches(us[..i], s) && st.Shows(s) && fresh(st.repr)
    {
      RunNext(us, i, s);
      var ok := st.Update(us[i].key, us[i].value, s);
      s := Step(s, us[i]).value;
    }
    assert us[..|us|] == us;
    StackTrieMatchesTrie(us);
    root := st.Hash(s);
  }

  /** The same updates through a trie. */
  method TrieRoot(us: seq<Update>) returns (root: Hash32)
    ensures root == RootHash(RunTree(us))
  {
    var t := new Trie.Trie(EMPTY_ROOT, map[], Empty);
    for i := 0 to |us|
      invariant t.Valid() && t.tree == RunTree(us[..i]) && fresh(t) && fresh(t.tracer)
    {
      t.Update(us[i].key, us[i].value);
      assert us[..i + 1][..i] == us[..i];
    }
    assert us[..|us|] == us;
    root := t.Hash();
  }
}
