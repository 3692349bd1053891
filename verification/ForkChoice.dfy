/**
 The light-weight node of consensus_shard/light-weight: blocks and signatures arrive in any order, and the
 node extends its chain, rolls back to a smaller sibling, and extends again.  A 32-byte hash is taken as a
 big-endian number, which orders hashes as `bytes.Compare` does.
 */
module ForkChoice {
  import opened Bytes

  /** The hash of 32 bytes 0xff, which the search uses for "none". */
  const NO_HASH: nat := 0xffff_ffff_ffff_ffff_ffff_ffff_ffff_ffff_ffff_ffff_ffff_ffff_ffff_ffff_ffff_ffff

  type Hash = h: nat | h <= NO_HASH

  /** A block header; a genesis block has no parent hash. */
  datatype Block = Block(number: nat, parent: Option<Hash>, hash: Hash)

  type Pool = map<Hash, Block>

  type Signs = map<Hash, set<nat>>

  // ---------- The greedy path ----------

  function Signers(signs: Signs, h: Hash): set<nat> {
    if h in signs then signs[h] else {}
  }

  /** What fork choice looks at: the blocks, the signatures, and how many of them a block needs. */
  datatype View = View(pool: Pool, signs: Signs, required: nat) {
    predicate Eligible(h: Hash) {
      h in pool && |Signers(signs, h)| >= required
    }

    /** `h` may follow `p` on a chain. */
    predicate Next(p: Hash, h: Hash) {
      p in pool && Eligible(h) && pool[h].parent == Some(p) && pool[h].number == pool[p].number + 1
    }

    ghost predicate Best(p: Hash, h: Hash) {
      Next(p, h) && forall h' | Next(p, h') :: h <= h'
    }

    ghost predicate Last(p: Hash) {
      forall h :: !Next(p, h)
    }

    ghost predicate Follows(path: seq<Hash>, i: nat) {
      && 0 < i < |path| && path[i - 1] in pool && path[i] in pool
      && pool[path[i]].parent == Some(path[i - 1]) && pool[path[i]].number == pool[path[i - 1]].number + 1
    }

    /** Each block follows the one before it. */
    ghost predicate Chain(path: seq<Hash>) {
      && path != [] && (forall i | 0 <= i < |path| :: path[i] in pool)
      && forall i | 0 < i < |path| :: Follows(path, i)
    }

    ghost predicate BestStep(path: seq<Hash>, i: nat) {
      0 < i < |path| && Best(path[i - 1], path[i])
    }

    /** From the first block, always the smallest child, as far as it goes. */
    ghost predicate Greedy(path: seq<Hash>) {
      Chain(path) && (forall i | 0 < i < |path| :: BestStep(path, i)) && Last(path[|path| - 1])
    }
  }

  lemma {:induction false} GreedyAgree(v: View, a: seq<Hash>, b: seq<Hash>, i: nat)
    requires v.Greedy(a) && v.Greedy(b) && a[0] == b[0] && i < |a|
    ensures i < |b| && a[i] == b[i]
  {
    if i > 0 {
      GreedyAgree(v, a, b, i - 1);
      assert v.BestStep(a, i);
      assert i < |b| by {
        assert v.Next(b[i - 1], a[i]);
      }
      assert v.BestStep(b, i);
    }
  }

  /** There is only one greedy path from a block. */
  lemma GreedyUnique(v: View, a: seq<Hash>, b: seq<Hash>)
    requires v.Greedy(a) && v.Greedy(b) && a[0] == b[0]
    ensures a == b
  {
    GreedyAgree(v, a, b, |a| - 1);
    GreedyAgree(v, b, a, |b| - 1);
    forall i | 0 <= i < |a| ensures a[i] == b[i] {
      GreedyAgree(v, a, b, i);
    }
  }

  lemma {:induction false} ChainNumber(v: View, path: seq<Hash>, i: nat)
    requires v.Chain(path) && i < |path|
    ensures v.pool[path[i]].number == v.pool[path[0]].number + i
  {
    if i > 0 {
      ChainNumber(v, path, i - 1);
      assert v.Follows(path, i);
    }
  }

  lemma {:induction false} ChainsBackwards(v: View, a: seq<Hash>, b: seq<Hash>, k: nat)
    requires v.Chain(a) && v.Chain(b) && a[|a| - 1] == b[|b| - 1] && k < |a| && k < |b|
    ensures a[|a| - 1 - k] == b[|b| - 1 - k]
  {
    if k > 0 {
      ChainsBackwards(v, a, b, k - 1);
      assert v.Follows(a, |a| - k) && v.Follows(b, |b| - k);
    }
  }

  /** Two chains that start at the same height and end at the same block start at the same block. */
  lemma ChainsMeet(v: View, a: seq<Hash>, b: seq<Hash>)
    requires v.Chain(a) && v.Chain(b) && a[|a| - 1] == b[|b| - 1] && v.pool[a[0]].number == v.pool[b[0]].number
    ensures a[0] == b[0]
  {
    ChainNumber(v, a, |a| - 1);
    ChainNumber(v, b, |b| - 1);
    ChainsBackwards(v, a, b, |a| - 1);
  }

  // ---------- The pool and its index ----------

  function Digests(digest: map<nat, seq<Hash>>, n: nat): seq<Hash> {
    if n in digest then digest[n] else []
  }

  /** Blocks are under their hashes, and listed by height (the start block need not be). */
  ghost predicate Indexed(pool: Pool, digest: map<nat, seq<Hash>>, start: Block) {
    && (forall h | h in pool :: pool[h].hash == h && h != NO_HASH && (h == start.hash || h in Digests(digest, pool[h].number)))
    && (forall n, h | h in Digests(digest, n) :: h in pool && pool[h].number == n)
    && start.hash in pool && pool[start.hash] == start
  }

  /** The node's chain is `path`, and it knows the hash at each height of it. */
  ghost predicate OnChain(v: View, start: Block, heights: map<nat, Hash>, current: Block, path: seq<Hash>) {
    && v.Chain(path) && path[0] == start.hash && start.hash in v.pool && v.pool[start.hash] == start
    && current == v.pool[path[|path| - 1]]
    && Recorded(heights, start.number, path, 0)
  }

  ghost predicate BestBut(v: View, p: Hash, h: Hash, b: Hash) {
    v.Next(p, h) && forall h' | v.Next(p, h') :: h' == b || h <= h'
  }

  ghost predicate LastBut(v: View, p: Hash, b: Hash) {
    forall h | v.Next(p, h) :: h == b
  }

  ghost predicate BestButStep(v: View, path: seq<Hash>, i: nat, b: Hash) {
    0 < i < |path| && BestBut(v, path[i - 1], path[i], b)
  }

  /** Greedy, except that block `b` has not been looked at yet. */
  ghost predicate GreedyBut(v: View, path: seq<Hash>, b: Hash) {
    v.Chain(path) && (forall i | 0 < i < |path| :: BestButStep(v, path, i, b)) && LastBut(v, path[|path| - 1], b)
  }

  /** Only block `b` has changed, and it has not lost signatures. */
  ghost predicate OnlyNew(v: View, v': View, b: Block) {
    && v'.required == v.required && v'.pool.Keys <= v.pool.Keys + {b.hash} && v.pool.Keys <= v'.pool.Keys
    && (forall h | h in v.pool :: v'.pool[h] == v.pool[h])
    && (forall h | h != b.hash :: Signers(v'.signs, h) == Signers(v.signs, h))
    && Signers(v.signs, b.hash) <= Signers(v'.signs, b.hash)
  }

  lemma SubsetSize<T>(a: set<T>, b: set<T>)
    requires a <= b
    ensures |a| <= |b|
  {
    var rest := b - a;
    assert b == a + rest;
  }

  lemma NextStays(v: View, v': View, b: Block, p: Hash, h: Hash)
    requires OnlyNew(v, v', b) && p in v.pool
    ensures v.Next(p, h) ==> v'.Next(p, h)
    ensures v'.Next(p, h) && h != b.hash ==> v.Next(p, h)
  {
    SubsetSize(Signers(v.signs, h), Signers(v'.signs, h));
  }

  lemma ChainGrows(v: View, v': View, b: Block, path: seq<Hash>)
    requires OnlyNew(v, v', b) && v.Chain(path)
    ensures v'.Chain(path)
  {
    forall i | 0 < i < |path| ensures v'.Follows(path, i) {
      assert v.Follows(path, i);
    }
  }

  lemma BestGrows(v: View, v': View, b: Block, p: Hash, h: Hash)
    requires OnlyNew(v, v', b) && v.Best(p, h)
    ensures BestBut(v', p, h, b.hash)
  {
    NextStays(v, v', b, p, h);
    forall h' | v'.Next(p, h') ensures h' == b.hash || h <= h' {
      NextStays(v, v', b, p, h');
    }
  }

  lemma LastGrows(v: View, v': View, b: Block, p: Hash)
    requires OnlyNew(v, v', b) && v.Last(p) && p in v.pool
    ensures LastBut(v', p, b.hash)
  {
    forall h | v'.Next(p, h) ensures h == b.hash {
      NextStays(v, v', b, p, h);
    }
  }

  lemma GreedyGrows(v: View, v': View, b: Block, path: seq<Hash>)
    requires OnlyNew(v, v', b) && v.Greedy(path)
    ensures GreedyBut(v', path, b.hash)
  {
    ChainGrows(v, v', b, path);
    forall i | 0 < i < |path| ensures BestButStep(v', path, i, b.hash) {
      assert v.BestStep(path, i);
      BestGrows(v, v', b, path[i - 1], path[i]);
    }
    LastGrows(v, v', b, path[|path| - 1]);
  }

  // ---------- What one block changes ----------

  /** The chain so far, all of it greedy, still to be extended. */
  ghost predicate Growing(v: View, path: seq<Hash>) {
    v.Chain(path) && forall i | 0 < i < |path| :: v.BestStep(path, i)
  }

  /** `b` belongs right after `path[k - 1]`, in place of what follows there. */
  ghost predicate Takes(v: View, path: seq<Hash>, b: Block, k: nat) {
    0 < k <= |path| && v.Chain(path) && v.Next(path[k - 1], b.hash) && v.pool[b.hash] == b && (k < |path| ==> b.hash < path[k])
  }

  lemma TakesIsGrowing(v: View, path: seq<Hash>, b: Block, k: nat)
    requires GreedyBut(v, path, b.hash) && Takes(v, path, b, k)
    ensures Growing(v, path[..k] + [b.hash])
  {
    var path' := path[..k] + [b.hash];
    forall i | 0 < i < |path'| ensures v.Follows(path', i) && v.BestStep(path', i) {
      if i < k {
        assert v.Follows(path, i);
        ElsewhereBest(v, path, b, k, i);
      } else {
        TakesBest(v, path, b, k);
      }
    }
  }

  lemma ElsewhereBest(v: View, path: seq<Hash>, b: Block, k: nat, i: nat)
    requires GreedyBut(v, path, b.hash) && Takes(v, path, b, k) && 0 < i < k
    ensures v.Best(path[i - 1], path[i])
  {
    ChainNumber(v, path, i - 1);
    ChainNumber(v, path, k - 1);
    assert BestButStep(v, path, i, b.hash);
  }

  lemma TakesBest(v: View, path: seq<Hash>, b: Block, k: nat)
    requires GreedyBut(v, path, b.hash) && Takes(v, path, b, k)
    ensures v.Best(path[k - 1], b.hash)
  {
    if k < |path| {
      assert BestButStep(v, path, k, b.hash);
    }
  }

  /** A block that takes no place leaves the path greedy. */
  lemma NoneTaken(v: View, path: seq<Hash>, b: Block)
    requires GreedyBut(v, path, b.hash) && (b.hash in v.pool ==> v.pool[b.hash] == b)
    requires forall k | 0 < k <= |path| :: !Takes(v, path, b, k)
    ensures v.Greedy(path)
  {
    forall i | 0 < i < |path| ensures v.BestStep(path, i) {
      assert BestButStep(v, path, i, b.hash) && !Takes(v, path, b, i);
    }
    assert LastBut(v, path[|path| - 1], b.hash) && !Takes(v, path, b, |path|);
  }

  // ---------- The node ----------

  /** The test of the fork judgement. */
  predicate Forks(current: Block, heights: map<nat, Hash>, pool: Pool, b: Block) {
    && b.number <= current.number && b.number in heights && heights[b.number] in pool
    && b.parent == pool[heights[b.number]].parent && b.hash < pool[heights[b.number]].hash
    && b.parent.Some? && b.parent.value in pool
  }

  /** `b` replaces the first block of the chain: a smaller sibling, whose parent is in the pool. */
  predicate PastStart(v: View, start: Block, b: Block) {
    && v.Eligible(b.hash) && b.number == start.number && b.hash < start.hash
    && b.parent == start.parent && b.parent.Some? && b.parent.value in v.pool
  }

  /** It would, but it cannot be put on top of its parent, and the node stops. */
  predicate Aborts(v: View, start: Block, b: Block) {
    PastStart(v, start, b) && v.pool[b.parent.value].number + 1 != b.number && b.parent.value != b.hash
  }

  /** The first block of the chain once `b` has been looked at. */
  function RootAfter(v: View, start: Block, b: Block): Block {
    if PastStart(v, start, b) then b else start
  }

  /** The current block after a fork. */
  function Landing(pool: Pool, b: Block): Block
    requires b.parent.Some? && b.parent.value in pool
  {
    if pool[b.parent.value].number + 1 == b.number then b else pool[b.parent.value]
  }

  /** A fork happens on the chain, or replaces the start block. */
  lemma ForkTakes(v: View, start: Block, heights: map<nat, Hash>, current: Block, path: seq<Hash>, b: Block)
    requires (forall h | h in v.pool :: v.pool[h].hash == h) && OnChain(v, start, heights, current, path)
    requires v.Eligible(b.hash) && v.pool[b.hash] == b && (forall n | n in heights :: n >= start.number)
    requires Forks(current, heights, v.pool, b)
    ensures if b.number == start.number then PastStart(v, start, b)
            else b.number > start.number && Takes(v, path, b, b.number - start.number) && Landing(v.pool, b) == b
    ensures Landing(v.pool, b).hash == b.hash ==> Landing(v.pool, b) == b
  {
    ChainNumber(v, path, |path| - 1);
    var k := b.number - start.number;
    assert RecordedAt(heights, start.number, path, k);
    if k > 0 {
      ChainNumber(v, path, k - 1);
      assert v.Follows(path, k);
    }
  }

  /** A block that has a place on the chain is let in. */
  lemma TakesForks(v: View, start: Block, heights: map<nat, Hash>, current: Block, path: seq<Hash>, b: Block, k: nat)
    requires OnChain(v, start, heights, current, path) && Takes(v, path, b, k)
    requires forall h | h in v.pool :: v.pool[h].hash == h
    ensures b.number == start.number + k
    ensures if k == |path| then b.number == current.number + 1 && b.parent == Some(current.hash) else Forks(current, heights, v.pool, b)
  {
    ChainNumber(v, path, |path| - 1);
    ChainNumber(v, path, k - 1);
    if k < |path| {
      assert RecordedAt(heights, start.number, path, k) && v.Follows(path, k);
    }
  }

  /** `ext` is `base` with a greedy continuation. */
  ghost predicate Continues(v: View, base: seq<Hash>, ext: seq<Hash>) {
    v.Chain(base) && v.Chain(ext) && base <= ext && forall i | |base| <= i < |ext| :: v.BestStep(ext, i)
  }

  lemma ContinuesOn(v: View, base: seq<Hash>, ext: seq<Hash>, next: Hash)
    requires Continues(v, base, ext) && v.Best(ext[|ext| - 1], next)
    ensures Continues(v, base, ext + [next])
  {
    var ext' := ext + [next];
    forall i | 0 < i < |ext'| ensures v.Follows(ext', i) && (|base| <= i ==> v.BestStep(ext', i)) {
      if i < |ext| {
        assert v.Follows(ext, i) && (|base| <= i ==> v.BestStep(ext, i));
      }
    }
  }

  /** From position `from` on, the heights from `low` up hold the hashes of the path. */
  ghost predicate Recorded(heights: map<nat, Hash>, low: nat, path: seq<Hash>, from: nat) {
    forall i: nat | from <= i < |path| :: RecordedAt(heights, low, path, i)
  }

  ghost predicate RecordedAt(heights: map<nat, Hash>, low: nat, path: seq<Hash>, i: nat)
    requires i < |path|
  {
    low + i in heights && heights[low + i] == path[i]
  }

  /** Nothing has changed up to `top`. */
  ghost predicate Kept(heights: map<nat, Hash>, heights': map<nat, Hash>, top: nat) {
    && (forall n | n in heights && n <= top :: n in heights' && heights'[n] == heights[n])
    && (forall n | n in heights' :: n in heights || n > top)
  }

  lemma RecordedOn(heights: map<nat, Hash>, low: nat, path: seq<Hash>, from: nat, next: Hash)
    requires Recorded(heights, low, path, from)
    ensures Recorded(heights[low + |path| := next], low, path + [next], from)
  {
    var heights', path' := heights[low + |path| := next], path + [next];
    forall i: nat | from <= i < |path'| ensures RecordedAt(heights', low, path', i) {
      if i < |path| {
        assert RecordedAt(heights, low, path, i);
      }
    }
  }

  /** The state of the search: `base` has been continued to `ext`, which ends at the current block. */
  ghost predicate Extending(v: View, base: seq<Hash>, ext: seq<Hash>, heights: map<nat, Hash>,
                            heights': map<nat, Hash>, current: Block) {
    && Continues(v, base, ext) && current == v.pool[ext[|ext| - 1]]
    && current.number == v.pool[base[0]].number + |ext| - 1
    && Recorded(heights', v.pool[base[0]].number, ext, |base|)
    && Kept(heights, heights', v.pool[base[0]].number + |base| - 1)
  }

  /** The search has come this far, or to its end. */
  ghost predicate Reached(v: View, base: seq<Hash>, heights: map<nat, Hash>, heights': map<nat, Hash>,
                          current: Block, done: bool) {
    exists ext :: Extending(v, base, ext, heights, heights', current) && (done ==> v.Last(current.hash))
  }

  lemma ReachedStart(v: View, base: seq<Hash>, heights: map<nat, Hash>, current: Block)
    requires v.Chain(base) && current == v.pool[base[|base| - 1]]
    ensures Reached(v, base, heights, heights, current, false)
  {
    ChainNumber(v, base, |base| - 1);
    assert Extending(v, base, base, heights, heights, current);
  }

  lemma ReachedStep(v: View, base: seq<Hash>, heights: map<nat, Hash>, heights': map<nat, Hash>, current: Block, next: Hash)
    requires (forall h | h in v.pool :: v.pool[h].hash == h)
    requires Reached(v, base, heights, heights', current, false) && v.Best(current.hash, next)
    ensures Reached(v, base, heights, heights'[current.number + 1 := next], v.pool[next], false)
  {
    var ext :| Extending(v, base, ext, heights, heights', current);
    ContinuesOn(v, base, ext, next);
    RecordedOn(heights', v.pool[base[0]].number, ext, |base|, next);
    assert Extending(v, base, ext + [next], heights, heights'[current.number + 1 := next], v.pool[next]);
  }

  lemma ReachedEnd(v: View, base: seq<Hash>, heights: map<nat, Hash>, heights': map<nat, Hash>, current: Block)
    requires Reached(v, base, heights, heights', current, false) && v.Last(current.hash)
    ensures Reached(v, base, heights, heights', current, true)
  {}

  /** A block that is let in neither way has no place on the chain. */
  lemma StaysGreedy(v: View, start: Block, heights: map<nat, Hash>, current: Block, path: seq<Hash>, b: Block)
    requires OnChain(v, start, heights, current, path) && GreedyBut(v, path, b.hash) && (b.hash in v.pool ==> v.pool[b.hash] == b)
    requires forall h | h in v.pool :: v.pool[h].hash == h
    requires v.Eligible(b.hash) ==>
               !(b.number == current.number + 1 && b.parent == Some(current.hash)) && !Forks(current, heights, v.pool, b)
    ensures v.Greedy(path)
  {
    forall k | 0 < k <= |path| ensures !Takes(v, path, b, k) {
      if Takes(v, path, b, k) {
        TakesForks(v, start, heights, current, path, b, k);
      }
    }
    NoneTaken(v, path, b);
  }

  /** A block that may replace the start block is let in. */
  lemma StartForks(v: View, start: Block, heights: map<nat, Hash>, current: Block, path: seq<Hash>, b: Block)
    requires OnChain(v, start, heights, current, path) && PastStart(v, start, b)
    ensures Forks(current, heights, v.pool, b) && !(b.number == current.number + 1 && b.parent == Some(current.hash))
  {
    ChainNumber(v, path, |path| - 1);
    assert RecordedAt(heights, start.number, path, 0);
  }

  lemma NotForked(v: View, start: Block, heights: map<nat, Hash>, current: Block, b: Block)
    requires Unsettled(v, start, heights, current, b) && b.hash in v.pool && v.pool[b.hash] == b
    requires forall h | h in v.pool :: v.pool[h].hash == h
    requires !(b.number == current.number + 1 && b.parent == Some(current.hash)) && !Forks(current, heights, v.pool, b)
    ensures Settled(v, start, heights, current) && !PastStart(v, start, b)
  {
    var path :| OnChain(v, start, heights, current, path) && GreedyBut(v, path, b.hash);
    StaysGreedy(v, start, heights, current, path, b);
    if PastStart(v, start, b) {
      StartForks(v, start, heights, current, path, b);
    }
  }

  /** `base` is a chain up to `b` from which the search can go on. */
  ghost predicate Restart(v: View, start: Block, heights: map<nat, Hash>, b: Block, base: seq<Hash>) {
    && Growing(v, base) && base[0] == start.hash && Recorded(heights, start.number, base, 0)
    && Reached(v, base, heights, heights, b, false)
  }

  ghost predicate Restarts(v: View, start: Block, heights: map<nat, Hash>, b: Block) {
    exists base :: Restart(v, start, heights, b, base)
  }

  /** The chain with `b` in its place. */
  lemma Placed(v: View, start: Block, heights: map<nat, Hash>, current: Block, path: seq<Hash>, b: Block, k: nat)
    requires OnChain(v, start, heights, current, path) && GreedyBut(v, path, b.hash) && Takes(v, path, b, k) && b.number == start.number + k
    ensures Restarts(v, start, heights[b.number := b.hash], b)
  {
    var base, heights' := path[..k] + [b.hash], heights[b.number := b.hash];
    TakesIsGrowing(v, path, b, k);
    forall i: nat | 0 <= i < |base| ensures RecordedAt(heights', start.number, base, i) {
      if i < k {
        assert RecordedAt(heights, start.number, path, i);
      }
    }
    ReachedStart(v, base, heights', b);
    assert Restart(v, start, heights', b, base);
  }

  /** `b` alone is a chain. */
  lemma PlacedFirst(v: View, heights: map<nat, Hash>, b: Block)
    requires b.hash in v.pool && v.pool[b.hash] == b
    ensures Restarts(v, b, heights[b.number := b.hash], b)
  {
    var heights' := heights[b.number := b.hash];
    assert RecordedAt(heights', b.number, [b.hash], 0);
    ReachedStart(v, [b.hash], heights', b);
    assert Restart(v, b, heights', b, [b.hash]);
  }

  lemma ForkOutcome(v: View, start: Block, heights: map<nat, Hash>, current: Block, b: Block)
    requires (forall h | h in v.pool :: v.pool[h].hash == h) && Unsettled(v, start, heights, current, b)
    requires v.Eligible(b.hash) && v.pool[b.hash] == b && (forall n | n in heights :: n >= start.number)
    requires Forks(current, heights, v.pool, b)
    ensures b.number >= start.number && Restarts(v, RootAfter(v, start, b), heights[b.number := b.hash], b)
    ensures if Aborts(v, start, b) then Landing(v.pool, b).hash != b.hash else Landing(v.pool, b) == b
  {
    var path :| OnChain(v, start, heights, current, path) && GreedyBut(v, path, b.hash);
    ForkTakes(v, start, heights, current, path, b);
    if b.number != start.number {
      Placed(v, start, heights, current, path, b, b.number - start.number);
    } else {
      PlacedFirst(v, heights, b);
    }
  }

  lemma AppendOutcome(v: View, start: Block, heights: map<nat, Hash>, current: Block, b: Block)
    requires Unsettled(v, start, heights, current, b) && (forall h | h in v.pool :: v.pool[h].hash == h)
    requires v.Eligible(b.hash) && v.pool[b.hash] == b && b.number == current.number + 1 && b.parent == Some(current.hash)
    ensures b.number > start.number && Restarts(v, start, heights[b.number := b.hash], b)
  {
    var path :| OnChain(v, start, heights, current, path) && GreedyBut(v, path, b.hash);
    ChainNumber(v, path, |path| - 1);
    Placed(v, start, heights, current, path, b, |path|);
  }

  /** The chain after the search. */
  lemma Finished(v: View, start: Block, base: seq<Hash>, heights: map<nat, Hash>, heights': map<nat, Hash>, current: Block)
    requires Growing(v, base) && base[0] == start.hash && start.hash in v.pool && v.pool[start.hash] == start
    requires (forall h | h in v.pool :: v.pool[h].hash == h)
    requires Recorded(heights, start.number, base, 0) && Reached(v, base, heights, heights', current, true)
    ensures Settled(v, start, heights', current)
  {
    var ext :| Extending(v, base, ext, heights, heights', current);
    forall i | 0 < i < |ext| ensures v.BestStep(ext, i) {
      if i < |base| {
        assert v.BestStep(base, i);
      }
    }
    forall i: nat | i < |ext| ensures RecordedAt(heights', start.number, ext, i) {
      if i < |base| {
        assert RecordedAt(heights, start.number, base, i);
      }
    }
    assert OnChain(v, start, heights', current, ext) && v.Greedy(ext);
  }

  /** No chain from the start block leads to the current one. */
  ghost predicate OffStart(v: View, start: Block, current: Block) {
    forall p | v.Chain(p) && p[0] == start.hash :: p[|p| - 1] != current.hash
  }

  /** The chain starts where it seems to start. */
  lemma SettledOff(v: View, start: Block, root: Block, heights: map<nat, Hash>, current: Block)
    requires start.hash in v.pool && v.pool[start.hash] == start && (forall h | h in v.pool :: v.pool[h].hash == h)
    requires Settled(v, root, heights, current) && root.number == start.number
    ensures OffStart(v, start, current) <==> root != start
  {
    var path :| OnChain(v, root, heights, current, path) && v.Greedy(path);
    forall p | v.Chain(p) && p[0] == start.hash ensures p[|p| - 1] == current.hash ==> root == start {
      if p[|p| - 1] == current.hash {
        ChainsMeet(v, p, path);
      }
    }
  }

  datatype Outcome = Rejected | Added | Panicked

  /** The blocks above a height. */
  ghost function Above(pool: Pool, n: nat): set<Hash> {
    set h | h in pool && pool[h].number > n
  }

  /** The pool and the signatures are what has been heard. */
  ghost predicate HeardFrom(pool: Pool, signs: Signs, start: Block, blocks: set<Block>, signatures: set<(Hash, nat)>) {
    && (forall h | h in pool :: pool[h] == start || pool[h] in blocks)
    && (forall b | b in blocks :: b.hash in pool && pool[b.hash] == b)
    && (forall h: Hash, from: nat :: from in Signers(signs, h) <==> (h, from) in signatures)
  }

  lemma IndexGrows(pool: Pool, digest: map<nat, seq<Hash>>, start: Block, b: Block)
    requires Indexed(pool, digest, start) && b.hash != NO_HASH && (b.hash in pool ==> pool[b.hash] == b)
    ensures Indexed(pool[b.hash := b], digest[b.number := Digests(digest, b.number) + [b.hash]], start)
  {
    var pool', digest' := pool[b.hash := b], digest[b.number := Digests(digest, b.number) + [b.hash]];
    forall h | h in pool' ensures h == start.hash || h in Digests(digest', pool'[h].number) {
      if h == b.hash {
        assert Digests(digest', b.number)[|Digests(digest, b.number)|] == h;
      } else if h != start.hash {
        assert h in Digests(digest, pool[h].number);
      }
    }
    forall n, h | h in Digests(digest', n) ensures h in pool' && pool'[h].number == n {
      assert h in Digests(digest, n) || (n == b.number && h == b.hash);
    }
  }

  lemma OnChainGrows(v: View, v': View, b: Block, start: Block, heights: map<nat, Hash>, current: Block, path: seq<Hash>)
    requires OnlyNew(v, v', b) && OnChain(v, start, heights, current, path)
    ensures OnChain(v', start, heights, current, path)
  {
    ChainGrows(v, v', b, path);
  }

  /** The node's chain is greedy. */
  ghost predicate Settled(v: View, start: Block, heights: map<nat, Hash>, current: Block) {
    exists path :: OnChain(v, start, heights, current, path) && v.Greedy(path)
  }

  /** It is, but for block `b`. */
  ghost predicate Unsettled(v: View, start: Block, heights: map<nat, Hash>, current: Block, b: Block) {
    exists path :: OnChain(v, start, heights, current, path) && GreedyBut(v, path, b.hash)
  }

  lemma Unsettles(v: View, v': View, b: Block, start: Block, heights: map<nat, Hash>, current: Block)
    requires OnlyNew(v, v', b) && Settled(v, start, heights, current)
    ensures Unsettled(v', start, heights, current, b)
  {
    var path :| OnChain(v, start, heights, current, path) && v.Greedy(path);
    GreedyGrows(v, v', b, path);
    OnChainGrows(v, v', b, start, heights, current, path);
  }

  /** A block without enough signatures changes nothing. */
  lemma Ignored(v: View, b: Block, start: Block, heights: map<nat, Hash>, current: Block)
    requires Unsettled(v, start, heights, current, b) && !v.Eligible(b.hash) && (b.hash in v.pool ==> v.pool[b.hash] == b)
    requires forall h | h in v.pool :: v.pool[h].hash == h
    ensures Settled(v, start, heights, current)
  {
    var path :| OnChain(v, start, heights, current, path) && GreedyBut(v, path, b.hash);
    StaysGreedy(v, start, heights, current, path, b);
  }

  /** A block has arrived. */
  lemma BlockHeard(v: View, start: Block, blocks: set<Block>, signatures: set<(Hash, nat)>, b: Block, signs: Signs)
    requires HeardFrom(v.pool, v.signs, start, blocks, signatures) && (b.hash in v.pool ==> v.pool[b.hash] == b)
    requires signs == if b.hash in v.signs then v.signs else v.signs[b.hash := {}]
    ensures HeardFrom(v.pool[b.hash := b], signs, start, blocks + {b}, signatures)
    ensures OnlyNew(v, View(v.pool[b.hash := b], signs, v.required), b)
  {
    assert forall h :: Signers(signs, h) == Signers(v.signs, h);
  }

  /** A signature has arrived, maybe before its block. */
  lemma SignHeard(v: View, start: Block, blocks: set<Block>, signatures: set<(Hash, nat)>, h: Hash, from: nat)
    requires HeardFrom(v.pool, v.signs, start, blocks, signatures)
    ensures HeardFrom(v.pool, v.signs[h := Signers(v.signs, h) + {from}], start, blocks, signatures + {(h, from)})
  {}

  /** A signature for a block that is not known yet changes nothing. */
  lemma SignSettles(v: View, root: Block, heights: map<nat, Hash>, current: Block, h: Hash, from: nat)
    requires Settled(v, root, heights, current) && (forall h | h in v.pool :: v.pool[h].hash == h)
    ensures var v' := View(v.pool, v.signs[h := Signers(v.signs, h) + {from}], v.required);
      if h in v.pool then Unsettled(v', root, heights, current, v.pool[h]) else Settled(v', root, heights, current)
  {
    var v', b := View(v.pool, v.signs[h := Signers(v.signs, h) + {from}], v.required), if h in v.pool then v.pool[h] else Block(0, None, h);
    Unsettles(v, v', b, root, heights, current);
    if h !in v.pool {
      Ignored(v', b, root, heights, current);
    }
  }

  class LightWeightNode {
    const start: Block
    const required: nat
    var current: Block
    var chainHeight2Hash: map<nat, Hash>
    var block2Sign: Signs
    var blockPool: Pool
    var height2Digest: map<nat, seq<Hash>>

    /** The first block of the chain. */
    ghost var root: Block
    ghost var blocks: set<Block>
    ghost var signatures: set<(Hash, nat)>

    function Sees(): View
      reads this
    {
      View(blockPool, block2Sign, required)
    }

    /** The pool is indexed and no height below the start is on the chain. */
    ghost predicate Pooled()
      reads this
    {
      Indexed(blockPool, height2Digest, start) && root.number == start.number && forall n | n in chainHeight2Hash :: n >= start.number
    }

    /** The chain is the greedy path from its first block. */
    ghost predicate Valid()
      reads this
    {
      Pooled() && Settled(Sees(), root, chainHeight2Hash, current)
    }

    ghost predicate Heard()
      reads this
    {
      HeardFrom(blockPool, block2Sign, start, blocks, signatures)
    }

    constructor (start: Block, required: nat)
      requires start.hash != NO_HASH
      ensures Valid() && Heard() && blocks == {} && signatures == {} && this.required == required
      ensures this.start == start && root == start && current == start
      ensures blockPool == map[start.hash := start] && block2Sign == map[]
    {
      this.start, this.required, current, root := start, required, start, start;
      chainHeight2Hash := map[start.number := start.hash];
      block2Sign, blockPool, height2Digest := map[], map[start.hash := start], map[];
      blocks, signatures := {}, {};
      new;
      assert RecordedAt(chainHeight2Hash, start.number, [start.hash], 0);
      assert OnChain(Sees(), start, chainHeight2Hash, current, [start.hash]) && Sees().Greedy([start.hash]);
    }

    /** `AddBlock`. */
    method AddBlock(b: Block) returns (ok: bool)
      modifies this`current
      ensures ok <==> b.number == old(current).number + 1 && b.parent == Some(old(current).hash)
      ensures current == if ok then b else old(current)
    {
      if b.number != current.number + 1 {
        return false;
      }
      if b.parent != Some(current.hash) {
        return false;
      }
      current := b;
      ok := true;
    }

    /** `JudgeForkValid_RollBack_withMap`. */
    method JudgeFork(b: Block) returns (ok: bool)
      requires Pooled()
      modifies this`current, this`chainHeight2Hash
      ensures ok <==> Forks(old(current), old(chainHeight2Hash), blockPool, b)
      ensures !ok ==> current == old(current) && chainHeight2Hash == old(chainHeight2Hash)
      ensures ok ==> chainHeight2Hash == old(chainHeight2Hash)[b.number := b.hash]
      ensures ok ==> current == Landing(blockPool, b)
    {
      if b.number > current.number || b.number !in chainHeight2Hash || chainHeight2Hash[b.number] !in blockPool {
        return false;
      }
      var curBlock := blockPool[chainHeight2Hash[b.number]];
      if b.parent != curBlock.parent || curBlock.hash <= b.hash {
        return false;
      }
      if b.parent.None? || b.parent.value !in blockPool {
        return false;
      }
      current := blockPool[b.parent.value];
      var added := AddBlock(b);
      chainHeight2Hash := chainHeight2Hash[b.number := b.hash];
      ok := true;
    }

    /** The inner loop of the search: the smallest child of the current block at the next height. */
    method SmallestChild(height: nat) returns (min: Hash)
      requires Pooled() && current.hash in blockPool && blockPool[current.hash] == current
      requires height == current.number + 1 > start.number
      ensures if min == NO_HASH then Sees().Last(current.hash) else Sees().Best(current.hash, min)
    {
      min := NO_HASH;
      var digests := if height in height2Digest then height2Digest[height] else [];
      for i := 0 to |digests|
        invariant min != NO_HASH ==> Sees().Next(current.hash, min)
        invariant forall j | 0 <= j < i && Sees().Next(current.hash, digests[j]) :: min <= digests[j]
      {
        var h := digests[i];
        assert h in Digests(height2Digest, height);
        var signers := if h in block2Sign then block2Sign[h] else {};
        if |signers| >= required && h in blockPool {
          var newBlock := blockPool[h];
          if newBlock.parent == Some(current.hash) && newBlock.hash < min {
            min := newBlock.hash;
          }
        }
      }
      forall h | Sees().Next(current.hash, h) ensures min <= h {
        assert h in Digests(height2Digest, height);
      }
    }

    /** The search from `base` has reached the current block. */
    ghost predicate Searching(base: seq<Hash>, heights: map<nat, Hash>, done: bool)
      reads this
    {
      && Pooled() && current.number >= start.number && current.hash in blockPool && blockPool[current.hash] == current
      && Reached(Sees(), base, heights, chainHeight2Hash, current, done)
    }

    /** One round of the outer loop of the search. */
    method ExtendOnce(ghost base: seq<Hash>, ghost heights: map<nat, Hash>) returns (more: bool)
      requires Searching(base, heights, false)
      modifies this`current, this`chainHeight2Hash
      ensures Searching(base, heights, !more)
      ensures if more then Above(blockPool, current.number) < Above(blockPool, old(current).number) else current == old(current)
    {
      var tryHeight := current.number + 1;
      var min := SmallestChild(tryHeight);
      if min == NO_HASH {
        ReachedEnd(Sees(), base, heights, chainHeight2Hash, current);
        return false;
      }
      ReachedStep(Sees(), base, heights, chainHeight2Hash, current, min);
      assert min in Above(blockPool, current.number);
      var added := AddBlock(blockPool[min]);
      chainHeight2Hash := chainHeight2Hash[tryHeight := min];
      more := true;
    }

    /** The outer loop of the search: go on to the smallest child as long as there is one. */
    method Extend(ghost base: seq<Hash>, ghost heights: map<nat, Hash>)
      requires Searching(base, heights, false)
      modifies this`current, this`chainHeight2Hash
      ensures Searching(base, heights, true)
    {
      var more := true;
      while more
        invariant Searching(base, heights, !more)
        decreases Above(blockPool, current.number), more
      {
        more := ExtendOnce(base, heights);
      }
    }

    /** `b` has just become known or signed, and has not been looked at. */
    ghost predicate Pending(b: Block)
      reads this
    {
      Pooled() && b.hash in blockPool && blockPool[b.hash] == b && Unsettled(Sees(), root, chainHeight2Hash, current, b)
    }

    /** Go on from `b`. */
    method Regrow(b: Block)
      requires Pooled() && current == b && b.hash in blockPool && blockPool[b.hash] == b && b.number >= start.number
      requires Restarts(Sees(), root, chainHeight2Hash, b) && root.hash in blockPool && blockPool[root.hash] == root
      modifies this`current, this`chainHeight2Hash
      ensures Valid()
    {
      ghost var heights := chainHeight2Hash;
      ghost var base :| Restart(Sees(), root, heights, b, base);
      Extend(base, heights);
      Finished(Sees(), root, base, heights, chainHeight2Hash, current);
    }

    /** The second way in: a fork. */
    method TryFork(b: Block) returns (r: Outcome)
      requires Pending(b) && Sees().Eligible(b.hash) && !(b.number == current.number + 1 && b.parent == Some(current.hash))
      modifies this`current, this`chainHeight2Hash, this`root
      ensures Pooled() && root == RootAfter(Sees(), old(root), b)
      ensures if Aborts(Sees(), old(root), b) then r == Panicked else r != Panicked && Valid()
    {
      ghost var heights, before := chainHeight2Hash, current;
      if Forks(before, heights, blockPool, b) {
        ForkOutcome(Sees(), root, heights, before, b);
      } else {
        NotForked(Sees(), root, heights, before, b);
      }
      var fork := JudgeFork(b);
      if !fork {
        return Rejected;
      }
      root := RootAfter(Sees(), root, b);
      if current.hash != b.hash {
        return Panicked;
      }
      Regrow(b);
      r := Added;
    }

    /** `tryAddBlockWithSig`: the chain is greedy again, from the same first block or from a smaller sibling of it. */
    method TryAdd(b: Block) returns (r: Outcome)
      requires Pending(b)
      modifies this`current, this`chainHeight2Hash, this`root
      ensures Pooled() && root == RootAfter(Sees(), old(root), b)
      ensures if Aborts(Sees(), old(root), b) then r == Panicked else r != Panicked && Valid()
    {
      var signers := if b.hash in block2Sign then block2Sign[b.hash] else {};
      if |signers| < required {
        Ignored(Sees(), b, root, chainHeight2Hash, current);
        return Rejected;
      }
      if b.number == current.number + 1 && b.parent == Some(current.hash) {
        AppendOutcome(Sees(), root, chainHeight2Hash, current, b);
      }
      var ok := AddBlock(b);
      if ok {
        chainHeight2Hash := chainHeight2Hash[b.number := b.hash];
        Regrow(b);
        return Added;
      }
      r := TryFork(b);
    }

    /** Put a block into the pool. */
    method StoreBlock(b: Block)
      modifies this`block2Sign, this`blockPool, this`height2Digest
      ensures block2Sign == if b.hash in old(block2Sign) then old(block2Sign) else old(block2Sign)[b.hash := {}]
      ensures blockPool == old(blockPool)[b.hash := b]
      ensures height2Digest == old(height2Digest)[b.number := Digests(old(height2Digest), b.number) + [b.hash]]
    {
      if b.hash !in block2Sign {
        block2Sign := block2Sign[b.hash := {}];
      }
      blockPool := blockPool[b.hash := b];
      var digests := if b.number in height2Digest then height2Digest[b.number] else [];
      height2Digest := height2Digest[b.number := digests + [b.hash]];
    }

    method ReceiveBlock(b: Block)
      requires Valid() && Heard() && b.hash != NO_HASH && (b.hash in blockPool ==> blockPool[b.hash] == b)
      modifies this`block2Sign, this`blockPool, this`height2Digest, this`blocks
      ensures Pending(b) && Heard() && blocks == old(blocks) + {b}
    {
      ghost var v, digest := Sees(), height2Digest;
      StoreBlock(b);
      blocks := blocks + {b};
      IndexGrows(v.pool, digest, start, b);
      BlockHeard(v, start, old(blocks), signatures, b, block2Sign);
      Unsettles(v, Sees(), b, root, chainHeight2Hash, current);
    }

    /** `handleLWBlockMsg`, without pruning. */
    method HandleBlock(b: Block) returns (r: Outcome)
      requires Valid() && Heard() && b.hash != NO_HASH && (b.hash in blockPool ==> blockPool[b.hash] == b)
      modifies this
      ensures Pooled() && Heard() && blocks == old(blocks) + {b} && signatures == old(signatures)
      ensures root == RootAfter(Sees(), old(root), b)
      ensures if Aborts(Sees(), old(root), b) then r == Panicked else r != Panicked && Valid()
    {
      ReceiveBlock(b);
      r := TryAdd(b);
    }

    /** Record a signature. */
    method ReceiveSign(h: Hash, from: nat)
      requires Valid() && Heard()
      modifies this`block2Sign, this`signatures
      ensures Heard() && signatures == old(signatures) + {(h, from)}
      ensures if h in blockPool then Pending(blockPool[h]) else Valid()
    {
      SignHeard(Sees(), start, blocks, signatures, h, from);
      SignSettles(Sees(), root, chainHeight2Hash, current, h, from);
      var signers := if h in block2Sign then block2Sign[h] else {};
      block2Sign := block2Sign[h := signers + {from}];
      signatures := signatures + {(h, from)};
    }

    /** `handleLWSignMsg`. */
    method HandleSign(h: Hash, from: nat) returns (r: Outcome)
      requires Valid() && Heard()
      modifies this
      ensures Pooled() && Heard() && blocks == old(blocks) && signatures == old(signatures) + {(h, from)}
      ensures root == if h in blockPool then RootAfter(Sees(), old(root), blockPool[h]) else old(root)
      ensures if h in blockPool && Aborts(Sees(), old(root), blockPool[h]) then r == Panicked else r != Panicked && Valid()
    {
      ReceiveSign(h, from);
      if h in blockPool {
        r := TryAdd(blockPool[h]);
      } else {
        r := Rejected;
      }
    }
  }

  // ---------- Convergence ----------

  lemma GreedyView(v: View, v': View, path: seq<Hash>)
    requires v.pool == v'.pool && v.required == v'.required && v'.Greedy(path)
    requires forall h :: Signers(v.signs, h) == Signers(v'.signs, h)
    ensures v.Greedy(path)
  {
    forall p, h ensures v.Next(p, h) <==> v'.Next(p, h) {}
    forall i | 0 < i < |path| ensures v.Follows(path, i) && v.BestStep(path, i) {
      assert v'.Follows(path, i) && v'.BestStep(path, i);
    }
  }

  /** Greedy chains agree exactly if they start at the same block, and so do their heads. */
  lemma SameChain(v: View, v': View, r: Block, r': Block, heights: map<nat, Hash>, heights': map<nat, Hash>,
                  current: Block, current': Block, p: seq<Hash>, q: seq<Hash>)
    requires OnChain(v, r, heights, current, p) && v.Greedy(p) && OnChain(v', r', heights', current', q) && v'.Greedy(q)
    requires v.pool == v'.pool && v.required == v'.required && (forall h :: Signers(v.signs, h) == Signers(v'.signs, h))
    requires (forall h | h in v.pool :: v.pool[h].hash == h) && r.number == r'.number
    ensures (p == q <==> r == r') && (current == current' <==> r == r')
  {
    GreedyView(v, v', q);
    if r == r' {
      GreedyUnique(v, p, q);
    } else if current == current' {
      ChainsMeet(v, p, q);
    }
  }

  lemma SameView(a: LightWeightNode, b: LightWeightNode)
    requires a.Pooled() && a.Heard() && b.Pooled() && b.Heard() && a.start == b.start
    requires a.blocks == b.blocks && a.signatures == b.signatures
    ensures a.blockPool == b.blockPool && forall h :: Signers(a.block2Sign, h) == Signers(b.block2Sign, h)
  {
    forall h ensures h in a.blockPool <==> h in b.blockPool {}
    forall h: Hash ensures Signers(a.block2Sign, h) == Signers(b.block2Sign, h) {
      forall from: nat ensures from in Signers(a.block2Sign, h) <==> from in Signers(b.block2Sign, h) {}
    }
  }

  /**
   Nodes that have heard the same blocks and signatures, in whatever orders, hold the same chain exactly if their
   chains start at the same block.
   */
  lemma Convergence(a: LightWeightNode, b: LightWeightNode, p: seq<Hash>, q: seq<Hash>)
    requires a.Valid() && a.Heard() && OnChain(a.Sees(), a.root, a.chainHeight2Hash, a.current, p) && a.Sees().Greedy(p)
    requires b.Valid() && b.Heard() && OnChain(b.Sees(), b.root, b.chainHeight2Hash, b.current, q) && b.Sees().Greedy(q)
    requires a.start == b.start && a.required == b.required && a.blocks == b.blocks && a.signatures == b.signatures
    ensures (p == q <==> a.root == b.root) && (a.current == b.current <==> a.root == b.root)
  {
    SameView(a, b);
    SameChain(a.Sees(), b.Sees(), a.root, b.root, a.chainHeight2Hash, b.chainHeight2Hash, a.current, b.current, p, q);
  }

  /** In particular they agree on the head. */
  lemma SameHead(a: LightWeightNode, b: LightWeightNode)
    requires a.Valid() && a.Heard() && b.Valid() && b.Heard() && a.start == b.start && a.required == b.required
    requires a.blocks == b.blocks && a.signatures == b.signatures
    ensures a.current == b.current <==> a.root == b.root
  {
    var p :| OnChain(a.Sees(), a.root, a.chainHeight2Hash, a.current, p) && a.Sees().Greedy(p);
    var q :| OnChain(b.Sees(), b.root, b.chainHeight2Hash, b.current, q) && b.Sees().Greedy(q);
    Convergence(a, b, p, q);
  }

  /** The chain still leads from the start block to the current one exactly if it starts there. */
  lemma OnStart(n: LightWeightNode)
    requires n.Valid()
    ensures OffStart(n.Sees(), n.start, n.current) <==> n.root != n.start
  {
    SettledOff(n.Sees(), n.start, n.root, n.chainHeight2Hash, n.current);
  }

  // ---------- The start block can be replaced ----------

  /** Who has signed `h`, going by the messages. */
  ghost function Senders(signatures: set<(Hash, nat)>, h: Hash): set<nat> {
    set s | s in signatures && s.0 == h :: s.1
  }

  /** `PastStart`, going by the messages. */
  ghost predicate Replaces(start: Block, root: Block, required: nat, blocks: set<Block>, signatures: set<(Hash, nat)>, b: Block) {
    && b.number == root.number && b.hash < root.hash && b.parent == root.parent && b.parent.Some?
    && b in blocks && |Senders(signatures, b.hash)| >= required
    && (b.parent.value == start.hash || exists c :: c in blocks && c.hash == b.parent.value)
  }

  /** `Aborts`, going by the messages. */
  ghost predicate Stops(start: Block, root: Block, required: nat, blocks: set<Block>, signatures: set<(Hash, nat)>, b: Block) {
    && Replaces(start, root, required, blocks, signatures, b) && b.parent.value != b.hash
    && forall c | c in blocks + {start} && c.hash == b.parent.value :: c.number + 1 != b.number
  }

  lemma HeardSigners(v: View, start: Block, blocks: set<Block>, signatures: set<(Hash, nat)>, h: Hash)
    requires HeardFrom(v.pool, v.signs, start, blocks, signatures)
    ensures Signers(v.signs, h) == Senders(signatures, h)
  {
    forall from: nat ensures from in Signers(v.signs, h) <==> from in Senders(signatures, h) {
      if from in Signers(v.signs, h) {
        assert (h, from) in signatures;
      }
    }
  }

  /** Whether a block replaces the first one can be read off the messages so far. */
  lemma ReplacesExactly(v: View, start: Block, root: Block, blocks: set<Block>, signatures: set<(Hash, nat)>, b: Block)
    requires HeardFrom(v.pool, v.signs, start, blocks, signatures) && (forall h | h in v.pool :: v.pool[h].hash == h)
    requires start.hash in v.pool && v.pool[start.hash] == start && b in blocks
    ensures PastStart(v, root, b) <==> Replaces(start, root, v.required, blocks, signatures, b)
    ensures Aborts(v, root, b) <==> Stops(start, root, v.required, blocks, signatures, b)
  {
    HeardSigners(v, start, blocks, signatures, b.hash);
  }

  const EXAMPLE_START := Block(1, Some(7), 5)
  const EXAMPLE_PARENT := Block(0, None, 7)
  const EXAMPLE_SIBLING := Block(1, Some(7), 3)

  /** The example node after some messages. */
  ghost predicate Told(n: LightWeightNode, root: Block, blocks: set<Block>, signatures: set<(Hash, nat)>)
    reads n
  {
    exists path :: ToldOn(n, root, blocks, signatures, path)
  }

  ghost predicate ToldOn(n: LightWeightNode, root: Block, blocks: set<Block>, signatures: set<(Hash, nat)>, path: seq<Hash>)
    reads n
  {
    && n.Pooled() && OnChain(n.Sees(), root, n.chainHeight2Hash, n.current, path) && n.Sees().Greedy(path)
    && n.Heard() && n.start == EXAMPLE_START && n.required == 2
    && n.root == root && n.blocks == blocks && n.signatures == signatures
  }

  lemma ToldValid(n: LightWeightNode, root: Block, blocks: set<Block>, signatures: set<(Hash, nat)>)
    requires Told(n, root, blocks, signatures)
    ensures n.Valid() && n.Heard() && n.start == EXAMPLE_START && n.required == 2
    ensures n.root == root && n.blocks == blocks && n.signatures == signatures
  {}

  lemma IsTold(n: LightWeightNode)
    requires n.Valid() && n.Heard() && n.start == EXAMPLE_START && n.required == 2
    ensures Told(n, n.root, n.blocks, n.signatures)
  {
    var path :| OnChain(n.Sees(), n.root, n.chainHeight2Hash, n.current, path) && n.Sees().Greedy(path);
    assert ToldOn(n, n.root, n.blocks, n.signatures, path);
  }

  method TellBlock(n: LightWeightNode, b: Block, ghost blocks: set<Block>, ghost signatures: set<(Hash, nat)>)
    requires Told(n, EXAMPLE_START, blocks, signatures) && b.hash != NO_HASH
    requires b.hash != EXAMPLE_START.hash && forall c | c in blocks :: c.hash != b.hash
    requires !Replaces(EXAMPLE_START, EXAMPLE_START, 2, blocks + {b}, signatures, b)
    modifies n
    ensures Told(n, EXAMPLE_START, blocks + {b}, signatures)
  {
    ToldValid(n, EXAMPLE_START, blocks, signatures);
    var r := n.HandleBlock(b);
    ReplacesExactly(n.Sees(), n.start, EXAMPLE_START, n.blocks, n.signatures, b);
    IsTold(n);
  }

  method TellSign(n: LightWeightNode, b: Block, from: nat, ghost blocks: set<Block>, ghost signatures: set<(Hash, nat)>)
    returns (r: Outcome)
    requires Told(n, EXAMPLE_START, blocks, signatures) && b in blocks
    modifies n
    ensures var now := signatures + {(b.hash, from)};
      if Stops(EXAMPLE_START, EXAMPLE_START, 2, blocks, now, b) then r == Panicked else
        Told(n, if Replaces(EXAMPLE_START, EXAMPLE_START, 2, blocks, now, b) then b else EXAMPLE_START, blocks, now)
  {
    ToldValid(n, EXAMPLE_START, blocks, signatures);
    r := n.HandleSign(b.hash, from);
    ReplacesExactly(n.Sees(), n.start, EXAMPLE_START, n.blocks, n.signatures, b);
    if r != Panicked {
      IsTold(n);
    }
  }

  lemma ExampleSenders()
    ensures |Senders({}, 3)| == 0 && |Senders({(3, 0)}, 3)| == 1 && |Senders({(3, 0), (3, 1)}, 3)| == 2
  {
    assert Senders({}, 3) == {} && Senders({(3, 0)}, 3) == {0};
    var both: set<(Hash, nat)> := {(3, 0), (3, 1)};
    assert (3, 0) in both && (3, 1) in both;
    assert Senders(both, 3) == {0, 1};
  }

  method StartExample() returns (n: LightWeightNode)
    ensures fresh(n) && Told(n, EXAMPLE_START, {}, {})
  {
    n := new LightWeightNode(EXAMPLE_START, 2);
    IsTold(n);
  }

  const EXAMPLE_SIGNATURES: set<(Hash, nat)> := {(3, 0), (3, 1)}

  /** Two signatures for the sibling. */
  method SignTwice(n: LightWeightNode, ghost blocks: set<Block>) returns (r: Outcome)
    requires Told(n, EXAMPLE_START, blocks, {}) && EXAMPLE_SIBLING in blocks
    modifies n
    ensures if Stops(EXAMPLE_START, EXAMPLE_START, 2, blocks, EXAMPLE_SIGNATURES, EXAMPLE_SIBLING) then r == Panicked else
      var swapped := Replaces(EXAMPLE_START, EXAMPLE_START, 2, blocks, EXAMPLE_SIGNATURES, EXAMPLE_SIBLING);
      Told(n, if swapped then EXAMPLE_SIBLING else EXAMPLE_START, blocks, EXAMPLE_SIGNATURES)
  {
    ExampleSenders();
    ghost var none: set<(Hash, nat)> := {};
    assert none + {(3, 0)} == {(3, 0)} && {(3, 0)} + {(3, 1)} == EXAMPLE_SIGNATURES;
    r := TellSign(n, EXAMPLE_SIBLING, 0, blocks, none);
    r := TellSign(n, EXAMPLE_SIBLING, 1, blocks, {(3, 0)});
  }

  /** A block with the hash of the parent, then the sibling. */
  method TellBoth(parent: Block) returns (n: LightWeightNode)
    requires parent.hash == 7 && parent.parent.None?
    ensures fresh(n) && Told(n, EXAMPLE_START, {parent, EXAMPLE_SIBLING}, {})
  {
    ExampleSenders();
    n := StartExample();
    TellBlock(n, parent, {}, {});
    assert {} + {parent} == {parent};
    TellBlock(n, EXAMPLE_SIBLING, {parent}, {});
    assert {parent} + {EXAMPLE_SIBLING} == {parent, EXAMPLE_SIBLING};
  }

  lemma ExampleReplaces(parent: Block)
    requires parent.hash == 7
    ensures var blocks := {parent, EXAMPLE_SIBLING};
            && Replaces(EXAMPLE_START, EXAMPLE_START, 2, blocks, EXAMPLE_SIGNATURES, EXAMPLE_SIBLING)
            && (Stops(EXAMPLE_START, EXAMPLE_START, 2, blocks, EXAMPLE_SIGNATURES, EXAMPLE_SIBLING) <==> parent.number != 0)
  {
    ExampleSenders();
    var blocks := {parent, EXAMPLE_SIBLING};
    assert parent in blocks && parent.hash == EXAMPLE_SIBLING.parent.value && parent in blocks + {EXAMPLE_START};
  }

  method TellThree(parent: Block) returns (n: LightWeightNode, r: Outcome)
    requires parent.hash == 7 && parent.parent.None?
    ensures fresh(n)
    ensures if parent.number == 0 then Told(n, EXAMPLE_SIBLING, {parent, EXAMPLE_SIBLING}, EXAMPLE_SIGNATURES) else r == Panicked
  {
    n := TellBoth(parent);
    r := SignTwice(n, {parent, EXAMPLE_SIBLING});
    ExampleReplaces(parent);
  }

  /** The parent, then a smaller sibling of the start block with two signatures: the chain leaves the start block. */
  method ParentFirst() returns (n: LightWeightNode)
    ensures fresh(n) && Told(n, EXAMPLE_SIBLING, {EXAMPLE_PARENT, EXAMPLE_SIBLING}, EXAMPLE_SIGNATURES)
    ensures OffStart(n.Sees(), n.start, n.current)
  {
    var r;
    n, r := TellThree(EXAMPLE_PARENT);
    ToldValid(n, EXAMPLE_SIBLING, {EXAMPLE_PARENT, EXAMPLE_SIBLING}, EXAMPLE_SIGNATURES);
    OnStart(n);
  }

  /** A parent at the wrong height, and the node stops. */
  method ParentElsewhere() returns (n: LightWeightNode, r: Outcome)
    ensures r == Panicked
  {
    n, r := TellThree(Block(4, None, 7));
  }

  /** Without its parent the sibling replaces nothing. */
  method SiblingOnly() returns (n: LightWeightNode)
    ensures fresh(n) && Told(n, EXAMPLE_START, {EXAMPLE_SIBLING}, EXAMPLE_SIGNATURES)
  {
    n := StartExample();
    TellBlock(n, EXAMPLE_SIBLING, {}, {});
    assert {} + {EXAMPLE_SIBLING} == {EXAMPLE_SIBLING};
    var r := SignTwice(n, {EXAMPLE_SIBLING});
  }

  /** The parent last: the chain stays on the start block. */
  method ParentLast() returns (n: LightWeightNode)
    ensures fresh(n) && Told(n, EXAMPLE_START, {EXAMPLE_PARENT, EXAMPLE_SIBLING}, EXAMPLE_SIGNATURES)
  {
    n := SiblingOnly();
    TellBlock(n, EXAMPLE_PARENT, {EXAMPLE_SIBLING}, EXAMPLE_SIGNATURES);
    assert {EXAMPLE_SIBLING} + {EXAMPLE_PARENT} == {EXAMPLE_PARENT, EXAMPLE_SIBLING};
  }

  /** So the order of the same messages matters to the head. */
  method HeadsDiffer() returns (a: LightWeightNode, b: LightWeightNode)
    ensures a.Valid() && a.Heard() && b.Valid() && b.Heard() && a.start == b.start && a.required == b.required
    ensures a.blocks == b.blocks && a.signatures == b.signatures && a.current != b.current
  {
    a := ParentFirst();
    b := ParentLast();
    ToldValid(a, EXAMPLE_SIBLING, {EXAMPLE_PARENT, EXAMPLE_SIBLING}, EXAMPLE_SIGNATURES);
    ToldValid(b, EXAMPLE_START, {EXAMPLE_PARENT, EXAMPLE_SIBLING}, EXAMPLE_SIGNATURES);
    SameHead(a, b);
  }
}
