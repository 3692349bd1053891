/** trie/sync.go: what one delivery does to the requests, and why a download of honest answers ends. */
module SyncProgress {
  import opened Bytes
  import opened HexEncoding
  import opened Nodes
  import opened Store
  import opened TreeEncoding
  import opened SyncState

  // ---------- What a delivery does ----------

  ghost predicate Stored(t: State, p: Hex, h: Hash32, blob: Blob) {
    InBatch(t, p, h) && t.nodes[p] == blob
  }

  /** Request `k` asks for the child `l` of the node at `path`, which request `id` was for. */
  ghost predicate Asks(t: State, id: nat, path: Hex, l: Link, k: int) {
    Live(t, k) && t.reqs[k] == Request(l.hash, path + l.step, None, Some(id), 0)
  }

  ghost predicate IsAsked(t: State, id: nat, path: Hex, l: Link) {
    exists k :: Asks(t, id, path, l, k)
  }

  /** The answer is kept: with its children to come, or for good. */
  ghost predicate Answered(s: State, id: nat, data: Blob, ls: seq<Link>, t: State)
    requires id < |s.reqs|
  {
    var r := s.reqs[id];
    if ls == [] then
      !Live(t, id) && Stored(t, r.path, r.hash, data)
    else
      Live(t, id) && t.reqs[id] == r.(data := Some(data), deps := |ls|)
  }

  /** Another request is still there, or complete and stored; one that waits for data has not changed. */
  ghost predicate StillThere(s: State, k: int, ls: seq<Link>, t: State)
    requires Live(s, k)
  {
    var r := s.reqs[k];
    || (Live(t, k) && (t.reqs[k] == r || (ls == [] && r.data.Some? && t.reqs[k] == r.(deps := t.reqs[k].deps))))
    || (ls == [] && r.data.Some? && Stored(t, r.path, r.hash, r.data.value))
  }

  /** A request is an old one, or asks for one of the missing children. */
  ghost predicate Expected(s: State, id: nat, ls: seq<Link>, t: State, k: int)
    requires id < |s.reqs|
  {
    Live(s, k) || exists l :: l in ls && Asks(t, id, s.reqs[id].path, l, k)
  }

  ghost predicate InBoth(s: State, t: State, p: Hex) {
    p in s.nodes && p in s.hashes && p in t.nodes && p in t.hashes
  }

  /** What is in the membatch was there before, or is a node that has been waited for. */
  ghost predicate Earned(s: State, t: State, p: Hex)
    requires p in t.nodes
  {
    || (InBoth(s, t, p) && t.nodes[p] == s.nodes[p] && t.hashes[p] == s.hashes[p])
    || (p in s.pending && p !in t.pending)
  }

  /** The effect of delivering `data`, with the missing children `ls`, for request `id`. */
  ghost predicate Accepted(s: State, id: nat, data: Blob, ls: seq<Link>, t: State) {
    && id < |s.reqs| && Answered(s, id, data, ls, t) && t.disk == s.disk && t.codec == s.codec
    && (forall l | l in ls :: IsAsked(t, id, s.reqs[id].path, l))
    && (forall k | Live(s, k) && k != id :: StillThere(s, k, ls, t))
    && (forall k | Live(t, k) :: Expected(s, id, ls, t, k))
    && (forall p | p in s.nodes :: p in t.nodes) && (forall p | p in t.nodes :: Earned(s, t, p))
  }

  // ---------- Requests keep their places ----------

  /** The requests of `s` come first in `t`, with other counts at most; `id` has got `data`. */
  ghost predicate Extends(s: State, id: nat, data: Blob, t: State) {
    && |s.reqs| <= |t.reqs|
    && forall k | 0 <= k < |s.reqs| ::
         t.reqs[k] == s.reqs[k].(deps := t.reqs[k].deps, data := if k == id then Some(data) else s.reqs[k].data)
  }

  /** The requests after a delivery: the old ones, and those for the missing children. */
  ghost predicate Prolonged(s: State, id: nat, data: Blob, ls: seq<Link>, t: State) {
    && id < |s.reqs| && Extends(s, id, data, t) && |t.reqs| == |s.reqs| + |ls|
    && forall i | 0 <= i < |ls| :: Asks(t, id, s.reqs[id].path, ls[i], |s.reqs| + i)
  }

  lemma {:induction false} FileAllIs(s: State, id: nat, ls: seq<Link>)
    requires id < |s.reqs|
    ensures var t := FileAll(s, id, ls);
            && |t.reqs| == |s.reqs| + |ls| && t.reqs[..|s.reqs|] == s.reqs
            && (forall i | 0 <= i < |ls| :: t.reqs[|s.reqs| + i] == ChildRequest(s, id, ls[i]))
            && t.nodes == s.nodes && t.hashes == s.hashes && t.disk == s.disk && t.codec == s.codec
    decreases |ls|
  {
    if ls != [] {
      FileAllIs(File(s, ChildRequest(s, id, ls[0])), id, ls[1..]);
    }
  }

  lemma {:induction false} FileAllLive(s: State, x: nat, ls: seq<Link>)
    requires Expanding(s, x, ls) && Live(s, x)
    ensures forall k: int :: Live(FileAll(s, x, ls), k) <==> Live(s, k) || |s.reqs| <= k < |s.reqs| + |ls|
    decreases |ls|
  {
    if ls != [] {
      assert ls == [ls[0]] + ls[1..];
      Filed(s, x, ls[0], ls[1..]);
      var r := ChildRequest(s, x, ls[0]);
      assert Clear(s, r.path) && CountsOk(s, x, x, ls);
      NotPending(s, r.path);
      FiledLive(s, r, File(s, r));
      FileAllLive(File(s, r), x, ls[1..]);
    }
  }

  // ---------- Completing a node ----------

  /** `t` is `s` after some completed requests have been stored; `id` is one of them. */
  ghost predicate Settled(s: State, id: nat, t: State) {
    SettledReqs(s, id, t) && SettledDone(s, t) && SettledBatch(s, t)
  }

  ghost predicate SettledReqs(s: State, id: nat, t: State) {
    && |t.reqs| == |s.reqs| && t.disk == s.disk && t.codec == s.codec && !Live(t, id)
    && (forall k | 0 <= k < |s.reqs| :: t.reqs[k] == s.reqs[k].(deps := t.reqs[k].deps))
    && (forall k | Live(s, k) && s.reqs[k].data.None? :: Live(t, k) && t.reqs[k] == s.reqs[k])
    && (forall k | Live(t, k) :: Live(s, k))
  }

  /** A request that has gone has left its node in the membatch. */
  ghost predicate SettledDone(s: State, t: State) {
    forall k | Live(s, k) && !Live(t, k) ::
      s.reqs[k].data.Some? && Stored(t, s.reqs[k].path, s.reqs[k].hash, s.reqs[k].data.value)
  }

  ghost predicate SettledBatch(s: State, t: State) {
    && (forall p | p in s.nodes :: p in s.hashes && p in t.nodes && p in t.hashes)
    && (forall p | p in s.nodes :: t.nodes[p] == s.nodes[p] && t.hashes[p] == s.hashes[p])
    && (forall p | p in t.nodes :: p in s.nodes || (p in s.pending && p !in t.pending))
    && (forall p | p in t.pending :: p in s.pending)
  }

  lemma BaggedBatchOnly(s: State, id: nat, t: State)
    requires IsBagged(s, id, t)
    ensures SettledBatch(s, t) && Stored(t, s.reqs[id].path, s.reqs[id].hash, s.reqs[id].data.value)
  {}

  lemma BaggedReqs(s: State, id: nat, t: State)
    requires IsBagged(s, id, t)
    ensures SettledReqs(s, id, t)
  {
    assert ParentOk(s, id);
    BaggedLive(s, id, t);
  }

  lemma BaggedSettles(s: State, id: nat, t: State)
    requires IsBagged(s, id, t)
    ensures Settled(s, id, t)
  {
    BaggedReqs(s, id, t);
    BaggedBatchOnly(s, id, t);
    BaggedLive(s, id, t);
  }

  lemma SettledTrans(s: State, a: nat, t: State, b: nat, u: State)
    requires Settled(s, a, t) && Settled(t, b, u)
    ensures Settled(s, a, u)
  {
    forall k | Live(s, k) && !Live(u, k)
      ensures s.reqs[k].data.Some? && Stored(u, s.reqs[k].path, s.reqs[k].hash, s.reqs[k].data.value)
    {
      if !Live(t, k) {
        assert Stored(t, s.reqs[k].path, s.reqs[k].hash, s.reqs[k].data.value);
      }
    }
  }

  lemma {:induction false} SettleSettles(s: State, id: nat)
    requires Expanding(s, id, []) && Live(s, id) && s.reqs[id].deps == 0
    ensures Settled(s, id, Settle(s, id))
    decreases id
  {
    assert CountsOk(s, id, id, []);
    BagStep(s, id);
    var t := Bagged(s, id);
    BaggedSettles(s, id, t);
    if s.reqs[id].parent.Some? && t.reqs[s.reqs[id].parent.value].deps == 0 {
      var q := s.reqs[id].parent.value;
      SettleSettles(t, q);
      SettledTrans(s, id, t, q, Settle(t, q));
    }
  }

  // ---------- Deliveries ----------

  /** `o` is `s` with the answer `data` put in, and `n` children still to be asked for. */
  ghost predicate Begun(s: State, id: nat, data: Blob, n: nat, o: State) {
    && Live(s, id) && |o.reqs| == |s.reqs| && s.pending.Keys !! s.nodes.Keys && s.nodes.Keys == s.hashes.Keys
    && o == s.(reqs := o.reqs) && o.reqs[id] == s.reqs[id].(data := Some(data), deps := n)
    && (forall k | 0 <= k < |s.reqs| && k != id :: o.reqs[k] == s.reqs[k])
    && forall k: int :: Live(o, k) <==> Live(s, k)
  }

  lemma OpenedBegins(s: State, id: nat, data: Blob, ls: seq<Link>)
    requires Inv(s) && Delivers(s, id, data, ls)
    ensures s.reqs[id].deps == 0 && Begun(s, id, data, |ls|, Opened(s, id, data, ls))
  {
    assert CountsOk(s, id, -1, []);
    OpenedLive(s, id, data, ls, Opened(s, id, data, ls));
  }

  lemma SettledAccepts(s: State, id: nat, data: Blob, o: State, t: State)
    requires Begun(s, id, data, 0, o) && Settled(o, id, t)
    ensures Accepted(s, id, data, [], t) && Prolonged(s, id, data, [], t)
  {
    forall k | Live(s, k) && k != id ensures StillThere(s, k, [], t) {
      assert Live(o, k) && o.reqs[k] == s.reqs[k];
    }
    assert Live(o, id) && Stored(t, o.reqs[id].path, o.reqs[id].hash, data);
  }

  /** A delivery without missing children. */
  lemma LastAccepted(s: State, id: nat, data: Blob)
    requires Inv(s) && Delivers(s, id, data, [])
    ensures var t := Process(s, id, data, []);
            Accepted(s, id, data, [], t) && Prolonged(s, id, data, [], t)
  {
    OpenedBegins(s, id, data, []);
    OpenedExpanding(s, id, data, []);
    var o := Opened(s, id, data, []);
    SettleSettles(o, id);
    SettledAccepts(s, id, data, o, Settle(o, id));
  }

  /** `t` is `o` with requests for `ls` filed. */
  ghost predicate AllFiled(o: State, id: nat, ls: seq<Link>, t: State) {
    && id < |o.reqs| && |t.reqs| == |o.reqs| + |ls| && t == o.(reqs := t.reqs, pending := t.pending)
    && (forall k | 0 <= k < |o.reqs| :: t.reqs[k] == o.reqs[k])
    && (forall i | 0 <= i < |ls| :: t.reqs[|o.reqs| + i] == ChildRequest(o, id, ls[i]))
    && forall k: int :: Live(t, k) <==> Live(o, k) || |o.reqs| <= k < |o.reqs| + |ls|
  }

  lemma FileAllFiles(o: State, id: nat, ls: seq<Link>)
    requires Expanding(o, id, ls) && Live(o, id)
    ensures AllFiled(o, id, ls, FileAll(o, id, ls))
  {
    FileAllIs(o, id, ls);
    FileAllLive(o, id, ls);
    var t := FileAll(o, id, ls);
    forall k | 0 <= k < |o.reqs| ensures t.reqs[k] == o.reqs[k] {
      assert t.reqs[..|o.reqs|][k] == o.reqs[k];
    }
  }

  lemma FiledAsks(o: State, id: nat, ls: seq<Link>, t: State)
    requires AllFiled(o, id, ls, t)
    ensures forall i | 0 <= i < |ls| :: Asks(t, id, o.reqs[id].path, ls[i], |o.reqs| + i)
    ensures forall l | l in ls :: IsAsked(t, id, o.reqs[id].path, l)
    ensures forall k | Live(t, k) :: Expected(o, id, ls, t, k)
  {
    var n, path := |o.reqs|, o.reqs[id].path;
    forall i | 0 <= i < |ls| ensures Asks(t, id, path, ls[i], n + i) {
      assert t.reqs[n + i] == ChildRequest(o, id, ls[i]);
    }
    forall l | l in ls ensures IsAsked(t, id, path, l) {
      var i :| 0 <= i < |ls| && ls[i] == l;
      assert Asks(t, id, path, ls[i], n + i);
    }
    forall k | Live(t, k) ensures Expected(o, id, ls, t, k) {
      if !Live(o, k) {
        assert ls[k - n] in ls && Asks(t, id, path, ls[k - n], n + (k - n));
      }
    }
  }

  lemma FiledAccepts(s: State, id: nat, data: Blob, ls: seq<Link>, o: State, t: State)
    requires Begun(s, id, data, |ls|, o) && AllFiled(o, id, ls, t) && ls != []
    ensures Accepted(s, id, data, ls, t) && Prolonged(s, id, data, ls, t)
  {
    FiledAsks(o, id, ls, t);
    forall k | Live(t, k) ensures Expected(s, id, ls, t, k) {
      assert Expected(o, id, ls, t, k);
    }
    forall k | Live(s, k) && k != id ensures StillThere(s, k, ls, t) {
      assert Live(o, k) && o.reqs[k] == s.reqs[k];
    }
  }

  /** A delivery with missing children. */
  lemma MoreAccepted(s: State, id: nat, data: Blob, ls: seq<Link>)
    requires Inv(s) && Delivers(s, id, data, ls) && FurtherDown(ls) && ls != []
    ensures var t := Process(s, id, data, ls);
            Accepted(s, id, data, ls, t) && Prolonged(s, id, data, ls, t)
  {
    OpenedBegins(s, id, data, ls);
    OpenedExpanding(s, id, data, ls);
    var o := Opened(s, id, data, ls);
    FileAllFiles(o, id, ls);
    FiledAccepts(s, id, data, ls, o, FileAll(o, id, ls));
  }

  /** A delivery whose missing children are further down is recorded, and its children are asked for. */
  lemma ProcessAccepts(s: State, id: nat, data: Blob, ls: seq<Link>)
    requires Inv(s) && Delivers(s, id, data, ls) && FurtherDown(ls)
    ensures var t := Process(s, id, data, ls);
            Accepted(s, id, data, ls, t) && Prolonged(s, id, data, ls, t)
  {
    if ls == [] {
      LastAccepted(s, id, data);
    } else {
      MoreAccepted(s, id, data, ls);
    }
  }

  /** And no other delivery is: the request for a child at its own path takes its place. */
  lemma ProcessAcceptsExactly(s: State, id: nat, data: Blob, ls: seq<Link>)
    requires Inv(s) && Delivers(s, id, data, ls)
    ensures Accepted(s, id, data, ls, Process(s, id, data, ls)) <==> FurtherDown(ls)
  {
    if FurtherDown(ls) {
      ProcessAccepts(s, id, data, ls);
    } else {
      var l :| l in ls && l.step == [];
      EmptyStepBreaks(s, id, data, ls, l);
      var o := Opened(s, id, data, ls);
      var t := File(o, ChildRequest(o, id, l));
      assert ls[1..] == [] && FileAll(t, id, []) == t && s.reqs[id].path + [] == s.reqs[id].path;
      assert !Live(t, id);
    }
  }

  // ---------- No path is asked for twice ----------

  ghost predicate Waits(s: State, i: int) {
    0 <= i < |s.reqs| && s.reqs[i].data.None?
  }

  /** No other request, past or present, is at or below the path of request `i`. */
  ghost predicate Apart(s: State, i: int)
    requires 0 <= i < |s.reqs|
  {
    forall j | 0 <= j < |s.reqs| && j != i :: !(s.reqs[i].path <= s.reqs[j].path)
  }

  /** Whatever waits for data is pending, and by itself. */
  ghost predicate Spread(s: State) {
    forall i | Waits(s, i) :: Live(s, i) && Apart(s, i)
  }

  /** The missing children are at different places further down. */
  ghost predicate Forked(ls: seq<Link>) {
    FurtherDown(ls) && forall i, j | 0 <= i < |ls| && 0 <= j < |ls| && ls[i].step <= ls[j].step :: i == j
  }

  lemma DeliversForked(s: State, id: nat, data: Blob, ls: seq<Link>)
    requires Delivers(s, id, data, ls) && FurtherDown(ls)
    ensures Forked(ls)
  {
    var n := s.codec(s.reqs[id].hash, data).value;
    forall i, j | 0 <= i < |ls| && 0 <= j < |ls| && ls[i].step <= ls[j].step ensures i == j {
      assert ls[i] in ls && ls[j] in ls;
      LinksApart(n, ls[i], ls[j]);
    }
  }

  lemma OldApart(s: State, id: nat, data: Blob, ls: seq<Link>, t: State, i: int)
    requires Spread(s) && Waits(s, id) && Prolonged(s, id, data, ls, t) && Waits(s, i) && i != id && StillThere(s, i, ls, t)
    ensures Live(t, i) && Apart(t, i)
  {
    assert Apart(s, i) && Apart(s, id);
    forall j | 0 <= j < |t.reqs| && j != i ensures !(t.reqs[i].path <= t.reqs[j].path) {
      if j >= |s.reqs| {
        var m := j - |s.reqs|;
        assert Asks(t, id, s.reqs[id].path, ls[m], |s.reqs| + m);
        Comparable(s.reqs[i].path, s.reqs[id].path, t.reqs[j].path);
        assert s.reqs[id].path <= s.reqs[id].path + ls[m].step;
      }
    }
  }

  lemma NewApart(s: State, id: nat, data: Blob, ls: seq<Link>, t: State, m: nat)
    requires Spread(s) && Waits(s, id) && Prolonged(s, id, data, ls, t) && Forked(ls) && m < |ls|
    ensures Live(t, |s.reqs| + m) && Apart(t, |s.reqs| + m)
  {
    var i, path := |s.reqs| + m, s.reqs[id].path;
    assert Asks(t, id, path, ls[m], i) && Apart(s, id) && ls[m] in ls;
    forall j | 0 <= j < |t.reqs| && j != i ensures !(path + ls[m].step <= t.reqs[j].path) {
      if j >= |s.reqs| {
        assert Asks(t, id, path, ls[j - |s.reqs|], |s.reqs| + (j - |s.reqs|));
        PrefixUnder(path, ls[m].step, ls[j - |s.reqs|].step);
      } else {
        NotFurther(path, ls[m].step, s.reqs[j].path);
        assert t.reqs[j].path == s.reqs[j].path;
      }
    }
  }

  lemma NotFurther(path: Hex, step: Hex, p: Hex)
    requires step != [] && (p == path || !(path <= p))
    ensures !(path + step <= p)
  {
    if path + step <= p {
      PathsChain(path, path + step, p);
    }
  }

  lemma PathsChain(a: Hex, b: Hex, c: Hex)
    requires a <= b && b <= c
    ensures a <= c
  {
    assert c[..|a|] == b[..|a|];
  }

  lemma DeliveredSpread(s: State, id: nat, data: Blob, ls: seq<Link>, t: State)
    requires Spread(s) && Waits(s, id) && Prolonged(s, id, data, ls, t) && Forked(ls)
    requires forall k | Live(s, k) && k != id :: StillThere(s, k, ls, t)
    ensures Spread(t)
  {
    forall i | Waits(t, i) ensures Live(t, i) && Apart(t, i) {
      if i < |s.reqs| {
        assert t.reqs[i].data == if i == id then Some(data) else s.reqs[i].data;
        OldApart(s, id, data, ls, t, i);
      } else {
        NewApart(s, id, data, ls, t, i - |s.reqs|);
      }
    }
  }

  // ---------- Honest answers ----------

  datatype Offer = Offer(hash: Hash32, blob: Blob)

  /** What the peers have: a node for each path. */
  type Source = map<Hex, Offer>

  /** Every child that a node of the source refers to is in the source, further down. */
  ghost predicate Serves(codec: Codec, src: Source) {
    forall p | p in src :: codec(src[p].hash, src[p].blob).Ok? && Reaches(src, p, codec(src[p].hash, src[p].blob).value)
  }

  ghost predicate Reaches(src: Source, p: Hex, n: Node) {
    forall l | IsLink(n, l) :: l.step != [] && p + l.step in src && src[p + l.step].hash == l.hash
  }

  ghost predicate Agrees(r: Request, src: Source) {
    r.path in src && src[r.path].hash == r.hash && (r.data.Some? ==> r.data.value == src[r.path].blob)
  }

  ghost predicate FromSource(src: Source, p: Hex, h: Hash32, blob: Blob) {
    p in src && src[p] == Offer(h, blob)
  }

  /** Everything asked for is in the source, and everything kept comes from there. */
  ghost predicate Truthful(s: State, src: Source) {
    && (forall i | 0 <= i < |s.reqs| :: Agrees(s.reqs[i], src))
    && (forall p | p in s.nodes :: p in s.hashes && FromSource(src, p, s.hashes[p], s.nodes[p]))
  }

  /** The database holds what it held before, and nodes of the source. */
  ghost predicate Topped(base: Store, disk: Store, src: Source) {
    forall h | h in disk :: (h in base && disk[h] == base[h]) || exists p :: FromSource(src, p, h, disk[h])
  }

  ghost predicate Honest(s: State, src: Source, base: Store, root: Hash32) {
    && Inv(s) && Spread(s) && Truthful(s, src) && Serves(s.codec, src) && Topped(base, s.disk, src) && Wanted(s, root)
  }

  ghost predicate HonestDelivery(s: State, id: nat, src: Source, ls: seq<Link>) {
    Live(s, id) && s.reqs[id].path in src && Delivers(s, id, src[s.reqs[id].path].blob, ls)
  }

  lemma HonestGoesDown(s: State, id: nat, src: Source, ls: seq<Link>)
    requires Truthful(s, src) && Serves(s.codec, src) && HonestDelivery(s, id, src, ls)
    ensures Forked(ls) && forall l | l in ls :: s.reqs[id].path + l.step in src && src[s.reqs[id].path + l.step].hash == l.hash
  {
    var r := s.reqs[id];
    assert Agrees(r, src) && Reaches(src, r.path, s.codec(r.hash, src[r.path].blob).value);
    DeliversForked(s, id, src[r.path].blob, ls);
  }

  lemma RequestsAgree(s: State, id: nat, src: Source, ls: seq<Link>, t: State)
    requires Truthful(s, src) && Serves(s.codec, src) && HonestDelivery(s, id, src, ls)
    requires Prolonged(s, id, src[s.reqs[id].path].blob, ls, t)
    ensures forall i | 0 <= i < |t.reqs| :: Agrees(t.reqs[i], src)
  {
    HonestGoesDown(s, id, src, ls);
    forall i | 0 <= i < |t.reqs| ensures Agrees(t.reqs[i], src) {
      if i < |s.reqs| {
        assert Agrees(s.reqs[i], src);
      } else {
        assert ls[i - |s.reqs|] in ls && Asks(t, id, s.reqs[id].path, ls[i - |s.reqs|], |s.reqs| + (i - |s.reqs|));
      }
    }
  }

  lemma BatchAgrees(s: State, id: nat, data: Blob, ls: seq<Link>, t: State, src: Source, p: Hex)
    requires Shape(s) && Truthful(s, src) && Accepted(s, id, data, ls, t) && Prolonged(s, id, data, ls, t) && p in t.nodes
    requires Live(s, id) && FromSource(src, s.reqs[id].path, s.reqs[id].hash, data)
    ensures p in t.hashes && FromSource(src, p, t.hashes[p], t.nodes[p])
  {
    assert Earned(s, t, p);
    if !InBoth(s, t, p) {
      var k := s.pending[p];
      assert Live(s, k) && s.reqs[k].path == p && t.reqs[k].path == p && !Live(t, k);
      if k != id {
        assert StillThere(s, k, ls, t) && Agrees(s.reqs[k], src);
      }
    }
  }

  lemma TruthfulStep(s: State, id: nat, src: Source, ls: seq<Link>, t: State)
    requires Shape(s) && Truthful(s, src) && Serves(s.codec, src) && HonestDelivery(s, id, src, ls)
    requires var data := src[s.reqs[id].path].blob; Accepted(s, id, data, ls, t) && Prolonged(s, id, data, ls, t)
    ensures Truthful(t, src)
  {
    RequestsAgree(s, id, src, ls, t);
    assert Agrees(s.reqs[id], src);
    forall p | p in t.nodes ensures p in t.hashes && FromSource(src, p, t.hashes[p], t.nodes[p]) {
      BatchAgrees(s, id, src[s.reqs[id].path].blob, ls, t, src, p);
    }
  }

  // ---------- Every honest download ends ----------

  /** The paths that have been answered. */
  function Heard(s: State): set<Hex> {
    set i | 0 <= i < |s.reqs| && s.reqs[i].data.Some? :: s.reqs[i].path
  }

  /** How many nodes of the source have not been delivered. */
  function Todo(s: State, src: Source): nat {
    |src.Keys - Heard(s)|
  }

  lemma NotHeard(s: State, k: int)
    requires Waits(s, k) && Apart(s, k)
    ensures s.reqs[k].path !in Heard(s)
  {
    forall i | 0 <= i < |s.reqs| ensures s.reqs[i].data.Some? ==> s.reqs[i].path != s.reqs[k].path {
      assert s.reqs[k].path <= s.reqs[k].path;
    }
  }

  lemma HeardStep(s: State, id: nat, data: Blob, ls: seq<Link>, t: State)
    requires Spread(s) && Waits(s, id) && Prolonged(s, id, data, ls, t)
    ensures Heard(t) == Heard(s) + {s.reqs[id].path} && s.reqs[id].path !in Heard(s)
  {
    NotHeard(s, id);
    forall i | 0 <= i < |t.reqs| ensures t.reqs[i].data.Some? ==> t.reqs[i].path in Heard(s) + {s.reqs[id].path} {
      if i >= |s.reqs| {
        assert Asks(t, id, s.reqs[id].path, ls[i - |s.reqs|], |s.reqs| + (i - |s.reqs|));
      }
    }
    forall p | p in Heard(s) ensures p in Heard(t) {
      var i :| 0 <= i < |s.reqs| && s.reqs[i].data.Some? && s.reqs[i].path == p;
      assert t.reqs[i].data.Some? && t.reqs[i].path == p;
    }
    assert t.reqs[id].data.Some? && t.reqs[id].path == s.reqs[id].path;
  }

  lemma TodoStep(s: State, id: nat, src: Source, data: Blob, ls: seq<Link>, t: State)
    requires Spread(s) && Waits(s, id) && Prolonged(s, id, data, ls, t) && s.reqs[id].path in src
    ensures Todo(t, src) == Todo(s, src) - 1
  {
    HeardStep(s, id, data, ls, t);
    assert src.Keys - Heard(t) == (src.Keys - Heard(s)) - {s.reqs[id].path};
  }

  /** An honest delivery keeps everything, and one node less is left to deliver. */
  lemma HonestStep(s: State, id: nat, src: Source, ls: seq<Link>, base: Store, root: Hash32)
    requires Honest(s, src, base, root) && HonestDelivery(s, id, src, ls)
    ensures var t := Process(s, id, src[s.reqs[id].path].blob, ls);
            Honest(t, src, base, root) && Todo(t, src) == Todo(s, src) - 1
  {
    var data := src[s.reqs[id].path].blob;
    HonestGoesDown(s, id, src, ls);
    var t := Process(s, id, data, ls);
    ProcessKeeps(s, id, data, ls);
    ProcessWants(s, id, data, ls, root);
    ProcessAccepts(s, id, data, ls);
    DeliveredSpread(s, id, data, ls, t);
    TruthfulStep(s, id, src, ls, t);
    TodoStep(s, id, src, data, ls, t);
  }

  /** So does writing out the membatch, and nothing is delivered by that. */
  lemma HonestCommit(s: State, disk: Store, src: Source, base: Store, root: Hash32)
    requires Honest(s, src, base, root) && Flushed(s, disk)
    ensures Honest(Committed(s, disk), src, base, root) && Todo(Committed(s, disk), src) == Todo(s, src)
  {
    var t := Committed(s, disk);
    CommitKeeps(s, disk);
    CommitWants(s, disk, root);
    CommittedLive(s, disk, t);
    forall i | Waits(t, i) ensures Live(t, i) && Apart(t, i) {
      assert Waits(s, i) && Live(s, i) && Apart(s, i);
    }
    forall h | h in disk ensures (h in base && disk[h] == base[h]) || exists p :: FromSource(src, p, h, disk[h]) {
      if FromBatch(s, h, disk[h]) {
        var p :| InBatch(s, p, h) && s.nodes[p] == disk[h];
        assert FromSource(src, p, h, disk[h]);
      }
    }
    assert Heard(t) == Heard(s);
  }

  /** The root is one that the source has, or need not be fetched. */
  ghost predicate HasRoot(src: Source, base: Store, root: Hash32) {
    root == EMPTY_ROOT || root in base || ([] in src && src[[]].hash == root)
  }

  lemma HonestStart(codec: Codec, src: Source, base: Store, root: Hash32)
    requires ChildClosed(codec, base) && Serves(codec, src) && HasRoot(src, base, root)
    ensures Honest(Added(Fresh(codec, base), root, []), src, base, root)
    ensures Todo(Added(Fresh(codec, base), root, []), src) == |src|
  {
    var s := Added(Fresh(codec, base), root, []);
    AddKeeps(Fresh(codec, base), root, []);
    AddWants(Fresh(codec, base), root, []);
    assert s.codec == codec && s.disk == base;
    OneRequest(s, src, root);
  }

  lemma OneRequest(s: State, src: Source, root: Hash32)
    requires s.nodes == map[] && (s.reqs == [] || s.reqs == [Request(root, [], None, None, 0)])
    requires s.reqs != [] ==> s.pending == map[[] := 0] && [] in src && src[[]].hash == root
    ensures Spread(s) && Truthful(s, src) && Todo(s, src) == |src|
  {
    assert Heard(s) == {};
    assert src.Keys - {} == src.Keys && |src.Keys| == |src|;
  }

  /** A node that the source has is waited for. */
  ghost predicate GoesOn(s: State, src: Source) {
    exists k: nat :: Live(s, k) && Waits(s, k) && Agrees(s.reqs[k], src)
  }

  /** While anything is pending, some request waits for a node that the source has. */
  lemma HonestProgress(s: State, src: Source, base: Store, root: Hash32)
    requires Honest(s, src, base, root) && s.pending != map[]
    ensures GoesOn(s, src) && Todo(s, src) > 0
  {
    assert s.pending.Keys != {};
    var p :| p in s.pending.Keys;
    assert Live(s, s.pending[p]);
    Progress(s, s.pending[p]);
    var k: nat :| Live(s, k) && s.reqs[k].data.None?;
    assert Waits(s, k) && Agrees(s.reqs[k], src);
    StillToCome(s, src, k);
  }

  lemma StillToCome(s: State, src: Source, k: int)
    requires Spread(s) && Waits(s, k) && s.reqs[k].path in src
    ensures Todo(s, src) > 0
  {
    NotHeard(s, k);
    assert s.reqs[k].path in src.Keys - Heard(s);
  }

  ghost predicate Fetches(s: State, src: Source, t: State) {
    exists id: nat, ls :: HonestDelivery(s, id, src, ls) && Ordered(s) && t == Process(s, id, src[s.reqs[id].path].blob, ls)
  }

  ghost predicate Flushes(s: State, t: State) {
    exists disk :: Flushed(s, disk) && t == Committed(s, disk)
  }

  /** A run in which every answer comes from the source, in any order, with flushes in between. */
  ghost predicate IsHonestRun(run: seq<State>, codec: Codec, base: Store, root: Hash32, src: Source) {
    && run != [] && run[0] == Added(Fresh(codec, base), root, [])
    && forall i | 0 < i < |run| :: Fetches(run[i - 1], src, run[i]) || Flushes(run[i - 1], run[i])
  }

  /** The deliveries among the first `i` steps. */
  ghost function Deliveries(run: seq<State>, src: Source, i: nat): nat
    requires i < |run|
  {
    if i == 0 then 0 else Deliveries(run, src, i - 1) + if Fetches(run[i - 1], src, run[i]) then 1 else 0
  }

  lemma HonestMove(s: State, t: State, src: Source, base: Store, root: Hash32)
    requires Honest(s, src, base, root) && (Fetches(s, src, t) || Flushes(s, t))
    ensures Honest(t, src, base, root) && Todo(t, src) == Todo(s, src) - if Fetches(s, src, t) then 1 else 0
  {
    if Fetches(s, src, t) {
      var id: nat, ls :| HonestDelivery(s, id, src, ls) && Ordered(s) && t == Process(s, id, src[s.reqs[id].path].blob, ls);
      HonestStep(s, id, src, ls, base, root);
    } else {
      var disk :| Flushed(s, disk) && t == Committed(s, disk);
      HonestCommit(s, disk, src, base, root);
    }
  }

  lemma {:induction false} HonestRunKeeps(run: seq<State>, codec: Codec, base: Store, root: Hash32, src: Source, i: nat)
    requires IsHonestRun(run, codec, base, root, src) && i < |run|
    requires ChildClosed(codec, base) && Serves(codec, src) && HasRoot(src, base, root)
    ensures Honest(run[i], src, base, root) && Deliveries(run, src, i) + Todo(run[i], src) == |src|
  {
    if i == 0 {
      HonestStart(codec, src, base, root);
    } else {
      HonestRunKeeps(run, codec, base, root, src, i - 1);
      HonestMove(run[i - 1], run[i], src, base, root);
    }
  }

  /**
   Every run on honest answers: each delivery counts one node of the source off, so there are no more deliveries
   than nodes; as long as something is pending, a node that the source has is waited for; and when nothing is
   pending, the root is known.
   */
  lemma EveryHonestRun(run: seq<State>, codec: Codec, base: Store, root: Hash32, src: Source, i: nat)
    requires IsHonestRun(run, codec, base, root, src) && i < |run|
    requires ChildClosed(codec, base) && Serves(codec, src) && HasRoot(src, base, root)
    ensures Deliveries(run, src, i) + Todo(run[i], src) == |src|
    ensures run[i].pending != map[] ==> GoesOn(run[i], src) && Deliveries(run, src, i) < |src|
    ensures run[i].pending == map[] ==> root == EMPTY_ROOT || Known(run[i], root)
  {
    HonestRunKeeps(run, codec, base, root, src, i);
    if run[i].pending != map[] {
      HonestProgress(run[i], src, base, root);
    }
  }
}
