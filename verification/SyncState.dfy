/**
 trie/sync.go: the requests of a trie download, and the invariant by which a node is stored only
 after everything below it.
 */
module SyncState {
  import opened Bytes
  import opened HexEncoding
  import opened Nodes
  import opened Store
  import opened TreeEncoding

  // ---------- References between stored nodes ----------

  /** A child referenced by hash, and the path that leads to it. */
  datatype Link = Link(step: Hex, hash: Hash32)

  /** The path below a short node, without the terminator. */
  function Tail(key: Hex): Hex {
    if HasTerm(key) then key[..|key| - 1] else key
  }

  predicate IsLink(n: Node, l: Link) {
    match n
    case ShortNode(k, v, _) => v == HashNode(l.hash) && l.step == Tail(k)
    case FullNode(cs, _) => |l.step| == 1 && l.step[0] < |cs| && cs[l.step[0]] == HashNode(l.hash)
    case _ => false
  }

  /** How the bytes stored under a hash are read: nothing here depends on the encoding. */
  type Codec = (Hash32, Bytes) -> Result<Node>

  /** The blob stored under `hash` references `l`. */
  predicate Refers(codec: Codec, hash: Hash32, blob: Bytes, l: Link) {
    var n := codec(hash, blob);
    n.Ok? && IsLink(n.value, l)
  }

  /** No extension with an empty key, as in every trie in minimal form. */
  predicate WellKeyed(n: Node) {
    n.ShortNode? && n.val.HashNode? ==> Tail(n.key) != []
  }

  lemma LinksApart(n: Node, l: Link, m: Link)
    requires IsLink(n, l) && IsLink(n, m)
    ensures l.step <= m.step ==> l == m
    ensures WellKeyed(n) ==> l.step != []
    ensures l.step == [] ==> l == m
  {
    if n.FullNode? && l.step <= m.step {
      assert l.step[0] == m.step[0];
      assert l.step == m.step;
    }
  }

  // ---------- The scheduler ----------

  /** Requests are named by their place in the order of creation, as by a pointer. */
  datatype Request = Request(hash: Hash32, path: Hex, data: Option<Blob>, parent: Option<nat>, deps: int)

  /** `pending` is nodeReqs, `nodes` and `hashes` are the membatch, `disk` is the database. */
  datatype State = State(codec: Codec, reqs: seq<Request>, pending: map<Hex, nat>,
                         nodes: map<Hex, Blob>, hashes: map<Hex, Hash32>, disk: Store)

  predicate Ordered(s: State) {
    forall i | 0 <= i < |s.reqs| :: s.reqs[i].parent.Some? ==> s.reqs[i].parent.value < i
  }

  predicate Live(s: State, id: int) {
    0 <= id < |s.reqs| && s.reqs[id].path in s.pending && s.pending[s.reqs[id].path] == id
  }

  predicate IsKid(s: State, id: int, k: int) {
    Live(s, k) && s.reqs[k].parent == Some(id)
  }

  /** The uncommitted child requests of `id`. */
  function Kids(s: State, id: int): set<int> {
    set k: int | 0 <= k < |s.reqs| && IsKid(s, id, k)
  }

  ghost predicate InBatch(s: State, p: Hex, h: Hash32) {
    p in s.nodes && p in s.hashes && s.hashes[p] == h
  }

  /** Completed in this sync, or in the database. */
  ghost predicate Known(s: State, h: Hash32) {
    h in s.disk || exists p :: InBatch(s, p, h)
  }

  /** Neither in the membatch nor in the database: to be requested. */
  predicate Unknown(s: State, path: Hex, l: Link) {
    path + l.step !in s.nodes && l.hash !in s.disk
  }

  ghost predicate Awaited(s: State, id: int, h: Hash32) {
    exists k :: IsKid(s, id, k) && s.reqs[k].hash == h
  }

  ghost predicate ChildClosed(codec: Codec, disk: Store) {
    forall h, l | h in disk && Refers(codec, h, disk[h], l) :: l.hash in disk
  }

  ghost predicate BatchClosed(s: State) {
    forall p, l | p in s.nodes && p in s.hashes && Refers(s.codec, s.hashes[p], s.nodes[p], l) :: Known(s, l.hash)
  }

  // ---------- The invariant ----------

  ghost predicate Shape(s: State) {
    && Ordered(s) && s.nodes.Keys == s.hashes.Keys && s.pending.Keys !! s.nodes.Keys
    && (forall p | p in s.pending :: s.pending[p] < |s.reqs| && s.reqs[s.pending[p]].path == p)
    && (forall k {:trigger ParentOk(s, k)} | Live(s, k) :: ParentOk(s, k))
  }

  /** A request waits for its children only once it has been downloaded itself. */
  ghost predicate ParentOk(s: State, k: int)
    requires Live(s, k)
  {
    var q := s.reqs[k].parent;
    q.Some? ==> Live(s, q.value) && s.reqs[q.value].data.Some?
  }

  /** What `rest` adds to the dependencies of the request `x` that is being expanded. */
  function Extra(id: int, x: int, rest: seq<Link>): nat {
    if id == x then |rest| else 0
  }

  ghost predicate CountsOk(s: State, id: int, x: int, rest: seq<Link>)
    requires 0 <= id < |s.reqs|
  {
    && s.reqs[id].deps == |Kids(s, id)| + Extra(id, x, rest)
    && (id != x ==> (s.reqs[id].data.Some? <==> s.reqs[id].deps > 0))
    && (id == x ==> s.reqs[id].data.Some?)
  }

  ghost predicate Counted(s: State, x: int, rest: seq<Link>) {
    forall id {:trigger CountsOk(s, id, x, rest)} | Live(s, id) :: CountsOk(s, id, x, rest)
  }

  /** The request `id` has been downloaded, and its node references `l`. */
  ghost predicate Downloaded(s: State, id: int, l: Link) {
    Live(s, id) && s.reqs[id].data.Some? && Refers(s.codec, s.reqs[id].hash, s.reqs[id].data.value, l)
  }

  /** The reference is stored, requested, or about to be requested. */
  ghost predicate Pursued(s: State, id: int, l: Link, x: int, rest: seq<Link>) {
    Known(s, l.hash) || Awaited(s, id, l.hash) || (id == x && l in rest)
  }

  ghost predicate Followed(s: State, x: int, rest: seq<Link>) {
    forall id, l {:trigger Pursued(s, id, l, x, rest)} | Downloaded(s, id, l) :: Pursued(s, id, l, x, rest)
  }

  /** Nothing is stored or requested at or below the path. */
  ghost predicate Vacant(s: State, path: Hex, but: int) {
    && (forall p | p in s.nodes :: !(path <= p))
    && (forall id | Live(s, id) && id != but :: !(path <= s.reqs[id].path))
  }

  ghost predicate Untouched(s: State) {
    forall id | Live(s, id) && s.reqs[id].data.None? :: Vacant(s, s.reqs[id].path, id)
  }

  /** No request that is still to be downloaded is at or above the path. */
  ghost predicate Reached(s: State, path: Hex) {
    forall id | Live(s, id) && s.reqs[id].data.None? :: !(s.reqs[id].path <= path)
  }

  /** A request can be filed at the path. */
  ghost predicate Clear(s: State, path: Hex) {
    Vacant(s, path, -1) && Reached(s, path)
  }

  ghost predicate Room(s: State, x: int, rest: seq<Link>) {
    && (rest != [] ==> Live(s, x))
    && (forall i | 0 <= i < |rest| :: Clear(s, s.reqs[x].path + rest[i].step))
    && (forall i, j | 0 <= i < |rest| && 0 <= j < |rest| && rest[i].step <= rest[j].step :: i == j)
  }

  /** The invariant while request `x` is being expanded and `rest` are its references still to be filed. */
  ghost predicate Expanding(s: State, x: int, rest: seq<Link>) {
    && Shape(s) && Counted(s, x, rest) && Followed(s, x, rest) && Untouched(s) && Room(s, x, rest)
    && BatchClosed(s) && ChildClosed(s.codec, s.disk)
  }

  /** The invariant between calls. */
  ghost predicate Inv(s: State) {
    Expanding(s, -1, [])
  }

  // ---------- Steps ----------

  /** `scheduleNodeRequest`. */
  function File(s: State, req: Request): State {
    s.(reqs := s.reqs + [req], pending := s.pending[req.path := |s.reqs|])
  }

  function ChildRequest(s: State, id: nat, l: Link): Request
    requires id < |s.reqs|
  {
    Request(l.hash, s.reqs[id].path + l.step, None, Some(id), 0)
  }

  function FileAll(s: State, id: nat, ls: seq<Link>): (s': State)
    requires id < |s.reqs|
    decreases |ls|
  {
    if ls == [] then s else FileAll(File(s, ChildRequest(s, id, ls[0])), id, ls[1..])
  }

  /** Store the node of `id`, and count it off at its parent. */
  function Bagged(s: State, id: nat): (t: State)
    requires id < |s.reqs| && Ordered(s)
    ensures Ordered(t) && |t.reqs| == |s.reqs|
  {
    var r := s.reqs[id];
    var stored := s.(nodes := s.nodes[r.path := if r.data.Some? then r.data.value else []], hashes := s.hashes[r.path := r.hash],
                     pending := s.pending - {r.path});
    match r.parent
    case None => stored
    case Some(q) => stored.(reqs := s.reqs[q := s.reqs[q].(deps := s.reqs[q].deps - 1)])
  }

  // ---------- Filing a request ----------

  /** `t` is `s` with the new request `r` filed. */
  ghost predicate IsFiled(s: State, r: Request, t: State) {
    && Shape(s) && t == File(s, r) && r.path !in s.pending && r.path !in s.nodes
    && r.data.None? && r.deps == 0
    && (r.parent.Some? ==> Live(s, r.parent.value) && s.reqs[r.parent.value].data.Some?)
  }

  lemma FiledLive(s: State, r: Request, t: State)
    requires IsFiled(s, r, t)
    ensures forall id: int :: Live(t, id) <==> Live(s, id) || id == |s.reqs|
    ensures Shape(t)
  {
    forall id: int ensures Live(t, id) <==> Live(s, id) || id == |s.reqs| {}
    forall k | Live(t, k) ensures ParentOk(t, k) {
      assert k < |s.reqs| ==> ParentOk(s, k);
    }
  }

  lemma FiledKid(s: State, r: Request, t: State, id: int, k: int)
    requires IsFiled(s, r, t)
    ensures IsKid(t, id, k) <==> IsKid(s, id, k) || (k == |s.reqs| && r.parent == Some(id))
  {
    FiledLive(s, r, t);
  }

  lemma FiledKids(s: State, r: Request, t: State, id: int)
    requires IsFiled(s, r, t)
    ensures |Kids(t, id)| == |Kids(s, id)| + (if r.parent == Some(id) then 1 else 0)
  {
    var added := if r.parent == Some(id) then {|s.reqs|} else {};
    forall k: int ensures k in Kids(t, id) <==> k in Kids(s, id) + added {
      FiledKid(s, r, t, id, k);
    }
    assert Kids(t, id) == Kids(s, id) + added;
  }

  lemma NewHasNoKids(s: State, r: Request, t: State)
    requires IsFiled(s, r, t)
    ensures |Kids(t, |s.reqs|)| == 0
  {
    FiledLive(s, r, t);
    assert Kids(t, |s.reqs|) == {};
  }

  lemma FiledKnown(s: State, r: Request, t: State, h: Hash32)
    requires IsFiled(s, r, t)
    ensures Known(t, h) <==> Known(s, h)
  {
    forall p ensures InBatch(t, p, h) <==> InBatch(s, p, h) {}
  }

  /** Filing `r` takes the first of the references `ls` of `x`, or none. */
  ghost predicate Takes(r: Request, x: int, ls: seq<Link>, rest: seq<Link>) {
    if r.parent.Some? then
      r.parent.value == x && ls != [] && ls[0].hash == r.hash && rest == ls[1..]
    else
      rest == ls
  }

  lemma FiledCounted(s: State, r: Request, t: State, x: int, ls: seq<Link>, rest: seq<Link>)
    requires Counted(s, x, ls) && IsFiled(s, r, t) && Takes(r, x, ls, rest) && x < |s.reqs|
    ensures Counted(t, x, rest)
  {
    FiledLive(s, r, t);
    forall id | Live(t, id) ensures CountsOk(t, id, x, rest) {
      if id == |s.reqs| {
        NewHasNoKids(s, r, t);
      } else {
        FiledKids(s, r, t, id);
        assert CountsOk(s, id, x, ls);
      }
    }
  }

  lemma FiledFollowed(s: State, r: Request, t: State, x: int, ls: seq<Link>, rest: seq<Link>)
    requires Followed(s, x, ls) && IsFiled(s, r, t) && Takes(r, x, ls, rest)
    ensures Followed(t, x, rest)
  {
    FiledLive(s, r, t);
    forall id, m | Downloaded(t, id, m) ensures Pursued(t, id, m, x, rest) {
      assert Downloaded(s, id, m) && Pursued(s, id, m, x, ls);
      FiledKnown(s, r, t, m.hash);
      FiledAwaited(s, r, t, id, m.hash);
    }
  }

  lemma FiledAwaited(s: State, r: Request, t: State, id: int, h: Hash32)
    requires IsFiled(s, r, t)
    ensures Awaited(s, id, h) || (r.parent == Some(id) && r.hash == h) ==> Awaited(t, id, h)
  {
    if k :| IsKid(s, id, k) && s.reqs[k].hash == h {
      FiledKid(s, r, t, id, k);
      assert IsKid(t, id, k) && t.reqs[k].hash == h;
    }
    if r.parent == Some(id) && r.hash == h {
      FiledKid(s, r, t, id, |s.reqs|);
    }
  }

  lemma FiledVacant(s: State, r: Request, t: State, path: Hex, but: int)
    requires IsFiled(s, r, t) && Vacant(s, path, but) && !(path <= r.path)
    ensures Vacant(t, path, but)
  {
    FiledLive(s, r, t);
  }

  lemma FiledUntouched(s: State, r: Request, t: State)
    requires IsFiled(s, r, t) && Untouched(s) && Clear(s, r.path)
    ensures Untouched(t)
  {
    FiledLive(s, r, t);
    forall id | Live(t, id) && t.reqs[id].data.None? ensures Vacant(t, t.reqs[id].path, id) {
      if id == |s.reqs| {
        assert Vacant(t, r.path, id);
      } else {
        FiledVacant(s, r, t, s.reqs[id].path, id);
      }
    }
  }

  lemma FiledClear(s: State, r: Request, t: State, path: Hex)
    requires IsFiled(s, r, t) && Clear(s, path) && !(r.path <= path) && !(path <= r.path)
    ensures Clear(t, path)
  {
    FiledLive(s, r, t);
  }

  lemma FiledRoomAt(s: State, x: nat, l: Link, rest: seq<Link>, t: State, i: nat)
    requires Room(s, x, [l] + rest) && Live(s, x) && IsFiled(s, ChildRequest(s, x, l), t) && i < |rest|
    ensures Clear(t, s.reqs[x].path + rest[i].step)
  {
    var path, ls := s.reqs[x].path, [l] + rest;
    assert rest[i] == ls[i + 1] && ls[0] == l;
    PrefixUnder(path, l.step, rest[i].step);
    PrefixUnder(path, rest[i].step, l.step);
    FiledClear(s, ChildRequest(s, x, l), t, path + rest[i].step);
  }

  lemma FiledRoom(s: State, x: nat, l: Link, rest: seq<Link>, t: State)
    requires Room(s, x, [l] + rest) && Live(s, x) && IsFiled(s, ChildRequest(s, x, l), t)
    ensures Room(t, x, rest)
  {
    var r, ls := ChildRequest(s, x, l), [l] + rest;
    assert Live(t, x) by {
      FiledLive(s, r, t);
    }
    var path := s.reqs[x].path;
    forall i | 0 <= i < |rest| ensures Clear(t, path + rest[i].step) {
      FiledRoomAt(s, x, l, rest, t, i);
    }
    forall i, j | 0 <= i < |rest| && 0 <= j < |rest| && rest[i].step <= rest[j].step ensures i == j {
      assert rest[i] == ls[i + 1] && rest[j] == ls[j + 1];
    }
  }

  lemma PrefixUnder(p: Hex, a: Hex, b: Hex)
    ensures p + a <= p + b <==> a <= b
  {
    if p + a <= p + b {
      assert (p + a)[|p|..] == a && (p + b)[|p|..|p| + |a|] == b[..|a|];
      assert (p + b)[..|p + a|] == p + a;
    }
    if a <= b {
      assert (p + b)[..|p + a|] == p + b[..|a|];
    }
  }

  lemma FiledBatch(s: State, r: Request, t: State)
    requires IsFiled(s, r, t) && BatchClosed(s)
    ensures BatchClosed(t)
  {
    forall p, l | p in t.nodes && Refers(t.codec, t.hashes[p], t.nodes[p], l) ensures Known(t, l.hash) {
      FiledKnown(s, r, t, l.hash);
    }
  }

  lemma NotPending(s: State, path: Hex)
    requires Shape(s) && Clear(s, path)
    ensures path !in s.pending && path !in s.nodes
  {
    if path in s.pending {
      assert Live(s, s.pending[path]);
    }
    assert path <= path;
  }

  lemma Filed(s: State, x: nat, l: Link, rest: seq<Link>)
    requires Expanding(s, x, [l] + rest)
    ensures Expanding(File(s, ChildRequest(s, x, l)), x, rest)
  {
    assert Live(s, x) && ([l] + rest)[0] == l;
    assert CountsOk(s, x, x, [l] + rest);
    var r := ChildRequest(s, x, l);
    var t := File(s, r);
    assert Clear(s, r.path);
    NotPending(s, r.path);
    FiledLive(s, r, t);
    FiledCounted(s, r, t, x, [l] + rest, rest);
    FiledFollowed(s, r, t, x, [l] + rest, rest);
    FiledUntouched(s, r, t);
    FiledRoom(s, x, l, rest, t);
    FiledBatch(s, r, t);
  }

  // ---------- Storing a completed node ----------

  ghost predicate IsBagged(s: State, id: nat, t: State) {
    Shape(s) && Live(s, id) && s.reqs[id].data.Some? && |Kids(s, id)| == 0 && t == Bagged(s, id)
  }

  lemma BaggedLive(s: State, id: nat, t: State)
    requires IsBagged(s, id, t)
    ensures forall k: int :: Live(t, k) <==> Live(s, k) && k != id
    ensures Shape(t)
  {
    forall k: int ensures Live(t, k) <==> Live(s, k) && k != id {}
    forall k | Live(t, k) ensures ParentOk(t, k) {
      assert ParentOk(s, k);
      assert IsKid(s, id, k) ==> k in Kids(s, id);
    }
  }

  lemma BaggedKids(s: State, id: nat, t: State, k: int)
    requires IsBagged(s, id, t)
    ensures |Kids(t, k)| == |Kids(s, k)| - (if s.reqs[id].parent == Some(k) then 1 else 0)
  {
    forall j: int ensures j in Kids(t, k) <==> j in Kids(s, k) - {id} {
      BaggedKid(s, id, t, k, j);
    }
    assert Kids(t, k) == Kids(s, k) - {id};
    assert id in Kids(s, k) <==> IsKid(s, k, id);
  }

  lemma BaggedKid(s: State, id: nat, t: State, k: int, j: int)
    requires IsBagged(s, id, t)
    ensures IsKid(t, k, j) <==> IsKid(s, k, j) && j != id
  {
    BaggedLive(s, id, t);
  }

  lemma BaggedKnown(s: State, id: nat, t: State, h: Hash32)
    requires IsBagged(s, id, t)
    ensures Known(s, h) ==> Known(t, h)
    ensures h == s.reqs[id].hash ==> Known(t, h)
  {
    assert InBatch(t, s.reqs[id].path, s.reqs[id].hash);
    if p :| InBatch(s, p, h) {
      assert InBatch(t, p, h);
    }
  }

  function ParentOf(r: Request): int {
    if r.parent.Some? then r.parent.value else -1
  }

  lemma BaggedCounted(s: State, id: nat, t: State)
    requires IsBagged(s, id, t) && Counted(s, id, [])
    ensures Counted(t, ParentOf(s.reqs[id]), [])
  {
    BaggedLive(s, id, t);
    forall k | Live(t, k) ensures CountsOk(t, k, ParentOf(s.reqs[id]), []) {
      BaggedKids(s, id, t, k);
      assert CountsOk(s, k, id, []);
    }
  }

  lemma BaggedAwaited(s: State, id: nat, t: State, k: int, h: Hash32)
    requires IsBagged(s, id, t) && Awaited(s, k, h)
    ensures Awaited(t, k, h) || Known(t, h)
  {
    BaggedKnown(s, id, t, h);
    var j :| IsKid(s, k, j) && s.reqs[j].hash == h;
    BaggedKid(s, id, t, k, j);
  }

  lemma BaggedFollowed(s: State, id: nat, t: State, x: int)
    requires IsBagged(s, id, t) && Followed(s, id, [])
    ensures Followed(t, x, [])
  {
    BaggedLive(s, id, t);
    forall k, l | Downloaded(t, k, l) ensures Pursued(t, k, l, x, []) {
      assert Downloaded(s, k, l) && Pursued(s, k, l, id, []);
      BaggedKnown(s, id, t, l.hash);
      if Awaited(s, k, l.hash) {
        BaggedAwaited(s, id, t, k, l.hash);
      }
    }
  }

  lemma NoKids(s: State, id: int, h: Hash32)
    requires |Kids(s, id)| == 0
    ensures !Awaited(s, id, h)
  {
    forall k ensures !IsKid(s, id, k) {
      assert k !in Kids(s, id);
    }
  }

  lemma BaggedBatch(s: State, id: nat, t: State)
    requires IsBagged(s, id, t) && Followed(s, id, []) && BatchClosed(s)
    ensures BatchClosed(t)
  {
    forall p, l | p in t.nodes && Refers(t.codec, t.hashes[p], t.nodes[p], l) ensures Known(t, l.hash) {
      BaggedKnown(s, id, t, l.hash);
      NoKids(s, id, l.hash);
      assert p == s.reqs[id].path ==> Downloaded(s, id, l) && Pursued(s, id, l, id, []);
    }
  }

  lemma BaggedUntouched(s: State, id: nat, t: State)
    requires IsBagged(s, id, t) && Untouched(s)
    ensures Untouched(t)
  {
    BaggedLive(s, id, t);
    forall k | Live(t, k) && t.reqs[k].data.None? ensures Vacant(t, t.reqs[k].path, k) {
      assert Vacant(s, s.reqs[k].path, k);
    }
  }

  lemma BagStep(s: State, id: nat)
    requires Expanding(s, id, []) && Live(s, id) && s.reqs[id].deps == 0
    ensures s.reqs[id].data.Some?
    ensures Expanding(Bagged(s, id), ParentOf(s.reqs[id]), [])
    ensures s.reqs[id].parent.Some? ==> Live(Bagged(s, id), s.reqs[id].parent.value)
  {
    assert CountsOk(s, id, id, []) && ParentOk(s, id);
    var t := Bagged(s, id);
    BaggedLive(s, id, t);
    BaggedCounted(s, id, t);
    BaggedFollowed(s, id, t, ParentOf(s.reqs[id]));
    BaggedBatch(s, id, t);
    BaggedUntouched(s, id, t);
  }

  /** `commitNodeRequest`: a parent left without dependencies is stored in turn. */
  function Settle(s: State, id: nat): State
    requires id < |s.reqs| && Ordered(s)
    decreases id
  {
    var t := Bagged(s, id);
    match s.reqs[id].parent
    case None => t
    case Some(q) => if t.reqs[q].deps == 0 then Settle(t, q) else t
  }

  lemma {:induction false} SettleKeeps(s: State, id: nat)
    requires Expanding(s, id, []) && Live(s, id) && s.reqs[id].deps == 0
    ensures Inv(Settle(s, id))
    decreases id
  {
    BagStep(s, id);
    var t := Bagged(s, id);
    match s.reqs[id].parent
    case None =>
    case Some(q) =>
      if t.reqs[q].deps == 0 {
        SettleKeeps(t, q);
      } else {
        ExpandedIsInv(t, q);
      }
  }

  /** A request with dependencies left needs nothing more. */
  lemma ExpandedIsInv(s: State, x: nat)
    requires Expanding(s, x, []) && Live(s, x) && s.reqs[x].deps != 0
    ensures Inv(s)
  {
    assert CountsOk(s, x, x, []);
    forall id | Live(s, id) ensures CountsOk(s, id, -1, []) {
      assert CountsOk(s, id, x, []);
    }
    forall id, l | Downloaded(s, id, l) ensures Pursued(s, id, l, -1, []) {
      assert Pursued(s, id, l, x, []);
    }
  }

  // ---------- Expanding a downloaded node ----------

  /** The references of `n` that have to be requested, in any order. */
  ghost predicate IsMissing(s: State, path: Hex, n: Node, ls: seq<Link>) {
    && (forall l :: l in ls <==> IsLink(n, l) && Unknown(s, path, l))
    && (forall i, j | 0 <= i < j < |ls| :: ls[i] != ls[j])
  }

  function Opened(s: State, id: nat, data: Blob, ls: seq<Link>): State
    requires id < |s.reqs|
  {
    s.(reqs := s.reqs[id := s.reqs[id].(data := Some(data), deps := s.reqs[id].deps + |ls|)])
  }

  /** The request `id` waits for data, and `data` is a node with the missing references `ls`. */
  ghost predicate Delivers(s: State, id: nat, data: Blob, ls: seq<Link>) {
    && Live(s, id) && s.reqs[id].data.None?
    && var n := s.codec(s.reqs[id].hash, data);
       n.Ok? && IsMissing(s, s.reqs[id].path, n.value, ls)
  }

  /** None of the missing children sits at the path of its parent. */
  ghost predicate FurtherDown(ls: seq<Link>) {
    forall l | l in ls :: l.step != []
  }

  lemma WellKeyedGoesDown(s: State, id: nat, data: Blob, ls: seq<Link>)
    requires Delivers(s, id, data, ls) && WellKeyed(s.codec(s.reqs[id].hash, data).value)
    ensures FurtherDown(ls)
  {
    forall l | l in ls ensures l.step != [] {
      LinksApart(s.codec(s.reqs[id].hash, data).value, l, l);
    }
  }

  ghost predicate IsOpened(s: State, id: nat, data: Blob, ls: seq<Link>, t: State) {
    Shape(s) && Live(s, id) && s.reqs[id].data.None? && t == Opened(s, id, data, ls)
  }

  lemma OpenedLive(s: State, id: nat, data: Blob, ls: seq<Link>, t: State)
    requires IsOpened(s, id, data, ls, t)
    ensures forall k: int :: Live(t, k) <==> Live(s, k)
    ensures Shape(t)
  {
    forall k: int ensures Live(t, k) <==> Live(s, k) {}
    forall k | Live(t, k) ensures ParentOk(t, k) {
      assert ParentOk(s, k);
    }
  }

  lemma OpenedKnown(s: State, id: nat, data: Blob, ls: seq<Link>, t: State, h: Hash32)
    requires IsOpened(s, id, data, ls, t)
    ensures Known(t, h) <==> Known(s, h)
  {
    forall p ensures InBatch(t, p, h) <==> InBatch(s, p, h) {}
  }

  lemma OpenedKids(s: State, id: nat, data: Blob, ls: seq<Link>, t: State, k: int)
    requires IsOpened(s, id, data, ls, t)
    ensures Kids(t, k) == Kids(s, k)
    ensures forall h :: Awaited(s, k, h) ==> Awaited(t, k, h)
  {
    OpenedLive(s, id, data, ls, t);
    forall j ensures IsKid(t, k, j) <==> IsKid(s, k, j) {}
    forall h | Awaited(s, k, h) ensures Awaited(t, k, h) {
      var j :| IsKid(s, k, j) && s.reqs[j].hash == h;
      assert IsKid(t, k, j) && t.reqs[j].hash == h;
    }
  }

  lemma OpenedCounted(s: State, id: nat, data: Blob, ls: seq<Link>, t: State)
    requires IsOpened(s, id, data, ls, t) && Counted(s, -1, [])
    ensures Counted(t, id, ls)
  {
    OpenedLive(s, id, data, ls, t);
    forall k | Live(t, k) ensures CountsOk(t, k, id, ls) {
      OpenedKids(s, id, data, ls, t, k);
      assert CountsOk(s, k, -1, []);
    }
  }

  lemma OpenedFollowed(s: State, id: nat, data: Blob, ls: seq<Link>, t: State)
    requires IsOpened(s, id, data, ls, t) && Followed(s, -1, []) && Untouched(s) && Delivers(s, id, data, ls)
    ensures Followed(t, id, ls)
  {
    OpenedLive(s, id, data, ls, t);
    forall k, l | Downloaded(t, k, l) ensures Pursued(t, k, l, id, ls) {
      OpenedKnown(s, id, data, ls, t, l.hash);
      if k == id {
        assert Vacant(s, s.reqs[id].path, id);
        assert l in ls || l.hash in s.disk;
      } else {
        assert Downloaded(s, k, l) && Pursued(s, k, l, -1, []);
        OpenedKids(s, id, data, ls, t, k);
      }
    }
  }

  lemma OpenedUntouched(s: State, id: nat, data: Blob, ls: seq<Link>, t: State)
    requires IsOpened(s, id, data, ls, t) && Untouched(s)
    ensures Untouched(t)
  {
    OpenedLive(s, id, data, ls, t);
    forall k | Live(t, k) && t.reqs[k].data.None? ensures Vacant(t, t.reqs[k].path, k) {
      assert Vacant(s, s.reqs[k].path, k);
    }
  }

  /** What is below an untouched request, and not its own path, is clear once it is being expanded. */
  lemma OpenedClear(s: State, id: nat, data: Blob, ls: seq<Link>, t: State, step: Hex)
    requires IsOpened(s, id, data, ls, t) && Untouched(s) && step != []
    ensures Clear(t, s.reqs[id].path + step)
  {
    OpenedLive(s, id, data, ls, t);
    var path := s.reqs[id].path;
    assert Vacant(s, path, id);
    assert path <= path + step;
    forall k | Live(t, k) && t.reqs[k].data.None? ensures !(t.reqs[k].path <= path + step) {
      assert Vacant(s, s.reqs[k].path, k);
      Comparable(s.reqs[k].path, path, path + step);
    }
  }

  lemma Comparable(a: Hex, b: Hex, c: Hex)
    ensures a <= c && b <= c ==> a <= b || b <= a
  {
    if a <= c && b <= c {
      if |a| <= |b| {
        assert b[..|a|] == c[..|a|];
      } else {
        assert a[..|b|] == c[..|b|];
      }
    }
  }

  lemma OpenedRoom(s: State, id: nat, data: Blob, ls: seq<Link>, t: State)
    requires IsOpened(s, id, data, ls, t) && Untouched(s) && Delivers(s, id, data, ls) && FurtherDown(ls)
    ensures Room(t, id, ls)
  {
    OpenedLive(s, id, data, ls, t);
    var n := s.codec(s.reqs[id].hash, data).value;
    forall i | 0 <= i < |ls| ensures Clear(t, t.reqs[id].path + ls[i].step) {
      assert ls[i] in ls;
      LinksApart(n, ls[i], ls[i]);
      OpenedClear(s, id, data, ls, t, ls[i].step);
    }
    forall i, j | 0 <= i < |ls| && 0 <= j < |ls| && ls[i].step <= ls[j].step ensures i == j {
      assert ls[i] in ls && ls[j] in ls;
      LinksApart(n, ls[i], ls[j]);
    }
  }

  lemma OpenedExpanding(s: State, id: nat, data: Blob, ls: seq<Link>)
    requires Inv(s) && Delivers(s, id, data, ls) && FurtherDown(ls)
    ensures Expanding(Opened(s, id, data, ls), id, ls)
  {
    var t := Opened(s, id, data, ls);
    OpenedLive(s, id, data, ls, t);
    OpenedCounted(s, id, data, ls, t);
    OpenedFollowed(s, id, data, ls, t);
    OpenedUntouched(s, id, data, ls, t);
    OpenedRoom(s, id, data, ls, t);
    forall p, l | p in t.nodes && Refers(t.codec, t.hashes[p], t.nodes[p], l) ensures Known(t, l.hash) {
      OpenedKnown(s, id, data, ls, t, l.hash);
    }
  }

  lemma {:induction false} FileAllKeeps(s: State, x: nat, ls: seq<Link>)
    requires Expanding(s, x, ls) && Live(s, x)
    ensures var t := FileAll(s, x, ls);
            Expanding(t, x, []) && Live(t, x) && t.reqs[x] == s.reqs[x]
    decreases |ls|
  {
    if ls != [] {
      assert ls == [ls[0]] + ls[1..];
      Filed(s, x, ls[0], ls[1..]);
      var t := File(s, ChildRequest(s, x, ls[0]));
      assert Clear(s, s.reqs[x].path + ls[0].step);
      FileAllKeeps(t, x, ls[1..]);
    }
  }

  // ---------- The calls ----------

  /** `ProcessNode` for a request that waits for data, with the answer of `children`. */
  function Process(s: State, id: nat, data: Blob, ls: seq<Link>): State
    requires id < |s.reqs| && Ordered(s)
  {
    if ls == [] && s.reqs[id].deps == 0 then
      Settle(Opened(s, id, data, []), id)
    else
      FileAll(Opened(s, id, data, ls), id, ls)
  }

  /** A delivery whose missing children are further down keeps the store child-closed and the dependency counts exact. */
  lemma ProcessKeeps(s: State, id: nat, data: Blob, ls: seq<Link>)
    requires Inv(s) && Delivers(s, id, data, ls) && FurtherDown(ls)
    ensures Inv(Process(s, id, data, ls))
  {
    var t := Opened(s, id, data, ls);
    OpenedExpanding(s, id, data, ls);
    assert CountsOk(s, id, -1, []);
    if ls == [] {
      SettleKeeps(t, id);
    } else {
      FileAllKeeps(t, id, ls);
      ExpandedIsInv(FileAll(t, id, ls), id);
    }
  }

  /** A missing child at its parent's path is the only one, and its request replaces that of the parent. */
  lemma EmptyStepBreaks(s: State, id: nat, data: Blob, ls: seq<Link>, l: Link)
    requires Ordered(s) && Delivers(s, id, data, ls) && l in ls && l.step == []
    ensures ls == [l] && !Shape(Process(s, id, data, ls))
  {
    var n := s.codec(s.reqs[id].hash, data).value;
    assert |ls| > 1 ==> ls[0] != ls[1];
    forall i | 0 <= i < |ls| ensures ls[i] == l {
      assert ls[i] in ls;
      LinksApart(n, l, ls[i]);
    }
    assert ls == [l] && ls[1..] == [];
    var started := Opened(s, id, data, ls);
    var t := File(started, ChildRequest(started, id, l));
    assert FileAll(t, id, []) == t;
    assert s.reqs[id].path + [] == s.reqs[id].path;
    assert Live(t, |s.reqs|) && !Live(t, id) && !ParentOk(t, |s.reqs|);
  }

  /** A delivery keeps the invariant exactly if no missing child sits at the path of the delivered node. */
  lemma ProcessKeepsExactly(s: State, id: nat, data: Blob, ls: seq<Link>)
    requires Inv(s) && Delivers(s, id, data, ls)
    ensures Inv(Process(s, id, data, ls)) <==> FurtherDown(ls)
  {
    if FurtherDown(ls) {
      ProcessKeeps(s, id, data, ls);
    } else {
      var l :| l in ls && l.step == [];
      EmptyStepBreaks(s, id, data, ls, l);
    }
  }

  /** `AddSubTrie` without a parent. */
  function Added(s: State, root: Hash32, path: Hex): State {
    if root == EMPTY_ROOT || path in s.nodes || root in s.disk then
      s
    else
      File(s, Request(root, path, None, None, 0))
  }

  lemma AddKeeps(s: State, root: Hash32, path: Hex)
    requires Inv(s) && Clear(s, path)
    ensures Inv(Added(s, root, path))
  {
    var r := Request(root, path, None, None, 0);
    var t := File(s, r);
    if path !in s.nodes {
      NotPending(s, path);
      FiledLive(s, r, t);
      FiledCounted(s, r, t, -1, [], []);
      FiledFollowed(s, r, t, -1, [], []);
      FiledUntouched(s, r, t);
      FiledBatch(s, r, t);
    }
  }

  /** The database after the membatch has been written to it, in some order. */
  ghost predicate Flushed(s: State, disk: Store) {
    && (forall h | h in s.disk :: h in disk)
    && (forall p | p in s.nodes && p in s.hashes :: s.hashes[p] in disk)
    && (forall h | h in disk :: (h in s.disk && disk[h] == s.disk[h]) || FromBatch(s, h, disk[h]))
  }

  ghost predicate FromBatch(s: State, h: Hash32, blob: Blob) {
    exists p :: InBatch(s, p, h) && s.nodes[p] == blob
  }

  function Committed(s: State, disk: Store): State {
    s.(disk := disk, nodes := map[], hashes := map[])
  }

  lemma CommitKeeps(s: State, disk: Store)
    requires Inv(s) && Flushed(s, disk)
    ensures Inv(Committed(s, disk))
  {
    var t := Committed(s, disk);
    CommittedLive(s, disk, t);
    CommittedClosed(s, disk, t);
    forall id | Live(t, id) ensures CountsOk(t, id, -1, []) {
      CommittedKids(s, disk, t, id);
      assert CountsOk(s, id, -1, []);
    }
    forall id, l | Downloaded(t, id, l) ensures Pursued(t, id, l, -1, []) {
      assert Downloaded(s, id, l) && Pursued(s, id, l, -1, []);
      CommittedKids(s, disk, t, id);
    }
    forall id | Live(t, id) && t.reqs[id].data.None? ensures Vacant(t, t.reqs[id].path, id) {
      assert Vacant(s, s.reqs[id].path, id);
    }
  }

  lemma CommittedLive(s: State, disk: Store, t: State)
    requires Shape(s) && t == Committed(s, disk)
    ensures forall k: int :: Live(t, k) <==> Live(s, k)
    ensures Shape(t)
  {
    forall k | Live(t, k) ensures ParentOk(t, k) {
      assert ParentOk(s, k);
    }
  }

  lemma CommittedKids(s: State, disk: Store, t: State, k: int)
    requires Shape(s) && t == Committed(s, disk)
    ensures Kids(t, k) == Kids(s, k)
    ensures forall h :: Awaited(s, k, h) ==> Awaited(t, k, h)
  {
    CommittedLive(s, disk, t);
    forall j ensures IsKid(t, k, j) <==> IsKid(s, k, j) {}
    forall h | Awaited(s, k, h) ensures Awaited(t, k, h) {
      var j :| IsKid(s, k, j) && s.reqs[j].hash == h;
      assert IsKid(t, k, j) && t.reqs[j].hash == h;
    }
  }

  lemma CommittedClosed(s: State, disk: Store, t: State)
    requires BatchClosed(s) && ChildClosed(s.codec, s.disk) && Flushed(s, disk) && t == Committed(s, disk)
    ensures ChildClosed(t.codec, disk)
    ensures forall h :: Known(s, h) ==> h in disk
  {
    forall h, l | h in disk && Refers(s.codec, h, disk[h], l) ensures l.hash in disk {
      if FromBatch(s, h, disk[h]) {
        var p :| InBatch(s, p, h) && s.nodes[p] == disk[h];
        assert Known(s, l.hash);
      }
    }
  }

  // ---------- Completion ----------

  /** The root is stored, or some request asks for it. */
  ghost predicate Wanted(s: State, root: Hash32) {
    root == EMPTY_ROOT || Known(s, root) || exists id :: Live(s, id) && s.reqs[id].hash == root
  }

  lemma AddWants(s: State, root: Hash32, path: Hex)
    requires Inv(s) && Clear(s, path)
    ensures Wanted(Added(s, root, path), root)
  {
    NotPending(s, path);
    if root != EMPTY_ROOT && root !in s.disk {
      assert Live(Added(s, root, path), |s.reqs|);
    }
  }

  lemma FiledWants(s: State, r: Request, t: State, root: Hash32)
    requires IsFiled(s, r, t) && Wanted(s, root)
    ensures Wanted(t, root)
  {
    FiledLive(s, r, t);
    FiledKnown(s, r, t, root);
    if id :| Live(s, id) && s.reqs[id].hash == root {
      assert Live(t, id) && t.reqs[id].hash == root;
    }
  }

  lemma {:induction false} FileAllWants(s: State, x: nat, ls: seq<Link>, root: Hash32)
    requires Expanding(s, x, ls) && Live(s, x) && Wanted(s, root)
    ensures Wanted(FileAll(s, x, ls), root)
    decreases |ls|
  {
    if ls != [] {
      assert ls == [ls[0]] + ls[1..];
      Filed(s, x, ls[0], ls[1..]);
      var r := ChildRequest(s, x, ls[0]);
      assert Clear(s, r.path) && CountsOk(s, x, x, ls);
      NotPending(s, r.path);
      FiledLive(s, r, File(s, r));
      FiledWants(s, r, File(s, r), root);
      FileAllWants(File(s, r), x, ls[1..], root);
    }
  }

  lemma BaggedWants(s: State, id: nat, t: State, root: Hash32)
    requires IsBagged(s, id, t) && Wanted(s, root)
    ensures Wanted(t, root)
  {
    BaggedLive(s, id, t);
    BaggedKnown(s, id, t, root);
    if k :| Live(s, k) && s.reqs[k].hash == root {
      assert k != id ==> Live(t, k) && t.reqs[k].hash == root;
    }
  }

  lemma {:induction false} SettleWants(s: State, id: nat, root: Hash32)
    requires Expanding(s, id, []) && Live(s, id) && s.reqs[id].deps == 0 && Wanted(s, root)
    ensures Wanted(Settle(s, id), root)
    decreases id
  {
    assert CountsOk(s, id, id, []);
    BagStep(s, id);
    var t := Bagged(s, id);
    BaggedWants(s, id, t, root);
    match s.reqs[id].parent
    case None =>
    case Some(q) =>
      if t.reqs[q].deps == 0 {
        SettleWants(t, q, root);
      }
  }

  lemma ProcessWants(s: State, id: nat, data: Blob, ls: seq<Link>, root: Hash32)
    requires Inv(s) && Delivers(s, id, data, ls) && FurtherDown(ls) && Wanted(s, root)
    ensures Wanted(Process(s, id, data, ls), root)
  {
    var t := Opened(s, id, data, ls);
    OpenedExpanding(s, id, data, ls);
    OpenedLive(s, id, data, ls, t);
    OpenedKnown(s, id, data, ls, t, root);
    if k :| Live(s, k) && s.reqs[k].hash == root {
      assert Live(t, k) && t.reqs[k].hash == root;
    }
    assert CountsOk(s, id, -1, []);
    if ls == [] {
      SettleWants(t, id, root);
    } else {
      FileAllWants(t, id, ls, root);
    }
  }

  lemma CommitWants(s: State, disk: Store, root: Hash32)
    requires Inv(s) && Flushed(s, disk) && Wanted(s, root)
    ensures Wanted(Committed(s, disk), root)
  {
    var t := Committed(s, disk);
    CommittedClosed(s, disk, t);
    CommittedLive(s, disk, t);
    if k :| Live(s, k) && s.reqs[k].hash == root {
      assert Live(t, k) && t.reqs[k].hash == root;
    }
  }

  /** While anything is pending, some request still waits for data: the download never stalls. */
  lemma {:induction false} Progress(s: State, id: int)
    requires Inv(s) && Live(s, id)
    ensures exists k :: Live(s, k) && s.reqs[k].data.None?
    decreases |s.reqs| - id
  {
    assert CountsOk(s, id, -1, []);
    if s.reqs[id].data.Some? {
      assert Kids(s, id) != {};
      var k: int :| k in Kids(s, id);
      Progress(s, k);
    }
  }

  /** An empty pending set means that the root is stored, in a store that misses no child. */
  lemma Complete(s: State, disk: Store, root: Hash32)
    requires Inv(s) && Wanted(s, root) && s.pending == map[] && Flushed(s, disk)
    ensures root == EMPTY_ROOT || root in disk
    ensures ChildClosed(s.codec, disk)
  {
    CommittedClosed(s, disk, Committed(s, disk));
  }

  // ---------- Runs ----------

  function Fresh(codec: Codec, disk: Store): State {
    State(codec, [], map[], map[], map[], disk)
  }

  /** One call that changes the state; a refused delivery changes nothing. */
  ghost predicate Step(s: State, t: State) {
    || (exists id: nat, data, ls :: DeliveryStep(s, id, data, ls, t))
    || (exists disk :: Flushed(s, disk) && t == Committed(s, disk))
  }

  ghost predicate DeliveryStep(s: State, id: nat, data: Blob, ls: seq<Link>, t: State) {
    Ordered(s) && Delivers(s, id, data, ls) && FurtherDown(ls) && t == Process(s, id, data, ls)
  }

  ghost predicate IsRun(run: seq<State>, codec: Codec, disk: Store, root: Hash32) {
    && run != [] && run[0] == Added(Fresh(codec, disk), root, [])
    && forall i | 0 < i < |run| :: Step(run[i - 1], run[i])
  }

  lemma StepKeeps(s: State, t: State, root: Hash32)
    requires Inv(s) && Wanted(s, root) && Step(s, t)
    ensures Inv(t) && Wanted(t, root)
  {
    if id: nat, data, ls :| DeliveryStep(s, id, data, ls, t) {
      ProcessKeeps(s, id, data, ls);
      ProcessWants(s, id, data, ls, root);
    } else {
      var disk :| Flushed(s, disk) && t == Committed(s, disk);
      CommitKeeps(s, disk);
      CommitWants(s, disk, root);
    }
  }

  /**
   From a child-closed database, every state of every run has exact counts and no missing child below a
   stored node; if it has nothing pending, the root is stored.
   */
  lemma {:induction false} EveryRun(run: seq<State>, codec: Codec, disk: Store, root: Hash32, i: nat)
    requires IsRun(run, codec, disk, root) && ChildClosed(codec, disk) && i < |run|
    ensures Inv(run[i]) && Wanted(run[i], root)
    ensures run[i].pending == map[] ==> root == EMPTY_ROOT || Known(run[i], root)
  {
    if i == 0 {
      AddKeeps(Fresh(codec, disk), root, []);
      AddWants(Fresh(codec, disk), root, []);
    } else {
      EveryRun(run, codec, disk, root, i - 1);
      StepKeeps(run[i - 1], run[i], root);
    }
  }

  // ---------- Nodes with an empty key ----------

  /** The node at `data`, downloaded for `root`, and a leaf, downloaded for its child at the same path. */
  ghost predicate EmptyKey(codec: Codec, disk: Store, root: Hash32, child: Hash32, data: Blob, leaf: Blob) {
    && root != EMPTY_ROOT && root !in disk && child !in disk && root != child
    && codec(root, data).Ok? && IsLink(codec(root, data).value, Link([], child))
    && codec(child, leaf).Ok? && forall l :: !IsLink(codec(child, leaf).value, l)
  }

  lemma EmptyKeyReplacesParent(codec: Codec, disk: Store, root: Hash32, child: Hash32, data: Blob, leaf: Blob)
    returns (s: State, t: State)
    requires EmptyKey(codec, disk, root, child, data, leaf)
    ensures s == Added(Fresh(codec, disk), root, []) && Ordered(s) && |s.reqs| == 1
    ensures Delivers(s, 0, data, [Link([], child)]) && t == Process(s, 0, data, [Link([], child)])
    ensures t.reqs == [Request(root, [], Some(data), None, 1), Request(child, [], None, Some(0), 0)]
    ensures t.pending == map[[] := 1] && t.(reqs := [], pending := map[]) == Fresh(codec, disk)
  {
    var l := Link([], child);
    s := Added(Fresh(codec, disk), root, []);
    forall m ensures m in [l] <==> IsLink(codec(root, data).value, m) && Unknown(s, [], m) {}
    var started := Opened(s, 0, data, [l]);
    t := Process(s, 0, data, [l]);
    assert [l][1..] == [] && [] + l.step == [];
    var filed := File(started, ChildRequest(started, 0, l));
    assert FileAll(filed, 0, []) == filed;
    assert t == filed;
  }

  /**
   An extension with an empty key puts its child at its own path.  The child's request replaces its
   parent's, and is in turn overwritten by it: the download ends with the child missing.
   */
  lemma EmptyKeyLosesChild(codec: Codec, disk: Store, root: Hash32, child: Hash32, data: Blob, leaf: Blob)
    returns (t: State, u: State)
    requires EmptyKey(codec, disk, root, child, data, leaf)
    ensures var s := Added(Fresh(codec, disk), root, []);
            Ordered(s) && |s.reqs| == 1 && t == Process(s, 0, data, [Link([], child)])
    ensures Ordered(t) && |t.reqs| == 2 && Delivers(t, 1, leaf, []) && u == Process(t, 1, leaf, [])
    ensures u.pending == map[] && !BatchClosed(u)
  {
    var s;
    s, t := EmptyKeyReplacesParent(codec, disk, root, child, data, leaf);
    u := Process(t, 1, leaf, []);
    var first := Bagged(Opened(t, 1, leaf, []), 1);
    assert first.reqs[0].deps == 0 && u == Bagged(first, 0);
    assert Refers(codec, root, data, Link([], child));
    forall p ensures !InBatch(u, p, child) {}
  }
}
