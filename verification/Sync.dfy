/** trie/sync.go: the scheduler itself, over the node encoding, and what a finished download holds. */
module Sync {
  import opened Bytes
  import opened HexEncoding
  import opened Rlp
  import opened Nodes
  import opened Tree
  import opened TreeEncoding
  import opened Store
  import opened SyncState
  import opened Reload
  import SyncProgress

  function Decode(hash: Hash32, blob: Bytes): Result<Node> {
    DecodeNode(Some(hash), blob)
  }

  // ---------- Every reference is a link ----------

  predicate Mentions(n: Node, h: Hash32) {
    match n
    case HashNode(g) => g == h
    case ShortNode(_, v, _) => Mentions(v, h)
    case FullNode(cs, _) => exists i | 0 <= i < |cs| :: Mentions(cs[i], h)
    case _ => false
  }

  predicate RefClean(r: Result<Ref>, h: Hash32) {
    r.Ok? ==> !Mentions(r.value.node, h)
  }

  predicate RefsClean(rs: Result<Refs>, h: Hash32) {
    rs.Ok? ==> forall i | 0 <= i < |rs.value.nodes| :: !Mentions(rs.value.nodes[i], h)
  }

  /** Nothing that fits in 31 bytes holds a hash. */
  lemma {:induction false} SmallShort(hash: Option<Hash32>, elems: Bytes, h: Hash32)
    requires |elems| < 32
    ensures var n := DecodeShort(hash, elems); n.Ok? ==> !Mentions(n.value, h)
    decreases |elems|, 2, 0
  {
    var k := SplitString(elems);
    if k.Ok? {
      SmallRef(k.value.rest, h);
    }
  }

  lemma {:induction false} SmallRef(buf: Bytes, h: Hash32)
    requires |buf| < 32
    ensures RefClean(DecodeRef(buf), h)
    decreases |buf|, 1, 0
  {
    var item := Split(buf);
    if item.Ok? && item.value.kind == ListKind {
      SmallNode(None, buf, h);
    }
  }

  lemma {:induction false} SmallRefs(elems: Bytes, k: nat, h: Hash32)
    requires |elems| < 32
    ensures RefsClean(DecodeRefs(elems, k), h)
    decreases |elems|, 2, k
  {
    if k == 0 {
      RefsCleanNone(elems, h);
    } else {
      SmallRef(elems, h);
      var r := DecodeRef(elems);
      if r.Ok? {
        SmallRefs(r.value.rest, k - 1, h);
      }
      RefsCleanMore(elems, k, r, h);
    }
  }

  lemma RefsCleanNone(elems: Bytes, h: Hash32)
    ensures RefsClean(DecodeRefs(elems, 0), h)
  {}

  lemma RefsCleanMore(elems: Bytes, k: nat, r: Result<Ref>, h: Hash32)
    requires k > 0 && r == DecodeRef(elems) && RefClean(r, h)
    requires r.Ok? ==> RefsClean(DecodeRefs(r.value.rest, k - 1), h)
    ensures RefsClean(DecodeRefs(elems, k), h)
  {
    if r.Ok? {
      var rs := DecodeRefs(r.value.rest, k - 1);
      if rs.Ok? {
        assert DecodeRefs(elems, k) == Ok(Refs([r.value.node] + rs.value.nodes, rs.value.rest));
      }
    }
  }

  lemma {:induction false} SmallNode(hash: Option<Hash32>, buf: Bytes, h: Hash32)
    requires var list := SplitList(buf); list.Ok? ==> |list.value.content| < 32
    ensures var n := DecodeNode(hash, buf); n.Ok? ==> !Mentions(n.value, h)
    decreases |buf|, 0, 0
  {
    var list := SplitList(buf);
    if list.Ok? {
      var elems := list.value.content;
      SmallShort(hash, elems, h);
      SmallRefs(elems, 16, h);
    }
  }

  lemma ListContent(buf: Bytes)
    ensures var item := Split(buf);
            item.Ok? && item.value.kind == ListKind ==> |item.value.content| + |item.value.rest| < |buf|
  {}

  /** A reference is a hash, or too small to hold one. */
  predicate HashOrSmall(n: Node, h: Hash32) {
    n.HashNode? || !Mentions(n, h)
  }

  lemma RefHashOrSmall(buf: Bytes, h: Hash32)
    ensures var r := DecodeRef(buf); r.Ok? ==> HashOrSmall(r.value.node, h)
  {
    var item := Split(buf);
    if item.Ok? && item.value.kind == ListKind && |buf| - |item.value.rest| <= 32 {
      ListContent(buf);
      SmallNode(None, buf, h);
    }
  }

  predicate AllHashOrSmall(rs: Result<Refs>, k: nat, h: Hash32) {
    rs.Ok? ==> |rs.value.nodes| == k && forall i | 0 <= i < k :: HashOrSmall(rs.value.nodes[i], h)
  }

  lemma {:induction false} RefsHashOrSmall(elems: Bytes, k: nat, h: Hash32)
    ensures AllHashOrSmall(DecodeRefs(elems, k), k, h)
    decreases |elems|, 2, k
  {
    if k > 0 {
      RefHashOrSmall(elems, h);
      var r := DecodeRef(elems);
      if r.Ok? {
        RefsHashOrSmall(r.value.rest, k - 1, h);
        MoreHashOrSmall(elems, k, r.value, h);
      }
    }
  }

  lemma MoreHashOrSmall(elems: Bytes, k: nat, r: Ref, h: Hash32)
    requires k > 0 && DecodeRef(elems) == Ok(r) && HashOrSmall(r.node, h)
    requires AllHashOrSmall(DecodeRefs(r.rest, k - 1), k - 1, h)
    ensures AllHashOrSmall(DecodeRefs(elems, k), k, h)
  {
    var rs := DecodeRefs(r.rest, k - 1);
    if rs.Ok? {
      assert DecodeRefs(elems, k) == Ok(Refs([r.node] + rs.value.nodes, rs.value.rest));
    }
  }

  /** What `children` looks at: every slot is a hash or holds none, and branches have seventeen slots. */
  ghost predicate Flat(n: Node, h: Hash32) {
    match n
    case ShortNode(_, v, _) => HashOrSmall(v, h)
    case FullNode(cs, _) => |cs| == 17 && forall i | 0 <= i < 17 :: HashOrSmall(cs[i], h)
    case _ => false
  }

  lemma DecodedIsFlat(hash: Option<Hash32>, blob: Bytes, h: Hash32)
    ensures var n := DecodeNode(hash, blob); n.Ok? ==> Flat(n.value, h)
  {
    var list := SplitList(blob);
    if list.Ok? {
      ShortIsFlat(hash, list.value.content, h);
      FullIsFlat(hash, list.value.content, h);
    }
  }

  lemma ShortIsFlat(hash: Option<Hash32>, elems: Bytes, h: Hash32)
    ensures var n := DecodeShort(hash, elems); n.Ok? ==> Flat(n.value, h)
  {
    var k := SplitString(elems);
    if k.Ok? {
      RefHashOrSmall(k.value.rest, h);
    }
  }

  lemma FullIsFlat(hash: Option<Hash32>, elems: Bytes, h: Hash32)
    ensures var n := DecodeFull(hash, elems); n.Ok? ==> Flat(n.value, h)
  {
    RefsHashOrSmall(elems, 16, h);
  }

  lemma FlatMentions(n: Node, h: Hash32)
    requires Flat(n, h)
    ensures Mentions(n, h) <==> exists l :: IsLink(n, l) && l.hash == h
  {
    match n
    case ShortNode(k, v, _) =>
      if v == HashNode(h) {
        assert IsLink(n, Link(Tail(k), h));
      }
    case FullNode(cs, _) =>
      forall i: HexDigit | i < |cs| && cs[i] == HashNode(h) ensures IsLink(n, Link([i], h)) {}
      if l :| IsLink(n, l) && l.hash == h {
        assert Mentions(cs[l.step[0]], h);
      }
      if i :| 0 <= i < |cs| && Mentions(cs[i], h) {
        var d: HexDigit := i;
        assert HashOrSmall(cs[d], h) && IsLink(n, Link([d], h));
      }
  }

  /** Every hash in a decoded node is that of a direct child: embedded nodes are too small for one. */
  lemma MentionsAreLinks(hash: Hash32, blob: Bytes, h: Hash32)
    requires Decode(hash, blob).Ok?
    ensures Mentions(Decode(hash, blob).value, h) <==> exists l :: IsLink(Decode(hash, blob).value, l) && l.hash == h
  {
    DecodedIsFlat(Some(hash), blob, h);
    FlatMentions(Decode(hash, blob).value, h);
  }

  // ---------- A child-closed store holds the whole trie ----------

  lemma BranchHolds(cs: seq<Tree>, i: nat)
    requires Minimal(Branch(cs)) && i < 17
    ensures |Encode(RefTo(cs[i]))| <= |Enc(Branch(cs))|
  {
    EncodeAllHolds(RefsTo(cs), i);
  }

  /** Below a node that is embedded in its parent there is nothing to store. */
  lemma {:induction false} SmallIsBelow(db: Store, t: Tree)
    requires Minimal(t) && |Enc(t)| < 32
    ensures Below(db, t)
    decreases t, 0
  {
    match t
    case Ext(k, c) => SmallChild(db, c, |Enc(t)|);
    case Branch(cs) =>
      forall i | 0 <= i < 17 ensures Linked(db, cs[i]) {
        BranchHolds(cs, i);
        SmallChild(db, cs[i], |Enc(t)|);
      }
    case _ =>
  }

  lemma {:induction false} SmallChild(db: Store, c: Tree, size: nat)
    requires Minimal(c) && |Encode(RefTo(c))| <= size < 32
    ensures Linked(db, c)
    decreases c, 1
  {
    assert |EncodeString(Keccak(Enc(c)))| == 33;
    if !IsInner(c) || |Enc(c)| < 32 {
      SmallIsBelow(db, c);
    }
  }

  /** What was downloaded for the trie `t`: every entry under its hash, and no two encodings with one hash. */
  ghost predicate Honest(db: Store, t: Tree, blobs: iset<Bytes>)
    requires Minimal(t)
  {
    Sound(blobs) && Addressed(db, blobs) && Within(t, blobs)
  }

  lemma HonestHas(db: Store, t: Tree, blobs: iset<Bytes>)
    requires Minimal(t) && IsInner(t) && Honest(db, t, blobs) && Keccak(Enc(t)) in db
    ensures Has(db, t)
  {}

  /** The child at `step`, if it is referenced by hash, is in the store. */
  ghost predicate Present(db: Store, c: Tree)
    requires Minimal(c)
  {
    RefTo(c).HashRef? ==> RefTo(c).hash in db
  }

  lemma ExtChildPresent(db: Store, k: Hex, c: Tree)
    requires Minimal(Ext(k, c)) && ChildClosed(Decode, db) && Has(db, Ext(k, c))
    ensures Present(db, c)
  {
    var t := Ext(k, c);
    if RefTo(c).HashRef? {
      ExtLink(k, c);
      assert Refers(Decode, Keccak(Enc(t)), db[Keccak(Enc(t))], Link(Tail(k), RefTo(c).hash));
    }
  }

  lemma ExtLink(k: Hex, c: Tree)
    requires Minimal(Ext(k, c)) && |Enc(Ext(k, c))| < SIZE_LIMIT && RefTo(c).HashRef?
    ensures Refers(Decode, Keccak(Enc(Ext(k, c))), Enc(Ext(k, c)), Link(Tail(k), RefTo(c).hash))
  {
    CompactRoundTrip(k);
    DecodeEnc(Some(Keccak(Enc(Ext(k, c)))), Ext(k, c));
  }

  lemma BranchChildPresent(db: Store, cs: seq<Tree>, i: HexDigit)
    requires Minimal(Branch(cs)) && ChildClosed(Decode, db) && Has(db, Branch(cs))
    ensures Present(db, cs[i])
  {
    var t := Branch(cs);
    if RefTo(cs[i]).HashRef? {
      BranchLink(cs, i);
      assert Refers(Decode, Keccak(Enc(t)), db[Keccak(Enc(t))], Link([i], RefTo(cs[i]).hash));
    }
  }

  lemma BranchLink(cs: seq<Tree>, i: HexDigit)
    requires Minimal(Branch(cs)) && |Enc(Branch(cs))| < SIZE_LIMIT && RefTo(cs[i]).HashRef?
    ensures Refers(Decode, Keccak(Enc(Branch(cs))), Enc(Branch(cs)), Link([i], RefTo(cs[i]).hash))
  {
    DecodeEnc(Some(Keccak(Enc(Branch(cs)))), Branch(cs));
  }

  lemma {:induction false} ClosedIsSaved(db: Store, t: Tree, blobs: iset<Bytes>)
    requires Minimal(t) && IsInner(t) && Honest(db, t, blobs)
    requires ChildClosed(Decode, db) && Keccak(Enc(t)) in db
    ensures Saved(db, t)
    decreases t, 0
  {
    HonestHas(db, t, blobs);
    match t
    case Ext(k, c) =>
      ExtChildPresent(db, k, c);
      ClosedIsLinked(db, c, blobs);
    case Branch(cs) =>
      forall i: HexDigit ensures Linked(db, cs[i]) {
        BranchChildPresent(db, cs, i);
        ClosedIsLinked(db, cs[i], blobs);
      }
  }

  lemma {:induction false} ClosedIsLinked(db: Store, c: Tree, blobs: iset<Bytes>)
    requires Minimal(c) && Honest(db, c, blobs) && ChildClosed(Decode, db) && Present(db, c)
    ensures Linked(db, c)
    decreases c, 1
  {
    if IsInner(c) && |Enc(c)| >= 32 {
      ClosedIsSaved(db, c, blobs);
    } else if IsInner(c) {
      SmallIsBelow(db, c);
    }
  }

  /**
   When nothing is pending any more, writing out the membatch leaves the whole trie in the database:
   opened there, it answers every lookup.
   */
  lemma SyncedTrie(s: State, db: Store, t: Tree, blobs: iset<Bytes>)
    requires s.codec == Decode && Inv(s) && s.pending == map[] && Flushed(s, db)
    requires Minimal(t) && IsInner(t) && RootHash(t) != EMPTY_ROOT && Wanted(s, RootHash(t))
    requires Honest(db, t, blobs)
    ensures Saved(db, t)
  {
    Complete(s, db, RootHash(t));
    ClosedIsSaved(db, t, blobs);
  }

  /** The nodes of a trie in minimal form have no empty key: delivering them keeps the invariant. */
  lemma TrieNodeWellKeyed(hash: Hash32, t: Tree)
    requires Minimal(t) && IsInner(t) && |Enc(t)| < SIZE_LIMIT
    ensures Decode(hash, Enc(t)).Ok? && WellKeyed(Decode(hash, Enc(t)).value)
  {
    DecodeEnc(Some(hash), t);
    if t.Ext? {
      CompactRoundTrip(t.key);
    }
  }

  /** An empty extension key is a node that the decoder accepts. */
  lemma EmptyKeyDecodes(root: Hash32, child: Hash32)
    ensures var n := Decode(root, Encode(RawShort([0], HashRef(child))));
            n.Ok? && !WellKeyed(n.value) && IsLink(n.value, Link([], child))
  {
    var c := RawShort([0], HashRef(child));
    assert CompactToHex([0]) == [];
    assert |EncodeString(child)| == 33 && |EncodeString([0])| == 1;
    DecodeEncode(Some(root), c, []);
    assert Encode(c) + [] == Encode(c);
  }

  // ---------- The scheduler ----------

  datatype Outcome = Done | NotRequested | AlreadyProcessed | BadNode

  /** What `ProcessNode` answers about a request, and the state `t` in which it leaves the scheduler. */
  ghost predicate Answers(s: State, id: nat, data: Blob, r: Outcome, missing: seq<Link>, t: State) {
    && id < |s.reqs| && Ordered(s)
    && (r == AlreadyProcessed <==> s.reqs[id].data.Some?)
    && (r == BadNode <==> s.reqs[id].data.None? && s.codec(s.reqs[id].hash, data).Err?)
    && (r == Done ==> Delivers(s, id, data, missing) && t == Process(s, id, data, missing))
    && (r == Done && Inv(s) ==> (Inv(t) <==> FurtherDown(missing)))
    && (r == Done && Inv(s) ==> (SyncProgress.Accepted(s, id, data, missing, t) <==> FurtherDown(missing)))
  }

  lemma SameMissing(s: State, t: State, path: Hex, n: Node, ls: seq<Link>)
    requires IsMissing(t, path, n, ls) && s.nodes == t.nodes && s.disk == t.disk
    ensures IsMissing(s, path, n, ls)
  {
    forall l ensures Unknown(s, path, l) <==> Unknown(t, path, l) {}
  }

  function WithDeps(s: State, id: nat, n: nat): State
    requires id < |s.reqs|
  {
    s.(reqs := s.reqs[id := s.reqs[id].(deps := s.reqs[id].deps + n)])
  }

  lemma OpenedTwice(s: State, id: nat, data: Blob, ls: seq<Link>)
    requires id < |s.reqs|
    ensures WithDeps(Opened(s, id, data, []), id, |ls|) == Opened(s, id, data, ls)
  {}

  lemma LinkAt(n: Node, l: Link)
    requires n.FullNode? && IsLink(n, l)
    ensures l == Link([l.step[0]], n.children[l.step[0]].hash)
  {}

  method HashChildren(n: Node) returns (links: set<Link>)
    requires n.FullNode? ==> |n.children| == 17
    ensures forall l :: l in links <==> IsLink(n, l)
  {
    links := {};
    match n {
      case ShortNode(k, v, _) =>
        if v.HashNode? {
          links := {Link(Tail(k), v.hash)};
        }
      case FullNode(cs, _) =>
        for i := 0 to 17
          invariant forall l :: l in links <==> IsLink(n, l) && l.step[0] < i
        {
          forall l | IsLink(n, l) && l.step[0] == i ensures l == Link([i], cs[i].hash) {
            LinkAt(n, l);
          }
          if cs[i].HashNode? {
            links := links + {Link([i], cs[i].hash)};
          }
        }
      case _ =>
    }
  }

  /** The database while the membatch is being written: the paths `todo` are still to come. */
  ghost predicate Writing(s: State, todo: set<Hex>, db: Store) {
    && todo <= s.nodes.Keys
    && (forall h | h in s.disk :: h in db)
    && (forall p | p in s.nodes && p in s.hashes && p !in todo :: s.hashes[p] in db)
    && (forall h | h in db :: (h in s.disk && db[h] == s.disk[h]) || FromBatch(s, h, db[h]))
  }

  lemma WriteStep(s: State, todo: set<Hex>, db: Store, p: Hex)
    requires Writing(s, todo, db) && p in todo && p in s.nodes && p in s.hashes
    ensures Writing(s, todo - {p}, db[s.hashes[p] := s.nodes[p]])
  {
    assert InBatch(s, p, s.hashes[p]);
  }

  class Scheduler {
    var reqs: seq<Request>
    var nodeReqs: map<Hex, nat>
    var nodes: map<Hex, Blob>
    var hashes: map<Hex, Hash32>
    var database: Store

    ghost function Now(): State
      reads this
    {
      State(Decode, reqs, nodeReqs, nodes, hashes, database)
    }

    /** What the code needs in order to run at all; `Inv` is what it achieves on well-keyed nodes. */
    ghost predicate Sane()
      reads this
    {
      && Ordered(Now()) && nodes.Keys == hashes.Keys
      && forall p | p in nodeReqs :: nodeReqs[p] < |reqs| && reqs[nodeReqs[p]].path == p
    }

    /** `NewSync`. */
    constructor (root: Hash32, database: Store)
      ensures Sane() && Now() == Added(Fresh(Decode, database), root, [])
      ensures ChildClosed(Decode, database) ==> Inv(Now()) && Wanted(Now(), root)
    {
      reqs, nodeReqs, nodes, hashes := [], map[], map[], map[];
      this.database := database;
      new;
      if ChildClosed(Decode, database) {
        FreshInv(database);
        AddKeeps(Now(), root, []);
        AddWants(Now(), root, []);
      }
      AddSubTrie(root, []);
    }

    method AddSubTrie(root: Hash32, path: Hex)
      requires Sane()
      modifies this`reqs, this`nodeReqs
      ensures Sane() && Now() == Added(old(Now()), root, path)
    {
      if root == EMPTY_ROOT {
        return;
      }
      if path in nodes {
        return;
      }
      if root in database {
        return;
      }
      ScheduleNodeRequest(Request(root, path, None, None, 0));
    }

    method ScheduleNodeRequest(req: Request)
      requires Sane() && (req.parent.Some? ==> req.parent.value < |reqs|)
      modifies this`reqs, this`nodeReqs
      ensures Sane() && Now() == File(old(Now()), req)
    {
      reqs, nodeReqs := reqs + [req], nodeReqs[req.path := |reqs|];
    }

    /** The database lookups run concurrently, so the missing children come back in any order. */
    method Children(id: nat, n: Node) returns (missing: seq<Link>)
      requires id < |reqs| && (n.FullNode? ==> |n.children| == 17)
      ensures IsMissing(Now(), reqs[id].path, n, missing)
    {
      var links := HashChildren(n);
      missing := [];
      ghost var path := reqs[id].path;
      while links != {}
        invariant forall l :: l in links || l in missing ==> IsLink(n, l)
        invariant forall l :: l in missing ==> Unknown(Now(), path, l) && l !in links
        invariant forall l :: IsLink(n, l) && Unknown(Now(), path, l) ==> l in links || l in missing
        invariant forall i, j | 0 <= i < j < |missing| :: missing[i] != missing[j]
        decreases |links|
      {
        var l: Link :| l in links;
        links := links - {l};
        if reqs[id].path + l.step !in nodes && l.hash !in database {
          missing := missing + [l];
        }
      }
    }

    method ProcessNode(path: Hex, data: Blob) returns (r: Outcome, ghost missing: seq<Link>)
      requires Sane()
      modifies this
      ensures Sane() && database == old(database)
      ensures r == NotRequested <==> path !in old(nodeReqs)
      ensures path in old(nodeReqs) ==> Answers(old(Now()), old(nodeReqs[path]), data, r, missing, Now())
      ensures r != Done ==> Now() == old(Now())
    {
      missing := [];
      if path !in nodeReqs {
        return NotRequested, [];
      }
      var id := nodeReqs[path];
      if reqs[id].data.Some? {
        return AlreadyProcessed, [];
      }
      var node := Decode(reqs[id].hash, data);
      if node.Err? {
        return BadNode, [];
      }
      ghost var was := Now();
      DecodedIsFlat(Some(reqs[id].hash), data, reqs[id].hash);
      missing := Accept(id, data, node.value);
      r := Done;
      if Inv(was) {
        ProcessKeepsExactly(was, id, data, missing);
        SyncProgress.ProcessAcceptsExactly(was, id, data, missing);
      }
    }

    method Accept(id: nat, data: Blob, node: Node) returns (ghost missing: seq<Link>)
      requires Sane() && Live(Now(), id) && reqs[id].data.None?
      requires Now().codec(reqs[id].hash, data) == Ok(node) && (node.FullNode? ==> |node.children| == 17)
      modifies this
      ensures Sane() && database == old(database)
      ensures Delivers(old(Now()), id, data, missing) && Now() == Process(old(Now()), id, data, missing)
    {
      ghost var was := Now();
      SetData(id, data);
      var requests := Children(id, node);
      missing := requests;
      SameMissing(was, Now(), was.reqs[id].path, node, missing);
      OpenedTwice(was, id, data, missing);
      if |requests| == 0 && reqs[id].deps == 0 {
        CommitNodeRequest(id);
      } else {
        AddDeps(id, |requests|);
        ScheduleAll(id, requests);
      }
    }

    method SetData(id: nat, data: Blob)
      requires Sane() && id < |reqs|
      modifies this`reqs
      ensures Sane() && Now() == Opened(old(Now()), id, data, [])
    {
      reqs := reqs[id := reqs[id].(data := Some(data))];
    }

    method AddDeps(id: nat, n: nat)
      requires Sane() && id < |reqs|
      modifies this`reqs
      ensures Sane() && Now() == WithDeps(old(Now()), id, n)
    {
      reqs := reqs[id := reqs[id].(deps := reqs[id].deps + n)];
    }

    method ScheduleAll(id: nat, requests: seq<Link>)
      requires Sane() && id < |reqs|
      modifies this`reqs, this`nodeReqs
      ensures Sane() && Now() == FileAll(old(Now()), id, requests)
    {
      var i := 0;
      while i < |requests|
        invariant i <= |requests| && Sane() && id < |reqs|
        invariant FileAll(Now(), id, requests[i..]) == FileAll(old(Now()), id, requests)
      {
        ScheduleNodeRequest(Request(requests[i].hash, reqs[id].path + requests[i].step, None, Some(id), 0));
        i := i + 1;
      }
    }

    method CommitNodeRequest(id: nat)
      requires Sane() && id < |reqs|
      modifies this
      ensures Sane() && database == old(database) && Now() == Settle(old(Now()), id)
      decreases id
    {
      var req := reqs[id];
      nodes := nodes[req.path := if req.data.Some? then req.data.value else []];
      hashes := hashes[req.path := req.hash];
      nodeReqs := nodeReqs - {req.path};
      if req.parent.Some? {
        var q := req.parent.value;
        reqs := reqs[q := reqs[q].(deps := reqs[q].deps - 1)];
        if reqs[q].deps == 0 {
          CommitNodeRequest(q);
        }
      }
    }

    /** Writes the membatch out, in the order in which the map is iterated. */
    method Commit()
      requires Sane()
      modifies this`nodes, this`hashes, this`database
      ensures Sane() && Flushed(old(Now()), database) && Now() == Committed(old(Now()), database)
      ensures old(Inv(Now())) ==> Inv(Now()) && ChildClosed(Decode, database)
    {
      ghost var was := Now();
      WriteBatch();
      if Inv(was) {
        CommitKeeps(was, database);
      }
      nodes, hashes := map[], map[];
    }

    method WriteBatch()
      requires nodes.Keys == hashes.Keys
      modifies this`database
      ensures Flushed(old(Now()), database)
    {
      ghost var was := Now();
      var todo := nodes.Keys;
      while todo != {}
        invariant Writing(was, todo, database)
        decreases |todo|
      {
        var p: Hex :| p in todo;
        WriteStep(was, todo, database, p);
        todo := todo - {p};
        database := database[hashes[p] := nodes[p]];
      }
    }

    /** `Pending`. */
    method Pending() returns (n: nat)
      ensures n == 0 <==> nodeReqs == map[]
    {
      n := |nodeReqs|;
    }
  }

  lemma FreshInv(database: Store)
    requires ChildClosed(Decode, database)
    ensures Inv(Fresh(Decode, database)) && Clear(Fresh(Decode, database), [])
  {}
}
