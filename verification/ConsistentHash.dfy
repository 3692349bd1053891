/**
 local/consistent_hash.go and local/migration.go: nodes join and leave the ring with all their virtual
 nodes, and the recorded data keys move along.
 */
module ConsistentHash {
  import opened Bytes
  import opened NodeNames
  import opened HashRing
  import opened Arcs
  import opened Placement

  // ---------- Which virtual nodes are on the ring ----------

  /** The virtual nodes `lo..hi` of a node. */
  ghost function Range(id: string, lo: nat, hi: nat): iset<string> {
    iset i: nat | lo <= i < hi :: RawKey(id, i)
  }

  /** The virtual nodes of all nodes. */
  ghost function Names(replicas: map<string, nat>): iset<string> {
    iset id, i: nat | id in replicas && i < replicas[id] :: RawKey(id, i)
  }

  /** The ring holds exactly the virtual nodes `names`, each once, at its score. */
  ghost predicate Named(ring: Ring, names: iset<string>, encrypt: string -> Score) {
    && RingOk(ring)
    && (forall s | s in ring :: Distinct(ring[s]) && forall raw | raw in ring[s] :: raw in names && encrypt(raw) == s)
    && (forall raw | raw in names :: encrypt(raw) in ring && raw in ring[encrypt(raw)])
  }

  lemma AddNamed(ring: Ring, names: iset<string>, encrypt: string -> Score, raw: string)
    requires Named(ring, names, encrypt) && raw !in names && '_' in raw
    ensures Named(AddTo(ring, encrypt(raw), raw), names + iset{raw}, encrypt)
  {}

  lemma {:induction false} WithoutDistinct(raws: seq<string>, raw: string)
    requires Distinct(raws) && raw in raws
    ensures Distinct(WithoutID(raws, raw)) && forall r :: r in WithoutID(raws, raw) <==> r in raws && r != raw
  {
    if raws[0] == raw {
      assert forall r :: r in raws <==> r == raw || r in raws[1..];
    } else {
      WithoutDistinct(raws[1..], raw);
      assert forall r :: r in raws <==> r == raws[0] || r in raws[1..];
      var rest := WithoutID(raws[1..], raw);
      assert forall j | 0 <= j < |rest| :: rest[j] in raws[1..];
    }
  }

  lemma RemoveNamed(ring: Ring, names: iset<string>, encrypt: string -> Score, raw: string)
    requires Named(ring, names, encrypt) && raw in names
    ensures Named(RemoveFrom(ring, encrypt(raw), raw), names - iset{raw}, encrypt)
  {
    var s := encrypt(raw);
    WithoutDistinct(ring[s], raw);
    WithoutSize(ring[s], raw);
  }

  lemma RangeNext(id: string, lo: nat, hi: nat)
    ensures '_' in RawKey(id, hi) && (lo <= hi ==> Range(id, lo, hi + 1) == Range(id, lo, hi) + iset{RawKey(id, hi)})
    ensures RawKey(id, hi) !in Range(id, lo, hi)
  {
    NodeIDOfRawKey(id, hi);
    forall i: nat | lo <= i < hi ensures RawKey(id, i) != RawKey(id, hi) {
      if RawKey(id, i) == RawKey(id, hi) {
        RawKeyInjective(id, i, id, hi);
      }
    }
  }

  lemma RangeFirst(id: string, lo: nat, hi: nat)
    requires lo < hi
    ensures Range(id, lo + 1, hi) == Range(id, lo, hi) - iset{RawKey(id, lo)} && RawKey(id, lo) in Range(id, lo, hi)
  {
    forall i: nat | lo < i < hi ensures RawKey(id, i) != RawKey(id, lo) {
      if RawKey(id, i) == RawKey(id, lo) {
        RawKeyInjective(id, i, id, lo);
      }
    }
  }

  /** The names of a node are nobody else's. */
  lemma NamesApart(replicas: map<string, nat>, id: string, lo: nat, hi: nat)
    requires id !in replicas
    ensures Names(replicas) !! Range(id, lo, hi)
  {
    forall raw | raw in Names(replicas) && raw in Range(id, lo, hi) ensures false {
      var other, i: nat :| other in replicas && i < replicas[other] && raw == RawKey(other, i);
      var j: nat :| lo <= j < hi && raw == RawKey(id, j);
      RawKeyInjective(other, i, id, j);
    }
  }

  lemma NamesWith(replicas: map<string, nat>, id: string, count: nat)
    requires id !in replicas
    ensures Names(replicas[id := count]) == Names(replicas) + Range(id, 0, count)
  {}

  lemma NamesGone(ring: Ring, replicas: map<string, nat>, encrypt: string -> Score, id: string)
    requires Named(ring, Names(replicas), encrypt) && id !in replicas
    ensures Gone(ring, id)
  {
    forall s | s in ring ensures forall raw | raw in ring[s] :: NodeID(raw) != id {
      forall raw | raw in ring[s] ensures NodeID(raw) != id {
        var other, i: nat :| other in replicas && i < replicas[other] && raw == RawKey(other, i);
        NodeIDOfRawKey(other, i);
      }
    }
  }

  /** Another node is on the ring. */
  lemma OthersRemain(ring: Ring, replicas: map<string, nat>, names: iset<string>, encrypt: string -> Score,
                     id: string, other: string)
    requires Named(ring, names, encrypt) && Names(replicas) <= names && other in replicas && replicas[other] > 0 && other != id
    ensures ring.Keys != {} && Purge(ring, id).Keys != {}
  {
    var raw := RawKey(other, 0);
    NodeIDOfRawKey(other, 0);
    assert raw in Names(replicas);
    var s := encrypt(raw);
    assert s in ring && raw in ring[s];
    SomeOther(ring[s], id, raw);
    assert s in Purge(ring, id).Keys;
  }

  lemma {:induction false} SomeOther(raws: seq<string>, id: string, raw: string)
    requires (forall r | r in raws :: '_' in r) && raw in raws && NodeID(raw) != id
    ensures Others(raws, id) != []
  {
    if raws[0] != raw {
      SomeOther(raws[1..], id, raw);
    }
  }

  /** Node IDs as the ring needs them: non-empty, without underscores, with at least one virtual node. */
  ghost predicate GoodNodes(replicas: map<string, nat>) {
    forall id | id in replicas :: id != "" && '_' !in id && replicas[id] > 0
  }

  ghost predicate PlainIDs(data: Data) {
    forall id | id in data :: '_' !in id
  }

  /** Keys have moved to node `id` only, and all are where they belong. */
  ghost predicate Arrived(ring: Ring, data: Data, data': Data, encrypt: string -> Score, id: string) {
    RingOk(ring) && Placed(ring, data', encrypt) && OnlyTo(data, data', id) && data'.Keys <= data.Keys + {id}
  }

  /** Keys have moved away from node `id` only, to where they belong without it. */
  ghost predicate Departed(ring: Ring, data: Data, data': Data, encrypt: string -> Score, id: string) {
    Leaving(ring, data', encrypt, id) && OnlyFrom(data, data', id)
  }

  /** A single score with a single virtual node. */
  lemma OnlyOne(ring: Ring, id: string, last: int, s: Score)
    requires RingOk(ring) && s in ring && |ring[s]| == 1 && Head(ring, s) == id
    requires IsFloor(ring.Keys, DecrScore(s), last) && (last == -1 || last == s)
    ensures Purge(ring, id).Keys == {}
  {
    FloorIsLast(ring.Keys, DecrScore(s), last);
    assert forall x | x in ring :: x == s;
    assert Others(ring[s], id) == [];
  }

  /** The node is known, and it is not the only one. */
  ghost predicate Company(replicas: map<string, nat>, id: string) {
    id in replicas && exists other :: other in replicas && other != id
  }

  lemma CompanyIs(replicas: map<string, nat>, id: string)
    requires id in replicas
    ensures Company(replicas, id) <==> replicas - {id} != map[]
    ensures replicas.Keys == {id} ==> replicas - {id} == map[]
  {
    var rest := replicas - {id};
    if Company(replicas, id) {
      var other :| other in replicas && other != id;
      assert other in rest;
    }
    if rest != map[] {
      assert SomeNode(rest) in replicas;
    }
  }

  ghost function SomeNode(replicas: map<string, nat>): (id: string)
    requires replicas != map[]
    ensures id in replicas
  {
    assert replicas.Keys != {};
    var id :| id in replicas;
    id
  }

  lemma RestIsPlain(rest: map<string, nat>, id: string, lo: nat, hi: nat)
    requires GoodNodes(rest) && id != "" && '_' !in id
    ensures PlainNames(Names(rest) + Range(id, lo, hi))
  {
    forall raw | raw in Names(rest) + Range(id, lo, hi) ensures '_' in raw && NodeID(raw) != "" && '_' !in NodeID(raw) {
      if raw in Names(rest) {
        RawIsPlain(rest, raw);
      } else {
        var i: nat :| lo <= i < hi && raw == RawKey(id, i);
        NodeIDOfRawKey(id, i);
      }
    }
  }

  lemma AlonePurged(ring: Ring, names: iset<string>, encrypt: string -> Score, id: string, lo: nat, hi: nat)
    requires Named(ring, names, encrypt) && names == Names(map[]) + Range(id, lo, hi)
    ensures Purge(ring, id).Keys == {}
  {
    forall s | s in ring ensures Others(ring[s], id) == [] {
      forall raw | raw in ring[s] ensures NodeID(raw) == id {
        var i: nat :| lo <= i < hi && raw == RawKey(id, i);
        NodeIDOfRawKey(id, i);
      }
    }
    assert forall s | s in ring :: s !in Purge(ring, id);
  }

  /** `AddNode` has put the virtual nodes `0..i` of `id` on the ring, beside those of the nodes `before`. */
  ghost predicate Adding(ring: Ring, data: Data, data': Data, encrypt: string -> Score, id: string,
                         before: map<string, nat>, i: nat) {
    id !in before && Named(ring, Names(before) + Range(id, 0, i), encrypt) && Arrived(ring, data, data', encrypt, id)
  }

  lemma AddingStart(ring: Ring, data: Data, encrypt: string -> Score, id: string, before: map<string, nat>)
    requires Named(ring, Names(before), encrypt) && Placed(ring, data, encrypt) && id !in before
    ensures Adding(ring, data, data, encrypt, id, before, 0)
  {
    assert Names(before) + Range(id, 0, 0) == Names(before);
  }

  lemma AddingEnd(ring: Ring, data: Data, data': Data, encrypt: string -> Score, id: string, before: map<string, nat>, count: nat)
    requires Adding(ring, data, data', encrypt, id, before, count) && PlainIDs(data) && '_' !in id
    requires GoodNodes(before) && id != "" && count > 0
    ensures Named(ring, Names(before[id := count]), encrypt) && PlainIDs(data') && GoodNodes(before[id := count])
  {
    NamesWith(before, id, count);
  }

  /** How many virtual nodes a node gets: its weight, but at least one and at most ten, times the replicas. */
  predicate Weighted(weight: int, replicas: nat, count: nat) {
    && (1 <= weight <= 10 ==> count == weight * replicas)
    && (weight <= 0 ==> count == replicas) && (weight > 10 ==> count == 10 * replicas)
  }

  /** The virtual node is somewhere on the ring. */
  ghost predicate IsOn(ring: Ring, raw: string) {
    exists s :: s in ring && raw in ring[s]
  }

  /** Exactly `id_0` to `id_(count - 1)` have been put on the ring. */
  ghost predicate Joined(ring: Ring, ring': Ring, id: string, count: nat) {
    forall raw :: IsOn(ring', raw) <==> IsOn(ring, raw) || IsReplica(id, count, raw)
  }

  ghost predicate IsReplica(id: string, count: nat, raw: string) {
    exists i: nat :: i < count && raw == id + "_" + Decimal(i)
  }

  lemma ReplicaInRange(id: string, count: nat, raw: string)
    ensures IsReplica(id, count, raw) <==> raw in Range(id, 0, count)
  {
    if IsReplica(id, count, raw) {
      var i: nat :| i < count && raw == id + "_" + Decimal(i);
      assert raw == RawKey(id, i);
    }
    if raw in Range(id, 0, count) {
      var i: nat :| i < count && raw == RawKey(id, i);
      assert raw == id + "_" + Decimal(i);
    }
  }

  lemma NamedIsOn(ring: Ring, names: iset<string>, encrypt: string -> Score, raw: string)
    requires Named(ring, names, encrypt)
    ensures IsOn(ring, raw) <==> raw in names
  {}

  lemma NamesJoined(ring: Ring, ring': Ring, encrypt: string -> Score, id: string, before: map<string, nat>, count: nat)
    requires id !in before && Named(ring, Names(before), encrypt) && Named(ring', Names(before[id := count]), encrypt)
    ensures Joined(ring, ring', id, count)
  {
    NamesWith(before, id, count);
    forall raw ensures IsOn(ring', raw) <==> IsOn(ring, raw) || IsReplica(id, count, raw) {
      NamedIsOn(ring, Names(before), encrypt, raw);
      NamedIsOn(ring', Names(before[id := count]), encrypt, raw);
      ReplicaInRange(id, count, raw);
    }
  }

  lemma AddingReady(before: map<string, nat>, id: string, i: nat)
    requires id !in before
    ensures RawKey(id, i) !in Names(before) + Range(id, 0, i)
  {
    RangeNext(id, 0, i);
    NamesApart(before, id, i, i + 1);
    assert RawKey(id, i) in Range(id, i, i + 1);
  }

  lemma AddingStep(ring: Ring, data: Data, data': Data, data'': Data, encrypt: string -> Score, id: string,
                   before: map<string, nat>, i: nat)
    requires id !in before && Named(ring, Names(before) + Range(id, 0, i) + iset{RawKey(id, i)}, encrypt)
    requires OnlyTo(data, data', id) && data'.Keys <= data.Keys + {id} && Arrived(ring, data', data'', encrypt, id)
    ensures Adding(ring, data, data'', encrypt, id, before, i + 1)
  {
    RangeNext(id, 0, i);
    OnlyToTrans(data, data', data'', id);
    assert Names(before) + Range(id, 0, i) + iset{RawKey(id, i)} == Names(before) + Range(id, 0, i + 1);
  }

  /** `RemoveNode` has taken out the virtual nodes `0..i` of `id`; `rest` are the other nodes. */
  ghost predicate Removing(ring: Ring, data: Data, data': Data, encrypt: string -> Score,
                           id: string, rest: map<string, nat>, other: string, i: nat, count: nat) {
    && Named(ring, Names(rest) + Range(id, i, count), encrypt) && PlainIDs(data')
    && id !in rest && GoodNodes(rest) && id != "" && '_' !in id && (rest == map[] || other in rest)
    && (other in rest ==> Departed(ring, data, data', encrypt, id))
  }

  lemma RemovingStart(ring: Ring, data: Data, encrypt: string -> Score, id: string, replicas: map<string, nat>, other: string)
    requires Named(ring, Names(replicas), encrypt) && PlainIDs(data) && Placed(ring, data, encrypt)
    requires id in replicas && GoodNodes(replicas) && (replicas - {id} == map[] || other in replicas - {id})
    ensures Removing(ring, data, data, encrypt, id, replicas - {id}, other, 0, replicas[id])
  {
    var rest, count := replicas - {id}, replicas[id];
    NamesWith(rest, id, count);
    assert rest[id := count] == replicas;
    if other in rest {
      OthersRemain(ring, rest, Names(rest) + Range(id, 0, count), encrypt, id, other);
      PlacedIsLeaving(ring, data, encrypt, id);
    }
  }

  lemma RemovingEnd(ring: Ring, data: Data, data': Data, encrypt: string -> Score, id: string,
                    rest: map<string, nat>, other: string, count: nat)
    requires Removing(ring, data, data', encrypt, id, rest, other, count, count) && other in rest
    ensures Named(ring, Names(rest), encrypt) && Placed(ring, data', encrypt) && PlainIDs(data') && GoodNodes(rest)
    ensures OnlyFrom(data, data', id)
  {
    assert Names(rest) + Range(id, count, count) == Names(rest);
    NamesGone(ring, rest, encrypt, id);
    LeftIsPlaced(ring, data', encrypt, id);
  }

  lemma RemovingReady(ring: Ring, data: Data, data': Data, encrypt: string -> Score,
                      id: string, rest: map<string, nat>, other: string, i: nat, count: nat)
    requires Removing(ring, data, data', encrypt, id, rest, other, i, count) && i < count
    ensures var names := Names(rest) + Range(id, i, count); PlainNames(names) && RawKey(id, i) in names
    ensures Purge(ring, id).Keys != {} ==> Leaving(ring, data', encrypt, id)
    ensures other in rest ==> Purge(ring, id).Keys != {}
  {
    RestIsPlain(rest, id, i, count);
    RangeFirst(id, i, count);
    if other !in rest {
      AlonePurged(ring, Names(rest) + Range(id, i, count), encrypt, id, i, count);
    }
  }

  lemma RemovingStep(ring: Ring, data: Data, data': Data, data'': Data, encrypt: string -> Score,
                     id: string, rest: map<string, nat>, other: string, i: nat, count: nat)
    requires i < count && id !in rest && GoodNodes(rest) && id != "" && '_' !in id && (rest == map[] || other in rest)
    requires Named(ring, Names(rest) + Range(id, i, count) - iset{RawKey(id, i)}, encrypt) && PlainIDs(data'')
    requires other in rest ==> OnlyFrom(data, data', id) && Departed(ring, data', data'', encrypt, id)
    ensures Removing(ring, data, data'', encrypt, id, rest, other, i + 1, count)
  {
    RangeFirst(id, i, count);
    NamesApart(rest, id, i, i + 1);
    assert Names(rest) + Range(id, i, count) - iset{RawKey(id, i)} == Names(rest) + Range(id, i + 1, count);
    if other in rest {
      OnlyFromTrans(data, data', data'', id);
    }
  }

  // ---------- The last node ----------

  /** All virtual nodes on the ring belong to `id`. */
  ghost predicate Alone(ring: Ring, id: string) {
    forall s | s in ring :: AllOf(ring[s], id)
  }

  ghost predicate AllOf(raws: seq<string>, id: string) {
    forall raw | raw in raws :: '_' in raw && NodeID(raw) == id
  }

  ghost predicate SameKeys(data: Data, data': Data) {
    forall id :: KeysOf(data', id) == KeysOf(data, id)
  }

  /** There is one score, with one virtual node. */
  ghost predicate Single(ring: Ring, s: int) {
    ring.Keys == {s} && |ring[s]| == 1
  }

  /** What is left of `migrateOut` when there is no other node: it keeps the keys, and fails at the latest at the last score. */
  ghost predicate Stuck(ring: Ring, s: int, data: Data, data': Data, id: string, ok: bool) {
    SameKeys(data, data') && (KeysOf(data, id) == {} ==> ok) && (ok && Single(ring, s) ==> KeysOf(data, id) == {})
  }

  /** The outcome of `migrateOut`, with and without another node. */
  ghost predicate MigratedOut(ring: Ring, s: int, raw: string, data: Data, data': Data, encrypt: string -> Score, id: string, ok: bool)
    requires RingOk(ring) && s in ring
  {
    && (PlainIDs(data) ==> PlainIDs(data')) && (Alone(ring, id) ==> Stuck(ring, s, data, data', id, ok))
    && (Purge(ring, id).Keys != {} ==> ok && Departed(RemoveFrom(ring, s, raw), data, data', encrypt, id))
  }

  lemma HandedOver(ring: Ring, data: Data, encrypt: string -> Score, id: string, last: int, s: Score, raw: string,
                   to: string, keys: set<string>)
    requires RingOk(ring) && s in ring && raw in ring[s] && NodeID(raw) == id && IsFloor(ring.Keys, DecrScore(s), last)
    requires Purge(ring, id).Keys != {} ==> Leaving(ring, data, encrypt, id) && Heir(ring, id, s, raw, to)
    requires forall k :: k in keys <==> k in KeysOf(data, id) && MigrateOutTest(last, s, encrypt(k))
    requires '_' !in to && (Alone(ring, id) ==> to == id) && ((last != -1 && last != s) || |ring[s]| > 1)
    ensures var data' := if keys == {} then data else MoveKeys(data, id, to, keys);
      MigratedOut(ring, s, raw, data, data', encrypt, id, true)
  {
    if Purge(ring, id).Keys != {} {
      HeadMoves(ring, data, encrypt, id, last, s, raw, to, keys);
    }
    ToItself(data, id, keys);
  }

  lemma RangeOwned(id: string, lo: nat, hi: nat, raw: string)
    requires raw in Names(map[]) + Range(id, lo, hi)
    ensures '_' in raw && NodeID(raw) == id && raw in Range(id, lo, hi) && lo < hi && (lo + 1 == hi ==> raw == RawKey(id, lo))
  {
    var i: nat :| lo <= i < hi && raw == RawKey(id, i);
    NodeIDOfRawKey(id, i);
  }

  lemma NamedAlone(ring: Ring, encrypt: string -> Score, id: string, lo: nat, hi: nat)
    requires Named(ring, Names(map[]) + Range(id, lo, hi), encrypt)
    ensures Alone(ring, id) && (lo == hi ==> ring.Keys == {})
  {
    forall s | s in ring ensures AllOf(ring[s], id) && lo < hi {
      forall raw | raw in ring[s] ensures '_' in raw && NodeID(raw) == id && lo < hi {
        RangeOwned(id, lo, hi, raw);
      }
      assert ring[s][0] in ring[s];
    }
  }

  lemma NamedSingle(ring: Ring, encrypt: string -> Score, id: string, i: nat)
    requires Named(ring, Names(map[]) + Range(id, i, i + 1), encrypt)
    ensures Single(ring, encrypt(RawKey(id, i)))
  {
    var raw := RawKey(id, i);
    assert raw in Range(id, i, i + 1);
    forall s | s in ring ensures s == encrypt(raw) && |ring[s]| == 1 {
      assert ring[s][0] in ring[s];
      RangeOwned(id, i, i + 1, ring[s][0]);
      if |ring[s]| > 1 {
        RangeOwned(id, i, i + 1, ring[s][1]);
      }
    }
  }

  /** Keys that a node takes from itself stay with it. */
  lemma ToItself(data: Data, id: string, keys: set<string>)
    requires keys <= KeysOf(data, id)
    ensures SameKeys(data, MoveKeys(data, id, id, keys))
  {
    assert KeysOf(MoveKeys(data, id, id, keys), id) == KeysOf(data, id);
  }

  /** The last node has gone, with its keys never looked up or none left. */
  lemma NoneLeft(ring: Ring, data: Data, encrypt: string -> Score, id: string)
    requires RingOk(ring) && Alone(ring, id) && Placed(ring, data, encrypt) && KeysOf(data, id) == {}
    ensures Named(map[], Names(map[]), encrypt) && Placed(map[], data, encrypt)
  {
    EmptyStart(encrypt);
    forall other, k | k in KeysOf(data, other) ensures other == id {
      OwnerAlone(ring, id, encrypt(k));
    }
  }

  lemma OwnerAlone(ring: Ring, id: string, d: Score)
    requires RingOk(ring) && ring.Keys != {} && Alone(ring, id)
    ensures Owner(ring, d) == id
  {
    assert ring[Ceil(ring.Keys, d)][0] in ring[Ceil(ring.Keys, d)];
  }

  /** One round of removing the last node. */
  lemma AloneStep(ring: Ring, data: Data, here: Data, now: Data, encrypt: string -> Score, id: string, i: nat, count: nat, ok: bool)
    requires i < count && Named(ring, Names(map[]) + Range(id, i, count), encrypt) && SameKeys(data, here)
    requires encrypt(RawKey(id, i)) in ring && MigratedOut(ring, encrypt(RawKey(id, i)), RawKey(id, i), here, now, encrypt, id, ok)
    ensures SameKeys(data, now) && (!ok ==> KeysOf(data, id) != {} && ring.Keys != {})
    ensures ok && i + 1 == count ==> KeysOf(data, id) == {}
  {
    NamedAlone(ring, encrypt, id, i, count);
    if i + 1 == count {
      NamedSingle(ring, encrypt, id, i);
    }
  }

  lemma PlacedSame(ring: Ring, data: Data, data': Data, encrypt: string -> Score)
    requires RingOk(ring) && Placed(ring, data, encrypt) && SameKeys(data, data')
    ensures Placed(ring, data', encrypt)
  {
    forall id, k | k in KeysOf(data', id) ensures ring.Keys != {} {
      assert KeysOf(data', id) == KeysOf(data, id);
      RecordedOnce(ring, data, encrypt, k, id, id);
    }
    if ring.Keys != {} {
      forall id, k | k in KeysOf(data', id) ensures Owner(ring, encrypt(k)) == id {
        assert KeysOf(data', id) == KeysOf(data, id);
        RecordedOnce(ring, data, encrypt, k, id, id);
      }
    }
  }

  /** The last node goes exactly if no key is recorded under it; otherwise its name goes, but not its virtual nodes. */
  lemma AloneEnd(ring: Ring, data: Data, ring': Ring, data': Data, encrypt: string -> Score, id: string, count: nat, ok: bool)
    requires Named(ring, Names(map[id := count]), encrypt) && Placed(ring, data, encrypt) && SameKeys(data, data')
    requires RingOk(ring') && (ok <==> KeysOf(data, id) == {}) && (ok <==> ring'.Keys == {})
    ensures Named(ring', Names(map[]), encrypt) && Placed(ring', data', encrypt) <==> ok
  {
    if ok {
      NamesWith(map[], id, count);
      assert map[][id := count] == map[id := count];
      NamedAlone(ring, encrypt, id, 0, count);
      NoneLeft(ring, data, encrypt, id);
      assert ring' == map[];
      PlacedSame(ring', data, data', encrypt);
    } else if Named(ring', Names(map[]), encrypt) {
      assert Names(map[]) + Range(id, 0, 0) == Names(map[]);
      NamedAlone(ring', encrypt, id, 0, 0);
    }
  }

  lemma LastGone(replicas: map<string, nat>, ring: Ring, data: Data, ring': Ring, data': Data, encrypt: string -> Score,
                 id: string, count: nat, ok: bool)
    requires id in replicas && replicas - {id} == map[] && count == replicas[id]
    requires Named(ring, Names(replicas), encrypt) && Placed(ring, data, encrypt) && SameKeys(data, data')
    requires RingOk(ring') && (ok <==> KeysOf(data, id) == {}) && (!ok ==> ring'.Keys != {})
    requires ok ==> Named(ring', Names(map[]) + Range(id, count, count), encrypt)
    ensures Named(ring', Names(replicas - {id}), encrypt) && Placed(ring', data', encrypt) <==> ok
  {
    assert replicas == map[id := count];
    if ok {
      NamedAlone(ring', encrypt, id, count, count);
    }
    AloneEnd(ring, data, ring', data', encrypt, id, count, ok);
  }

  ghost predicate PlainNames(names: iset<string>) {
    forall raw | raw in names :: '_' in raw && NodeID(raw) != "" && '_' !in NodeID(raw)
  }

  ghost predicate PlainRing(ring: Ring) {
    forall s | s in ring :: PlainAt(ring[s])
  }

  ghost predicate PlainAt(raws: seq<string>) {
    forall raw | raw in raws :: '_' in raw && NodeID(raw) != "" && '_' !in NodeID(raw)
  }

  lemma NamedIsPlain(ring: Ring, names: iset<string>, encrypt: string -> Score)
    requires Named(ring, names, encrypt) && PlainNames(names)
    ensures PlainRing(ring)
  {}

  lemma EmptyStart(encrypt: string -> Score)
    ensures Named(map[], Names(map[]), encrypt) && Placed(map[], map[], encrypt)
  {
    forall raw ensures raw !in Names(map[]) {}
    forall id ensures KeysOf(map[], id) == {} {}
  }

  // ---------- The search for an heir ----------

  /** The search from `start` has come to `cur` without finding another node. */
  ghost predicate Searching(ring: Ring, id: string, start: Score, cur: Score, ranged: set<int>) {
    && RingOk(ring) && PlainRing(ring) && Walked(ring, id, start, cur) && Ranged(ring.Keys, start, cur, ranged)
    && |ring[start]| == 1 && Head(ring, start) == id
  }

  /** The outcome of the search: an heir, if there is another node. */
  ghost predicate Found(ring: Ring, id: string, s: int, raw: string, to: string)
    requires RingOk(ring) && s in ring
  {
    && (to != "" ==> '_' !in to) && (Alone(ring, id) ==> to == "" || to == id)
    && (Purge(ring, id).Keys != {} ==> to != "" && Heir(ring, id, s, raw, to))
  }

  lemma SearchWraps(ring: Ring, id: string, start: Score, cur: Score, ranged: set<int>, next: int)
    requires Searching(ring, id, start, cur, ranged) && IsCeiling(ring.Keys, IncrScore(cur), next) && (next == -1 || next in ranged)
    ensures Found(ring, id, start, ring[start][0], "")
  {
    CeilingIsFirst(ring.Keys, IncrScore(cur), next);
    RangedIsBehind(ring.Keys, start, cur, next, ranged);
    WrappedAround(ring, id, start, cur, next);
  }

  lemma SearchGoes(ring: Ring, id: string, start: Score, cur: Score, ranged: set<int>, next: int)
    requires Searching(ring, id, start, cur, ranged) && IsCeiling(ring.Keys, IncrScore(cur), next) && next !in ranged
    requires next in ring && NodeID(ring[next][0]) == id && |ring[next]| == 1
    ensures 0 <= next <= MAX_INT32 && Searching(ring, id, start, next, ranged + {cur})
    ensures Dist(start, cur) < Dist(start, next) || (next == cur && cur !in ranged)
  {
    CeilingIsFirst(ring.Keys, IncrScore(cur), next);
    RangedOn(ring.Keys, start, cur, next, ranged);
    WalkOn(ring, id, start, cur, next);
  }

  lemma SearchStops(ring: Ring, id: string, start: Score, cur: Score, ranged: set<int>, next: int, to: string)
    requires Searching(ring, id, start, cur, ranged) && IsCeiling(ring.Keys, IncrScore(cur), next) && next in ring
    requires to != "" && '_' !in to && (NodeID(ring[next][0]) != id || |ring[next]| > 1)
    requires to == if NodeID(ring[next][0]) != id then NodeID(ring[next][0]) else NodeID(ring[next][1])
    ensures Found(ring, id, start, ring[start][0], to)
  {
    CeilingIsFirst(ring.Keys, IncrScore(cur), next);
    assert ring[next][0] in ring[next] && (|ring[next]| > 1 ==> ring[next][1] in ring[next]);
    if Purge(ring, id).Keys != {} {
      HeirAtNext(ring, id, start, ring[start][0], cur, next, to);
    }
  }

  class ConsistentHash {
    const hashRing: SkiplistHashRing
    const encrypt: string -> Score
    const replicas: nat

    /** The virtual nodes are those of the known nodes, and every recorded key is under its owner. */
    ghost predicate Valid()
      reads this, hashRing, hashRing.spine
    {
      && hashRing.Valid() && replicas > 0 && GoodNodes(hashRing.nodeToReplicas)
      && Named(hashRing.ring, Names(hashRing.nodeToReplicas), encrypt)
      && Placed(hashRing.ring, hashRing.nodeToDataKey, encrypt) && PlainIDs(hashRing.nodeToDataKey)
    }

    constructor (hashRing: SkiplistHashRing, encrypt: string -> Score, replicas: int)
      requires hashRing.Valid() && hashRing.ring == map[] && hashRing.nodeToReplicas == map[] && hashRing.nodeToDataKey == map[]
      ensures Valid() && this.hashRing == hashRing && this.encrypt == encrypt
      ensures this.replicas == if replicas <= 0 then 5 else replicas
    {
      ghost var links := LinksOf(hashRing.spine);
      this.hashRing, this.encrypt := hashRing, encrypt;
      this.replicas := if replicas <= 0 then 5 else replicas;
      new;
      EmptyStart(encrypt);
      assert links == LinksOf(hashRing.spine) && SkipList(hashRing.spine, links);
    }

    function ValidWeight(weight: int): nat {
      if weight <= 0 then 1 else if weight >= 10 then 10 else weight
    }

    /** `migrateIn`: the keys that fall to a new score come over from the next one. */
    method MigrateIn(virtualScore: Score, nodeID: string)
      requires hashRing.Valid() && JustAdded(hashRing.ring, hashRing.nodeToDataKey, encrypt, virtualScore, nodeID)
      modifies hashRing`nodeToDataKey
      ensures hashRing.Valid() && Arrived(hashRing.ring, old(hashRing.nodeToDataKey), hashRing.nodeToDataKey, encrypt, nodeID)
    {
      ghost var ring, data := hashRing.ring, hashRing.nodeToDataKey;
      var nodes := hashRing.Node(virtualScore);
      if |nodes.value| > 1 {
        return;
      }
      var lastScore := hashRing.Floor(DecrScore(virtualScore));
      var nextScore := hashRing.Ceiling(IncrScore(virtualScore));
      NeighboursFacts(ring.Keys, lastScore, virtualScore, nextScore);
      if lastScore == -1 || lastScore == virtualScore || nextScore == -1 || nextScore == virtualScore {
        FirstScorePlaced(ring, virtualScore, data, encrypt);
        return;
      }
      TakeKeys(lastScore, virtualScore, nextScore, nodeID);
    }

    /** The second half of `migrateIn`: take the keys of the arc from the first node at the next score. */
    method TakeKeys(lastScore: int, virtualScore: Score, nextScore: int, nodeID: string)
      requires hashRing.Valid() && JustAdded(hashRing.ring, hashRing.nodeToDataKey, encrypt, virtualScore, nodeID)
      requires |hashRing.ring[virtualScore]| == 1 && lastScore != virtualScore && nextScore in hashRing.ring
      requires Neighbours(hashRing.ring.Keys, lastScore, virtualScore, nextScore)
      modifies hashRing`nodeToDataKey
      ensures hashRing.Valid() && Arrived(hashRing.ring, old(hashRing.nodeToDataKey), hashRing.nodeToDataKey, encrypt, nodeID)
    {
      var nextNodes := hashRing.Node(nextScore);
      assert nextNodes.value[0] in hashRing.ring[nextScore];
      var from := NodeID(nextNodes.value[0]);
      var dataKeys := hashRing.DataKeys(from);
      var keys := SelectIn(dataKeys, encrypt, lastScore, virtualScore, nextScore);
      NewScoreMoves(hashRing.ring, lastScore, virtualScore, nextScore, hashRing.nodeToDataKey, encrypt, nodeID, keys);
      hashRing.DeleteNodeToDataKeys(from, keys);
      hashRing.AddNodeToDataKeys(nodeID, keys);
    }

    /** One round of `AddNode`: put a virtual node on the ring and move the keys that fall to it. */
    method AddVirtual(nodeID: string, i: nat, ghost names: iset<string>)
      requires hashRing.Valid() && Named(hashRing.ring, names, encrypt) && RawKey(nodeID, i) !in names
      requires Placed(hashRing.ring, hashRing.nodeToDataKey, encrypt)
      modifies hashRing`spine, hashRing`ring, hashRing`nodeToDataKey, hashRing.Nodes()`nexts, hashRing.Nodes()`nodeIDs
      ensures hashRing.Valid() && fresh(hashRing.Nodes() - old(hashRing.Nodes()))
      ensures Named(hashRing.ring, names + iset{RawKey(nodeID, i)}, encrypt)
      ensures Arrived(hashRing.ring, old(hashRing.nodeToDataKey), hashRing.nodeToDataKey, encrypt, nodeID)
    {
      var nodeKey := RawKey(nodeID, i);
      var virtualScore := encrypt(nodeKey);
      NodeIDOfRawKey(nodeID, i);
      AddNamed(hashRing.ring, names, encrypt, nodeKey);
      AddIsJustAdded(hashRing.ring, hashRing.nodeToDataKey, encrypt, virtualScore, nodeKey, nodeID);
      var rLevel: nat := *;
      hashRing.Add(virtualScore, nodeKey, rLevel);
      MigrateIn(virtualScore, nodeID);
    }

    /** The loop of `AddNode`. */
    method AddVirtuals(nodeID: string, count: nat, ghost before: map<string, nat>)
      requires hashRing.Valid() && Adding(hashRing.ring, hashRing.nodeToDataKey, hashRing.nodeToDataKey, encrypt, nodeID, before, 0)
      modifies hashRing`spine, hashRing`ring, hashRing`nodeToDataKey, hashRing.Nodes()`nexts, hashRing.Nodes()`nodeIDs
      ensures hashRing.Valid() && fresh(hashRing.Nodes() - old(hashRing.Nodes()))
      ensures Adding(hashRing.ring, old(hashRing.nodeToDataKey), hashRing.nodeToDataKey, encrypt, nodeID, before, count)
    {
      ghost var data := hashRing.nodeToDataKey;
      for i := 0 to count
        invariant hashRing.Valid() && fresh(hashRing.Nodes() - old(hashRing.Nodes()))
        invariant Adding(hashRing.ring, data, hashRing.nodeToDataKey, encrypt, nodeID, before, i)
      {
        ghost var here := hashRing.nodeToDataKey;
        AddingReady(before, nodeID, i);
        AddVirtual(nodeID, i, Names(before) + Range(nodeID, 0, i));
        AddingStep(hashRing.ring, data, here, hashRing.nodeToDataKey, encrypt, nodeID, before, i);
      }
    }

    /** The part of `AddNode` behind the check that the node is new. */
    method AddFresh(nodeID: string, count: nat)
      requires Valid() && nodeID != "" && '_' !in nodeID && nodeID !in hashRing.nodeToReplicas && count > 0
      modifies hashRing, hashRing.Nodes()
      ensures Valid() && fresh(hashRing.Nodes() - old(hashRing.Nodes()))
      ensures hashRing.nodeToReplicas == old(hashRing.nodeToReplicas)[nodeID := count]
      ensures Joined(old(hashRing.ring), hashRing.ring, nodeID, count)
      ensures OnlyTo(old(hashRing.nodeToDataKey), hashRing.nodeToDataKey, nodeID)
    {
      ghost var before, data, ring := hashRing.nodeToReplicas, hashRing.nodeToDataKey, hashRing.ring;
      AddingStart(ring, data, encrypt, nodeID, before);
      hashRing.AddNodeToReplica(nodeID, count);
      AddVirtuals(nodeID, count, before);
      AddingEnd(hashRing.ring, data, hashRing.nodeToDataKey, encrypt, nodeID, before, count);
      NamesJoined(ring, hashRing.ring, encrypt, nodeID, before, count);
    }

    /** `AddNode`: keys move to the new node only. */
    method AddNode(nodeID: string, weight: int) returns (ok: bool)
      requires Valid() && nodeID != "" && '_' !in nodeID
      modifies hashRing, hashRing.Nodes()
      ensures Valid() && fresh(hashRing.Nodes() - old(hashRing.Nodes()))
      ensures ok <==> nodeID !in old(hashRing.nodeToReplicas)
      ensures !ok ==> unchanged(hashRing)
      ensures ok ==> nodeID in hashRing.nodeToReplicas && Weighted(weight, replicas, hashRing.nodeToReplicas[nodeID])
      ensures ok ==> hashRing.nodeToReplicas == old(hashRing.nodeToReplicas)[nodeID := hashRing.nodeToReplicas[nodeID]]
      ensures ok ==> Joined(old(hashRing.ring), hashRing.ring, nodeID, hashRing.nodeToReplicas[nodeID])
      ensures ok ==> OnlyTo(old(hashRing.nodeToDataKey), hashRing.nodeToDataKey, nodeID)
    {
      if nodeID in hashRing.nodeToReplicas {
        return false;
      }
      AddFresh(nodeID, ValidWeight(weight) * replicas);
      ok := true;
    }

    /** The first node at a score that is not `nodeID`, or else the second, or none. */
    method PickAt(nodes: seq<string>, nodeID: string) returns (to: string)
      requires nodes != [] && PlainAt(nodes)
      ensures '_' !in to && (to == "" <==> NodeID(nodes[0]) == nodeID && |nodes| == 1)
      ensures to != "" ==> to == if NodeID(nodes[0]) != nodeID then NodeID(nodes[0]) else NodeID(nodes[1])
      ensures AllOf(nodes, nodeID) ==> to == "" || to == nodeID
    {
      assert nodes[0] in nodes;
      if NodeID(nodes[0]) != nodeID {
        to := NodeID(nodes[0]);
      } else if |nodes| > 1 {
        assert nodes[1] in nodes;
        to := NodeID(nodes[1]);
      } else {
        to := "";
      }
    }

    /** `getValidNextNode`: the first node after `score` that is not `nodeID`, as far as it looks. */
    method GetValidNextNode(score: Score, nodeID: string, ranged: set<int>, ghost start: Score) returns (to: string)
      requires hashRing.Valid() && Searching(hashRing.ring, nodeID, start, score, ranged)
      ensures Found(hashRing.ring, nodeID, start, hashRing.ring[start][0], to)
      decreases MAX_INT32 - Dist(start, score), if score in ranged then 0 else 1
    {
      ghost var ring := hashRing.ring;
      var nextScore := hashRing.Ceiling(IncrScore(score));
      if nextScore == -1 || nextScore in ranged {
        SearchWraps(ring, nodeID, start, score, ranged, nextScore);
        return "";
      }
      var nextNodes := hashRing.Node(nextScore);
      to := PickAt(nextNodes.value, nodeID);
      if to == "" {
        SearchGoes(ring, nodeID, start, score, ranged, nextScore);
        to := GetValidNextNode(nextScore, nodeID, ranged + {score}, start);
      } else {
        SearchStops(ring, nodeID, start, score, ranged, nextScore, to);
      }
    }

    /** The node that the keys of a leaving virtual node go to: the next one at its score, or at a later one. */
    method FindHeir(virtualScore: Score, nodeID: string, nodes: seq<string>, ghost raw: string)
      returns (to: string)
      requires hashRing.Valid() && RingOk(hashRing.ring) && PlainRing(hashRing.ring)
      requires virtualScore in hashRing.ring && nodes == hashRing.ring[virtualScore] && Head(hashRing.ring, virtualScore) == nodeID
      requires raw in nodes && NodeID(raw) == nodeID
      ensures Found(hashRing.ring, nodeID, virtualScore, raw, to)
    {
      if |nodes| > 1 {
        assert nodes[1] in hashRing.ring[virtualScore];
        if Purge(hashRing.ring, nodeID).Keys != {} {
          HeirAtScore(hashRing.ring, nodeID, virtualScore, raw);
        }
        to := NodeID(nodes[1]);
      } else {
        assert Walked(hashRing.ring, nodeID, virtualScore, virtualScore);
        to := GetValidNextNode(virtualScore, nodeID, {}, virtualScore);
      }
    }

    /** `migrateOut`: an error only if there is no other node. */
    method MigrateOut(virtualScore: Score, nodeID: string, ghost raw: string, ghost names: iset<string>) returns (ok: bool)
      requires hashRing.Valid() && Named(hashRing.ring, names, encrypt) && PlainNames(names)
      requires raw in names && NodeID(raw) == nodeID && virtualScore == encrypt(raw)
      requires Purge(hashRing.ring, nodeID).Keys != {} ==> Leaving(hashRing.ring, hashRing.nodeToDataKey, encrypt, nodeID)
      modifies hashRing`nodeToDataKey
      ensures hashRing.Valid()
      ensures MigratedOut(hashRing.ring, virtualScore, raw, old(hashRing.nodeToDataKey), hashRing.nodeToDataKey, encrypt, nodeID, ok)
    {
      var nodes := hashRing.Node(virtualScore);
      assert nodes.value[0] in hashRing.ring[virtualScore];
      if NodeID(nodes.value[0]) != nodeID {
        if Purge(hashRing.ring, nodeID).Keys != {} {
          QuietRemoval(hashRing.ring, hashRing.nodeToDataKey, encrypt, nodeID, virtualScore, raw);
        }
        return true;
      }
      var allDatas := hashRing.DataKeys(nodeID);
      if allDatas == {} {
        if Purge(hashRing.ring, nodeID).Keys != {} {
          EmptyRemoval(hashRing.ring, hashRing.nodeToDataKey, encrypt, nodeID, virtualScore, raw);
        }
        return true;
      }
      NamedIsPlain(hashRing.ring, names, encrypt);
      ok := HandOver(virtualScore, nodeID, nodes.value, allDatas, raw);
    }

    /** The second half of `migrateOut`. */
    method HandOver(virtualScore: Score, nodeID: string, nodes: seq<string>, allDatas: set<string>, ghost raw: string)
      returns (ok: bool)
      requires hashRing.Valid() && RingOk(hashRing.ring) && PlainRing(hashRing.ring)
      requires virtualScore in hashRing.ring && nodes == hashRing.ring[virtualScore] && Head(hashRing.ring, virtualScore) == nodeID
      requires raw in nodes && NodeID(raw) == nodeID && allDatas == KeysOf(hashRing.nodeToDataKey, nodeID) != {}
      requires Purge(hashRing.ring, nodeID).Keys != {} ==> Leaving(hashRing.ring, hashRing.nodeToDataKey, encrypt, nodeID)
      modifies hashRing`nodeToDataKey
      ensures hashRing.Valid()
      ensures MigratedOut(hashRing.ring, virtualScore, raw, old(hashRing.nodeToDataKey), hashRing.nodeToDataKey, encrypt, nodeID, ok)
    {
      var lastScore := hashRing.Floor(DecrScore(virtualScore));
      var to := "";
      if (lastScore == -1 || lastScore == virtualScore) && |nodes| == 1 {
        OnlyOne(hashRing.ring, nodeID, lastScore, virtualScore);
      } else {
        to := FindHeir(virtualScore, nodeID, nodes, raw);
      }
      ok := to != "";
      if ok {
        GiveKeys(virtualScore, lastScore, nodeID, to, allDatas, raw);
      }
    }

    method GiveKeys(virtualScore: Score, lastScore: int, nodeID: string, to: string, allDatas: set<string>, ghost raw: string)
      requires hashRing.Valid() && RingOk(hashRing.ring) && virtualScore in hashRing.ring
      requires raw in hashRing.ring[virtualScore] && NodeID(raw) == nodeID && allDatas == KeysOf(hashRing.nodeToDataKey, nodeID)
      requires IsFloor(hashRing.ring.Keys, DecrScore(virtualScore), lastScore)
      requires (lastScore != -1 && lastScore != virtualScore) || |hashRing.ring[virtualScore]| > 1
      requires Purge(hashRing.ring, nodeID).Keys != {} ==> Leaving(hashRing.ring, hashRing.nodeToDataKey, encrypt, nodeID)
      requires to != "" && Found(hashRing.ring, nodeID, virtualScore, raw, to)
      modifies hashRing`nodeToDataKey
      ensures hashRing.Valid()
      ensures MigratedOut(hashRing.ring, virtualScore, raw, old(hashRing.nodeToDataKey), hashRing.nodeToDataKey, encrypt, nodeID, true)
    {
      var keys := SelectOut(allDatas, encrypt, lastScore, virtualScore);
      HandedOver(hashRing.ring, hashRing.nodeToDataKey, encrypt, nodeID, lastScore, virtualScore, raw, to, keys);
      if keys != {} {
        hashRing.DeleteNodeToDataKeys(nodeID, keys);
        hashRing.AddNodeToDataKeys(to, keys);
      }
    }

    /** One round of `RemoveNode`. */
    method RemoveVirtual(nodeID: string, i: nat, ghost names: iset<string>) returns (ok: bool)
      requires hashRing.Valid() && Named(hashRing.ring, names, encrypt) && PlainNames(names) && RawKey(nodeID, i) in names
      requires PlainIDs(hashRing.nodeToDataKey)
      requires Purge(hashRing.ring, nodeID).Keys != {} ==> Leaving(hashRing.ring, hashRing.nodeToDataKey, encrypt, nodeID)
      modifies hashRing`spine, hashRing`ring, hashRing`nodeToDataKey, hashRing.Nodes()`nexts, hashRing.Nodes()`nodeIDs
      ensures hashRing.Valid() && hashRing.Nodes() <= old(hashRing.Nodes()) && PlainIDs(hashRing.nodeToDataKey)
      ensures ok ==> Named(hashRing.ring, names - iset{RawKey(nodeID, i)}, encrypt)
      ensures var s := encrypt(RawKey(nodeID, i));
        && hashRing.ring == (if ok then RemoveFrom(old(hashRing.ring), s, RawKey(nodeID, i)) else old(hashRing.ring))
        && MigratedOut(old(hashRing.ring), s, RawKey(nodeID, i), old(hashRing.nodeToDataKey), hashRing.nodeToDataKey, encrypt, nodeID, ok)
    {
      var nodeKey := RawKey(nodeID, i);
      var virtualScore := encrypt(nodeKey);
      NodeIDOfRawKey(nodeID, i);
      ok := MigrateOut(virtualScore, nodeID, nodeKey, names);
      if !ok {
        return;
      }
      RemoveNamed(hashRing.ring, names, encrypt, nodeKey);
      assert hashRing.nodeToDataKey - {nodeKey} == hashRing.nodeToDataKey;
      ok := hashRing.Rem(virtualScore, nodeKey);
    }

    /** The loop of `RemoveNode`. */
    method RemoveVirtuals(nodeID: string, count: nat, ghost rest: map<string, nat>, ghost other: string) returns (ok: bool)
      requires hashRing.Valid() && count > 0
      requires Removing(hashRing.ring, hashRing.nodeToDataKey, hashRing.nodeToDataKey, encrypt, nodeID, rest, other, 0, count)
      modifies hashRing`spine, hashRing`ring, hashRing`nodeToDataKey, hashRing.Nodes()`nexts, hashRing.Nodes()`nodeIDs
      ensures hashRing.Valid() && hashRing.Nodes() <= old(hashRing.Nodes())
      ensures other in rest ==> ok
      ensures rest == map[] ==> SameKeys(old(hashRing.nodeToDataKey), hashRing.nodeToDataKey)
      ensures rest == map[] ==> (ok <==> KeysOf(old(hashRing.nodeToDataKey), nodeID) == {})
      ensures rest == map[] ==> RingOk(hashRing.ring) && PlainIDs(hashRing.nodeToDataKey) && (!ok ==> hashRing.ring.Keys != {})
      ensures ok ==>
                Removing(hashRing.ring, old(hashRing.nodeToDataKey), hashRing.nodeToDataKey, encrypt, nodeID, rest, other, count, count)
    {
      ghost var data := hashRing.nodeToDataKey;
      for i := 0 to count
        invariant hashRing.Valid() && hashRing.Nodes() <= old(hashRing.Nodes())
        invariant Removing(hashRing.ring, data, hashRing.nodeToDataKey, encrypt, nodeID, rest, other, i, count)
        invariant rest == map[] ==> SameKeys(data, hashRing.nodeToDataKey) && (i == count ==> KeysOf(data, nodeID) == {})
      {
        ghost var here, names, ring := hashRing.nodeToDataKey, Names(rest) + Range(nodeID, i, count), hashRing.ring;
        RemovingReady(ring, data, here, encrypt, nodeID, rest, other, i, count);
        ok := RemoveVirtual(nodeID, i, names);
        if rest == map[] {
          AloneStep(ring, data, here, hashRing.nodeToDataKey, encrypt, nodeID, i, count, ok);
        }
        if !ok {
          return;
        }
        RemovingStep(hashRing.ring, data, here, hashRing.nodeToDataKey, encrypt, nodeID, rest, other, i, count);
      }
      ok := true;
    }

    /**
     `RemoveNode`: with another node on the ring, only the keys of the removed one move.  The last node can go only if
     no key is recorded under it.
     */
    method RemoveNode(nodeID: string) returns (ok: bool)
      requires Valid()
      modifies hashRing, hashRing.Nodes()
      ensures hashRing.Valid() && hashRing.Nodes() <= old(hashRing.Nodes())
      ensures nodeID !in old(hashRing.nodeToReplicas) ==> !ok && unchanged(hashRing)
      ensures nodeID in old(hashRing.nodeToReplicas) ==> hashRing.nodeToReplicas == old(hashRing.nodeToReplicas) - {nodeID}
      ensures Company(old(hashRing.nodeToReplicas), nodeID) ==>
                ok && Valid() && OnlyFrom(old(hashRing.nodeToDataKey), hashRing.nodeToDataKey, nodeID)
      ensures old(hashRing.nodeToReplicas).Keys == {nodeID} ==>
                && SameKeys(old(hashRing.nodeToDataKey), hashRing.nodeToDataKey)
                && (ok <==> KeysOf(old(hashRing.nodeToDataKey), nodeID) == {}) && (Valid() <==> ok)
    {
      ok := false;
      if nodeID in hashRing.nodeToReplicas {
        CompanyIs(hashRing.nodeToReplicas, nodeID);
        ok := RemoveKnown(nodeID);
      }
    }

    method RemoveKnown(nodeID: string) returns (ok: bool)
      requires Valid() && nodeID in hashRing.nodeToReplicas
      modifies hashRing, hashRing.Nodes()
      ensures hashRing.Valid() && hashRing.Nodes() <= old(hashRing.Nodes())
      ensures hashRing.nodeToReplicas == old(hashRing.nodeToReplicas) - {nodeID}
      ensures if old(hashRing.nodeToReplicas) - {nodeID} != map[]
              then ok && Valid() && OnlyFrom(old(hashRing.nodeToDataKey), hashRing.nodeToDataKey, nodeID)
              else && SameKeys(old(hashRing.nodeToDataKey), hashRing.nodeToDataKey)
                   && (ok <==> KeysOf(old(hashRing.nodeToDataKey), nodeID) == {}) && (Valid() <==> ok)
    {
      var count := hashRing.nodeToReplicas[nodeID];
      ghost var rest, ring, data := hashRing.nodeToReplicas - {nodeID}, hashRing.ring, hashRing.nodeToDataKey;
      ghost var other := if rest == map[] then "" else SomeNode(rest);
      RemovingStart(hashRing.ring, data, encrypt, nodeID, hashRing.nodeToReplicas, other);
      hashRing.DeleteNodeToReplica(nodeID);
      ok := RemoveVirtuals(nodeID, count, rest, other);
      if other in rest {
        RemovingEnd(hashRing.ring, data, hashRing.nodeToDataKey, encrypt, nodeID, rest, other, count);
      } else {
        LastGone(old(hashRing.nodeToReplicas), ring, data, hashRing.ring, hashRing.nodeToDataKey, encrypt, nodeID, count, ok);
      }
    }

    /** `GetNode`: the owner of the key, which is recorded there. */
    method GetNode(dataKey: string) returns (r: Result<string>)
      requires Valid()
      modifies hashRing`nodeToDataKey
      ensures Valid()
      ensures r == if hashRing.ring.Keys == {} then Err else Ok(Owner(hashRing.ring, encrypt(dataKey)))
      ensures r.Err? ==> hashRing.nodeToDataKey == old(hashRing.nodeToDataKey)
      ensures r.Ok? ==> hashRing.nodeToDataKey == AddKeys(old(hashRing.nodeToDataKey), r.value, {dataKey})
    {
      var ceilingScore := hashRing.Ceiling(encrypt(dataKey));
      if ceilingScore == -1 {
        return Err;
      }
      CeilingIsFirst(hashRing.ring.Keys, encrypt(dataKey), ceilingScore);
      CeilIs(hashRing.ring.Keys, encrypt(dataKey), ceilingScore);
      var nodes := hashRing.Node(ceilingScore);
      var raw := nodes.value[0];
      assert raw in hashRing.ring[ceilingScore];
      RawIsPlain(hashRing.nodeToReplicas, raw);
      LookupKeepsPlaced(hashRing.ring, hashRing.nodeToDataKey, encrypt, dataKey);
      hashRing.AddNodeToDataKeys(NodeID(raw), {dataKey});
      r := Ok(FirstPart(raw));
    }
  }

  /** The keys that `migrateIn` takes, by the test in its loop. */
  method SelectIn(dataKeys: set<string>, encrypt: string -> Score, last: int, s: int, next: int) returns (keys: set<string>)
    ensures forall k :: k in keys <==> k in dataKeys && MigrateInTest(last, s, next, encrypt(k))
  {
    keys := {};
    var rest := dataKeys;
    while rest != {}
      invariant rest <= dataKeys
      invariant forall k :: k in keys <==> k in dataKeys - rest && MigrateInTest(last, s, next, encrypt(k))
    {
      var k :| k in rest;
      if MigrateInTest(last, s, next, encrypt(k)) {
        keys := keys + {k};
      }
      rest := rest - {k};
    }
  }

  method SelectOut(dataKeys: set<string>, encrypt: string -> Score, last: int, s: int) returns (keys: set<string>)
    ensures forall k :: k in keys <==> k in dataKeys && MigrateOutTest(last, s, encrypt(k))
  {
    keys := {};
    var rest := dataKeys;
    while rest != {}
      invariant rest <= dataKeys
      invariant forall k :: k in keys <==> k in dataKeys - rest && MigrateOutTest(last, s, encrypt(k))
    {
      var k :| k in rest;
      if MigrateOutTest(last, s, encrypt(k)) {
        keys := keys + {k};
      }
      rest := rest - {k};
    }
  }

  lemma RawIsPlain(replicas: map<string, nat>, raw: string)
    requires GoodNodes(replicas) && raw in Names(replicas)
    ensures '_' in raw && FirstPart(raw) == NodeID(raw) && '_' !in NodeID(raw) && NodeID(raw) != ""
  {
    var id, i: nat :| id in replicas && i < replicas[id] && raw == RawKey(id, i);
    NodeIDOfRawKey(id, i);
    FirstPartBefore(id, Decimal(i));
  }
}
