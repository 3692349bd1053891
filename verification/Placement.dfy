/**
 Which node a data key belongs to, and how adding or removing one virtual node moves keys.  The methods
 of local/consistent_hash.go and local/migration.go are proved against this.
 */
module Placement {
  import opened NodeNames
  import opened HashRing
  import opened Arcs

  ghost predicate RingOk(ring: Ring) {
    && OnCircle(ring.Keys)
    && forall s | s in ring :: ring[s] != [] && forall raw | raw in ring[s] :: '_' in raw
  }

  /** The node of the first virtual node at `s`. */
  ghost function Head(ring: Ring, s: int): string
    requires RingOk(ring) && s in ring
  {
    NodeID(ring[s][0])
  }

  /** The node that `GetNode` returns for a key with data score `d`. */
  ghost function Owner(ring: Ring, d: Score): string
    requires RingOk(ring) && ring.Keys != {}
  {
    Head(ring, Ceil(ring.Keys, d))
  }

  function MoveKeys(data: Data, from: string, to: string, keys: set<string>): Data {
    AddKeys(DeleteKeys(data, from, keys), to, keys)
  }

  lemma MovedKeys(data: Data, from: string, to: string, keys: set<string>, id: string)
    requires keys <= KeysOf(data, from)
    ensures KeysOf(MoveKeys(data, from, to, keys), id)
         == if id == to then KeysOf(data, id) + keys else if id == from then KeysOf(data, id) - keys else KeysOf(data, id)
  {}

  /** Every recorded key is under the node that owns it. */
  ghost predicate Placed(ring: Ring, data: Data, encrypt: string -> Score)
    requires RingOk(ring)
  {
    forall id, k | k in KeysOf(data, id) :: ring.Keys != {} && Owner(ring, encrypt(k)) == id
  }

  /** A recorded key is under exactly one node, the one that `GetNode` would return. */
  lemma RecordedOnce(ring: Ring, data: Data, encrypt: string -> Score, k: string, a: string, b: string)
    requires RingOk(ring) && Placed(ring, data, encrypt) && k in KeysOf(data, a) && k in KeysOf(data, b)
    ensures ring.Keys != {} && a == b == Owner(ring, encrypt(k))
  {
    assert Owner(ring, encrypt(k)) == a;
  }

  lemma LookupKeepsPlaced(ring: Ring, data: Data, encrypt: string -> Score, k: string)
    requires RingOk(ring) && ring.Keys != {} && Placed(ring, data, encrypt)
    ensures Placed(ring, AddKeys(data, Owner(ring, encrypt(k)), {k}), encrypt)
  {
    var data' := AddKeys(data, Owner(ring, encrypt(k)), {k});
    forall id, x | x in KeysOf(data', id) ensures Owner(ring, encrypt(x)) == id {
      if x != k || id != Owner(ring, encrypt(k)) {
        assert x in KeysOf(data, id);
      }
    }
  }

  /** A key is recorded under some node. */
  ghost predicate Recorded(data: Data, k: string) {
    exists id :: k in KeysOf(data, id)
  }

  ghost predicate SameRecorded(data: Data, data': Data) {
    forall k :: Recorded(data, k) <==> Recorded(data', k)
  }

  lemma MoveKeepsRecorded(data: Data, from: string, to: string, keys: set<string>)
    requires keys <= KeysOf(data, from)
    ensures SameRecorded(data, MoveKeys(data, from, to, keys))
  {
    var data' := MoveKeys(data, from, to, keys);
    forall k ensures Recorded(data, k) <==> Recorded(data', k) {
      MovedKeys(data, from, to, keys, to);
      if id :| k in KeysOf(data, id) {
        MovedKeys(data, from, to, keys, id);
        assert k in KeysOf(data', id) || k in KeysOf(data', to);
      }
      if id :| k in KeysOf(data', id) {
        MovedKeys(data, from, to, keys, id);
        assert k in KeysOf(data, id) || k in KeysOf(data, from);
      }
    }
  }

  // ---------- Adding a virtual node ----------

  /** A virtual node that joins others at its score is not the first one there. */
  lemma JoinKeepsPlaced(ring: Ring, s: int, raw: string, data: Data, encrypt: string -> Score)
    requires RingOk(ring) && s in ring && '_' in raw && Placed(ring, data, encrypt)
    ensures RingOk(AddTo(ring, s, raw)) && Placed(AddTo(ring, s, raw), data, encrypt)
  {
    var ring' := AddTo(ring, s, raw);
    assert ring'.Keys == ring.Keys;
    forall id, k | k in KeysOf(data, id) ensures Owner(ring', encrypt(k)) == id {
      assert Owner(ring, encrypt(k)) == id;
    }
  }

  /** The keys that a new score takes from the node at the next score. */
  ghost predicate TakenBy(data: Data, encrypt: string -> Score, from: string, last: Score, s: Score, keys: set<string>) {
    forall k :: k in keys <==> k in KeysOf(data, from) && InArc(last, s, encrypt(k))
  }

  /** Without the new score, its arc belonged to the node at the next score. */
  lemma OwnerBefore(ring: Ring, last: int, s: int, next: int, d: Score)
    requires RingOk(ring) && Neighbours(ring.Keys, last, s, next) && ring.Keys != {s}
    ensures RingOk(ring - {s}) && (ring - {s}).Keys == ring.Keys - {s} && last in ring && next in ring
    ensures ring.Keys - {s} != {} && Owner(ring - {s}, d) == if InArc(last, s, d) then Head(ring, next) else Owner(ring, d)
    ensures InArc(last, s, d) ==> Owner(ring, d) == Head(ring, s)
  {
    NeighboursFacts(ring.Keys, last, s, next);
    ArcFallsTo(ring.Keys, last, s, d);
    if InArc(last, s, d) {
      ArcFallsNext(ring.Keys, s, next, d);
    } else {
      OtherArcsStay(ring.Keys, s, d);
    }
  }

  lemma NewScorePlaced(ring: Ring, last: int, s: int, next: int, data: Data, encrypt: string -> Score, keys: set<string>)
    requires RingOk(ring) && Neighbours(ring.Keys, last, s, next) && ring.Keys != {s}
    requires RingOk(ring - {s}) && Placed(ring - {s}, data, encrypt)
    requires last in ring && next in ring && TakenBy(data, encrypt, Head(ring, next), last, s, keys)
    ensures Placed(ring, MoveKeys(data, Head(ring, next), Head(ring, s), keys), encrypt)
  {
    var from, to := Head(ring, next), Head(ring, s);
    var data' := MoveKeys(data, from, to, keys);
    forall id, k | k in KeysOf(data', id) ensures Owner(ring, encrypt(k)) == id {
      MovedKeys(data, from, to, keys, id);
      OwnerBefore(ring, last, s, next, encrypt(k));
      if k in keys {
        assert k in KeysOf(data, from);
      } else {
        assert Owner(ring - {s}, encrypt(k)) == id;
      }
    }
  }

  /** The first score of an empty ring: there are no keys yet. */
  lemma FirstScorePlaced(ring: Ring, s: int, data: Data, encrypt: string -> Score)
    requires RingOk(ring) && ring.Keys == {s} && RingOk(ring - {s}) && Placed(ring - {s}, data, encrypt)
    ensures Placed(ring, data, encrypt)
  {}

  /** One virtual node of `id` has just been put on the ring at `s`; the keys are where they were. */
  ghost predicate JustAdded(ring: Ring, data: Data, encrypt: string -> Score, s: int, id: string) {
    && RingOk(ring) && s in ring
    && if |ring[s]| > 1 then Placed(ring, data, encrypt)
       else Head(ring, s) == id && RingOk(ring - {s}) && Placed(ring - {s}, data, encrypt)
  }

  lemma AddIsJustAdded(ring: Ring, data: Data, encrypt: string -> Score, s: Score, raw: string, id: string)
    requires RingOk(ring) && Placed(ring, data, encrypt) && '_' in raw && NodeID(raw) == id
    requires s in ring ==> raw !in ring[s]
    ensures JustAdded(AddTo(ring, s, raw), data, encrypt, s, id)
  {
    if s in ring {
      JoinKeepsPlaced(ring, s, raw, data, encrypt);
    } else {
      assert AddTo(ring, s, raw) - {s} == ring;
    }
  }

  lemma OnlyToTrans(a: Data, b: Data, c: Data, id: string)
    requires OnlyTo(a, b, id) && OnlyTo(b, c, id)
    ensures OnlyTo(a, c, id)
  {}

  /** Keys have moved to `id` only, and none was lost. */
  ghost predicate OnlyTo(data: Data, data': Data, id: string) {
    SameRecorded(data, data') && forall other | other != id :: KeysOf(data', other) <= KeysOf(data, other)
  }

  lemma NewScoreMoves(ring: Ring, last: int, s: int, next: int, data: Data, encrypt: string -> Score, id: string,
                      keys: set<string>)
    requires JustAdded(ring, data, encrypt, s, id) && |ring[s]| == 1
    requires Neighbours(ring.Keys, last, s, next) && last != s && next in ring
    requires forall k :: k in keys <==> k in KeysOf(data, Head(ring, next)) && MigrateInTest(last, s, next, encrypt(k))
    ensures var data' := MoveKeys(data, Head(ring, next), id, keys); Placed(ring, data', encrypt) && OnlyTo(data, data', id)
  {
    NeighboursFacts(ring.Keys, last, s, next);
    var from := Head(ring, next);
    forall k ensures k in keys <==> k in KeysOf(data, from) && InArc(last, s, encrypt(k)) {
      MigrateInTestIsArc(ring.Keys, last, s, next, encrypt(k));
    }
    NewScorePlaced(ring, last, s, next, data, encrypt, keys);
    MoveKeepsRecorded(data, from, id, keys);
    forall other | other != id ensures KeysOf(MoveKeys(data, from, id, keys), other) <= KeysOf(data, other) {
      MovedKeys(data, from, id, keys, other);
    }
  }

  // ---------- Removing a node ----------

  /** The virtual nodes that are not of node `id`. */
  ghost function Others(raws: seq<string>, id: string): (r: seq<string>)
    requires forall raw | raw in raws :: '_' in raw
    ensures forall raw | raw in r :: raw in raws && NodeID(raw) != id
    ensures (forall raw | raw in raws :: NodeID(raw) == id) ==> r == []
    ensures (forall raw | raw in raws :: NodeID(raw) != id) ==> r == raws
    ensures raws != [] && NodeID(raws[0]) != id ==> r != [] && r[0] == raws[0]
    ensures |raws| > 1 && NodeID(raws[0]) == id && NodeID(raws[1]) != id ==> r != [] && r[0] == raws[1]
  {
    if raws == [] then [] else if NodeID(raws[0]) == id then Others(raws[1..], id) else [raws[0]] + Others(raws[1..], id)
  }

  /** The ring as it will be once node `id` is gone. */
  ghost function Purge(ring: Ring, id: string): (r: Ring)
    requires RingOk(ring)
    ensures RingOk(r) && r.Keys <= ring.Keys
  {
    map s | s in ring && Others(ring[s], id) != [] :: Others(ring[s], id)
  }

  /** A score that keeps a virtual node keeps its arc. */
  lemma PurgedOwner(ring: Ring, id: string, d: Score)
    requires RingOk(ring) && ring.Keys != {} && Others(ring[Ceil(ring.Keys, d)], id) != []
    ensures Purge(ring, id).Keys != {}
    ensures Owner(Purge(ring, id), d) == NodeID(Others(ring[Ceil(ring.Keys, d)], id)[0])
  {
    var c := Ceil(ring.Keys, d);
    assert c in Purge(ring, id).Keys;
    CeilIs(Purge(ring, id).Keys, d, c);
  }

  /**
   Node `id` is leaving: its keys are still its own, every other key is already under the node that
   will own it in the end.
   */
  ghost predicate Leaving(ring: Ring, data: Data, encrypt: string -> Score, id: string) {
    && RingOk(ring) && ring.Keys != {} && Purge(ring, id).Keys != {}
    && (forall k | k in KeysOf(data, id) :: Owner(ring, encrypt(k)) == id)
    && (forall other, k | other != id && k in KeysOf(data, other) ::
          Owner(Purge(ring, id), encrypt(k)) == other && k !in KeysOf(data, id))
  }

  lemma PlacedIsLeaving(ring: Ring, data: Data, encrypt: string -> Score, id: string)
    requires RingOk(ring) && Placed(ring, data, encrypt) && ring.Keys != {} && Purge(ring, id).Keys != {}
    ensures Leaving(ring, data, encrypt, id)
  {
    forall other, k | other != id && k in KeysOf(data, other)
      ensures Owner(Purge(ring, id), encrypt(k)) == other && k !in KeysOf(data, id)
    {
      assert Owner(ring, encrypt(k)) == other;
      PurgedOwner(ring, id, encrypt(k));
    }
  }

  /** Node `id` has no virtual node left. */
  ghost predicate Gone(ring: Ring, id: string)
    requires RingOk(ring)
  {
    forall s | s in ring :: forall raw | raw in ring[s] :: NodeID(raw) != id
  }

  lemma PurgeGone(ring: Ring, id: string)
    requires RingOk(ring) && Gone(ring, id)
    ensures Purge(ring, id) == ring
  {
    var r := Purge(ring, id);
    forall s | s in ring ensures s in r && r[s] == ring[s] {
      assert Others(ring[s], id) == ring[s];
    }
    assert r.Keys == ring.Keys;
  }

  lemma GoneOwnsNothing(ring: Ring, id: string, d: Score)
    requires RingOk(ring) && ring.Keys != {} && Gone(ring, id)
    ensures Owner(ring, d) != id
  {
    var raws := ring[Ceil(ring.Keys, d)];
    assert raws[0] in raws;
  }

  lemma LeftIsPlaced(ring: Ring, data: Data, encrypt: string -> Score, id: string)
    requires Leaving(ring, data, encrypt, id) && Gone(ring, id)
    ensures Placed(ring, data, encrypt) && KeysOf(data, id) == {}
  {
    PurgeGone(ring, id);
    forall k | k in KeysOf(data, id) ensures false {
      GoneOwnsNothing(ring, id, encrypt(k));
    }
  }

  /** `to` may take the keys that fall to `s` when the virtual node `raw` of `id` leaves that score. */
  ghost predicate Heir(ring: Ring, id: string, s: int, raw: string, to: string)
    requires RingOk(ring) && s in ring && Purge(ring, id).Keys != {}
  {
    var ring' := RemoveFrom(ring, s, raw);
    if to == id
    then RingOk(ring') && ring'.Keys != {} && forall d: Score | Ceil(ring.Keys, d) == s :: Owner(ring', d) == id
    else forall d: Score | Ceil(ring.Keys, d) == s :: Owner(Purge(ring, id), d) == to
  }

  lemma {:induction false} OthersWithout(raws: seq<string>, id: string, raw: string)
    requires (forall r | r in raws :: '_' in r) && '_' in raw && NodeID(raw) == id
    ensures (forall r | r in WithoutID(raws, raw) :: r in raws) && Others(WithoutID(raws, raw), id) == Others(raws, id)
  {
    if raws != [] && raws[0] != raw {
      OthersWithout(raws[1..], id, raw);
      var w := WithoutID(raws, raw);
      assert w[0] == raws[0] && w[1..] == WithoutID(raws[1..], raw);
    }
  }

  lemma {:induction false} WithoutSize(raws: seq<string>, raw: string)
    requires raw in raws
    ensures |WithoutID(raws, raw)| == |raws| - 1
    ensures |raws| > 1 ==> WithoutID(raws, raw)[0] == if raws[0] == raw then raws[1] else raws[0]
  {
    if raws[0] != raw {
      WithoutSize(raws[1..], raw);
    }
  }

  lemma SamePurge(ring: Ring, ring': Ring, id: string)
    requires RingOk(ring) && RingOk(ring') && ring'.Keys <= ring.Keys
    requires forall s | s in ring' :: Others(ring'[s], id) == Others(ring[s], id)
    requires forall s | s in ring && s !in ring' :: Others(ring[s], id) == []
    ensures Purge(ring', id) == Purge(ring, id)
  {
    var r, r' := Purge(ring, id), Purge(ring', id);
    forall s | s in ring ensures (s in r' <==> s in r) && (s in r ==> r'[s] == r[s]) {
      if s in ring' {
        assert Others(ring'[s], id) == Others(ring[s], id);
      } else {
        assert Others(ring[s], id) == [];
      }
    }
    assert r'.Keys == r.Keys;
  }

  lemma RemoveFromOk(ring: Ring, id: string, s: int, raw: string)
    requires RingOk(ring) && s in ring && raw in ring[s] && NodeID(raw) == id
    ensures RingOk(RemoveFrom(ring, s, raw))
  {
    OthersWithout(ring[s], id, raw);
    WithoutSize(ring[s], raw);
  }

  /** Taking out a virtual node of `id` leaves the ring without `id` as it was. */
  lemma RemoveKeepsPurge(ring: Ring, id: string, s: int, raw: string)
    requires RingOk(ring) && s in ring && raw in ring[s] && NodeID(raw) == id
    ensures RingOk(RemoveFrom(ring, s, raw)) && Purge(RemoveFrom(ring, s, raw), id) == Purge(ring, id)
  {
    RemoveFromOk(ring, id, s, raw);
    OthersWithout(ring[s], id, raw);
    if |ring[s]| == 1 {
      assert ring[s] == [raw];
    }
    SamePurge(ring, RemoveFrom(ring, s, raw), id);
  }

  /** The keys of other arcs do not notice. */
  lemma OtherOwnersStay(ring: Ring, id: string, s: int, raw: string, d: Score)
    requires RingOk(ring) && s in ring && raw in ring[s] && NodeID(raw) == id && Ceil(ring.Keys, d) != s
    ensures var ring' := RemoveFrom(ring, s, raw); RingOk(ring') && ring'.Keys != {} && Owner(ring', d) == Owner(ring, d)
  {
    RemoveKeepsPurge(ring, id, s, raw);
    var ring' := RemoveFrom(ring, s, raw);
    if |ring[s]| > 1 {
      assert ring'.Keys == ring.Keys;
    } else {
      OtherArcsStay(ring.Keys, s, d);
      assert ring'.Keys == ring.Keys - {s};
    }
  }

  /** A virtual node that is not the first at its score leaves without moving anything. */
  lemma QuietRemoval(ring: Ring, data: Data, encrypt: string -> Score, id: string, s: int, raw: string)
    requires Leaving(ring, data, encrypt, id) && s in ring && raw in ring[s] && NodeID(raw) == id && Head(ring, s) != id
    ensures Leaving(RemoveFrom(ring, s, raw), data, encrypt, id)
  {
    RemoveKeepsPurge(ring, id, s, raw);
    forall k | k in KeysOf(data, id) ensures var ring' := RemoveFrom(ring, s, raw); ring'.Keys != {} && Owner(ring', encrypt(k)) == id {
      OtherOwnersStay(ring, id, s, raw, encrypt(k));
    }
  }

  /** The first virtual node of its score leaves, and the keys of its arc go to an heir. */
  lemma HeadRemoval(ring: Ring, data: Data, encrypt: string -> Score, id: string, s: int, raw: string, to: string,
                    keys: set<string>, data': Data)
    requires Leaving(ring, data, encrypt, id) && s in ring && raw in ring[s] && NodeID(raw) == id && Heir(ring, id, s, raw, to)
    requires forall k :: k in keys <==> k in KeysOf(data, id) && Ceil(ring.Keys, encrypt(k)) == s
    requires data' == if keys == {} then data else MoveKeys(data, id, to, keys)
    ensures Leaving(RemoveFrom(ring, s, raw), data', encrypt, id)
  {
    RemoveKeepsPurge(ring, id, s, raw);
    var ring' := RemoveFrom(ring, s, raw);
    forall k | k in KeysOf(data', id) ensures ring'.Keys != {} && Owner(ring', encrypt(k)) == id {
      MovedKeys(data, id, to, keys, id);
      if Ceil(ring.Keys, encrypt(k)) != s {
        OtherOwnersStay(ring, id, s, raw, encrypt(k));
      }
    }
    forall other, k | other != id && k in KeysOf(data', other)
      ensures Owner(Purge(ring', id), encrypt(k)) == other && k !in KeysOf(data', id)
    {
      MovedKeys(data, id, to, keys, other);
      MovedKeys(data, id, to, keys, id);
    }
  }

  // ---------- Finding the heir ----------

  lemma HeirAtScore(ring: Ring, id: string, s: int, raw: string)
    requires RingOk(ring) && Purge(ring, id).Keys != {} && s in ring && raw in ring[s] && NodeID(raw) == id
    requires Head(ring, s) == id && |ring[s]| > 1
    ensures ring[s][1] in ring[s] && Heir(ring, id, s, raw, NodeID(ring[s][1]))
  {
    var to := NodeID(ring[s][1]);
    RemoveKeepsPurge(ring, id, s, raw);
    WithoutSize(ring[s], raw);
    var ring' := RemoveFrom(ring, s, raw);
    assert ring'.Keys == ring.Keys;
    forall d: Score | Ceil(ring.Keys, d) == s ensures if to == id then Owner(ring', d) == id else Owner(Purge(ring, id), d) == to {
      if to != id {
        PurgedOwner(ring, id, d);
      }
    }
  }

  /** From `s` to `cur` there are only virtual nodes of `id`, alone at their scores. */
  ghost predicate Walked(ring: Ring, id: string, s: Score, cur: Score)
    requires RingOk(ring)
  {
    && s in ring && cur in ring
    && (forall x: Score | x in ring && Dist(s, x) <= Dist(s, cur) :: Others(ring[x], id) == [])
    && (cur != s ==> forall n | First(ring.Keys, IncrScore(s), n) :: Head(ring, n) == id)
  }

  /** The node that `getValidNextNode` picks at score `next`, if it stops there. */
  ghost predicate Picked(ring: Ring, id: string, next: int, to: string)
    requires RingOk(ring) && next in ring
  {
    to == if Head(ring, next) != id then Head(ring, next)
          else if |ring[next]| > 1 && '_' in ring[next][1] then NodeID(ring[next][1])
          else ""
  }

  lemma HeirAtNext(ring: Ring, id: string, s: Score, raw: string, cur: Score, next: Score, to: string)
    requires RingOk(ring) && Purge(ring, id).Keys != {} && Walked(ring, id, s, cur) && ring[s] == [raw] && NodeID(raw) == id
    requires First(ring.Keys, IncrScore(cur), next) && Picked(ring, id, next, to)
    requires Head(ring, next) != id || |ring[next]| > 1
    ensures Heir(ring, id, s, raw, to)
  {
    assert ring[next][0] in ring[next] && (|ring[next]| > 1 ==> ring[next][1] in ring[next]);
    if to == id {
      HeirIsItself(ring, id, s, cur, next);
    } else {
      var left := Purge(ring, id).Keys;
      assert next in left;
      forall d: Score | Ceil(ring.Keys, d) == s ensures Owner(Purge(ring, id), d) == to {
        FallsPast(ring.Keys, left, s, cur, next, d);
        CeilIs(left, d, next);
      }
    }
  }

  lemma HeirIsItself(ring: Ring, id: string, s: Score, cur: Score, next: Score)
    requires RingOk(ring) && Purge(ring, id).Keys != {} && Walked(ring, id, s, cur)
    requires First(ring.Keys, IncrScore(cur), next) && Head(ring, next) == id
    ensures RingOk(ring - {s}) && (ring - {s}).Keys != {}
    ensures forall d: Score | Ceil(ring.Keys, d) == s :: Owner(ring - {s}, d) == id
  {
    var ring' := ring - {s};
    assert ring'.Keys == ring.Keys - {s};
    SomeScore(Purge(ring, id).Keys);
    var x :| x in Purge(ring, id).Keys;
    assert x in ring'.Keys;
    var n := Ceil(ring.Keys, IncrScore(s));
    assert Head(ring, n) == id by {
      if cur == s {
        FirstUnique(ring.Keys, IncrScore(s), n, next);
      }
    }
    forall d: Score | Ceil(ring.Keys, d) == s ensures Owner(ring', d) == id {
      NextAfter(ring.Keys, s, n, d);
    }
  }

  lemma NextAfter(scores: set<int>, s: Score, n: int, d: Score)
    requires First(scores, IncrScore(s), n) && s in scores && scores - {s} != {} && First(scores, d, s)
    ensures OnCircle(scores - {s}) && Ceil(scores - {s}, d) == n
  {
    SomeScore(scores - {s});
    var x :| x in scores - {s};
    CeilIs(scores - {s}, d, n);
  }

  /** One more score with nothing but `id`. */
  lemma WalkOn(ring: Ring, id: string, s: Score, cur: Score, next: Score)
    requires RingOk(ring) && Walked(ring, id, s, cur) && First(ring.Keys, IncrScore(cur), next)
    requires Head(ring, next) == id && |ring[next]| == 1
    ensures next != s ==> Walked(ring, id, s, next) && Dist(s, cur) < Dist(s, next)
    ensures next == s ==> Purge(ring, id).Keys == {}
  {
    assert Others(ring[next], id) == [] && Dist(IncrScore(cur), next) <= Dist(IncrScore(cur), s);
    forall x: Score | x in ring && (next == s || Dist(s, x) <= Dist(s, next)) ensures Others(ring[x], id) == [] {
      if Dist(s, x) > Dist(s, cur) {
        DistPast(s, cur, x);
        if next != s {
          assert x == next;
        }
      }
    }
    if next == s {
      assert forall x | x in ring :: x !in Purge(ring, id);
    } else if cur == s {
      forall n | First(ring.Keys, IncrScore(s), n) ensures Head(ring, n) == id {
        FirstUnique(ring.Keys, IncrScore(s), n, next);
      }
    }
  }

  /** The walk has come round to a score it has seen: there is nobody else. */
  lemma WrappedAround(ring: Ring, id: string, s: Score, cur: Score, next: Score)
    requires RingOk(ring) && Walked(ring, id, s, cur) && First(ring.Keys, IncrScore(cur), next) && Dist(s, next) <= Dist(s, cur)
    ensures Purge(ring, id).Keys == {}
  {
    assert Dist(IncrScore(cur), next) <= Dist(IncrScore(cur), s);
    forall x: Score | x in ring ensures Others(ring[x], id) == [] {
      if Dist(s, x) > Dist(s, cur) {
        DistPast(s, cur, x);
      }
    }
    assert forall x | x in ring :: x !in Purge(ring, id);
  }

  /** What `ranged` holds when the walk from `s` has reached `cur`. */
  ghost predicate Ranged(scores: set<int>, s: Score, cur: Score, ranged: set<int>) {
    || (ranged <= scores && forall x: Score | x in scores :: x in ranged <==> Dist(s, x) < Dist(s, cur))
    || (scores == {s} && cur == s && ranged == {s})
  }

  lemma RangedOn(scores: set<int>, s: Score, cur: Score, next: Score, ranged: set<int>)
    requires OnCircle(scores) && s in scores && cur in scores && First(scores, IncrScore(cur), next)
    requires Ranged(scores, s, cur, ranged) && next !in ranged
    ensures Ranged(scores, s, next, ranged + {cur})
    ensures next == s ==> scores == {s}
    ensures next != s ==> Dist(s, cur) < Dist(s, next)
  {
    assert Dist(IncrScore(cur), next) <= Dist(IncrScore(cur), s);
    if next == s {
      assert forall x | x in scores :: x == s;
      assert scores == {s};
    } else {
      forall x: Score | x in scores && Dist(s, cur) < Dist(s, x) ensures Dist(s, next) <= Dist(s, x) {
        DistPast(s, cur, x);
        DistPast(s, cur, next);
      }
    }
  }

  lemma RangedIsBehind(scores: set<int>, s: Score, cur: Score, next: Score, ranged: set<int>)
    requires OnCircle(scores) && Ranged(scores, s, cur, ranged) && next in ranged
    ensures Dist(s, next) <= Dist(s, cur)
  {}

  /** Keys have moved away from `id` only, and none was lost. */
  ghost predicate OnlyFrom(data: Data, data': Data, id: string) {
    SameRecorded(data, data') && forall other | other != id :: KeysOf(data, other) <= KeysOf(data', other)
  }

  /** A node without keys moves none. */
  lemma EmptyRemoval(ring: Ring, data: Data, encrypt: string -> Score, id: string, s: int, raw: string)
    requires Leaving(ring, data, encrypt, id) && s in ring && raw in ring[s] && NodeID(raw) == id && KeysOf(data, id) == {}
    ensures Leaving(RemoveFrom(ring, s, raw), data, encrypt, id)
  {
    RemoveKeepsPurge(ring, id, s, raw);
  }

  lemma HeadMoves(ring: Ring, data: Data, encrypt: string -> Score, id: string, last: int, s: Score, raw: string,
                  to: string, keys: set<string>)
    requires Leaving(ring, data, encrypt, id) && s in ring && raw in ring[s] && NodeID(raw) == id && Heir(ring, id, s, raw, to)
    requires IsFloor(ring.Keys, DecrScore(s), last)
    requires forall k :: k in keys <==> k in KeysOf(data, id) && MigrateOutTest(last, s, encrypt(k))
    ensures var data' := if keys == {} then data else MoveKeys(data, id, to, keys);
      Leaving(RemoveFrom(ring, s, raw), data', encrypt, id) && OnlyFrom(data, data', id)
  {
    forall k ensures MigrateOutTest(last, s, encrypt(k)) <==> Ceil(ring.Keys, encrypt(k)) == s {
      ArcFallsTo(ring.Keys, last, s, encrypt(k));
      MigrateOutTestIsArc(last, s, encrypt(k));
    }
    var data' := if keys == {} then data else MoveKeys(data, id, to, keys);
    HeadRemoval(ring, data, encrypt, id, s, raw, to, keys, data');
    MoveKeepsRecorded(data, id, to, keys);
    forall other | other != id ensures KeysOf(data, other) <= KeysOf(data', other) {
      MovedKeys(data, id, to, keys, other);
    }
  }

  lemma OnlyFromTrans(a: Data, b: Data, c: Data, id: string)
    requires OnlyFrom(a, b, id) && OnlyFrom(b, c, id)
    ensures OnlyFrom(a, c, id)
  {}
}
