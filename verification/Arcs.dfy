/** Scores on a circle: successors, arcs, and what the wrap-around arithmetic of local/migration.go computes. */
module Arcs {
  import opened HashRing

  const MAX_INT32: int := 0x7fff_ffff

  type Score = s: int | 0 <= s < MAX_INT32

  function IncrScore(score: Score): Score {
    if score == MAX_INT32 - 1 then 0 else score + 1
  }

  function DecrScore(score: Score): Score {
    if score == 0 then MAX_INT32 - 1 else score - 1
  }

  /** The steps from `a` clockwise to `b`. */
  function Dist(a: Score, b: Score): (d: nat)
    ensures d < MAX_INT32
  {
    if a <= b then b - a else b - a + MAX_INT32
  }

  ghost predicate OnCircle(scores: set<int>) {
    forall s | s in scores :: 0 <= s < MAX_INT32
  }

  /** `c` is the first of `scores` at or after `d`. */
  ghost predicate First(scores: set<int>, d: Score, c: int) {
    OnCircle(scores) && c in scores && forall s | s in scores :: Dist(d, c) <= Dist(d, s)
  }

  lemma CeilingIsFirst(scores: set<int>, d: Score, c: int)
    requires OnCircle(scores) && scores != {} && IsCeiling(scores, d, c)
    ensures First(scores, d, c)
  {}

  lemma FirstUnique(scores: set<int>, d: Score, a: int, b: int)
    requires First(scores, d, a) && First(scores, d, b)
    ensures a == b
  {}

  /** The score before `s`, found from the place just below it. */
  lemma FloorIsLast(scores: set<int>, d: Score, f: int)
    requires OnCircle(scores) && scores != {} && IsFloor(scores, d, f)
    ensures f in scores && forall s | s in scores :: Dist(f, d) <= Dist(s, d)
  {}

  /** `d` lies after `last`, up to and including `s`; the whole circle if they are the same. */
  predicate InArc(last: Score, s: Score, d: Score) {
    last == s || Dist(d, s) < Dist(last, s)
  }

  lemma SomeScore(scores: set<int>)
    ensures scores == {} || exists c :: c in scores
  {
    if forall c :: c !in scores {
      assert scores == {};
    }
  }

  lemma {:induction false} FirstExists(scores: set<int>, d: Score)
    requires OnCircle(scores) && scores != {}
    ensures exists c :: First(scores, d, c)
  {
    SomeScore(scores);
    var c: int :| c in scores;
    var rest := scores - {c};
    if rest == {} {
      assert scores == {c};
      assert First(scores, d, c);
    } else {
      FirstExists(rest, d);
      var c' :| First(rest, d, c');
      assert First(scores, d, if Dist(d, c') < Dist(d, c) then c' else c);
    }
  }

  /** The score that a data score falls to. */
  ghost function Ceil(scores: set<int>, d: Score): (c: int)
    requires OnCircle(scores) && scores != {}
    ensures First(scores, d, c)
  {
    FirstExists(scores, d);
    var c :| First(scores, d, c);
    c
  }

  lemma CeilIs(scores: set<int>, d: Score, c: int)
    requires First(scores, d, c)
    ensures Ceil(scores, d) == c
  {
    FirstUnique(scores, d, c, Ceil(scores, d));
  }

  /** The neighbours of `s` on the circle, as `Floor(decrScore)` and `Ceiling(incrScore)` find them. */
  ghost predicate Neighbours(scores: set<int>, last: int, s: int, next: int) {
    && OnCircle(scores) && s in scores
    && IsFloor(scores, DecrScore(s), last) && IsCeiling(scores, IncrScore(s), next)
  }

  lemma NeighboursFacts(scores: set<int>, last: int, s: int, next: int)
    requires Neighbours(scores, last, s, next)
    ensures last in scores && next in scores
    ensures last == s <==> scores == {s}
    ensures next == s <==> scores == {s}
    ensures last != s ==> !(last > s > next)
  {
    FloorIsLast(scores, DecrScore(s), last);
    CeilingIsFirst(scores, IncrScore(s), next);
    if last == s || next == s {
      assert forall x | x in scores :: x == s;
    }
  }

  /** Exactly the scores of the arc before `s` fall to it. */
  lemma ArcFallsTo(scores: set<int>, last: int, s: int, d: Score)
    requires OnCircle(scores) && s in scores && IsFloor(scores, DecrScore(s), last)
    ensures last in scores && (Ceil(scores, d) == s <==> InArc(last, s, d))
  {
    FloorIsLast(scores, DecrScore(s), last);
    if InArc(last, s, d) {
      CeilIs(scores, d, s);
    }
  }

  /** Without `s`, its arc falls to the next score. */
  lemma ArcFallsNext(scores: set<int>, s: int, next: int, d: Score)
    requires OnCircle(scores) && s in scores && scores != {s} && IsCeiling(scores, IncrScore(s), next) && Ceil(scores, d) == s
    ensures Ceil(scores - {s}, d) == next
  {
    CeilingIsFirst(scores, IncrScore(s), next);
    if next == s {
      assert forall x | x in scores :: x == s;
    }
    CeilIs(scores - {s}, d, next);
  }

  /** Without `s`, the other arcs stay. */
  lemma OtherArcsStay(scores: set<int>, s: int, d: Score)
    requires OnCircle(scores) && s in scores && Ceil(scores, d) != s
    ensures scores - {s} != {} && Ceil(scores - {s}, d) == Ceil(scores, d)
  {
    CeilIs(scores - {s}, d, Ceil(scores, d));
  }

  // ---------- The tests of the source ----------

  /** The loop body of `migrateIn`, with its shifts by `MaxInt32`. */
  function MigrateInTest(last: int, s: int, next: int, d: int): bool {
    var patternOne, patternTwo := last > s, next < s;
    var low := last - (if patternOne then MAX_INT32 else 0) - (if patternTwo then MAX_INT32 else 0);
    var high := s - (if patternTwo then MAX_INT32 else 0);
    var x := if patternOne && d > low + MAX_INT32 then d - MAX_INT32 else d;
    var y := if patternTwo then x - MAX_INT32 else x;
    low < y <= high
  }

  lemma MigrateInTestIsArc(scores: set<int>, last: int, s: int, next: int, d: Score)
    requires Neighbours(scores, last, s, next) && last != s
    ensures last in scores && (MigrateInTest(last, s, next, d) <==> InArc(last, s, d))
  {
    NeighboursFacts(scores, last, s, next);
  }

  /** The loop body of `migrateOut`. */
  function MigrateOutTest(last: int, s: int, d: int): bool {
    var low := last - (if last > s then MAX_INT32 else 0);
    var x := if last > s && d > low + MAX_INT32 then d - MAX_INT32 else d;
    last == s || low < x <= s
  }

  lemma MigrateOutTestIsArc(last: Score, s: Score, d: Score)
    ensures MigrateOutTest(last, s, d) <==> InArc(last, s, d)
  {}

  lemma DistVia(a: Score, b: Score, c: Score)
    requires Dist(a, b) <= Dist(a, c)
    ensures Dist(a, c) == Dist(a, b) + Dist(b, c)
  {}

  lemma DistPast(a: Score, b: Score, c: Score)
    requires Dist(a, b) < Dist(a, c)
    ensures Dist(a, c) == Dist(a, b) + 1 + Dist(IncrScore(b), c)
  {}

  /**
   From `s` on, all scores up to `cur` are struck out, and `next` follows `cur`: what fell to `s`
   falls to `next` among the scores that are left.
   */
  lemma FallsPast(scores: set<int>, left: set<int>, s: Score, cur: Score, next: Score, d: Score)
    requires First(scores, d, s) && First(scores, IncrScore(cur), next) && left <= scores && next in left
    requires forall x: Score | x in left :: Dist(s, cur) < Dist(s, x)
    ensures First(left, d, next)
  {
    forall x: Score | x in left ensures Dist(d, next) <= Dist(d, x) {
      DistVia(d, s, x);
      DistVia(d, s, next);
      DistPast(s, cur, x);
      DistPast(s, cur, next);
    }
  }
}
