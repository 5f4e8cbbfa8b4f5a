/**
 * Re-scoring a member that already sits in an earlier segment than the one
 * the insertion scan stops at: the insertion writes the new score and then
 * runs the general removal, which deletes the member from every segment, so
 * the member disappears. The same write-then-remove, when the scan stops at
 * a full segment, can instead leave that segment over its capacity even if
 * the score is unchanged: the backfill pulls the new copy back up and then
 * pulls one more member into the full segment. The corrected insertion
 * (Segments.Upsert) removes the old copy first and keeps every member and
 * every capacity.
 *
 * The paged descending query applies its offset and count to each segment's
 * own query, so a page can hold members from several segments and more
 * members than the count. The corrected query (Segments.DescPage) pages the
 * whole descending listing.
 */
module SegmentFindings {
  import opened ZSets
  import opened Segments
  import opened SegmentContents
  import opened SegmentTheorems
  import opened SegmentQueries

  /** Descending order of a two-member set. */
  lemma DescOrderPair(a: Member, va: int, b: Member, vb: int)
    requires a != b && va > vb
    ensures DescOrder(map[a := va, b := vb]) == [a, b]
  {
    var m := map[a := va, b := vb];
    assert IsTop(m, a);
    TopUnique(m, a);
    RemoveSize(m, a);
    assert m - {a} == map[b := vb];
    DescOrderSingleton(b, vb);
  }

  /** Two segments of an initial size of 2: {5:5, 4:4} and {3:3, 1:1}. */
  const Before: Segs := [map[5 := 5, 4 := 4], map[3 := 3, 1 := 1]]

  /** Segment 1 after the insertion has written 5 with score 2. */
  const Written: ZSet := map[3 := 3, 1 := 1, 5 := 2]

  /** The state the insertion leaves: member 5 is in neither segment. */
  const After: Segs := [map[4 := 4, 3 := 3], map[1 := 1]]

  lemma BeforeContents()
    ensures Contents(Before) == map[5 := 5, 4 := 4, 3 := 3, 1 := 1]
  {
    var s := Before;
    assert s[..1] == [s[0]];
    ContentsOne(s[0]);
    assert Contents(s) == Contents([s[0]]) + s[1];
  }

  lemma BeforeDescending()
    ensures Disjoint(Before) && Descending(Before)
  {
    forall i, j, a, b | 0 <= i < j < |Before| && a in Before[i] && b in Before[j]
      ensures Before[i][a] >= Before[j][b]
    {
      assert i == 0 && j == 1;
    }
  }

  lemma BeforeFilled()
    ensures Filled(Before, 2, -1)
  {
    assert Capacity(0, 2, 2) == 2;
  }

  lemma BeforeWellFormed()
    ensures WellFormed(Before, 2) && 5 in Contents(Before)
  {
    var c := map[5 := 5, 4 := 4, 3 := 3, 1 := 1];
    assert Contents(Before) == c by {
      BeforeContents();
    }
    assert PositiveDistinct(c);
    BeforeDescending();
    BeforeFilled();
  }

  /** Segment 0 is full with boundary score 4. */
  lemma FirstBoundary()
    ensures Capacity(0, 2, 2) == 2 && |Before[0]| == 2 && Boundary(Before[0], 2) == 4
  {
    DescOrderPair(5, 5, 4, 4);
  }

  /** The scan passes segment 0, whose boundary 4 is not below 2, and writes into the unbounded segment 1. */
  lemma ScanReachesLast()
    ensures Add(Before, 5, 2, 2) == Remove([Before[0], Written], 5, 2)
  {
    var s := Before;
    assert Locate(s, 5) == 0;
    FirstBoundary();
    assert Add(s, 5, 2, 2) == AddFrom(s, 5, 2, 0, 1, 2);
    assert Capacity(1, 2, 2) == -1;
    assert s[1 := s[1][5 := 2]] == [Before[0], Written];
  }

  /** Segment 1 after the backfill: 3 has moved up. */
  const Backfilled: Segs := [map[4 := 4, 3 := 3], map[1 := 1, 5 := 2]]

  lemma TopOfWritten()
    ensures TopN(Written, 1) == [3]
  {
    assert IsTop(Written, 3);
    TopUnique(Written, 3);
  }

  lemma PullThree()
    ensures PullUp(map[4 := 4], Written, [3]) == (Backfilled[0], Backfilled[1])
  {
    var w := Backfilled;
    assert [3][1..] == [];
    SameMap(Written - {3}, w[1]);
    SameMap(map[4 := 4][3 := Stored(Written, 3)], w[0]);
  }

  /** The backfill of segment 0 by one member pulls up 3, the top of segment 1. */
  lemma BackfillPullsThree()
    ensures ForwardMove([map[4 := 4], Written], 0, 1) == Backfilled
  {
    var u := [map[4 := 4], Written];
    TopOfWritten();
    PullThree();
    assert u[0 := Backfilled[0]][1 := Backfilled[1]] == Backfilled;
    assert ForwardMove(u, 0, 1) == ForwardMove(Backfilled, 1, 1);
  }

  /** Segment 0 loses 5 and is backfilled by one member from segment 1. */
  lemma FirstDelete()
    ensures Stored(Before[0], 5) > 0
    ensures [Before[0], Written][0 := Before[0] - {5}] == [map[4 := 4], Written]
    ensures Capacity(0, 2, 2) - |map[4 := 4]| == 1
  {
    SameMap(Before[0] - {5}, map[4 := 4]);
  }

  lemma FirstRemoval()
    ensures RemoveFrom([Before[0], Written], 5, 0, 2) == RemoveFrom(Backfilled, 5, 1, 2)
  {
    var s, s1 := [Before[0], Written], [map[4 := 4], Written];
    FirstDelete();
    BackfillPullsThree();
    RemoveFromStep(s, 5, 0, 2, s1, 1, Backfilled);
  }

  /** Segment 1 then loses the freshly written copy. */
  lemma SecondRemoval()
    ensures RemoveFrom(Backfilled, 5, 1, 2) == After
  {
    var w := Backfilled;
    assert After == w[1 := w[1] - {5}] by {
      SameMap(w[1] - {5}, map[1 := 1]);
    }
    assert Capacity(1, 2, 2) == -1;
  }

  lemma AfterLacksFive()
    ensures 5 !in Contents(After)
  {
    assert 5 !in After[0] && 5 !in After[1];
    ContentsOut(After, 5);
  }

  /**
   * Re-scoring member 5 of a well-formed state to 2 loses it: the scan
   * stops at segment 1, after the segment 5 sits in, and the removal that
   * follows deletes both copies.
   */
  lemma AddLosesRescoredMember()
    ensures WellFormed(Before, 2) && 5 in Contents(Before)
    ensures Add(Before, 5, 2, 2) == After
    ensures 5 !in Contents(Add(Before, 5, 2, 2))
  {
    BeforeWellFormed();
    ScanReachesLast();
    FirstRemoval();
    SecondRemoval();
    AfterLacksFive();
  }

  /** Three segments of an initial size of 1: {10:10}, {5:5, 4:4} and {3:3}. */
  const Three: Segs := [map[10 := 10], map[5 := 5, 4 := 4], map[3 := 3]]

  /** Segment 1 after the insertion has written 10 again with its own score. */
  const Rewritten: ZSet := map[5 := 5, 4 := 4, 10 := 10]

  /** The state the insertion leaves: segment 1 holds three members. */
  const Overfull: Segs := [map[10 := 10], map[5 := 5, 4 := 4, 3 := 3], map[]]

  lemma ThreeContents()
    ensures Contents(Three) == map[10 := 10, 5 := 5, 4 := 4, 3 := 3]
  {
    var s := Three;
    var p := s[..2];
    assert p[..1] == [s[0]] && p[1] == s[1];
    ContentsOne(s[0]);
    assert Contents(p) == s[0] + s[1];
    assert Contents(s) == Contents(p) + s[2];
    SameMap(s[0] + s[1] + s[2], map[10 := 10, 5 := 5, 4 := 4, 3 := 3]);
  }

  lemma ThreeDescending()
    ensures Disjoint(Three) && Descending(Three)
  {
    var s := Three;
    assert s[0].Keys == {10} && s[1].Keys == {5, 4} && s[2].Keys == {3};
    forall i, j, a, b | 0 <= i < j < |s| && a in s[i] && b in s[j]
      ensures s[i][a] >= s[j][b] && a != b
    {
      if i == 0 {
        assert a == 10 && s[i][a] == 10 && s[j][b] <= 5;
      } else {
        assert j == 2 && b == 3 && s[i][a] >= 4;
      }
    }
  }

  lemma ThreeFilled()
    ensures Filled(Three, 1, -1)
  {
    assert Tri(1) == 1;
    assert Capacity(0, 3, 1) == 1 && Capacity(1, 3, 1) == 2;
  }

  lemma ThreeScores()
    ensures PositiveDistinct(Contents(Three))
  {
    var c := map[10 := 10, 5 := 5, 4 := 4, 3 := 3];
    ThreeContents();
    assert forall a :: a in c ==> c[a] == a;
  }

  lemma ThreeWellFormed()
    ensures WellFormed(Three, 1) && Contents(Three) == map[10 := 10, 5 := 5, 4 := 4, 3 := 3]
  {
    ThreeContents();
    ThreeScores();
    ThreeDescending();
    ThreeFilled();
  }

  /** Segment 0 is full with boundary 10; segment 1 is full with boundary 4. */
  lemma ThreeBoundaries()
    ensures Capacity(0, 3, 1) == 1 && |Three[0]| == 1 && Boundary(Three[0], 1) == 10
    ensures Capacity(1, 3, 1) == 2 && |Three[1]| == 2 && Boundary(Three[1], 2) == 4
  {
    DescOrderSingleton(10, 10);
    DescOrderPair(5, 5, 4, 4);
    assert Tri(1) == 1;
  }

  /** The scan passes segment 0, whose boundary 10 is not below 10, and stops at the full segment 1. */
  lemma RescanStops()
    ensures Add(Three, 10, 10, 1) == Place(Three, 10, 10, 0, 1, 1, true)
  {
    var s := Three;
    assert Stored(s[0], 10) > 0;
    assert Locate(s, 10) == 0;
    ThreeBoundaries();
    assert AddFrom(s, 10, 10, 0, 0, 1) == AddFrom(s, 10, 10, 0, 1, 1);
  }

  /** Member 10 sits in segment 0, before segment 1: the write is followed by the general removal. */
  lemma RescanReachesMiddle()
    ensures Add(Three, 10, 10, 1) == Remove([Three[0], Rewritten, Three[2]], 10, 1)
  {
    RescanStops();
    assert Three[1 := Three[1][10 := 10]] == [Three[0], Rewritten, Three[2]];
  }

  lemma TopOfRewritten()
    ensures TopN(Rewritten, 1) == [10] && TopN(map[3 := 3], 1) == [3]
  {
    assert IsTop(Rewritten, 10);
    TopUnique(Rewritten, 10);
    DescOrderSingleton(3, 3);
  }

  lemma PullTen()
    ensures PullUp(map[], Rewritten, [10]) == (map[10 := 10], map[5 := 5, 4 := 4])
  {
    assert [10][1..] == [];
    SameMap(Rewritten - {10}, map[5 := 5, 4 := 4]);
    SameMap(map[][10 := Stored(Rewritten, 10)], map[10 := 10]);
  }

  lemma PullThreeDown()
    ensures PullUp(map[5 := 5, 4 := 4], map[3 := 3], [3]) == (map[5 := 5, 4 := 4, 3 := 3], map[])
  {
    assert [3][1..] == [];
    SameMap(map[3 := 3] - {3}, map[]);
    SameMap(map[5 := 5, 4 := 4][3 := Stored(map[3 := 3], 3)], map[5 := 5, 4 := 4, 3 := 3]);
  }

  /** Segment 0 takes back the top of segment 1, the new copy of 10. */
  lemma BackfillFirst()
    ensures ForwardMove([map[], Rewritten, map[3 := 3]], 0, 1)
         == ForwardMove([map[10 := 10], map[5 := 5, 4 := 4], map[3 := 3]], 1, 1)
  {
    var u := [map[], Rewritten, map[3 := 3]];
    var v := [map[10 := 10], map[5 := 5, 4 := 4], map[3 := 3]];
    TopOfRewritten();
    PullTen();
    assert u[0 := v[0]][1 := v[1]] == v;
  }

  /** Segment 1, already full again, takes 3 from segment 2. */
  lemma BackfillSecond()
    ensures ForwardMove([map[10 := 10], map[5 := 5, 4 := 4], map[3 := 3]], 1, 1) == Overfull
  {
    var v := [map[10 := 10], map[5 := 5, 4 := 4], map[3 := 3]];
    TopOfRewritten();
    PullThreeDown();
    assert v[1 := Overfull[1]][2 := Overfull[2]] == Overfull;
  }

  /** The backfill of segment 0 pulls the new copy of 10 back up, then pulls 3 into the already full segment 1. */
  lemma BackfillOverfills()
    ensures ForwardMove([map[], Rewritten, map[3 := 3]], 0, 1) == Overfull
  {
    BackfillFirst();
    BackfillSecond();
  }

  /** Segment 0 loses 10 and is backfilled by its deficit of one. */
  lemma TenDelete()
    ensures Stored(Three[0], 10) > 0
    ensures [Three[0], Rewritten, Three[2]][0 := Three[0] - {10}] == [map[], Rewritten, map[3 := 3]]
    ensures Capacity(0, 3, 1) == 1
  {
    SameMap(Three[0] - {10}, map[]);
  }

  /** No later segment holds 10, so the removal changes nothing more. */
  lemma OverfullSettled()
    ensures RemoveFrom(Overfull, 10, 1, 1) == Overfull
  {
    RemoveFromSkip(Overfull, 10, 1, 1);
    RemoveFromSkip(Overfull, 10, 2, 1);
  }

  /** The facts one removal step at segment 0 needs, about the states the removal passes through. */
  lemma TenStepFacts(s: Segs, s1: Segs, o: Segs)
    requires s == [Three[0], Rewritten, Three[2]] && s1 == [map[], Rewritten, map[3 := 3]] && o == Overfull
    ensures 0 < |s| && Stored(s[0], 10) > 0 && s1 == s[0 := s[0] - {10}]
    ensures Capacity(0, |s|, 1) - |s1[0]| == 1 && o == ForwardMove(s1, 0, 1)
    ensures RemoveFrom(o, 10, 1, 1) == o
  {
    TenDelete();
    BackfillOverfills();
    OverfullSettled();
  }

  /** A removal that deletes at segment 0 and backfills one member goes on from segment 1 of the backfilled state. */
  lemma RemoveAtFirst(s: Segs, s1: Segs, x: Member, init: int)
    requires 0 < |s| && Stored(s[0], x) > 0 && s1 == s[0 := s[0] - {x}]
    requires Capacity(0, |s|, init) - |s1[0]| == 1
    ensures RemoveFrom(s, x, 0, init) == RemoveFrom(ForwardMove(s1, 0, 1), x, 1, init)
  {
    RemoveFromStep(s, x, 0, init, s1, 1, ForwardMove(s1, 0, 1));
  }

  lemma TenRemoval()
    ensures RemoveFrom([Three[0], Rewritten, Three[2]], 10, 0, 1) == Overfull
  {
    var s, s1 := [Three[0], Rewritten, Three[2]], [map[], Rewritten, map[3 := 3]];
    TenStepFacts(s, s1, Overfull);
    RemoveAtFirst(s, s1, 10, 1);
  }

  lemma OverfullNotFilled()
    ensures |Overfull[1]| == 3 && Capacity(1, |Overfull|, 1) == 2
    ensures !Filled(Overfull, 1, -1)
  {
    assert Tri(1) == 1;
    assert 3 in Overfull[1] && 4 in Overfull[1] && 5 in Overfull[1];
    assert Overfull[1].Keys == {3, 4, 5};
  }

  /**
   * Adding member 10 of a well-formed state again with its unchanged score
   * leaves segment 1 over its capacity of 2: the scan stops at segment 1,
   * and the removal that follows backfills segment 0 with the new copy and
   * segment 1 with a member it has no room for.
   */
  lemma AddOverfillsSegment()
    ensures WellFormed(Three, 1) && 10 in Contents(Three) && Contents(Three)[10] == 10
    ensures Add(Three, 10, 10, 1) == Overfull
    ensures |Overfull[1]| == 3 && Capacity(1, |Overfull|, 1) == 2
    ensures !WellFormed(Add(Three, 10, 10, 1), 1)
  {
    ThreeWellFormed();
    RescanReachesMiddle();
    TenRemoval();
    assert Add(Three, 10, 10, 1) == Overfull;
    OverfullNotFilled();
    assert !WellFormed(Overfull, 1);
  }

  /**
   * The corrected insertion keeps the set well formed and leaves exactly the
   * old contents with `x` scored `v`, whether or not `x` was present.
   */
  lemma UpsertKeepsMembers(s: Segs, x: Member, v: int, init: int)
    requires WellFormed(s, init) && |s| > 0 && v > 0
    requires forall a :: a in Contents(s) && a != x ==> Contents(s)[a] != v
    ensures WellFormed(Upsert(s, x, v, init), init)
    ensures Contents(Upsert(s, x, v, init)) == Contents(s)[x := v]
  {
    LocateIsPresence(s, x, init);
    if Locate(s, x) == -1 {
      AddFresh(s, x, v, init);
    } else {
      UpsertPresent(s, x, v, init);
    }
  }

  lemma UpsertPresent(s: Segs, x: Member, v: int, init: int)
    requires WellFormed(s, init) && |s| > 0 && v > 0 && x in Contents(s)
    requires forall a :: a in Contents(s) && a != x ==> Contents(s)[a] != v
    ensures WellFormed(Add(Remove(s, x, init), x, v, init), init)
    ensures Contents(Add(Remove(s, x, init), x, v, init)) == Contents(s)[x := v]
  {
    var c := Contents(s);
    var s' := Remove(s, x, init);
    assert WellFormed(s', init) && Contents(s') == c - {x} by {
      RemovePresent(s, x, init);
    }
    var c' := Contents(s');
    assert x !in c' && forall a :: a in c' ==> c'[a] != v;
    assert WellFormed(Add(s', x, v, init), init) && Contents(Add(s', x, v, init)) == c'[x := v] by {
      AddFresh(s', x, v, init);
    }
    RescoreAfterDelete(c, x, v);
  }

  /** Deleting a member and then writing it is writing it. */
  lemma RescoreAfterDelete(c: ZSet, x: Member, v: int)
    ensures (c - {x})[x := v] == c[x := v]
  {
    var l, r := (c - {x})[x := v], c[x := v];
    forall k | k in l ensures l[k] == r[k] && k in r { }
    forall k | k in r ensures k in l { }
  }

  /** Both segments of Before lie wholly within the score range [1, 10]. */
  lemma BeforeWithin()
    ensures Within(Before[0], 1, 10) == Before[0] && Within(Before[1], 1, 10) == Before[1]
  {
    SameMap(Within(Before[0], 1, 10), Before[0]);
    SameMap(Within(Before[1], 1, 10), Before[1]);
  }

  /** The per-segment listings and lowest scores of Before. */
  lemma BeforeOrders()
    ensures DescOrder(Before[0]) == [5, 4] && Lowest(Before[0]) == 4
    ensures DescOrder(Before[1]) == [3, 1] && Lowest(Before[1]) == 1
  {
    DescOrderPair(5, 5, 4, 4);
    DescOrderPair(3, 3, 1, 1);
  }

  /** Each segment's page at offset 1 and count 1 keeps that segment's second member. */
  lemma SegmentPages()
    ensures SegmentDesc(Before[0], 1, 10, Some(Window(1, 1))) == [4]
    ensures SegmentDesc(Before[1], 1, 10, Some(Window(1, 1))) == [1]
  {
    BeforeWithin();
    BeforeOrders();
  }

  /** A walk over two segments that goes on past the first and stops at the second. */
  lemma TwoSegmentWalk(s: Segs, min: int, max: int, w: Option<Window>, p0: seq<Member>, p1: seq<Member>)
    requires |s| == 2 && Lowest(s[0]) != 0 && min < Lowest(s[0]) && Lowest(s[1]) != 0 && min >= Lowest(s[1])
    requires p0 == SegmentDesc(s[0], min, max, w) && p1 == SegmentDesc(s[1], min, max, w)
    ensures DescWalk(s, min, max, w, 0, []) == AddAll(AddAll([], p0), p1)
  {
    DescWalkOn(s, min, max, w, 0, [], p0);
    DescWalkStop(s, min, max, w, 1, AddAll([], p0), p1);
  }

  /**
   * The paged descending query as written applies the offset and count to
   * each segment: on Before, for scores in [1, 10] at offset 1 with count 1,
   * it returns one member from each segment, two in all.
   */
  lemma PagePerSegment()
    ensures DescWalk(Before, 1, 10, Some(Window(1, 1)), 0, []) == [4, 1]
  {
    BeforeOrders();
    SegmentPages();
    TwoSegmentWalk(Before, 1, 10, Some(Window(1, 1)), [4], [1]);
    TwoPages();
  }

  /** Adding the two one-member pages to an empty result. */
  lemma TwoPages()
    ensures AddAll(AddAll([], [4]), [1]) == [4, 1]
  {
    AddAllFresh([], [4]);
    AddAllFresh([4], [1]);
  }

  /** The logical set of Before is its first segment above its second. */
  lemma BeforeUnion()
    ensures Contents(Before) == Before[0] + Before[1]
    ensures Above(Before[0], Before[1])
  {
    BeforeContents();
    SameMap(Contents(Before), Before[0] + Before[1]);
  }

  /** The whole of Before, highest first. */
  lemma BeforeListing()
    ensures DescOrder(Within(Contents(Before), 1, 10)) == [5, 4, 3, 1]
  {
    var a, b := Before[0], Before[1];
    BeforeUnion();
    BeforeWithin();
    WithinUnion(a, b, 1, 10);
    DescOrderConcat(a, b);
    BeforeOrders();
  }

  /**
   * The corrected paged query returns the one member at offset 1 of the
   * whole descending listing, where the query as written returns two.
   */
  lemma PageOfWhole()
    ensures DescPage(Before, 1, 10, 1, 1) == [4]
    ensures |DescWalk(Before, 1, 10, Some(Window(1, 1)), 0, [])| == 2
  {
    PagePerSegment();
    BeforeWellFormed();
    DescPageIsPage(Before, 1, 10, 1, 1, 2);
    BeforeListing();
  }
}
