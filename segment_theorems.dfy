/**
 * Insertion of a new member and removal of a present member keep the
 * segmented set well formed, and change its logical contents and its total
 * size by exactly that member.
 */
module SegmentTheorems {
  import opened ZSets
  import opened Segments
  import opened SegmentContents
  import opened SegmentInvariant

  /** A member outside the contents is held by no segment. */
  lemma Absent(s: Segs, x: Member)
    requires x !in Contents(s)
    ensures forall j :: 0 <= j < |s| ==> x !in s[j]
  {
    forall j | 0 <= j < |s| ensures x !in s[j] {
      if x in s[j] {
        ContentsIn(s, j, x);
      }
    }
  }

  // ----------------------------------------------------------------- insertion

  /** Writing a fresh member into segment i, between higher and lower segments, keeps them disjoint and descending. */
  lemma InsertOrder(s: Segs, x: Member, v: int, i: nat)
    requires Disjoint(s) && Descending(s) && i < |s|
    requires forall j :: 0 <= j < |s| ==> x !in s[j]
    requires forall j, a :: 0 <= j < i && a in s[j] ==> s[j][a] >= v
    requires forall j, b :: i < j < |s| && b in s[j] ==> s[j][b] <= v
    ensures Disjoint(s[i := s[i][x := v]]) && Descending(s[i := s[i][x := v]])
  {
    var s' := s[i := s[i][x := v]];
    forall p, q, a | 0 <= p < q < |s'| && a in s'[p] ensures a !in s'[q] {
      if a == x {
        assert p == i;
      }
    }
    forall p, q, a, b | 0 <= p < q < |s'| && a in s'[p] && b in s'[q] ensures s'[p][a] >= s'[q][b] {
      if p == i && a == x {
        assert s[q][b] <= v;
      } else if q == i && b == x {
        assert s[p][a] >= v;
      }
    }
  }

  /** Adding a fresh member with a fresh positive score keeps scores positive and distinct. */
  lemma InsertScores(c: ZSet, x: Member, v: int)
    requires PositiveDistinct(c) && x !in c && v > 0
    requires forall a :: a in c ==> c[a] != v
    ensures PositiveDistinct(c[x := v])
  {
  }

  lemma InsertSound(s: Segs, x: Member, v: int, i: nat)
    requires Sound(s) && i < |s| && v > 0
    requires forall j :: 0 <= j < |s| ==> x !in s[j]
    requires forall a :: a in Contents(s) ==> Contents(s)[a] != v
    requires forall j, a :: 0 <= j < i && a in s[j] ==> s[j][a] >= v
    requires forall j, b :: i < j < |s| && b in s[j] ==> s[j][b] <= v
    ensures Sound(s[i := s[i][x := v]]) && Contents(s[i := s[i][x := v]]) == Contents(s)[x := v]
  {
    InsertOrder(s, x, v, i);
    ContentsInsert(s, i, x, v);
    ContentsOut(s, x);
    InsertScores(Contents(s), x, v);
  }

  /** In a full segment, the boundary is the lowest score, held by one of its members. */
  lemma FullBoundary(m: ZSet, c: int) returns (y: Member)
    requires c >= 1 && |m| == c
    ensures y in m && m[y] == Boundary(m, c)
    ensures forall a :: a in m ==> m[a] >= Boundary(m, c)
  {
    y := DescOrder(m)[c - 1];
    forall a | a in m ensures m[a] >= Boundary(m, c) {
      BottomIsLowest(m, a);
    }
  }

  /** The insertion scan's precondition at segment i: fresh (x, v), and every earlier segment full and scoring at least v. */
  ghost predicate ScanState(s: Segs, x: Member, v: int, i: nat, init: int)
  {
    && WellFormed(s, init) && i < |s| && v > 0
    && (forall j :: 0 <= j < |s| ==> x !in s[j])
    && (forall a :: a in Contents(s) ==> Contents(s)[a] != v)
    && (forall j :: 0 <= j < i ==> |s[j]| == Capacity(j, |s|, init))
    && (forall j, a :: 0 <= j < i && a in s[j] ==> s[j][a] >= v)
  }

  /** Placing the member in a segment below capacity, or in the last one. */
  lemma AddBelowCapacity(s: Segs, x: Member, v: int, i: nat, init: int)
    requires ScanState(s, x, v, i, init)
    requires |s[i]| < Capacity(i, |s|, init) || Capacity(i, |s|, init) == -1
    ensures WellFormed(s[i := s[i][x := v]], init)
    ensures Contents(s[i := s[i][x := v]]) == Contents(s)[x := v]
  {
    var s1 := s[i := s[i][x := v]];
    assert forall l :: i < l < |s| ==> |s[l]| == 0;
    InsertSound(s, x, v, i);
    assert Filled(s1, init, -1);
  }

  /** Below a full segment whose boundary is under `v`, every score is under `v`. */
  lemma BelowFullSegment(s: Segs, v: int, i: nat, init: int)
    requires WellFormed(s, init) && i < |s| - 1
    requires |s[i]| == Capacity(i, |s|, init) && Boundary(s[i], Capacity(i, |s|, init)) < v
    ensures forall j, b :: i < j < |s| && b in s[j] ==> s[j][b] <= v
  {
    CapacityPositive(i, |s|, init);
    var y := FullBoundary(s[i], Capacity(i, |s|, init));
    forall j, b | i < j < |s| && b in s[j] ensures s[j][b] <= v {
      assert s[i][y] >= s[j][b];
    }
  }

  /** Changing only a non-empty segment i can break the fill rule only at segment i. */
  lemma GrowFilled(s: Segs, s1: Segs, i: nat, init: int)
    requires Filled(s, init, -1) && i < |s| && |s1| == |s| && |s[i]| > 0
    requires forall j :: 0 <= j < |s| && j != i ==> s1[j] == s[j]
    ensures Filled(s1, init, i)
  {
  }

  /** Placing the member in a full segment whose boundary is below `v` leaves that segment overfull. */
  lemma InsertOverCapacity(s: Segs, x: Member, v: int, i: nat, init: int)
    requires ScanState(s, x, v, i, init) && i < |s| - 1
    requires |s[i]| == Capacity(i, |s|, init) && Boundary(s[i], Capacity(i, |s|, init)) < v
    ensures Overfull(s[i := s[i][x := v]], i, init)
    ensures Contents(s[i := s[i][x := v]]) == Contents(s)[x := v]
  {
    var s1 := s[i := s[i][x := v]];
    BelowFullSegment(s, v, i, init);
    InsertSound(s, x, v, i);
    CapacityPositive(i, |s|, init);
    GrowFilled(s, s1, i, init);
  }

  /** Placing the member in a full segment whose boundary is below `v`, then propagating the overflow. */
  lemma AddOverCapacity(s: Segs, x: Member, v: int, i: nat, init: int)
    requires ScanState(s, x, v, i, init) && i < |s| - 1
    requires |s[i]| == Capacity(i, |s|, init) && Boundary(s[i], Capacity(i, |s|, init)) < v
    ensures WellFormed(AfterMove(s[i := s[i][x := v]], i, init), init)
    ensures Contents(AfterMove(s[i := s[i][x := v]], i, init)) == Contents(s)[x := v]
  {
    var s1 := s[i := s[i][x := v]];
    InsertOverCapacity(s, x, v, i, init);
    AfterMoveWF(s1, i, init);
  }

  /**
   * The insertion scan from segment i, when every earlier segment is full
   * and scores at least `v`, yields a well formed state holding the old
   * contents plus (x, v).
   */
  lemma {:induction false} AddScan(s: Segs, x: Member, v: int, i: nat, init: int)
    requires ScanState(s, x, v, i, init)
    ensures WellFormed(AddFrom(s, x, v, -1, i, init), init)
    ensures Contents(AddFrom(s, x, v, -1, i, init)) == Contents(s)[x := v]
    decreases |s| - i
  {
    var c := Capacity(i, |s|, init);
    if |s[i]| < c || c == -1 {
      AddBelowCapacity(s, x, v, i, init);
    } else {
      CapacityPositive(i, |s|, init);
      if Boundary(s[i], c) < v {
        AddOverCapacity(s, x, v, i, init);
      } else {
        var y := FullBoundary(s[i], c);
        assert ScanState(s, x, v, i + 1, init);
        AddScan(s, x, v, i + 1, init);
      }
    }
  }

  /**
   * Adding a member that is not yet present, with a positive score no
   * member holds, keeps the set well formed, adds exactly that member, and
   * grows the size by one.
   */
  lemma AddFresh(s: Segs, x: Member, v: int, init: int)
    requires WellFormed(s, init) && |s| > 0 && x !in Contents(s) && v > 0
    requires forall a :: a in Contents(s) ==> Contents(s)[a] != v
    ensures WellFormed(Add(s, x, v, init), init)
    ensures Contents(Add(s, x, v, init)) == Contents(s)[x := v]
    ensures TotalSize(Add(s, x, v, init)) == TotalSize(s) + 1
  {
    Absent(s, x);
    assert Locate(s, x) == -1;
    AddScan(s, x, v, 0, init);
    TotalSizeIsContents(s);
    TotalSizeIsContents(Add(s, x, v, init));
  }

  // ------------------------------------------------------------------- removal

  /** The removal scan from `i` goes straight to the first segment storing `x` positively, if any. */
  lemma {:induction false} RemoveJump(s: Segs, x: Member, i: nat, init: int)
    requires i <= |s|
    ensures var k := LocateFrom(s, x, i); RemoveFrom(s, x, i, init) == if k == -1 then s else RemoveFrom(s, x, k, init)
    decreases |s| - i
  {
    if i < |s| && Stored(s[i], x) <= 0 {
      RemoveFromSkip(s, x, i, init);
      RemoveJump(s, x, i + 1, init);
    }
  }

  /** Removing a member that no segment holds changes nothing. */
  lemma RemoveAbsent(s: Segs, x: Member, i: nat, init: int)
    requires i <= |s| && forall j :: i <= j < |s| ==> x !in s[j]
    ensures RemoveFrom(s, x, i, init) == s
  {
    RemoveJump(s, x, i, init);
  }

  /** Deleting a member from its segment keeps the state sound and removes it from the contents. */
  lemma DeleteSound(s: Segs, k: nat, x: Member)
    requires Sound(s) && k < |s| && x in s[k]
    ensures Sound(s[k := s[k] - {x}]) && Contents(s[k := s[k] - {x}]) == Contents(s) - {x}
  {
    ContentsDelete(s, k, x);
  }

  /** After deleting one member of segment k, segment k is underfull by the deficit the removal computes. */
  lemma DeleteFilled(s: Segs, s1: Segs, k: nat, init: int)
    requires init > 0 && Filled(s, init, -1) && k < |s| && |s1| == |s|
    requires |s1[k]| + 1 == |s[k]|
    requires forall j :: 0 <= j < |s| && j != k ==> s1[j] == s[j]
    ensures Filled(s1, init, k)
    ensures k < |s| - 1 ==>
      && |s1[k]| < Capacity(k, |s|, init)
      && ((|s1[k]| + 1 == Capacity(k, |s|, init)) || forall l :: k < l < |s| ==> |s1[l]| == 0)
  {
    if k < |s| - 1 && |s[k]| < Capacity(k, |s|, init) {
      assert forall l :: k < l < |s| ==> |s[l]| == 0;
    }
  }

  /** A member of the contents is stored positively in the segment the scan finds first. */
  lemma PresentAt(s: Segs, x: Member) returns (k: nat)
    requires Sound(s) && x in Contents(s)
    ensures k == LocateFrom(s, x, 0) && k < |s| && x in s[k]
  {
    if forall j :: 0 <= j < |s| ==> x !in s[j] {
      ContentsOut(s, x);
      assert false;
    }
    var j :| 0 <= j < |s| && x in s[j];
    ContentsValue(s, j, x);
    assert Stored(s[j], x) > 0;
    k := LocateFrom(s, x, 0);
  }

  /** Deleting `x` from segment k and backfilling keeps the set well formed and removes exactly `x`. */
  lemma DeleteBackfill(s: Segs, x: Member, k: nat, init: int, s2: Segs)
    requires WellFormed(s, init) && k < |s| && x in s[k]
    requires s2 == var s1 := s[k := s[k] - {x}];
      var d := Capacity(k, |s|, init) - |s1[k]|;
      if d > 0 then ForwardMove(s1, k, d) else s1
    ensures WellFormed(s2, init) && Contents(s2) == Contents(s) - {x}
  {
    var s1 := s[k := s[k] - {x}];
    var d := Capacity(k, |s|, init) - |s1[k]|;
    DeleteSound(s, k, x);
    RemoveSize(s[k], x);
    DeleteFilled(s, s1, k, init);
    if d > 0 {
      assert Underfull(s1, k, d, init);
      ForwardMoveWF(s1, k, d, init);
    } else {
      assert Underfull(s1, k, 1, init);
      ForwardMoveWF(s1, k, 1, init);
    }
  }

  /**
   * Removing a present member keeps the set well formed, removes exactly
   * that member, and shrinks the size by one.
   */
  lemma RemovePresent(s: Segs, x: Member, init: int)
    requires WellFormed(s, init) && x in Contents(s)
    ensures WellFormed(Remove(s, x, init), init)
    ensures Contents(Remove(s, x, init)) == Contents(s) - {x}
    ensures TotalSize(Remove(s, x, init)) == TotalSize(s) - 1
  {
    var k := PresentAt(s, x);
    var s1 := s[k := s[k] - {x}];
    var d := Capacity(k, |s|, init) - |s1[k]|;
    var s2 := if d > 0 then ForwardMove(s1, k, d) else s1;
    assert Remove(s, x, init) == RemoveFrom(s2, x, k + 1, init) by {
      RemoveJump(s, x, 0, init);
      RemoveFromStep(s, x, k, init, s1, d, s2);
    }
    DeleteBackfill(s, x, k, init, s2);
    assert RemoveFrom(s2, x, k + 1, init) == s2 by {
      Absent(s2, x);
      RemoveAbsent(s2, x, k + 1, init);
    }
    TotalSizeIsContents(s);
    TotalSizeIsContents(s2);
  }
}
