/**
 * The rebalancing keeps the segmented set well formed. Starting from a well
 * formed state, inserting a fresh member with a fresh positive score, or
 * removing a present member, yields a well formed state whose logical
 * contents changed by exactly that member. Overflow propagation and backfill
 * are proved from the intermediate states they start in.
 */
module SegmentInvariant {
  import opened ZSets
  import opened Segments
  import opened SegmentContents

  // ---------------------------------------------------------------- capacity

  /** The closed form 0 + 1 + ... + i == i * (i + 1) / 2. */
  lemma {:induction false} TriClosedForm(i: nat)
    ensures 2 * Tri(i) == i * (i + 1)
  {
    if i > 0 {
      TriClosedForm(i - 1);
    }
  }

  /** A bounded segment holds at least as many members as the first one. */
  lemma CapacityPositive(i: nat, k: int, init: int)
    requires i + 1 != k && init > 0
    ensures Capacity(i, k, init) >= init
  {
    var t := Tri(i);
    assert (1 + t) * init == init + t * init;
  }

  /** Each bounded segment after the first holds (i + 1) * init more than the one before it. */
  lemma CapacityStep(i: nat, k: int, init: int)
    requires i + 2 < k && init > 0
    ensures Capacity(i + 1, k, init) == Capacity(i, k, init) + (i + 1) * init
    ensures Capacity(i + 1, k, init) > Capacity(i, k, init)
  {
    var t := Tri(i);
    assert (1 + t + (i + 1)) * init == (1 + t) * init + (i + 1) * init;
  }

  // ------------------------------------------------------ intermediate states

  /** Segment i (when bounded) holds one member beyond its capacity; the rest is well formed. */
  ghost predicate Overfull(s: Segs, i: nat, init: int)
  {
    && init > 0 && Sound(s) && i < |s| && Filled(s, init, i)
    && (i < |s| - 1 ==> |s[i]| == Capacity(i, |s|, init) + 1)
  }

  /**
   * Segment i (when bounded) is below capacity; either it lacks exactly one
   * member and `n` is 1, or every later segment is empty.
   */
  ghost predicate Underfull(s: Segs, i: nat, n: int, init: int)
  {
    && init > 0 && Sound(s) && i < |s| && Filled(s, init, i)
    && (i < |s| - 1 ==>
          && |s[i]| < Capacity(i, |s|, init)
          && ((|s[i]| + 1 == Capacity(i, |s|, init) && n == 1) || forall l :: i < l < |s| ==> |s[l]| == 0))
  }

  /** Each segment of a sound state has positive, pairwise distinct scores. */
  lemma SegmentPositiveDistinct(s: Segs, i: nat)
    requires Sound(s) && i < |s|
    ensures PositiveDistinct(s[i])
  {
    forall a | a in s[i] ensures s[i][a] > 0 {
      ContentsValue(s, i, a);
    }
    forall a, b | a in s[i] && b in s[i] && a != b ensures s[i][a] != s[i][b] {
      ContentsValue(s, i, a);
      ContentsValue(s, i, b);
    }
  }

  // ------------------------------------------------------------------ overflow

  /** In a segment of c + 1 members, every member but the bottom one scores at least the boundary. */
  lemma AboveBoundary(m: ZSet, c: nat, y: Member)
    requires c >= 1 && |m| == c + 1 && y in m && y != DescOrder(m)[c]
    ensures m[y] >= Boundary(m, c)
  {
    var d := DescOrder(m);
    assert forall j :: c - 1 < j < |m| ==> d[j] != y by {
      assert |m| == c + 1;
    }
    AtOrAboveRank(m, c - 1, y);
    assert Boundary(m, c) == m[d[c - 1]];
  }

  /**
   * In a segment holding one member beyond capacity c, the bottom member
   * scores strictly below the boundary, and every other member at or above it.
   */
  lemma BottomBelowBoundary(m: ZSet, c: nat)
    requires c >= 1 && |m| == c + 1 && PositiveDistinct(m)
    ensures 0 < m[DescOrder(m)[c]] < Boundary(m, c)
    ensures forall y :: y in m && y != DescOrder(m)[c] ==> m[y] >= Boundary(m, c)
  {
    var d := DescOrder(m);
    assert Boundary(m, c) == m[d[c - 1]];
    DescOrderRanks(m, c - 1, c);
    forall y | y in m && y != DescOrder(m)[c] ensures m[y] >= Boundary(m, c) {
      AboveBoundary(m, c, y);
    }
  }

  /** The members of `m` scoring in [0, b - 1], when only `bot` does. */
  lemma WithinOnly(m: ZSet, b: int, bot: Member)
    requires bot in m && 0 <= m[bot] < b
    requires forall y :: y in m && y != bot ==> m[y] >= b
    ensures Within(m, 0, b - 1) == map[bot := m[bot]]
  {
    var w := Within(m, 0, b - 1);
    assert forall y :: y in w ==> y == bot;
    assert w.Keys == {bot};
  }

  /**
   * In a segment holding one member beyond capacity c, the members scoring
   * below the boundary are exactly its bottom member.
   */
  lemma SurplusIsBottom(m: ZSet, c: nat)
    requires c >= 1 && |m| == c + 1 && PositiveDistinct(m)
    ensures RangeWithScoresDesc(m, 0, Boundary(m, c) - 1) == [Entry(DescOrder(m)[c], m[DescOrder(m)[c]])]
  {
    var bot := DescOrder(m)[c];
    var b := Boundary(m, c);
    BottomBelowBoundary(m, c);
    WithinOnly(m, b, bot);
    SingletonRange(m, b, bot);
  }

  lemma SingletonRange(m: ZSet, b: int, bot: Member)
    requires bot in m && Within(m, 0, b - 1) == map[bot := m[bot]]
    ensures RangeWithScoresDesc(m, 0, b - 1) == [Entry(bot, m[bot])]
  {
    var w := Within(m, 0, b - 1);
    DescOrderSingleton(bot, m[bot]);
    assert WithScores(w, [bot]) == [Entry(bot, m[bot])];
  }

  /** Moving the bottom member of segment i down into segment i + 1 keeps the contents. */
  lemma DemoteContents(s: Segs, i: nat, bot: Member)
    requires Disjoint(s) && i + 1 < |s| && bot in s[i]
    ensures Contents(Demote(s, i, bot)) == Contents(s)
  {
    var m, nx := s[i], s[i + 1];
    var a', b' := m - {bot}, nx[bot := m[bot]];
    assert bot !in nx;
    assert (a' + b').Keys == (m + nx).Keys;
    assert a' + b' == m + nx;
    ContentsTwo(s, i, a', b');
  }

  /** Moving the bottom member of segment i down into segment i + 1 keeps the segments disjoint and descending. */
  lemma DemoteOrder(s: Segs, i: nat, bot: Member)
    requires Disjoint(s) && Descending(s) && i + 1 < |s| && bot in s[i]
    requires forall y :: y in s[i] && y != bot ==> s[i][y] > s[i][bot]
    ensures Disjoint(Demote(s, i, bot)) && Descending(Demote(s, i, bot))
  {
    var s' := Demote(s, i, bot);
    forall p, q, a | 0 <= p < q < |s'| && a in s'[p] ensures a !in s'[q] {
      if a == bot {
        assert p == i + 1 || p < i;
      }
    }
    forall p, q, a, b | 0 <= p < q < |s'| && a in s'[p] && b in s'[q] ensures s'[p][a] >= s'[q][b] {
      if q == i + 1 && b == bot {
        if p < i {
          assert s[p][a] >= s[i][bot];
        } else {
          assert s'[p][a] == s[i][a];
        }
      } else if p == i + 1 && a == bot {
        assert s[i][bot] >= s[q][b];
      }
    }
  }

  /** Moving the bottom member of segment i down into segment i + 1 keeps the state sound. */
  lemma MoveBottomSound(s: Segs, i: nat, bot: Member)
    requires Sound(s) && i + 1 < |s| && bot in s[i]
    requires forall y :: y in s[i] && y != bot ==> s[i][y] > s[i][bot]
    ensures Sound(Demote(s, i, bot)) && Contents(Demote(s, i, bot)) == Contents(s)
  {
    DemoteContents(s, i, bot);
    DemoteOrder(s, i, bot);
  }

  /** Segment i's member `bot` moved down into segment i + 1. */
  ghost function Demote(s: Segs, i: nat, bot: Member): Segs
    requires i + 1 < |s| && bot in s[i]
  {
    s[i := s[i] - {bot}][i + 1 := s[i + 1][bot := s[i][bot]]]
  }

  /** The member that overflow propagation moves out of a segment holding c + 1 members: its bottom member. */
  lemma OverflowMember(m: ZSet, c: nat) returns (bot: Member)
    requires c >= 1 && |m| == c + 1 && PositiveDistinct(m)
    ensures bot in m && RangeWithScoresDesc(m, 0, Boundary(m, c) - 1) == [Entry(bot, m[bot])]
    ensures forall y :: y in m && y != bot ==> m[y] > m[bot]
  {
    SurplusIsBottom(m, c);
    BottomBelowBoundary(m, c);
    bot := DescOrder(m)[c];
  }

  /** Overflow propagation from a segment holding one member too many moves its bottom member down. */
  lemma OverflowUnfold(s: Segs, i: nat, init: int) returns (bot: Member)
    requires init > 0 && i + 1 < |s| && |s[i]| == Capacity(i, |s|, init) + 1 && PositiveDistinct(s[i])
    ensures bot in s[i] && forall y :: y in s[i] && y != bot ==> s[i][y] > s[i][bot]
    ensures AfterMove(s, i, init) ==
      var s' := Demote(s, i, bot);
      if Capacity(i + 1, |s|, init) < |s'[i + 1]| then AfterMove(s', i + 1, init) else s'
  {
    CapacityPositive(i, |s|, init);
    bot := OverflowMember(s[i], Capacity(i, |s|, init));
    var s' := DemoteMoves(s, i, bot);
    AfterMoveStep(s, i, init, [Entry(bot, s[i][bot])], s');
  }

  /** Demote is MoveDown of the single entry of `bot`, and changes only segments i and i + 1. */
  lemma DemoteMoves(s: Segs, i: nat, bot: Member) returns (s': Segs)
    requires i + 1 < |s| && bot in s[i]
    ensures s' == Demote(s, i, bot) && |s'| == |s|
    ensures (s'[i], s'[i + 1]) == MoveDown(s[i], s[i + 1], [Entry(bot, s[i][bot])])
    ensures s' == s[i := s'[i]][i + 1 := s'[i + 1]]
  {
    s' := Demote(s, i, bot);
    var es := [Entry(bot, s[i][bot])];
    assert es[1..] == [];
  }

  /** Segment sizes and the untouched segments after moving `bot` down. */
  lemma DemoteShape(s: Segs, i: nat, bot: Member)
    requires Disjoint(s) && i + 1 < |s| && bot in s[i]
    ensures |Demote(s, i, bot)| == |s|
    ensures |Demote(s, i, bot)[i]| + 1 == |s[i]| && |Demote(s, i, bot)[i + 1]| == |s[i + 1]| + 1
    ensures forall j :: 0 <= j < |s| && j != i && j != i + 1 ==> Demote(s, i, bot)[j] == s[j]
  {
    RemoveSize(s[i], bot);
    assert bot !in s[i + 1];
  }

  /** One step of overflow propagation: the bottom member of segment i moves into segment i + 1. */
  lemma OverflowStep(s: Segs, i: nat, init: int) returns (s': Segs)
    requires init > 0 && Sound(s) && i < |s| - 1 && |s[i]| == Capacity(i, |s|, init) + 1
    ensures |s'| == |s| && Sound(s') && Contents(s') == Contents(s)
    ensures |s'[i]| + 1 == |s[i]| && |s'[i + 1]| == |s[i + 1]| + 1
    ensures forall j :: 0 <= j < |s| && j != i && j != i + 1 ==> s'[j] == s[j]
    ensures AfterMove(s, i, init) ==
      if Capacity(i + 1, |s|, init) < |s'[i + 1]| then AfterMove(s', i + 1, init) else s'
  {
    SegmentPositiveDistinct(s, i);
    var bot := OverflowUnfold(s, i, init);
    s' := Demote(s, i, bot);
    MoveBottomSound(s, i, bot);
    DemoteShape(s, i, bot);
  }

  /** The sizes after one overflow step: either the next segment overflows in turn, or all is well formed. */
  lemma OverflowFilled(s: Segs, s': Segs, i: nat, init: int)
    requires init > 0 && i < |s| - 1 && |s'| == |s| && Filled(s, init, i)
    requires |s[i]| == Capacity(i, |s|, init) + 1
    requires |s'[i]| + 1 == |s[i]| && |s'[i + 1]| == |s[i + 1]| + 1
    requires forall j :: 0 <= j < |s| && j != i && j != i + 1 ==> s'[j] == s[j]
    ensures Capacity(i + 1, |s|, init) < |s'[i + 1]| ==>
      Filled(s', init, i + 1) && (i + 1 < |s| - 1 ==> |s'[i + 1]| == Capacity(i + 1, |s|, init) + 1)
    ensures Capacity(i + 1, |s|, init) >= |s'[i + 1]| ==> Filled(s', init, -1)
  {
    if i + 1 < |s| - 1 {
      assert |s[i + 1]| <= Capacity(i + 1, |s|, init);
      if Capacity(i + 1, |s|, init) >= |s'[i + 1]| {
        assert forall l :: i + 1 < l < |s| ==> |s[l]| == 0;
      }
    }
  }

  /** Overflow propagation from an overfull segment restores well-formedness and keeps the contents. */
  lemma {:induction false} AfterMoveWF(s: Segs, i: nat, init: int)
    requires Overfull(s, i, init)
    ensures WellFormed(AfterMove(s, i, init), init)
    ensures Contents(AfterMove(s, i, init)) == Contents(s)
    decreases |s| - i
  {
    if i < |s| - 1 {
      var s' := OverflowStep(s, i, init);
      OverflowFilled(s, s', i, init);
      if Capacity(i + 1, |s|, init) < |s'[i + 1]| {
        AfterMoveWF(s', i + 1, init);
      }
    } else {
      assert Filled(s, init, -1);
    }
  }

  // ------------------------------------------------------------------ backfill

  /** The one highest member of a non-empty set. */
  lemma TopOne(m: ZSet)
    requires m != map[]
    ensures TopN(m, 1) == [DescOrder(m)[0]]
    ensures forall y :: y in m && y != DescOrder(m)[0] ==> m[y] <= m[DescOrder(m)[0]]
  {
    var d := DescOrder(m);
    forall y | y in m && y != d[0] ensures m[y] <= m[d[0]] {
      DescOrderHas(m, y);
      var j :| 0 <= j < |d| && d[j] == y;
      DescOrderRanks(m, 0, j);
    }
  }

  /** `t` holds the highest score of `m`. */
  ghost predicate IsMax(m: ZSet, t: Member)
  {
    t in m && forall y :: y in m ==> m[y] <= m[t]
  }

  /** Moving the top member of segment i + 1 up into segment i keeps the segments disjoint and descending. */
  lemma PromoteOrder(s: Segs, i: nat, t: Member)
    requires Disjoint(s) && Descending(s) && i + 1 < |s| && t in s[i + 1]
    requires IsMax(s[i + 1], t)
    ensures Disjoint(Promote(s, i, t)) && Descending(Promote(s, i, t))
  {
    var nx := s[i + 1];
    var s' := Promote(s, i, t);
    forall p, q, a | 0 <= p < q < |s'| && a in s'[p] ensures a !in s'[q] {
      if a == t {
        assert p == i;
      }
    }
    forall p, q, a, b | 0 <= p < q < |s'| && a in s'[p] && b in s'[q] ensures s'[p][a] >= s'[q][b] {
      if p == i && a == t {
        if q == i + 1 {
          assert b in nx;
        } else {
          assert nx[t] >= s[q][b];
        }
      } else if q == i && b == t {
        assert s[p][a] >= nx[t];
      }
    }
  }

  /** Moving the top member of segment i + 1 up into segment i keeps the state sound. */
  lemma PullTopSound(s: Segs, i: nat, t: Member)
    requires Sound(s) && i + 1 < |s| && t in s[i + 1]
    requires IsMax(s[i + 1], t)
    ensures Sound(Promote(s, i, t)) && Contents(Promote(s, i, t)) == Contents(s)
  {
    var m, nx := s[i], s[i + 1];
    var a', b' := m[t := nx[t]], nx - {t};
    assert t !in m;
    assert (a' + b').Keys == (m + nx).Keys;
    assert a' + b' == m + nx;
    ContentsTwo(s, i, a', b');
    PromoteOrder(s, i, t);
  }

  /** The member that backfill moves out of a non-empty segment. */
  lemma BackfillMember(m: ZSet) returns (t: Member)
    requires m != map[]
    ensures IsMax(m, t) && TopN(m, 1) == [t]
  {
    TopOne(m);
    t := DescOrder(m)[0];
  }

  /** Segment i + 1's member `t` moved up into segment i. */
  ghost function Promote(s: Segs, i: nat, t: Member): Segs
    requires i + 1 < |s| && t in s[i + 1]
  {
    s[i := s[i][t := s[i + 1][t]]][i + 1 := s[i + 1] - {t}]
  }

  lemma ForwardMoveUnfold(s: Segs, i: nat, t: Member)
    requires i + 1 < |s| && t in s[i + 1] && TopN(s[i + 1], 1) == [t]
    ensures ForwardMove(s, i, 1) == ForwardMove(Promote(s, i, t), i + 1, 1)
  {
    var ts := [t];
    assert ts[1..] == [];
    assert PullUp(s[i], s[i + 1], ts) == (s[i][t := s[i + 1][t]], s[i + 1] - {t});
  }

  /** One step of backfill: the top member of segment i + 1 moves up into segment i. */
  lemma BackfillStep(s: Segs, i: nat) returns (s': Segs)
    requires Sound(s) && i < |s| - 1 && |s[i + 1]| > 0
    ensures |s'| == |s| && Sound(s') && Contents(s') == Contents(s)
    ensures |s'[i]| == |s[i]| + 1 && |s'[i + 1]| + 1 == |s[i + 1]|
    ensures forall j :: 0 <= j < |s| && j != i && j != i + 1 ==> s'[j] == s[j]
    ensures ForwardMove(s, i, 1) == ForwardMove(s', i + 1, 1)
  {
    var t := BackfillMember(s[i + 1]);
    ForwardMoveUnfold(s, i, t);
    s' := Promote(s, i, t);
    PullTopSound(s, i, t);
    assert t !in s[i];
    RemoveSize(s[i + 1], t);
  }

  /** The sizes after one backfill step leave segment i + 1 underfull. */
  lemma BackfillFilled(s: Segs, s': Segs, i: nat, init: int)
    requires init > 0 && i < |s| - 1 && |s'| == |s| && Filled(s, init, i)
    requires |s[i]| + 1 == Capacity(i, |s|, init) && |s[i + 1]| > 0
    requires |s'[i]| == |s[i]| + 1 && |s'[i + 1]| + 1 == |s[i + 1]|
    requires forall j :: 0 <= j < |s| && j != i && j != i + 1 ==> s'[j] == s[j]
    ensures Filled(s', init, i + 1)
    ensures i + 1 < |s| - 1 ==>
      && |s'[i + 1]| < Capacity(i + 1, |s|, init)
      && (|s'[i + 1]| + 1 == Capacity(i + 1, |s|, init) || forall l :: i + 1 < l < |s| ==> |s'[l]| == 0)
  {
    if i + 1 < |s| - 1 {
      assert |s[i + 1]| <= Capacity(i + 1, |s|, init);
      if |s[i + 1]| < Capacity(i + 1, |s|, init) {
        assert forall l :: i + 1 < l < |s| ==> |s[l]| == 0;
      }
    }
  }

  /** Backfill from an underfull segment restores well-formedness and keeps the contents. */
  lemma {:induction false} ForwardMoveWF(s: Segs, i: nat, n: int, init: int)
    requires n > 0 && Underfull(s, i, n, init)
    ensures WellFormed(ForwardMove(s, i, n), init)
    ensures Contents(ForwardMove(s, i, n)) == Contents(s)
    decreases |s| - i
  {
    if i < |s| - 1 && |s[i + 1]| > 0 {
      assert n == 1;
      var s' := BackfillStep(s, i);
      BackfillFilled(s, s', i, init);
      ForwardMoveWF(s', i + 1, n, init);
    } else if i < |s| - 1 {
      forall l | i < l < |s| ensures |s[l]| == 0 {
        if l > i + 1 {
          CapacityPositive(i + 1, |s|, init);
        }
      }
      assert Filled(s, init, -1);
    } else {
      assert Filled(s, init, -1);
    }
  }
}
