/**
 * What the read operations of the segmented set mean for the logical set
 * they stand for. Each query walks the physical segments; in a well-formed
 * state its walk answers exactly what the same query on the union of the
 * segments would answer.
 */
module SegmentQueries {
  import opened ZSets
  import opened Segments
  import opened SegmentContents
  import opened SegmentInvariant

  /** In a well-formed state a member is located exactly when it is present. */
  lemma LocateIsPresence(s: Segs, x: Member, init: int)
    requires WellFormed(s, init)
    ensures Locate(s, x) == -1 <==> x !in Contents(s)
  {
    if Locate(s, x) == -1 {
      forall j | 0 <= j < |s| ensures x !in s[j] {
        if x in s[j] {
          ContentsValue(s, j, x);
        }
      }
      ContentsOut(s, x);
    } else {
      ContentsIn(s, Locate(s, x), x);
    }
  }

  /** The score read for a member is its score in the logical set, and 0 for an absent member. */
  lemma ScoreOfIsContents(s: Segs, x: Member, init: int)
    requires WellFormed(s, init)
    ensures ScoreOf(s, x) == Stored(Contents(s), x)
  {
    LocateIsPresence(s, x, init);
    var k := Locate(s, x);
    if k != -1 {
      ContentsValue(s, k, x);
    }
  }

  /** A non-empty segment's lowest score is positive and is the score of one of its members. */
  lemma LowestPositive(s: Segs, i: nat) returns (bot: Member)
    requires Sound(s) && i < |s| && |s[i]| > 0
    ensures bot in s[i] && s[i][bot] == Lowest(s[i]) && Lowest(s[i]) > 0
  {
    var m := s[i];
    bot := DescOrder(m)[|m| - 1];
    ContentsValue(s, i, bot);
  }

  /** In a well-formed state an empty segment is followed only by empty segments. */
  lemma EmptyTail(s: Segs, i: nat, init: int)
    requires WellFormed(s, init) && i < |s| && |s[i]| == 0
    ensures forall a :: a !in Contents(s[i..])
  {
    var t := s[i..];
    forall a: Member ensures a !in Contents(t) {
      forall j | 0 <= j < |t| ensures a !in t[j] {
        if a in t[j] {
          assert a in s[i + j];
          CapacityPositive(i, |s|, init);
        }
      }
      ContentsOut(t, a);
    }
  }

  /** Past the last segment, or from an empty segment on, nothing lies in any score range. */
  lemma NothingFrom(s: Segs, i: nat, min: int, max: int, init: int)
    requires WellFormed(s, init) && i <= |s| && (i == |s| || |s[i]| == 0)
    ensures |Within(Contents(s[i..]), min, max)| == 0
  {
    if i < |s| {
      EmptyTail(s, i, init);
    } else {
      assert s[i..] == [];
    }
    WithinNothing(Contents(s[i..]), min, max);
  }

  /** Segment i lies above everything the later segments hold. */
  lemma TailBelow(s: Segs, i: nat)
    requires Sound(s) && i < |s|
    ensures Above(s[i], Contents(s[i + 1..]))
  {
    var t := s[i + 1..];
    var c := Contents(t);
    assert Disjoint(t) by {
      forall p, q, a | 0 <= p < q < |t| && a in t[p] ensures a !in t[q] {
        assert t[p] == s[i + 1 + p] && t[q] == s[i + 1 + q];
      }
    }
    forall y | y in c ensures y !in s[i] && forall x :: x in s[i] ==> s[i][x] > c[y] {
      var j := ContentsWhere(t, y);
      assert t[j] == s[i + 1 + j];
      ContentsValue(t, j, y);
      ContentsValue(s, i + 1 + j, y);
      forall x | x in s[i] ensures s[i][x] > c[y] {
        ContentsValue(s, i, x);
      }
    }
  }

  /** The segments from i on hold nothing in [min, max] once segment i's lowest score is below `min`. */
  lemma TailOutOfRange(s: Segs, i: nat, min: int, max: int)
    requires Sound(s) && i < |s| && |s[i]| > 0
    ensures Lowest(s[i]) > 0
    ensures Contents(s[i..]) == s[i] + Contents(s[i + 1..])
    ensures Above(Within(s[i], min, max), Within(Contents(s[i + 1..]), min, max))
    ensures Within(Contents(s[i..]), min, max) == Within(s[i], min, max) + Within(Contents(s[i + 1..]), min, max)
    ensures min >= Lowest(s[i]) ==> |Within(Contents(s[i + 1..]), min, max)| == 0
  {
    var bot := LowestPositive(s, i);
    ContentsSplit(s, i);
    TailBelow(s, i);
    var c := Contents(s[i + 1..]);
    AboveWithin(s[i], c, min, max);
    WithinUnion(s[i], c, min, max);
    if min >= Lowest(s[i]) {
      forall y | y in c ensures c[y] < min {
        assert s[i][bot] > c[y];
      }
      assert Within(c, min, max).Keys == {};
    }
  }

  /** The range count from segment i on counts the members of those segments in [min, max]. */
  lemma {:induction false} RangeSizeCounts(s: Segs, min: int, max: int, i: nat, init: int)
    requires WellFormed(s, init) && i <= |s|
    ensures RangeSizeFrom(s, min, max, i) == |Within(Contents(s[i..]), min, max)|
    decreases |s| - i
  {
    if i == |s| || |s[i]| == 0 {
      NothingFrom(s, i, min, max, init);
    } else {
      TailOutOfRange(s, i, min, max);
      var a, b := Within(s[i], min, max), Within(Contents(s[i + 1..]), min, max);
      UnionSize(a, b);
      if min <= Lowest(s[i]) {
        RangeSizeCounts(s, min, max, i + 1, init);
      }
    }
  }

  /** The range count is the number of members of the logical set in [min, max]. */
  lemma RangeSizeIsCount(s: Segs, min: int, max: int, init: int)
    requires WellFormed(s, init)
    ensures RangeSizeFrom(s, min, max, 0) == |Within(Contents(s), min, max)|
  {
    RangeSizeCounts(s, min, max, 0, init);
    assert s[0..] == s;
  }

  /** The descending walk from segment i adds the members of those segments in [min, max], highest first. */
  lemma {:induction false} DescWalkFrom(s: Segs, min: int, max: int, i: nat, acc: seq<Member>, init: int)
    requires WellFormed(s, init) && i <= |s|
    ensures DescWalk(s, min, max, None, i, acc) == AddAll(acc, DescOrder(Within(Contents(s[i..]), min, max)))
    decreases |s| - i
  {
    if i == |s| || |s[i]| == 0 {
      NothingFrom(s, i, min, max, init);
      assert DescOrder(Within(Contents(s[i..]), min, max)) == [];
    } else {
      TailOutOfRange(s, i, min, max);
      var a, b := Within(s[i], min, max), Within(Contents(s[i + 1..]), min, max);
      DescOrderConcat(a, b);
      AddAllConcat(acc, DescOrder(a), DescOrder(b));
      if min >= Lowest(s[i]) {
        assert DescOrder(b) == [];
      } else {
        DescWalkFrom(s, min, max, i + 1, AddAll(acc, DescOrder(a)), init);
      }
    }
  }

  /**
   * The descending score query lists exactly the members of the logical set
   * in [min, max], highest first, each once.
   */
  lemma DescWalkIsDescOrder(s: Segs, min: int, max: int, init: int)
    requires WellFormed(s, init)
    ensures DescWalk(s, min, max, None, 0, []) == DescOrder(Within(Contents(s), min, max))
  {
    var d := DescOrder(Within(Contents(s), min, max));
    DescWalkFrom(s, min, max, 0, [], init);
    assert s[0..] == s;
    DescOrderNoDuplicates(Within(Contents(s), min, max));
    assert [] + d == d;
    AddAllFresh([], d);
  }

  /** The corrected paged query returns the requested page of the logical set's descending listing. */
  lemma DescPageIsPage(s: Segs, min: int, max: int, offset: int, count: int, init: int)
    requires WellFormed(s, init)
    ensures DescPage(s, min, max, offset, count) == Limit(DescOrder(Within(Contents(s), min, max)), offset, count)
  {
    DescWalkIsDescOrder(s, min, max, init);
  }

  /** The ascending walk over segments |s| - 1 down to i lists their entries in [min, max], lowest first. */
  lemma {:induction false} AscFromAll(s: Segs, min: int, max: int, i: nat)
    requires Sound(s) && i <= |s|
    ensures AscFrom(s, min, max, i) == AscEntries(Within(Contents(s[i..]), min, max))
    decreases |s| - i
  {
    var w := Within(Contents(s[i..]), min, max);
    if i == |s| {
      assert w.Keys == {};
    } else {
      ContentsSplit(s, i);
      TailBelow(s, i);
      var c := Contents(s[i + 1..]);
      AboveWithin(s[i], c, min, max);
      WithinUnion(s[i], c, min, max);
      AscEntriesConcat(Within(s[i], min, max), Within(c, min, max));
      AscFromAll(s, min, max, i + 1);
    }
  }

  /** The ascending with-scores query lists the entries of the logical set in [min, max], lowest first. */
  lemma AscFromIsAscEntries(s: Segs, min: int, max: int)
    requires Sound(s)
    ensures AscFrom(s, min, max, 0) == AscEntries(Within(Contents(s), min, max))
  {
    AscFromAll(s, min, max, 0);
    assert s[0..] == s;
  }

  /** Segments that are all empty form a well-formed, empty set. */
  lemma EmptyIsWellFormed(s: Segs, init: int)
    requires init > 0 && forall i :: 0 <= i < |s| ==> s[i] == map[]
    ensures WellFormed(s, init) && Contents(s) == map[] && TotalSize(s) == 0
  {
    forall a: Member ensures a !in Contents(s) {
      ContentsOut(s, a);
    }
    SameMap(Contents(s), map[]);
    forall i | 0 <= i < |s| - 1 ensures |s[i]| <= Capacity(i, |s|, init) {
      CapacityPositive(i, |s|, init);
    }
    TotalSizeIsContents(s);
  }
}
