/**
 * What a segmented set holds as one logical set, and the shape the
 * rebalancing keeps: segments pairwise disjoint, scores descending across
 * segments (segment 0 highest), every bounded segment within its capacity,
 * and earlier segments full before later ones are used.
 */
module SegmentContents {
  import opened ZSets
  import opened Segments

  /** No member sits in two segments. */
  ghost predicate Disjoint(s: Segs)
  {
    forall i, j, a :: 0 <= i < j < |s| && a in s[i] ==> a !in s[j]
  }

  /** For i < j, every score in segment i is at least every score in segment j. */
  ghost predicate Descending(s: Segs)
  {
    forall i, j, a, b :: 0 <= i < j < |s| && a in s[i] && b in s[j] ==> s[i][a] >= s[j][b]
  }

  /** The logical set: the union of all segments. */
  ghost function Contents(s: Segs): ZSet
  {
    if s == [] then map[] else Contents(s[..|s| - 1]) + s[|s| - 1]
  }

  /** Scores are positive integers, and no two members share one. */
  ghost predicate PositiveDistinct(c: ZSet)
  {
    (forall a :: a in c ==> c[a] > 0) && DistinctScores(c)
  }

  ghost predicate Sound(s: Segs)
  {
    Disjoint(s) && Descending(s) && PositiveDistinct(Contents(s))
  }

  /**
   * Every bounded segment other than `skip` is within its capacity, and is
   * full whenever a later segment holds anything.
   */
  ghost predicate Filled(s: Segs, init: int, skip: int)
  {
    && (forall i :: 0 <= i < |s| - 1 && i != skip ==> |s[i]| <= Capacity(i, |s|, init))
    && (forall i, j :: 0 <= i < j < |s| && i != skip && |s[j]| > 0 ==> |s[i]| == Capacity(i, |s|, init))
  }

  ghost predicate WellFormed(s: Segs, init: int)
  {
    init > 0 && Sound(s) && Filled(s, init, -1)
  }

  lemma {:induction false} ContentsIn(s: Segs, i: nat, a: Member)
    requires i < |s| && a in s[i]
    ensures a in Contents(s)
    decreases |s|
  {
    if i < |s| - 1 {
      ContentsIn(s[..|s| - 1], i, a);
    }
  }

  lemma {:induction false} ContentsOut(s: Segs, a: Member)
    requires forall i :: 0 <= i < |s| ==> a !in s[i]
    ensures a !in Contents(s)
    decreases |s|
  {
    if s != [] {
      ContentsOut(s[..|s| - 1], a);
    }
  }

  /** Every member of the logical set sits in some segment. */
  lemma {:induction false} ContentsWhere(s: Segs, a: Member) returns (j: nat)
    requires a in Contents(s)
    ensures j < |s| && a in s[j]
    decreases |s|
  {
    if a in s[|s| - 1] {
      j := |s| - 1;
    } else {
      j := ContentsWhere(s[..|s| - 1], a);
    }
  }

  lemma {:induction false} ContentsValue(s: Segs, i: nat, a: Member)
    requires Disjoint(s) && i < |s| && a in s[i]
    ensures a in Contents(s) && Contents(s)[a] == s[i][a]
    decreases |s|
  {
    if i < |s| - 1 {
      var pre := s[..|s| - 1];
      assert Disjoint(pre);
      assert a !in s[|s| - 1];
      ContentsValue(pre, i, a);
    }
  }

  lemma {:induction false} ContentsAppend(s1: Segs, s2: Segs)
    ensures Contents(s1 + s2) == Contents(s1) + Contents(s2)
    decreases |s2|
  {
    if s2 == [] {
      assert s1 + s2 == s1;
    } else {
      var t := s2[..|s2| - 1];
      assert (s1 + s2)[..|s1 + s2| - 1] == s1 + t;
      ContentsAppend(s1, t);
    }
  }

  lemma ContentsOne(m: ZSet)
    ensures Contents([m]) == m
  {
    assert [m][..0] == [];
  }

  /** Map union is associative. */
  lemma UnionAssoc(p: ZSet, a: ZSet, b: ZSet)
    ensures p + a + b == p + (a + b)
  {
    var l, r := p + a + b, p + (a + b);
    assert l.Keys == r.Keys;
    forall y | y in l ensures l[y] == r[y] {
      if y !in b && y !in a { assert l[y] == p[y]; }
    }
  }

  /** The segments from i on hold segment i and the segments after it. */
  lemma ContentsSplit(s: Segs, i: nat)
    requires i < |s|
    ensures Contents(s[i..]) == s[i] + Contents(s[i + 1..])
  {
    assert s[i..] == [s[i]] + s[i + 1..];
    ContentsAppend([s[i]], s[i + 1..]);
    ContentsOne(s[i]);
  }

  /** Replacing segments i and i + 1 by two maps with the same union keeps the contents. */
  lemma ContentsTwo(s: Segs, i: nat, a: ZSet, b: ZSet)
    requires i + 1 < |s| && a + b == s[i] + s[i + 1]
    ensures Contents(s[i := a][i + 1 := b]) == Contents(s)
  {
    var s' := s[i := a][i + 1 := b];
    var pre, post := s[..i], s[i + 2..];
    assert s == (pre + [s[i]]) + ([s[i + 1]] + post);
    assert s' == (pre + [a]) + ([b] + post);
    ContentsAppend(pre + [s[i]], [s[i + 1]] + post);
    ContentsAppend(pre + [a], [b] + post);
    ContentsAppend(pre, [s[i]]);
    ContentsAppend(pre, [a]);
    ContentsAppend([s[i + 1]], post);
    ContentsAppend([b], post);
    ContentsOne(a);
    ContentsOne(b);
    ContentsOne(s[i]);
    ContentsOne(s[i + 1]);
    var cp, cq := Contents(pre), Contents(post);
    UnionAssoc(cp + a, b, cq);
    UnionAssoc(cp, a, b);
    UnionAssoc(cp + s[i], s[i + 1], cq);
    UnionAssoc(cp, s[i], s[i + 1]);
  }

  /** Replacing segment i changes the contents only through that segment. */
  lemma ContentsReplace(s: Segs, i: nat, a: ZSet)
    requires i < |s|
    ensures Contents(s) == Contents(s[..i]) + s[i] + Contents(s[i + 1..])
    ensures Contents(s[i := a]) == Contents(s[..i]) + a + Contents(s[i + 1..])
  {
    var pre, post := s[..i], s[i + 1..];
    assert s == pre + [s[i]] + post;
    assert s[i := a] == pre + [a] + post;
    ContentsAppend(pre + [s[i]], post);
    ContentsAppend(pre, [s[i]]);
    ContentsAppend(pre + [a], post);
    ContentsAppend(pre, [a]);
    ContentsOne(a);
    ContentsOne(s[i]);
  }

  /** Writing a member held by no segment into segment i adds exactly that pair. */
  lemma ContentsInsert(s: Segs, i: nat, x: Member, v: int)
    requires i < |s| && forall j :: 0 <= j < |s| ==> x !in s[j]
    ensures Contents(s[i := s[i][x := v]]) == Contents(s)[x := v]
  {
    ContentsReplace(s, i, s[i][x := v]);
    ContentsOut(s[i + 1..], x);
    var p, q := Contents(s[..i]), Contents(s[i + 1..]);
    var l, r := p + s[i][x := v] + q, (p + s[i] + q)[x := v];
    assert l.Keys == r.Keys;
    forall y | y in l ensures l[y] == r[y] {
      if y != x && y !in q && y !in s[i] { assert l[y] == p[y]; }
    }
  }

  /** Deleting a member from the one segment that holds it removes exactly that member. */
  lemma ContentsDelete(s: Segs, k: nat, x: Member)
    requires Disjoint(s) && k < |s| && x in s[k]
    ensures Contents(s[k := s[k] - {x}]) == Contents(s) - {x}
  {
    ContentsReplace(s, k, s[k] - {x});
    var pre, post := s[..k], s[k + 1..];
    forall j | 0 <= j < |pre| ensures x !in pre[j] {
      assert pre[j] == s[j];
    }
    forall j | 0 <= j < |post| ensures x !in post[j] {
      assert post[j] == s[k + 1 + j];
    }
    ContentsOut(pre, x);
    ContentsOut(post, x);
    var p, q := Contents(pre), Contents(post);
    var l, r := p + (s[k] - {x}) + q, (p + s[k] + q) - {x};
    forall y | y in l ensures y in r && l[y] == r[y] { }
    forall y | y in r ensures y in l { }
  }

  /** The total of the segment sizes is the size of the logical set. */
  lemma {:induction false} TotalSizeIsContents(s: Segs)
    requires Disjoint(s)
    ensures TotalSize(s) == |Contents(s)|
    decreases |s|
  {
    if s != [] {
      var pre, last := s[..|s| - 1], s[|s| - 1];
      assert Disjoint(pre);
      TotalSizeIsContents(pre);
      forall a | a in last ensures a !in Contents(pre) {
        ContentsOut(pre, a);
      }
      var c := Contents(pre);
      assert (c + last).Keys == c.Keys + last.Keys;
      assert c.Keys * last.Keys == {};
    }
  }
}
