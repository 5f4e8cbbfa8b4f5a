/**
 * One physical sorted set as the remote store presents it: a map from member
 * to score. The store orders members by score, and members with equal scores
 * by the member itself; "descending" is the exact reverse of "ascending".
 * Members are the codec's encoded keys, modelled as integers so that the tie
 * order is a fixed total order.
 */
module ZSets {

  type Member = int
  type ZSet = map<Member, int>

  datatype Option<T> = None | Some(value: T)

  /** A (member, score) pair, as the store's with-scores queries return it. */
  datatype Entry = Entry(member: Member, score: int)

  /** The score the segmented set reads for `x`: an absent member reads as 0. */
  function Stored(m: ZSet, x: Member): int
  {
    if x in m then m[x] else 0
  }

  /** `a` comes strictly before `b` in descending order. */
  predicate Outranks(m: ZSet, a: Member, b: Member)
  {
    a in m && b in m && (m[a] > m[b] || (m[a] == m[b] && a > b))
  }

  predicate IsTop(m: ZSet, t: Member)
  {
    t in m && forall y :: y in m && y != t ==> Outranks(m, t, y)
  }

  lemma RemoveSize(m: ZSet, k: Member)
    requires k in m
    ensures |m - {k}| == |m| - 1
  {
    assert (m - {k}).Keys == m.Keys - {k};
  }

  lemma {:induction false} TopExists(m: ZSet)
    requires m != map[]
    ensures exists t :: IsTop(m, t)
    decreases |m|
  {
    if forall x :: x !in m { assert false; }
    var k :| k in m;
    var rest := m - {k};
    if rest == map[] {
      forall y | y in m ensures y == k {
        assert y !in rest;
      }
      assert IsTop(m, k);
    } else {
      RemoveSize(m, k);
      TopExists(rest);
      var t :| IsTop(rest, t);
      if Outranks(m, t, k) {
        forall y | y in m && y != t ensures Outranks(m, t, y) {
          if y != k { assert y in rest && Outranks(rest, t, y); }
        }
        assert IsTop(m, t);
      } else {
        forall y | y in m && y != k ensures Outranks(m, k, y) {
          if y != t { assert y in rest && Outranks(rest, t, y); }
        }
        assert IsTop(m, k);
      }
    }
  }

  /** The member at descending rank 0. */
  function Top(m: ZSet): (t: Member)
    requires m != map[]
    ensures IsTop(m, t)
  {
    TopExists(m);
    var t :| IsTop(m, t);
    t
  }

  /**
   * The members in descending order: the order of the store's reverse-range
   * commands. That the order is strictly descending is DescOrderRanks.
   */
  function DescOrder(m: ZSet): (r: seq<Member>)
    ensures |r| == |m|
    ensures forall i :: 0 <= i < |r| ==> r[i] in m
    decreases |m|
  {
    if m == map[] then []
    else
      var t := Top(m);
      RemoveSize(m, t);
      [t] + DescOrder(m - {t})
  }

  /** Every member of `m` has a descending rank. */
  lemma {:induction false} DescOrderHas(m: ZSet, x: Member)
    requires x in m
    ensures x in DescOrder(m)
    decreases |m|
  {
    var t := Top(m);
    RemoveSize(m, t);
    var d := DescOrder(m);
    assert d == [t] + DescOrder(m - {t});
    if x != t {
      DescOrderHas(m - {t}, x);
    }
  }

  /** A member at a smaller descending rank outranks one at a larger rank. */
  lemma {:induction false} DescOrderRanks(m: ZSet, i: nat, j: nat)
    requires i < j < |m|
    ensures Outranks(m, DescOrder(m)[i], DescOrder(m)[j])
    decreases |m|
  {
    var t := Top(m);
    var rest := m - {t};
    RemoveSize(m, t);
    var d := DescOrder(m);
    assert d == [t] + DescOrder(rest);
    assert d[j] == DescOrder(rest)[j - 1];
    if i > 0 {
      assert d[i] == DescOrder(rest)[i - 1];
      DescOrderRanks(rest, i - 1, j - 1);
    }
  }

  /** The top member of a set is unique. */
  lemma TopUnique(m: ZSet, t: Member)
    requires IsTop(m, t)
    ensures Top(m) == t
  {
    if Top(m) != t {
      assert false;
    }
  }

  lemma SameMap(a: ZSet, b: ZSet)
    requires forall k :: k in a <==> k in b
    requires forall k :: k in a ==> a[k] == b[k]
    ensures a == b
  {
    forall k | k in a ensures a[k] == b[k] && k in b { }
    forall k | k in b ensures k in a { }
  }

  /** `xs` lists exactly the members of `m`, each outranking every member after it. */
  ghost predicate ListsDesc(m: ZSet, xs: seq<Member>)
  {
    && (forall i :: 0 <= i < |xs| ==> xs[i] in m)
    && (forall y :: y in m ==> y in xs)
    && (forall i, j :: 0 <= i < j < |xs| ==> Outranks(m, xs[i], xs[j]))
  }

  lemma DescOrderLists(m: ZSet)
    ensures ListsDesc(m, DescOrder(m))
  {
    var d := DescOrder(m);
    forall y | y in m ensures y in d {
      DescOrderHas(m, y);
    }
    forall i, j | 0 <= i < j < |d| ensures Outranks(m, d[i], d[j]) {
      DescOrderRanks(m, i, j);
    }
  }

  /** Dropping the first member of a descending listing lists the rest. */
  lemma ListsDescTail(m: ZSet, xs: seq<Member>)
    requires ListsDesc(m, xs) && xs != []
    ensures ListsDesc(m - {xs[0]}, xs[1..])
  {
    var rest, ys := m - {xs[0]}, xs[1..];
    forall i | 0 <= i < |ys| ensures ys[i] in rest {
      assert Outranks(m, xs[0], xs[i + 1]);
    }
    forall y | y in rest ensures y in ys {
      var j :| 0 <= j < |xs| && xs[j] == y;
      assert ys[j - 1] == y;
    }
    forall i, j | 0 <= i < j < |ys| ensures Outranks(rest, ys[i], ys[j]) {
      assert Outranks(m, xs[i + 1], xs[j + 1]);
    }
  }

  /** There is only one descending listing of a set. */
  lemma {:induction false} ListsDescUnique(m: ZSet, xs: seq<Member>, ys: seq<Member>)
    requires ListsDesc(m, xs) && ListsDesc(m, ys)
    ensures xs == ys
    decreases |xs|
  {
    if ys != [] {
      var y0 := ys[0];
      assert y0 in m;
      assert y0 in xs;
    }
    if xs != [] {
      var x0 := xs[0];
      assert x0 in m;
      assert x0 in ys;
      var k :| 0 <= k < |xs| && xs[k] == ys[0];
      var k' :| 0 <= k' < |ys| && ys[k'] == x0;
      assert k == 0 || Outranks(m, xs[0], xs[k]);
      assert k' == 0 || Outranks(m, ys[0], ys[k']);
      ListsDescTail(m, xs);
      ListsDescTail(m, ys);
      ListsDescUnique(m - {xs[0]}, xs[1..], ys[1..]);
      assert xs == [xs[0]] + xs[1..] && ys == [ys[0]] + ys[1..];
    }
  }

  /** Keys of `a` and `b` are disjoint and every score in `a` is above every score in `b`. */
  ghost predicate Above(a: ZSet, b: ZSet)
  {
    (forall x :: x in a ==> x !in b) && forall x, y :: x in a && y in b ==> a[x] > b[y]
  }

  /** Restricting both sides to a score range keeps one above the other. */
  lemma AboveWithin(a: ZSet, b: ZSet, min: int, max: int)
    requires Above(a, b)
    ensures Above(Within(a, min, max), Within(b, min, max))
  {
  }

  /** How two members rank in the union of `a` above `b`. */
  lemma UnionRanks(a: ZSet, b: ZSet, x: Member, y: Member)
    requires Above(a, b)
    requires Outranks(a, x, y) || Outranks(b, x, y) || (x in a && y in b)
    ensures Outranks(a + b, x, y)
  {
    if x in a && y in b {
      assert a[x] > b[y];
    }
  }

  /** A listing of `a` followed by one of `b` lists the union of `a` above `b`. */
  lemma ListsDescConcat(a: ZSet, b: ZSet, da: seq<Member>, db: seq<Member>)
    requires Above(a, b) && ListsDesc(a, da) && ListsDesc(b, db)
    ensures ListsDesc(a + b, da + db)
  {
    var m, xs := a + b, da + db;
    forall i | 0 <= i < |xs| ensures xs[i] in m {
      if i >= |da| {
        assert xs[i] == db[i - |da|];
      }
    }
    forall y | y in m ensures y in xs {
      if y in a {
        var k :| 0 <= k < |da| && da[k] == y;
        assert xs[k] == y;
      } else {
        var k :| 0 <= k < |db| && db[k] == y;
        assert xs[|da| + k] == y;
      }
    }
    forall i, j | 0 <= i < j < |xs| ensures Outranks(m, xs[i], xs[j]) {
      if j < |da| {
        assert xs[i] == da[i] && xs[j] == da[j];
        UnionRanks(a, b, da[i], da[j]);
      } else if i >= |da| {
        assert xs[i] == db[i - |da|] && xs[j] == db[j - |da|];
        UnionRanks(a, b, db[i - |da|], db[j - |da|]);
      } else {
        assert xs[i] == da[i] && xs[j] == db[j - |da|];
        UnionRanks(a, b, da[i], db[j - |da|]);
      }
    }
  }

  /** When `a` lies above `b`, the descending order of their union lists `a` first. */
  lemma DescOrderConcat(a: ZSet, b: ZSet)
    requires Above(a, b)
    ensures DescOrder(a + b) == DescOrder(a) + DescOrder(b)
  {
    DescOrderLists(a);
    DescOrderLists(b);
    DescOrderLists(a + b);
    ListsDescConcat(a, b, DescOrder(a), DescOrder(b));
    ListsDescUnique(a + b, DescOrder(a + b), DescOrder(a) + DescOrder(b));
  }

  /** When `a` lies above `b`, the ascending order of their union lists `b` first. */
  lemma AscOrderConcat(a: ZSet, b: ZSet)
    requires Above(a, b)
    ensures AscOrder(a + b) == AscOrder(b) + AscOrder(a)
  {
    DescOrderConcat(a, b);
    ReversedConcat(DescOrder(a), DescOrder(b));
  }

  /** The entries of `m`, lowest first: what the store's ascending with-scores queries return. */
  function AscEntries(m: ZSet): (r: seq<Entry>)
    ensures |r| == |m|
    ensures forall k :: 0 <= k < |r| ==> r[k].member in m && r[k].score == m[r[k].member]
  {
    WithScores(m, AscOrder(m))
  }

  /** When `a` lies above `b`, the ascending entries of their union list those of `b` first. */
  lemma AscEntriesConcat(a: ZSet, b: ZSet)
    requires Above(a, b)
    ensures AscEntries(a + b) == AscEntries(b) + AscEntries(a)
  {
    AscOrderConcat(a, b);
    WithScoresConcat(a, b, AscOrder(a), AscOrder(b));
  }

  /** Pairing members of `b` and then of `a` with their scores in the union of `a` above `b`. */
  lemma WithScoresConcat(a: ZSet, b: ZSet, xa: seq<Member>, xb: seq<Member>)
    requires forall x :: x in a ==> x !in b
    requires (forall i :: 0 <= i < |xa| ==> xa[i] in a) && forall i :: 0 <= i < |xb| ==> xb[i] in b
    ensures WithScores(a + b, xb + xa) == WithScores(b, xb) + WithScores(a, xa)
  {
    var l, r := WithScores(a + b, xb + xa), WithScores(b, xb) + WithScores(a, xa);
    forall k | 0 <= k < |l| ensures l[k] == r[k] {
      if k < |xb| {
        assert (xb + xa)[k] == xb[k];
        assert r[k] == WithScores(b, xb)[k];
      } else {
        assert (xb + xa)[k] == xa[k - |xb|];
        assert r[k] == WithScores(a, xa)[k - |xb|];
      }
    }
  }

  /** Descending order never lists a member twice. */
  lemma DescOrderNoDuplicates(m: ZSet)
    ensures NoDuplicates(DescOrder(m))
  {
    var d := DescOrder(m);
    forall i, j | 0 <= i < j < |d| ensures d[i] != d[j] {
      DescOrderRanks(m, i, j);
    }
  }

  /** The members of `a` and `b` in [min, max] are those of `a` plus those of `b`. */
  lemma WithinUnion(a: ZSet, b: ZSet, min: int, max: int)
    requires forall x :: x in a ==> x !in b
    ensures Within(a + b, min, max) == Within(a, min, max) + Within(b, min, max)
  {
    var l, r := Within(a + b, min, max), Within(a, min, max) + Within(b, min, max);
    forall k | k in l ensures k in r && l[k] == r[k] { }
    forall k | k in r ensures k in l { }
  }

  /** An empty set has nothing in any score range. */
  lemma WithinNothing(m: ZSet, min: int, max: int)
    requires forall a :: a !in m
    ensures |Within(m, min, max)| == 0
  {
    SameMap(Within(m, min, max), map[]);
  }

  /** The size of a union of sets with disjoint keys. */
  lemma UnionSize(a: ZSet, b: ZSet)
    requires forall x :: x in a ==> x !in b
    ensures |a + b| == |a| + |b|
  {
    var ka, kb := a.Keys, b.Keys;
    assert (a + b).Keys == ka + kb;
    forall k | k in ka ensures k !in kb { }
    assert ka * kb == {};
    assert |ka + kb| == |ka| + |kb|;
  }

  /** The members in ascending order: the order of the store's range commands. */
  function AscOrder(m: ZSet): (r: seq<Member>)
    ensures |r| == |m|
    ensures forall i :: 0 <= i < |r| ==> r[i] == DescOrder(m)[|m| - 1 - i]
  {
    Reversed(DescOrder(m))
  }

  function Reversed(xs: seq<Member>): (r: seq<Member>)
    ensures |r| == |xs|
    ensures forall i :: 0 <= i < |xs| ==> r[i] == xs[|xs| - 1 - i]
  {
    seq(|xs|, i requires 0 <= i < |xs| => xs[|xs| - 1 - i])
  }

  lemma ReversedConcat(xs: seq<Member>, ys: seq<Member>)
    ensures Reversed(xs + ys) == Reversed(ys) + Reversed(xs)
  {
    var l, r := Reversed(xs + ys), Reversed(ys) + Reversed(xs);
    forall k | 0 <= k < |l| ensures l[k] == r[k] {
      if k < |ys| {
        assert r[k] == Reversed(ys)[k];
      } else {
        assert r[k] == Reversed(xs)[k - |ys|];
      }
    }
  }

  /** The part of `m` whose scores lie in [min, max]. */
  function Within(m: ZSet, min: int, max: int): ZSet
  {
    map x | x in m && min <= m[x] <= max :: m[x]
  }

  /** Pairs each member with its score in `m`. */
  function WithScores(m: ZSet, xs: seq<Member>): (r: seq<Entry>)
    requires forall i :: 0 <= i < |xs| ==> xs[i] in m
    ensures |r| == |xs|
    ensures forall i :: 0 <= i < |xs| ==> r[i] == Entry(xs[i], m[xs[i]])
  {
    seq(|xs|, i requires 0 <= i < |xs| => Entry(xs[i], m[xs[i]]))
  }

  /**
   * Ranks start..end (both inclusive) of `xs`, where a negative rank counts
   * from the end: the store's range-by-rank semantics.
   */
  function RankRange<T>(xs: seq<T>, start: int, end: int): (r: seq<T>)
    ensures start >= 0 && end >= start ==>
      r == xs[if start < |xs| then start else |xs| .. if end < |xs| then end + 1 else |xs|]
    ensures forall x :: x in r ==> x in xs
  {
    var n := |xs|;
    var lo := if start < 0 then start + n else start;
    var hi := if end < 0 then end + n else end;
    var lo' := if lo < 0 then 0 else lo;
    var hi' := if hi >= n then n - 1 else hi;
    if lo' > hi' || lo' >= n then [] else xs[lo'..hi' + 1]
  }

  /**
   * The store's LIMIT clause: skip `offset` results, then keep `count` of
   * them; a negative offset yields nothing and a negative count keeps all.
   */
  function Limit<T>(xs: seq<T>, offset: int, count: int): (r: seq<T>)
    ensures offset < 0 ==> r == []
    ensures 0 <= offset <= |xs| && 0 <= count ==> r == xs[offset..if offset + count <= |xs| then offset + count else |xs|]
    ensures 0 <= offset <= |xs| && count < 0 ==> r == xs[offset..]
    ensures offset > |xs| ==> r == []
  {
    if offset < 0 || offset >= |xs| then []
    else
      var rest := xs[offset..];
      if count < 0 || count >= |rest| then rest else rest[..count]
  }

  /**
   * The score of the member at descending rank `k` (negative ranks count
   * from the end), or 0 when there is no such member: the store then returns
   * no member, and the empty member's score reads as 0.
   */
  function ScoreAtDescRank(m: ZSet, k: int): int
  {
    var j := if k < 0 then k + |m| else k;
    if 0 <= j < |m| then m[DescOrder(m)[j]] else 0
  }

  /** ScoreAtDescRank is the score of what the store's range-by-rank query from `k` to `k` returns. */
  lemma ScoreAtDescRankIsRange(m: ZSet, k: int)
    ensures ScoreAtDescRank(m, k) == var ms := RankRange(DescOrder(m), k, k); if ms == [] then 0 else m[ms[0]]
  {
  }

  /** Every member of `m` ranked at or above `k` scores at least the score at rank `k`. */
  lemma {:induction false} AtOrAboveRank(m: ZSet, k: nat, y: Member)
    requires k < |m| && y in m
    requires forall j :: k < j < |m| ==> DescOrder(m)[j] != y
    ensures m[y] >= m[DescOrder(m)[k]]
  {
    var d := DescOrder(m);
    DescOrderHas(m, y);
    var j :| 0 <= j < |d| && d[j] == y;
    if j < k {
      DescOrderRanks(m, j, k);
    }
  }

  /** The bottom member of a non-empty set scores no more than any member. */
  lemma BottomIsLowest(m: ZSet, y: Member)
    requires y in m
    ensures m[DescOrder(m)[|m| - 1]] <= m[y]
  {
    DescOrderLists(m);
    LastIsLowest(m, DescOrder(m), y);
  }

  lemma LastIsLowest(m: ZSet, xs: seq<Member>, y: Member)
    requires ListsDesc(m, xs) && y in m
    ensures xs != [] && m[xs[|xs| - 1]] <= m[y]
  {
    var j :| 0 <= j < |xs| && xs[j] == y;
    if j < |xs| - 1 {
      assert Outranks(m, xs[j], xs[|xs| - 1]);
    }
  }

  /** A set with one member lists just that member. */
  lemma DescOrderSingleton(x: Member, v: int)
    ensures DescOrder(map[x := v]) == [x]
  {
    var d := DescOrder(map[x := v]);
    assert d[0] in map[x := v];
  }

  /** Appending `xs` to `acc` with insertion-ordered set semantics: members already present are skipped. */
  function AddAll(acc: seq<Member>, xs: seq<Member>): (r: seq<Member>)
    ensures forall y :: y in r <==> y in acc || y in xs
    decreases |xs|
  {
    if xs == [] then acc
    else
      var r := AddAll(acc, xs[..|xs| - 1]);
      if xs[|xs| - 1] in r then r else r + [xs[|xs| - 1]]
  }

  /** No member occurs twice. */
  predicate NoDuplicates(xs: seq<Member>)
  {
    forall i, j :: 0 <= i < j < |xs| ==> xs[i] != xs[j]
  }

  lemma {:induction false} AddAllNoDuplicates(acc: seq<Member>, xs: seq<Member>)
    requires NoDuplicates(acc)
    ensures NoDuplicates(AddAll(acc, xs))
    decreases |xs|
  {
    if xs != [] {
      AddAllNoDuplicates(acc, xs[..|xs| - 1]);
    }
  }

  /** With no member repeated, adding with set semantics is appending. */
  lemma {:induction false} AddAllFresh(acc: seq<Member>, xs: seq<Member>)
    requires NoDuplicates(acc + xs)
    ensures AddAll(acc, xs) == acc + xs
    decreases |xs|
  {
    if xs != [] {
      var pre, last := xs[..|xs| - 1], xs[|xs| - 1];
      assert acc + xs == (acc + pre) + [last];
      var p := acc + pre;
      assert NoDuplicates(p) && last !in p by {
        forall i | 0 <= i < |p| ensures p[i] == (acc + xs)[i] { }
        assert (acc + xs)[|p|] == last;
      }
      AddAllFresh(acc, pre);
    }
  }

  /** Adding `xs` and then `ys` is adding `xs + ys`. */
  lemma {:induction false} AddAllConcat(acc: seq<Member>, xs: seq<Member>, ys: seq<Member>)
    ensures AddAll(AddAll(acc, xs), ys) == AddAll(acc, xs + ys)
    decreases |ys|
  {
    if ys == [] {
      assert xs + ys == xs;
    } else {
      assert (xs + ys)[..|xs + ys| - 1] == xs + ys[..|ys| - 1];
      AddAllConcat(acc, xs, ys[..|ys| - 1]);
    }
  }

  /** Two members with distinct keys and distinct scores. */
  ghost predicate DistinctScores(m: ZSet)
  {
    forall a, b :: a in m && b in m && a != b ==> m[a] != m[b]
  }
}
