/**
 * The segmented sorted set as a value: one logical set spread over K
 * physical sets, segment 0 first. Each function below follows one routine of
 * the segmented implementation step by step, so that the class in
 * segment_dao.dfy can be proved to compute exactly these values. Segment 0
 * is meant to hold the highest scores; every segment but the last has a
 * capacity, the last is unbounded (capacity -1).
 */
module Segments {
  import opened ZSets

  type Segs = seq<ZSet>

  /** 0 + 1 + ... + i. */
  function Tri(i: nat): nat
  {
    if i == 0 then 0 else Tri(i - 1) + i
  }

  /**
   * The capacity of segment `i` of `k` segments whose first holds `init`:
   * 0 before the first, -1 (unbounded) for the last, and otherwise
   * (1 + 1 + 2 + ... + i) * init.
   */
  function Capacity(i: int, k: int, init: int): int
  {
    if i < 0 then 0 else if i + 1 == k then -1 else (1 + Tri(i)) * init
  }

  /**
   * The first segment, from `i` on, whose stored score for `x` is positive,
   * or -1 when there is none.
   */
  function LocateFrom(s: Segs, x: Member, i: nat): (r: int)
    requires i <= |s|
    ensures r == -1 || i <= r < |s|
    ensures r == -1 <==> forall j :: i <= j < |s| ==> Stored(s[j], x) <= 0
    ensures r != -1 ==> Stored(s[r], x) > 0 && forall j :: i <= j < r ==> Stored(s[j], x) <= 0
    decreases |s| - i
  {
    if i == |s| then -1
    else if Stored(s[i], x) > 0 then i
    else LocateFrom(s, x, i + 1)
  }

  function Locate(s: Segs, x: Member): int
  {
    LocateFrom(s, x, 0)
  }

  /** The score of the member at descending rank cap - 1 of a segment. */
  function Boundary(m: ZSet, cap: int): int
  {
    ScoreAtDescRank(m, cap - 1)
  }

  /** The members of `m` scoring in [min, max], highest first, with their scores. */
  function RangeWithScoresDesc(m: ZSet, min: int, max: int): (r: seq<Entry>)
    ensures forall e :: e in r ==> e.member in m && e.score == m[e.member] && min <= e.score <= max
  {
    var w := Within(m, min, max);
    WithScores(w, DescOrder(w))
  }

  /** The members of a segment scoring in [0, boundary - 1], highest first, with their scores. */
  function Surplus(m: ZSet, cap: int): seq<Entry>
  {
    RangeWithScoresDesc(m, 0, Boundary(m, cap) - 1)
  }

  /** Moves each listed entry from `cur` into `next`, in list order. */
  function MoveDown(cur: ZSet, next: ZSet, es: seq<Entry>): (ZSet, ZSet)
    decreases |es|
  {
    if es == [] then (cur, next)
    else MoveDown(cur - {es[0].member}, next[es[0].member := es[0].score], es[1..])
  }

  /**
   * Overflow propagation from segment `i`: every member scoring in
   * [0, boundary - 1] moves to segment i + 1, and the propagation continues
   * there while that segment exceeds its capacity. The last segment is
   * never touched.
   */
  function AfterMove(s: Segs, i: nat, init: int): (r: Segs)
    ensures |r| == |s|
    decreases |s| - i
  {
    if i < |s| - 1 then
      var moved := MoveDown(s[i], s[i + 1], Surplus(s[i], Capacity(i, |s|, init)));
      var s' := s[i := moved.0][i + 1 := moved.1];
      if Capacity(i + 1, |s|, init) < |s'[i + 1]| then AfterMove(s', i + 1, init) else s'
    else s
  }

  /** One step of AfterMove, with the moved pair and the new state named. */
  lemma AfterMoveStep(s: Segs, i: nat, init: int, es: seq<Entry>, s1: Segs)
    requires i < |s| - 1 && |s1| == |s|
    requires es == Surplus(s[i], Capacity(i, |s|, init))
    requires (s1[i], s1[i + 1]) == MoveDown(s[i], s[i + 1], es)
    requires s1 == s[i := s1[i]][i + 1 := s1[i + 1]]
    ensures AfterMove(s, i, init) == if Capacity(i + 1, |s|, init) < |s1[i + 1]| then AfterMove(s1, i + 1, init) else s1
  {
  }

  /** Moves each listed member, with its score in `next`, from `next` into `cur`, in list order. */
  function PullUp(cur: ZSet, next: ZSet, ms: seq<Member>): (ZSet, ZSet)
    decreases |ms|
  {
    if ms == [] then (cur, next)
    else PullUp(cur[ms[0] := Stored(next, ms[0])], next - {ms[0]}, ms[1..])
  }

  /** The `n` highest members of `m`. */
  function TopN(m: ZSet, n: int): seq<Member>
  {
    RankRange(DescOrder(m), 0, n - 1)
  }

  /**
   * Backfill from segment `i`: the `n` highest members of segment i + 1 move
   * up into segment i, and the backfill continues from i + 1 with the same
   * `n`, until the last segment or an empty next segment.
   */
  function ForwardMove(s: Segs, i: nat, n: int): (r: Segs)
    requires n > 0
    ensures |r| == |s|
    decreases |s| - i
  {
    if i < |s| - 1 && |s[i + 1]| > 0 then
      var moved := PullUp(s[i], s[i + 1], TopN(s[i + 1], n));
      ForwardMove(s[i := moved.0][i + 1 := moved.1], i + 1, n)
    else s
  }

  /**
   * Removal scanning segments from `i` on: wherever `x` is stored with a
   * positive score it is deleted, and a bounded segment left below capacity
   * is backfilled by its deficit.
   */
  function RemoveFrom(s: Segs, x: Member, i: nat, init: int): (r: Segs)
    ensures |r| == |s|
    decreases |s| - i
  {
    if i >= |s| then s
    else if Stored(s[i], x) > 0 then
      var s1 := s[i := s[i] - {x}];
      var deficit := Capacity(i, |s|, init) - |s1[i]|;
      RemoveFrom(if deficit > 0 then ForwardMove(s1, i, deficit) else s1, x, i + 1, init)
    else RemoveFrom(s, x, i + 1, init)
  }

  /** The removal scan passes over a segment where `x` is not stored positively. */
  lemma RemoveFromSkip(s: Segs, x: Member, i: nat, init: int)
    requires i < |s| && Stored(s[i], x) <= 0
    ensures RemoveFrom(s, x, i, init) == RemoveFrom(s, x, i + 1, init)
  {
  }

  /** One step of RemoveFrom at a segment holding `x`, with the state after the delete and backfill named. */
  lemma RemoveFromStep(s: Segs, x: Member, i: nat, init: int, s1: Segs, d: int, s2: Segs)
    requires i < |s| && Stored(s[i], x) > 0
    requires s1 == s[i := s[i] - {x}]
    requires d == Capacity(i, |s|, init) - |s1[i]|
    requires s2 == if d > 0 then ForwardMove(s1, i, d) else s1
    ensures RemoveFrom(s, x, i, init) == RemoveFrom(s2, x, i + 1, init)
  {
  }

  function Remove(s: Segs, x: Member, init: int): (r: Segs)
    ensures |r| == |s|
  {
    RemoveFrom(s, x, 0, init)
  }

  /**
   * Writing (x, v) into segment `i`, where `idx` is the segment `x` was found
   * in (or -1) and `full` tells whether segment `i` was at capacity.
   */
  function Place(s: Segs, x: Member, v: int, idx: int, i: nat, init: int, full: bool): (r: Segs)
    requires i < |s| && -1 <= idx < |s|
    ensures |r| == |s|
  {
    var s1 := s[i := s[i][x := v]];
    if idx == i then s1
    else if idx == -1 then (if full then AfterMove(s1, i, init) else s1)
    else if idx < i then Remove(s1, x, init)
    else AfterMove(s1[idx := s[idx] - {x}], i, init)
  }

  /**
   * The insertion scan from segment `i`: the first segment that is under
   * capacity or unbounded takes the member; a full segment takes it when
   * its boundary score is below `v`; otherwise the scan moves on.
   */
  function AddFrom(s: Segs, x: Member, v: int, idx: int, i: nat, init: int): (r: Segs)
    requires i <= |s| && -1 <= idx < |s|
    ensures |r| == |s|
    decreases |s| - i
  {
    if i == |s| then s
    else
      var c := Capacity(i, |s|, init);
      if |s[i]| < c || c == -1 then Place(s, x, v, idx, i, init, false)
      else if Boundary(s[i], c) < v then Place(s, x, v, idx, i, init, true)
      else AddFrom(s, x, v, idx, i + 1, init)
  }

  function Add(s: Segs, x: Member, v: int, init: int): (r: Segs)
    ensures |r| == |s|
  {
    AddFrom(s, x, v, Locate(s, x), 0, init)
  }

  /**
   * Writing (x, v) when `x` may already be present, as the insertion is
   * evidently meant to behave: an existing copy is removed first (with its
   * backfill), and the member is then inserted as a new one.
   */
  function Upsert(s: Segs, x: Member, v: int, init: int): (r: Segs)
    ensures |r| == |s|
  {
    if Locate(s, x) == -1 then Add(s, x, v, init) else Add(Remove(s, x, init), x, v, init)
  }

  /** The score read for `x`: from the first segment holding it positively, else from the last segment scanned. */
  function ScoreOf(s: Segs, x: Member): int
  {
    var idx := Locate(s, x);
    if idx != -1 then Stored(s[idx], x)
    else if |s| == 0 then 0
    else Stored(s[|s| - 1], x)
  }

  /** The score of the lowest member of a segment, or 0 for an empty one. */
  function Lowest(m: ZSet): int
  {
    ScoreAtDescRank(m, |m| - 1)
  }

  /**
   * The range count from segment `i` on: an empty segment, or one whose
   * lowest score is not positive, ends the walk; each other segment adds
   * its count in [min, max], and the walk ends after the first segment
   * whose lowest score is below `min`.
   */
  function RangeSizeFrom(s: Segs, min: int, max: int, i: nat): nat
    decreases |s| - i
  {
    if i >= |s| || |s[i]| == 0 || Lowest(s[i]) <= 0 then 0
    else |Within(s[i], min, max)| + (if min > Lowest(s[i]) then 0 else RangeSizeFrom(s, min, max, i + 1))
  }

  /** An offset and a count applied to a range query, as the store's LIMIT does. */
  datatype Window = Window(offset: int, count: int)

  /** The members of one segment in [min, max], highest first, limited by the window if there is one. */
  function SegmentDesc(m: ZSet, min: int, max: int, w: Option<Window>): seq<Member>
  {
    var d := DescOrder(Within(m, min, max));
    if w.Some? then Limit(d, w.value.offset, w.value.count) else d
  }

  /**
   * The descending walk from segment `i` on, collecting into `acc` with
   * insertion-ordered set semantics: a segment whose lowest score is 0 ends
   * the walk; each other segment contributes its members in [min, max], and
   * the walk ends after the first segment whose lowest score is at most `min`.
   */
  function DescWalk(s: Segs, min: int, max: int, w: Option<Window>, i: nat, acc: seq<Member>): seq<Member>
    decreases |s| - i
  {
    if i >= |s| || Lowest(s[i]) == 0 then acc
    else
      var acc' := AddAll(acc, SegmentDesc(s[i], min, max, w));
      if min >= Lowest(s[i]) then acc' else DescWalk(s, min, max, w, i + 1, acc')
  }

  /** One step of DescWalk at a segment whose lowest score is positive and above `min`: the walk goes on. */
  lemma DescWalkOn(s: Segs, min: int, max: int, w: Option<Window>, i: nat, acc: seq<Member>, page: seq<Member>)
    requires i < |s| && Lowest(s[i]) != 0 && min < Lowest(s[i])
    requires page == SegmentDesc(s[i], min, max, w)
    ensures DescWalk(s, min, max, w, i, acc) == DescWalk(s, min, max, w, i + 1, AddAll(acc, page))
  {
  }

  /** The last step of DescWalk, at a segment whose lowest score is non-zero and at most `min`. */
  lemma DescWalkStop(s: Segs, min: int, max: int, w: Option<Window>, i: nat, acc: seq<Member>, page: seq<Member>)
    requires i < |s| && Lowest(s[i]) != 0 && min >= Lowest(s[i])
    requires page == SegmentDesc(s[i], min, max, w)
    ensures DescWalk(s, min, max, w, i, acc) == AddAll(acc, page)
  {
  }

  /**
   * The paged descending query as it is evidently meant to behave: the offset
   * and count apply to the whole descending listing, not to each segment.
   */
  function DescPage(s: Segs, min: int, max: int, offset: int, count: int): seq<Member>
  {
    Limit(DescWalk(s, min, max, None, 0, []), offset, count)
  }

  /** The entries of one segment in [min, max], lowest first. */
  function SegmentAsc(m: ZSet, min: int, max: int): (r: seq<Entry>)
    ensures forall k :: 0 <= k < |r| ==> r[k].member in m && r[k].score == m[r[k].member] && min <= r[k].score <= max
  {
    var r := Within(m, min, max);
    WithScores(r, AscOrder(r))
  }

  /** The ascending walk: segments |s| - 1 down to `i`, each contributing its entries in [min, max]. */
  function AscFrom(s: Segs, min: int, max: int, i: nat): seq<Entry>
    decreases |s| - i
  {
    if i >= |s| then [] else AscFrom(s, min, max, i + 1) + SegmentAsc(s[i], min, max)
  }

  /** The number of members over all segments. */
  function TotalSize(s: Segs): nat
  {
    if s == [] then 0 else TotalSize(s[..|s| - 1]) + |s[|s| - 1]|
  }
}
