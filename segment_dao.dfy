/**
 * The segmented sorted-set store as an object: one physical sorted set per
 * segment, held in an array that the operations update in place, and the
 * key template of each segment. Every operation walks the segments the way
 * the implementation does, and is proved to leave exactly the state (or
 * return exactly the value) of the matching function in module Segments.
 * The tenant ids select one logical set; the object models the segments of
 * one such set.
 */
module SegmentDao {
  import opened ZSets
  import opened Segments
  import opened Keys

  /** The capacity of the first segment. */
  const InitialSize := 10000

  class SegmentedZSet {
    /** The capacity of segment 0; later capacities derive from it. */
    const init: int
    /** The physical sorted set of each segment, segment 0 first. */
    const segs: array<ZSet>
    /** The key template of each segment. */
    const keys: array<string>
    const base: string
    /** The codec's conversion of a member list into the answer of a member query (`getSet`). */
    const decode: seq<Member> -> Option<seq<Member>>

    /** A new store of `segmentCount` empty segments with their key templates. */
    constructor (base: string, segmentCount: nat, decode: seq<Member> -> Option<seq<Member>>)
      ensures this.base == base && this.decode == decode && init == InitialSize
      ensures segs.Length == segmentCount && forall i :: 0 <= i < segmentCount ==> segs[i] == map[]
      ensures keys.Length == segmentCount && forall i :: 0 <= i < segmentCount ==> keys[i] == SegmentTemplate(base, i)
      ensures fresh(segs) && fresh(keys)
    {
      var ks := new string[segmentCount];
      var i := 0;
      while i < segmentCount
        invariant 0 <= i <= segmentCount
        invariant forall j :: 0 <= j < i ==> ks[j] == SegmentTemplate(base, j)
      {
        ks[i] := base + ":" + IntToString(i) + ":" + "{0}";
        i := i + 1;
      }
      this.base := base;
      this.decode := decode;
      init := InitialSize;
      segs := new ZSet[segmentCount](_ => map[]);
      keys := ks;
    }

    /** The key of segment `index` for the given ids. */
    method BuildKey(index: nat, ids: seq<int>) returns (key: string)
      requires index < keys.Length && keys[index] == SegmentTemplate(base, index)
      ensures key == SegmentKey(base, index, ids)
    {
      key := Format(keys[index], JoinIds(ids));
    }

    /** The capacity of segment `index`: 0 before the first, -1 for the last, else (1 + 1 + ... + index) * init. */
    method GetSegmentSize(index: int) returns (r: int)
      ensures r == Capacity(index, segs.Length, init)
    {
      if index < 0 {
        return 0;
      }
      if index + 1 == segs.Length {
        return -1;
      }
      var total := 1;
      var i := 1;
      while i < index + 1
        invariant 1 <= i <= index + 1
        invariant total == 1 + Tri(i - 1)
      {
        total := total + i;
        i := i + 1;
      }
      r := total * init;
    }

    /** The first segment storing `x` with a positive score, or -1. */
    method GetElementInSegment(x: Member) returns (idx: int)
      ensures idx == Locate(segs[..], x)
    {
      idx := -1;
      var i := 0;
      while i < segs.Length
        invariant 0 <= i <= segs.Length
        invariant LocateFrom(segs[..], x, i) == Locate(segs[..], x)
      {
        if Stored(segs[i], x) > 0 {
          idx := i;
          break;
        }
        i := i + 1;
      }
    }

    /**
     * Inserts (x, v): the first segment under capacity or unbounded, or full
     * with a boundary score below `v`, takes the pair; see Place for what
     * happens to a copy of `x` found in another segment.
     */
    method Add(x: Member, v: int) returns (ok: bool)
      modifies segs
      ensures ok
      ensures segs[..] == Segments.Add(old(segs[..]), x, v, init)
    {
      ghost var s := segs[..];
      var idx := GetElementInSegment(x);
      var i := 0;
      while i < segs.Length
        invariant 0 <= i <= segs.Length
        invariant segs[..] == s
        invariant AddFrom(s, x, v, idx, i, init) == AddFrom(s, x, v, idx, 0, init)
      {
        var placed := TryInsertAt(x, v, idx, i);
        if placed {
          break;
        }
        i := i + 1;
      }
      ok := true;
    }

    /**
     * One step of the insertion scan: segment `i` takes (x, v) when it is
     * under capacity or unbounded, or full with a boundary score below `v`.
     */
    method TryInsertAt(x: Member, v: int, idx: int, i: nat) returns (placed: bool)
      requires i < segs.Length && -1 <= idx < segs.Length
      modifies segs
      ensures placed ==> segs[..] == AddFrom(old(segs[..]), x, v, idx, i, init)
      ensures !placed ==> segs[..] == old(segs[..])
      ensures !placed ==> AddFrom(segs[..], x, v, idx, i, init) == AddFrom(segs[..], x, v, idx, i + 1, init)
    {
      var size := |segs[i]|;
      var max := GetSegmentSize(i);
      if size < max || max == -1 {
        Place(x, v, idx, i, max, false);
        return true;
      }
      var last := Boundary(segs[i], max);
      if last < v {
        Place(x, v, idx, i, max, true);
        return true;
      }
      return false;
    }

    /** Writes (x, v) into segment `i`, where `idx` is the segment `x` was found in (or -1). */
    method Place(x: Member, v: int, idx: int, i: nat, max: int, full: bool)
      requires i < segs.Length && -1 <= idx < segs.Length
      requires max == Capacity(i, segs.Length, init)
      modifies segs
      ensures segs[..] == Segments.Place(old(segs[..]), x, v, idx, i, init, full)
    {
      segs[i] := segs[i][x := v];
      if idx == -1 {
        if full {
          AfterMoveSegment(i, max);
        }
      } else if idx == i {
      } else if idx < i {
        var _ := Remove(x);
      } else {
        segs[idx] := segs[idx] - {x};
        AfterMoveSegment(i, max);
      }
    }

    /**
     * Moves every member of segment `index` scoring in [0, boundary - 1] to
     * segment index + 1, and continues there while that segment is over
     * capacity.
     */
    method AfterMoveSegment(index: nat, maxSize: int)
      requires index < segs.Length && maxSize == Capacity(index, segs.Length, init)
      modifies segs
      ensures segs[..] == AfterMove(old(segs[..]), index, init)
      decreases segs.Length - index
    {
      if index < segs.Length - 1 {
        ghost var s0 := segs[..];
        var surplus := FindSurplus(index, maxSize);
        MoveSurplus(index, surplus);
        ghost var s1 := segs[..];
        var nextElements := |segs[index + 1]|;
        var nextMax := GetSegmentSize(index + 1);
        AfterMoveStep(s0, index, init, surplus, s1);
        if nextMax < nextElements {
          AfterMoveSegment(index + 1, nextMax);
        }
      }
    }

    /** The members of segment `index` below its boundary score, highest first, with their scores. */
    method FindSurplus(index: nat, maxSize: int) returns (surplus: seq<Entry>)
      requires index < segs.Length
      ensures surplus == Surplus(segs[index], maxSize)
    {
      var last := Boundary(segs[index], maxSize);
      surplus := RangeWithScoresDesc(segs[index], 0, last - 1);
    }

    /** Moves each listed entry from segment `index` to segment index + 1, in list order. */
    method MoveSurplus(index: nat, surplus: seq<Entry>)
      requires index + 1 < segs.Length
      modifies segs
      ensures segs[..] == old(segs[..])[index := segs[index]][index + 1 := segs[index + 1]]
      ensures (segs[index], segs[index + 1]) == MoveDown(old(segs[index]), old(segs[index + 1]), surplus)
    {
      var k := 0;
      while k < |surplus|
        invariant 0 <= k <= |surplus|
        invariant forall j :: 0 <= j < segs.Length && j != index && j != index + 1 ==> segs[j] == old(segs[j])
        invariant MoveDown(segs[index], segs[index + 1], surplus[k..]) == MoveDown(old(segs[index]), old(segs[index + 1]), surplus)
      {
        var e := surplus[k];
        assert surplus[k..][1..] == surplus[k + 1..];
        segs[index + 1] := segs[index + 1][e.member := e.score];
        segs[index] := segs[index] - {e.member};
        k := k + 1;
      }
      assert surplus[|surplus|..] == [];
    }

    /**
     * Moves the `n` highest members of segment index + 1 up into segment
     * `index`, and continues from index + 1, until the last segment or an
     * empty next segment.
     */
    method ForwardMoveSegment(index: nat, n: int)
      requires index < segs.Length && n > 0
      modifies segs
      ensures segs[..] == ForwardMove(old(segs[..]), index, n)
      decreases segs.Length - index
    {
      if index < segs.Length - 1 {
        var nextSize := |segs[index + 1]|;
        if nextSize > 0 {
          var members := TopN(segs[index + 1], n);
          ghost var s0 := segs[..];
          var k := 0;
          while k < |members|
            invariant 0 <= k <= |members|
            invariant segs[..] == s0[index := segs[index]][index + 1 := segs[index + 1]]
            invariant PullUp(segs[index], segs[index + 1], members[k..]) == PullUp(s0[index], s0[index + 1], members)
          {
            var y := members[k];
            assert members[k..][1..] == members[k + 1..];
            var score := Stored(segs[index + 1], y);
            segs[index] := segs[index][y := score];
            segs[index + 1] := segs[index + 1] - {y};
            k := k + 1;
          }
          ForwardMoveSegment(index + 1, n);
        }
      }
    }

    /**
     * Deletes `x` from every segment storing it with a positive score, and
     * backfills each bounded segment so left below capacity by its deficit.
     */
    method Remove(x: Member) returns (ok: bool)
      modifies segs
      ensures ok
      ensures segs[..] == Segments.Remove(old(segs[..]), x, init)
    {
      var i := 0;
      while i < segs.Length
        invariant 0 <= i <= segs.Length
        invariant RemoveFrom(segs[..], x, i, init) == Segments.Remove(old(segs[..]), x, init)
      {
        RemoveAt(x, i);
        i := i + 1;
      }
      ok := true;
    }

    /** One step of the removal scan: deletes `x` from segment `i` if stored positively there, then backfills. */
    method RemoveAt(x: Member, i: nat)
      requires i < segs.Length
      modifies segs
      ensures RemoveFrom(old(segs[..]), x, i, init) == RemoveFrom(segs[..], x, i + 1, init)
    {
      var score := Stored(segs[i], x);
      if score > 0 {
        ghost var s := segs[..];
        segs[i] := segs[i] - {x};
        ghost var s1 := segs[..];
        assert s1 == s[i := s[i] - {x}];
        var current := |segs[i]|;
        var cap := GetSegmentSize(i);
        if cap - current > 0 {
          ForwardMoveSegment(i, cap - current);
        }
        RemoveFromStep(s, x, i, init, s1, cap - current, segs[..]);
      } else {
        RemoveFromSkip(segs[..], x, i, init);
      }
    }

    /** The corrected insertion: an existing copy of `x` is removed first, then (x, v) is inserted. */
    method Upsert(x: Member, v: int)
      modifies segs
      ensures segs[..] == Segments.Upsert(old(segs[..]), x, v, init)
    {
      var idx := GetElementInSegment(x);
      if idx != -1 {
        var _ := Remove(x);
      }
      var _ := Add(x, v);
    }

    /** The score of `x` in the first segment storing it positively, else the last score read. */
    method GetScore(x: Member) returns (r: int)
      ensures r == ScoreOf(segs[..], x)
    {
      r := 0;
      var i := 0;
      while i < segs.Length
        invariant 0 <= i <= segs.Length
        invariant forall j :: 0 <= j < i ==> Stored(segs[j], x) <= 0
        invariant r == (if i == 0 then 0 else Stored(segs[i - 1], x))
      {
        r := Stored(segs[i], x);
        if r > 0 {
          break;
        }
        i := i + 1;
      }
    }

    /** Adds `delta` to the score read for `x`, writes the sum back, and returns it. */
    method IncrScore(x: Member, delta: int) returns (r: int)
      modifies segs
      ensures r == ScoreOf(old(segs[..]), x) + delta
      ensures segs[..] == Segments.Add(old(segs[..]), x, r, init)
    {
      var score := GetScore(x);
      r := score + delta;
      var _ := Add(x, r);
    }

    /** Whether some segment stores `x` with a positive score. */
    method ExistMember(x: Member) returns (b: bool)
      ensures b <==> Locate(segs[..], x) != -1
    {
      b := false;
      var i := 0;
      while i < segs.Length
        invariant 0 <= i <= segs.Length
        invariant !b && LocateFrom(segs[..], x, i) == Locate(segs[..], x)
      {
        if Stored(segs[i], x) > 0 {
          b := true;
          break;
        }
        i := i + 1;
      }
    }

    /** The sum of the segment sizes. */
    method Size() returns (n: int)
      ensures n == TotalSize(segs[..])
    {
      n := 0;
      var i := 0;
      while i < segs.Length
        invariant 0 <= i <= segs.Length
        invariant n == TotalSize(segs[..i])
      {
        assert segs[..i + 1][..i] == segs[..i];
        n := n + |segs[i]|;
        i := i + 1;
      }
      assert segs[..segs.Length] == segs[..];
    }

    /** The number of members scoring in [min, max], walking the segments as RangeSizeFrom does. */
    method RangeSize(min: int, max: int) returns (total: int)
      ensures total == RangeSizeFrom(segs[..], min, max, 0)
    {
      total := 0;
      var i := 0;
      while i < segs.Length
        invariant 0 <= i <= segs.Length
        invariant total + RangeSizeFrom(segs[..], min, max, i) == RangeSizeFrom(segs[..], min, max, 0)
      {
        var size := |segs[i]|;
        if size == 0 {
          break;
        }
        var last := ScoreAtDescRank(segs[i], size - 1);
        if last <= 0 {
          break;
        }
        total := total + |Within(segs[i], min, max)|;
        if min > last {
          break;
        }
        i := i + 1;
      }
    }

    /** The members scoring in [min, max], highest first, collected as DescWalk does, then decoded. */
    method FindByScoreDesc(min: int, max: int) returns (r: Option<seq<Member>>)
      ensures r == decode(DescWalk(segs[..], min, max, None, 0, []))
    {
      var walked := WalkDesc(min, max, None);
      r := decode(walked);
    }

    /** As FindByScoreDesc, with the offset and count applied to each segment's query. */
    method FindByScoreDescLimit(min: int, max: int, offset: int, count: int) returns (r: Option<seq<Member>>)
      ensures r == decode(DescWalk(segs[..], min, max, Some(Window(offset, count)), 0, []))
    {
      var walked := WalkDesc(min, max, Some(Window(offset, count)));
      r := decode(walked);
    }

    /** The corrected paged query: the unpaged walk, then one offset and count over the whole result, decoded. */
    method FindByScoreDescPage(min: int, max: int, offset: int, count: int) returns (r: Option<seq<Member>>)
      ensures r == decode(DescPage(segs[..], min, max, offset, count))
    {
      var all := WalkDesc(min, max, None);
      r := decode(Limit(all, offset, count));
    }

    method WalkDesc(min: int, max: int, w: Option<Window>) returns (r: seq<Member>)
      ensures r == DescWalk(segs[..], min, max, w, 0, [])
    {
      r := [];
      var i := 0;
      while i < segs.Length
        invariant 0 <= i <= segs.Length
        invariant DescWalk(segs[..], min, max, w, i, r) == DescWalk(segs[..], min, max, w, 0, [])
      {
        var size := |segs[i]|;
        var last := ScoreAtDescRank(segs[i], size - 1);
        if last == 0 {
          break;
        }
        r := AddAll(r, SegmentDesc(segs[i], min, max, w));
        if min >= last {
          break;
        }
        i := i + 1;
      }
    }

    /** The entries scoring in [min, max], segments from the last to the first, each lowest first. */
    method FindByScoreWithScoresAsc(min: int, max: int) returns (r: seq<Entry>)
      ensures r == AscFrom(segs[..], min, max, 0)
    {
      r := [];
      var i := segs.Length - 1;
      while i >= 0
        invariant -1 <= i < segs.Length
        invariant r == AscFrom(segs[..], min, max, i + 1)
      {
        var results := SegmentAsc(segs[i], min, max);
        var n;
        r, n := AppendWhileAtMost(r, results, max);
        assert n == |results|;
        assert results[..n] == results;
        i := i - 1;
      }
    }

    /** Appends the entries of `results` in order, stopping at the first scoring above `max`. */
    static method AppendWhileAtMost(acc: seq<Entry>, results: seq<Entry>, max: int) returns (r: seq<Entry>, n: nat)
      ensures n <= |results| && r == acc + results[..n]
      ensures forall k :: 0 <= k < n ==> results[k].score <= max
      ensures n < |results| ==> results[n].score > max
    {
      r, n := acc, 0;
      while n < |results| && results[n].score <= max
        invariant n <= |results| && r == acc + results[..n]
        invariant forall k :: 0 <= k < n ==> results[k].score <= max
      {
        r := r + [results[n]];
        n := n + 1;
      }
    }

    /** Empties every segment. */
    method DeleteById() returns (ok: bool)
      modifies segs
      ensures ok
      ensures forall i :: 0 <= i < segs.Length ==> segs[i] == map[]
    {
      var i := 0;
      while i < segs.Length
        invariant 0 <= i <= segs.Length
        invariant forall j :: 0 <= j < i ==> segs[j] == map[]
      {
        segs[i] := map[];
        i := i + 1;
      }
      ok := true;
    }
  }
}
