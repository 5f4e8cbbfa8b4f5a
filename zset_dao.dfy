/**
 * A sorted set under one key of the remote store, read cache-aside: every
 * loader-backed query asks the store, asks again on a miss, and only then
 * calls the loader, whose result it may write back into the key. The store
 * is a map from key to sorted set; a key whose set becomes empty disappears,
 * as in the store itself. The loader is an input value (what its one call
 * returns), and `loaderCalls` counts how often it was consulted. The member
 * codec that turns a store reply into a set of objects is the opaque
 * function `decode`; whether it answers "no result" is all the cache logic
 * looks at.
 */
module ZSetDao {
  import opened ZSets
  import opened Keys

  /** The score reply that stands for "no such member". */
  const NoMember := -999999

  /** What one call of a loader returns: the value, and whether it may be written back. */
  datatype LoaderResult = LoaderResult(v: Option<seq<Entry>>, cache: bool)

  /** The set under `key`; a missing key reads as the empty set. */
  function Get(store: map<string, ZSet>, key: string): ZSet
  {
    if key in store then store[key] else map[]
  }

  /** The store with `m` under `key`; an empty set removes the key. */
  function Put(store: map<string, ZSet>, key: string, m: ZSet): (r: map<string, ZSet>)
    ensures Get(r, key) == m
    ensures forall k :: k != key ==> (k in r <==> k in store) && (k in r ==> r[k] == store[k])
    ensures key in r <==> m != map[]
  {
    if m == map[] then store - {key} else store[key := m]
  }

  /** The members of the entries, in order. */
  function MembersOf(es: seq<Entry>): (r: seq<Member>)
    ensures |r| == |es| && forall i :: 0 <= i < |es| ==> r[i] == es[i].member
  {
    seq(|es|, i requires 0 <= i < |es| => es[i].member)
  }

  /** No member occurs in two entries. */
  predicate DistinctMembers(es: seq<Entry>)
  {
    forall i, j :: 0 <= i < j < |es| ==> es[i].member != es[j].member
  }

  /** `m` after writing the entries in order; a later entry for the same member wins. */
  function WithEntries(m: ZSet, es: seq<Entry>): (r: ZSet)
    ensures forall y :: y in r <==> y in m || exists j :: 0 <= j < |es| && es[j].member == y
    decreases |es|
  {
    if es == [] then m
    else
      var e := es[|es| - 1];
      WithEntries(m, es[..|es| - 1])[e.member := e.score]
  }

  /**
   * Writing one more entry: the set grows by that entry, and some written
   * member was new exactly when one was before or this one is new to what
   * was written so far.
   */
  lemma WrittenStep(m0: ZSet, es: seq<Entry>, i: nat)
    requires i < |es|
    ensures WithEntries(m0, es[..i + 1]) == WithEntries(m0, es[..i])[es[i].member := es[i].score]
    ensures (exists j :: 0 <= j < i + 1 && es[j].member !in m0) <==>
      (exists j :: 0 <= j < i && es[j].member !in m0) || es[i].member !in WithEntries(m0, es[..i])
  {
    var pre := es[..i];
    assert es[..i + 1][..i] == pre;
    var x := es[i].member;
    if x in WithEntries(m0, pre) && x !in m0 {
      var j :| 0 <= j < |pre| && pre[j].member == x;
      assert es[j].member !in m0;
    }
  }

  /** The entries of `m`, highest first: the reply of the store's reverse with-scores queries. */
  function DescEntries(m: ZSet): (r: seq<Entry>)
    ensures |r| == |m|
    ensures forall k :: 0 <= k < |r| ==> r[k].member in m && r[k].score == m[r[k].member]
  {
    WithScores(m, DescOrder(m))
  }

  /** A with-scores reply as the DAO hands it on: an empty reply is "no result". */
  function Resolved(es: seq<Entry>): Option<seq<Entry>>
  {
    if |es| == 0 then None else Some(es)
  }

  /** The store after a loader call: the value is written back only when present, non-empty and cacheable. */
  function WriteBack(store: map<string, ZSet>, key: string, loaded: LoaderResult): map<string, ZSet>
  {
    if loaded.v.Some? && loaded.v.value != [] && loaded.cache then Put(store, key, WithEntries(Get(store, key), loaded.v.value))
    else store
  }

  /** The members a loader value yields: none for a missing or empty value, else each member once, in first-seen order. */
  function Reloaded(v: Option<seq<Entry>>): Option<seq<Member>>
  {
    if v.None? || |v.value| == 0 then None else Some(AddAll([], MembersOf(v.value)))
  }

  /**
   * Writing distinct entries stores each with its score and leaves every
   * other member as it was.
   */
  lemma {:induction false} WithEntriesHolds(m: ZSet, es: seq<Entry>)
    requires DistinctMembers(es)
    ensures forall i :: 0 <= i < |es| ==> es[i].member in WithEntries(m, es) && WithEntries(m, es)[es[i].member] == es[i].score
    ensures forall y :: y in m && y !in MembersOf(es) ==> WithEntries(m, es)[y] == m[y]
    decreases |es|
  {
    if es != [] {
      var pre, e := es[..|es| - 1], es[|es| - 1];
      WithEntriesHolds(m, pre);
      forall i | 0 <= i < |pre| ensures es[i].member != e.member && pre[i] == es[i] { }
    }
  }

  /**
   * The members a loader value yields: nothing exactly for a missing or
   * empty value, else each of the value's members once and nothing else.
   */
  lemma ReloadedMembers(v: Option<seq<Entry>>)
    ensures Reloaded(v).None? <==> v.None? || |v.value| == 0
    ensures Reloaded(v).Some? ==> NoDuplicates(Reloaded(v).value)
    ensures Reloaded(v).Some? ==> forall y :: y in Reloaded(v).value <==> y in MembersOf(v.value)
  {
    if v.Some? && |v.value| > 0 {
      AddAllNoDuplicates([], MembersOf(v.value));
    }
  }

  /** When the loader value names each member once, its members come back in the value's order. */
  lemma ReloadedInOrder(v: Option<seq<Entry>>)
    requires v.Some? && |v.value| > 0 && DistinctMembers(v.value)
    ensures Reloaded(v) == Some(MembersOf(v.value))
  {
    var xs := MembersOf(v.value);
    assert [] + xs == xs;
    AddAllFresh([], xs);
  }

  /**
   * After a cacheable loader value naming each member once, with some entry
   * scoring in [min, max], the key holds that entry, so the next reverse
   * with-scores query over [min, max] is a hit.
   */
  lemma RefillServesNext(store: map<string, ZSet>, key: string, loaded: LoaderResult, min: int, max: int, i: nat)
    requires loaded.v.Some? && loaded.cache && DistinctMembers(loaded.v.value)
    requires i < |loaded.v.value| && min <= loaded.v.value[i].score <= max
    ensures Resolved(DescEntries(Within(Get(WriteBack(store, key, loaded), key), min, max))).Some?
  {
    var es := loaded.v.value;
    var m := WithEntries(Get(store, key), es);
    WithEntriesHolds(Get(store, key), es);
    var x := es[i].member;
    assert x in Within(m, min, max);
    assert |Within(m, min, max)| > 0;
  }

  /**
   * For the set {7: 3} and the range [0, 5] the ascending with-scores reply is
   * present, so a loader-backed query over it is a hit that should answer
   * that entry.
   */
  lemma OneMemberHit()
    ensures Resolved(AscEntries(Within(map[7 := 3], 0, 5))) == Some([Entry(7, 3)])
  {
    var w := Within(map[7 := 3], 0, 5);
    assert w == map[7 := 3];
    DescOrderSingleton(7, 3);
    assert AscOrder(w) == [7];
    var es := AscEntries(w);
    assert |es| == 1 && es[0] == Entry(7, 3);
    assert es == [Entry(7, 3)];
  }

  /** Writing a member that was absent and then removing it gives back the set. */
  lemma AddRemoveRoundTrip(m: ZSet, x: Member, v: int)
    requires x !in m
    ensures m[x := v] - {x} == m
  {
    assert (m[x := v] - {x}).Keys == m.Keys;
  }

  class SingleKeyZSet {
    /** The base key. */
    const base: string
    /** The key template: the base key followed by ":{0}". */
    const template: string
    /** The member codec's conversion of a store reply, which may answer "no result". */
    const decode: seq<Member> -> Option<seq<Member>>
    /** The remote store: the sorted set under each key. */
    var store: map<string, ZSet>
    /** How many times a loader was called. */
    var loaderCalls: nat

    predicate Valid()
    {
      template == SingleTemplate(base)
    }

    /** A DAO for `base` over a store holding `initial`. */
    constructor (base: string, decode: seq<Member> -> Option<seq<Member>>, initial: map<string, ZSet>)
      ensures Valid() && this.base == base && this.decode == decode
      ensures store == initial && loaderCalls == 0
    {
      this.base := base;
      template := base + ":{0}";
      this.decode := decode;
      store := initial;
      loaderCalls := 0;
    }

    /** The key for the given ids. */
    function KeyOf(ids: seq<int>): string
    {
      SingleKey(base, ids)
    }

    /** The set the given ids select. */
    function SetOf(ids: seq<int>): ZSet
      reads this
    {
      Get(store, KeyOf(ids))
    }

    /** The key for the given ids: the template without its placeholder, or with the joined ids in it. */
    method BuildKey(ids: seq<int>) returns (key: string)
      requires Valid()
      ensures key == KeyOf(ids)
      ensures '{' !in base && |ids| == 0 ==> key == base
      ensures '{' !in base && |ids| > 0 ==> key == base + ":" + JoinIds(ids)
    {
      if |ids| == 0 {
        key := ReplaceAll(template, ":{0}", "");
      } else {
        var joined := JoinIds(ids);
        key := Format(template, joined);
      }
      if '{' !in base {
        if |ids| == 0 {
          SingleKeyWithoutIds(base);
        } else {
          SingleKeyWithIds(base, ids);
        }
      }
    }

    /** Writes (x, v); the answer says whether `x` is new to the set. */
    method Add(x: Member, v: int, ids: seq<int>) returns (added: bool)
      requires Valid()
      modifies this
      ensures added <==> x !in old(SetOf(ids))
      ensures store == Put(old(store), KeyOf(ids), old(SetOf(ids))[x := v])
      ensures loaderCalls == old(loaderCalls)
    {
      var key := BuildKey(ids);
      var m := Get(store, key);
      added := x !in m;
      store := Put(store, key, m[x := v]);
    }

    /**
     * Writes the entries in order; the answer says whether some member was
     * new. An empty batch writes nothing.
     */
    method AddEntries(es: seq<Entry>, ids: seq<int>) returns (added: bool)
      requires Valid()
      modifies this
      ensures added <==> exists j :: 0 <= j < |es| && es[j].member !in old(SetOf(ids))
      ensures store == (if es == [] then old(store) else Put(old(store), KeyOf(ids), WithEntries(old(SetOf(ids)), es)))
      ensures loaderCalls == old(loaderCalls)
    {
      var key := BuildKey(ids);
      var m;
      m, added := StoreAdd(Get(store, key), es);
      if es != [] {
        store := Put(store, key, m);
      }
    }

    /** Adds `delta` to the score of `x` (an absent member counts as 0) and answers the new score. */
    method IncrScore(x: Member, delta: int, ids: seq<int>) returns (r: int)
      requires Valid()
      modifies this
      ensures r == Stored(old(SetOf(ids)), x) + delta
      ensures store == Put(old(store), KeyOf(ids), old(SetOf(ids))[x := r])
      ensures loaderCalls == old(loaderCalls)
    {
      var key := BuildKey(ids);
      var m := Get(store, key);
      r := Stored(m, x) + delta;
      store := Put(store, key, m[x := r]);
    }

    /** Removes `x`; the answer says whether it was there. */
    method Remove(x: Member, ids: seq<int>) returns (removed: bool)
      requires Valid()
      modifies this
      ensures removed <==> x in old(SetOf(ids))
      ensures SetOf(ids) == old(SetOf(ids)) - {x}
      ensures forall k :: k != KeyOf(ids) ==> (k in store <==> k in old(store)) && (k in store ==> store[k] == old(store)[k])
      ensures loaderCalls == old(loaderCalls)
    {
      var key := BuildKey(ids);
      var m := Get(store, key);
      removed := x in m;
      if key in store {
        store := Put(store, key, m - {x});
      } else {
        assert m - {x} == map[];
      }
    }

    /** Deletes the key. */
    method DeleteById(ids: seq<int>) returns (ok: bool)
      requires Valid()
      modifies this
      ensures ok && store == old(store) - {KeyOf(ids)}
      ensures loaderCalls == old(loaderCalls)
    {
      var key := BuildKey(ids);
      store := store - {key};
      ok := true;
    }

    /** The score of `x`, or NoMember when it is absent. */
    function Score(x: Member, ids: seq<int>): int
      reads this
    {
      var m := SetOf(ids);
      if x in m then m[x] else NoMember
    }

    /** Whether `x` is present, read off Score. */
    predicate ExistMember(x: Member, ids: seq<int>)
      reads this
    {
      Score(x, ids) != NoMember
    }

    /** The score of `x`, or 0 when it is absent. */
    function GetScore(x: Member, ids: seq<int>): int
      reads this
    {
      var m := SetOf(ids);
      if x in m then m[x] else 0
    }

    /**
     * What the three score reads answer: an absent member reads as NoMember
     * and as 0, and exists exactly when it is present with a score other
     * than NoMember; a member stored with that very score reads as absent.
     */
    lemma ScoreReadings(x: Member, ids: seq<int>)
      ensures x !in SetOf(ids) ==> Score(x, ids) == NoMember && GetScore(x, ids) == 0 && !ExistMember(x, ids)
      ensures x in SetOf(ids) ==> Score(x, ids) == GetScore(x, ids) == SetOf(ids)[x]
      ensures ExistMember(x, ids) <==> x in SetOf(ids) && SetOf(ids)[x] != NoMember
    {
    }

    /** The members scoring in [min, max], lowest first, decoded. */
    method FindByScoreAsc(min: int, max: int, ids: seq<int>) returns (r: Option<seq<Member>>)
      requires Valid()
      ensures r == decode(AscOrder(Within(SetOf(ids), min, max)))
    {
      var key := BuildKey(ids);
      r := decode(AscOrder(Within(Get(store, key), min, max)));
    }

    /** The members scoring in [min, max], highest first, decoded. */
    method FindByScoreDesc(min: int, max: int, ids: seq<int>) returns (r: Option<seq<Member>>)
      requires Valid()
      ensures r == decode(DescOrder(Within(SetOf(ids), min, max)))
    {
      var key := BuildKey(ids);
      r := decode(DescOrder(Within(Get(store, key), min, max)));
    }

    /** One page of the members scoring in [min, max], lowest first, decoded. */
    method FindByScoreAscPage(min: int, max: int, offset: int, count: int, ids: seq<int>) returns (r: Option<seq<Member>>)
      requires Valid()
      ensures r == decode(Limit(AscOrder(Within(SetOf(ids), min, max)), offset, count))
    {
      var key := BuildKey(ids);
      r := decode(Limit(AscOrder(Within(Get(store, key), min, max)), offset, count));
    }

    /** One page of the members scoring in [min, max], highest first, decoded. */
    method FindByScoreDescPage(min: int, max: int, offset: int, count: int, ids: seq<int>) returns (r: Option<seq<Member>>)
      requires Valid()
      ensures r == decode(Limit(DescOrder(Within(SetOf(ids), min, max)), offset, count))
    {
      var key := BuildKey(ids);
      r := decode(Limit(DescOrder(Within(Get(store, key), min, max)), offset, count));
    }

    /** The members at ascending ranks start..end, decoded. */
    method FindByIdAsc(start: int, end: int, ids: seq<int>) returns (r: Option<seq<Member>>)
      requires Valid()
      ensures r == decode(RankRange(AscOrder(SetOf(ids)), start, end))
    {
      var key := BuildKey(ids);
      r := decode(RankRange(AscOrder(Get(store, key)), start, end));
    }

    /** The members at descending ranks start..end, decoded. */
    method FindByIdDesc(start: int, end: int, ids: seq<int>) returns (r: Option<seq<Member>>)
      requires Valid()
      ensures r == decode(RankRange(DescOrder(SetOf(ids)), start, end))
    {
      var key := BuildKey(ids);
      r := decode(RankRange(DescOrder(Get(store, key)), start, end));
    }

    /**
     * Turns a with-scores reply into the DAO's answer: nothing for an empty
     * reply, else the entries in reply order.
     */
    method ResolveSelectResult(results: seq<Entry>) returns (r: Option<seq<Entry>>)
      ensures r.None? <==> |results| == 0
      ensures r.Some? ==> r.value == results
    {
      if |results| == 0 {
        return None;
      }
      var list: seq<Entry> := [];
      var i := 0;
      while i < |results|
        invariant 0 <= i <= |results|
        invariant list == results[..i]
      {
        list := list + [results[i]];
        i := i + 1;
      }
      r := Some(list);
    }

    /** The entries at ascending ranks start..end; an empty range is "no result". */
    method FindByIdWithScoresAsc(start: int, end: int, ids: seq<int>) returns (r: Option<seq<Entry>>)
      requires Valid()
      ensures r == Resolved(RankedEntries(SetOf(ids), start, end))
    {
      var key := BuildKey(ids);
      r := ResolveSelectResult(RankedEntries(Get(store, key), start, end));
    }

    /** The entries scoring in [min, max], lowest first; an empty range is "no result". */
    method FindByScoreWithScoresAsc(min: int, max: int, ids: seq<int>) returns (r: Option<seq<Entry>>)
      requires Valid()
      ensures r.None? <==> |Within(SetOf(ids), min, max)| == 0
      ensures r.Some? ==> r.value == AscEntries(Within(SetOf(ids), min, max))
    {
      var key := BuildKey(ids);
      r := ResolveSelectResult(AscEntries(Within(Get(store, key), min, max)));
    }

    /** The entries scoring in [min, max], highest first; an empty range is "no result". */
    method FindByScoreWithScoresDesc(min: int, max: int, ids: seq<int>) returns (r: Option<seq<Entry>>)
      requires Valid()
      ensures r.None? <==> |Within(SetOf(ids), min, max)| == 0
      ensures r.Some? ==> r.value == DescEntries(Within(SetOf(ids), min, max))
    {
      var key := BuildKey(ids);
      r := ResolveSelectResult(DescEntries(Within(Get(store, key), min, max)));
    }

    /** One page of the entries scoring in [min, max], lowest first; an empty page is "no result". */
    method FindByScoreWithScoresAscPage(min: int, max: int, offset: int, count: int, ids: seq<int>) returns (r: Option<seq<Entry>>)
      requires Valid()
      ensures r == Resolved(Limit(AscEntries(Within(SetOf(ids), min, max)), offset, count))
    {
      var key := BuildKey(ids);
      r := ResolveSelectResult(Limit(AscEntries(Within(Get(store, key), min, max)), offset, count));
    }

    /** One page of the entries scoring in [min, max], highest first; an empty page is "no result". */
    method FindByScoreWithScoresDescPage(min: int, max: int, offset: int, count: int, ids: seq<int>) returns (r: Option<seq<Entry>>)
      requires Valid()
      ensures r == Resolved(Limit(DescEntries(Within(SetOf(ids), min, max)), offset, count))
    {
      var key := BuildKey(ids);
      r := ResolveSelectResult(Limit(DescEntries(Within(Get(store, key), min, max)), offset, count));
    }

    /** Calls the loader once and answers its value, writing it back into the key when it is present and cacheable. */
    method ReloadWithScore(loaded: LoaderResult, ids: seq<int>) returns (r: Option<seq<Entry>>)
      requires Valid()
      modifies this
      ensures r == loaded.v
      ensures store == WriteBack(old(store), KeyOf(ids), loaded)
      ensures loaderCalls == old(loaderCalls) + 1
    {
      loaderCalls := loaderCalls + 1;
      if loaded.v.Some? && loaded.cache {
        var _ := AddEntries(loaded.v.value, ids);
      }
      r := loaded.v;
    }

    /** Reloads and answers the members of the loader value, each once, in first-seen order; nothing for a missing or empty value. */
    method ReloadWithOutScore(loaded: LoaderResult, ids: seq<int>) returns (r: Option<seq<Member>>)
      requires Valid()
      modifies this
      ensures r == Reloaded(loaded.v)
      ensures store == WriteBack(old(store), KeyOf(ids), loaded)
      ensures loaderCalls == old(loaderCalls) + 1
    {
      var es := ReloadWithScore(loaded, ids);
      r := None;
      if es.Some? && |es.value| > 0 {
        var xs := MembersOf(es.value);
        var acc: seq<Member> := [];
        var i := 0;
        while i < |es.value|
          invariant 0 <= i <= |es.value|
          invariant acc == AddAll([], xs[..i])
        {
          assert xs[..i + 1][..i] == xs[..i] && xs[..i + 1][i] == xs[i];
          var x := xs[i];
          if x !in acc {
            acc := acc + [x];
          }
          i := i + 1;
        }
        assert xs[..|xs|] == xs;
        r := Some(acc);
      }
    }

    /**
     * The outcome of a loader-backed query whose first reply is `cached`: on
     * a hit, that reply, an untouched store and no loader call; on a miss,
     * `reloaded`, the loader value's write-back and one loader call.
     */
    ghost predicate CacheAside<R>(hit: bool, cached: R, reloaded: R, r: R, store0: map<string, ZSet>, calls0: nat, key: string, loaded: LoaderResult)
      reads this
    {
      if hit then r == cached && store == store0 && loaderCalls == calls0
      else r == reloaded && store == WriteBack(store0, key, loaded) && loaderCalls == calls0 + 1
    }

    /** FindByScoreAsc backed by a loader: a missing reply is a miss. */
    method FindByScoreAscLoaded(min: int, max: int, loaded: LoaderResult, ids: seq<int>) returns (r: Option<seq<Member>>)
      requires Valid()
      modifies this
      ensures CacheAside(old(decode(AscOrder(Within(SetOf(ids), min, max)))).Some?, old(decode(AscOrder(Within(SetOf(ids), min, max)))), Reloaded(loaded.v), r, old(store), old(loaderCalls), KeyOf(ids), loaded)
    {
      r := FindByScoreAsc(min, max, ids);
      if r.None? {
        r := FindByScoreAsc(min, max, ids);
        if r.None? {
          r := ReloadWithOutScore(loaded, ids);
        }
      }
    }

    /** FindByScoreDesc backed by a loader: a missing reply is a miss. */
    method FindByScoreDescLoaded(min: int, max: int, loaded: LoaderResult, ids: seq<int>) returns (r: Option<seq<Member>>)
      requires Valid()
      modifies this
      ensures CacheAside(old(decode(DescOrder(Within(SetOf(ids), min, max)))).Some?, old(decode(DescOrder(Within(SetOf(ids), min, max)))), Reloaded(loaded.v), r, old(store), old(loaderCalls), KeyOf(ids), loaded)
    {
      r := FindByScoreDesc(min, max, ids);
      if r.None? {
        r := FindByScoreDesc(min, max, ids);
        if r.None? {
          r := ReloadWithOutScore(loaded, ids);
        }
      }
    }

    /** FindByScoreAscPage backed by a loader: a missing reply, or one shorter than `count`, is a miss. */
    method FindByScoreAscPageLoaded(min: int, max: int, offset: int, count: int, loaded: LoaderResult, ids: seq<int>) returns (r: Option<seq<Member>>)
      requires Valid()
      modifies this
      ensures CacheAside(old(decode(Limit(AscOrder(Within(SetOf(ids), min, max)), offset, count))).Some? && |old(decode(Limit(AscOrder(Within(SetOf(ids), min, max)), offset, count))).value| >= count, old(decode(Limit(AscOrder(Within(SetOf(ids), min, max)), offset, count))), Reloaded(loaded.v), r, old(store), old(loaderCalls), KeyOf(ids), loaded)
    {
      r := FindByScoreAscPage(min, max, offset, count, ids);
      if r.None? || |r.value| < count {
        r := FindByScoreAscPage(min, max, offset, count, ids);
        if r.None? || |r.value| < count {
          r := ReloadWithOutScore(loaded, ids);
        }
      }
    }

    /** FindByScoreDescPage backed by a loader: a missing reply, or one shorter than `count`, is a miss. */
    method FindByScoreDescPageLoaded(min: int, max: int, offset: int, count: int, loaded: LoaderResult, ids: seq<int>) returns (r: Option<seq<Member>>)
      requires Valid()
      modifies this
      ensures CacheAside(old(decode(Limit(DescOrder(Within(SetOf(ids), min, max)), offset, count))).Some? && |old(decode(Limit(DescOrder(Within(SetOf(ids), min, max)), offset, count))).value| >= count, old(decode(Limit(DescOrder(Within(SetOf(ids), min, max)), offset, count))), Reloaded(loaded.v), r, old(store), old(loaderCalls), KeyOf(ids), loaded)
    {
      r := FindByScoreDescPage(min, max, offset, count, ids);
      if r.None? || |r.value| < count {
        r := FindByScoreDescPage(min, max, offset, count, ids);
        if r.None? || |r.value| < count {
          r := ReloadWithOutScore(loaded, ids);
        }
      }
    }

    /** FindByIdAsc backed by a loader: a missing reply is a miss. */
    method FindByIdAscLoaded(start: int, end: int, loaded: LoaderResult, ids: seq<int>) returns (r: Option<seq<Member>>)
      requires Valid()
      modifies this
      ensures CacheAside(old(decode(RankRange(AscOrder(SetOf(ids)), start, end))).Some?, old(decode(RankRange(AscOrder(SetOf(ids)), start, end))), Reloaded(loaded.v), r, old(store), old(loaderCalls), KeyOf(ids), loaded)
    {
      r := FindByIdAsc(start, end, ids);
      if r.None? {
        r := FindByIdAsc(start, end, ids);
        if r.None? {
          r := ReloadWithOutScore(loaded, ids);
        }
      }
    }

    /** FindByIdDesc backed by a loader: a missing reply is a miss. */
    method FindByIdDescLoaded(start: int, end: int, loaded: LoaderResult, ids: seq<int>) returns (r: Option<seq<Member>>)
      requires Valid()
      modifies this
      ensures CacheAside(old(decode(RankRange(DescOrder(SetOf(ids)), start, end))).Some?, old(decode(RankRange(DescOrder(SetOf(ids)), start, end))), Reloaded(loaded.v), r, old(store), old(loaderCalls), KeyOf(ids), loaded)
    {
      r := FindByIdDesc(start, end, ids);
      if r.None? {
        r := FindByIdDesc(start, end, ids);
        if r.None? {
          r := ReloadWithOutScore(loaded, ids);
        }
      }
    }

    /**
     * FindByIdWithScoresAsc backed by a loader, as written: on a second miss
     * the loader is consulted only if the second reply is present, which it
     * never is, so the answer is the store's and the loader is never called.
     */
    method FindByIdWithScoresAscLoaded(start: int, end: int, loaded: LoaderResult, ids: seq<int>) returns (r: Option<seq<Entry>>)
      requires Valid()
      modifies this
      ensures r == old(Resolved(RankedEntries(SetOf(ids), start, end)))
      ensures store == old(store) && loaderCalls == old(loaderCalls)
    {
      r := FindByIdWithScoresAsc(start, end, ids);
      if r.None? {
        r := FindByIdWithScoresAsc(start, end, ids);
        if r.Some? {
          // The reload the source guards with a present second reply: with
          // nothing writing between the two queries, the second reply is the
          // first, so this branch is never taken.
          assert false;
        }
      }
    }

    /**
     * FindByScoreWithScoresAsc backed by a loader, as written: it reloads on
     * a second miss like the others, but always answers "no result".
     */
    method FindByScoreWithScoresAscLoaded(min: int, max: int, loaded: LoaderResult, ids: seq<int>) returns (r: Option<seq<Entry>>)
      requires Valid()
      modifies this
      ensures r == None
      ensures CacheAside(|old(Within(SetOf(ids), min, max))| > 0, (), (), (), old(store), old(loaderCalls), KeyOf(ids), loaded)
    {
      var result := FindByScoreWithScoresAsc(min, max, ids);
      if result.None? {
        result := FindByScoreWithScoresAsc(min, max, ids);
        if result.None? {
          result := ReloadWithScore(loaded, ids);
        }
      }
      r := None;
    }

    /**
     * FindByIdWithScoresAscLoaded as evidently intended: the loader is
     * consulted when the second reply is missing too.
     */
    method FindByIdWithScoresAscLoadedCorrected(start: int, end: int, loaded: LoaderResult, ids: seq<int>) returns (r: Option<seq<Entry>>)
      requires Valid()
      modifies this
      ensures CacheAside(old(Resolved(RankedEntries(SetOf(ids), start, end))).Some?, old(Resolved(RankedEntries(SetOf(ids), start, end))), loaded.v, r, old(store), old(loaderCalls), KeyOf(ids), loaded)
    {
      r := FindByIdWithScoresAsc(start, end, ids);
      if r.None? {
        r := FindByIdWithScoresAsc(start, end, ids);
        if r.None? {
          r := ReloadWithScore(loaded, ids);
        }
      }
    }

    /**
     * FindByScoreWithScoresAscLoaded as evidently intended: it answers what it
     * found or reloaded.
     */
    method FindByScoreWithScoresAscLoadedCorrected(min: int, max: int, loaded: LoaderResult, ids: seq<int>) returns (r: Option<seq<Entry>>)
      requires Valid()
      modifies this
      ensures CacheAside(old(Resolved(AscEntries(Within(SetOf(ids), min, max)))).Some?, old(Resolved(AscEntries(Within(SetOf(ids), min, max)))), loaded.v, r, old(store), old(loaderCalls), KeyOf(ids), loaded)
    {
      r := FindByScoreWithScoresAsc(min, max, ids);
      if r.None? {
        r := FindByScoreWithScoresAsc(min, max, ids);
        if r.None? {
          r := ReloadWithScore(loaded, ids);
        }
      }
    }

    /** FindByScoreWithScoresDesc backed by a loader: an empty range is a miss. */
    method FindByScoreWithScoresDescLoaded(min: int, max: int, loaded: LoaderResult, ids: seq<int>) returns (r: Option<seq<Entry>>)
      requires Valid()
      modifies this
      ensures CacheAside(old(Resolved(DescEntries(Within(SetOf(ids), min, max)))).Some?, old(Resolved(DescEntries(Within(SetOf(ids), min, max)))), loaded.v, r, old(store), old(loaderCalls), KeyOf(ids), loaded)
    {
      r := FindByScoreWithScoresDesc(min, max, ids);
      if r.None? {
        r := FindByScoreWithScoresDesc(min, max, ids);
        if r.None? {
          r := ReloadWithScore(loaded, ids);
        }
      }
    }

    /** FindByScoreWithScoresAscPage backed by a loader: an empty page is a miss. */
    method FindByScoreWithScoresAscPageLoaded(min: int, max: int, offset: int, count: int, loaded: LoaderResult, ids: seq<int>) returns (r: Option<seq<Entry>>)
      requires Valid()
      modifies this
      ensures CacheAside(old(Resolved(Limit(AscEntries(Within(SetOf(ids), min, max)), offset, count))).Some?, old(Resolved(Limit(AscEntries(Within(SetOf(ids), min, max)), offset, count))), loaded.v, r, old(store), old(loaderCalls), KeyOf(ids), loaded)
    {
      r := FindByScoreWithScoresAscPage(min, max, offset, count, ids);
      if r.None? {
        r := FindByScoreWithScoresAscPage(min, max, offset, count, ids);
        if r.None? {
          r := ReloadWithScore(loaded, ids);
        }
      }
    }

    /** FindByScoreWithScoresDescPage backed by a loader: an empty page is a miss. */
    method FindByScoreWithScoresDescPageLoaded(min: int, max: int, offset: int, count: int, loaded: LoaderResult, ids: seq<int>) returns (r: Option<seq<Entry>>)
      requires Valid()
      modifies this
      ensures CacheAside(old(Resolved(Limit(DescEntries(Within(SetOf(ids), min, max)), offset, count))).Some?, old(Resolved(Limit(DescEntries(Within(SetOf(ids), min, max)), offset, count))), loaded.v, r, old(store), old(loaderCalls), KeyOf(ids), loaded)
    {
      r := FindByScoreWithScoresDescPage(min, max, offset, count, ids);
      if r.None? {
        r := FindByScoreWithScoresDescPage(min, max, offset, count, ids);
        if r.None? {
          r := ReloadWithScore(loaded, ids);
        }
      }
    }
  }

  /**
   * The store's multi-member add on one set: writes the entries in order and
   * answers whether some member was new.
   */
  method StoreAdd(m0: ZSet, es: seq<Entry>) returns (m: ZSet, added: bool)
    ensures m == WithEntries(m0, es)
    ensures added <==> exists j :: 0 <= j < |es| && es[j].member !in m0
  {
    m := m0;
    added := false;
    var i := 0;
    while i < |es|
      invariant 0 <= i <= |es|
      invariant m == WithEntries(m0, es[..i])
      invariant added <==> exists j :: 0 <= j < i && es[j].member !in m0
    {
      WrittenStep(m0, es, i);
      added := added || es[i].member !in m;
      m := m[es[i].member := es[i].score];
      i := i + 1;
    }
    assert es[..|es|] == es;
  }

  /** The entries at ascending ranks start..end of `m`. */
  function RankedEntries(m: ZSet, start: int, end: int): (r: seq<Entry>)
    ensures forall k :: 0 <= k < |r| ==> r[k].member in m && r[k].score == m[r[k].member]
  {
    var xs := RankRange(AscOrder(m), start, end);
    assert forall k :: 0 <= k < |xs| ==> xs[k] in m by {
      forall k | 0 <= k < |xs| ensures xs[k] in m {
        assert xs[k] in AscOrder(m);
      }
    }
    WithScores(m, xs)
  }
}
