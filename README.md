# Segmented and cache-aside sorted sets

This project models the two sorted-set data-access classes of a Redis
service layer and proves what their operations do to the store they sit on.

**Segmented sorted set** (`BaseZsetSegmentRedisDaoImpl`). One logical sorted
set is spread over K physical sorted sets, the segments. The key of segment i is
`<base>:<i>:<ids>`. Segment i, except the last, has capacity
`(1 + 1 + 2 + ... + i) * INIT`. The last segment is unbounded.
Segment 0 holds the highest scores:
- an insertion goes to the first segment that has room, or that is full with a lowest score below the new one;
- a segment that overflows pushes its lowest members down into the next segment;
- a segment that loses a member pulls the highest members of the next segment up.

The model is the class `SegmentDao.SegmentedZSet`, which holds an array of segment maps. Its methods
run the source's loops and recursions step by step. Each method is proved to
leave exactly what a recursive specification function in module `Segments`
computes. Modules `SegmentContents`, `SegmentInvariant`, `SegmentTheorems` and
`SegmentQueries` then prove what those functions mean for the logical set,
which is the union of the segments. The central invariant is `WellFormed`:
- every score is positive and scores are distinct;
- segment i scores strictly above every later segment;
- a segment is used only when every earlier bounded segment is full;
- no bounded segment exceeds its capacity.

Two results are proved on the functions:
- adding a fresh member keeps the state well formed and grows the logical set by exactly that pair;
- removing a present member keeps the state well formed and removes exactly that member.

Both of the source's overflow and backfill recursions are shown to restore the invariant.

**Single-key sorted set with loaders** (`BaseZsetRedisDaoImpl`). One sorted
set lives under the key `<base>:<ids>`, or under `<base>` when no ids are given. The class
`ZSetDao.SingleKeyZSet` holds the whole store as a map from key to sorted set.
A key whose set becomes empty is absent, as in Redis.

Each query has an overload backed by a loader, and that overload follows a cache-aside protocol:
1. query;
2. on a miss, query once more;
3. on a second miss, call the loader;
4. return the loader's value, writing it back when the loader marks it cacheable.

A loader is modelled as an input value. The field `loaderCalls` counts how
often one was consulted, so contracts can say when the loader is and is not
called.

`score` reports the sentinel -999999 for an absent member, and `existMember` tests
against that sentinel.

**Store order.** The store orders members by score. Members with equal scores are ordered by the member
itself, which is a fixed total order on the encoded member. Descending order is the exact reverse of ascending order.
Members are modelled as integers and scores as integers.

## Model

| member | source | states |
|---|---|---|
| SegmentDao.SegmentedZSet.constructor | src/main/java/cn/friday/base/service/global/redis/dao/impl/BaseZsetSegmentRedisDaoImpl.java:44-50 | a store of K empty segments whose key templates are `<base>:<i>:{0}`, with a first-segment capacity of 10000 |
| SegmentDao.SegmentedZSet.GetSegmentSize | src/main/java/cn/friday/base/service/global/redis/dao/impl/BaseZsetSegmentRedisDaoImpl.java:653-666 | the accumulating loop yields `Capacity`: 0 before the first segment, -1 (unbounded) for the last, otherwise (1 + 1 + 2 + ... + i) * init |
| SegmentInvariant.TriClosedForm | src/main/java/cn/friday/base/service/global/redis/dao/impl/BaseZsetSegmentRedisDaoImpl.java:653-666 | the accumulated sum 0 + 1 + ... + i is i(i+1)/2, so a bounded capacity is (1 + i(i+1)/2) * init |
| SegmentInvariant.CapacityStep | src/main/java/cn/friday/base/service/global/redis/dao/impl/BaseZsetSegmentRedisDaoImpl.java:653-666 | each bounded capacity after the first is (i+1) * init larger than the one before it, so capacities strictly increase |
| SegmentInvariant.CapacityPositive | src/main/java/cn/friday/base/service/global/redis/dao/impl/BaseZsetSegmentRedisDaoImpl.java:653-666 | every bounded capacity is at least the first segment's capacity |
| SegmentDao.SegmentedZSet.BuildKey | src/main/java/cn/friday/base/service/global/redis/dao/impl/BaseZsetSegmentRedisDaoImpl.java:637-646 | the key of segment i is the segment's template formatted with the joined ids |
| Keys.SegmentKeyShape | src/main/java/cn/friday/base/service/global/redis/dao/impl/BaseZsetSegmentRedisDaoImpl.java:621-629 | segment i's key is base, ':', i in decimal, ':', then the ids joined by ':' |
| Keys.SegmentKeysDistinct | src/main/java/cn/friday/base/service/global/redis/dao/impl/BaseZsetSegmentRedisDaoImpl.java:621-646 | two different segments of the same ids never share a key |
| Segments.LocateFrom | src/main/java/cn/friday/base/service/global/redis/dao/impl/BaseZsetSegmentRedisDaoImpl.java:139-149 | the result is the first segment from i on whose stored score for x is positive, or -1 exactly when there is none |
| SegmentDao.SegmentedZSet.GetElementInSegment | src/main/java/cn/friday/base/service/global/redis/dao/impl/BaseZsetSegmentRedisDaoImpl.java:139-149 | the loop returns the first segment storing x with a positive score, or -1 (`Locate`) |
| SegmentQueries.LocateIsPresence | src/main/java/cn/friday/base/service/global/redis/dao/impl/BaseZsetSegmentRedisDaoImpl.java:139-149 | in a well-formed state the locating scan answers -1 exactly when x is absent from the logical set |
| SegmentDao.SegmentedZSet.Add | src/main/java/cn/friday/base/service/global/redis/dao/impl/BaseZsetSegmentRedisDaoImpl.java:52-109 | returns true and leaves the segments of the insertion scan `Segments.Add`, the scan run literally |
| SegmentDao.SegmentedZSet.TryInsertAt | src/main/java/cn/friday/base/service/global/redis/dao/impl/BaseZsetSegmentRedisDaoImpl.java:56-106 | one scan step: segment i takes (x, v) when under capacity or unbounded, or full with a boundary score below v; otherwise nothing changes and the scan moves on |
| SegmentDao.SegmentedZSet.Place | src/main/java/cn/friday/base/service/global/redis/dao/impl/BaseZsetSegmentRedisDaoImpl.java:61-104 | the branches on where x already was: plain write, write then public remove, or write, delete the later copy and propagate overflow |
| SegmentTheorems.AddFresh | src/main/java/cn/friday/base/service/global/redis/dao/impl/BaseZsetSegmentRedisDaoImpl.java:52-109 | from a well-formed state, adding a fresh member with a fresh positive score keeps it well formed, adds exactly that pair and grows the size by one |
| SegmentTheorems.AddScan | src/main/java/cn/friday/base/service/global/redis/dao/impl/BaseZsetSegmentRedisDaoImpl.java:56-107 | the insertion scan from a segment whose predecessors are full and score at least v yields a well-formed state holding the old contents plus (x, v) |
| SegmentTheorems.AddBelowCapacity | src/main/java/cn/friday/base/service/global/redis/dao/impl/BaseZsetSegmentRedisDaoImpl.java:61-66 | writing into a segment under capacity (or the last one) keeps the state well formed |
| SegmentTheorems.AddOverCapacity | src/main/java/cn/friday/base/service/global/redis/dao/impl/BaseZsetSegmentRedisDaoImpl.java:84-89 | writing into a full segment whose boundary is below v and propagating the overflow keeps the state well formed and the contents plus (x, v) |
| Segments.AfterMoveStep | src/main/java/cn/friday/base/service/global/redis/dao/impl/BaseZsetSegmentRedisDaoImpl.java:392-411 | one overflow step: the surplus entries move down to segment i+1 and the propagation recurses only while segment i+1 exceeds its capacity |
| SegmentDao.SegmentedZSet.AfterMoveSegment | src/main/java/cn/friday/base/service/global/redis/dao/impl/BaseZsetSegmentRedisDaoImpl.java:392-411 | the recursive method leaves exactly `AfterMove` of the old segments; the last segment is never acted on |
| SegmentDao.SegmentedZSet.FindSurplus | src/main/java/cn/friday/base/service/global/redis/dao/impl/BaseZsetSegmentRedisDaoImpl.java:459-468 | the entries of segment i scoring in [0, boundary - 1], highest first |
| Segments.RangeWithScoresDesc | src/main/java/cn/friday/base/service/global/redis/dao/impl/BaseZsetSegmentRedisDaoImpl.java:459-468 | every listed entry is a member of the segment with its own score, inside [min, max] |
| SegmentDao.SegmentedZSet.MoveSurplus | src/main/java/cn/friday/base/service/global/redis/dao/impl/BaseZsetSegmentRedisDaoImpl.java:399-403 | moves each surplus entry, score unchanged, from segment i to segment i+1 and changes no other segment |
| SegmentInvariant.SurplusIsBottom | src/main/java/cn/friday/base/service/global/redis/dao/impl/BaseZsetSegmentRedisDaoImpl.java:394-396 | in a segment one member over capacity the surplus is exactly its lowest member |
| SegmentInvariant.AfterMoveWF | src/main/java/cn/friday/base/service/global/redis/dao/impl/BaseZsetSegmentRedisDaoImpl.java:392-411 | overflow propagation from an overfull segment restores well-formedness and keeps the logical contents |
| SegmentDao.SegmentedZSet.ForwardMoveSegment | src/main/java/cn/friday/base/service/global/redis/dao/impl/BaseZsetSegmentRedisDaoImpl.java:428-450 | leaves exactly `ForwardMove`: the n highest members of segment i+1 move up, scores unchanged, and the backfill repeats from i+1 until the last or an empty next segment |
| SegmentInvariant.TopOne | src/main/java/cn/friday/base/service/global/redis/dao/impl/BaseZsetSegmentRedisDaoImpl.java:436-437 | the one highest member of a non-empty segment is its descending rank 0 and scores at least every other member |
| SegmentInvariant.ForwardMoveWF | src/main/java/cn/friday/base/service/global/redis/dao/impl/BaseZsetSegmentRedisDaoImpl.java:428-450 | backfill from an underfull segment restores well-formedness and keeps the logical contents |
| SegmentDao.SegmentedZSet.Remove | src/main/java/cn/friday/base/service/global/redis/dao/impl/BaseZsetSegmentRedisDaoImpl.java:355-372 | returns true and leaves `Segments.Remove`: every segment storing x positively loses it and is backfilled by its deficit when bounded |
| SegmentDao.SegmentedZSet.RemoveAt | src/main/java/cn/friday/base/service/global/redis/dao/impl/BaseZsetSegmentRedisDaoImpl.java:359-369 | one step of the removal scan at segment i, proved equal to the recursive removal from i+1 of the new state |
| Segments.RemoveFromStep | src/main/java/cn/friday/base/service/global/redis/dao/impl/BaseZsetSegmentRedisDaoImpl.java:360-368 | the removal scan at a segment storing x: delete, backfill by the deficit when positive, go on from i+1 |
| Segments.RemoveFromSkip | src/main/java/cn/friday/base/service/global/redis/dao/impl/BaseZsetSegmentRedisDaoImpl.java:358-361 | the removal scan passes over a segment that does not store x positively |
| SegmentTheorems.RemoveJump | src/main/java/cn/friday/base/service/global/redis/dao/impl/BaseZsetSegmentRedisDaoImpl.java:358-370 | the removal scan goes straight to the first segment storing x positively, and changes nothing when there is none |
| SegmentTheorems.RemovePresent | src/main/java/cn/friday/base/service/global/redis/dao/impl/BaseZsetSegmentRedisDaoImpl.java:355-372 | from a well-formed state, removing a present member keeps it well formed, removes exactly that member and shrinks the size by one |
| SegmentTheorems.DeleteBackfill | src/main/java/cn/friday/base/service/global/redis/dao/impl/BaseZsetSegmentRedisDaoImpl.java:363-368 | deleting x from its segment and backfilling keeps the state well formed and removes exactly x |
| SegmentTheorems.PresentAt | src/main/java/cn/friday/base/service/global/redis/dao/impl/BaseZsetSegmentRedisDaoImpl.java:358-361 | a present member is stored positively in the segment the scan reaches first |
| SegmentTheorems.RemoveAbsent | src/main/java/cn/friday/base/service/global/redis/dao/impl/BaseZsetSegmentRedisDaoImpl.java:358-371 | removing a member that no segment holds leaves the segments unchanged |
| SegmentDao.SegmentedZSet.GetScore | src/main/java/cn/friday/base/service/global/redis/dao/impl/BaseZsetSegmentRedisDaoImpl.java:288-299 | the score read from the first segment storing x positively (`ScoreOf`) |
| SegmentQueries.ScoreOfIsContents | src/main/java/cn/friday/base/service/global/redis/dao/impl/BaseZsetSegmentRedisDaoImpl.java:288-299 | in a well-formed state the score read is x's score in the logical set, and 0 for an absent member |
| SegmentDao.SegmentedZSet.IncrScore | src/main/java/cn/friday/base/service/global/redis/dao/impl/BaseZsetSegmentRedisDaoImpl.java:151-157 | answers the read score plus delta and leaves the insertion of that new score |
| SegmentDao.SegmentedZSet.ExistMember | src/main/java/cn/friday/base/service/global/redis/dao/impl/BaseZsetSegmentRedisDaoImpl.java:310-321 | true exactly when the locating scan finds a segment |
| SegmentDao.SegmentedZSet.Size | src/main/java/cn/friday/base/service/global/redis/dao/impl/BaseZsetSegmentRedisDaoImpl.java:323-331 | the sum of the segment sizes |
| SegmentContents.TotalSizeIsContents | src/main/java/cn/friday/base/service/global/redis/dao/impl/BaseZsetSegmentRedisDaoImpl.java:323-331 | with disjoint segments the sum of segment sizes is the size of the logical set |
| SegmentDao.SegmentedZSet.RangeSize | src/main/java/cn/friday/base/service/global/redis/dao/impl/BaseZsetSegmentRedisDaoImpl.java:333-353 | the walk's count: stops at an empty segment or one whose lowest score is not positive, and after the first whose lowest score is below min |
| SegmentQueries.RangeSizeIsCount | src/main/java/cn/friday/base/service/global/redis/dao/impl/BaseZsetSegmentRedisDaoImpl.java:333-353 | in a well-formed state the walk counts exactly the members of the logical set scoring in [min, max] |
| SegmentDao.SegmentedZSet.WalkDesc | src/main/java/cn/friday/base/service/global/redis/dao/impl/BaseZsetSegmentRedisDaoImpl.java:161-174 | the descending walk from segment 0 with insertion-ordered set semantics (`DescWalk`) |
| Segments.DescWalkOn | src/main/java/cn/friday/base/service/global/redis/dao/impl/BaseZsetSegmentRedisDaoImpl.java:166-173 | at a segment whose lowest score is above min the walk adds the segment's members in range and goes on |
| Segments.DescWalkStop | src/main/java/cn/friday/base/service/global/redis/dao/impl/BaseZsetSegmentRedisDaoImpl.java:171-173 | at a segment whose lowest score is at most min the walk adds that segment's members and stops |
| SegmentDao.SegmentedZSet.FindByScoreDesc | src/main/java/cn/friday/base/service/global/redis/dao/impl/BaseZsetSegmentRedisDaoImpl.java:159-176 | the codec's decoding of the descending walk over [min, max] |
| SegmentQueries.DescWalkIsDescOrder | src/main/java/cn/friday/base/service/global/redis/dao/impl/BaseZsetSegmentRedisDaoImpl.java:159-176 | in a well-formed state the walk lists exactly the members of the logical set in [min, max], highest first, each once |
| SegmentDao.SegmentedZSet.FindByScoreDescLimit | src/main/java/cn/friday/base/service/global/redis/dao/impl/BaseZsetSegmentRedisDaoImpl.java:184-202 | the codec's decoding of the walk as written, with offset and count applied to each segment's query |
| SegmentFindings.PagePerSegment | src/main/java/cn/friday/base/service/global/redis/dao/impl/BaseZsetSegmentRedisDaoImpl.java:184-202 | on the two-segment example, offset 1 and count 1 over [1, 10] return [4, 1]: one member from each segment |
| SegmentDao.SegmentedZSet.FindByScoreDescPage | src/main/java/cn/friday/base/service/global/redis/dao/impl/BaseZsetSegmentRedisDaoImpl.java:184-202 | the corrected paged query: the codec's decoding of the unpaged walk with one offset and count over the whole result |
| SegmentQueries.DescPageIsPage | src/main/java/cn/friday/base/service/global/redis/dao/impl/BaseZsetSegmentRedisDaoImpl.java:184-202 | in a well-formed state the corrected query returns that page of the logical set's descending listing |
| SegmentFindings.PageOfWhole | src/main/java/cn/friday/base/service/global/redis/dao/impl/BaseZsetSegmentRedisDaoImpl.java:184-202 | on the same example the corrected query returns [4], where the query as written returns two members |
| SegmentDao.SegmentedZSet.FindByScoreWithScoresAsc | src/main/java/cn/friday/base/service/global/redis/dao/impl/BaseZsetSegmentRedisDaoImpl.java:253-268 | concatenates each segment's ascending entries in [min, max] from segment K-1 down to 0 (`AscFrom`) |
| SegmentDao.SegmentedZSet.AppendWhileAtMost | src/main/java/cn/friday/base/service/global/redis/dao/impl/BaseZsetSegmentRedisDaoImpl.java:260-265 | appends the reply's entries up to the first one scoring above max, and only those |
| Segments.SegmentAsc | src/main/java/cn/friday/base/service/global/redis/dao/impl/BaseZsetSegmentRedisDaoImpl.java:258-259 | every entry of a segment's ascending reply is a member with its own score, inside [min, max] |
| SegmentQueries.AscFromIsAscEntries | src/main/java/cn/friday/base/service/global/redis/dao/impl/BaseZsetSegmentRedisDaoImpl.java:253-268 | in a sound state the concatenation is the logical set's entries in [min, max], lowest first |
| SegmentDao.SegmentedZSet.DeleteById | src/main/java/cn/friday/base/service/global/redis/dao/impl/BaseZsetSegmentRedisDaoImpl.java:503-510 | returns true and leaves every segment empty |
| SegmentQueries.EmptyIsWellFormed | src/main/java/cn/friday/base/service/global/redis/dao/impl/BaseZsetSegmentRedisDaoImpl.java:503-510 | all-empty segments form a well-formed, empty set of size 0 |
| SegmentDao.SegmentedZSet.Upsert | src/main/java/cn/friday/base/service/global/redis/dao/impl/BaseZsetSegmentRedisDaoImpl.java:52-109 | the corrected insertion: remove any existing copy (with its backfill), then insert as new |
| SegmentFindings.AddLosesRescoredMember | src/main/java/cn/friday/base/service/global/redis/dao/impl/BaseZsetSegmentRedisDaoImpl.java:69-96 | re-scoring member 5 of the well-formed example to 2 leaves a state without member 5: the scan stops at the unbounded segment 1, whose branch at lines 69-72 writes and then runs the public remove, as the full-segment branch at lines 92-96 also does |
| SegmentFindings.AddOverfillsSegment | src/main/java/cn/friday/base/service/global/redis/dao/impl/BaseZsetSegmentRedisDaoImpl.java:84-96 | adding member 10 of the well-formed example {10}, {5, 4}, {3} (first capacity 1) again with its unchanged score 10 leaves segment 1 holding 3 members against a capacity of 2, so the state is no longer well formed |
| SegmentFindings.ThreeWellFormed | src/main/java/cn/friday/base/service/global/redis/dao/impl/BaseZsetSegmentRedisDaoImpl.java:653-666 | the three-segment example with first capacity 1 is well formed and holds 10, 5, 4 and 3 with their own scores |
| SegmentFindings.UpsertKeepsMembers | src/main/java/cn/friday/base/service/global/redis/dao/impl/BaseZsetSegmentRedisDaoImpl.java:52-109 | the corrected insertion keeps a well-formed state well formed with contents exactly the old ones with x scored v |
| SegmentFindings.UpsertPresent | src/main/java/cn/friday/base/service/global/redis/dao/impl/BaseZsetSegmentRedisDaoImpl.java:52-109 | for a present member, removing it and then inserting it keeps the state well formed and re-scores exactly x |
| ZSets.DescOrderRanks | src/main/java/cn/friday/base/service/global/redis/dao/impl/BaseZsetSegmentRedisDaoImpl.java:476-478 | the store's descending order is strictly descending by (score, member) |
| ZSets.BottomIsLowest | src/main/java/cn/friday/base/service/global/redis/dao/impl/BaseZsetSegmentRedisDaoImpl.java:476-487 | the member at the last descending rank has the lowest score of the set |
| ZSets.Limit | src/main/java/cn/friday/base/service/global/redis/dao/impl/BaseZsetSegmentRedisDaoImpl.java:194-195 | the store's LIMIT: a negative offset gives nothing, a negative count keeps the rest, otherwise the window [offset, offset + count) |
| ZSets.RankRange | src/main/java/cn/friday/base/service/global/redis/dao/impl/BaseZsetRedisDaoImpl.java:256-260 | the store's range by rank: both ends inclusive, negative ranks from the end, clipped to the set |
| ZSets.DescOrderConcat | src/main/java/cn/friday/base/service/global/redis/dao/impl/BaseZsetSegmentRedisDaoImpl.java:159-176 | when one set lies above another, the descending order of their union is the first's order followed by the second's |
| ZSets.AddAllFresh | src/main/java/cn/friday/base/service/global/redis/dao/impl/BaseZsetSegmentRedisDaoImpl.java:170 | adding members with no repeats to a set-ordered list is appending them |
| ZSetDao.SingleKeyZSet.constructor | src/main/java/cn/friday/base/service/global/redis/dao/impl/BaseZsetRedisDaoImpl.java:39-43 | the key template is the base key followed by ":{0}", over the given store, with no loader called yet |
| ZSetDao.SingleKeyZSet.BuildKey | src/main/java/cn/friday/base/service/global/redis/dao/impl/BaseZsetRedisDaoImpl.java:710-724 | the base key alone without ids, otherwise base, ':', and the ids joined by ':' |
| Keys.SingleKeyWithoutIds | src/main/java/cn/friday/base/service/global/redis/dao/impl/BaseZsetRedisDaoImpl.java:710-712 | removing ":{0}" from the template gives back the base key |
| Keys.SingleKeyWithIds | src/main/java/cn/friday/base/service/global/redis/dao/impl/BaseZsetRedisDaoImpl.java:713-722 | formatting the template with the joined ids gives base, ':', then the ids |
| ZSetDao.SingleKeyZSet.Add | src/main/java/cn/friday/base/service/global/redis/dao/impl/BaseZsetRedisDaoImpl.java:52-56 | writes (x, v) under the key and answers true exactly when x was new |
| ZSetDao.SingleKeyZSet.AddEntries | src/main/java/cn/friday/base/service/global/redis/dao/impl/BaseZsetRedisDaoImpl.java:76-85 | writes the entries under the key and answers true exactly when some member was new; an empty batch writes nothing |
| ZSetDao.StoreAdd | src/main/java/cn/friday/base/service/global/redis/dao/impl/BaseZsetRedisDaoImpl.java:64-68 | the store's multi-member add: the entries written in order, and whether some member was new |
| ZSetDao.WithEntriesHolds | src/main/java/cn/friday/base/service/global/redis/dao/impl/BaseZsetRedisDaoImpl.java:76-84 | writing entries with distinct members stores each with its score and leaves every other member as it was |
| ZSetDao.SingleKeyZSet.IncrScore | src/main/java/cn/friday/base/service/global/redis/dao/impl/BaseZsetRedisDaoImpl.java:94-98 | answers the old score (0 when absent) plus delta and stores that score |
| ZSetDao.SingleKeyZSet.Remove | src/main/java/cn/friday/base/service/global/redis/dao/impl/BaseZsetRedisDaoImpl.java:583-587 | removes x and answers true exactly when it was there; other keys are untouched |
| ZSetDao.AddRemoveRoundTrip | src/main/java/cn/friday/base/service/global/redis/dao/impl/BaseZsetRedisDaoImpl.java:583-587 | writing an absent member and then removing it gives back the set |
| ZSetDao.SingleKeyZSet.DeleteById | src/main/java/cn/friday/base/service/global/redis/dao/impl/BaseZsetRedisDaoImpl.java:620-625 | returns true and deletes the key |
| ZSetDao.SingleKeyZSet.ScoreReadings | src/main/java/cn/friday/base/service/global/redis/dao/impl/BaseZsetRedisDaoImpl.java:504-543 | score answers -999999 and getScore 0 for an absent member, both answer the stored score otherwise, and existMember holds exactly when the member is present with a score other than -999999 |
| ZSetDao.SingleKeyZSet.FindByScoreAsc | src/main/java/cn/friday/base/service/global/redis/dao/impl/BaseZsetRedisDaoImpl.java:107-111 | decodes the members scoring in [min, max], lowest first |
| ZSetDao.SingleKeyZSet.FindByScoreDesc | src/main/java/cn/friday/base/service/global/redis/dao/impl/BaseZsetRedisDaoImpl.java:144-149 | decodes the members scoring in [min, max], highest first |
| ZSetDao.SingleKeyZSet.FindByScoreAscPage | src/main/java/cn/friday/base/service/global/redis/dao/impl/BaseZsetRedisDaoImpl.java:179-184 | decodes the LIMIT window of the members in [min, max], lowest first |
| ZSetDao.SingleKeyZSet.FindByScoreDescPage | src/main/java/cn/friday/base/service/global/redis/dao/impl/BaseZsetRedisDaoImpl.java:215-220 | decodes the LIMIT window of the members in [min, max], highest first |
| ZSetDao.SingleKeyZSet.FindByIdAsc | src/main/java/cn/friday/base/service/global/redis/dao/impl/BaseZsetRedisDaoImpl.java:256-260 | decodes the members at ascending ranks start..end |
| ZSetDao.SingleKeyZSet.FindByIdDesc | src/main/java/cn/friday/base/service/global/redis/dao/impl/BaseZsetRedisDaoImpl.java:290-295 | decodes the members at descending ranks start..end |
| ZSetDao.SingleKeyZSet.ResolveSelectResult | src/main/java/cn/friday/base/service/global/redis/dao/impl/BaseZsetRedisDaoImpl.java:752-761 | an empty reply becomes no result; any other reply comes back entry for entry, in order |
| ZSetDao.SingleKeyZSet.FindByIdWithScoresAsc | src/main/java/cn/friday/base/service/global/redis/dao/impl/BaseZsetRedisDaoImpl.java:327-332 | the entries at ascending ranks start..end; an empty range is no result |
| ZSetDao.SingleKeyZSet.FindByScoreWithScoresAsc | src/main/java/cn/friday/base/service/global/redis/dao/impl/BaseZsetRedisDaoImpl.java:360-365 | no result exactly when nothing scores in [min, max], else those entries lowest first |
| ZSetDao.SingleKeyZSet.FindByScoreWithScoresDesc | src/main/java/cn/friday/base/service/global/redis/dao/impl/BaseZsetRedisDaoImpl.java:388-394 | no result exactly when nothing scores in [min, max], else those entries highest first |
| ZSetDao.SingleKeyZSet.FindByScoreWithScoresAscPage | src/main/java/cn/friday/base/service/global/redis/dao/impl/BaseZsetRedisDaoImpl.java:424-430 | the LIMIT window of the entries in [min, max], lowest first; an empty window is no result |
| ZSetDao.SingleKeyZSet.FindByScoreWithScoresDescPage | src/main/java/cn/friday/base/service/global/redis/dao/impl/BaseZsetRedisDaoImpl.java:462-468 | the LIMIT window of the entries in [min, max], highest first; an empty window is no result |
| ZSetDao.SingleKeyZSet.ReloadWithScore | src/main/java/cn/friday/base/service/global/redis/dao/impl/BaseZsetRedisDaoImpl.java:738-750 | calls the loader once, answers its value unchanged, and writes every pair back only when the value is present and cacheable |
| ZSetDao.SingleKeyZSet.ReloadWithOutScore | src/main/java/cn/friday/base/service/global/redis/dao/impl/BaseZsetRedisDaoImpl.java:726-736 | reloads, then answers no result for a missing or empty value, else the value's members each once in first-seen order |
| ZSetDao.ReloadedMembers | src/main/java/cn/friday/base/service/global/redis/dao/impl/BaseZsetRedisDaoImpl.java:726-736 | the answer is missing exactly for a missing or empty value; otherwise it is duplicate-free and holds exactly the value's members |
| ZSetDao.ReloadedInOrder | src/main/java/cn/friday/base/service/global/redis/dao/impl/BaseZsetRedisDaoImpl.java:729-732 | when the value names each member once, the answer is its members in the value's order |
| ZSetDao.RefillServesNext | src/main/java/cn/friday/base/service/global/redis/dao/impl/BaseZsetRedisDaoImpl.java:405-417 | after a cacheable reload with distinct members, one of them scoring in [min, max], the next descending with-scores query over [min, max] is a hit |
| ZSetDao.SingleKeyZSet.FindByScoreAscLoaded | src/main/java/cn/friday/base/service/global/redis/dao/impl/BaseZsetRedisDaoImpl.java:124-135 | a present first reply is returned with no loader call and the store untouched; otherwise, after an identical second miss, the loader's members are returned and its value written back |
| ZSetDao.SingleKeyZSet.FindByScoreDescLoaded | src/main/java/cn/friday/base/service/global/redis/dao/impl/BaseZsetRedisDaoImpl.java:161-172 | the same cache-aside outcome over the descending query |
| ZSetDao.SingleKeyZSet.FindByScoreAscPageLoaded | src/main/java/cn/friday/base/service/global/redis/dao/impl/BaseZsetRedisDaoImpl.java:192-204 | the same, where a reply shorter than `count` is also a miss |
| ZSetDao.SingleKeyZSet.FindByScoreDescPageLoaded | src/main/java/cn/friday/base/service/global/redis/dao/impl/BaseZsetRedisDaoImpl.java:234-246 | the same, where a reply shorter than `count` is also a miss |
| ZSetDao.SingleKeyZSet.FindByIdAscLoaded | src/main/java/cn/friday/base/service/global/redis/dao/impl/BaseZsetRedisDaoImpl.java:273-284 | the same cache-aside outcome over the ascending rank query |
| ZSetDao.SingleKeyZSet.FindByIdDescLoaded | src/main/java/cn/friday/base/service/global/redis/dao/impl/BaseZsetRedisDaoImpl.java:306-317 | the same cache-aside outcome over the descending rank query |
| ZSetDao.SingleKeyZSet.FindByIdWithScoresAscLoaded | src/main/java/cn/friday/base/service/global/redis/dao/impl/BaseZsetRedisDaoImpl.java:343-355 | answers the store's reply and never calls the loader nor writes: the reload is guarded by a present second reply, which cannot follow a missing first one |
| ZSetDao.SingleKeyZSet.FindByScoreWithScoresAscLoaded | src/main/java/cn/friday/base/service/global/redis/dao/impl/BaseZsetRedisDaoImpl.java:371-383 | always answers no result; on a miss it still calls the loader once and writes its value back |
| ZSetDao.SingleKeyZSet.FindByScoreWithScoresDescLoaded | src/main/java/cn/friday/base/service/global/redis/dao/impl/BaseZsetRedisDaoImpl.java:405-417 | a present first reply is returned with no loader call; otherwise the loader's value is returned unchanged and written back |
| ZSetDao.SingleKeyZSet.FindByScoreWithScoresAscPageLoaded | src/main/java/cn/friday/base/service/global/redis/dao/impl/BaseZsetRedisDaoImpl.java:443-455 | the same cache-aside outcome over the ascending with-scores page |
| ZSetDao.SingleKeyZSet.FindByScoreWithScoresDescPageLoaded | src/main/java/cn/friday/base/service/global/redis/dao/impl/BaseZsetRedisDaoImpl.java:481-493 | the same cache-aside outcome over the descending with-scores page |
| ZSetDao.SingleKeyZSet.FindByIdWithScoresAscLoadedCorrected | src/main/java/cn/friday/base/service/global/redis/dao/impl/BaseZsetRedisDaoImpl.java:343-355 | the corrected loader query: a present first reply is returned with no loader call; after a second miss the loader's value is returned and written back |
| ZSetDao.SingleKeyZSet.FindByScoreWithScoresAscLoadedCorrected | src/main/java/cn/friday/base/service/global/redis/dao/impl/BaseZsetRedisDaoImpl.java:371-383 | the corrected loader query: answers the entries it found in [min, max], lowest first, or after a second miss the loader's value, written back |
| ZSetDao.OneMemberHit | src/main/java/cn/friday/base/service/global/redis/dao/impl/BaseZsetRedisDaoImpl.java:371-383 | a key holding member 7 scored 3 has an ascending with-scores hit over [0, 5], which the query as written still answers as no result |
| ZSetDao.Put | src/main/java/cn/friday/base/service/global/redis/dao/impl/BaseZsetRedisDaoImpl.java:52-56 | reading the key back gives the written set, other keys are untouched, and a key whose set became empty is gone |
| ZSetDao.WithEntries | src/main/java/cn/friday/base/service/global/redis/dao/impl/BaseZsetRedisDaoImpl.java:76-84 | after writing a batch, a member is present exactly when it was present before or some entry names it |
| ZSets.DescOrder | src/main/java/cn/friday/base/service/global/redis/dao/impl/BaseZsetSegmentRedisDaoImpl.java:476-478 | the store's descending listing has one position per member and lists only members of the set |
| ZSets.DescOrderLists | src/main/java/cn/friday/base/service/global/redis/dao/impl/BaseZsetSegmentRedisDaoImpl.java:159-176 | every member appears in the descending listing, each exactly once, in strictly descending (score, member) order |
| ZSets.AddAll | src/main/java/cn/friday/base/service/global/redis/dao/impl/BaseZsetSegmentRedisDaoImpl.java:170 | adding members to an insertion-ordered set: the result holds exactly the members of the set and of the added list |
| ZSets.AddAllNoDuplicates | src/main/java/cn/friday/base/service/global/redis/dao/impl/BaseZsetRedisDaoImpl.java:729-732 | adding members to a duplicate-free listing keeps it duplicate-free |
| ZSets.WithScores | src/main/java/cn/friday/base/service/global/redis/dao/impl/BaseZsetRedisDaoImpl.java:752-761 | pairs each listed member with its own score, position by position |
| SegmentFindings.BeforeWellFormed | src/main/java/cn/friday/base/service/global/redis/dao/impl/BaseZsetSegmentRedisDaoImpl.java:52-109 | the two-segment example state, {5, 4} above {3, 1} with capacity 2, is well formed and holds member 5 |

## Left out

- Redis I/O, connection templates, pipelines and the `expire` callbacks (src/main/java/cn/friday/base/service/global/redis/dao/impl/BaseZsetSegmentRedisDaoImpl.java:517-528, src/main/java/cn/friday/base/service/global/redis/dao/impl/BaseZsetRedisDaoImpl.java:632-636) are replaced by an in-memory map from key to sorted set. A null reply from the store is not modelled.
- `RegistryService.registry` in both constructors is an external global side effect and is left out.
- The `MemberUtil` codec is not part of this model. Members are opaque integer keys. `getObject` is the identity. `getSet` is the uninterpreted field `decode` of both `SingleKeyZSet` and `SegmentedZSet`.
- `synchronized (lock)` blocks are modelled sequentially. The re-query inside the lock is a second identical query, so the model says nothing about concurrent writers.
- Scores are integers rather than doubles. Nothing about floating-point rounding is modelled. The segment code's `boundary - 1` already assumes integral scores.
- The `int`/`long` widths of `getSegmentSize`, of sizes and of ranks are unbounded integers in the model, so overflow for very large segment counts or INIT is not modelled.
- The segment `findByIdDesc` (src/main/java/cn/friday/base/service/global/redis/dao/impl/BaseZsetSegmentRedisDaoImpl.java:232-251) is left out. It reads an ascending range and subtracts only the previous segment's capacity, so it has no global-rank meaning to state.
- The segment overloads that return null or false without touching the store (src/main/java/cn/friday/base/service/global/redis/dao/impl/BaseZsetSegmentRedisDaoImpl.java:117-131, 179-229, 270-286, 304-308, 374-384, 530-616) are left out.
- `getFirst*`/`getLast*` (src/main/java/cn/friday/base/service/global/redis/dao/impl/BaseZsetRedisDaoImpl.java:647-708) read the system clock and are left out.
- The single-key `size`, `rangeSize`, `removeRange`, `removeRangeByScore` and `expire` are thin store calls outside the modelled core and are left out.
- `MessageFormat` quoting is not modelled. The key lemmas assume a base key without `{`; a base with quotes or braces is not covered.
- The `Preconditions` checks in `forwardMoveSegment` and `getSegmentLastElement` (src/main/java/cn/friday/base/service/global/redis/dao/impl/BaseZsetSegmentRedisDaoImpl.java:430, 438, 479) are `requires` clauses, not exceptions.
- A loader that throws, and a loader returning the same member twice, are not modelled faithfully. Duplicate members are written back in order, so the later score wins; the source collects them in a hash set of unspecified iteration order.
- ZSetDao.SingleKeyZSet.AddEntries: an empty batch writes nothing here, whereas the store would reject a ZADD with no members.
- ZSetDao.SingleKeyZSet.ScoreReadings: a member actually stored with score -999999 reads as absent, exactly as in the source; the contract states this collision rather than hiding it.
- SegmentDao.SegmentedZSet.Add: the contract is stated against the literal insertion scan. Preservation of the invariant is proved only for a fresh member with a fresh positive score: re-scoring a present member can lose it, and re-adding a member in a later segment than its own, even with an unchanged score, can leave a segment over its capacity (see Findings).
- SegmentDao.SegmentedZSet.FindByScoreWithScoresAsc: the correspondence with the logical set's ascending entries is proved for sound states (positive, distinct, descending across segments), not for arbitrary ones.

## Findings

| source | as written | input that shows it | evidently intended | confidence | as-written member | corrected member |
|---|---|---|---|---|---|---|
| src/main/java/cn/friday/base/service/global/redis/dao/impl/BaseZsetSegmentRedisDaoImpl.java:69-72, 92-96 | re-scoring a member that sits in an earlier segment writes the new copy, then calls the public remove, which deletes every positive copy including the new one | segments {5:5, 4:4} and {3:3, 1:1}, INIT 2, add(5, 2) | the member stays in the set with its new score | not executed | SegmentFindings.AddLosesRescoredMember | SegmentFindings.UpsertKeepsMembers |
| src/main/java/cn/friday/base/service/global/redis/dao/impl/BaseZsetSegmentRedisDaoImpl.java:194-196 | the paged descending query applies offset and count to each segment's query, not to the whole result | segments {5:5, 4:4} and {3:3, 1:1}, scores [1, 10], offset 1, count 1 returns [4, 1] | the single member at offset 1 of the whole listing, [4] | not executed | SegmentFindings.PagePerSegment | SegmentQueries.DescPageIsPage |
| src/main/java/cn/friday/base/service/global/redis/dao/impl/BaseZsetRedisDaoImpl.java:382 | the loader-backed ascending with-scores query returns null on every path, even after a hit or a reload | key holding {7:3}, scores [0, 5] returns null instead of [(7, 3)] | return the result found or reloaded | not executed | ZSetDao.SingleKeyZSet.FindByScoreWithScoresAscLoaded | ZSetDao.SingleKeyZSet.FindByScoreWithScoresAscLoadedCorrected |
| src/main/java/cn/friday/base/service/global/redis/dao/impl/BaseZsetRedisDaoImpl.java:349 | the loader-backed ascending rank query with scores reloads only when the second reply is present, so a miss never reaches the loader | an empty key, ranks 0..-1, a cacheable loader: the answer is null and the loader is never called | reload when the second reply is also missing | not executed | ZSetDao.SingleKeyZSet.FindByIdWithScoresAscLoaded | ZSetDao.SingleKeyZSet.FindByIdWithScoresAscLoadedCorrected |
| src/main/java/cn/friday/base/service/global/redis/dao/impl/BaseZsetSegmentRedisDaoImpl.java:84-96 | when a member sits in an earlier segment than the full one the scan stops at, the write and the public remove that follows make the backfill pull the new copy back up and then pull one more member into the already full segment | segments {10:10}, {5:5, 4:4}, {3:3}, INIT 1, add(10, 10) leaves {10:10}, {5:5, 4:4, 3:3}, {}: segment 1 holds 3 members against a capacity of 2 | the state is unchanged, or the member is re-scored in place with every segment within its capacity | not executed | SegmentFindings.AddOverfillsSegment | SegmentFindings.UpsertPresent |
