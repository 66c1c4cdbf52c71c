# jellyzset skip-list sorted sets in Dafny

This project models the core of `jellyzset`, a Go library of Redis-style
sorted sets. A `ZSet` store maps string keys to sorted sets (`zset`). Each
set keeps a member→node map and a `zskiplist`, and the skip list orders its
elements by `(score, member)`. The list has levelled forward links, each of
which carries a span (the number of level-0 steps it skips). It also has
level-0 back links, a tail, a length and an active level. The model follows
the source in three layers.

- **The skip list** (`arena.dfy`, `insertion.dfy`, `deletion.dfy`,
  `skiplist.dfy`).
  - The nodes live in an arena: a `seq` of nodes in class
    `SkipLists.SkipList`, with the head at handle 0 and nil as -1.
  - A ghost `order` lists the handles of the real nodes in ascending order.
  - `Arena.Wf` is the list invariant:
    - level 0 strictly ascends;
    - every link reaches the next node tall enough and spans exactly the
      ranks in between;
    - a nil link spans the rest of the list;
    - back links point at the level-0 predecessor;
    - the tail is the last node;
    - the active level is the lowest one that still holds every node.
  - `insert`, `delete`/`deleteNode`, `getRank` and `getNodeByRank` are
    imperative methods with their level loops.
  - Each method is proved against the ghost contents. Pure lemmas about the
    value snapshot carry the preservation proofs.
- **The sorted set** (`sortedset.dfy`).
  - Class `SortedSets.SortedSet` has the member→handle map and the list. Its
    invariant ties the map to the list.
  - `ZAdd`, `ZRem`, rank lookups and `findRange` of one set are defined here.
  - `findRange` walks the list in a counted loop.
- **The store** (`store.dfy`) and the score ranges (`scorerange.dfy`).
  - Class `Store.ZSet` holds `records: map<string, SortedSet>`. A ghost
    `sets` gives each key's elements in ascending order.
  - `limitScores` and `collectElementsIn(Reverse)Range` are the score-range
    walks.

The pure specification is in `setspec.dfy` and `ordering.dfy`:

- Go's string order on members, and the `(score, member)` key order.
- Sorted element sequences, with `Added` (ZAdd), `Without` (ZRem) and
  `Inserted`.
- `RankRange`, what findRange reports.
- `InScores`, the elements within a score window.

The lemmas there state what the source promises about these functions.

Every state-changing method states its new state in terms of these
functions. The quirks of the code are modelled as written:

- getRank's early exit for member `""`;
- the `start > stop` guard that three of the ZRange wrappers apply before
  negative indices are normalised, and ZRange does not;
- the `["", MinInt64]` sentinel of ZRetrieveByRank;
- the panic of limitScores on a set that ZRem emptied;
- the head sentinel in ZRevScoreRange (see Findings);
- ZPopMin/ZPopMax answering "no element, no error" on an emptied set;
- ZRangeByScore's inverted guard.

Where the library's doc comments and its code disagree, the model follows the
code:

- ZRetrieveByRank returns the sentinel, not the empty reply its comment
  promises.
- ZPopMin/ZPopMax return no error for an emptied set.
- ZRangeByScore returns the empty reply for every existing key, not the
  members in range.

## Model

| member | source | states |
|---|---|---|
| Arena.CreateNode | jellyzset.go:102-115 | createNode gives a node of the requested height. Every level has a nil forward link and span 0, and there is no back link. |
| SkipLists.SkipList.constructor | jellyzset.go:118-125 | newZSkipList is a valid empty list with level 1, length 0 and tail at the head. |
| SkipLists.SkipList.FindUpdate | jellyzset.go:862-881 | insert's descent records, for every active level, the last node whose key is below the new key, and that node's rank. |
| SkipLists.RaiseLevel | jellyzset.go:883-892 | Head levels from the old level up to the new node's height get a nil link spanning the whole length. All other nodes and levels are unchanged, and the recorded descent stays valid at the raised level. |
| SkipLists.SpliceBelow | jellyzset.go:894-907 | On each level below the new node's height, the new node is spliced after the recorded node. The spans are re-split as rank[0]-rank[l] and the remainder. |
| SkipLists.Widen | jellyzset.go:909-912 | The recorded links above the new node's height span one more. |
| SkipLists.Link | jellyzset.go:894-922 | After splicing, back links and tail, the list satisfies the invariant, and its elements are the old ones with the new one at its key's place. |
| SkipLists.SkipList.Insert | jellyzset.go:859-923 | For a key not present, the invariant is preserved (ascending level 0, exact spans, back links, tail). Contents gain exactly the new element at position CountBelow(key), the length grows by one, and the level becomes max(level, lvl). |
| Insertion.InsertedWf | jellyzset.go:859-923 | Any state built as insert builds it satisfies the list invariant and lists the old elements with the new one inserted at its rank. |
| Insertion.InsertedEnds | jellyzset.go:914-922 | After insert, the new node's back link is its predecessor (nil after the head), its successor points back at it, and the tail is the new node exactly when it is last. |
| Insertion.InsertedLinks | jellyzset.go:894-912 | After insert, every link at every active level reaches the next tall-enough node with a span equal to the rank distance, and a nil link spans the rest. |
| SkipLists.SkipList.GetRank | jellyzset.go:927-948 | The answer is the number of keys below (score, member), unless the walk stops earlier on a node carrying the member. For member "", the head's "" makes it 0 unless a node before it reaches the top level. |
| SkipLists.SkipList.FindPredecessors | jellyzset.go:975-989 | delete's descent records, per active level, the last node below the key. |
| SkipLists.Unlink | jellyzset.go:951-959 | On each active level the target is bypassed with span += target.span-1 where the recorded node links to it; elsewhere the span drops by one. |
| Deletion.DeletedUnshrunk | jellyzset.go:951-966 | After unlinking and fixing the successor's back link or the tail, the list is valid apart from the level, and its elements lose exactly the target. |
| Deletion.Shrunk | jellyzset.go:967-969 | Lowering the level while the top head link is nil, never below 1, restores the full invariant without changing the elements. |
| SkipLists.Detach | jellyzset.go:951-972 | On the node array alone: after unlinking the target, fixing its successor's back link or the tail, and lowering the level past empty top levels, the list is well formed, holds exactly the old elements without the target, and its tail is not the head. |
| SkipLists.SkipList.DeleteNode | jellyzset.go:951-972 | Removes exactly the target at its position, keeps the invariant, decrements the length, and leaves the tail off the head. |
| SkipLists.SkipList.Delete | jellyzset.go:975-995 | When (score, member) is present, exactly that element is removed and the invariant holds. Otherwise nothing changes. |
| SkipLists.SkipList.HasForwardIffTaller | jellyzset.go:1088-1090 | currentNodeHasForward, the guard of getNodeByRank's inner loop, holds at the node of rank r on level l exactly when a later node is taller than l. |
| SkipLists.SkipList.GetNodeByRank | jellyzset.go:1023-1043 | Rank 0 or a rank past the length gives nil. Rank r in 1..length gives the r-th node in ascending order. |
| Ordering.CountBelowSplits | jellyzset.go:874-875 | In an ascending key sequence, CountBelow(k) separates the keys below k from the rest: the rank an insert or getRank descent reaches. |
| Ordering.CountBelowFinds | jellyzset.go:989-991 | A key is present exactly when the element at position CountBelow(k) is k, which is delete's found test. |
| Ordering.InsertKeepsAscending | jellyzset.go:859-923 | Inserting an absent key at position CountBelow keeps the keys strictly ascending. |
| Ordering.RemoveKeepsAscending | jellyzset.go:951-995 | Removing any position keeps the keys strictly ascending. |
| Ordering.StrLessTotal | jellyzset.go:874-875 | Go's string order on members is total, so (score, member) orders any two distinct elements. |
| Ordering.StrLessTransitive | jellyzset.go:874-875 | Go's string order on members is transitive. |
| Arena.Neighbours | jellyzset.go:914-921 | In a valid list, each node's back link is its predecessor (nil for the first), and its level-0 link is its successor (nil for the last). |
| SortedSets.SortedSet.constructor | jellyzset.go:152-155 | A new set is valid and empty, with a fresh list whose tail is the head. |
| SortedSets.SortedSet.ContentsSorted | jellyzset.go:62-65 | The set's elements are sorted with distinct members, and the member map's keys are exactly those members. |
| SortedSets.SortedSet.Lookup | jellyzset.go:159 | A member is in the map exactly when it is in the contents, and the map points at that element's node. |
| SortedSets.SortedSet.Add | jellyzset.go:149-175 | The contents become Added(old, member, score, value) and the invariant holds. |
| SortedSets.SortedSet.Revalue | jellyzset.go:161-163 | With the same score, only the member's value changes and its position stays. |
| SortedSets.SortedSet.Place | jellyzset.go:170-171 | Inserts an absent member at its key's rank and records its node in the map; the deletion of the old node for a new score is Add's call to Remove. |
| SortedSets.SortedSet.Remove | jellyzset.go:326-339 | The answer is true exactly when the member was held. The contents become Without(old, member), the invariant holds, and the tail stays off the head. |
| SortedSets.SortedSet.Score | jellyzset.go:202-207 | Whether the member is held, and its score (0 when it is not). |
| SortedSets.SortedSet.Card | jellyzset.go:234 | The number of elements. |
| SortedSets.SortedSet.Rank | jellyzset.go:262-269 | -1 for a missing member. Otherwise the 0-based position, except member "" answers 0 unless a node before it reaches the top level. |
| SortedSets.SortedSet.RevRank | jellyzset.go:297-304 | -1 for a missing member. Otherwise length-1 minus getRank's answer. |
| SortedSets.SortedSet.GetNodeByRank | jellyzset.go:997-1020 | [member, score] of the element at the rank counted from the low end, or from the high end when reversed. Any rank outside 0..length-1 gives ("", MinInt64). |
| SortedSets.SortedSet.GetStartNode | jellyzset.go:1094-1102 | The node at the start rank counted from the requested end, or nil past the end. |
| SortedSets.SortedSet.FindRange | jellyzset.go:1050-1074 | The reply is RankRange of the contents. |
| SortedSets.Walk | jellyzset.go:1062-1071 | The counted walk appends exactly the elements it passes, in walking order, with scores when asked. |
| SortedSets.RankRangeIsWalk | jellyzset.go:1050-1074 | The int64 stretch stop-start+1, wrapping on overflow, walked from the start node, yields RankRange. |
| SortedSets.SortedSet.NextNodeIsNeighbour | jellyzset.go:1106-1111 | getNextNode from the node at position j is the node at j + 1 forwards and at j - 1 with reverse, nil past the last or before the first. |
| SortedSets.WalkStep | jellyzset.go:1106-1111 | getNextNode from the node at a walk position is the node at the next position: the level-0 successor forwards, the back link reversed. |
| SortedSets.SortedSet.Ends | jellyzset.go:674-684 | The head's level-0 link is the lowest element and the tail the highest, both nil on an emptied set. |
| SetSpec.AdjustRange | jellyzset.go:1077-1085 | A negative index counts from the end and is clamped at 0. A non-negative index is kept. |
| SetSpec.Wrap64 | jellyzset.go:1060 | The result lies in int64 and differs from the exact value by a multiple of 2^64. |
| SetSpec.ToUint64 | jellyzset.go:1008 | Converting a non-negative int64 to uint64 keeps it. A negative one lands above MaxInt64. |
| SetSpec.FullRange | jellyzset.go:1050-1074 | Ranks [0, -1] list every element, ascending, or descending when reversed. |
| SetSpec.ReverseRangeIsRangeOfReversed | jellyzset.go:1094-1111 | A reversed rank range equals the forward range of the reversed set. |
| SetSpec.AddSorted | jellyzset.go:149-175 | Added keeps the set sorted with distinct members, adds the member, and holds it with the new score and value. |
| SetSpec.SameScoreKeepsRanks | jellyzset.go:161-163 | Re-adding with the same score changes no key, so no rank moves. |
| SetSpec.AddRemoveRoundTrip | jellyzset.go:149-175 | Adding a new member and then removing it gives back the original set. |
| SetSpec.AddThenRemove | jellyzset.go:326-339 | Removing a member after adding it leaves what removing it alone leaves. |
| SetSpec.InsertSorted | jellyzset.go:859-923 | Inserting a new element keeps the set sorted and adds exactly its member. |
| SetSpec.InsertRemoved | jellyzset.go:951-995 | Removing the element just inserted gives back the set. |
| SetSpec.RemoveSorted | jellyzset.go:326-339 | Without keeps the set sorted and removes exactly the member. |
| SetSpec.RemoveShiftsRanks | jellyzset.go:326-339 | Removing a member moves each other member above it down one rank and leaves those below in place. |
| SetSpec.DistinctCount | jellyzset.go:228-235 | With distinct members, the number of elements is the number of members, which ZCard counts. |
| SetSpec.WithoutFirst | jellyzset.go:673-686 | Removing the lowest element's member leaves the rest in order. |
| SetSpec.WithoutLast | jellyzset.go:707-720 | Removing the highest element's member leaves the rest in order. |
| SetSpec.ClampKeepsWindow | jellyzset.go:1117-1129 | Clamping [min, max] to the lowest and highest scores never changes which elements qualify. |
| SetSpec.WindowIsStretch | jellyzset.go:1132-1148 | The elements with scores in [lo, hi] are the contiguous stretch from the count below lo to the count below hi+1. |
| ScoreRanges.LimitScores | jellyzset.go:1117-1129 | Panics exactly on an emptied list. Otherwise it gives (max(min, lowest), min(max, highest)) and keeps the same window. |
| ScoreRanges.DescendBelow | jellyzset.go:1134-1139 | The descent stops at the last node with a score below min: the node at rank CountBelow(min). |
| ScoreRanges.WalkUpTo | jellyzset.go:1141-1145 | Walking forward from there while score <= max emits exactly the stretch up to max. |
| ScoreRanges.CollectElementsInRange | jellyzset.go:1132-1148 | The reply is [member, score] for exactly the elements with min <= score <= max, ascending. |
| ScoreRanges.DescendAtMost | jellyzset.go:1153-1158 | The descent stops at the last node with score <= max, which is the head when there is none. |
| ScoreRanges.WalkDownTo | jellyzset.go:1160-1163 | Walking back links while score >= min emits the stretch from max down to min, descending. When the walk starts at the head it emits the head's ("", 0) if min <= 0. |
| ScoreRanges.CollectElementsInReverseRange | jellyzset.go:1151-1166 | The elements in [min, max], descending, followed by ("", 0) when no score is at most max (or the list is empty) and min <= 0. |
| ScoreRanges.PhantomHead | jellyzset.go:1151-1166 | For a window below every score, with the lowest score at most 0, the reply is ["", 0] although no element qualifies. |
| ScoreRanges.ReverseReply | jellyzset.go:1151-1166 | The backward walk's reply, stated through the counts of scores below min and at most max, equals the window highest first plus the head's ("", 0) exactly when no score is at most max and min <= 0. |
| ScoreRanges.CollectElementsInReverseRangeGuarded | jellyzset.go:1151-1166 | With the head excluded, the reply is exactly the elements in [min, max], descending. |
| Store.ZSet.constructor | jellyzset.go:94-98 | New gives an empty store. |
| Store.ZSet.ZAdd | jellyzset.go:149-175 | Answers 1, creates the key's set when missing, and sets it to Added(old, member, score, value). No other key changes. |
| Store.ZSet.ZScore | jellyzset.go:196-208 | (true, score) exactly when the key's set holds the member; (false, 0) otherwise. |
| Store.ZSet.ZCard | jellyzset.go:228-235 | The size of the key's set, 0 for a missing key. |
| Store.ZSet.ZRank | jellyzset.go:257-270 | -1 for a missing key or member. For a member other than "", its 0-based ascending position. |
| Store.ZSet.ZRevRank | jellyzset.go:292-305 | -1 for a missing key or member. For a member other than "", length-1 minus its ascending position, so ZRank + ZRevRank = length-1. |
| Store.ZSet.ZRem | jellyzset.go:326-339 | true exactly when the key's set held the member. That set becomes Without(old, member) and the key stays. |
| Store.ZSet.ZKeyExists | jellyzset.go:423-426 | Whether the store holds the key. |
| Store.ZSet.ZClear | jellyzset.go:442-446 | The key and its set are dropped. Nothing else changes, and a missing key is a no-op. |
| Store.ZSet.ZKeys | jellyzset.go:463-469 | Every key of the store, each exactly once. |
| Store.ZSet.ZRange | jellyzset.go:493-499 | RankRange of the key's set with no start > stop guard, so (0, -1) lists everything. Empty for a missing key. |
| Store.ZSet.ZRangeWithScore | jellyzset.go:524-530 | Empty for a missing key or raw start > stop. Otherwise RankRange with scores. |
| Store.ZSet.ZRevRange | jellyzset.go:554-560 | Empty for a missing key or raw start > stop. Otherwise the reversed RankRange. |
| Store.ZSet.ZRevRangeWithScore | jellyzset.go:585-591 | Empty for a missing key or raw start > stop. Otherwise the reversed RankRange with scores. |
| Store.ZSet.ZRetrieveByRank | jellyzset.go:613-621 | [] for a missing key. [member, score] at the rank, or ["", MinInt64] outside 0..length-1. |
| Store.ZSet.ZRevRetrieveByRank | jellyzset.go:643-652 | Like ZRetrieveByRank, with the rank counted from the highest element. |
| Store.ZSet.ZPopMin | jellyzset.go:673-686 | An error for a missing key, and nothing on an emptied set. Otherwise it returns the lowest element and removes exactly it. |
| Store.ZSet.ZPopMax | jellyzset.go:707-720 | An error for a missing key, and nothing on an emptied set. Otherwise it returns the highest element (read through the tail) and removes exactly it. |
| Store.ZSet.ZScoreRange | jellyzset.go:363-372 | Empty for a missing key or min > max, and a panic on an emptied set. Otherwise [member, score] for exactly the elements in [min, max], ascending. |
| Store.ZSet.ZRevScoreRange | jellyzset.go:397-406 | As ZScoreRange but descending, plus ("", 0) when max is below every score and the lowest score is at most 0. |
| Store.ZSet.ZRangeByScore | jellyzset.go:746-753 | Empty for every existing key. A panic (nil dereference) for a missing key. |

## Left out

- getRandomLevel (jellyzset.go:848-855) draws from `math/rand`. The level of a new node is a parameter `lvl` with 1 <= lvl <= 32, passed to ZAdd and insert.
- Scores are `float64` in the source and `int` here. The code only compares scores, so the order is the same. NaN and the infinities are not modelled. `float64(math.MinInt64)` is the integer MinInt64.
- The `value interface{}` payload is a type parameter `V`. ZPopMin/ZPopMax return the popped element as a value, not the node pointer.
- Go's distinction between a nil slice and an empty slice in replies is not modelled. Both are the empty sequence.
- Store.ZSet.ZKeys: Go map iteration order is unspecified, so the contract states which keys come back and how many, not their order.
- Store.ZSet.ZRank: states only "0 or the position" for member "". The exact condition, that no node before the member reaches the top level, is stated by SortedSets.SortedSet.Rank and SkipLists.SkipList.GetRank.
- Store.ZSet.ZRevRank: for member "", states only "length-1 or length-1 minus the position". SortedSets.SortedSet.RevRank states the exact answer.
- Store.ZSet.ZRangeByScore: after the inverted guard (jellyzset.go:748), the traversal body (jellyzset.go:753-843) is unreachable, so it is not modelled. The `config` argument is accepted and never read.
- Range methods require `start`, `stop` and `rank` to be int64 values and the set to hold at most MaxInt64 elements, which are the widths the source converts to.
- zset.getNodeByRank's `node == nil` check (jellyzset.go:1014-1016) cannot fire while the member map matches the list, so it has no branch of its own.
- zset.go is not part of this model. It re-declares the constants, types and createNode of jellyzset.go.
- Concurrency: the library has none, and the model is sequential.

## Findings

| source | as written | input that shows it | evidently intended | confidence | as-written member | corrected member |
|---|---|---|---|---|---|---|
| jellyzset.go:1151-1166 | the reverse descent can stop at the head, and the backward walk then emits the head sentinel's ("", 0) because 0 >= min | a set {("a", -1)}, ZRevScoreRange(key, max = -3, min = -5): limitScores gives min -1 and max -3, the descent stays at the head, and the reply is ["", 0] | the empty reply, since no element has a score in [-5, -3] | not executed | ScoreRanges.PhantomHead | ScoreRanges.CollectElementsInReverseRangeGuarded |
