/** zset: one sorted set of the store, that is its skip list together with
    the map from each member to its node. */
module SortedSets {
  import opened Ordering
  import opened Arena
  import opened SetSpec
  import opened SkipLists

  /** The records map sends the member of every list position to the node at
      that position. */
  ghost predicate Indexes<V>(records: map<string, int>, es: seq<Element<V>>, order: seq<int>)
    requires |es| == |order|
  {
    forall j :: 0 <= j < |es| ==> es[j].member in records && records[es[j].member] == order[j]
  }

  lemma IndexesCut<V>(records: map<string, int>, es: seq<Element<V>>, order: seq<int>, i: nat)
    requires |es| == |order| && i < |es| && Indexes(records, es, order) && Distinct(es)
    ensures Indexes(records - {es[i].member}, es[..i] + es[i + 1..], order[..i] + order[i + 1..])
  {
    var es2, order2 := es[..i] + es[i + 1..], order[..i] + order[i + 1..];
    forall j | 0 <= j < |es2|
      ensures es2[j].member in records - {es[i].member} && (records - {es[i].member})[es2[j].member] == order2[j]
    {
      var j1 := if j < i then j else j + 1;
      assert es2[j] == es[j1] && order2[j] == order[j1];
      assert j1 < i ==> es[j1].member != es[i].member;
      assert j1 > i ==> es[i].member != es[j1].member;
    }
  }

  lemma IndexesSplice<V>(records: map<string, int>, es: seq<Element<V>>, order: seq<int>, p: nat, e: Element<V>, x: int)
    requires |es| == |order| && p <= |es| && Indexes(records, es, order) && e.member !in Members(es)
    ensures Indexes(records[e.member := x], es[..p] + [e] + es[p..], order[..p] + [x] + order[p..])
  {
    var es2, order2 := es[..p] + [e] + es[p..], order[..p] + [x] + order[p..];
    forall j | 0 <= j < |es2|
      ensures es2[j].member in records[e.member := x] && records[e.member := x][es2[j].member] == order2[j]
    {
      if j != p {
        var j1 := if j < p then j else j - 1;
        assert es2[j] == es[j1] && order2[j] == order[j1] && es[j1] in es;
      }
    }
  }

  /** A new value for position `i` changes no member. */
  lemma RevaluedIndexes<V>(records: map<string, int>, es: seq<Element<V>>, order: seq<int>, i: nat, v: V)
    requires |es| == |order| && i < |es| && Indexes(records, es, order)
    ensures Indexes(records, es[i := es[i].(value := v)], order)
    ensures Members(es[i := es[i].(value := v)]) == Members(es)
  {
    var es2 := es[i := es[i].(value := v)];
    forall m | m in Members(es) ensures m in Members(es2) {
      var e :| e in es && e.member == m;
      var j :| 0 <= j < |es| && es[j] == e;
      assert es2[j].member == m && es2[j] in es2;
    }
    forall m | m in Members(es2) ensures m in Members(es) {
      var e :| e in es2 && e.member == m;
      var j :| 0 <= j < |es2| && es2[j] == e;
      assert es[j].member == m && es[j] in es;
    }
  }

  class SortedSet<V(0)> {
    /** member -> handle of its node in `zsl` */
    var records: map<string, int>
    const zsl: SkipList<V>

    ghost predicate Valid()
      reads this, zsl
    {
      && zsl.Valid()
      && Indexes(records, zsl.Contents(), zsl.order)
      && (forall m :: m in records ==> m in Members(zsl.Contents()))
    }

    /** The set's elements, ascending by (score, member). */
    ghost function Contents(): seq<Element<V>>
      reads this, zsl
      requires Valid()
    {
      zsl.Contents()
    }

    /** Each member is held once, and the records map holds exactly the
        members of the list. */
    lemma ContentsSorted()
      requires Valid()
      ensures Sorted(Contents())
      ensures records.Keys == Members(Contents()) && |records| == |Contents()|
    {
      var es := Contents();
      ElementKeys(zsl.Snap(), zsl.order);
      forall i, j | 0 <= i < j < |es| ensures es[i].member != es[j].member {
        assert Apart(zsl.order, i, j);
      }
      forall m | m in Members(es) ensures m in records {
        var e :| e in es && e.member == m;
        var i :| 0 <= i < |es| && es[i] == e;
      }
      DistinctCount(es);
      assert records.Keys == Members(es);
    }

    /** The records map and the list agree on where a member is. */
    lemma Lookup(member: string)
      requires Valid()
      ensures member in records <==> Find(Contents(), member).Some?
      ensures member in records ==> records[member] == zsl.order[Find(Contents(), member).value]
    {
      ContentsSorted();
    }

    /** The zset literal of ZAdd: an empty map and newZSkipList. */
    constructor ()
      ensures Valid() && Contents() == [] && zsl.tail == Head
      ensures fresh(zsl)
    {
      records := map[];
      zsl := new SkipList();
    }

    /** ZAdd on this set: a member that keeps its score only takes the new
        value; otherwise its node (if any) is deleted and a new one inserted
        at the place of the new score, with height `lvl`. */
    method Add(score: int, member: string, value: V, lvl: int)
      requires Valid() && 1 <= lvl <= MaxLevel
      modifies this, zsl
      ensures Valid() && Contents() == Added(old(Contents()), member, score, value)
      ensures zsl.tail != Head
    {
      ghost var es := Contents();
      assert Sorted(es) by {
        ContentsSorted();
      }
      Lookup(member);
      if member in records && zsl.nodes[records[member]].score == score {
        ghost var i := Find(es, member).value;
        Revalue(member, value);
        assert es[i].(value := value) == Element(member, score, value);
        assert zsl.tail != Head by {
          NonEmptyTail();
        }
      } else {
        if member in records {
          var _ := Remove(member);
        }
        assert Contents() == Without(es, member);
        assert member !in Members(Contents()) by {
          RemoveSorted(es, member);
        }
        Place(score, member, value, lvl);
      }
    }

    /** The existing node of `member` takes the new value in place. */
    method Revalue(member: string, value: V)
      requires Valid() && member in records
      modifies zsl
      ensures Valid() && Find(old(Contents()), member).Some?
      ensures var i := Find(old(Contents()), member).value;
        Contents() == old(Contents())[i := old(Contents())[i].(value := value)]
    {
      ghost var es := Contents();
      Lookup(member);
      ghost var i := Find(es, member).value;
      ghost var s := zsl.Snap();
      var x := records[member];
      Revalued(s, zsl.order, i, value);
      zsl.nodes := zsl.nodes[x := zsl.nodes[x].(value := value)];
      assert zsl.Snap() == s.(nodes := s.nodes[zsl.order[i] := s.nodes[zsl.order[i]].(value := value)]);
      RevaluedIndexes(records, es, zsl.order, i, value);
    }

    /** The two ends ZPopMin and ZPopMax read: the head's bottom link and
        the tail are the nodes of the lowest and the highest element, and
        both are nil on a list that was emptied. */
    lemma Ends()
      requires Valid() && zsl.tail != Head
      ensures var es, ns := Contents(), zsl.nodes;
        && |ns| >= 1 && |ns[Head].levels| >= 1
        && (|es| == 0 ==> ns[Head].levels[0].forward == Nil && zsl.tail == Nil)
        && (|es| > 0 ==>
              var f, t := ns[Head].levels[0].forward, zsl.tail;
              && 0 <= f < |ns| && 0 <= t < |ns|
              && Element(ns[f].member, ns[f].score, ns[f].value) == es[0]
              && Element(ns[t].member, ns[t].score, ns[t].value) == es[|es| - 1])
    {
      BottomLink(zsl.Snap(), zsl.order, 0);
    }

    /** A non-empty list has a tail node. */
    lemma NonEmptyTail()
      requires zsl.Valid() && |zsl.Contents()| > 0
      ensures zsl.tail != Head
    {
    }

    /** A new node for a member the set does not hold, recorded under it. */
    method Place(score: int, member: string, value: V, lvl: int)
      requires Valid() && 1 <= lvl <= MaxLevel && member !in Members(Contents())
      modifies this, zsl
      ensures Valid() && Contents() == Inserted(old(Contents()), Element(member, score, value))
      ensures zsl.tail != Head
    {
      ghost var es := Contents();
      assert Sorted(es) by {
        ContentsSorted();
      }
      assert Key(score, member) !in zsl.KeySeq() by {
        ElementKeys(zsl.Snap(), zsl.order);
        forall j | 0 <= j < |es| ensures zsl.KeySeq()[j] != Key(score, member) {
          assert es[j] in es;
        }
      }
      ghost var p := CountBelow(zsl.KeySeq(), Key(score, member));
      ghost var order := zsl.order;
      assert p == CountBelow(KeysOf(es), Key(score, member)) by {
        ElementKeys(zsl.Snap(), zsl.order);
      }
      var x := zsl.Insert(score, member, value, lvl);
      IndexesSplice(records, es, order, p, Element(member, score, value), x);
      records := records[member := x];
      assert forall m :: m in records ==> m in Members(Contents()) by {
        assert Members(zsl.Contents()) == Members(es) + {member} by {
          InsertSorted(es, Element(member, score, value));
        }
      }
      NonEmptyTail();
    }

    /** ZRem on this set: deletes the member's node and its record. */
    method Remove(member: string) returns (removed: bool)
      requires Valid()
      modifies this, zsl
      ensures Valid()
      ensures removed == (member in Members(old(Contents())))
      ensures Contents() == Without(old(Contents()), member)
      ensures old(zsl.tail) != Head ==> zsl.tail != Head
    {
      ghost var es := Contents();
      ContentsSorted();
      Lookup(member);
      RemoveSorted(es, member);
      if member in records {
        ghost var i := Find(es, member).value;
        var x := records[member];
        ElementKeys(zsl.Snap(), zsl.order);
        PositionIsCount(es, i);
        IndexesCut(records, es, zsl.order, i);
        zsl.Delete(zsl.nodes[x].score, member);
        records := records - {member};
        return true;
      }
      return false;
    }

    /** ZScore on this set: whether the member is held, and its score. */
    method Score(member: string) returns (ok: bool, score: int)
      requires Valid()
      ensures ok == Find(Contents(), member).Some?
      ensures score == if ok then Contents()[Find(Contents(), member).value].score else 0
    {
      Lookup(member);
      if member !in records {
        return false, 0;
      }
      return true, zsl.nodes[records[member]].score;
    }

    /** ZCard on this set: the size of the records map, which is the number
        of elements. */
    method Card() returns (n: int)
      requires Valid()
      ensures n == |Contents()|
    {
      ContentsSorted();
      n := |records|;
    }

    /** ZRank on this set: -1 for an absent member, otherwise its 0-based
        position, except that getRank answers 0 for member "" unless a node
        before it reaches the top active level. */
    method Rank(member: string) returns (rank: int)
      requires Valid()
      ensures Find(Contents(), member).None? ==> rank == -1
      ensures Find(Contents(), member).Some? ==>
        var i := Find(Contents(), member).value;
        rank == if member == "" && zsl.level !in Heights(zsl.Snap(), zsl.order)[..i] then 0 else i
    ensures member != "" && Find(Contents(), member).Some? ==> Find(Contents(), member) == Some(rank)
    ensures member == "" && Find(Contents(), member).Some? ==> rank == 0 || Find(Contents(), member) == Some(rank)
    {
      Lookup(member);
      if member !in records {
        return -1;
      }
      ghost var es := Contents();
      ghost var i := Find(es, member).value;
      ContentsSorted();
      ElementKeys(zsl.Snap(), zsl.order);
      PositionIsCount(es, i);
      var x := records[member];
      rank := zsl.GetRank(zsl.nodes[x].score, member);
    }

    /** ZRevRank on this set: length - getRank - 1, so the position counted
        from the highest element (with getRank's answer for member ""). */
    method RevRank(member: string) returns (rank: int)
      requires Valid()
      ensures Find(Contents(), member).None? ==> rank == -1
      ensures Find(Contents(), member).Some? ==>
        var i := Find(Contents(), member).value;
        rank == |Contents()| - 1 - (if member == "" && zsl.level !in Heights(zsl.Snap(), zsl.order)[..i] then 0 else i)
    ensures member != "" && Find(Contents(), member).Some? ==> Find(Contents(), member) == Some(|Contents()| - 1 - rank)
    ensures member == "" && Find(Contents(), member).Some? ==>
      rank == |Contents()| - 1 || Find(Contents(), member) == Some(|Contents()| - 1 - rank)
    {
      Lookup(member);
      if member !in records {
        return -1;
      }
      ghost var es := Contents();
      ghost var i := Find(es, member).value;
      ContentsSorted();
      ElementKeys(zsl.Snap(), zsl.order);
      PositionIsCount(es, i);
      var x := records[member];
      var r := zsl.GetRank(zsl.nodes[x].score, member);
      rank := zsl.length - r - 1;
    }

    /** getNodeByRank of zset: the member and score at 0-based `rank`
        (counted from the highest element when `reverse`), or the sentinel
        ("", MinInt64) for a rank outside the set. */
    method GetNodeByRank(rank: int, reverse: bool) returns (member: string, score: int)
      requires Valid() && IsInt64(rank) && |Contents()| <= MaxInt64
      ensures 0 <= rank < |Contents()| && !reverse ==>
        member == Contents()[rank].member && score == Contents()[rank].score
      ensures 0 <= rank < |Contents()| && reverse ==>
        member == Contents()[|Contents()| - 1 - rank].member && score == Contents()[|Contents()| - 1 - rank].score
      ensures !(0 <= rank < |Contents()|) ==> member == "" && score == MinInt64
    {
      if rank < 0 || rank > zsl.length {
        return "", MinInt64;
      }
      var r := if reverse then zsl.length - rank else Wrap64(rank + 1);
      var n := zsl.GetNodeByRank(ToUint64(r));
      if n == Nil {
        return "", MinInt64;
      }
      RecordAt(r - 1);
      var x := records[zsl.nodes[n].member];
      return zsl.nodes[x].member, zsl.nodes[x].score;
    }

    /** The records map leads from the member at list position `i` back to
        the node at that position. */
    lemma RecordAt(i: int)
      requires Valid() && 0 <= i < |Contents()|
      ensures zsl.nodes[zsl.order[i]].member == Contents()[i].member
      ensures Contents()[i].member in records && records[Contents()[i].member] == zsl.order[i]
    {
    }

    /** getStartNode: the node at 0-based `rank`, counted from the highest
        element when `reverse`; nil past the end. */
    method GetStartNode(rank: int, reverse: bool) returns (x: int)
      requires Valid() && 0 <= rank <= MaxInt64 && zsl.length <= MaxInt64
      ensures x == if rank < zsl.length then zsl.order[if reverse then zsl.length - 1 - rank else rank] else Nil
    {
      var r := if reverse then zsl.length - rank else Wrap64(rank + 1);
      x := zsl.GetNodeByRank(ToUint64(r));
    }

    /** The list's nodes as findRange walks them: each position's node
        carries that position's element, and its level-0 links lead to the
        neighbouring positions. */
    lemma Walkable()
      requires Valid()
      ensures Chain(zsl.nodes, zsl.order, Contents())
    {
      Chained(zsl.Snap(), zsl.order);
    }

    /** getNextNode from the node at position `j` gives its neighbour: the
        next position forwards, the previous one when `reverse`, and nil
        past either end. */
    lemma NextNodeIsNeighbour(j: int, reverse: bool)
      requires Valid() && 0 <= j < |Contents()|
      ensures 0 <= zsl.order[j] < |zsl.nodes| && |zsl.nodes[zsl.order[j]].levels| >= 1
      ensures GetNextNode(zsl.nodes[zsl.order[j]], reverse)
              == if reverse then (if j == 0 then Nil else zsl.order[j - 1])
                 else (if j + 1 < |Contents()| then zsl.order[j + 1] else Nil)
    {
      Walkable();
      assert LinkedAt(zsl.nodes, zsl.order, Contents(), j);
    }

    /** findRange: the members (and scores) at the 0-based inclusive ranks
        [start, stop] after adjustRange, walking forward, or backward from
        the top when `reverse`. */
    method FindRange(start: int, stop: int, reverse: bool, withScores: bool) returns (result: seq<Item>)
      requires Valid() && IsInt64(start) && IsInt64(stop) && |Contents()| <= MaxInt64
      ensures result == RankRange(Contents(), start, stop, reverse, withScores)
    {
      var length := zsl.length;
      var s := AdjustRange(start, length);
      var t := AdjustRange(stop, length);
      if s > t {
        return [];
      }
      var span := Wrap64(t - s + 1);
      var x := GetStartNode(s, reverse);
      ghost var es := Contents();
      ghost var first := if s < length then s else length;
      ghost var k := if span <= 0 then 0 else Min(span, length - first);
      Walkable();
      result := Walk(zsl.nodes, x, span, reverse, withScores, zsl.order, es, first);
      RankRangeIsWalk(es, start, stop, reverse, withScores, s, t, span, first, k);
    }
  }

  /** findRange's answer is the walk from the adjusted start over the
      int64 span t - s + 1. */
  lemma RankRangeIsWalk<V>(es: seq<Element<V>>, start: int, stop: int, reverse: bool, withScores: bool,
                           s: int, t: int, span: int, first: int, k: int)
    requires |es| <= MaxInt64 && IsInt64(start) && IsInt64(stop)
    requires s == AdjustRange(start, |es|) && t == AdjustRange(stop, |es|) && s <= t
    requires span == Wrap64(t - s + 1) && first == (if s < |es| then s else |es|)
    requires k == if span <= 0 then 0 else Min(span, |es| - first)
    ensures 0 <= first && 0 <= k && first + k <= |es|
    ensures RankRange(es, start, stop, reverse, withScores) == Emit(Walked(es, first, k, reverse), withScores)
  {
    var n := |es|;
    var w := Walked(es, first, k, reverse);
    if s >= n || t - s + 1 > MaxInt64 {
      assert k == 0;
      assert RankSlice(es, start, stop, reverse) == [] == w;
    } else {
      var hi := if t < n then t else n - 1;
      assert span == t - s + 1 && k == hi - s + 1 && first == s;
      if reverse {
        assert w == Reversed(es[n - 1 - hi .. n - s]);
        assert RankSlice(es, start, stop, reverse) == w;
      } else {
        assert w == es[s .. hi + 1];
        assert RankSlice(es, start, stop, reverse) == w;
      }
    }
  }

  /** getNextNode: the level-0 successor, or the back link when `reverse`. */
  function GetNextNode<V>(node: Node<V>, reverse: bool): int
    requires |node.levels| >= 1
  {
    if reverse then node.backward else node.levels[0].forward
  }

  /** findRange's loop: at most `span` nodes from `x`, forward or along the
      back links, each adding its member (and score). `x` stands at position
      `first` when walking forward and at position |es| - 1 - first when
      walking back; nil when that position is past the end. */
  method Walk<V>(ns: seq<Node<V>>, x0: int, span0: int, reverse: bool, withScores: bool,
                 ghost order: seq<int>, ghost es: seq<Element<V>>, ghost first: int)
      returns (result: seq<Item>)
    requires Chain(ns, order, es) && 0 <= first <= |es|
    requires x0 == if first < |es| then order[if reverse then |es| - 1 - first else first] else Nil
    ensures result == Emit(Walked(es, first, if span0 <= 0 then 0 else Min(span0, |es| - first), reverse), withScores)
  {
    var n := |es|;
    var x, span := x0, span0;
    result := [];
    ghost var done := 0;
    while span > 0 && x != Nil
      invariant 0 <= done <= n - first && span == span0 - done
      invariant if span0 <= 0 then done == 0 else span >= 0
      invariant x == Cursor(order, first + done, reverse)
      invariant Replied(result, es, first, done, reverse, withScores)
      decreases span
    {
      WalkAdvance(ns, order, es, first, done, reverse, withScores, x, result);
      result := result + (if withScores then [Member(ns[x].member), Item.Score(ns[x].score)] else [Member(ns[x].member)]);
      span := span - 1;
      x := GetNextNode(ns[x], reverse);
      done := done + 1;
    }
    WalkExit(ns, order, es, first, done, span0, span, x, reverse, withScores, result);
  }

  /** When findRange's loop stops, its reply covers the whole walk: `span`
      steps, or fewer when the list ends first. */
  lemma WalkExit<V>(ns: seq<Node<V>>, order: seq<int>, es: seq<Element<V>>, first: int, done: int,
                    span0: int, span: int, x: int, reverse: bool, withScores: bool, result: seq<Item>)
    requires Chain(ns, order, es) && 0 <= first && 0 <= done <= |es| - first && span == span0 - done
    requires if span0 <= 0 then done == 0 else span >= 0
    requires x == Cursor(order, first + done, reverse) && !(span > 0 && x != Nil)
    requires Replied(result, es, first, done, reverse, withScores)
    ensures result == Emit(Walked(es, first, if span0 <= 0 then 0 else Min(span0, |es| - first), reverse), withScores)
  {
    if first + done < |es| {
      CursorLive(ns, order, es, first + done, reverse);
    }
    assert done == if span0 <= 0 then 0 else Min(span0, |es| - first);
  }

  /** Within the list, the walk's cursor is a real node. */
  lemma CursorLive<V>(ns: seq<Node<V>>, order: seq<int>, es: seq<Element<V>>, d: int, reverse: bool)
    requires Chain(ns, order, es) && 0 <= d < |es|
    ensures Cursor(order, d, reverse) != Nil
  {
    assert LinkedAt(ns, order, es, WalkPos(|es|, d, reverse));
  }


  /** `result` is the reply of a walk of `k` steps from `first`. */
  ghost predicate Replied<V>(result: seq<Item>, es: seq<Element<V>>, first: int, k: int, reverse: bool, withScores: bool)
    requires 0 <= first && 0 <= k && first + k <= |es|
  {
    result == Emit(Walked(es, first, k, reverse), withScores)
  }

  /** The node at the walk's step `d`: nil once the walk has left the list,
      in either direction. */
  function Cursor(order: seq<int>, d: int, reverse: bool): int
    requires 0 <= d
  {
    if d >= |order| then Nil else order[WalkPos(|order|, d, reverse)]
  }

  /** One step of the walk: the node at step `d` carries that position's
      element, and getNextNode leads to the node of step d + 1. */
  lemma WalkStep<V>(ns: seq<Node<V>>, order: seq<int>, es: seq<Element<V>>, first: int, d: int, reverse: bool)
    requires Chain(ns, order, es) && 0 <= first && 0 <= first + d < |es|
    ensures var j, x := WalkPos(|es|, first + d, reverse), order[WalkPos(|es|, first + d, reverse)];
      && 0 <= x < |ns| && |ns[x].levels| >= 1 && x != Nil
      && ns[x].member == es[j].member && ns[x].score == es[j].score
      && GetNextNode(ns[x], reverse) == Cursor(order, first + d + 1, reverse)
  {
    assert LinkedAt(ns, order, es, WalkPos(|es|, first + d, reverse));
  }

  /** The position of the walk's step `d`: counted from the front, or from
      the back when `reverse`. */
  function WalkPos(n: int, d: int, reverse: bool): int {
    if reverse then n - 1 - d else d
  }

  /** The elements a walk of `k` steps from `first` passes, in walking order. */
  function Walked<V>(es: seq<Element<V>>, first: int, k: int, reverse: bool): seq<Element<V>>
    requires 0 <= first && 0 <= k && first + k <= |es|
  {
    if reverse then Reversed(es[|es| - first - k .. |es| - first]) else es[first .. first + k]
  }

  /** One iteration of findRange's loop: the node at step `d` is a real
      node, getNextNode leads to step d + 1, and its member (and score)
      extend the reply of `d` steps to the reply of d + 1 steps. */
  lemma WalkAdvance<V>(ns: seq<Node<V>>, order: seq<int>, es: seq<Element<V>>, first: int, d: int,
                       reverse: bool, withScores: bool, x: int, result: seq<Item>)
    requires Chain(ns, order, es) && 0 <= first && 0 <= d && first + d < |es|
    requires x == Cursor(order, first + d, reverse) && Replied(result, es, first, d, reverse, withScores)
    ensures 0 <= x < |ns| && |ns[x].levels| >= 1
    ensures GetNextNode(ns[x], reverse) == Cursor(order, first + d + 1, reverse)
    ensures Replied(result + (if withScores then [Member(ns[x].member), Item.Score(ns[x].score)] else [Member(ns[x].member)]),
                    es, first, d + 1, reverse, withScores)
  {
    var j := WalkPos(|es|, first + d, reverse);
    WalkStep(ns, order, es, first, d, reverse);
    WalkedGrows(es, first, d, reverse);
    EmitGrows(Walked(es, first, d, reverse), es[j], withScores);
  }

  /** One more step of a walk appends the element at the step's position. */
  lemma WalkedGrows<V>(es: seq<Element<V>>, first: int, k: int, reverse: bool)
    requires 0 <= first && 0 <= k && first + k < |es|
    ensures Walked(es, first, k + 1, reverse) == Walked(es, first, k, reverse) + [es[WalkPos(|es|, first + k, reverse)]]
  {
    if reverse {
      ReversedGrows(es, |es| - first - k, |es| - first);
    } else {
      assert es[first .. first + k + 1] == es[first .. first + k] + [es[first + k]];
    }
  }
}
