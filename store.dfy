/** The ZSet store: a map from key to one sorted set (a zset). Every
    command looks its key up first; a missing key answers as the command
    documents it (0, false, -1, an empty reply, an error) or, for two
    commands, by dereferencing nil. */
module Store {
  import opened Ordering
  import opened Arena
  import opened SetSpec
  import opened SkipLists
  import opened SortedSets
  import opened ScoreRanges

  /** The options of ZRangeByScore, which the command never reads. */
  datatype RangeConfig = RangeConfig(limit: int, excludeStart: bool, excludeEnd: bool)

  /** The store's invariant over its three fields: every stored set is
      valid, has held a member (so its tail is never the head), holds what
      `sets` says, and owns its own objects, which lie in `repr`. */
  ghost predicate Stored<V(0)>(records: map<string, SortedSet<V>>, sets: map<string, seq<Element<V>>>, repr: set<object>)
    reads repr
  {
    && records.Keys == sets.Keys
    && (forall k {:trigger records[k]} :: k in records ==> records[k] in repr && records[k].zsl in repr)
    && (forall k {:trigger Intact(records[k], sets[k])} :: k in records ==> Intact(records[k], sets[k]))
    && (forall k, k' {:trigger records[k], records[k']} :: k in records && k' in records && k != k' ==>
          records[k] != records[k'] && records[k].zsl != records[k'].zsl)
  }

  /** One stored set: valid, it has held a member (its tail is never the
      head), and it holds `es`. */
  ghost predicate Intact<V(0)>(zs: SortedSet<V>, es: seq<Element<V>>)
    reads zs, zs.zsl
  {
    zs.Valid() && zs.zsl.tail != Head && zs.Contents() == es
  }

  /** What the invariant says about the set under one key. */
  lemma StoredAt<V(0)>(records: map<string, SortedSet<V>>, sets: map<string, seq<Element<V>>>, repr: set<object>, key: string)
    requires Stored(records, sets, repr) && key in records
    ensures records[key] in repr && records[key].zsl in repr
    ensures records[key].Valid() && records[key].zsl.tail != Head && records[key].Contents() == sets[key]
  {
    assert Intact(records[key], sets[key]);
  }

  /** Taking one key out keeps the invariant. */
  lemma StoredWithout<V(0)>(records: map<string, SortedSet<V>>, sets: map<string, seq<Element<V>>>, repr: set<object>, key: string)
    requires Stored(records, sets, repr) && key in records
    ensures Stored(records - {key}, sets - {key}, repr)
  {
  }

  /** The other sets do not own the objects of the set under `key`. */
  lemma StoredApart<V(0)>(records: map<string, SortedSet<V>>, sets: map<string, seq<Element<V>>>, repr: set<object>, key: string)
    requires Stored(records, sets, repr) && key in records
    ensures forall k {:trigger records[k]} :: k in records && k != key ==>
      records[k] !in {records[key], records[key].zsl} && records[k].zsl !in {records[key], records[key].zsl}
  {
  }

  /** Taking one key out keeps the invariant over a footprint without the
      objects of its set. */
  lemma StoredRemoved<V(0)>(records: map<string, SortedSet<V>>, sets: map<string, seq<Element<V>>>, repr: set<object>, key: string)
    requires Stored(records, sets, repr) && key in records
    ensures Stored(records - {key}, sets - {key}, repr - {records[key], records[key].zsl})
  {
    var rest, gone := records - {key}, {records[key], records[key].zsl};
    StoredWithout(records, sets, repr, key);
    StoredApart(records, sets, repr, key);
    forall k | k in rest
      ensures rest[k] !in gone && rest[k].zsl !in gone
    {
      assert rest[k] == records[k];
    }
    StoredShrink(rest, sets - {key}, repr, gone);
  }

  /** The stored sets own none of the objects outside the footprint. */
  lemma StoredOutside<V(0)>(records: map<string, SortedSet<V>>, sets: map<string, seq<Element<V>>>, repr: set<object>, zs: SortedSet<V>)
    requires Stored(records, sets, repr) && zs !in repr && zs.zsl !in repr
    ensures forall k {:trigger records[k]} :: k in records ==> records[k] != zs && records[k].zsl != zs.zsl
  {
  }

  /** Putting a valid set over fresh objects under a new key keeps the
      invariant over the footprint grown by those objects. */
  lemma StoredPut<V(0)>(records: map<string, SortedSet<V>>, sets: map<string, seq<Element<V>>>, repr: set<object>,
                        key: string, zs: SortedSet<V>)
    requires Stored(records, sets, repr) && key !in records
    requires zs !in repr && zs.zsl !in repr
    requires zs.Valid() && zs.zsl.tail != Head
    ensures Stored(records[key := zs], sets[key := zs.Contents()], repr + {zs, zs.zsl})
  {
    StoredOutside(records, sets, repr, zs);
    StoredGrow(records, sets, repr, {zs, zs.zsl});
    StoredWith(records, sets, repr + {zs, zs.zsl}, key, zs);
  }

  /** Objects that no stored set owns can leave the footprint. */
  lemma StoredShrink<V(0)>(records: map<string, SortedSet<V>>, sets: map<string, seq<Element<V>>>, repr: set<object>, gone: set<object>)
    requires Stored(records, sets, repr)
    requires forall k {:trigger records[k]} :: k in records ==> records[k] !in gone && records[k].zsl !in gone
    ensures Stored(records, sets, repr - gone)
  {
  }

  /** Objects outside the footprint can join it. */
  lemma StoredGrow<V(0)>(records: map<string, SortedSet<V>>, sets: map<string, seq<Element<V>>>, repr: set<object>, more: set<object>)
    requires Stored(records, sets, repr)
    ensures Stored(records, sets, repr + more)
  {
  }

  /** Putting a valid set whose objects no other set owns under a new key
      keeps the invariant. */
  lemma StoredWith<V(0)>(records: map<string, SortedSet<V>>, sets: map<string, seq<Element<V>>>, repr: set<object>,
                         key: string, zs: SortedSet<V>)
    requires Stored(records, sets, repr) && key !in records
    requires zs in repr && zs.zsl in repr
    requires forall k {:trigger records[k]} :: k in records ==> records[k] != zs && records[k].zsl != zs.zsl
    requires zs.Valid() && zs.zsl.tail != Head
    ensures Stored(records[key := zs], sets[key := zs.Contents()], repr)
  {
    WithOwned(records, sets, repr, key, zs);
    WithValid(records, sets, repr, key, zs);
    WithApart(records, sets, repr, key, zs);
  }

  lemma WithOwned<V(0)>(records: map<string, SortedSet<V>>, sets: map<string, seq<Element<V>>>, repr: set<object>,
                        key: string, zs: SortedSet<V>)
    requires Stored(records, sets, repr) && zs in repr && zs.zsl in repr
    ensures var r := records[key := zs];
      forall k {:trigger r[k]} :: k in r ==> r[k] in repr && r[k].zsl in repr
  {
  }

  lemma WithValid<V(0)>(records: map<string, SortedSet<V>>, sets: map<string, seq<Element<V>>>, repr: set<object>,
                        key: string, zs: SortedSet<V>)
    requires Stored(records, sets, repr)
    requires zs.Valid() && zs.zsl.tail != Head
    ensures var r, s := records[key := zs], sets[key := zs.Contents()];
      forall k {:trigger Intact(r[k], s[k])} :: k in r ==> Intact(r[k], s[k])
  {
    var r, s := records[key := zs], sets[key := zs.Contents()];
    forall k | k in r
      ensures Intact(r[k], s[k])
    {
      if k != key {
        assert Intact(records[k], sets[k]);
      }
    }
  }

  lemma WithApart<V(0)>(records: map<string, SortedSet<V>>, sets: map<string, seq<Element<V>>>, repr: set<object>,
                        key: string, zs: SortedSet<V>)
    requires Stored(records, sets, repr) && key !in records
    requires forall k {:trigger records[k]} :: k in records ==> records[k] != zs && records[k].zsl != zs.zsl
    ensures var r := records[key := zs];
      forall k, k' {:trigger r[k], r[k']} :: k in r && k' in r && k != k' ==> r[k] != r[k'] && r[k].zsl != r[k'].zsl
  {
  }

  /** Taking a key out and putting its value back gives the same map. */
  lemma PutBack<K, T>(m: map<K, T>, key: K, v: T)
    requires key in m && m[key] == v
    ensures (m - {key})[key := v] == m
  {
  }

  /** Replacing a key's value does not depend on whether it was taken out
      first. */
  lemma Replace<K, T>(m: map<K, T>, key: K, v: T)
    ensures (m - {key})[key := v] == m[key := v]
  {
  }

  class ZSet<V(0)> {
    var records: map<string, SortedSet<V>>
    /** The abstract store: each key's elements in ascending order. */
    ghost var sets: map<string, seq<Element<V>>>
    ghost var Repr: set<object>

    ghost predicate Valid()
      reads this, Repr
    {
      this !in Repr && Stored(records, sets, Repr)
    }

    /** New: an empty store. */
    constructor ()
      ensures Valid() && sets == map[]
    {
      records := map[];
      sets := map[];
      Repr := {};
    }

    /** Sets the three fields together, once the invariant is known to
        hold of their new values. */
    method Install(newRecords: map<string, SortedSet<V>>, ghost newSets: map<string, seq<Element<V>>>, ghost newRepr: set<object>)
      requires this !in newRepr && Stored(newRecords, newSets, newRepr)
      modifies this
      ensures Valid()
      ensures records == newRecords && sets == newSets && Repr == newRepr
    {
      records, sets, Repr := newRecords, newSets, newRepr;
    }

    /** ZAdd: creates the key's set when it is missing, then adds or
        updates the member. `lvl` is the height getRandomLevel draws for a
        new node. Always answers 1. */
    method ZAdd(key: string, score: int, member: string, value: V, lvl: int) returns (r: int)
      requires Valid() && 1 <= lvl <= MaxLevel
      modifies this, Repr
      ensures Valid() && fresh(Repr - old(Repr))
      ensures r == 1
      ensures sets == old(sets)[key := Added(if key in old(sets) then old(sets)[key] else [], member, score, value)]
    {
      if key in records {
        AddToSet(key, score, member, value, lvl);
      } else {
        AddNewSet(key, score, member, value, lvl);
      }
      return 1;
    }

    /** ZAdd on a key the store holds. */
    method AddToSet(key: string, score: int, member: string, value: V, lvl: int)
      requires Valid() && 1 <= lvl <= MaxLevel && key in sets
      modifies this, Repr
      ensures Valid() && Repr == old(Repr)
      ensures sets == old(sets)[key := Added(old(sets)[key], member, score, value)]
    {
      StoredAt(records, sets, Repr, key);
      var zs := records[key];
      ghost var rest, restSets, restRepr := records - {key}, sets - {key}, Repr - {zs, zs.zsl};
      StoredRemoved(records, sets, Repr, key);
      PutBack(records, key, zs);
      assert Repr == restRepr + {zs, zs.zsl};
      zs.Add(score, member, value, lvl);
      assert Stored(rest, restSets, restRepr);
      StoredPut(rest, restSets, restRepr, key, zs);
      ghost var c := zs.Contents();
      Replace(sets, key, c);
      Install(records, restSets[key := c], Repr);
    }

    /** ZAdd on a key the store does not hold: a new set with one member. */
    method AddNewSet(key: string, score: int, member: string, value: V, lvl: int)
      requires Valid() && 1 <= lvl <= MaxLevel && key !in sets
      modifies this
      ensures Valid() && fresh(Repr - old(Repr))
      ensures sets == old(sets)[key := Added([], member, score, value)]
    {
      var zs := new SortedSet();
      zs.Add(score, member, value, lvl);
      assert Stored(records, sets, Repr);
      StoredPut(records, sets, Repr, key, zs);
      Install(records[key := zs], sets[key := zs.Contents()], Repr + {zs, zs.zsl});
    }

    /** ZScore: whether the key's set holds the member, and its score (0
        when it does not). */
    method ZScore(key: string, member: string) returns (ok: bool, score: int)
      requires Valid()
      ensures ok <==> key in sets && member in Members(sets[key])
      ensures ok ==> score == sets[key][Find(sets[key], member).value].score
      ensures !ok ==> score == 0
    {
      if key !in records {
        return false, 0;
      }
      StoredAt(records, sets, Repr, key);
      ok, score := records[key].Score(member);
    }

    /** ZCard: the number of members, 0 for a missing key. */
    method ZCard(key: string) returns (n: int)
      requires Valid()
      ensures n == if key in sets then |sets[key]| else 0
    {
      if key !in records {
        return 0;
      }
      StoredAt(records, sets, Repr, key);
      n := records[key].Card();
    }

    /** ZRank: the member's 0-based position from the lowest score, -1 for
        a missing key or member; getRank's answer for member "" is 0 unless
        a node before it reaches the top active level. */
    method ZRank(key: string, member: string) returns (rank: int)
      requires Valid()
      ensures key !in sets || member !in Members(sets[key]) ==> rank == -1
      ensures key in sets && member in Members(sets[key]) && member != "" ==> Find(sets[key], member) == Some(rank)
      ensures key in sets && "" in Members(sets[key]) && member == "" ==> rank == 0 || Find(sets[key], "") == Some(rank)
    {
      if key !in records {
        return -1;
      }
      StoredAt(records, sets, Repr, key);
      rank := records[key].Rank(member);
    }

    /** ZRevRank: the member's 0-based position from the highest score, -1
        for a missing key or member (with getRank's answer for member ""). */
    method ZRevRank(key: string, member: string) returns (rank: int)
      requires Valid()
      ensures key !in sets || member !in Members(sets[key]) ==> rank == -1
      ensures key in sets && member in Members(sets[key]) && member != "" ==> Find(sets[key], member) == Some(|sets[key]| - 1 - rank)
      ensures key in sets && "" in Members(sets[key]) && member == "" ==>
        rank == |sets[key]| - 1 || Find(sets[key], "") == Some(|sets[key]| - 1 - rank)
    {
      if key !in records {
        return -1;
      }
      StoredAt(records, sets, Repr, key);
      rank := records[key].RevRank(member);
    }

    /** ZRem: removes the member; true exactly when the key's set held it.
        The key stays even when its set becomes empty. */
    method ZRem(key: string, member: string) returns (removed: bool)
      requires Valid()
      modifies this, Repr
      ensures Valid() && Repr == old(Repr)
      ensures removed <==> key in old(sets) && member in Members(old(sets)[key])
      ensures sets == if key in old(sets) then old(sets)[key := Without(old(sets)[key], member)] else old(sets)
    {
      if key !in records {
        return false;
      }
      StoredAt(records, sets, Repr, key);
      var zs := records[key];
      ghost var rest, restSets, restRepr := records - {key}, sets - {key}, Repr - {zs, zs.zsl};
      StoredRemoved(records, sets, Repr, key);
      PutBack(records, key, zs);
      assert Repr == restRepr + {zs, zs.zsl};
      removed := zs.Remove(member);
      assert Stored(rest, restSets, restRepr);
      StoredPut(rest, restSets, restRepr, key, zs);
      ghost var c := zs.Contents();
      Replace(sets, key, c);
      Install(records, restSets[key := c], Repr);
    }

    /** ZKeyExists: whether the store holds the key. */
    method ZKeyExists(key: string) returns (b: bool)
      requires Valid()
      ensures b <==> key in sets
    {
      return key in records;
    }

    /** ZClear: drops the key and its set; nothing happens for a missing
        key. */
    method ZClear(key: string)
      requires Valid()
      modifies this
      ensures Valid() && Repr == old(Repr)
      ensures sets == old(sets) - {key}
    {
      if key in records {
        StoredWithout(records, sets, Repr, key);
        records := records - {key};
        sets := sets - {key};
      } else {
        assert sets - {key} == sets;
      }
    }

    /** ZKeys: every key once, in the map's iteration order, which the
        model leaves open. */
    method ZKeys() returns (keys: seq<string>)
      requires Valid()
      ensures forall k :: k in keys <==> k in sets
      ensures |keys| == |sets|
    {
      keys := [];
      var rest := records.Keys;
      while rest != {}
        invariant rest <= records.Keys
        invariant forall k :: k in keys <==> k in records.Keys - rest
        invariant |keys| + |rest| == |records.Keys|
        decreases |rest|
      {
        var k :| k in rest;
        keys := keys + [k];
        rest := rest - {k};
      }
    }

    /** ZRange: the members at ranks [start, stop] (see findRange); a start
        past the stop is left to findRange. */
    method ZRange(key: string, start: int, stop: int) returns (result: seq<Item>)
      requires Valid() && IsInt64(start) && IsInt64(stop)
      requires key in sets ==> |sets[key]| <= MaxInt64
      ensures result == if key in sets then RankRange(sets[key], start, stop, false, false) else []
    {
      if key !in records {
        return [];
      }
      StoredAt(records, sets, Repr, key);
      result := records[key].FindRange(start, stop, false, false);
    }

    /** ZRangeWithScore: members and scores at ranks [start, stop]; empty
        for a missing key or start > stop. */
    method ZRangeWithScore(key: string, start: int, stop: int) returns (result: seq<Item>)
      requires Valid() && IsInt64(start) && IsInt64(stop)
      requires key in sets ==> |sets[key]| <= MaxInt64
      ensures result == if key !in sets || start > stop then [] else RankRange(sets[key], start, stop, false, true)
    {
      if key !in records || start > stop {
        return [];
      }
      StoredAt(records, sets, Repr, key);
      result := records[key].FindRange(start, stop, false, true);
    }

    /** ZRevRange: the members at ranks [start, stop] counted from the
        highest score; empty for a missing key or start > stop. */
    method ZRevRange(key: string, start: int, stop: int) returns (result: seq<Item>)
      requires Valid() && IsInt64(start) && IsInt64(stop)
      requires key in sets ==> |sets[key]| <= MaxInt64
      ensures result == if key !in sets || start > stop then [] else RankRange(sets[key], start, stop, true, false)
    {
      if key !in records || start > stop {
        return [];
      }
      StoredAt(records, sets, Repr, key);
      result := records[key].FindRange(start, stop, true, false);
    }

    /** ZRevRangeWithScore: members and scores at ranks [start, stop]
        counted from the highest score; empty for a missing key or
        start > stop. */
    method ZRevRangeWithScore(key: string, start: int, stop: int) returns (result: seq<Item>)
      requires Valid() && IsInt64(start) && IsInt64(stop)
      requires key in sets ==> |sets[key]| <= MaxInt64
      ensures result == if key !in sets || start > stop then [] else RankRange(sets[key], start, stop, true, true)
    {
      if key !in records || start > stop {
        return [];
      }
      StoredAt(records, sets, Repr, key);
      result := records[key].FindRange(start, stop, true, true);
    }

    /** ZRetrieveByRank: [member, score] at the 0-based rank, the sentinel
        ["", MinInt64] for a rank outside the zs, [] for a missing key. */
    method ZRetrieveByRank(key: string, rank: int) returns (result: seq<Item>)
      requires Valid() && IsInt64(rank)
      requires key in sets ==> |sets[key]| <= MaxInt64
      ensures key !in sets ==> result == []
      ensures key in sets ==>
        var es := sets[key];
        result == if 0 <= rank < |es| then [Member(es[rank].member), Item.Score(es[rank].score)]
                  else [Member(""), Item.Score(MinInt64)]
    {
      if key !in records {
        return [];
      }
      StoredAt(records, sets, Repr, key);
      var member, score := records[key].GetNodeByRank(rank, false);
      return [Member(member), Item.Score(score)];
    }

    /** ZRevRetrieveByRank: [member, score] at the 0-based rank counted
        from the highest score, the sentinel ["", MinInt64] for a rank
        outside the zs, [] for a missing key. */
    method ZRevRetrieveByRank(key: string, rank: int) returns (result: seq<Item>)
      requires Valid() && IsInt64(rank)
      requires key in sets ==> |sets[key]| <= MaxInt64
      ensures key !in sets ==> result == []
      ensures key in sets ==>
        var es := sets[key];
        result == if 0 <= rank < |es| then [Member(es[|es| - 1 - rank].member), Item.Score(es[|es| - 1 - rank].score)]
                  else [Member(""), Item.Score(MinInt64)]
    {
      if key !in records {
        return [];
      }
      StoredAt(records, sets, Repr, key);
      var member, score := records[key].GetNodeByRank(rank, true);
      return [Member(member), Item.Score(score)];
    }

    /** ZPopMin: removes and returns the lowest element; an error for a
        missing key, nothing for an empty zs. */
    method ZPopMin(key: string) returns (r: Outcome<Option<Element<V>>>)
      requires Valid()
      modifies this, Repr
      ensures Valid() && Repr == old(Repr)
      ensures key !in old(sets) ==> r == Err("key does not exist") && sets == old(sets)
      ensures key in old(sets) ==>
        var es := old(sets)[key];
        if |es| == 0 then r == Ok(None) && sets == old(sets)
        else r == Ok(Some(es[0])) && sets == old(sets)[key := es[1..]]
    {
      if key !in records {
        return Err("key does not exist");
      }
      StoredAt(records, sets, Repr, key);
      var zs := records[key];
      ghost var es := zs.Contents();
      zs.Ends();
      var first := zs.zsl.nodes[Head].levels[0].forward;
      if first == Nil {
        return Ok(None);
      }
      var node := zs.zsl.nodes[first];
      var _ := ZRem(key, node.member);
      WithoutFirst(es);
      return Ok(Some(Element(node.member, node.score, node.value)));
    }

    /** ZPopMax: removes and returns the highest element, read through the
        tail; an error for a missing key, nothing for an emptied zs. */
    method ZPopMax(key: string) returns (r: Outcome<Option<Element<V>>>)
      requires Valid()
      modifies this, Repr
      ensures Valid() && Repr == old(Repr)
      ensures key !in old(sets) ==> r == Err("key does not exist") && sets == old(sets)
      ensures key in old(sets) ==>
        var es := old(sets)[key];
        if |es| == 0 then r == Ok(None) && sets == old(sets)
        else r == Ok(Some(es[|es| - 1])) && sets == old(sets)[key := es[..|es| - 1]]
    {
      if key !in records {
        return Err("key does not exist");
      }
      StoredAt(records, sets, Repr, key);
      var zs := records[key];
      ghost var es := zs.Contents();
      zs.Ends();
      var last := zs.zsl.tail;
      if last == Nil {
        return Ok(None);
      }
      var node := zs.zsl.nodes[last];
      zs.ContentsSorted();
      var _ := ZRem(key, node.member);
      WithoutLast(es);
      return Ok(Some(Element(node.member, node.score, node.value)));
    }

    /** ZScoreRange: members and scores with scores in [min, max], lowest
        first; empty for a missing key or min > max. limitScores panics on
        a zs that was emptied. */
    method ZScoreRange(key: string, min: int, max: int) returns (r: Outcome<seq<Item>>)
      requires Valid()
      ensures key !in sets || min > max ==> r == Ok([])
      ensures key in sets && min <= max ==>
        r == if |sets[key]| == 0 then Panic else Ok(Emit(InScores(sets[key], min, max), true))
    {
      if key !in records || min > max {
        return Ok([]);
      }
      StoredAt(records, sets, Repr, key);
      var item := records[key].zsl;
      var limits := LimitScores(item, min, max);
      if limits.Panic? {
        return Panic;
      }
      var (lo, hi) := limits.value;
      var result := CollectElementsInRange(item, lo, hi);
      return Ok(result);
    }

    /** ZRevScoreRange: members and scores with scores in [min, max],
        highest first; empty for a missing key or min > max, a panic on an
        emptied zs. When every score is above `max` and the lowest is at
        most 0, the reply holds the head's "" and 0. */
    method ZRevScoreRange(key: string, max: int, min: int) returns (r: Outcome<seq<Item>>)
      requires Valid()
      ensures key !in sets || min > max ==> r == Ok([])
      ensures key in sets && min <= max && |sets[key]| == 0 ==> r == Panic
      ensures key in sets && min <= max && |sets[key]| > 0 ==>
        var es := sets[key];
        r == Ok(Emit(Reversed(InScores(es, min, max)), true)
                + (if max < es[0].score <= 0 then [Member(""), Item.Score(0)] else []))
    {
      if key !in records || min > max {
        return Ok([]);
      }
      StoredAt(records, sets, Repr, key);
      var item := records[key].zsl;
      var limits := LimitScores(item, min, max);
      if limits.Panic? {
        return Panic;
      }
      var (lo, hi) := limits.value;
      ghost var es := item.Contents();
      assert es[0].score <= es[|es| - 1].score by {
        ElementKeys(item.Snap(), item.order);
        ScoresAscend(es, 0, |es| - 1);
      }
      var result := CollectElementsInReverseRange(item, hi, lo);
      return Ok(result);
    }

    /** ZRangeByScore as written: its guard returns the empty reply for
        every key that exists, and for a missing key it reads the set
        through a nil pointer. */
    method ZRangeByScore(key: string, start: int, end: int, config: Option<RangeConfig>) returns (r: Outcome<seq<Element<V>>>)
      requires Valid()
      ensures r == if key in sets then Ok([]) else Panic
    {
      if key in records {
        return Ok([]);
      }
      return Panic;
    }
  }
}
