/** The score-window queries behind ZScoreRange and ZRevScoreRange:
    limitScores clamps the window to the list's own scores, and the two
    collectors descend the skip list to the window's edge and then walk the
    bottom level, forward or along the back links. */
module ScoreRanges {
  import opened Ordering
  import opened Arena
  import opened SetSpec
  import opened SkipLists

  /** limitScores: raises `min` to the lowest score and lowers `max` to the
      highest. It reads the first node through the head's bottom link, so on
      a list without nodes it dereferences nil. */
  function LimitScores<V(0)>(item: SkipList<V>, min: int, max: int): (r: Outcome<(int, int)>)
    reads item
    requires item.Valid()
    ensures r.Panic? <==> |item.Contents()| == 0
    ensures r.Ok? <==> |item.Contents()| > 0
    ensures r.Ok? ==>
      var es := item.Contents();
      && r.value == (Max(min, es[0].score), Min(max, es[|es| - 1].score))
      && InScores(es, r.value.0, r.value.1) == InScores(es, min, max)
  {
    var s, order := item.Snap(), item.order;
    BottomLink(s, order, 0);
    var first := item.nodes[Head].levels[0].forward;
    if first == Nil then Panic
    else
      var es := item.Contents();
      assert es[0].score == item.nodes[first].score;
      assert item.tail == order[|es| - 1];
      ElementKeys(s, order);
      ClampKeepsWindow(es, min, max);
      var lo := if min < item.nodes[first].score then item.nodes[first].score else min;
      var hi := if max > item.nodes[item.tail].score then item.nodes[item.tail].score else max;
      Ok((lo, hi))
  }

  /** collectElementsInRange: every member with its score whose score lies in
      [min, max], lowest first. The descent stops before the first score not
      below `min`; the walk goes on while the score is at most `max`. */
  method CollectElementsInRange<V(0)>(item: SkipList<V>, min: int, max: int) returns (result: seq<Item>)
    requires item.Valid()
    ensures result == Emit(InScores(item.Contents(), min, max), true)
  {
    ghost var s, order := item.Snap(), item.order;
    ghost var es := item.Contents();
    ghost var k := Key(min, "");
    ghost var c := CountBelow(Keys(s, order), k);
    ghost var d := CountBelow(Keys(s, order), Key(max + 1, ""));
    var ns := item.nodes;
    var x := DescendBelow(ns, item.level, min, s, order);
    BottomLink(s, order, c);
    x := ns[x].levels[0].forward;
    ElementKeys(s, order);
    ScoreCounts(es, max + 1);
    Chained(s, order);
    result := WalkUpTo(ns, x, max, order, es, c, d);
    WindowIsStretch(es, min, max);
  }

  /** collectElementsInReverseRange: every member with its score whose score
      lies in [min, max], highest first. The descent stops on the last node
      whose score is at most `max`, and the walk follows the back links while
      the score is at least `min`. When no node is at most `max` the descent
      stops on the head, whose member "" and score 0 are then reported if
      0 >= min. */
  method CollectElementsInReverseRange<V(0)>(item: SkipList<V>, max: int, min: int) returns (result: seq<Item>)
    requires item.Valid()
    ensures var es := item.Contents();
      result == Emit(Reversed(InScores(es, min, max)), true)
                + (if (|es| == 0 || max < es[0].score) && min <= 0 then [Member(""), Item.Score(0)] else [])
  {
    ghost var s, order := item.Snap(), item.order;
    ghost var es := item.Contents();
    ghost var k := Key(max + 1, "");
    ghost var d := CountBelow(Keys(s, order), k);
    ghost var c := CountBelow(Keys(s, order), Key(min, ""));
    var ns := item.nodes;
    var x := DescendAtMost(ns, item.level, max, s, order);
    ElementKeys(s, order);
    ScoreCounts(es, min);
    ScoreCounts(es, max + 1);
    Chained(s, order);
    result := WalkDownTo(ns, x, min, order, es, c, d);
    ReverseReply(es, min, max, c, d);
  }

  /** The reply of the backward walk, stated through the two counts, is the
      window highest first, followed by the head's pair when no score is at
      most `max` and 0 >= min. */
  lemma ReverseReply<V>(es: seq<Element<V>>, min: int, max: int, c: int, d: int)
    requires Ascending(KeysOf(es))
    requires c == CountBelow(KeysOf(es), Key(min, "")) && d == CountBelow(KeysOf(es), Key(max + 1, ""))
    ensures (if d > 0 then Emit(Reversed(es[Min(c, d) .. d]), true) else if min <= 0 then [Member(""), Item.Score(0)] else [])
         == Emit(Reversed(InScores(es, min, max)), true)
            + (if (|es| == 0 || max < es[0].score) && min <= 0 then [Member(""), Item.Score(0)] else [])
  {
    WindowIsStretch(es, min, max);
    ScoreCounts(es, max + 1);
    if c > d {
      assert es[Min(c, d) .. d] == [] == es[c .. Max(c, d)];
    }
  }

  /** collectElementsInReverseRange as evidently intended: when the descent
      ends on the head no node is at most `max`, and the reply is empty. */
  method CollectElementsInReverseRangeGuarded<V(0)>(item: SkipList<V>, max: int, min: int) returns (result: seq<Item>)
    requires item.Valid()
    ensures result == Emit(Reversed(InScores(item.Contents(), min, max)), true)
  {
    ghost var s, order := item.Snap(), item.order;
    ghost var es := item.Contents();
    ghost var d := CountBelow(Keys(s, order), Key(max + 1, ""));
    ghost var c := CountBelow(Keys(s, order), Key(min, ""));
    var ns := item.nodes;
    var x := DescendAtMost(ns, item.level, max, s, order);
    ElementKeys(s, order);
    WindowIsStretch(es, min, max);
    if x == Head {
      assert d == 0;
      return [];
    }
    ScoreCounts(es, min);
    ScoreCounts(es, max + 1);
    Chained(s, order);
    result := WalkDownTo(ns, x, min, order, es, c, d);
  }

  /** The reply of collectElementsInReverseRange as written: a window below
      every score, with a lowest score of at most 0, selects no element, yet
      the reply reports the head's member "" with score 0. */
  lemma PhantomHead<V>(es: seq<Element<V>>, min: int, max: int)
    requires Ascending(KeysOf(es)) && |es| > 0
    requires min <= max < es[0].score <= 0
    ensures InScores(es, min, max) == []
    ensures Emit(Reversed(InScores(es, min, max)), true)
              + (if (|es| == 0 || max < es[0].score) && min <= 0 then [Member(""), Item.Score(0)] else [])
            == [Member(""), Item.Score(0)]
  {
    WindowIsStretch(es, min, max);
    ScoreCounts(es, max + 1);
    ScoresAscend(es, 0, 0);
  }

  /** The descent of collectElementsInRange: on every active level, forward
      while the next score is below `min`. It ends on the node of rank
      c = the number of scores below `min` (the head when c = 0). */
  method DescendBelow<V>(ns: seq<Node<V>>, level: int, min: int, ghost s: State<V>, ghost order: seq<int>)
      returns (x: int)
    requires Wf(s, order) && ns == s.nodes && level == s.level
    ensures x == At(order, CountBelow(Keys(s, order), Key(min, "")))
  {
    ghost var k := Key(min, "");
    ghost var c := CountBelow(Keys(s, order), k);
    x := Head;
    ghost var cur := 0;
    var i := level - 1;
    while i >= 0
      invariant -1 <= i < s.level
      invariant 0 <= cur <= c && x == At(order, cur)
      invariant i >= 0 ==> i < Ht(s, order, cur)
      invariant i + 1 < s.level ==> Frontier(s, order, cur, i + 1, c)
      invariant i + 1 == s.level ==> cur == 0
      invariant i < 0 ==> cur == c
    {
      Step(s, order, cur, i, k);
      while ns[x].levels[i].forward != Nil && ns[ns[x].levels[i].forward].score < min
        invariant 0 <= cur <= c && x == At(order, cur) && i < Ht(s, order, cur)
        invariant var lk := s.nodes[x].levels[i];
          lk.forward != Nil ==> 1 <= lk.forward < |s.nodes| && (Below(KeyOf(s.nodes[lk.forward]), k) <==> cur + lk.span <= c)
        decreases s.length - cur
      {
        Step(s, order, cur, i, k);
        cur := cur + ns[x].levels[i].span;
        x := ns[x].levels[i].forward;
        Step(s, order, cur, i, k);
      }
      Stop(s, order, cur, i, c);
      i := i - 1;
    }
  }

  /** The descent of collectElementsInReverseRange: on every active level,
      forward while the next score is at most `max`. It ends on the node of
      rank d = the number of scores at most `max` (the head when d = 0). */
  method DescendAtMost<V>(ns: seq<Node<V>>, level: int, max: int, ghost s: State<V>, ghost order: seq<int>)
      returns (x: int)
    requires Wf(s, order) && ns == s.nodes && level == s.level
    ensures x == At(order, CountBelow(Keys(s, order), Key(max + 1, "")))
  {
    ghost var k := Key(max + 1, "");
    ghost var d := CountBelow(Keys(s, order), k);
    x := Head;
    ghost var cur := 0;
    var i := level - 1;
    while i >= 0
      invariant -1 <= i < s.level
      invariant 0 <= cur <= d && x == At(order, cur)
      invariant i >= 0 ==> i < Ht(s, order, cur)
      invariant i + 1 < s.level ==> Frontier(s, order, cur, i + 1, d)
      invariant i + 1 == s.level ==> cur == 0
      invariant i < 0 ==> cur == d
    {
      Step(s, order, cur, i, k);
      while ns[x].levels[i].forward != Nil && ns[ns[x].levels[i].forward].score <= max
        invariant 0 <= cur <= d && x == At(order, cur) && i < Ht(s, order, cur)
        invariant var lk := s.nodes[x].levels[i];
          lk.forward != Nil ==> 1 <= lk.forward < |s.nodes| && (Below(KeyOf(s.nodes[lk.forward]), k) <==> cur + lk.span <= d)
        decreases s.length - cur
      {
        Step(s, order, cur, i, k);
        cur := cur + ns[x].levels[i].span;
        x := ns[x].levels[i].forward;
        Step(s, order, cur, i, k);
      }
      Stop(s, order, cur, i, d);
      i := i - 1;
    }
  }

  /** The walk of collectElementsInRange: from position `c` forward while the
      score is at most `max`, that is up to position d. */
  method WalkUpTo<V>(ns: seq<Node<V>>, x0: int, max: int,
                     ghost order: seq<int>, ghost es: seq<Element<V>>, ghost c: int, ghost d: int)
      returns (result: seq<Item>)
    requires Chain(ns, order, es) && 0 <= c <= |es| && 0 <= d <= |es|
    requires x0 == if c < |es| then order[c] else Nil
    requires forall i :: 0 <= i < |es| ==> (i < d <==> es[i].score <= max)
    ensures result == Emit(es[c .. Max(c, d)], true)
  {
    var x := x0;
    ghost var j := c;
    result := [];
    while x != Nil && ns[x].score <= max
      invariant c <= j <= |es| && j <= Max(c, d)
      invariant x == if j < |es| then order[j] else Nil
      invariant j < |es| ==> LinkedAt(ns, order, es, j)
      invariant result == Emit(es[c .. j], true)
      decreases |es| - j
    {
      assert Emit(es[c .. j + 1], true) == result + Entry(es[j], true) by {
        assert es[c .. j + 1] == es[c .. j] + [es[j]];
        EmitGrows(es[c .. j], es[j], true);
      }
      ghost var before := result;
      result := result + [Member(ns[x].member), Item.Score(ns[x].score)];
      assert result == before + Entry(es[j], true);
      x := ns[x].levels[0].forward;
      j := j + 1;
    }
    assert j < |es| ==> LinkedAt(ns, order, es, j);
  }

  /** The walk of collectElementsInReverseRange: from the node of rank d (the
      head when d = 0) along the back links while the score is at least
      `min`, that is down to position c. */
  method WalkDownTo<V>(ns: seq<Node<V>>, x0: int, min: int,
                       ghost order: seq<int>, ghost es: seq<Element<V>>, ghost c: int, ghost d: int)
      returns (result: seq<Item>)
    requires Chain(ns, order, es) && 0 <= c <= |es| && 0 <= d <= |es|
    requires 0 <= Head < |ns| && ns[Head].member == "" && ns[Head].score == 0 && ns[Head].backward == Nil
    requires x0 == At(order, d)
    requires forall i :: 0 <= i < |es| ==> (i < c <==> es[i].score < min)
    ensures result == if d > 0 then Emit(Reversed(es[Min(c, d) .. d]), true)
                      else if min <= 0 then [Member(""), Item.Score(0)] else []
  {
    var x := x0;
    ghost var r := d;  // the rank of x, -1 once x is nil
    result := [];
    while x != Nil && ns[x].score >= min
      invariant -1 <= r <= d && (r != 0 || r == d)
      invariant x == if r < 0 then Nil else At(order, r)
      invariant r > 0 ==> LinkedAt(ns, order, es, r - 1)
      invariant d > 0 ==> result == Emit(Reversed(es[Max(r, 0) .. d]), true)
      invariant d > 0 ==> Max(r, 0) >= Min(c, d)
      invariant d == 0 ==> (r == 0 && result == []) || (r == -1 && result == [Member(""), Item.Score(0)] && min <= 0)
      decreases r
    {
      if r > 0 {
        assert Emit(Reversed(es[r - 1 .. d]), true) == result + Entry(es[r - 1], true) by {
          ReversedGrows(es, r, d);
          EmitGrows(Reversed(es[r .. d]), es[r - 1], true);
        }
      }
      result := result + [Member(ns[x].member), Item.Score(ns[x].score)];
      x := ns[x].backward;
      r := if r <= 1 then -1 else r - 1;
    }
    if r > 0 {
      assert LinkedAt(ns, order, es, r - 1);
      assert es[r - 1].score < min;
    }
    assert d > 0 ==> Max(r, 0) == Min(c, d);
  }
}
