/** zskiplist: the ordered index of one sorted set. The methods follow the
    Go code's pointer walks one for one; their proofs rest on the
    invariant `Wf` of module Arena. */
module SkipLists {
  import opened Ordering
  import opened Arena
  import opened Insertion
  import opened Deletion

  class SkipList<V(0)> {
    var nodes: seq<Node<V>>
    var tail: int
    var length: int
    var level: int
    /** The handles of the real nodes in ascending order. */
    ghost var order: seq<int>

    ghost function Snap(): State<V>
      reads this
    {
      State(nodes, tail, length, level)
    }

    ghost predicate Valid()
      reads this
    {
      Wf(Snap(), order)
    }

    /** The elements of the list, ascending by (score, member). */
    ghost function Contents(): seq<Element<V>>
      reads this
      requires Valid()
    {
      Elements(Snap(), order)
    }

    ghost function KeySeq(): seq<Key>
      reads this
      requires Valid()
    {
      Keys(Snap(), order)
    }

    /** newZSkipList: an empty list whose head has every level. */
    constructor ()
      ensures Valid() && Contents() == []
      ensures level == 1 && tail == Head && length == 0
    {
      var none: V := *;
      nodes := [CreateNode(MaxLevel, 0, "", none)];
      tail := Head;
      length := 0;
      level := 1;
      order := [];
    }

    /** getNodeByRank: the node at 1-based `rank`, nil for 0 or past the end. */
    method GetNodeByRank(rank: int) returns (x: int)
      requires Valid() && 0 <= rank
      ensures rank == 0 || rank > length ==> x == Nil
      ensures 1 <= rank <= length ==> x == order[rank - 1]
    {
      if rank == 0 || rank > length {
        return Nil;
      }
      var traversed := 0;
      x := Head;
      var i := level - 1;
      while i >= 0
        invariant -1 <= i < level
        invariant 0 <= traversed <= rank && x == At(order, traversed)
        invariant i >= 0 ==> i < Ht(Snap(), order, traversed)
        invariant i + 1 < level ==> Frontier(Snap(), order, traversed, i + 1, rank)
        invariant i + 1 == level ==> traversed == 0
        invariant 0 <= i
      {
        while CurrentNodeHasForward(x, i) && traversed + nodes[x].levels[i].span <= rank
          invariant 0 <= traversed <= rank && x == At(order, traversed)
          invariant i < Ht(Snap(), order, traversed)
          decreases rank - traversed
        {
          LinkAt(Snap(), order, traversed, i);
          traversed := traversed + nodes[x].levels[i].span;
          x := nodes[x].levels[i].forward;
        }
        FrontierAtStop(Snap(), order, traversed, i, rank);
        if i == 0 {
          FrontierBottom(Snap(), order, traversed, rank);
        }
        if traversed == rank {
          return x;
        }
        i := i - 1;
      }
      assert false;
      return Nil;
    }

    /** currentNodeHasForward */
    function CurrentNodeHasForward(x: int, l: int): bool
      reads this
      requires 0 <= x < |nodes| && 0 <= l < |nodes[x].levels|
    {
      nodes[x].levels[l].forward != Nil
    }

    /** On a valid list the node at rank `r` has a forward link on level `l`
        exactly when some later node is taller than `l`. */
    lemma HasForwardIffTaller(r: int, l: int)
      requires Valid() && 0 <= r <= length && 0 <= l < level && l < Ht(Snap(), order, r)
      ensures CurrentNodeHasForward(At(order, r), l) <==> exists r' :: r < r' <= length && l < Ht(Snap(), order, r')
    {
      LinkAt(Snap(), order, r, l);
      if CurrentNodeHasForward(At(order, r), l) {
        var r' := r + nodes[At(order, r)].levels[l].span;
        assert l < Ht(Snap(), order, r');
      }
    }

    /** getRank: the number of keys below (score, member). The walk stops early
        once it stands on a node carrying `member`; the head carries "", so for
        member "" it answers 0 unless a node below the key reaches the top
        active level. */
    method GetRank(score: int, member: string) returns (rank: int)
      requires Valid()
      ensures RankAnswer(KeySeq(), Heights(Snap(), order), level, Key(score, member), rank)
    {
      ghost var s := Snap();
      ghost var k := Key(score, member);
      ghost var p := CountBelow(Keys(s, order), k);
      ghost var w := 0;  // for member "", a node below k of full height
      var ns := nodes;
      rank := 0;
      var x := Head;
      var i := level - 1;
      while i >= 0
        invariant -1 <= i < level
        invariant 0 <= rank <= p && x == At(order, rank)
        invariant i >= 0 ==> i < Ht(s, order, rank)
        invariant i + 1 < level ==> Frontier(s, order, rank, i + 1, p)
        invariant i + 1 == level ==> rank == 0
        invariant i < 0 ==> rank == p
        invariant i + 1 < level && member == "" ==> 1 <= w <= rank && level <= Ht(s, order, w)
      {
        while ns[x].levels[i].forward != Nil
          invariant 0 <= rank <= p && x == At(order, rank)
          invariant i < Ht(s, order, rank)
          invariant i + 1 < level && member == "" ==> 1 <= w <= rank
          decreases s.length - rank
        {
          Step(s, order, rank, i, k);
          var next := ns[x].levels[i].forward;
          if Below(KeyOf(ns[next]), Key(score, member)) {
            rank := rank + ns[x].levels[i].span;
            x := next;
          } else {
            break;
          }
        }
        Stop(s, order, rank, i, p);
        if ns[x].member == member {
          AnswerOnMatch(s, order, k, rank, i);
          return rank;
        }
        if i == level - 1 {
          w := rank;
        }
        i := i - 1;
      }
      AnswerAtEnd(s, order, k, w);
    }
  
    /** The descent of insert: on every active level, the last node below
        (score, member) and its rank. The two tables are Go arrays, that is
        values, hence sequences here. */
    method FindUpdate(score: int, member: string) returns (update: seq<int>, rank: seq<int>)
      requires Valid()
      ensures Recorded(Snap(), order, CountBelow(KeySeq(), Key(score, member)), update, rank, 0, level)
    {
      ghost var s := Snap();
      ghost var k := Key(score, member);
      ghost var p := CountBelow(Keys(s, order), k);
      var ns := nodes;
      update := seq(MaxLevel, _ => Nil);
      rank := seq(MaxLevel, _ => 0);
      var cur := 0;  // the rank of x
      var x := Head;
      var i := level - 1;
      while i >= 0
        invariant -1 <= i < level
        invariant 0 <= cur <= p && x == At(order, cur)
        invariant i >= 0 ==> i < Ht(s, order, cur)
        invariant i + 1 < level ==> Frontier(s, order, cur, i + 1, p)
        invariant i + 1 == level ==> cur == 0
        invariant Recorded(s, order, p, update, rank, i + 1, level)
      {
        Step(s, order, cur, i, k);
        while ns[x].levels[i].forward != Nil && Below(KeyOf(ns[ns[x].levels[i].forward]), Key(score, member))
          invariant 0 <= cur <= p && x == At(order, cur) && i < Ht(s, order, cur)
          invariant var lk := s.nodes[x].levels[i];
            lk.forward != Nil ==> 1 <= lk.forward < |s.nodes| && (Below(KeyOf(s.nodes[lk.forward]), k) <==> cur + lk.span <= p)
          decreases s.length - cur
        {
          Step(s, order, cur, i, k);
          cur := cur + ns[x].levels[i].span;
          x := ns[x].levels[i].forward;
          Step(s, order, cur, i, k);
        }
        Stop(s, order, cur, i, p);
        RecordBelow(s, order, p, update, rank, i, level, x, cur);
        update := update[i := x];
        rank := rank[i := cur];
        i := i - 1;
      }
    }

    /** insert: adds a node of height `lvl` for (score, member) at its place
        and returns its handle. `lvl` stands for getRandomLevel's draw. The
        callers never insert a key the list holds. */
    method Insert(score: int, member: string, value: V, lvl: int) returns (x: int)
      requires Valid() && 1 <= lvl <= MaxLevel
      requires Key(score, member) !in KeySeq()
      modifies this
      ensures Valid()
      ensures var p := CountBelow(old(KeySeq()), Key(score, member));
        && Contents() == old(Contents())[..p] + [Element(member, score, value)] + old(Contents())[p..]
        && order == old(order)[..p] + [x] + old(order)[p..]
        && x == order[p] && x == old(|nodes|)
      ensures level == Top(old(level), lvl)
    {
      ghost var s, order0 := Snap(), order;
      ghost var k := Key(score, member);
      ghost var p := Pos(s, order0, k);
      assert Wf(s, order0);
      var update, rank := FindUpdate(score, member);
      var ns;
      ns, update, rank := RaiseLevel(nodes, update, rank, level, length, lvl, s, order0, p);
      var top := Top(level, lvl);
      RecordedDescended(s, order0, k, update, rank, lvl);
      var t;
      ns, t, x := Link(ns, update, rank, lvl, level, tail, score, member, value, s, order0);
      ghost var order2 := order0[..p] + [x] + order0[p..];
      nodes, tail, length, level, order := ns, t, length + 1, top, order2;
      assert Snap() == State(ns, t, s.length + 1, top);
    }

    /** The descent of delete: on every active level, the last node below
        (score, member). Unlike insert's, it does not count ranks; the ranks
        here are ghost. */
    method FindPredecessors(score: int, member: string) returns (update: seq<int>, ghost rank: seq<int>)
      requires Valid()
      ensures Recorded(Snap(), order, CountBelow(KeySeq(), Key(score, member)), update, rank, 0, level)
    {
      ghost var s := Snap();
      ghost var k := Key(score, member);
      ghost var p := CountBelow(Keys(s, order), k);
      var ns := nodes;
      update := seq(MaxLevel, _ => Nil);
      rank := seq(MaxLevel, _ => 0);
      ghost var cur := 0;  // the rank of x
      var x := Head;
      var i := level - 1;
      while i >= 0
        invariant -1 <= i < level
        invariant 0 <= cur <= p && x == At(order, cur)
        invariant i >= 0 ==> i < Ht(s, order, cur)
        invariant i + 1 < level ==> Frontier(s, order, cur, i + 1, p)
        invariant i + 1 == level ==> cur == 0
        invariant Recorded(s, order, p, update, rank, i + 1, level)
      {
        Step(s, order, cur, i, k);
        while ns[x].levels[i].forward != Nil && Below(KeyOf(ns[ns[x].levels[i].forward]), Key(score, member))
          invariant 0 <= cur <= p && x == At(order, cur) && i < Ht(s, order, cur)
          invariant var lk := s.nodes[x].levels[i];
            lk.forward != Nil ==> 1 <= lk.forward < |s.nodes| && (Below(KeyOf(s.nodes[lk.forward]), k) <==> cur + lk.span <= p)
          decreases s.length - cur
        {
          Step(s, order, cur, i, k);
          cur := cur + ns[x].levels[i].span;
          x := ns[x].levels[i].forward;
          Step(s, order, cur, i, k);
        }
        Stop(s, order, cur, i, p);
        RecordBelow(s, order, p, update, rank, i, level, x, cur);
        update := update[i := x];
        rank := rank[i := cur];
        i := i - 1;
      }
    }

    /** delete: removes the node of (score, member) if the list holds that
        pair, and does nothing otherwise. */
    method Delete(score: int, member: string)
      requires Valid()
      modifies this
      ensures Valid()
      ensures var k, p := Key(score, member), CountBelow(old(KeySeq()), Key(score, member));
        if p < old(length) && old(KeySeq())[p] == k then
          && Contents() == old(Contents())[..p] + old(Contents())[p + 1..]
          && order == old(order)[..p] + old(order)[p + 1..]
          && tail != Head
        else
          nodes == old(nodes) && tail == old(tail) && length == old(length) && level == old(level) && order == old(order)
    {
      ghost var s, k := Snap(), Key(score, member);
      ghost var p := Pos(s, order, k);
      var update, rank := FindPredecessors(score, member);
      FrontierBottom(s, order, rank[0], p);
      BottomLink(s, order, p);
      CountBelowFinds(Keys(s, order), k);
      var x := nodes[update[0]].levels[0].forward;
      if x != Nil && nodes[x].score == score && nodes[x].member == member {
        assert Keys(s, order)[p] == KeyOf(nodes[order[p]]);
        DeleteNode(x, update, rank, k);
      }
    }

    /** deleteNode: unlinks the node `x` of key `k`, given the descent's
        `updates` (the frontier of every active level, at ranks `rk`). */
    method DeleteNode(x: int, updates: seq<int>, ghost rk: seq<int>, ghost k: Key)
      requires Valid() && Found(Snap(), order, k, rk)
      requires x == At(order, Pos(Snap(), order, k) + 1)
      requires |updates| == MaxLevel && forall l :: 0 <= l < level ==> updates[l] == At(order, rk[l])
      modifies this
      ensures Valid()
      ensures var p := Pos(old(Snap()), old(order), k);
        && Contents() == old(Contents())[..p] + old(Contents())[p + 1..]
        && order == old(order)[..p] + old(order)[p + 1..]
      ensures tail != Head
    {
      ghost var s, order0 := Snap(), order;
      ghost var p := Pos(s, order0, k);
      var ns, t, lv := Detach(nodes, x, updates, level, tail, s, order0, k, rk);
      nodes, tail, level, length, order := ns, t, lv, length - 1, order0[..p] + order0[p + 1..];
      assert Snap() == State(ns, t, s.length - 1, lv);
    }
  }

  /** deleteNode on the list's values: unlink the target on every active
      level, repair the successor's back link or the tail, then lower the
      level while the head's top link is nil. */
  method Detach<V>(ns0: seq<Node<V>>, x: int, updates: seq<int>, level: int, tail: int,
                   ghost s: State<V>, ghost order: seq<int>, ghost k: Key, ghost rk: seq<int>)
      returns (ns: seq<Node<V>>, t: int, lv: int)
    requires Found(s, order, k, rk) && ns0 == s.nodes && level == s.level && tail == s.tail
    requires x == At(order, Pos(s, order, k) + 1)
    requires |updates| == MaxLevel && forall l :: 0 <= l < level ==> updates[l] == At(order, rk[l])
    ensures var p := Pos(s, order, k);
      var s2, order2 := State(ns, t, s.length - 1, lv), order[..p] + order[p + 1..];
      && Wf(s2, order2) && Elements(s2, order2) == Elements(s, order)[..p] + Elements(s, order)[p + 1..]
    ensures t != Head
  {
    ghost var p := Pos(s, order, k);
    ns := Unlink(ns0, x, updates, level, s, order, k, rk);
    ghost var unlinked := ns;
    t := tail;
    LinkAt(s, order, p + 1, 0);
    var f := ns[x].levels[0].forward;
    if f != Nil {
      ns := ns[f := ns[f].(backward := ns[x].backward)];
    } else {
      t := ns[x].backward;
    }
    ghost var order2 := order[..p] + order[p + 1..];
    ghost var s2 := State(ns, t, s.length - 1, s.level);
    FinishDelete(s, order, k, rk, unlinked, s2, order2);
    DeletedTail(s, order, k, rk, s2, order2);
    DeletedUnshrunk(s, order, k, rk, s2, order2);
    lv := level;
    while lv > 1 && ns[Head].levels[lv - 1].forward == Nil
      invariant 1 <= lv <= s.level
      invariant forall l :: lv <= l < s.level ==> ns[Head].levels[l].forward == Nil
    {
      lv := lv - 1;
    }
    Shrunk(s2, order2, lv);
    assert s2.(level := lv) == State(ns, t, s.length - 1, lv);
  }

  /** deleteNode's loop over the active levels: the frontier of a level
      the target `x` reaches takes over its link, any other frontier spans one
      node less. */
  method Unlink<V>(ns0: seq<Node<V>>, x: int, updates: seq<int>, level: int,
                   ghost s: State<V>, ghost order: seq<int>, ghost k: Key, ghost rk: seq<int>)
      returns (ns: seq<Node<V>>)
    requires Found(s, order, k, rk) && ns0 == s.nodes && level == s.level
    requires x == At(order, Pos(s, order, k) + 1)
    requires |updates| == MaxLevel && forall l :: 0 <= l < level ==> updates[l] == At(order, rk[l])
    ensures Unlinking(s, order, k, rk, ns, s.level)
  {
    ns := ns0;
    StartUnlink(s, order, k, rk);
    var i := 0;
    while i < level
      invariant 0 <= i <= level
      invariant Unlinking(s, order, k, rk, ns, i)
    {
      UnlinkStep(s, order, k, rk, ns, i);
      var u := updates[i];
      if ns[u].levels[i].forward == x {
        ns := SetLevel(ns, u, i, Level(ns[x].levels[i].forward, ns[u].levels[i].span + ns[x].levels[i].span - 1));
      } else {
        ns := SetLevel(ns, u, i, Level(ns[u].levels[i].forward, ns[u].levels[i].span - 1));
      }
      i := i + 1;
    }
  }

  /** The levels the new node adds to the list join the descent: the head
      is their frontier, at rank 0, and its link there spans the whole list. */
  method RaiseLevel<V>(ns0: seq<Node<V>>, update0: seq<int>, rank0: seq<int>, level: int, length: int, lvl: int,
                       ghost s: State<V>, ghost order: seq<int>, ghost p: int)
      returns (ns: seq<Node<V>>, update: seq<int>, rank: seq<int>)
    requires Wf(s, order) && ns0 == s.nodes && level == s.level && length == s.length
    requires 1 <= lvl <= MaxLevel && 0 <= p <= s.length
    requires Recorded(s, order, p, update0, rank0, 0, s.level)
    ensures |ns| == |s.nodes| && forall h :: 0 < h < |ns| ==> ns[h] == s.nodes[h]
    ensures ns[Head] == s.nodes[Head].(levels := ns[Head].levels) && |ns[Head].levels| == MaxLevel
    ensures forall l :: 0 <= l < MaxLevel ==>
      ns[Head].levels[l] == if s.level <= l < lvl then Level(Nil, s.length) else s.nodes[Head].levels[l]
    ensures Recorded(s, order, p, update, rank, 0, Top(s.level, lvl))
  {
    ns, update, rank := ns0, update0, rank0;
    var i := level;
    while i < lvl
      invariant s.level <= i <= Top(s.level, lvl)
      invariant |ns| == |s.nodes| && forall h :: 0 < h < |ns| ==> ns[h] == s.nodes[h]
      invariant ns[Head] == s.nodes[Head].(levels := ns[Head].levels) && |ns[Head].levels| == MaxLevel
      invariant forall l :: 0 <= l < MaxLevel ==>
        ns[Head].levels[l] == if s.level <= l < i then Level(Nil, s.length) else s.nodes[Head].levels[l]
      invariant Recorded(s, order, p, update, rank, 0, i)
    {
      FrontierAboveLevel(s, order, i, p);
      RecordAbove(s, order, p, update, rank, i);
      rank := rank[i := 0];
      update := update[i := Head];
      ns := SetLevel(ns, Head, i, Level(ns[Head].levels[i].forward, length));
      i := i + 1;
    }
  }

  /** insert's splice once the descent is recorded and the head raised:
      creates the node, links it on each of its levels, widens the spans
      above it, and sets the back links and the tail. */
  method Link<V>(ns0: seq<Node<V>>, update: seq<int>, rank: seq<int>, lvl: int, level: int, tail: int,
                 score: int, member: string, value: V, ghost s: State<V>, ghost order: seq<int>)
      returns (ns: seq<Node<V>>, t: int, x: int)
    requires Descended(s, order, Key(score, member), rank, lvl) && tail == s.tail && level == s.level
    requires |update| == MaxLevel && Key(score, member) !in Keys(s, order)
    requires forall l :: 0 <= l < Top(s.level, lvl) ==> update[l] == At(order, rank[l])
    requires |ns0| == |s.nodes| && forall h :: 0 < h < |ns0| ==> ns0[h] == s.nodes[h]
    requires ns0[Head] == s.nodes[Head].(levels := ns0[Head].levels) && |ns0[Head].levels| == MaxLevel
    requires forall l :: 0 <= l < MaxLevel ==>
      ns0[Head].levels[l] == if s.level <= l < lvl then Level(Nil, s.length) else s.nodes[Head].levels[l]
    ensures x == |s.nodes|
    ensures var p := Pos(s, order, Key(score, member));
      var s2, order2 := State(ns, t, s.length + 1, Top(s.level, lvl)), order[..p] + [x] + order[p..];
      && Wf(s2, order2)
      && Elements(s2, order2) == Elements(s, order)[..p] + [Element(member, score, value)] + Elements(s, order)[p..]
  {
    ghost var k := Key(score, member);
    ghost var p := Pos(s, order, k);
    ghost var rk := rank;
    var top := Top(level, lvl);
    x := |ns0|;
    ns := ns0 + [CreateNode(lvl, score, member, value)];
    StartSplice(s, order, k, value, rk, lvl, ns);
    ns := SpliceBelow(ns, x, lvl, update, rank, s, order, k, value);
    ns := Widen(ns, lvl, top, update, rank, s, order, k, value);
    SpliceSuccessor(s, order, k, value, rk, lvl, ns);
    ghost var spliced := ns;
    ns := ns[x := ns[x].(backward := if update[0] == Head then Nil else update[0])];
    var f := ns[x].levels[0].forward;
    t := tail;
    if f != Nil {
      ns := ns[f := ns[f].(backward := x)];
    } else {
      t := x;
    }
    ghost var order2 := order[..p] + [x] + order[p..];
    FinishInsert(s, order, k, value, rk, lvl, spliced, State(ns, t, s.length + 1, top), order2);
    InsertedWf(s, order, k, value, rk, lvl, State(ns, t, s.length + 1, top), order2);
  }

  /** The splice of insert, on the levels of the new node `x`: `x` takes
      over the link of the frontier, which then leads to `x`. */
  method SpliceBelow<V>(ns0: seq<Node<V>>, x: int, lvl: int, update: seq<int>, rank: seq<int>,
                        ghost s: State<V>, ghost order: seq<int>, ghost k: Key, ghost value: V)
      returns (ns: seq<Node<V>>)
    requires Descended(s, order, k, rank, lvl) && x == |s.nodes| && |update| == MaxLevel
    requires forall l :: 0 <= l < lvl ==> update[l] == At(order, rank[l])
    requires Progress(s, order, k, value, rank, lvl, ns0, 0)
    ensures Progress(s, order, k, value, rank, lvl, ns, lvl)
  {
    ns := ns0;
    var i := 0;
    while i < lvl
      invariant 0 <= i <= lvl
      invariant Progress(s, order, k, value, rank, lvl, ns, i)
    {
      SpliceStep(s, order, k, value, rank, lvl, ns, i);
      var u := update[i];
      var lk := ns[u].levels[i];
      ns := SetLevel(ns, x, i, Level(lk.forward, lk.span - (rank[0] - rank[i])));
      ns := SetLevel(ns, u, i, Level(x, rank[0] - rank[i] + 1));
      i := i + 1;
    }
  }

  /** The splice of insert, on the active levels above the new node: the
      frontier's link now also spans the new node. */
  method Widen<V>(ns0: seq<Node<V>>, lvl: int, top: int, update: seq<int>, rank: seq<int>,
                  ghost s: State<V>, ghost order: seq<int>, ghost k: Key, ghost value: V)
      returns (ns: seq<Node<V>>)
    requires Descended(s, order, k, rank, lvl) && top == Top(s.level, lvl) && |update| == MaxLevel
    requires forall l :: lvl <= l < top ==> update[l] == At(order, rank[l])
    requires Progress(s, order, k, value, rank, lvl, ns0, lvl)
    ensures Progress(s, order, k, value, rank, lvl, ns, top)
  {
    ns := ns0;
    var i := lvl;
    while i < top
      invariant lvl <= i <= top
      invariant Progress(s, order, k, value, rank, lvl, ns, i)
    {
      WidenStep(s, order, k, value, rank, lvl, ns, i);
      var u := update[i];
      ns := SetLevel(ns, u, i, Level(ns[u].levels[i].forward, ns[u].levels[i].span + 1));
      i := i + 1;
    }
  }
}
