/** Why zskiplist.insert keeps the invariant. The descent records, for every
    level below the new top, the frontier rank `rk[l]` of the insertion point;
    the splice then rewires exactly one link per level. `InsertedAs` describes
    the resulting state link by link, and `InsertedWf` proves it well formed
    with the new key at rank CountBelow + 1. */
module Insertion {
  import opened Ordering
  import opened Arena

  /** The list's level once a node of height `lvl` has been inserted. */
  function Top(level: int, lvl: int): int {
    if lvl > level then lvl else level
  }

  /** What the descent of insert has found: on each level below the new top,
      the rank `rk[l]` whose node is the last one on that level before the
      insertion point (the head on levels the list does not use yet). */
  ghost predicate Descended<V>(s: State<V>, order: seq<int>, k: Key, rk: seq<int>, lvl: int) {
    && Wf(s, order) && 1 <= lvl <= MaxLevel && |rk| == MaxLevel
    && (forall l :: 0 <= l < Top(s.level, lvl) ==> Frontier(s, order, rk[l], l, Pos(s, order, k)))
  }

  /** The tables of the descent hold, on levels `lo` to `hi - 1`, the last
      node below the insertion point `p` and its rank. */
  ghost predicate Recorded<V>(s: State<V>, order: seq<int>, p: int, update: seq<int>, rank: seq<int>, lo: int, hi: int)
    requires Shape(s, order)
  {
    && 0 <= p <= s.length && |update| == MaxLevel && |rank| == MaxLevel && 0 <= lo && hi <= MaxLevel
    && (forall l :: lo <= l < hi ==>
          0 <= rank[l] <= p && update[l] == At(order, rank[l]) && Frontier(s, order, rank[l], l, p))
  }

  /** Recording the frontier of one more level, below the recorded ones. */
  lemma RecordBelow<V>(s: State<V>, order: seq<int>, p: int, update: seq<int>, rank: seq<int>,
                       lo: int, hi: int, x: int, u: int)
    requires Shape(s, order) && Recorded(s, order, p, update, rank, lo + 1, hi) && 0 <= lo
    requires Frontier(s, order, u, lo, p) && x == At(order, u)
    ensures Recorded(s, order, p, update[lo := x], rank[lo := u], lo, hi)
  {
  }

  /** Recording the head as the frontier of one more level, above the
      recorded ones. */
  lemma RecordAbove<V>(s: State<V>, order: seq<int>, p: int, update: seq<int>, rank: seq<int>, hi: int)
    requires Shape(s, order) && Recorded(s, order, p, update, rank, 0, hi) && hi < MaxLevel
    requires Frontier(s, order, 0, hi, p)
    ensures Recorded(s, order, p, update[hi := Head], rank[hi := 0], 0, hi + 1)
  {
  }

  /** A complete record is a descent. */
  lemma RecordedDescended<V>(s: State<V>, order: seq<int>, k: Key, update: seq<int>, rank: seq<int>, lvl: int)
    requires Wf(s, order) && 1 <= lvl <= MaxLevel
    requires Recorded(s, order, Pos(s, order, k), update, rank, 0, Top(s.level, lvl))
    ensures Descended(s, order, k, rank, lvl)
    ensures forall l :: 0 <= l < Top(s.level, lvl) ==> update[l] == At(order, rank[l])
  {
  }

  /** Link `l` of rank `r` once the unused head levels below the new top have
      been given the span of the whole list. */
  ghost function OldLink<V>(s: State<V>, order: seq<int>, lvl: int, r: int, l: int): Level
    requires Shape(s, order) && 0 <= r <= |order| && 0 <= l < Ht(s, order, r)
  {
    if r == 0 && s.level <= l < lvl then Level(Nil, s.length) else s.nodes[At(order, r)].levels[l]
  }

  /** Link `l` of rank `r` after the insertion: the frontier node of a level
      the new node reaches now points at it; on a level above the new node its
      link skips one more node; every other link is unchanged. */
  ghost function NewLink<V>(s: State<V>, order: seq<int>, k: Key, rk: seq<int>, lvl: int, r: int, l: int): Level
    requires Shape(s, order) && |rk| == MaxLevel && 0 <= r <= |order| && 0 <= l < Ht(s, order, r)
  {
    var lk := OldLink(s, order, lvl, r, l);
    if l < Top(s.level, lvl) && r == rk[l] then
      (if l < lvl then Level(|s.nodes|, Pos(s, order, k) - r + 1) else Level(lk.forward, lk.span + 1))
    else lk
  }

  /** Link `l` of the new node: the frontier's old link, less the ranks now
      covered by the frontier's link to the new node. */
  ghost function NodeLink<V>(s: State<V>, order: seq<int>, k: Key, rk: seq<int>, lvl: int, l: int): Level
    requires Shape(s, order) && |rk| == MaxLevel && 0 <= l < MaxLevel
    requires 0 <= rk[l] <= |order| && l < Ht(s, order, rk[l])
  {
    var lk := OldLink(s, order, lvl, rk[l], l);
    Level(lk.forward, lk.span - (Pos(s, order, k) - rk[l]))
  }

  /** The state after inserting key `k` with `value` as a node of height `lvl`,
      described link by link against the state before. */
  ghost predicate InsertedAs<V>(s: State<V>, order: seq<int>, k: Key, value: V, rk: seq<int>, lvl: int,
                                s2: State<V>, order2: seq<int>)
  {
    && Descended(s, order, k, rk, lvl)
    && var n := |s.nodes|;
    var p := Pos(s, order, k);
    && order2 == order[..p] + [n] + order[p..]
    && |s2.nodes| == n + 1 && s2.length == s.length + 1 && s2.level == Top(s.level, lvl)
    && s2.tail == (if p == s.length then n else s.tail)
    && (forall r :: 0 <= r <= s.length ==>
          Moved(s2.nodes[At(order, r)], s.nodes[At(order, r)], if r == p + 1 then n else s.nodes[At(order, r)].backward))
    && s2.nodes[n].member == k.member && s2.nodes[n].score == k.score && s2.nodes[n].value == value
    && s2.nodes[n].backward == (if p == 0 then Nil else order[p - 1])
    && |s2.nodes[n].levels| == lvl
    && (forall l :: 0 <= l < lvl ==> s2.nodes[n].levels[l] == NodeLink(s, order, k, rk, lvl, l))
    && (forall r, l :: 0 <= r <= s.length && 0 <= l < Ht(s, order, r) ==>
          s2.nodes[At(order, r)].levels[l] == NewLink(s, order, k, rk, lvl, r, l))
  }

  /** The nodes while the splice is under way: levels below `i` are rewired,
      the others are as before (the head's unused levels below the new top
      already spanning the whole list). */
  ghost predicate Progress<V>(s: State<V>, order: seq<int>, k: Key, value: V, rk: seq<int>, lvl: int,
                              nodes: seq<Node<V>>, i: int)
    requires Descended(s, order, k, rk, lvl)
  {
    var n := |s.nodes|;
    && 0 <= i <= MaxLevel
    && |nodes| == n + 1
    && (forall r :: 0 <= r <= s.length ==>
          Moved(nodes[At(order, r)], s.nodes[At(order, r)], s.nodes[At(order, r)].backward))
    && nodes[n].member == k.member && nodes[n].score == k.score && nodes[n].value == value
    && nodes[n].backward == Nil && |nodes[n].levels| == lvl
    && (forall l :: 0 <= l < lvl ==>
          nodes[n].levels[l] == (if l < i then NodeLink(s, order, k, rk, lvl, l) else Level(Nil, 0)))
    && (forall r, l :: 0 <= r <= s.length && 0 <= l < Ht(s, order, r) ==>
          nodes[At(order, r)].levels[l] == (if l < i then NewLink(s, order, k, rk, lvl, r, l) else OldLink(s, order, lvl, r, l)))
  }

  /** The head's unused levels below the new top span the whole list, and
      the new node has been created: the splice can start. */
  lemma StartSplice<V>(s: State<V>, order: seq<int>, k: Key, value: V, rk: seq<int>, lvl: int,
                       nodes: seq<Node<V>>)
    requires Descended(s, order, k, rk, lvl)
    requires |nodes| == |s.nodes| + 1
    requires forall h :: 0 < h < |s.nodes| ==> nodes[h] == s.nodes[h]
    requires nodes[Head].member == s.nodes[Head].member && nodes[Head].score == s.nodes[Head].score
    requires nodes[Head].value == s.nodes[Head].value && nodes[Head].backward == s.nodes[Head].backward
    requires |nodes[Head].levels| == MaxLevel
    requires forall l :: 0 <= l < MaxLevel ==>
      nodes[Head].levels[l] == if s.level <= l < lvl then Level(Nil, s.length) else s.nodes[Head].levels[l]
    requires nodes[|s.nodes|] == CreateNode(lvl, k.score, k.member, value)
    ensures Progress(s, order, k, value, rk, lvl, nodes, 0)
  {
    forall r, l | 0 <= r <= s.length && 0 <= l < Ht(s, order, r)
      ensures nodes[At(order, r)].levels[l] == OldLink(s, order, lvl, r, l)
    {
      if r > 0 {
        assert nodes[order[r - 1]] == s.nodes[order[r - 1]];
      }
    }
    forall r | 0 < r <= s.length
      ensures Moved(nodes[At(order, r)], s.nodes[At(order, r)], s.nodes[At(order, r)].backward)
    {
      assert nodes[order[r - 1]] == s.nodes[order[r - 1]];
    }
  }

  /** One level of the splice: the new node takes over the frontier's link,
      and the frontier links to the new node. */
  lemma SpliceStep<V>(s: State<V>, order: seq<int>, k: Key, value: V, rk: seq<int>, lvl: int,
                      nodes: seq<Node<V>>, i: int)
    requires Descended(s, order, k, rk, lvl) && Progress(s, order, k, value, rk, lvl, nodes, i)
    requires 0 <= i < lvl
    ensures 1 <= At(order, rk[i]) + 1 <= |s.nodes| && i < |nodes[At(order, rk[i])].levels|
    ensures var u := At(order, rk[i]);
      var lk := nodes[u].levels[i];
      var n1 := SetLevel(nodes, |s.nodes|, i, Level(lk.forward, lk.span - (rk[0] - rk[i])));
      Progress(s, order, k, value, rk, lvl, SetLevel(n1, u, i, Level(|s.nodes|, rk[0] - rk[i] + 1)), i + 1)
  {
    var n, p := |s.nodes|, Pos(s, order, k);
    DescentEnds(s, order, k, rk, lvl);
    var u := At(order, rk[i]);
    assert Frontier(s, order, rk[i], i, p);
    assert Moved(nodes[At(order, rk[i])], s.nodes[At(order, rk[i])], s.nodes[At(order, rk[i])].backward);
    var lk := nodes[u].levels[i];
    assert lk == OldLink(s, order, lvl, rk[i], i);
    var n1 := SetLevel(nodes, n, i, Level(lk.forward, lk.span - (rk[0] - rk[i])));
    var n2 := SetLevel(n1, u, i, Level(n, rk[0] - rk[i] + 1));
    forall r | 0 <= r <= s.length
      ensures Moved(n2[At(order, r)], s.nodes[At(order, r)], s.nodes[At(order, r)].backward)
    {
      assert Moved(nodes[At(order, r)], s.nodes[At(order, r)], s.nodes[At(order, r)].backward);
    }
    SpliceOldLinks(s, order, k, value, rk, lvl, nodes, i);
  }

  /** The links of the old nodes after one level of the splice: level `i`
      of the frontier now leads to the new node, nothing else moves. */
  lemma SpliceOldLinks<V>(s: State<V>, order: seq<int>, k: Key, value: V, rk: seq<int>, lvl: int,
                          nodes: seq<Node<V>>, i: int)
    requires Descended(s, order, k, rk, lvl) && Progress(s, order, k, value, rk, lvl, nodes, i)
    requires 0 <= i < lvl
    ensures 1 <= At(order, rk[i]) + 1 <= |s.nodes| && i < |nodes[At(order, rk[i])].levels|
    ensures var u := At(order, rk[i]);
      var lk := nodes[u].levels[i];
      var n2 := SetLevel(SetLevel(nodes, |s.nodes|, i, Level(lk.forward, lk.span - (rk[0] - rk[i]))), u, i, Level(|s.nodes|, rk[0] - rk[i] + 1));
      forall r, l :: 0 <= r <= s.length && 0 <= l < Ht(s, order, r) ==>
        n2[At(order, r)].levels[l] == (if l < i + 1 then NewLink(s, order, k, rk, lvl, r, l) else OldLink(s, order, lvl, r, l))
  {
    var n, p := |s.nodes|, Pos(s, order, k);
    DescentEnds(s, order, k, rk, lvl);
    var u := At(order, rk[i]);
    assert Frontier(s, order, rk[i], i, p);
    assert Moved(nodes[At(order, rk[i])], s.nodes[At(order, rk[i])], s.nodes[At(order, rk[i])].backward);
    var lk := nodes[u].levels[i];
    assert lk == OldLink(s, order, lvl, rk[i], i);
    var n2 := SetLevel(SetLevel(nodes, n, i, Level(lk.forward, lk.span - (rk[0] - rk[i]))), u, i, Level(n, rk[0] - rk[i] + 1));
    forall r, l | 0 <= r <= s.length && 0 <= l < Ht(s, order, r)
      ensures n2[At(order, r)].levels[l] == (if l < i + 1 then NewLink(s, order, k, rk, lvl, r, l) else OldLink(s, order, lvl, r, l))
    {
      AtInjective(order, r, rk[i]);
    }
  }

  /** One level above the new node: the frontier's link now skips it too. */
  lemma WidenStep<V>(s: State<V>, order: seq<int>, k: Key, value: V, rk: seq<int>, lvl: int,
                     nodes: seq<Node<V>>, i: int)
    requires Descended(s, order, k, rk, lvl) && Progress(s, order, k, value, rk, lvl, nodes, i)
    requires lvl <= i < Top(s.level, lvl)
    ensures 1 <= At(order, rk[i]) + 1 <= |s.nodes| && i < |nodes[At(order, rk[i])].levels|
    ensures var u := At(order, rk[i]);
      var lk := nodes[u].levels[i];
      Progress(s, order, k, value, rk, lvl, SetLevel(nodes, u, i, Level(lk.forward, lk.span + 1)), i + 1)
  {
    var u := At(order, rk[i]);
    assert Frontier(s, order, rk[i], i, Pos(s, order, k));
    assert Moved(nodes[At(order, rk[i])], s.nodes[At(order, rk[i])], s.nodes[At(order, rk[i])].backward);
    var lk := nodes[u].levels[i];
    var n2 := SetLevel(nodes, u, i, Level(lk.forward, lk.span + 1));
    forall r | 0 <= r <= s.length
      ensures Moved(n2[At(order, r)], s.nodes[At(order, r)], s.nodes[At(order, r)].backward)
    {
      assert Moved(nodes[At(order, r)], s.nodes[At(order, r)], s.nodes[At(order, r)].backward);
    }
    forall r, l | 0 <= r <= s.length && 0 <= l < Ht(s, order, r)
      ensures n2[At(order, r)].levels[l] == (if l < i + 1 then NewLink(s, order, k, rk, lvl, r, l) else OldLink(s, order, lvl, r, l))
    {
      AtInjective(order, r, rk[i]);
    }
  }

  /** After the splice, the new node's level-0 link leads to the old node of
      rank p + 1, or is nil when the new node is last. */
  lemma SpliceSuccessor<V>(s: State<V>, order: seq<int>, k: Key, value: V, rk: seq<int>, lvl: int,
                           nodes: seq<Node<V>>)
    requires Descended(s, order, k, rk, lvl) && Progress(s, order, k, value, rk, lvl, nodes, Top(s.level, lvl))
    ensures var f := nodes[|s.nodes|].levels[0].forward;
      && (f == Nil <==> Pos(s, order, k) == s.length)
      && (f != Nil ==> f == order[Pos(s, order, k)] && 1 <= f < |s.nodes|)
      && At(order, rk[0]) == (if Pos(s, order, k) == 0 then Head else order[Pos(s, order, k) - 1])
  {
    var p := Pos(s, order, k);
    DescentEnds(s, order, k, rk, lvl);
    assert nodes[|s.nodes|].levels[0] == NodeLink(s, order, k, rk, lvl, 0);
    assert Frontier(s, order, p, 0, p);
    LinkAt(s, order, p, 0);
    assert p < s.length ==> Ht(s, order, p + 1) == |s.nodes[order[p]].levels|;
  }

  /** The back links and the tail fixed after the splice give the state
      `InsertedAs` describes. */
  lemma FinishInsert<V>(s: State<V>, order: seq<int>, k: Key, value: V, rk: seq<int>, lvl: int,
                        nodes: seq<Node<V>>, s2: State<V>, order2: seq<int>)
    requires Descended(s, order, k, rk, lvl) && Progress(s, order, k, value, rk, lvl, nodes, Top(s.level, lvl))
    requires var n := |s.nodes|;
      var n1 := nodes[n := nodes[n].(backward := if At(order, rk[0]) == Head then Nil else At(order, rk[0]))];
      var f := n1[n].levels[0].forward;
      && (f == Nil || 0 <= f < |n1|)
      && s2 == State(if f != Nil then n1[f := n1[f].(backward := n)] else n1,
                     if f != Nil then s.tail else n, s.length + 1, Top(s.level, lvl))
    requires order2 == order[..Pos(s, order, k)] + [|s.nodes|] + order[Pos(s, order, k)..]
    ensures InsertedAs(s, order, k, value, rk, lvl, s2, order2)
  {
    var n, p := |s.nodes|, Pos(s, order, k);
    SpliceSuccessor(s, order, k, value, rk, lvl, nodes);
    DescentEnds(s, order, k, rk, lvl);
    forall r | 0 <= r <= s.length
      ensures Moved(s2.nodes[At(order, r)], s.nodes[At(order, r)], if r == p + 1 then n else s.nodes[At(order, r)].backward)
    {
      assert Moved(nodes[At(order, r)], s.nodes[At(order, r)], s.nodes[At(order, r)].backward);
      if p < s.length {
        AtInjective(order, r, p + 1);
      }
    }
    forall r, l | 0 <= r <= s.length && 0 <= l < Ht(s, order, r)
      ensures s2.nodes[At(order, r)].levels[l] == NewLink(s, order, k, rk, lvl, r, l)
    {
      assert nodes[At(order, r)].levels[l] == NewLink(s, order, k, rk, lvl, r, l);
    }
  }

  /** The descent ends at the insertion point on level 0; a frontier on a
      level the list does not use is the head. */
  lemma DescentEnds<V>(s: State<V>, order: seq<int>, k: Key, rk: seq<int>, lvl: int)
    requires Descended(s, order, k, rk, lvl)
    ensures rk[0] == Pos(s, order, k)
    ensures forall l :: s.level <= l < Top(s.level, lvl) ==> rk[l] == 0
  {
    FrontierBottom(s, order, rk[0], Pos(s, order, k));
    forall l | s.level <= l < Top(s.level, lvl) ensures rk[l] == 0 {
      assert Frontier(s, order, rk[l], l, Pos(s, order, k));
    }
  }

  /** Ranks in a list with handle `n` inserted at rank p + 1. */
  lemma InsertedAt(order: seq<int>, p: int, n: int, order2: seq<int>)
    requires 0 <= p <= |order| && order2 == order[..p] + [n] + order[p..]
    ensures |order2| == |order| + 1
    ensures forall r :: 0 <= r <= p ==> At(order2, r) == At(order, r)
    ensures At(order2, p + 1) == n
    ensures forall r :: p < r <= |order| ==> At(order2, r + 1) == At(order, r)
  {
    forall r | 0 < r <= p ensures At(order2, r) == At(order, r) {
      assert order2[r - 1] == order[r - 1];
    }
    forall r | p < r <= |order| ensures At(order2, r + 1) == At(order, r) {
      assert order2[r] == order[r - 1];
    }
  }

  /** The new list has the shape of a zskiplist. */
  lemma InsertedShape<V>(s: State<V>, order: seq<int>, k: Key, value: V, rk: seq<int>, lvl: int,
                         s2: State<V>, order2: seq<int>)
    requires InsertedAs(s, order, k, value, rk, lvl, s2, order2)
    ensures Shape(s2, order2)
  {
    var n, p := |s.nodes|, Pos(s, order, k);
    assert Moved(s2.nodes[At(order, 0)], s.nodes[At(order, 0)], s.nodes[At(order, 0)].backward);
    forall i | 0 <= i < |order2| ensures 1 <= order2[i] < |s2.nodes| && 1 <= |s2.nodes[order2[i]].levels| <= s2.level {
      if i < p {
        assert order2[i] == order[i] == At(order, i + 1);
        assert Moved(s2.nodes[At(order, i + 1)], s.nodes[At(order, i + 1)], if i + 1 == p + 1 then n else s.nodes[At(order, i + 1)].backward);
      } else if i > p {
        assert order2[i] == order[i - 1] == At(order, i);
        assert Moved(s2.nodes[At(order, i)], s.nodes[At(order, i)], if i == p + 1 then n else s.nodes[At(order, i)].backward);
      }
    }
    forall i, j | 0 <= i < j < |order2| ensures Apart(order2, i, j) {
      if j < p {
        assert Apart(order, i, j);
      } else if i < p && j > p {
        assert Apart(order, i, j - 1);
      } else if i > p {
        assert Apart(order, i - 1, j - 1);
      }
    }
  }

  /** Heights in the new list, in terms of the old one. */
  lemma InsertedHeights<V>(s: State<V>, order: seq<int>, k: Key, value: V, rk: seq<int>, lvl: int,
                           s2: State<V>, order2: seq<int>)
    requires InsertedAs(s, order, k, value, rk, lvl, s2, order2) && Shape(s2, order2)
    ensures forall r :: 0 <= r <= Pos(s, order, k) ==> Ht(s2, order2, r) == Ht(s, order, r)
    ensures Ht(s2, order2, Pos(s, order, k) + 1) == lvl
    ensures forall r :: Pos(s, order, k) < r <= s.length ==> Ht(s2, order2, r + 1) == Ht(s, order, r)
  {
    var n, p := |s.nodes|, Pos(s, order, k);
    InsertedAt(order, p, n, order2);
    forall r | 0 <= r <= p ensures Ht(s2, order2, r) == Ht(s, order, r) {
      assert Moved(s2.nodes[At(order, r)], s.nodes[At(order, r)], if r == p + 1 then n else s.nodes[At(order, r)].backward);
    }
    forall r | p < r <= s.length ensures Ht(s2, order2, r + 1) == Ht(s, order, r) {
      assert Moved(s2.nodes[At(order, r)], s.nodes[At(order, r)], if r == p + 1 then n else s.nodes[At(order, r)].backward);
    }
  }

  /** Ranks and heights of the new list in terms of the old one. */
  ghost predicate Renumbered<V>(s: State<V>, order: seq<int>, k: Key, lvl: int, s2: State<V>, order2: seq<int>)
    requires Shape(s, order)
  {
    var n, p := |s.nodes|, Pos(s, order, k);
    && Shape(s2, order2) && s2.length == s.length + 1 && p <= s.length
    && (forall r :: 0 <= r <= p ==> At(order2, r) == At(order, r))
    && At(order2, p + 1) == n
    && (forall r :: p < r <= s.length ==> At(order2, r + 1) == At(order, r))
    && (forall r :: 0 <= r <= p ==> Ht(s2, order2, r) == Ht(s, order, r))
    && Ht(s2, order2, p + 1) == lvl
    && (forall r :: p < r <= s.length ==> Ht(s2, order2, r + 1) == Ht(s, order, r))
  }

  lemma InsertedRenumbered<V>(s: State<V>, order: seq<int>, k: Key, value: V, rk: seq<int>, lvl: int,
                              s2: State<V>, order2: seq<int>)
    requires InsertedAs(s, order, k, value, rk, lvl, s2, order2)
    ensures Renumbered(s, order, k, lvl, s2, order2)
  {
    InsertedShape(s, order, k, value, rk, lvl, s2, order2);
    InsertedAt(order, Pos(s, order, k), |s.nodes|, order2);
    InsertedHeights(s, order, k, value, rk, lvl, s2, order2);
  }

  /** The links of the new node. */
  lemma LinkOfNewNode<V>(s: State<V>, order: seq<int>, k: Key, rk: seq<int>, lvl: int,
                         s2: State<V>, order2: seq<int>, l: int)
    requires Shape(s, order) && Renumbered(s, order, k, lvl, s2, order2) && |rk| == MaxLevel
    requires 0 <= l < lvl && l < Ht(s2, order2, Pos(s, order, k) + 1)
    requires Frontier(s, order, rk[l], l, Pos(s, order, k))
    requires l < s.level ==> LinkOk(s, order, rk[l], l)
    requires s2.nodes[At(order2, Pos(s, order, k) + 1)].levels[l] == NodeLink(s, order, k, rk, lvl, l)
    ensures LinkOk(s2, order2, Pos(s, order, k) + 1, l)
  {
    var n, p := |s.nodes|, Pos(s, order, k);
    var u := rk[l];
    var lk2 := s2.nodes[At(order2, p + 1)].levels[l];
    if l >= s.level {
      assert u == 0;
      forall r | p + 1 < r <= s2.length ensures Ht(s2, order2, r) <= l {
        assert Ht(s2, order2, r) == Ht(s, order, r - 1) == |s.nodes[order[r - 2]].levels|;
      }
    } else {
      var lk := s.nodes[At(order, u)].levels[l];
      if lk.forward != Nil {
        assert u + lk.span > p;
        forall r | p + 1 < r < p + 1 + lk2.span ensures Ht(s2, order2, r) <= l {
          assert Ht(s2, order2, r) == Ht(s, order, r - 1);
        }
      } else {
        forall r | p + 1 < r <= s2.length ensures Ht(s2, order2, r) <= l {
          assert Ht(s2, order2, r) == Ht(s, order, r - 1);
        }
      }
    }
  }

  /** The frontier of a level the new node reaches now links to it. */
  lemma LinkToNewNode<V>(s: State<V>, order: seq<int>, k: Key, rk: seq<int>, lvl: int,
                         s2: State<V>, order2: seq<int>, l: int)
    requires Shape(s, order) && Renumbered(s, order, k, lvl, s2, order2) && |rk| == MaxLevel
    requires 0 <= l < lvl <= MaxLevel && Frontier(s, order, rk[l], l, Pos(s, order, k))
    requires l < Ht(s2, order2, rk[l])
    requires s2.nodes[At(order2, rk[l])].levels[l] == Level(|s.nodes|, Pos(s, order, k) - rk[l] + 1)
    ensures LinkOk(s2, order2, rk[l], l)
  {
    var u, p := rk[l], Pos(s, order, k);
    forall r | u < r < p + 1 ensures Ht(s2, order2, r) <= l {
      assert Ht(s2, order2, r) == Ht(s, order, r);
    }
    assert At(order2, p + 1) == |s.nodes| && Ht(s2, order2, p + 1) == lvl;
  }

  /** The frontier of a level above the new node now skips it too. */
  lemma LinkOverNewNode<V>(s: State<V>, order: seq<int>, k: Key, rk: seq<int>, lvl: int,
                           s2: State<V>, order2: seq<int>, l: int)
    requires Shape(s, order) && Renumbered(s, order, k, lvl, s2, order2) && |rk| == MaxLevel
    requires 1 <= lvl <= l < s.level <= MaxLevel && Frontier(s, order, rk[l], l, Pos(s, order, k))
    requires LinkOk(s, order, rk[l], l) && l < Ht(s2, order2, rk[l])
    requires var lk := s.nodes[At(order, rk[l])].levels[l];
      s2.nodes[At(order2, rk[l])].levels[l] == Level(lk.forward, lk.span + 1)
    ensures LinkOk(s2, order2, rk[l], l)
  {
    if s.nodes[At(order, rk[l])].levels[l].forward != Nil {
      OverNewNodeToNode(s, order, k, rk, lvl, s2, order2, l);
    } else {
      OverNewNodeToEnd(s, order, k, rk, lvl, s2, order2, l);
    }
  }

  /** The case of a frontier link that leads to a node. */
  lemma OverNewNodeToNode<V>(s: State<V>, order: seq<int>, k: Key, rk: seq<int>, lvl: int,
                             s2: State<V>, order2: seq<int>, l: int)
    requires Shape(s, order) && Renumbered(s, order, k, lvl, s2, order2) && |rk| == MaxLevel
    requires 1 <= lvl <= l < s.level <= MaxLevel && Frontier(s, order, rk[l], l, Pos(s, order, k))
    requires LinkOk(s, order, rk[l], l) && l < Ht(s2, order2, rk[l])
    requires var lk := s.nodes[At(order, rk[l])].levels[l];
      s2.nodes[At(order2, rk[l])].levels[l] == Level(lk.forward, lk.span + 1)
    requires s.nodes[At(order, rk[l])].levels[l].forward != Nil
    ensures LinkOk(s2, order2, rk[l], l)
  {
    var u, p := rk[l], Pos(s, order, k);
    var lk := s.nodes[At(order, u)].levels[l];
    assert u + lk.span > p;
    forall r | u < r < u + lk.span + 1 ensures Ht(s2, order2, r) <= l {
      if r > p + 1 {
        assert Ht(s2, order2, r) == Ht(s, order, r - 1);
      } else if r <= p {
        assert Ht(s2, order2, r) == Ht(s, order, r);
      }
    }
    assert At(order2, u + lk.span + 1) == At(order, u + lk.span);
    assert Ht(s2, order2, u + lk.span + 1) == Ht(s, order, u + lk.span);
  }

  /** The case of a nil frontier link. */
  lemma OverNewNodeToEnd<V>(s: State<V>, order: seq<int>, k: Key, rk: seq<int>, lvl: int,
                            s2: State<V>, order2: seq<int>, l: int)
    requires Shape(s, order) && Renumbered(s, order, k, lvl, s2, order2) && |rk| == MaxLevel
    requires 1 <= lvl <= l < s.level <= MaxLevel && Frontier(s, order, rk[l], l, Pos(s, order, k))
    requires LinkOk(s, order, rk[l], l) && l < Ht(s2, order2, rk[l])
    requires var lk := s.nodes[At(order, rk[l])].levels[l];
      s2.nodes[At(order2, rk[l])].levels[l] == Level(lk.forward, lk.span + 1)
    requires s.nodes[At(order, rk[l])].levels[l].forward == Nil
    ensures LinkOk(s2, order2, rk[l], l)
  {
    var u, p := rk[l], Pos(s, order, k);
    forall r | u < r <= s2.length ensures Ht(s2, order2, r) <= l {
      if r > p + 1 {
        assert Ht(s2, order2, r) == Ht(s, order, r - 1);
      } else if r <= p {
        assert Ht(s2, order2, r) == Ht(s, order, r);
      }
    }
  }

  /** A link before the frontier of its level lies wholly before the new node. */
  lemma LinkBeforeFrontier<V>(s: State<V>, order: seq<int>, k: Key, rk: seq<int>, lvl: int,
                              s2: State<V>, order2: seq<int>, r: int, l: int)
    requires Shape(s, order) && Renumbered(s, order, k, lvl, s2, order2) && |rk| == MaxLevel
    requires 0 <= l < s.level && Frontier(s, order, rk[l], l, Pos(s, order, k))
    requires 0 <= r <= Pos(s, order, k) && r != rk[l] && l < Ht(s, order, r)
    requires LinkOk(s, order, r, l) && l < Ht(s2, order2, r)
    requires s2.nodes[At(order2, r)].levels[l] == s.nodes[At(order, r)].levels[l]
    ensures LinkOk(s2, order2, r, l)
  {
    var u := rk[l];
    var lk := s.nodes[At(order, r)].levels[l];
    assert r < u;
    assert lk.forward != Nil;
    assert r + lk.span <= u;
    forall r' | r < r' <= r + lk.span ensures Ht(s2, order2, r') == Ht(s, order, r') {
    }
    assert At(order2, r + lk.span) == At(order, r + lk.span);
  }

  /** A link after the new node moves up one rank with its target. */
  lemma LinkAfterNewNode<V>(s: State<V>, order: seq<int>, k: Key, lvl: int,
                            s2: State<V>, order2: seq<int>, r: int, l: int)
    requires Shape(s, order) && Renumbered(s, order, k, lvl, s2, order2)
    requires Pos(s, order, k) < r <= s.length && 0 <= l < Ht(s, order, r) && l < s.level
    requires LinkOk(s, order, r, l) && l < Ht(s2, order2, r + 1)
    requires s2.nodes[At(order2, r + 1)].levels[l] == s.nodes[At(order, r)].levels[l]
    ensures LinkOk(s2, order2, r + 1, l)
  {
    var lk := s.nodes[At(order, r)].levels[l];
    if lk.forward != Nil {
      forall r' | r + 1 < r' < r + 1 + lk.span ensures Ht(s2, order2, r') <= l {
        assert Ht(s2, order2, r') == Ht(s, order, r' - 1);
      }
      assert At(order2, r + 1 + lk.span) == At(order, r + lk.span);
      assert Ht(s2, order2, r + 1 + lk.span) == Ht(s, order, r + lk.span);
    } else {
      forall r' | r + 1 < r' <= s2.length ensures Ht(s2, order2, r') <= l {
        assert Ht(s2, order2, r') == Ht(s, order, r' - 1);
      }
    }
  }

  /** Every link of the new list is right. */
  lemma InsertedLinks<V>(s: State<V>, order: seq<int>, k: Key, value: V, rk: seq<int>, lvl: int,
                         s2: State<V>, order2: seq<int>)
    requires InsertedAs(s, order, k, value, rk, lvl, s2, order2)
    ensures Shape(s2, order2) && Links(s2, order2)
  {
    var p := Pos(s, order, k);
    InsertedRenumbered(s, order, k, value, rk, lvl, s2, order2);
    DescentEnds(s, order, k, rk, lvl);
    forall r, l | 0 <= r <= s2.length && 0 <= l < s2.level && l < Ht(s2, order2, r)
      ensures LinkOk(s2, order2, r, l)
    {
      if r == p + 1 {
        InsertedLinkOfNew(s, order, k, value, rk, lvl, s2, order2, l);
      } else if r <= p {
        InsertedLinkBefore(s, order, k, value, rk, lvl, s2, order2, r, l);
      } else {
        InsertedLinkAfter(s, order, k, value, rk, lvl, s2, order2, r - 1, l);
      }
    }
  }

  lemma InsertedLinkOfNew<V>(s: State<V>, order: seq<int>, k: Key, value: V, rk: seq<int>, lvl: int,
                             s2: State<V>, order2: seq<int>, l: int)
    requires InsertedAs(s, order, k, value, rk, lvl, s2, order2) && Renumbered(s, order, k, lvl, s2, order2)
    requires 0 <= l < s2.level && l < Ht(s2, order2, Pos(s, order, k) + 1)
    ensures LinkOk(s2, order2, Pos(s, order, k) + 1, l)
  {
    var p := Pos(s, order, k);
    assert Frontier(s, order, rk[l], l, p);
    if l < s.level {
      LinkAt(s, order, rk[l], l);
    }
    LinkOfNewNode(s, order, k, rk, lvl, s2, order2, l);
  }

  lemma InsertedLinkBefore<V>(s: State<V>, order: seq<int>, k: Key, value: V, rk: seq<int>, lvl: int,
                              s2: State<V>, order2: seq<int>, r: int, l: int)
    requires InsertedAs(s, order, k, value, rk, lvl, s2, order2) && Renumbered(s, order, k, lvl, s2, order2)
    requires forall l :: s.level <= l < Top(s.level, lvl) ==> rk[l] == 0
    requires 0 <= r <= Pos(s, order, k) && 0 <= l < s2.level && l < Ht(s2, order2, r)
    ensures LinkOk(s2, order2, r, l)
  {
    var p := Pos(s, order, k);
    assert s2.nodes[At(order, r)].levels[l] == NewLink(s, order, k, rk, lvl, r, l);
    assert Frontier(s, order, rk[l], l, p);
    if r == rk[l] {
      if l < lvl {
        LinkToNewNode(s, order, k, rk, lvl, s2, order2, l);
      } else {
        LinkAt(s, order, r, l);
        LinkOverNewNode(s, order, k, rk, lvl, s2, order2, l);
      }
    } else {
      assert l < s.level by {
        if r > 0 {
          assert Ht(s, order, r) == |s.nodes[order[r - 1]].levels|;
        } else {
          assert Ht(s, order, rk[l]) == |s.nodes[order[rk[l] - 1]].levels|;
        }
      }
      LinkAt(s, order, r, l);
      LinkBeforeFrontier(s, order, k, rk, lvl, s2, order2, r, l);
    }
  }

  lemma InsertedLinkAfter<V>(s: State<V>, order: seq<int>, k: Key, value: V, rk: seq<int>, lvl: int,
                             s2: State<V>, order2: seq<int>, r: int, l: int)
    requires InsertedAs(s, order, k, value, rk, lvl, s2, order2) && Renumbered(s, order, k, lvl, s2, order2)
    requires Pos(s, order, k) < r <= s.length && 0 <= l < s2.level && l < Ht(s2, order2, r + 1)
    ensures LinkOk(s2, order2, r + 1, l)
  {
    assert s2.nodes[At(order, r)].levels[l] == NewLink(s, order, k, rk, lvl, r, l);
    assert Ht(s, order, r) == |s.nodes[order[r - 1]].levels|;
    assert Frontier(s, order, rk[l], l, Pos(s, order, k));
    LinkAt(s, order, r, l);
    LinkAfterNewNode(s, order, k, lvl, s2, order2, r, l);
  }

  /** The new list holds the old elements with the new one at rank p + 1. */
  lemma InsertedElements<V>(s: State<V>, order: seq<int>, k: Key, value: V, rk: seq<int>, lvl: int,
                            s2: State<V>, order2: seq<int>)
    requires InsertedAs(s, order, k, value, rk, lvl, s2, order2) && Shape(s2, order2)
    ensures var p := Pos(s, order, k);
      Elements(s2, order2) == Elements(s, order)[..p] + [Element(k.member, k.score, value)] + Elements(s, order)[p..]
    ensures var p := Pos(s, order, k);
      Keys(s2, order2) == Keys(s, order)[..p] + [k] + Keys(s, order)[p..]
  {
    var n, p := |s.nodes|, Pos(s, order, k);
    var es, es2 := Elements(s, order), Elements(s2, order2);
    var ks, ks2 := Keys(s, order), Keys(s2, order2);
    var e := es[..p] + [Element(k.member, k.score, value)] + es[p..];
    var kk := ks[..p] + [k] + ks[p..];
    InsertedAt(order, p, n, order2);
    forall i | 0 <= i < |order2| ensures es2[i] == e[i] && ks2[i] == kk[i] {
      if i < p {
        assert order2[i] == At(order2, i + 1) == At(order, i + 1) == order[i];
        assert Moved(s2.nodes[At(order, i + 1)], s.nodes[At(order, i + 1)], if i + 1 == p + 1 then n else s.nodes[At(order, i + 1)].backward);
      } else if i > p {
        assert order2[i] == At(order2, i + 1) == At(order, i) == order[i - 1];
        assert Moved(s2.nodes[At(order, i)], s.nodes[At(order, i)], if i == p + 1 then n else s.nodes[At(order, i)].backward);
      } else {
        assert order2[i] == At(order2, p + 1) == n;
      }
    }
  }

  /** Back links, the tail and the head of the new list are right. */
  lemma InsertedEnds<V>(s: State<V>, order: seq<int>, k: Key, value: V, rk: seq<int>, lvl: int,
                        s2: State<V>, order2: seq<int>)
    requires InsertedAs(s, order, k, value, rk, lvl, s2, order2) && Shape(s2, order2)
    ensures Backs(s2, order2)
    ensures if s2.length == 0 then s2.tail == Head || s2.tail == Nil else s2.tail == At(order2, s2.length)
    ensures forall l :: s2.level <= l < MaxLevel ==> s2.nodes[Head].levels[l].forward == Nil
    ensures s2.level > 1 ==> s2.nodes[Head].levels[s2.level - 1].forward != Nil
    ensures s2.nodes[Head].member == "" && s2.nodes[Head].score == 0 && s2.nodes[Head].backward == Nil
  {
    var n, p := |s.nodes|, Pos(s, order, k);
    InsertedAt(order, p, n, order2);
    DescentEnds(s, order, k, rk, lvl);
    forall r | 1 <= r <= s2.length
      ensures s2.nodes[At(order2, r)].backward == (if r == 1 then Nil else At(order2, r - 1))
    {
      if r <= p {
        assert At(order2, r - 1) == At(order, r - 1);
        assert Moved(s2.nodes[At(order, r)], s.nodes[At(order, r)], if r == p + 1 then n else s.nodes[At(order, r)].backward);
      } else if r == p + 2 {
        assert At(order2, r) == At(order, r - 1);
        assert Moved(s2.nodes[At(order, r - 1)], s.nodes[At(order, r - 1)], n);
      } else if r > p + 2 {
        assert At(order2, r) == At(order, r - 1) && At(order2, r - 1) == At(order, r - 2);
        assert Moved(s2.nodes[At(order, r - 1)], s.nodes[At(order, r - 1)], s.nodes[At(order, r - 1)].backward);
      }
    }
    assert Moved(s2.nodes[At(order, 0)], s.nodes[At(order, 0)], s.nodes[At(order, 0)].backward);
    forall l | s2.level <= l < MaxLevel ensures s2.nodes[Head].levels[l].forward == Nil {
      assert s2.nodes[At(order, 0)].levels[l] == NewLink(s, order, k, rk, lvl, 0, l);
    }
    if s2.level > 1 {
      var l := s2.level - 1;
      assert s2.nodes[At(order, 0)].levels[l] == NewLink(s, order, k, rk, lvl, 0, l);
    }
  }

  /** Inserting a key the list does not hold leaves a well-formed list with
      the new element at rank CountBelow + 1 and the old ones around it. */
  lemma InsertedWf<V>(s: State<V>, order: seq<int>, k: Key, value: V, rk: seq<int>, lvl: int,
                      s2: State<V>, order2: seq<int>)
    requires InsertedAs(s, order, k, value, rk, lvl, s2, order2)
    requires k !in Keys(s, order)
    ensures Wf(s2, order2)
    ensures var p := CountBelow(Keys(s, order), k);
      Elements(s2, order2) == Elements(s, order)[..p] + [Element(k.member, k.score, value)] + Elements(s, order)[p..]
  {
    InsertedShape(s, order, k, value, rk, lvl, s2, order2);
    InsertedLinks(s, order, k, value, rk, lvl, s2, order2);
    InsertedElements(s, order, k, value, rk, lvl, s2, order2);
    InsertedEnds(s, order, k, value, rk, lvl, s2, order2);
    InsertKeepsAscending(Keys(s, order), k);
  }
}
