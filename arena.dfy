/** The skip list's nodes as an arena addressed by integer handles.
    Handle 0 is the head sentinel, -1 stands for a nil pointer, and the
    ghost sequence `order` lists the handles of the real nodes in ascending
    order, so that the node of 1-based rank r is `At(order, r)` (rank 0 is
    the head). `Wf` is the structural invariant of a `zskiplist`. */
module Arena {
  import opened Ordering

  /** SkipListMaxLvl: the head's height and the cap on a node's height. */
  const MaxLevel := 32
  const Nil := -1
  const Head := 0

  /** zslLevel: one forward link and the number of level-0 steps it skips. */
  datatype Level = Level(forward: int, span: int)

  /** zslNode; `levels` has the node's height. */
  datatype Node<V> = Node(member: string, value: V, score: int, backward: int, levels: seq<Level>)

  /** The fields of a zskiplist, the arena standing for its heap of nodes. */
  datatype State<V> = State(nodes: seq<Node<V>>, tail: int, length: int, level: int)

  /** What a sorted set holds for one member. */
  datatype Element<V> = Element(member: string, score: int, value: V)

  function KeyOf<V>(n: Node<V>): Key {
    Key(n.score, n.member)
  }

  function ElementKey<V>(e: Element<V>): Key {
    Key(e.score, e.member)
  }

  /** createNode: a node of the given height with nil links and spans 0. */
  function CreateNode<V>(height: nat, score: int, member: string, value: V): (n: Node<V>)
    ensures |n.levels| == height && n.backward == Nil
    ensures forall l :: 0 <= l < height ==> n.levels[l] == Level(Nil, 0)
  {
    Node(member, value, score, Nil, seq(height, _ => Level(Nil, 0)))
  }

  /** The handle of the node at 1-based rank `r`; rank 0 is the head. */
  function At(order: seq<int>, r: int): int
    requires 0 <= r <= |order|
  {
    if r == 0 then Head else order[r - 1]
  }

  /** Replaces level `l` of node `h`. */
  function SetLevel<V>(nodes: seq<Node<V>>, h: int, l: int, lv: Level): (r: seq<Node<V>>)
    requires 0 <= h < |nodes| && 0 <= l < |nodes[h].levels|
    ensures |r| == |nodes|
  {
    nodes[h := nodes[h].(levels := nodes[h].levels[l := lv])]
  }

  /** Handles, heights and the level counter are in range. */
  ghost predicate Shape<V>(s: State<V>, order: seq<int>) {
    && |s.nodes| >= 1
    && |s.nodes[Head].levels| == MaxLevel
    && 1 <= s.level <= MaxLevel
    && s.length == |order|
    && (forall i :: 0 <= i < |order| ==> 1 <= order[i] < |s.nodes|)
    && (forall i, j :: 0 <= i < j < |order| ==> Apart(order, i, j))
    && (forall i :: 0 <= i < |order| ==> 1 <= |s.nodes[order[i]].levels| <= s.level)
  }

  ghost predicate Apart(order: seq<int>, i: int, j: int)
    requires 0 <= i < |order| && 0 <= j < |order|
  {
    order[i] != order[j]
  }

  /** The height of the node at rank `r`. */
  ghost function Ht<V>(s: State<V>, order: seq<int>, r: int): nat
    requires Shape(s, order) && 0 <= r <= |order|
  {
    |s.nodes[At(order, r)].levels|
  }

  /** The keys of the real nodes, in list order. */
  ghost function Keys<V>(s: State<V>, order: seq<int>): (ks: seq<Key>)
    requires Shape(s, order)
    ensures |ks| == |order|
  {
    seq(|order|, i requires 0 <= i < |order| => KeyOf(s.nodes[order[i]]))
  }

  /** The elements of the real nodes, in list order. */
  ghost function Elements<V>(s: State<V>, order: seq<int>): (es: seq<Element<V>>)
    requires Shape(s, order)
    ensures |es| == |order|
    ensures forall i :: 0 <= i < |order| ==> ElementKey(es[i]) == Keys(s, order)[i]
  {
    seq(|order|, i requires 0 <= i < |order| =>
      Element(s.nodes[order[i]].member, s.nodes[order[i]].score, s.nodes[order[i]].value))
  }

  /** The heights of the real nodes, in list order. */
  ghost function Heights<V>(s: State<V>, order: seq<int>): (hs: seq<nat>)
    requires Shape(s, order)
    ensures |hs| == |order|
    ensures forall r :: 1 <= r <= |order| ==> hs[r - 1] == Ht(s, order, r)
  {
    seq(|order|, i requires 0 <= i < |order| => |s.nodes[order[i]].levels|)
  }

  /** Where a descent towards key `k` ends: the number of keys below it. */
  ghost function Pos<V>(s: State<V>, order: seq<int>, k: Key): nat
    requires Shape(s, order)
  {
    CountBelow(Keys(s, order), k)
  }

  /** Node `a` is node `b` with its back link set to `back` and its levels
      possibly rewired. */
  ghost predicate Moved<V>(a: Node<V>, b: Node<V>, back: int) {
    a.member == b.member && a.score == b.score && a.value == b.value
    && a.backward == back && |a.levels| == |b.levels|
  }

  /** Link `l` of the node at rank `r` reaches the next node of height above
      `l` and spans the ranks in between; a nil link spans the rest of the list. */
  ghost predicate LinkOk<V>(s: State<V>, order: seq<int>, r: int, l: int)
    requires Shape(s, order) && 0 <= r <= |order| && 0 <= l < Ht(s, order, r)
  {
    var lk := s.nodes[At(order, r)].levels[l];
    if lk.forward == Nil then
      && lk.span == s.length - r
      && (forall r' :: r < r' <= s.length ==> Ht(s, order, r') <= l)
    else
      && 1 <= lk.span && r + lk.span <= s.length
      && lk.forward == At(order, r + lk.span)
      && l < Ht(s, order, r + lk.span)
      && (forall r' :: r < r' < r + lk.span ==> Ht(s, order, r') <= l)
  }

  ghost predicate Links<V>(s: State<V>, order: seq<int>)
    requires Shape(s, order)
  {
    forall r, l :: 0 <= r <= s.length && 0 <= l < s.level && l < Ht(s, order, r) ==> LinkOk(s, order, r, l)
  }

  /** Level-0 back links point at the predecessor, nil for the first node. */
  ghost predicate Backs<V>(s: State<V>, order: seq<int>)
    requires Shape(s, order)
  {
    forall r :: 1 <= r <= s.length ==> s.nodes[At(order, r)].backward == (if r == 1 then Nil else At(order, r - 1))
  }

  /** The whole invariant of a zskiplist. */
  ghost predicate Wf<V>(s: State<V>, order: seq<int>) {
    && Shape(s, order)
    && Ascending(Keys(s, order))
    && Links(s, order)
    && Backs(s, order)
    // tail is the last node; an empty list has the head (fresh) or nil (emptied)
    && (if s.length == 0 then s.tail == Head || s.tail == Nil else s.tail == At(order, s.length))
    // levels above the active ones are unused
    && (forall l :: s.level <= l < MaxLevel ==> s.nodes[Head].levels[l].forward == Nil)
    // the active level is the lowest one that still holds every node
    && (s.level > 1 ==> s.nodes[Head].levels[s.level - 1].forward != Nil)
    // the head sentinel's own fields, as newZSkipList creates them
    && s.nodes[Head].member == "" && s.nodes[Head].score == 0 && s.nodes[Head].backward == Nil
  }

  /** The node rank `p` is the last one at or below `p` on level `l`, seen from `u`:
      what the descent has established once it stops at rank `u` on level `l`. */
  ghost predicate Frontier<V>(s: State<V>, order: seq<int>, u: int, l: int, p: int)
    requires Shape(s, order)
  {
    && 0 <= u <= p <= s.length
    && 0 <= l < Ht(s, order, u)
    && (forall r :: u < r <= p ==> Ht(s, order, r) <= l)
  }

  lemma LinkAt<V>(s: State<V>, order: seq<int>, r: int, l: int)
    requires Wf(s, order)
    requires 0 <= r <= s.length && 0 <= l < s.level && l < Ht(s, order, r)
    ensures LinkOk(s, order, r, l)
  {
  }

  lemma AtInjective(order: seq<int>, r1: int, r2: int)
    requires forall i, j :: 0 <= i < j < |order| ==> Apart(order, i, j)
    requires forall i :: 0 <= i < |order| ==> 1 <= order[i]
    requires 0 <= r1 <= |order| && 0 <= r2 <= |order|
    ensures At(order, r1) == At(order, r2) <==> r1 == r2
  {
    if r1 != r2 && r1 > 0 && r2 > 0 {
      if r1 < r2 {
        assert Apart(order, r1 - 1, r2 - 1);
      } else {
        assert Apart(order, r2 - 1, r1 - 1);
      }
    }
  }

  /** A descent that stops at rank `u` on level `l` because the next link is nil
      or leads past rank `p` has found the frontier of level `l`. */
  lemma FrontierAtStop<V>(s: State<V>, order: seq<int>, u: int, l: int, p: int)
    requires Wf(s, order)
    requires 0 <= u <= p <= s.length && 0 <= l < s.level && l < Ht(s, order, u)
    requires var lk := s.nodes[At(order, u)].levels[l]; lk.forward == Nil || u + lk.span > p
    ensures Frontier(s, order, u, l, p)
  {
    LinkAt(s, order, u, l);
  }

  /** On level 0 every node is linked, so the frontier is rank `p` itself. */
  lemma FrontierBottom<V>(s: State<V>, order: seq<int>, u: int, p: int)
    requires Shape(s, order) && Frontier(s, order, u, 0, p)
    ensures u == p
  {
    assert u < p ==> Ht(s, order, p) <= 0;
  }

  /** Every node has height at most `level`, so a level that is not active
      has the head as its frontier. */
  lemma FrontierAboveLevel<V>(s: State<V>, order: seq<int>, l: int, p: int)
    requires Wf(s, order) && s.level <= l < MaxLevel && 0 <= p <= s.length
    ensures Frontier(s, order, 0, l, p)
  {
    forall r | 0 < r <= p ensures Ht(s, order, r) <= l {
      assert order[r - 1] == order[r - 1];
    }
  }

  /** Moving down one level keeps a frontier node on the path. */
  lemma FrontierDown<V>(s: State<V>, order: seq<int>, u: int, l: int, p: int)
    requires Shape(s, order) && Frontier(s, order, u, l, p) && l > 0
    ensures 0 <= l - 1 < Ht(s, order, u) && u <= p
  {
  }

  /** The rank of a key reached by a descent is bounded by the count of keys
      below the target, and a key not below it lies past that count. */
  lemma RankVersusCount<V>(s: State<V>, order: seq<int>, r: int, k: Key)
    requires Wf(s, order) && 1 <= r <= s.length
    ensures Below(KeyOf(s.nodes[At(order, r)]), k) <==> r <= CountBelow(Keys(s, order), k)
  {
    CountBelowSplits(Keys(s, order), k);
    assert Keys(s, order)[r - 1] == KeyOf(s.nodes[At(order, r)]);
  }

  /** The member of the node at rank `r`; the head's is "". */
  lemma MemberAt<V>(s: State<V>, order: seq<int>, r: int)
    requires Wf(s, order) && 0 <= r <= s.length
    ensures r == 0 ==> s.nodes[At(order, r)].member == ""
    ensures r > 0 ==> Keys(s, order)[r - 1].member == s.nodes[At(order, r)].member
  {
  }

  /** No node up to rank `p` reaches the top active level when the descent
      along that level never left the head. */
  lemma TopLevelUnreached<V>(s: State<V>, order: seq<int>, p: int)
    requires Wf(s, order) && Frontier(s, order, 0, s.level - 1, p)
    ensures s.level !in Heights(s, order)[..p]
  {
    var hs := Heights(s, order);
    forall j | 0 <= j < p ensures hs[..p][j] != s.level {
      assert hs[j] == Ht(s, order, j + 1);
    }
  }

  /** A node up to rank `p` of full height reaches the top active level. */
  lemma TopLevelReached<V>(s: State<V>, order: seq<int>, r: int, p: int)
    requires Wf(s, order) && 1 <= r <= p <= s.length && s.level <= Ht(s, order, r)
    ensures s.level in Heights(s, order)[..p]
  {
    var hs := Heights(s, order);
    assert hs[..p][r - 1] == s.level;
  }

  /** One step along level `l` from rank `u`: where the link leads and how the
      key found there compares with `k`. */
  lemma Step<V>(s: State<V>, order: seq<int>, u: int, l: int, k: Key)
    requires Wf(s, order)
    requires 0 <= u <= s.length && 0 <= l < s.level && l < Ht(s, order, u)
    ensures var lk := s.nodes[At(order, u)].levels[l];
      lk.forward != Nil ==>
      && u < u + lk.span <= s.length
      && lk.forward == At(order, u + lk.span) && 1 <= lk.forward < |s.nodes|
      && l < Ht(s, order, u + lk.span)
      && (Below(KeyOf(s.nodes[lk.forward]), k) <==> u + lk.span <= CountBelow(Keys(s, order), k))
  {
    LinkAt(s, order, u, l);
    var lk := s.nodes[At(order, u)].levels[l];
    if lk.forward != Nil {
      RankVersusCount(s, order, u + lk.span, k);
    }
  }

  /** Where a descent stands once it leaves level `l` at rank `u`. */
  lemma Stop<V>(s: State<V>, order: seq<int>, u: int, l: int, p: int)
    requires Wf(s, order)
    requires 0 <= u <= p <= s.length && 0 <= l < s.level && l < Ht(s, order, u)
    requires var lk := s.nodes[At(order, u)].levels[l]; lk.forward == Nil || u + lk.span > p
    ensures Frontier(s, order, u, l, p)
    ensures l == 0 ==> u == p
    ensures u == 0 <==> s.nodes[At(order, u)].member == "" && At(order, u) == Head
    ensures u > 0 ==> Keys(s, order)[u - 1].member == s.nodes[At(order, u)].member
  {
    FrontierAtStop(s, order, u, l, p);
    if l == 0 {
      FrontierBottom(s, order, u, p);
    }
  }

  /** What getRank may answer for key `k`: the count `p` of keys below `k`,
      or an earlier rank whose node carries k's member (the walk stops on the
      first node it stands on with that member; the head carries ""). When no
      key below `k` carries the member, the answer is `p`, except that for
      member "" it is 0 unless a node below `k` reaches the top level `top`. */
  ghost predicate RankAnswer(ks: seq<Key>, hs: seq<nat>, top: int, k: Key, rank: int)
    requires |hs| == |ks|
  {
    var p := CountBelow(ks, k);
    && 0 <= rank <= p
    && (rank == p || (rank == 0 && k.member == "") || (rank > 0 && ks[rank - 1].member == k.member))
    && ((forall i :: 0 <= i < p ==> ks[i].member != k.member) ==>
          rank == (if k.member == "" && top !in hs[..p] then 0 else p))
  }

  /** The answer when the walk stops on a node carrying k's member. */
  lemma AnswerOnMatch<V>(s: State<V>, order: seq<int>, k: Key, u: int, l: int)
    requires Wf(s, order) && 0 <= l < s.level
    requires Frontier(s, order, u, l, CountBelow(Keys(s, order), k))
    requires s.nodes[At(order, u)].member == k.member
    requires u == 0 ==> l == s.level - 1
    ensures RankAnswer(Keys(s, order), Heights(s, order), s.level, k, u)
  {
    MemberAt(s, order, u);
    if u == 0 {
      TopLevelUnreached(s, order, CountBelow(Keys(s, order), k));
    }
  }

  /** The answer when the walk reaches level 0 without such a stop. */
  lemma AnswerAtEnd<V>(s: State<V>, order: seq<int>, k: Key, w: int)
    requires Wf(s, order)
    requires k.member == "" ==> 1 <= w <= CountBelow(Keys(s, order), k) && s.level <= Ht(s, order, w)
    ensures RankAnswer(Keys(s, order), Heights(s, order), s.level, k, CountBelow(Keys(s, order), k))
  {
    if k.member == "" {
      TopLevelReached(s, order, w, CountBelow(Keys(s, order), k));
    }
  }

  /** The level-0 link of rank `p` leads to rank `p + 1`, or is nil at the end. */
  lemma BottomLink<V>(s: State<V>, order: seq<int>, p: int)
    requires Wf(s, order) && 0 <= p <= s.length
    ensures s.nodes[At(order, p)].levels[0].forward == (if p < s.length then order[p] else Nil)
  {
    LinkAt(s, order, p, 0);
    assert p < s.length ==> Ht(s, order, p + 1) >= 1;
  }

  /** Changing a node's value touches neither its key nor its links. */
  lemma Revalued<V>(s: State<V>, order: seq<int>, i: int, v: V)
    requires Wf(s, order) && 0 <= i < s.length
    ensures var s2 := s.(nodes := s.nodes[order[i] := s.nodes[order[i]].(value := v)]);
      && Wf(s2, order)
      && Elements(s2, order) == Elements(s, order)[i := Elements(s, order)[i].(value := v)]
  {
    RevaluedWf(s, order, i, v);
    RevaluedElements(s, order, i, v);
  }

  lemma RevaluedWf<V>(s: State<V>, order: seq<int>, i: int, v: V)
    requires Wf(s, order) && 0 <= i < s.length
    ensures Wf(s.(nodes := s.nodes[order[i] := s.nodes[order[i]].(value := v)]), order)
  {
    var s2 := s.(nodes := s.nodes[order[i] := s.nodes[order[i]].(value := v)]);
    assert forall h :: 0 <= h < |s.nodes| ==> s2.nodes[h].levels == s.nodes[h].levels;
    assert Shape(s2, order);
    assert forall r :: 0 <= r <= s.length ==> Ht(s2, order, r) == Ht(s, order, r);
    assert Keys(s2, order) == Keys(s, order);
    forall r, l | 0 <= r <= s.length && 0 <= l < s.level && l < Ht(s2, order, r)
      ensures LinkOk(s2, order, r, l)
    {
      assert LinkOk(s, order, r, l);
    }
  }

  lemma RevaluedElements<V>(s: State<V>, order: seq<int>, i: int, v: V)
    requires Wf(s, order) && 0 <= i < s.length
    ensures var s2 := s.(nodes := s.nodes[order[i] := s.nodes[order[i]].(value := v)]);
      Elements(s2, order) == Elements(s, order)[i := Elements(s, order)[i].(value := v)]
  {
    var s2 := s.(nodes := s.nodes[order[i] := s.nodes[order[i]].(value := v)]);
    forall j | 0 <= j < s.length
      ensures Elements(s2, order)[j] == Elements(s, order)[i := Elements(s, order)[i].(value := v)][j]
    {
      assert j != i ==> order[j] != order[i] by {
        if j < i { assert Apart(order, j, i); } else if j > i { assert Apart(order, i, j); }
      }
    }
  }

  /** The level-0 neighbours of the node at 0-based position `i`. */
  lemma Neighbours<V>(s: State<V>, order: seq<int>, i: int)
    requires Wf(s, order) && 0 <= i < s.length
    ensures s.nodes[order[i]].backward == (if i == 0 then Nil else order[i - 1])
    ensures s.nodes[order[i]].levels[0].forward == (if i + 1 < s.length then order[i + 1] else Nil)
  {
    BottomLink(s, order, i + 1);
    assert Backs(s, order);
    assert s.nodes[At(order, i + 1)].backward == (if i + 1 == 1 then Nil else At(order, i));
  }

  /** The nodes at the positions of `order` carry the elements `es`, and
      their level-0 links join consecutive positions. */
  ghost predicate Chain<V>(ns: seq<Node<V>>, order: seq<int>, es: seq<Element<V>>) {
    && |order| == |es|
    && forall i :: 0 <= i < |order| ==> LinkedAt(ns, order, es, i)
  }

  /** Position `i` of `order` as Chain describes it. */
  ghost predicate LinkedAt<V>(ns: seq<Node<V>>, order: seq<int>, es: seq<Element<V>>, i: int)
    requires |order| == |es| && 0 <= i < |order|
  {
    && 0 <= order[i] < |ns| && |ns[order[i]].levels| >= 1
    && ns[order[i]].member == es[i].member && ns[order[i]].score == es[i].score
    && ns[order[i]].backward == (if i == 0 then Nil else order[i - 1])
    && ns[order[i]].levels[0].forward == (if i + 1 < |order| then order[i + 1] else Nil)
    && order[i] != Nil && order[i] != Head
  }

  /** A well-formed list is a chain of its elements. */
  lemma Chained<V>(s: State<V>, order: seq<int>)
    requires Wf(s, order)
    ensures Chain(s.nodes, order, Elements(s, order))
  {
    forall i | 0 <= i < |order| ensures LinkedAt(s.nodes, order, Elements(s, order), i) {
      Neighbours(s, order, i);
    }
  }
}
