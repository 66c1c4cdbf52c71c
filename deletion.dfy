/** Why zskiplist.delete keeps the invariant. The descent records, on every
    active level, the frontier rank `rk[l]` before the key; deleteNode then
    rewires exactly one link per level: the frontier either skips the target
    (taking over its link) or, where the target is too low to be linked, spans
    one node less. `DeletedAs` describes the state after the splice and the
    back-link fix, link by link; `DeletedUnshrunk` proves it well formed but
    for the active level, and `Shrunk` finishes once the empty top levels are
    dropped. */
module Deletion {
  import opened Ordering
  import opened Arena

  /** The descent of delete has found the key `k`, held by the node of rank
      `Pos + 1`, and on every active level the frontier before it. */
  ghost predicate Found<V>(s: State<V>, order: seq<int>, k: Key, rk: seq<int>) {
    && Wf(s, order) && |rk| == MaxLevel
    && Pos(s, order, k) < s.length && Keys(s, order)[Pos(s, order, k)] == k
    && (forall l :: 0 <= l < s.level ==> Frontier(s, order, rk[l], l, Pos(s, order, k)))
  }

  /** Link `l` of rank `r` once the node of rank q = Pos + 1 is unlinked: the
      frontier of a level the target reaches takes over the target's link; the
      frontier of a level above the target spans one node less; every other
      link is unchanged. */
  ghost function DelLink<V>(s: State<V>, order: seq<int>, k: Key, rk: seq<int>, r: int, l: int): Level
    requires Shape(s, order) && |rk| == MaxLevel && Pos(s, order, k) < |order|
    requires 0 <= r <= |order| && 0 <= l < Ht(s, order, r)
  {
    var q := Pos(s, order, k) + 1;
    var lk := s.nodes[At(order, r)].levels[l];
    if l < s.level && r == rk[l] then
      if l < Ht(s, order, q) then
        var tl := s.nodes[At(order, q)].levels[l];
        Level(tl.forward, lk.span + tl.span - 1)
      else
        Level(lk.forward, lk.span - 1)
    else lk
  }

  /** What deleteNode writes on level `i` of the frontier node `u` when the
      target is node `t`. */
  function Unlinked<V>(nodes: seq<Node<V>>, u: int, t: int, i: int): Level
    requires 0 <= u < |nodes| && 0 <= t < |nodes| && 0 <= i < |nodes[u].levels|
    requires nodes[u].levels[i].forward == t ==> i < |nodes[t].levels|
  {
    var lk := nodes[u].levels[i];
    if lk.forward == t then Level(nodes[t].levels[i].forward, lk.span + nodes[t].levels[i].span - 1)
    else Level(lk.forward, lk.span - 1)
  }

  /** The nodes while deleteNode's level loop is under way: levels below `i`
      are rewired, the others and the target itself are as before. */
  ghost predicate Unlinking<V>(s: State<V>, order: seq<int>, k: Key, rk: seq<int>, nodes: seq<Node<V>>, i: int)
    requires Found(s, order, k, rk)
  {
    var q := Pos(s, order, k) + 1;
    && 0 <= i <= s.level
    && |nodes| == |s.nodes|
    && nodes[At(order, q)] == s.nodes[At(order, q)]
    && (forall r :: 0 <= r <= s.length ==>
          Moved(nodes[At(order, r)], s.nodes[At(order, r)], s.nodes[At(order, r)].backward))
    && (forall r, l :: 0 <= r <= s.length && r != q && 0 <= l < Ht(s, order, r) ==>
          nodes[At(order, r)].levels[l] == (if l < i then DelLink(s, order, k, rk, r, l) else s.nodes[At(order, r)].levels[l]))
  }

  /** Before the loop nothing is rewired. */
  lemma StartUnlink<V>(s: State<V>, order: seq<int>, k: Key, rk: seq<int>)
    requires Found(s, order, k, rk)
    ensures Unlinking(s, order, k, rk, s.nodes, 0)
  {
  }

  /** The frontier of level `i` links to the target exactly when the target
      reaches level `i`. */
  lemma FrontierLinksTarget<V>(s: State<V>, order: seq<int>, k: Key, rk: seq<int>, i: int)
    requires Found(s, order, k, rk) && 0 <= i < s.level
    ensures var u, q := rk[i], Pos(s, order, k) + 1;
      && 0 <= u < q <= s.length && i < Ht(s, order, u)
      && (s.nodes[At(order, u)].levels[i].forward == At(order, q) <==> i < Ht(s, order, q))
      && (i < Ht(s, order, q) ==> u + s.nodes[At(order, u)].levels[i].span == q)
  {
    var u, p, q := rk[i], Pos(s, order, k), Pos(s, order, k) + 1;
    assert Frontier(s, order, u, i, p);
    LinkAt(s, order, u, i);
    var lk := s.nodes[At(order, u)].levels[i];
    if lk.forward != Nil {
      AtInjective(order, u + lk.span, q);
      if i < Ht(s, order, q) {
        assert u + lk.span == q;
      }
    }
  }

  /** One level of deleteNode's loop. */
  lemma UnlinkStep<V>(s: State<V>, order: seq<int>, k: Key, rk: seq<int>, nodes: seq<Node<V>>, i: int)
    requires Found(s, order, k, rk) && Unlinking(s, order, k, rk, nodes, i) && i < s.level
    ensures var u, t := At(order, rk[i]), At(order, Pos(s, order, k) + 1);
      && 0 <= u < |nodes| && 0 <= t < |nodes| && i < |nodes[u].levels|
      && (nodes[u].levels[i].forward == t <==> i < |nodes[t].levels|)
      && Unlinking(s, order, k, rk, SetLevel(nodes, u, i, Unlinked(nodes, u, t, i)), i + 1)
  {
    var p, q := Pos(s, order, k), Pos(s, order, k) + 1;
    var u, t := At(order, rk[i]), At(order, q);
    FrontierLinksTarget(s, order, k, rk, i);
    assert Moved(nodes[At(order, rk[i])], s.nodes[At(order, rk[i])], s.nodes[At(order, rk[i])].backward);
    assert nodes[u].levels[i] == s.nodes[u].levels[i];
    AtInjective(order, rk[i], q);
    var n2 := SetLevel(nodes, u, i, Unlinked(nodes, u, t, i));
    assert n2[u].levels[i] == DelLink(s, order, k, rk, rk[i], i);
    forall r | 0 <= r <= s.length
      ensures Moved(n2[At(order, r)], s.nodes[At(order, r)], s.nodes[At(order, r)].backward)
    {
      assert Moved(nodes[At(order, r)], s.nodes[At(order, r)], s.nodes[At(order, r)].backward);
    }
    forall r, l | 0 <= r <= s.length && r != q && 0 <= l < Ht(s, order, r)
      ensures n2[At(order, r)].levels[l] == (if l < i + 1 then DelLink(s, order, k, rk, r, l) else s.nodes[At(order, r)].levels[l])
    {
      AtInjective(order, r, rk[i]);
    }
  }

  /** The state after the splice and the back-link fix, described link by
      link against the state before; the level is not lowered yet. */
  ghost predicate DeletedAs<V>(s: State<V>, order: seq<int>, k: Key, rk: seq<int>, s2: State<V>, order2: seq<int>) {
    && Found(s, order, k, rk)
    && var p := Pos(s, order, k);
    var q := p + 1;
    var t := s.nodes[At(order, q)];
    && order2 == order[..p] + order[q..]
    && |s2.nodes| == |s.nodes| && s2.length == s.length - 1 && s2.level == s.level
    && s2.tail == (if q == s.length then t.backward else s.tail)
    && (forall r :: 0 <= r <= s.length && r != q ==>
          Moved(s2.nodes[At(order, r)], s.nodes[At(order, r)], if r == q + 1 then t.backward else s.nodes[At(order, r)].backward))
    && (forall r, l :: 0 <= r <= s.length && r != q && 0 <= l < Ht(s, order, r) ==>
          s2.nodes[At(order, r)].levels[l] == DelLink(s, order, k, rk, r, l))
  }

  /** deleteNode's back-link fix after the loop: the successor of the target
      takes over its back link, or the tail moves back to it. */
  lemma FinishDelete<V>(s: State<V>, order: seq<int>, k: Key, rk: seq<int>, nodes: seq<Node<V>>,
                        s2: State<V>, order2: seq<int>)
    requires Found(s, order, k, rk) && Unlinking(s, order, k, rk, nodes, s.level)
    requires var t := At(order, Pos(s, order, k) + 1);
      var f := nodes[t].levels[0].forward;
      && (f == Nil || 0 <= f < |nodes|)
      && s2 == State(if f != Nil then nodes[f := nodes[f].(backward := nodes[t].backward)] else nodes,
                     if f != Nil then s.tail else nodes[t].backward, s.length - 1, s.level)
    requires order2 == order[..Pos(s, order, k)] + order[Pos(s, order, k) + 1..]
    ensures DeletedAs(s, order, k, rk, s2, order2)
  {
    var p, q := Pos(s, order, k), Pos(s, order, k) + 1;
    var t := At(order, q);
    LinkAt(s, order, q, 0);
    var f := nodes[t].levels[0].forward;
    assert q < s.length ==> Ht(s, order, q + 1) >= 1;
    assert f == (if q == s.length then Nil else At(order, q + 1));
    forall r | 0 <= r <= s.length && r != q
      ensures Moved(s2.nodes[At(order, r)], s.nodes[At(order, r)], if r == q + 1 then s.nodes[t].backward else s.nodes[At(order, r)].backward)
    {
      assert Moved(nodes[At(order, r)], s.nodes[At(order, r)], s.nodes[At(order, r)].backward);
      if q < s.length {
        AtInjective(order, r, q + 1);
      }
    }
    forall r, l | 0 <= r <= s.length && r != q && 0 <= l < Ht(s, order, r)
      ensures s2.nodes[At(order, r)].levels[l] == DelLink(s, order, k, rk, r, l)
    {
      assert nodes[At(order, r)].levels[l] == DelLink(s, order, k, rk, r, l);
    }
  }

  /** Ranks in a list with the node of rank p + 1 removed. */
  lemma DeletedAt(order: seq<int>, p: int, order2: seq<int>)
    requires 0 <= p < |order| && order2 == order[..p] + order[p + 1..]
    ensures |order2| == |order| - 1
    ensures forall r :: 0 <= r <= p ==> At(order2, r) == At(order, r)
    ensures forall r :: p < r < |order| ==> At(order2, r) == At(order, r + 1)
  {
    forall r | 0 < r <= p ensures At(order2, r) == At(order, r) {
      assert order2[r - 1] == order[r - 1];
    }
    forall r | p < r < |order| ensures At(order2, r) == At(order, r + 1) {
      assert order2[r - 1] == order[r];
    }
  }

  /** Ranks and heights of the new list in terms of the old one. */
  ghost predicate Closed<V>(s: State<V>, order: seq<int>, k: Key, s2: State<V>, order2: seq<int>)
    requires Shape(s, order)
  {
    var p := Pos(s, order, k);
    && Shape(s2, order2) && p < s.length && s2.length == s.length - 1
    && (forall r :: 0 <= r <= p ==> At(order2, r) == At(order, r) && Ht(s2, order2, r) == Ht(s, order, r))
    && (forall r :: p < r <= s2.length ==> At(order2, r) == At(order, r + 1) && Ht(s2, order2, r) == Ht(s, order, r + 1))
  }

  lemma DeletedClosed<V>(s: State<V>, order: seq<int>, k: Key, rk: seq<int>, s2: State<V>, order2: seq<int>)
    requires DeletedAs(s, order, k, rk, s2, order2)
    ensures Closed(s, order, k, s2, order2)
  {
    var p, q := Pos(s, order, k), Pos(s, order, k) + 1;
    DeletedAt(order, p, order2);
    DeletedShape(s, order, k, rk, s2, order2);
    forall r | 0 <= r <= p ensures Ht(s2, order2, r) == Ht(s, order, r) {
      assert Moved(s2.nodes[At(order, r)], s.nodes[At(order, r)], s.nodes[At(order, r)].backward);
    }
    forall r | p < r <= s2.length ensures Ht(s2, order2, r) == Ht(s, order, r + 1) {
      assert r + 1 == q + 1 ==> Moved(s2.nodes[At(order, r + 1)], s.nodes[At(order, r + 1)], s.nodes[At(order, q)].backward);
      assert r + 1 != q + 1 ==> Moved(s2.nodes[At(order, r + 1)], s.nodes[At(order, r + 1)], s.nodes[At(order, r + 1)].backward);
    }
  }

  /** The new list is well shaped: every remaining node is in range and
      not too tall, and the remaining handles are distinct. */
  lemma DeletedShape<V>(s: State<V>, order: seq<int>, k: Key, rk: seq<int>, s2: State<V>, order2: seq<int>)
    requires DeletedAs(s, order, k, rk, s2, order2)
    ensures Shape(s2, order2)
  {
    var p, q := Pos(s, order, k), Pos(s, order, k) + 1;
    DeletedAt(order, p, order2);
    assert Moved(s2.nodes[At(order, 0)], s.nodes[At(order, 0)], s.nodes[At(order, 0)].backward);
    forall i | 0 <= i < |order2|
      ensures 1 <= order2[i] < |s2.nodes| && 1 <= |s2.nodes[order2[i]].levels| <= s2.level
    {
      var r := if i < p then i + 1 else i + 2;
      assert order2[i] == At(order2, i + 1) == At(order, r);
      assert Moved(s2.nodes[At(order, r)], s.nodes[At(order, r)],
                   if r == q + 1 then s.nodes[At(order, q)].backward else s.nodes[At(order, r)].backward);
    }
    forall i, j | 0 <= i < j < |order2| ensures Apart(order2, i, j) {
      var i', j' := if i < p then i else i + 1, if j < p then j else j + 1;
      assert order2[i] == order[i'] && order2[j] == order[j'] && Apart(order, i', j');
    }
  }

  /** The frontier of a level the target reaches takes over the target's link. */
  lemma LinkAcrossTarget<V>(s: State<V>, order: seq<int>, k: Key, s2: State<V>, order2: seq<int>, u: int, l: int)
    requires Shape(s, order) && Closed(s, order, k, s2, order2)
    requires 0 <= l && Frontier(s, order, u, l, Pos(s, order, k))
    requires l < Ht(s, order, Pos(s, order, k) + 1)
    requires u + s.nodes[At(order, u)].levels[l].span == Pos(s, order, k) + 1
    requires LinkOk(s, order, Pos(s, order, k) + 1, l) && l < Ht(s2, order2, u)
    requires var tl := s.nodes[At(order, Pos(s, order, k) + 1)].levels[l];
      s2.nodes[At(order2, u)].levels[l] == Level(tl.forward, s.nodes[At(order, u)].levels[l].span + tl.span - 1)
    ensures LinkOk(s2, order2, u, l)
  {
    var p, q := Pos(s, order, k), Pos(s, order, k) + 1;
    var tl := s.nodes[At(order, q)].levels[l];
    if tl.forward == Nil {
      forall r | u < r <= s2.length ensures Ht(s2, order2, r) <= l {
        if r > p {
          assert Ht(s2, order2, r) == Ht(s, order, r + 1);
        }
      }
    } else {
      forall r | u < r < q + tl.span - 1 ensures Ht(s2, order2, r) <= l {
        if r > p {
          assert Ht(s2, order2, r) == Ht(s, order, r + 1);
        }
      }
      assert At(order2, q + tl.span - 1) == At(order, q + tl.span);
      assert Ht(s2, order2, q + tl.span - 1) == Ht(s, order, q + tl.span);
    }
  }

  /** The frontier of a level above the target spans one node less. */
  lemma LinkOverTarget<V>(s: State<V>, order: seq<int>, k: Key, s2: State<V>, order2: seq<int>, u: int, l: int)
    requires Shape(s, order) && Closed(s, order, k, s2, order2)
    requires 0 <= l && Frontier(s, order, u, l, Pos(s, order, k))
    requires Ht(s, order, Pos(s, order, k) + 1) <= l
    requires LinkOk(s, order, u, l) && l < Ht(s2, order2, u)
    requires var lk := s.nodes[At(order, u)].levels[l];
      s2.nodes[At(order2, u)].levels[l] == Level(lk.forward, lk.span - 1)
    ensures LinkOk(s2, order2, u, l)
  {
    var p, q := Pos(s, order, k), Pos(s, order, k) + 1;
    var lk := s.nodes[At(order, u)].levels[l];
    if lk.forward == Nil {
      forall r | u < r <= s2.length ensures Ht(s2, order2, r) <= l {
        if r > p {
          assert Ht(s2, order2, r) == Ht(s, order, r + 1);
        }
      }
    } else {
      assert u + lk.span > q;
      forall r | u < r < u + lk.span - 1 ensures Ht(s2, order2, r) <= l {
        if r > p {
          assert Ht(s2, order2, r) == Ht(s, order, r + 1);
        }
      }
      assert At(order2, u + lk.span - 1) == At(order, u + lk.span);
      assert Ht(s2, order2, u + lk.span - 1) == Ht(s, order, u + lk.span);
    }
  }

  /** A link before the frontier `u` of its level lies wholly before the target. */
  lemma LinkBeforeTarget<V>(s: State<V>, order: seq<int>, k: Key, s2: State<V>, order2: seq<int>, u: int, r: int, l: int)
    requires Shape(s, order) && Closed(s, order, k, s2, order2)
    requires 0 <= l && Frontier(s, order, u, l, Pos(s, order, k)) && r != u
    requires 0 <= r <= Pos(s, order, k) && l < Ht(s, order, r)
    requires LinkOk(s, order, r, l) && l < Ht(s2, order2, r)
    requires s2.nodes[At(order2, r)].levels[l] == s.nodes[At(order, r)].levels[l]
    ensures LinkOk(s2, order2, r, l)
  {
    var lk := s.nodes[At(order, r)].levels[l];
    assert r < u;
    assert lk.forward != Nil && r + lk.span <= u;
  }

  /** A link after the target moves down one rank with its target. */
  lemma LinkAfterTarget<V>(s: State<V>, order: seq<int>, k: Key, s2: State<V>, order2: seq<int>, r: int, l: int)
    requires Shape(s, order) && Closed(s, order, k, s2, order2)
    requires Pos(s, order, k) + 1 < r <= s.length && 0 <= l < Ht(s, order, r)
    requires LinkOk(s, order, r, l) && l < Ht(s2, order2, r - 1)
    requires s2.nodes[At(order2, r - 1)].levels[l] == s.nodes[At(order, r)].levels[l]
    ensures LinkOk(s2, order2, r - 1, l)
  {
    var lk := s.nodes[At(order, r)].levels[l];
    if lk.forward != Nil {
      forall r' | r - 1 < r' < r - 1 + lk.span ensures Ht(s2, order2, r') <= l {
        assert Ht(s2, order2, r') == Ht(s, order, r' + 1);
      }
      assert At(order2, r - 1 + lk.span) == At(order, r + lk.span);
      assert Ht(s2, order2, r - 1 + lk.span) == Ht(s, order, r + lk.span);
    } else {
      forall r' | r - 1 < r' <= s2.length ensures Ht(s2, order2, r') <= l {
        assert Ht(s2, order2, r') == Ht(s, order, r' + 1);
      }
    }
  }

  /** Every link of the new list is right, on the old active levels. */
  lemma DeletedLinks<V>(s: State<V>, order: seq<int>, k: Key, rk: seq<int>, s2: State<V>, order2: seq<int>)
    requires DeletedAs(s, order, k, rk, s2, order2)
    ensures Shape(s2, order2) && Links(s2, order2)
  {
    var p, q := Pos(s, order, k), Pos(s, order, k) + 1;
    DeletedClosed(s, order, k, rk, s2, order2);
    forall r, l | 0 <= r <= s2.length && 0 <= l < s2.level && l < Ht(s2, order2, r)
      ensures LinkOk(s2, order2, r, l)
    {
      if r <= p {
        DeletedLinkBefore(s, order, k, rk, s2, order2, r, l);
      } else {
        DeletedLinkAfter(s, order, k, rk, s2, order2, r, l);
      }
    }
  }

  lemma DeletedLinkAfter<V>(s: State<V>, order: seq<int>, k: Key, rk: seq<int>, s2: State<V>, order2: seq<int>, r: int, l: int)
    requires DeletedAs(s, order, k, rk, s2, order2) && Closed(s, order, k, s2, order2)
    requires Pos(s, order, k) < r <= s2.length && 0 <= l < s2.level && l < Ht(s2, order2, r)
    ensures LinkOk(s2, order2, r, l)
  {
    var p := Pos(s, order, k);
    assert s2.nodes[At(order, r + 1)].levels[l] == DelLink(s, order, k, rk, r + 1, l);
    assert Frontier(s, order, rk[l], l, p);
    LinkAt(s, order, r + 1, l);
    LinkAfterTarget(s, order, k, s2, order2, r + 1, l);
  }

  lemma DeletedLinkBefore<V>(s: State<V>, order: seq<int>, k: Key, rk: seq<int>, s2: State<V>, order2: seq<int>, r: int, l: int)
    requires DeletedAs(s, order, k, rk, s2, order2) && Closed(s, order, k, s2, order2)
    requires 0 <= r <= Pos(s, order, k) && 0 <= l < s2.level && l < Ht(s2, order2, r)
    ensures LinkOk(s2, order2, r, l)
  {
    var p, q := Pos(s, order, k), Pos(s, order, k) + 1;
    assert s2.nodes[At(order, r)].levels[l] == DelLink(s, order, k, rk, r, l);
    assert Frontier(s, order, rk[l], l, p);
    LinkAt(s, order, r, l);
    if r == rk[l] {
      FrontierLinksTarget(s, order, k, rk, l);
      if l < Ht(s, order, q) {
        LinkAt(s, order, q, l);
        LinkAcrossTarget(s, order, k, s2, order2, r, l);
      } else {
        LinkOverTarget(s, order, k, s2, order2, r, l);
      }
    } else {
      LinkBeforeTarget(s, order, k, s2, order2, rk[l], r, l);
    }
  }

  /** The new list holds the old elements but the target's. */
  lemma DeletedElements<V>(s: State<V>, order: seq<int>, k: Key, rk: seq<int>, s2: State<V>, order2: seq<int>)
    requires DeletedAs(s, order, k, rk, s2, order2) && Shape(s2, order2)
    ensures var p := Pos(s, order, k);
      Elements(s2, order2) == Elements(s, order)[..p] + Elements(s, order)[p + 1..]
    ensures var p := Pos(s, order, k);
      Keys(s2, order2) == Keys(s, order)[..p] + Keys(s, order)[p + 1..]
  {
    var p, q := Pos(s, order, k), Pos(s, order, k) + 1;
    var es, es2 := Elements(s, order), Elements(s2, order2);
    var ks, ks2 := Keys(s, order), Keys(s2, order2);
    var e, kk := es[..p] + es[p + 1..], ks[..p] + ks[p + 1..];
    DeletedAt(order, p, order2);
    forall i | 0 <= i < |order2| ensures es2[i] == e[i] && ks2[i] == kk[i] {
      var r := if i < p then i + 1 else i + 2;
      assert order2[i] == At(order2, i + 1) == At(order, r) == order[r - 1];
      if r == q + 1 {
        assert Moved(s2.nodes[At(order, r)], s.nodes[At(order, r)], s.nodes[At(order, q)].backward);
      } else {
        assert Moved(s2.nodes[At(order, r)], s.nodes[At(order, r)], s.nodes[At(order, r)].backward);
      }
    }
  }

  /** Back links, the tail and the head of the new list are right. */
  lemma DeletedEnds<V>(s: State<V>, order: seq<int>, k: Key, rk: seq<int>, s2: State<V>, order2: seq<int>)
    requires DeletedAs(s, order, k, rk, s2, order2) && Shape(s2, order2)
    ensures Backs(s2, order2)
    ensures if s2.length == 0 then s2.tail == Head || s2.tail == Nil else s2.tail == At(order2, s2.length)
    ensures forall l :: s2.level <= l < MaxLevel ==> s2.nodes[Head].levels[l].forward == Nil
    ensures s2.nodes[Head].member == "" && s2.nodes[Head].score == 0 && s2.nodes[Head].backward == Nil
  {
    var p, q := Pos(s, order, k), Pos(s, order, k) + 1;
    var t := s.nodes[At(order, q)];
    DeletedAt(order, p, order2);
    assert t.backward == (if q == 1 then Nil else At(order, p));
    forall r | 1 <= r <= s2.length
      ensures s2.nodes[At(order2, r)].backward == (if r == 1 then Nil else At(order2, r - 1))
    {
      if r <= p {
        assert At(order2, r) == At(order, r) && At(order2, r - 1) == At(order, r - 1);
        assert Moved(s2.nodes[At(order, r)], s.nodes[At(order, r)], s.nodes[At(order, r)].backward);
      } else if r == q {
        assert At(order2, r) == At(order, r + 1) && At(order2, r - 1) == At(order, p);
        assert Moved(s2.nodes[At(order, r + 1)], s.nodes[At(order, r + 1)], t.backward);
      } else {
        assert At(order2, r) == At(order, r + 1) && At(order2, r - 1) == At(order, r);
        assert s.nodes[At(order, r + 1)].backward == At(order, r);
        assert Moved(s2.nodes[At(order, r + 1)], s.nodes[At(order, r + 1)], s.nodes[At(order, r + 1)].backward);
      }
    }
    assert Moved(s2.nodes[At(order, 0)], s.nodes[At(order, 0)], s.nodes[At(order, 0)].backward);
    forall l | s2.level <= l < MaxLevel ensures s2.nodes[Head].levels[l].forward == Nil {
      assert s2.nodes[At(order, 0)].levels[l] == DelLink(s, order, k, rk, 0, l);
    }
  }

  /** Everything of `Wf` but the last demand on the active level: the top
      active level may have emptied. */
  ghost predicate Unshrunk<V>(s: State<V>, order: seq<int>) {
    && Shape(s, order)
    && Ascending(Keys(s, order))
    && Links(s, order)
    && Backs(s, order)
    && (if s.length == 0 then s.tail == Head || s.tail == Nil else s.tail == At(order, s.length))
    && (forall l :: s.level <= l < MaxLevel ==> s.nodes[Head].levels[l].forward == Nil)
    && s.nodes[Head].member == "" && s.nodes[Head].score == 0 && s.nodes[Head].backward == Nil
  }

  /** Once a node is deleted the tail is a real node or nil, never the head:
      an emptied list ends with the first node's nil back link. */
  lemma DeletedTail<V>(s: State<V>, order: seq<int>, k: Key, rk: seq<int>, s2: State<V>, order2: seq<int>)
    requires DeletedAs(s, order, k, rk, s2, order2)
    ensures s2.tail != Head
  {
    var q := Pos(s, order, k) + 1;
    assert Found(s, order, k, rk);
    assert Wf(s, order) && 1 <= q <= s.length;
    Neighbours(s, order, q - 1);
    assert s.tail == At(order, s.length);
  }

  /** After the splice the list is well formed but for the active level, and
      holds the old elements but the target's. */
  lemma DeletedUnshrunk<V>(s: State<V>, order: seq<int>, k: Key, rk: seq<int>, s2: State<V>, order2: seq<int>)
    requires DeletedAs(s, order, k, rk, s2, order2)
    ensures Unshrunk(s2, order2)
    ensures var p := Pos(s, order, k);
      Elements(s2, order2) == Elements(s, order)[..p] + Elements(s, order)[p + 1..]
  {
    DeletedLinks(s, order, k, rk, s2, order2);
    DeletedElements(s, order, k, rk, s2, order2);
    DeletedEnds(s, order, k, rk, s2, order2);
    RemoveKeepsAscending(Keys(s, order), Pos(s, order, k));
  }

  /** Lowering the active level past the empty top levels of the head
      restores the whole invariant: no node is taller than the new level,
      since the head's link on a level a node reaches is not nil. */
  lemma Shrunk<V>(s: State<V>, order: seq<int>, level: int)
    requires Unshrunk(s, order) && 1 <= level <= s.level
    requires forall l :: level <= l < s.level ==> s.nodes[Head].levels[l].forward == Nil
    requires level > 1 ==> s.nodes[Head].levels[level - 1].forward != Nil
    ensures Wf(s.(level := level), order) && Elements(s.(level := level), order) == Elements(s, order)
  {
    var s2 := s.(level := level);
    forall i | 0 <= i < |order| ensures |s.nodes[order[i]].levels| <= level {
      var h := |s.nodes[order[i]].levels|;
      assert Ht(s, order, i + 1) == h;
      assert level < h ==> LinkOk(s, order, 0, h - 1);
    }
    assert Shape(s2, order);
    assert forall r :: 0 <= r <= s.length ==> Ht(s2, order, r) == Ht(s, order, r);
    forall r, l | 0 <= r <= s2.length && 0 <= l < s2.level && l < Ht(s2, order, r)
      ensures LinkOk(s2, order, r, l)
    {
      assert LinkOk(s, order, r, l);
    }
    assert Keys(s2, order) == Keys(s, order);
  }
}
