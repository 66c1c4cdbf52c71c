/** The abstract contents of one sorted set: its elements in ascending
    (score, member) order. The operations of the store are specified by the
    functions of this module, and the lemmas state what those promise. */
module SetSpec {
  import opened Ordering
  import opened Arena

  datatype Option<T> = None | Some(value: T)

  /** How a call of the store ends: a value, Go's error value, or a
      nil-pointer panic. */
  datatype Outcome<T> = Ok(value: T) | Err(msg: string) | Panic

  /** One entry of a `[]interface{}` reply: a member or a score. */
  datatype Item = Member(member: string) | Score(score: int)

  const MinInt64 := -0x8000_0000_0000_0000
  const MaxInt64 := 0x7FFF_FFFF_FFFF_FFFF

  predicate IsInt64(x: int) {
    MinInt64 <= x <= MaxInt64
  }

  /** Go's int64 arithmetic on a result at most one wrap away: it wraps
      into [MinInt64, MaxInt64]. */
  function Wrap64(x: int): (r: int)
    requires 2 * MinInt64 <= x <= 2 * MaxInt64 + 1
    ensures IsInt64(r)
    ensures (r - x) % 0x1_0000_0000_0000_0000 == 0
  {
    if x > MaxInt64 then x - 0x1_0000_0000_0000_0000
    else if x < MinInt64 then x + 0x1_0000_0000_0000_0000
    else x
  }

  /** Go's conversion uint64(x) of an int64. */
  function ToUint64(x: int): (r: int)
    requires IsInt64(x)
    ensures 0 <= r < 0x1_0000_0000_0000_0000
    ensures x >= 0 ==> r == x
    ensures x < 0 ==> r > MaxInt64
  {
    if x < 0 then x + 0x1_0000_0000_0000_0000 else x
  }

  function KeysOf<V>(es: seq<Element<V>>): (ks: seq<Key>)
    ensures |ks| == |es| && forall i :: 0 <= i < |es| ==> ks[i] == ElementKey(es[i])
  {
    seq(|es|, i requires 0 <= i < |es| => ElementKey(es[i]))
  }

  ghost function Members<V>(es: seq<Element<V>>): set<string> {
    set e | e in es :: e.member
  }

  ghost predicate Distinct<V>(es: seq<Element<V>>) {
    forall i, j :: 0 <= i < j < |es| ==> es[i].member != es[j].member
  }

  /** What a sorted set holds: ascending keys, each member once. */
  ghost predicate Sorted<V>(es: seq<Element<V>>) {
    Ascending(KeysOf(es)) && Distinct(es)
  }

  function Reversed<T>(xs: seq<T>): (r: seq<T>)
    ensures |r| == |xs| && forall i :: 0 <= i < |xs| ==> r[i] == xs[|xs| - 1 - i]
  {
    seq(|xs|, i requires 0 <= i < |xs| => xs[|xs| - 1 - i])
  }

  /** The position of member `m`, if the set holds it. */
  function Find<V>(es: seq<Element<V>>, m: string): (r: Option<nat>)
    ensures r.Some? ==> r.value < |es| && es[r.value].member == m
    ensures r.Some? ==> forall j :: 0 <= j < r.value ==> es[j].member != m
    ensures r.None? <==> m !in Members(es)
  {
    if |es| == 0 then None
    else if es[0].member == m then Some(0)
    else
      match Find(es[1..], m)
      case None =>
        assert Members(es) == {es[0].member} + Members(es[1..]) by {
          assert es == [es[0]] + es[1..];
        }
        None
      case Some(i) => Some(i + 1)
  }

  /** `e` placed after every element that sorts before it. */
  function Inserted<V>(es: seq<Element<V>>, e: Element<V>): seq<Element<V>> {
    var p := CountBelow(KeysOf(es), ElementKey(e));
    es[..p] + [e] + es[p..]
  }

  /** The set without member `m`. */
  function Without<V>(es: seq<Element<V>>, m: string): seq<Element<V>> {
    match Find(es, m)
    case None => es
    case Some(i) => es[..i] + es[i + 1..]
  }

  /** ZAdd on one set: a member whose score is unchanged only takes the new
      value in place; otherwise the member is moved (or added) to the place
      of its new score. */
  function Added<V>(es: seq<Element<V>>, m: string, score: int, value: V): seq<Element<V>> {
    match Find(es, m)
    case Some(i) =>
      if es[i].score == score then es[i := Element(m, score, value)]
      else Inserted(Without(es, m), Element(m, score, value))
    case None => Inserted(es, Element(m, score, value))
  }

  /** The reply entries for `es`: members, each followed by its score when
      `withScores` is set. */
  function Emit<V>(es: seq<Element<V>>, withScores: bool): (r: seq<Item>)
    ensures |r| == if withScores then 2 * |es| else |es|
  {
    if |es| == 0 then []
    else Emit(es[..|es| - 1], withScores) + Entry(es[|es| - 1], withScores)
  }

  /** Emitting one more element appends its entry. */
  lemma EmitGrows<V>(es: seq<Element<V>>, e: Element<V>, withScores: bool)
    ensures Emit(es + [e], withScores) == Emit(es, withScores) + Entry(e, withScores)
  {
    assert (es + [e])[..|es|] == es;
  }

  function Entry<V>(e: Element<V>, withScores: bool): seq<Item> {
    if withScores then [Member(e.member), Score(e.score)] else [Member(e.member)]
  }

  /** The elements whose score lies in [lo, hi], in set order. */
  function InScores<V>(es: seq<Element<V>>, lo: int, hi: int): seq<Element<V>> {
    if |es| == 0 then []
    else (if lo <= es[0].score <= hi then [es[0]] else []) + InScores(es[1..], lo, hi)
  }

  /** adjustRange: a negative index counts from the end, clamped at 0. */
  function AdjustRange(value: int, length: int): (r: int)
    requires 0 <= length
    ensures 0 <= r
    ensures value >= 0 ==> r == value
    ensures value < 0 && value + length >= 0 ==> r == value + length
    ensures value < 0 && value + length < 0 ==> r == 0
  {
    if value < 0 then (if value + length < 0 then 0 else value + length) else value
  }

  /** What findRange returns for the 0-based inclusive ranks [start, stop],
      negative ranks counting from the end; with `reverse` the ranks count
      from the highest element down. The stretch `stop - start + 1` is an
      int64 and wraps when it would exceed MaxInt64. */
  function RankRange<V>(es: seq<Element<V>>, start: int, stop: int, reverse: bool, withScores: bool): seq<Item> {
    Emit(RankSlice(es, start, stop, reverse), withScores)
  }

  /** The elements RankRange reports, in reply order. */
  function RankSlice<V>(es: seq<Element<V>>, start: int, stop: int, reverse: bool): seq<Element<V>> {
    var n := |es|;
    var s, t := AdjustRange(start, n), AdjustRange(stop, n);
    if s > t || s >= n || t - s + 1 > MaxInt64 then []
    else
      var hi := if t < n then t else n - 1;
      if reverse then Reversed(es[n - 1 - hi .. n - s])
      else es[s .. hi + 1]
  }

  // ---------------------------------------------------------------------
  // Facts about the specification

  /** The keys of a list's elements are its keys. */
  lemma ElementKeys<V>(s: State<V>, order: seq<int>)
    requires Shape(s, order)
    ensures KeysOf(Elements(s, order)) == Keys(s, order)
  {
  }

  /** Scores never decrease along an ascending set. */
  lemma ScoresAscend<V>(es: seq<Element<V>>, i: int, j: int)
    requires Ascending(KeysOf(es)) && 0 <= i <= j < |es|
    ensures es[i].score <= es[j].score
  {
    if i < j {
      assert InOrder(KeysOf(es), i, j);
    }
  }

  /** In an ascending set the position of an element is the number of keys
      below its own: rank and position agree. */
  lemma PositionIsCount<V>(es: seq<Element<V>>, i: int)
    requires Ascending(KeysOf(es)) && 0 <= i < |es|
    ensures CountBelow(KeysOf(es), ElementKey(es[i])) == i
  {
    var ks := KeysOf(es);
    CountBelowSplits(ks, ks[i]);
    var c := CountBelow(ks, ks[i]);
    BelowIrreflexive(ks[i]);
    assert c < i ==> InOrder(ks, c, i);
  }

  /** Distinct members are as many as the elements: ZCard counts the
      records map, the list counts its nodes, and the two agree. */
  lemma {:induction false} DistinctCount<V>(es: seq<Element<V>>)
    requires Distinct(es)
    ensures |Members(es)| == |es|
  {
    if |es| > 0 {
      var rest := es[1..];
      assert Distinct(rest) by {
        forall i, j | 0 <= i < j < |rest| ensures rest[i].member != rest[j].member {
          assert es[i + 1].member != es[j + 1].member;
        }
      }
      DistinctCount(rest);
      assert es == [es[0]] + rest;
      assert Members(es) == {es[0].member} + Members(rest);
      forall j | 0 <= j < |rest| ensures rest[j].member != es[0].member {
        assert rest[j] == es[j + 1];
      }
    }
  }

  lemma KeysOfSplice<V>(es: seq<Element<V>>, p: nat, e: Element<V>)
    requires p <= |es|
    ensures KeysOf(es[..p] + [e] + es[p..]) == KeysOf(es)[..p] + [ElementKey(e)] + KeysOf(es)[p..]
  {
  }

  lemma KeysOfCut<V>(es: seq<Element<V>>, i: nat)
    requires i < |es|
    ensures KeysOf(es[..i] + es[i + 1..]) == KeysOf(es)[..i] + KeysOf(es)[i + 1..]
  {
  }

  /** Inserting an absent member keeps the set sorted and adds the member. */
  lemma InsertSorted<V>(es: seq<Element<V>>, e: Element<V>)
    requires Sorted(es) && e.member !in Members(es)
    ensures Sorted(Inserted(es, e))
    ensures Members(Inserted(es, e)) == Members(es) + {e.member}
  {
    var ks, k := KeysOf(es), ElementKey(e);
    var p := CountBelow(ks, k);
    KeysOfSplice(es, p, e);
    forall i | 0 <= i < |ks| ensures ks[i] != k {
      assert es[i] in es;
    }
    InsertKeepsAscending(ks, k);
    SpliceDistinct(es, p, e);
    SpliceMembers(es, p, e);
  }

  lemma SpliceDistinct<V>(es: seq<Element<V>>, p: nat, e: Element<V>)
    requires Distinct(es) && p <= |es| && e.member !in Members(es)
    ensures Distinct(es[..p] + [e] + es[p..])
  {
    var r := es[..p] + [e] + es[p..];
    forall i, j | 0 <= i < j < |r| ensures r[i].member != r[j].member {
      if i != p && j != p {
        var i1, j1 := if i < p then i else i - 1, if j < p then j else j - 1;
        assert r[i] == es[i1] && r[j] == es[j1];
      } else {
        var o := if i == p then j else i;
        var o1 := if o < p then o else o - 1;
        assert r[o] == es[o1] && es[o1] in es;
      }
    }
  }

  lemma SpliceMembers<V>(es: seq<Element<V>>, p: nat, e: Element<V>)
    requires p <= |es|
    ensures Members(es[..p] + [e] + es[p..]) == Members(es) + {e.member}
  {
    var r := es[..p] + [e] + es[p..];
    assert es == es[..p] + es[p..];
    assert forall x :: x in r <==> x in es || x == e;
  }

  /** Removing a member keeps the set sorted and takes that member out. */
  lemma RemoveSorted<V>(es: seq<Element<V>>, m: string)
    requires Sorted(es)
    ensures Sorted(Without(es, m))
    ensures Members(Without(es, m)) == Members(es) - {m}
  {
    match Find(es, m)
    case None =>
    case Some(i) =>
      WithoutAt(es, m, i);
      CutSorted(es, i);
      CutMembers(es, i);
  }

  lemma CutSorted<V>(es: seq<Element<V>>, i: nat)
    requires Sorted(es) && i < |es|
    ensures Sorted(es[..i] + es[i + 1..])
  {
    var r := es[..i] + es[i + 1..];
    KeysOfCut(es, i);
    RemoveKeepsAscending(KeysOf(es), i);
    forall a, b | 0 <= a < b < |r| ensures r[a].member != r[b].member {
      var a1, b1 := if a < i then a else a + 1, if b < i then b else b + 1;
      assert r[a] == es[a1] && r[b] == es[b1];
    }
  }

  lemma CutMembers<V>(es: seq<Element<V>>, i: nat)
    requires Distinct(es) && i < |es|
    ensures Members(es[..i] + es[i + 1..]) == Members(es) - {es[i].member}
  {
    CutMembersWithin(es, i);
    CutMembersKept(es, i);
  }

  lemma CutMembersWithin<V>(es: seq<Element<V>>, i: nat)
    requires Distinct(es) && i < |es|
    ensures Members(es[..i] + es[i + 1..]) <= Members(es) - {es[i].member}
  {
    var r := es[..i] + es[i + 1..];
    forall x | x in Members(r) ensures x in Members(es) - {es[i].member} {
      var y :| y in r && y.member == x;
      var a :| 0 <= a < |r| && r[a] == y;
      var a1 := if a < i then a else a + 1;
      assert r[a] == es[a1] && es[a1] in es;
    }
  }

  lemma CutMembersKept<V>(es: seq<Element<V>>, i: nat)
    requires i < |es|
    ensures Members(es) - {es[i].member} <= Members(es[..i] + es[i + 1..])
  {
    var r := es[..i] + es[i + 1..];
    forall x | x in Members(es) - {es[i].member} ensures x in Members(r) {
      var y :| y in es && y.member == x;
      var a :| 0 <= a < |es| && es[a] == y;
      var a1 := if a < i then a else a - 1;
      assert r[a1] == es[a] && r[a1] in r;
    }
  }

  /** ZAdd keeps the set sorted, holds `m` with the new score and value
      afterwards, and adds exactly `m` to the members. */
  lemma AddSorted<V>(es: seq<Element<V>>, m: string, score: int, value: V)
    requires Sorted(es)
    ensures var r := Added(es, m, score, value);
      && Sorted(r)
      && Members(r) == Members(es) + {m}
      && Find(r, m).Some? && r[Find(r, m).value] == Element(m, score, value)
  {
    var e := Element(m, score, value);
    var r := Added(es, m, score, value);
    match Find(es, m)
    case Some(i) =>
      if es[i].score == score {
        assert KeysOf(r) == KeysOf(es);
        forall a, b | 0 <= a < b < |r| ensures r[a].member != r[b].member {
          assert r[a].member == es[a].member && r[b].member == es[b].member;
        }
        assert Members(r) == Members(es) by {
          forall x | x in Members(es) ensures x in Members(r) {
            var y :| y in es && y.member == x;
            var a :| 0 <= a < |es| && es[a] == y;
            assert r[a].member == x;
          }
        }
        FindFirst(r, m, i);
      } else {
        RemoveSorted(es, m);
        InsertSorted(Without(es, m), e);
        InsertedFound(Without(es, m), e);
      }
    case None =>
      InsertSorted(es, e);
      InsertedFound(es, e);
  }

  /** The first occurrence of a member is where `Find` stops. */
  lemma FindFirst<V>(es: seq<Element<V>>, m: string, i: int)
    requires 0 <= i < |es| && es[i].member == m
    requires forall j :: 0 <= j < i ==> es[j].member != m
    ensures Find(es, m) == Some(i)
  {
    assert es[i] in es;
    var j := Find(es, m).value;
    assert !(j < i) && !(i < j);
  }

  lemma InsertedFound<V>(es: seq<Element<V>>, e: Element<V>)
    requires Sorted(es) && e.member !in Members(es)
    ensures Find(Inserted(es, e), e.member).Some?
    ensures Inserted(es, e)[Find(Inserted(es, e), e.member).value] == e
  {
    var p := CountBelow(KeysOf(es), ElementKey(e));
    var r := Inserted(es, e);
    assert r[p] == e;
    forall j | 0 <= j < p ensures r[j].member != e.member {
      assert r[j] == es[j] && es[j] in es;
    }
    FindFirst(r, e.member, p);
  }

  /** Every other member keeps its element through ZAdd: removing `m`
      afterwards gives what removing it before gives. */
  lemma {:induction false} AddThenRemove<V>(es: seq<Element<V>>, m: string, score: int, value: V)
    requires Sorted(es)
    ensures Without(Added(es, m, score, value), m) == Without(es, m)
  {
    var e := Element(m, score, value);
    match Find(es, m)
    case Some(i) =>
      if es[i].score == score {
        var r := es[i := e];
        FindFirst(r, m, i);
        assert r[..i] == es[..i] && r[i + 1..] == es[i + 1..];
      } else {
        RemoveSorted(es, m);
        InsertRemoved(Without(es, m), e);
      }
    case None =>
      InsertRemoved(es, e);
  }

  /** Removing what was just inserted gives the set back. */
  lemma InsertRemoved<V>(es: seq<Element<V>>, e: Element<V>)
    requires Sorted(es) && e.member !in Members(es)
    ensures Without(Inserted(es, e), e.member) == es
  {
    var p := CountBelow(KeysOf(es), ElementKey(e));
    var r := Inserted(es, e);
    InsertedFound(es, e);
    assert r[p] == e;
    forall j | 0 <= j < p ensures r[j].member != e.member {
      assert r[j] == es[j] && es[j] in es;
    }
    FindFirst(r, e.member, p);
    assert r[..p] + r[p + 1..] == es;
  }

  /** The round trip: adding an absent member and removing it again leaves
      the set as it was. */
  lemma AddRemoveRoundTrip<V>(es: seq<Element<V>>, m: string, score: int, value: V)
    requires Sorted(es) && m !in Members(es)
    ensures Without(Added(es, m, score, value), m) == es
  {
    AddThenRemove(es, m, score, value);
  }

  /** A value update at an unchanged score moves nothing: every rank stays. */
  lemma SameScoreKeepsRanks<V>(es: seq<Element<V>>, m: string, score: int, value: V)
    requires Find(es, m).Some? && es[Find(es, m).value].score == score
    ensures KeysOf(Added(es, m, score, value)) == KeysOf(es)
  {
  }

  /** Removing a member moves every member after it one rank down and
      leaves every member before it where it was. */
  lemma RemoveShiftsRanks<V>(es: seq<Element<V>>, m: string, other: string, i: nat, j: nat)
    requires Find(es, m) == Some(i) && Find(es, other) == Some(j) && other != m
    ensures Find(Without(es, m), other) == Some(if j < i then j else j - 1)
  {
    WithoutAt(es, m, i);
    FindAfterCut(es, Without(es, m), i, j, other);
  }

  lemma WithoutAt<V>(es: seq<Element<V>>, m: string, i: int)
    requires Find(es, m) == Some(i)
    ensures Without(es, m) == es[..i] + es[i + 1..]
  {
  }

  lemma FindAfterCut<V>(es: seq<Element<V>>, r: seq<Element<V>>, i: int, j: int, other: string)
    requires 0 <= i < |es| && 0 <= j < |es| && i != j && es[j].member == other
    requires forall k :: 0 <= k < j ==> es[k].member != other
    requires r == es[..i] + es[i + 1..]
    ensures Find(r, other) == Some(if j < i then j else j - 1)
  {
    var j1 := if j < i then j else j - 1;
    assert r[j1] == es[j];
    forall a | 0 <= a < j1 ensures r[a].member != other {
      if a < i {
        assert r[a] == es[a];
      } else {
        assert r[a] == es[a + 1];
      }
    }
    FindFirst(r, other, j1);
  }

  /** Removing the lowest member leaves the rest of the set. */
  lemma WithoutFirst<V>(es: seq<Element<V>>)
    requires |es| > 0
    ensures Without(es, es[0].member) == es[1..]
  {
    FindFirst(es, es[0].member, 0);
  }

  /** Removing the highest member of a set without repeated members leaves
      the rest of the set. */
  lemma WithoutLast<V>(es: seq<Element<V>>)
    requires Distinct(es) && |es| > 0
    ensures Without(es, es[|es| - 1].member) == es[..|es| - 1]
  {
    var n := |es|;
    forall j | 0 <= j < n - 1 ensures es[j].member != es[n - 1].member {
    }
    FindFirst(es, es[n - 1].member, n - 1);
    WithoutAt(es, es[n - 1].member, n - 1);
  }

  /** The whole range [0, -1] lists every element in ascending order, and in
      descending order when reversed. */
  lemma FullRange<V>(es: seq<Element<V>>, withScores: bool)
    requires |es| <= MaxInt64
    ensures RankRange(es, 0, -1, false, withScores) == Emit(es, withScores)
    ensures RankRange(es, 0, -1, true, withScores) == Emit(Reversed(es), withScores)
  {
    FullSlice(es);
  }

  lemma FullSlice<V>(es: seq<Element<V>>)
    requires |es| <= MaxInt64
    ensures RankSlice(es, 0, -1, false) == es
    ensures RankSlice(es, 0, -1, true) == Reversed(es)
  {
    var n := |es|;
    if n > 0 {
      assert AdjustRange(-1, n) == n - 1;
      assert es[0 .. n] == es;
    }
  }

  /** A reversed range is the same range of the set read from the top. */
  lemma ReverseRangeIsRangeOfReversed<V>(es: seq<Element<V>>, start: int, stop: int, withScores: bool)
    ensures RankRange(es, start, stop, true, withScores) == RankRange(Reversed(es), start, stop, false, withScores)
  {
    ReverseSliceIsSliceOfReversed(es, start, stop);
  }

  lemma ReverseSliceIsSliceOfReversed<V>(es: seq<Element<V>>, start: int, stop: int)
    ensures RankSlice(es, start, stop, true) == RankSlice(Reversed(es), start, stop, false)
  {
    var n, rs := |es|, Reversed(es);
    assert |rs| == n;
    var s, t := AdjustRange(start, n), AdjustRange(stop, n);
    if s > t || s >= n || t - s + 1 > MaxInt64 {
      assert RankSlice(es, start, stop, true) == [] == RankSlice(rs, start, stop, false);
    } else {
      var hi := if t < n then t else n - 1;
      var a := Reversed(es[n - 1 - hi .. n - s]);
      ReversedSlice(es, n - 1 - hi, n - s);
      assert a == rs[s .. hi + 1];
      assert RankSlice(es, start, stop, true) == a;
      assert RankSlice(rs, start, stop, false) == a;
    }
  }

  lemma ReversedSlice<T>(xs: seq<T>, i: int, j: int)
    requires 0 <= i <= j <= |xs|
    ensures Reversed(xs[i..j]) == Reversed(xs)[|xs| - j .. |xs| - i]
  {
    var a, b := Reversed(xs[i..j]), Reversed(xs)[|xs| - j .. |xs| - i];
    forall k | 0 <= k < j - i ensures a[k] == b[k] {
      assert a[k] == xs[j - 1 - k];
    }
  }

  /** Stretching a slice one place to the left adds that element at the
      end of its reversal. */
  lemma ReversedGrows<T>(xs: seq<T>, i: int, j: int)
    requires 0 < i <= j <= |xs|
    ensures Reversed(xs[i - 1 .. j]) == Reversed(xs[i .. j]) + [xs[i - 1]]
  {
    var a, b := Reversed(xs[i - 1 .. j]), Reversed(xs[i .. j]) + [xs[i - 1]];
    forall k | 0 <= k < j - i + 1 ensures a[k] == b[k] {
      assert a[k] == xs[j - 1 - k];
    }
  }

  /** Two score windows that select the same elements select the same
      sequence. */
  lemma {:induction false} SameWindow<V>(es: seq<Element<V>>, lo: int, hi: int, lo': int, hi': int)
    requires forall i :: 0 <= i < |es| ==> (lo <= es[i].score <= hi <==> lo' <= es[i].score <= hi')
    ensures InScores(es, lo, hi) == InScores(es, lo', hi')
  {
    if |es| > 0 {
      assert lo <= es[0].score <= hi <==> lo' <= es[0].score <= hi';
      forall i | 0 <= i < |es| - 1
        ensures lo <= es[1..][i].score <= hi <==> lo' <= es[1..][i].score <= hi'
      {
        assert es[1..][i] == es[i + 1];
      }
      SameWindow(es[1..], lo, hi, lo', hi');
    }
  }

  /** limitScores: clamping the window to the lowest and highest score of a
      non-empty set never changes which elements it selects. */
  lemma ClampKeepsWindow<V>(es: seq<Element<V>>, lo: int, hi: int)
    requires Ascending(KeysOf(es)) && |es| > 0
    ensures var lo', hi' := Max(lo, es[0].score), Min(hi, es[|es| - 1].score);
      InScores(es, lo', hi') == InScores(es, lo, hi)
  {
    var lo', hi' := Max(lo, es[0].score), Min(hi, es[|es| - 1].score);
    forall i | 0 <= i < |es| ensures lo <= es[i].score <= hi <==> lo' <= es[i].score <= hi' {
      ScoresAscend(es, 0, i);
      ScoresAscend(es, i, |es| - 1);
    }
    SameWindow(es, lo, hi, lo', hi');
  }

  function Max(a: int, b: int): int {
    if a < b then b else a
  }

  function Min(a: int, b: int): int {
    if a < b then a else b
  }

  /** In an ascending set the elements of a score window are the stretch
      between the count of scores below `lo` and the count at or below `hi`. */
  lemma {:induction false} WindowIsStretch<V>(es: seq<Element<V>>, lo: int, hi: int)
    requires Ascending(KeysOf(es))
    ensures var c, d := CountBelow(KeysOf(es), Key(lo, "")), CountBelow(KeysOf(es), Key(hi + 1, ""));
      InScores(es, lo, hi) == es[c .. Max(c, d)]
  {
    if |es| > 0 {
      var rest := es[1..];
      TailAscending(es);
      WindowIsStretch(rest, lo, hi);
      HeadCount(es, lo);
      HeadCount(es, hi + 1);
      var s0 := es[0].score;
      if s0 >= lo {
        NoneBelowAfter(es, lo);
      }
      if s0 > hi {
        NoneBelowAfter(es, hi + 1);
      }
      StretchStep(es, lo, hi, CountBelow(KeysOf(es), Key(lo, "")), CountBelow(KeysOf(es), Key(hi + 1, "")),
                  CountBelow(KeysOf(rest), Key(lo, "")), CountBelow(KeysOf(rest), Key(hi + 1, "")));
    }
  }

  /** One step of WindowIsStretch: how the first element's score moves the
      two counts and the window. */
  lemma StretchStep<V>(es: seq<Element<V>>, lo: int, hi: int, c: int, d: int, c1: int, d1: int)
    requires |es| > 0 && 0 <= c1 <= |es| - 1 && 0 <= d1 <= |es| - 1
    requires InScores(es[1..], lo, hi) == es[1..][c1 .. Max(c1, d1)]
    requires c == (if es[0].score < lo then 1 else 0) + c1
    requires d == (if es[0].score < hi + 1 then 1 else 0) + d1
    requires es[0].score >= lo ==> c1 == 0
    requires es[0].score > hi ==> d1 == 0
    ensures 0 <= c <= Max(c, d) <= |es| && InScores(es, lo, hi) == es[c .. Max(c, d)]
  {
    var s0, rest := es[0].score, es[1..];
    var tail := rest[c1 .. Max(c1, d1)];
    assert InScores(es, lo, hi) == (if lo <= s0 <= hi then [es[0]] else []) + tail;
    if lo <= s0 <= hi {
      assert es[c .. Max(c, d)] == [es[0]] + tail;
    } else if s0 < lo && s0 <= hi {
      assert c == 1 + c1 && Max(c, d) == 1 + Max(c1, d1);
      SliceOfTail(es, c1, Max(c1, d1));
    }
  }

  /** A slice of the tail is the slice of the whole shifted by one. */
  lemma SliceOfTail<V>(es: seq<Element<V>>, a: int, b: int)
    requires 0 <= a <= b <= |es| - 1
    ensures es[1..][a .. b] == es[a + 1 .. b + 1]
  {
  }

  /** Dropping the lowest element keeps the rest ascending. */
  lemma TailAscending<V>(es: seq<Element<V>>)
    requires Ascending(KeysOf(es)) && |es| > 0
    ensures Ascending(KeysOf(es[1..]))
  {
    var ks, rest := KeysOf(es), es[1..];
    forall i, j | 0 <= i < j < |rest| ensures InOrder(KeysOf(rest), i, j) {
      assert InOrder(ks, i + 1, j + 1);
    }
  }

  /** The count of scores below `x` is the first element's share plus the
      count over the rest. */
  lemma HeadCount<V>(es: seq<Element<V>>, x: int)
    requires |es| > 0
    ensures CountBelow(KeysOf(es), Key(x, "")) == (if es[0].score < x then 1 else 0) + CountBelow(KeysOf(es[1..]), Key(x, ""))
  {
    assert KeysOf(es)[1..] == KeysOf(es[1..]);
    StrLessNothingBelowEmpty(es[0].member);
  }

  /** Above a lowest score of at least `x`, no score is below `x`. */
  lemma NoneBelowAfter<V>(es: seq<Element<V>>, x: int)
    requires Ascending(KeysOf(es)) && |es| > 0 && es[0].score >= x
    ensures CountBelow(KeysOf(es[1..]), Key(x, "")) == 0
  {
    var rest := es[1..];
    if |rest| > 0 {
      TailAscending(es);
      ScoreCounts(rest, x);
      ScoresAscend(es, 0, 1);
    }
  }

  /** The number of keys below Key(x, "") is the number of scores below x. */
  lemma ScoreCounts<V>(es: seq<Element<V>>, x: int)
    requires Ascending(KeysOf(es))
    ensures forall i :: 0 <= i < |es| ==> (i < CountBelow(KeysOf(es), Key(x, "")) <==> es[i].score < x)
  {
    CountBelowSplits(KeysOf(es), Key(x, ""));
    forall i | 0 <= i < |es| ensures Below(ElementKey(es[i]), Key(x, "")) <==> es[i].score < x {
      StrLessNothingBelowEmpty(es[i].member);
    }
  }

  lemma StrLessNothingBelowEmpty(a: string)
    ensures !StrLess(a, "")
  {
  }
}
