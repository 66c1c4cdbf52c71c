/** The order of a sorted set: elements are ranked by score, and equal scores
    are broken by member, compared as Go compares strings. */
module Ordering {

  /** Go's `a < b` on strings: lexicographic order, a proper prefix first. */
  predicate StrLess(a: string, b: string)
    decreases |a|
  {
    |b| > 0 && (|a| == 0 || a[0] < b[0] || (a[0] == b[0] && StrLess(a[1..], b[1..])))
  }

  lemma {:induction false} StrLessIrreflexive(a: string)
    ensures !StrLess(a, a)
    decreases |a|
  {
    if |a| > 0 {
      StrLessIrreflexive(a[1..]);
    }
  }

  lemma {:induction false} StrLessTransitive(a: string, b: string, c: string)
    requires StrLess(a, b) && StrLess(b, c)
    ensures StrLess(a, c)
    decreases |a|
  {
    if |a| > 0 && a[0] == b[0] && b[0] == c[0] {
      StrLessTransitive(a[1..], b[1..], c[1..]);
    }
  }

  lemma {:induction false} StrLessTotal(a: string, b: string)
    ensures a == b || StrLess(a, b) || StrLess(b, a)
    decreases |a|
  {
    if |a| > 0 && |b| > 0 && a[0] == b[0] {
      StrLessTotal(a[1..], b[1..]);
      if a[1..] == b[1..] {
        assert a == [a[0]] + a[1..] && b == [b[0]] + b[1..];
      }
    }
  }

  /** The sort key of an element: its score, then its member. */
  datatype Key = Key(score: int, member: string)

  /** `x` sorts strictly before `y`; the comparison the skip list uses
      when it descends (score first, member as tie-break). */
  predicate Below(x: Key, y: Key) {
    x.score < y.score || (x.score == y.score && StrLess(x.member, y.member))
  }

  lemma BelowIrreflexive(x: Key)
    ensures !Below(x, x)
  {
    StrLessIrreflexive(x.member);
  }

  lemma BelowTransitive(x: Key, y: Key, z: Key)
    requires Below(x, y) && Below(y, z)
    ensures Below(x, z)
  {
    if x.score == y.score == z.score {
      StrLessTransitive(x.member, y.member, z.member);
    }
  }

  lemma BelowTotal(x: Key, y: Key)
    ensures x == y || Below(x, y) || Below(y, x)
  {
    StrLessTotal(x.member, y.member);
  }

  lemma BelowAsymmetric(x: Key, y: Key)
    requires Below(x, y)
    ensures !Below(y, x)
  {
    if Below(y, x) {
      BelowTransitive(x, y, x);
      BelowIrreflexive(x);
    }
  }

  /** Strictly ascending by key: the order every level-0 walk of the list follows. */
  ghost predicate Ascending(ks: seq<Key>) {
    forall i, j :: 0 <= i < j < |ks| ==> InOrder(ks, i, j)
  }

  /** Positions `i` and `j` of `ks` hold keys in ascending order. */
  ghost predicate InOrder(ks: seq<Key>, i: int, j: int)
    requires 0 <= i < |ks| && 0 <= j < |ks|
  {
    Below(ks[i], ks[j])
  }

  /** The number of keys in `ks` that sort strictly before `k`: the reference
      definition of a rank. */
  function CountBelow(ks: seq<Key>, k: Key): (n: nat)
    ensures n <= |ks|
  {
    if |ks| == 0 then 0
    else (if Below(ks[0], k) then 1 else 0) + CountBelow(ks[1..], k)
  }

  /** In an ascending sequence the keys before `k` form a prefix, whose length
      is `CountBelow`. */
  lemma {:induction false} CountBelowSplits(ks: seq<Key>, k: Key)
    requires Ascending(ks)
    ensures forall i :: 0 <= i < |ks| ==> (i < CountBelow(ks, k) <==> Below(ks[i], k))
  {
    if |ks| > 0 {
      assert Ascending(ks[1..]) by {
        forall i, j | 0 <= i < j < |ks| - 1 ensures InOrder(ks[1..], i, j) {
          assert InOrder(ks, i + 1, j + 1);
        }
      }
      CountBelowSplits(ks[1..], k);
      forall i | 0 <= i < |ks|
        ensures i < CountBelow(ks, k) <==> Below(ks[i], k)
      {
        if i > 0 {
          assert ks[1..][i - 1] == ks[i] && InOrder(ks, 0, i);
          if !Below(ks[0], k) && Below(ks[i], k) {
            BelowTotal(ks[0], k);
            if ks[0] == k {
              BelowAsymmetric(ks[i], k);
            } else {
              assert InOrder(ks, 0, i);
              BelowTransitive(k, ks[0], ks[i]);
              BelowAsymmetric(k, ks[i]);
            }
          }
        } else if !Below(ks[0], k) && CountBelow(ks[1..], k) > 0 {
          assert Below(ks[1..][0], k);
          assert InOrder(ks, 0, 1);
          BelowTransitive(ks[0], ks[1], k);
        }
      }
    }
  }

  /** The insertion position of an absent key splits the ascending sequence so
      that the result is again ascending. */
  lemma InsertKeepsAscending(ks: seq<Key>, k: Key)
    requires Ascending(ks)
    requires k !in ks
    ensures Ascending(ks[..CountBelow(ks, k)] + [k] + ks[CountBelow(ks, k)..])
  {
    var p := CountBelow(ks, k);
    CountBelowSplits(ks, k);
    var r := ks[..p] + [k] + ks[p..];
    forall i, j | 0 <= i < j < |r| ensures InOrder(r, i, j) {
      if i < p && j == p {
      } else if i == p && j > p {
        assert r[j] == ks[j - 1];
        BelowTotal(ks[j - 1], k);
      } else if i < p && j > p {
        assert r[j] == ks[j - 1] && InOrder(ks, i, j - 1);
      } else if j < p {
        assert InOrder(ks, i, j);
      } else {
        assert r[i] == ks[i - 1] && r[j] == ks[j - 1] && InOrder(ks, i - 1, j - 1);
      }
    }
  }

  /** Removing any element keeps a sequence ascending. */
  lemma RemoveKeepsAscending(ks: seq<Key>, q: nat)
    requires Ascending(ks) && q < |ks|
    ensures Ascending(ks[..q] + ks[q + 1..])
  {
    var r := ks[..q] + ks[q + 1..];
    forall i, j | 0 <= i < j < |r| ensures InOrder(r, i, j) {
      var i' := if i < q then i else i + 1;
      var j' := if j < q then j else j + 1;
      assert r[i] == ks[i'] && r[j] == ks[j'] && InOrder(ks, i', j');
    }
  }

  /** In an ascending sequence, `k` is present exactly when the first key not
      below it is `k` itself: the test delete makes once it has descended. */
  lemma {:induction false} CountBelowFinds(ks: seq<Key>, k: Key)
    requires Ascending(ks)
    ensures k in ks <==> CountBelow(ks, k) < |ks| && ks[CountBelow(ks, k)] == k
  {
    var p := CountBelow(ks, k);
    CountBelowSplits(ks, k);
    if k in ks {
      var j :| 0 <= j < |ks| && ks[j] == k;
      BelowIrreflexive(k);
      assert p < j ==> InOrder(ks, p, j);
    }
  }
}
