/**
  Ranking the positions of a score row: the permutation of `0..|row|-1`
  that a stable sort by score produces.

  A stable sort of `enumerate(row)` keyed on the score leaves equal scores in
  position order, so its result is the unique permutation that is strictly
  ordered by "better score first, then lower (or higher) position first".
  `Rank` computes that permutation by insertion; `RankUnique` shows that any
  sequence with the same ordering property is the same sequence, so the
  choice of sorting algorithm does not matter.
 */
module Ranking {

  function Min(a: int, b: int): int {
    if a <= b then a else b
  }

  /** Which way scores are ordered, and which of two equal-score positions comes first. */
  datatype Order = Order(descending: bool, lowerFirst: bool)

  /** `sorted(enumerate(row), key=score, reverse=True)`: Python's sort stays stable under `reverse`. */
  const StableDescending := Order(true, true)

  /** A stable ascending argsort. */
  const StableAscending := Order(false, true)

  /** The same ordering read back to front. */
  function Flip(o: Order): Order {
    Order(!o.descending, !o.lowerFirst)
  }

  /** Position `a` comes strictly before position `b` under `o`. */
  predicate Precedes(row: seq<real>, o: Order, a: nat, b: nat)
    requires a < |row| && b < |row|
  {
    if row[a] != row[b] then
      (if o.descending then row[a] > row[b] else row[a] < row[b])
    else
      (if o.lowerFirst then a < b else b < a)
  }

  predicate InRange(row: seq<real>, s: seq<nat>) {
    forall k :: 0 <= k < |s| ==> s[k] < |row|
  }

  /** Every earlier entry strictly precedes every later one. */
  predicate Ordered(row: seq<real>, o: Order, s: seq<nat>) {
    InRange(row, s) && forall i, j :: 0 <= i < j < |s| ==> Precedes(row, o, s[i], s[j])
  }

  predicate Distinct(s: seq<nat>) {
    forall i, j :: 0 <= i < j < |s| ==> s[i] != s[j]
  }

  /** `r` is a permutation of all positions of `row`, strictly ordered by `o`. */
  predicate IsRanking(row: seq<real>, o: Order, r: seq<nat>) {
    Ordered(row, o, r) && |r| == |row| && forall k: nat :: k < |row| ==> k in r
  }

  /** `Precedes` is a strict total order on the positions of a row. */
  lemma PrecedesStrictTotal(row: seq<real>, o: Order, a: nat, b: nat, c: nat)
    requires a < |row| && b < |row| && c < |row|
    ensures !Precedes(row, o, a, a)
    ensures a != b ==> (Precedes(row, o, a, b) <==> !Precedes(row, o, b, a))
    ensures Precedes(row, o, a, b) && Precedes(row, o, b, c) ==> Precedes(row, o, a, c)
  {
  }

  /** Flipping the order reverses every comparison. */
  lemma FlipPrecedes(row: seq<real>, o: Order, a: nat, b: nat)
    requires a < |row| && b < |row|
    ensures Precedes(row, Flip(o), a, b) <==> Precedes(row, o, b, a)
  {
  }

  /** An ordered sequence never repeats a position. */
  lemma OrderedDistinct(row: seq<real>, o: Order, s: seq<nat>)
    requires Ordered(row, o, s)
    ensures Distinct(s)
  {
    forall i, j | 0 <= i < j < |s|
      ensures s[i] != s[j]
    {
      PrecedesStrictTotal(row, o, s[i], s[j], s[j]);
    }
  }

  /** A position that precedes every other position comes first in any ranking. */
  lemma HeadOfRanking(row: seq<real>, o: Order, r: seq<nat>, x: nat)
    requires IsRanking(row, o, r) && x < |row|
    requires forall k :: 0 <= k < |row| && k != x ==> Precedes(row, o, x, k)
    ensures |r| > 0 && r[0] == x
  {
    assert x in r;
    var q :| 0 <= q < |r| && r[q] == x;
    PrecedesStrictTotal(row, o, r[0], x, x);
    if q != 0 {
      assert false;
    }
  }

  /** The positions that come before `x` under `o`. */
  function Preceding(row: seq<real>, o: Order, x: nat): set<nat>
    requires x < |row|
  {
    set k: nat | k < |row| && Precedes(row, o, k, x)
  }

  /** The positions listed in `s`. */
  function Elems(s: seq<nat>): set<nat> {
    set j | 0 <= j < |s| :: s[j]
  }

  /** A sequence without repeats lists as many positions as it is long. */
  lemma {:induction false} DistinctCard(s: seq<nat>)
    requires Distinct(s)
    ensures |Elems(s)| == |s|
  {
    if |s| > 0 {
      var p := s[..|s| - 1];
      assert Distinct(p);
      DistinctCard(p);
      assert Elems(s) == Elems(p) + {s[|s| - 1]};
      assert s[|s| - 1] !in Elems(p);
    }
  }

  /** In a ranking, the entries before position `q` are exactly the positions that precede `r[q]`. */
  lemma PrecedingIsPrefix(row: seq<real>, o: Order, r: seq<nat>, q: nat)
    requires IsRanking(row, o, r) && q < |r|
    ensures Preceding(row, o, r[q]) == Elems(r[..q])
  {
    var x := r[q];
    forall k | k in Preceding(row, o, x)
      ensures k in Elems(r[..q])
    {
      assert k in r;
      var j :| 0 <= j < |r| && r[j] == k;
      PrecedesStrictTotal(row, o, k, x, x);
      assert j < q;
      assert r[..q][j] == k;
    }
    forall k | k in Elems(r[..q])
      ensures k in Preceding(row, o, x)
    {
      var j :| 0 <= j < q && r[..q][j] == k;
      assert r[j] == k;
    }
  }

  /** The place of a position in a ranking is the number of positions that precede it. */
  lemma RankPosition(row: seq<real>, o: Order, r: seq<nat>, q: nat)
    requires IsRanking(row, o, r) && q < |r|
    ensures |Preceding(row, o, r[q])| == q
  {
    PrecedingIsPrefix(row, o, r, q);
    OrderedDistinct(row, o, r);
    assert Distinct(r[..q]);
    DistinctCard(r[..q]);
  }

  /** Insert position `x` into an ordered sequence at the one place that keeps it ordered. */
  function Insert(row: seq<real>, o: Order, x: nat, s: seq<nat>): (r: seq<nat>)
    requires x < |row| && Ordered(row, o, s) && x !in s
    ensures Ordered(row, o, r)
    ensures |r| == |s| + 1
    ensures forall k :: k in r <==> k == x || k in s
  {
    if |s| == 0 then [x]
    else if Precedes(row, o, x, s[0]) then
      assert forall j :: 0 <= j < |s| ==> Precedes(row, o, x, s[j]) by {
        forall j | 0 <= j < |s|
          ensures Precedes(row, o, x, s[j])
        {
          PrecedesStrictTotal(row, o, x, s[0], s[j]);
        }
      }
      [x] + s
    else
      var tail := Insert(row, o, x, s[1..]);
      assert Precedes(row, o, s[0], x) by {
        PrecedesStrictTotal(row, o, x, s[0], s[0]);
      }
      assert forall j :: 0 <= j < |tail| ==> Precedes(row, o, s[0], tail[j]) by {
        forall j | 0 <= j < |tail|
          ensures Precedes(row, o, s[0], tail[j])
        {
          assert tail[j] in tail;
          if tail[j] != x {
            var i :| 0 <= i < |s[1..]| && s[1..][i] == tail[j];
            assert s[i + 1] == tail[j];
          }
        }
      }
      [s[0]] + tail
  }

  /** The ranking of positions `0..n-1`. */
  function RankPrefix(row: seq<real>, o: Order, n: nat): (r: seq<nat>)
    requires n <= |row|
    ensures Ordered(row, o, r)
    ensures |r| == n
    ensures forall k: nat :: k in r <==> k < n
  {
    if n == 0 then [] else Insert(row, o, n - 1, RankPrefix(row, o, n - 1))
  }

  /** The stable sort of all positions of `row` under `o`. */
  function Rank(row: seq<real>, o: Order): (r: seq<nat>)
    ensures IsRanking(row, o, r)
  {
    RankPrefix(row, o, |row|)
  }

  lemma HeadIsMember(s: seq<nat>)
    ensures |s| > 0 ==> s[0] in s
  {
  }

  /** Two ordered sequences holding the same positions are equal. */
  lemma {:induction false} OrderedUnique(row: seq<real>, o: Order, a: seq<nat>, b: seq<nat>)
    requires Ordered(row, o, a) && Ordered(row, o, b)
    requires forall k :: k in a <==> k in b
    ensures a == b
  {
    OrderedDistinct(row, o, a);
    OrderedDistinct(row, o, b);
    if |a| == 0 && |b| > 0 {
      HeadIsMember(b);
      assert false;
    } else if |a| > 0 {
      assert a[0] in b;
      assert |b| > 0;
      assert b[0] in a;
      if a[0] != b[0] {
        var i :| 0 <= i < |a| && a[i] == b[0];
        var j :| 0 <= j < |b| && b[j] == a[0];
        PrecedesStrictTotal(row, o, a[0], b[0], b[0]);
        assert false;
      }
      forall k
        ensures k in a[1..] <==> k in b[1..]
      {
        if k in a[1..] {
          var i :| 0 <= i < |a[1..]| && a[1..][i] == k;
          assert k in b;
          assert k != b[0];
        }
        if k in b[1..] {
          var j :| 0 <= j < |b[1..]| && b[1..][j] == k;
          assert k in a;
          assert k != a[0];
        }
      }
      OrderedUnique(row, o, a[1..], b[1..]);
    }
  }

  /** Any permutation of the positions that is ordered by `o` is `Rank(row, o)`. */
  lemma RankUnique(row: seq<real>, o: Order, r: seq<nat>)
    requires IsRanking(row, o, r)
    ensures r == Rank(row, o)
  {
    var q := Rank(row, o);
    forall k
      ensures k in r <==> k in q
    {
      if k in r {
        var i :| 0 <= i < |r| && r[i] == k;
      }
    }
    OrderedUnique(row, o, r, q);
  }

  function Reverse(s: seq<nat>): (r: seq<nat>)
    ensures |r| == |s|
    ensures forall i :: 0 <= i < |s| ==> r[i] == s[|s| - 1 - i]
  {
    seq(|s|, i requires 0 <= i < |s| => s[|s| - 1 - i])
  }

  /** Read back to front, an ordered sequence is ordered by the flipped order. */
  lemma ReverseOrdered(row: seq<real>, o: Order, s: seq<nat>)
    requires Ordered(row, o, s)
    ensures Ordered(row, Flip(o), Reverse(s))
  {
    var r := Reverse(s);
    forall i, j | 0 <= i < j < |r|
      ensures Precedes(row, Flip(o), r[i], r[j])
    {
      FlipPrecedes(row, o, r[i], r[j]);
    }
  }

  /** Reversing the stable sort under `o` gives the stable sort under the flipped order. */
  lemma ReverseRank(row: seq<real>, o: Order)
    ensures Reverse(Rank(row, o)) == Rank(row, Flip(o))
  {
    var q := Rank(row, o);
    var r := Reverse(q);
    ReverseOrdered(row, o, q);
    forall k: nat | k < |row|
      ensures k in r
    {
      assert k in q;
      var i :| 0 <= i < |q| && q[i] == k;
      assert r[|q| - 1 - i] == k;
    }
    RankUnique(row, Flip(o), r);
  }

  /** Reversing the last `m` entries gives the first `m` entries of the reversal. */
  lemma ReverseSuffix(a: seq<nat>, m: nat)
    requires m <= |a|
    ensures Reverse(a[|a| - m..]) == Reverse(a)[..m]
  {
    var r := Reverse(a[|a| - m..]);
    forall i | 0 <= i < m
      ensures r[i] == Reverse(a)[i]
    {
      assert r[i] == a[|a| - m..][m - 1 - i];
    }
  }

  /** Every prefix of an ordered sequence is ordered. */
  lemma OrderedPrefix(row: seq<real>, o: Order, s: seq<nat>, m: nat)
    requires Ordered(row, o, s) && m <= |s|
    ensures Ordered(row, o, s[..m])
  {
  }
}
