/** Counting the entries of a row that stand in a given relation to a value:
    the raw material of tie-aware average ranks. */
module Counting {

  /** The relations a rank is built from: strictly below, tied with, at most. */
  datatype Cmp = Below | Tied | AtMost

  predicate Holds(c: Cmp, a: real, v: real) {
    match c
    case Below => a < v
    case Tied => a == v
    case AtMost => a <= v
  }

  /** Number of entries a of s for which Holds(c, a, v). */
  function Count(s: seq<real>, v: real, c: Cmp): (n: nat)
    ensures n <= |s|
  {
    if s == [] then 0
    else Count(s[..|s| - 1], v, c) + (if Holds(c, s[|s| - 1], v) then 1 else 0)
  }

  /** s is in ascending order: each entry is at most the next. */
  predicate Sorted(s: seq<real>)
    decreases |s|
  {
    |s| < 2 || (s[0] <= s[1] && Sorted(s[1..]))
  }

  /** In a sorted row every entry is at most every later one. */
  lemma {:induction false} SortedPair(s: seq<real>, i: nat, j: nat)
    requires Sorted(s) && i <= j < |s|
    ensures s[i] <= s[j]
    decreases |s|
  {
    if 0 < i {
      SortedPair(s[1..], i - 1, j - 1);
    } else if 0 < j {
      SortedPair(s[1..], 0, j - 1);
    }
  }

  /** A row whose entries are pairwise in order is sorted. */
  lemma {:induction false} SortedFromPairs(s: seq<real>)
    requires forall i, j | 0 <= i <= j < |s| :: s[i] <= s[j]
    ensures Sorted(s)
    decreases |s|
  {
    if |s| >= 2 {
      var t := s[1..];
      forall i, j | 0 <= i <= j < |t| ensures t[i] <= t[j] {
        assert t[i] == s[i + 1] && t[j] == s[j + 1];
      }
      SortedFromPairs(t);
    }
  }

  /** Appending one entry adds one to the count exactly when that entry qualifies. */
  lemma CountSnoc(s: seq<real>, a: real, v: real, c: Cmp)
    ensures Count(s + [a], v, c) == Count(s, v, c) + (if Holds(c, a, v) then 1 else 0)
  {
    assert (s + [a])[..|s + [a]| - 1] == s;
  }

  lemma {:induction false} CountAppend(a: seq<real>, b: seq<real>, v: real, c: Cmp)
    ensures Count(a + b, v, c) == Count(a, v, c) + Count(b, v, c)
    decreases |b|
  {
    if b == [] {
      assert a + b == a;
    } else {
      var b' := b[..|b| - 1];
      assert a + b == (a + b') + [b[|b| - 1]];
      assert b == b' + [b[|b| - 1]];
      CountAppend(a, b', v, c);
      CountSnoc(a + b', b[|b| - 1], v, c);
      CountSnoc(b', b[|b| - 1], v, c);
    }
  }

  /** "At most v" splits into "below v" and "tied with v". */
  lemma {:induction false} CountAtMostSplits(s: seq<real>, v: real)
    ensures Count(s, v, AtMost) == Count(s, v, Below) + Count(s, v, Tied)
  {
    if s != [] {
      CountAtMostSplits(s[..|s| - 1], v);
    }
  }

  /** When exactly the first t entries qualify, the count is t. */
  lemma {:induction false} CountThreshold(s: seq<real>, v: real, c: Cmp, t: nat)
    requires t <= |s|
    requires forall q | 0 <= q < t :: Holds(c, s[q], v)
    requires forall q | t <= q < |s| :: !Holds(c, s[q], v)
    ensures Count(s, v, c) == t
  {
    if s != [] {
      var s' := s[..|s| - 1];
      if t == |s| {
        CountThreshold(s', v, c, t - 1);
      } else {
        CountThreshold(s', v, c, t);
      }
    }
  }

  /** In a sorted row the entries below v (or at most v) form a prefix, and its
      length is their count. */
  lemma {:induction false} SortedCountIsPrefix(s: seq<real>, v: real, c: Cmp)
    requires Sorted(s) && c != Tied
    ensures forall q | 0 <= q < |s| :: Holds(c, s[q], v) <==> q < Count(s, v, c)
  {
    if s != [] {
      var s' := s[..|s| - 1];
      var last := s[|s| - 1];
      assert Sorted(s') by {
        forall i, j | 0 <= i <= j < |s'| ensures s'[i] <= s'[j] {
          SortedPair(s, i, j);
        }
        SortedFromPairs(s');
      }
      SortedCountIsPrefix(s', v, c);
      if Holds(c, last, v) {
        forall q | 0 <= q < |s'| ensures Holds(c, s'[q], v) {
          SortedPair(s, q, |s| - 1);
        }
        if |s'| > 0 {
          assert |s'| - 1 < Count(s', v, c);
        }
      }
    }
  }

  /** Two rows of equal length whose entries qualify at the same positions have
      the same count. */
  lemma {:induction false} CountTransfer(a: seq<real>, v: real, b: seq<real>, w: real, c: Cmp)
    requires |a| == |b|
    requires forall q | 0 <= q < |a| :: Holds(c, a[q], v) <==> Holds(c, b[q], w)
    ensures Count(a, v, c) == Count(b, w, c)
  {
    if a != [] {
      CountTransfer(a[..|a| - 1], v, b[..|b| - 1], w, c);
    }
  }

  /** Everything at most v is strictly below any w above v. */
  lemma {:induction false} CountMonotone(s: seq<real>, v: real, w: real)
    requires v < w
    ensures Count(s, v, AtMost) <= Count(s, w, Below)
  {
    if s != [] {
      CountMonotone(s[..|s| - 1], v, w);
    }
  }

  /** Every entry is tied with itself. */
  lemma {:induction false} CountTiedMember(s: seq<real>, k: nat)
    requires k < |s|
    ensures Count(s, s[k], Tied) >= 1
  {
    var s' := s[..|s| - 1];
    if k < |s| - 1 {
      assert s'[k] == s[k];
      CountTiedMember(s', k);
    }
  }

  /** In a row of distinct values each value is tied with itself only. */
  lemma {:induction false} CountTiedDistinct(s: seq<real>, k: nat)
    requires k < |s|
    requires forall a, b | 0 <= a < b < |s| :: s[a] != s[b]
    ensures Count(s, s[k], Tied) == 1
  {
    var s' := s[..|s| - 1];
    if k == |s| - 1 {
      CountThreshold(s', s[k], Tied, 0);
    } else {
      assert s'[k] == s[k];
      CountTiedDistinct(s', k);
    }
  }
}
