/** Index permutations of a row: numpy's argsort, take_along_axis and
    put_along_axis on one row. */
module Permutations {
  import opened Counting

  /** No index occurs twice in s. */
  predicate Distinct(s: seq<nat>) {
    forall p, q | 0 <= p < q < |s| :: s[p] != s[q]
  }

  /** s lists every index of [0, n) exactly once. */
  predicate IsPermutation(s: seq<nat>, n: nat) {
    && |s| == n
    && (forall p | 0 <= p < n :: s[p] < n)
    && Distinct(s)
    && (forall k: nat | k < n :: k in s)
  }

  predicate InRange(s: seq<nat>, n: nat) {
    forall p | 0 <= p < |s| :: s[p] < n
  }

  /** take_along_axis on one row: entry p of the result is x[s[p]]. */
  function Gather<T>(x: seq<T>, s: seq<nat>): (r: seq<T>)
    requires InRange(s, |x|)
    ensures |r| == |s|
  {
    seq(|s|, p requires 0 <= p < |s| => x[s[p]])
  }

  /** A position at which k occurs in s. */
  function IndexOf(s: seq<nat>, k: nat): (p: nat)
    requires k in s
    ensures p < |s| && s[p] == k
  {
    if s[0] == k then 0 else 1 + IndexOf(s[1..], k)
  }

  /** put_along_axis(inv, sorter, arange(n)): the scatter that sends position p
      to index s[p], i.e. the inverse permutation. */
  function Inverse(s: seq<nat>): (inv: seq<nat>)
    requires IsPermutation(s, |s|)
    ensures IsPermutation(inv, |s|)
    ensures forall p | 0 <= p < |s| :: inv[s[p]] == p
    ensures forall k | 0 <= k < |s| :: s[inv[k]] == k
  {
    var inv := seq(|s|, k requires 0 <= k < |s| => IndexOf(s, k));
    forall p | 0 <= p < |s| ensures inv[s[p]] == p {
      var p' := IndexOf(s, s[p]);
      assert s[p'] == s[p];
    }
    forall k: nat | k < |s| ensures k in inv {
      assert inv[s[k]] == k;
    }
    inv
  }

  /** s, read as indices into x, lists x in ascending order of value. */
  predicate IsArgSort(x: seq<real>, s: seq<nat>) {
    IsPermutation(s, |x|) && Sorted(Gather(x, s))
  }

  /** Insert index j into an index list sorted by key, after every index whose key
      is at most x[j] (so equal keys keep their index order). */
  function InsertByKey(x: seq<real>, s: seq<nat>, j: nat): (r: seq<nat>)
    requires j < |x| && InRange(s, |x|)
    ensures |r| == |s| + 1 && InRange(r, |x|)
    ensures forall k :: k in r <==> k in s || k == j
  {
    if s == [] || x[j] < x[s[0]] then [j] + s
    else
      assert s == [s[0]] + s[1..];
      [s[0]] + InsertByKey(x, s[1..], j)
  }

  lemma {:induction false} InsertByKeySorted(x: seq<real>, s: seq<nat>, j: nat)
    requires j < |x| && InRange(s, |x|)
    requires Sorted(Gather(x, s))
    ensures Sorted(Gather(x, InsertByKey(x, s, j)))
  {
    var r := InsertByKey(x, s, j);
    var g := Gather(x, s);
    if s == [] || x[j] < x[s[0]] {
      forall p, q | 0 <= p <= q < |r| ensures x[r[p]] <= x[r[q]] {
        if 0 < p {
          SortedPair(g, p - 1, q - 1);
        } else if 0 < q {
          SortedPair(g, 0, q - 1);
        }
      }
    } else {
      var t := s[1..];
      assert Sorted(Gather(x, t)) by {
        forall p, q | 0 <= p <= q < |t| ensures Gather(x, t)[p] <= Gather(x, t)[q] {
          SortedPair(g, p + 1, q + 1);
        }
        SortedFromPairs(Gather(x, t));
      }
      InsertByKeySorted(x, t, j);
      var r' := InsertByKey(x, t, j);
      assert r == [s[0]] + r';
      forall p, q | 0 <= p <= q < |r| ensures x[r[p]] <= x[r[q]] {
        if 0 < p {
          SortedPair(Gather(x, r'), p - 1, q - 1);
        } else if 0 < q {
          var e := r'[q - 1];
          assert e in r';
          if e != j {
            var i := IndexOf(t, e);
            SortedPair(g, 0, i + 1);
          }
        }
      }
    }
    SortedFromPairs(Gather(x, r));
  }

  lemma {:induction false} InsertByKeyDistinct(x: seq<real>, s: seq<nat>, j: nat)
    requires j < |x| && InRange(s, |x|)
    requires Distinct(s) && j !in s
    ensures Distinct(InsertByKey(x, s, j))
  {
    var r := InsertByKey(x, s, j);
    if s == [] || x[j] < x[s[0]] {
      forall p, q | 0 <= p < q < |r| ensures r[p] != r[q] {
        if p == 0 {
          assert r[q] == s[q - 1];
        }
      }
    } else {
      var t := s[1..];
      assert s == [s[0]] + t;
      InsertByKeyDistinct(x, t, j);
      var r' := InsertByKey(x, t, j);
      assert r == [s[0]] + r';
      assert s[0] !in t by {
        forall i | 0 <= i < |t| ensures t[i] != s[0] {
          assert t[i] == s[i + 1];
        }
      }
      forall p, q | 0 <= p < q < |r| ensures r[p] != r[q] {
        if p == 0 {
          assert r[q] in r';
        }
      }
    }
  }

  /** Indices [0, n) of x sorted by value, built by repeated insertion. */
  function ArgSortPrefix(x: seq<real>, n: nat): (s: seq<nat>)
    requires n <= |x|
    ensures |s| == n && InRange(s, |x|) && Distinct(s)
    ensures forall k: nat :: k in s <==> k < n
    ensures Sorted(Gather(x, s))
  {
    if n == 0 then []
    else
      var s' := ArgSortPrefix(x, n - 1);
      InsertByKeySorted(x, s', n - 1);
      InsertByKeyDistinct(x, s', n - 1);
      InsertByKey(x, s', n - 1)
  }

  /** np.argsort on one row: a permutation of the indices that lists the row in
      ascending order. */
  function ArgSort(x: seq<real>): (s: seq<nat>)
    ensures IsArgSort(x, s)
  {
    ArgSortPrefix(x, |x|)
  }

  /** Dropping the position that holds the largest index n leaves a permutation
      of [0, n). */
  lemma RemoveLargest(s: seq<nat>, n: nat, p0: nat)
    requires IsPermutation(s, n + 1) && p0 < |s| && s[p0] == n
    ensures IsPermutation(s[..p0] + s[p0 + 1..], n)
  {
    var s' := s[..p0] + s[p0 + 1..];
    assert forall i | 0 <= i < |s'| :: s'[i] == (if i < p0 then s[i] else s[i + 1]);
    forall i | 0 <= i < |s'| ensures s'[i] < n {
      var ii := if i < p0 then i else i + 1;
      assert s'[i] == s[ii] && ii != p0;
    }
    forall k: nat | k < n ensures k in s' {
      var q := IndexOf(s, k);
      if q < p0 {
        assert s'[q] == k;
      } else {
        assert s'[q - 1] == k;
      }
    }
  }

  lemma GatherSplit(x: seq<real>, s: seq<nat>, p0: nat)
    requires |x| > 0 && IsPermutation(s, |x|) && p0 < |s| && s[p0] == |x| - 1
    ensures InRange(s[..p0] + s[p0 + 1..], |x| - 1)
    ensures Gather(x, s) == Gather(x, s[..p0]) + [x[|x| - 1]] + Gather(x, s[p0 + 1..])
    ensures Gather(x[..|x| - 1], s[..p0] + s[p0 + 1..]) == Gather(x, s[..p0]) + Gather(x, s[p0 + 1..])
  {
    RemoveLargest(s, |x| - 1, p0);
  }

  lemma CountThreeParts(lo: seq<real>, last: real, hi: seq<real>, v: real, c: Cmp)
    ensures Count(lo + [last] + hi, v, c) == Count(lo + hi, v, c) + Count([last], v, c)
  {
    CountAppend(lo + [last], hi, v, c);
    CountAppend(lo, [last], v, c);
    CountAppend(lo, hi, v, c);
  }

  /** Removing the largest index n from s and the last entry from x takes the
      same entry off both counts. */
  lemma GatherCountStep(x: seq<real>, s: seq<nat>, p0: nat, v: real, c: Cmp)
    requires |x| > 0 && IsPermutation(s, |x|) && p0 < |s| && s[p0] == |x| - 1
    ensures InRange(s[..p0] + s[p0 + 1..], |x| - 1)
    ensures Count(Gather(x, s), v, c) ==
            Count(Gather(x[..|x| - 1], s[..p0] + s[p0 + 1..]), v, c) + Count([x[|x| - 1]], v, c)
    ensures Count(x, v, c) == Count(x[..|x| - 1], v, c) + Count([x[|x| - 1]], v, c)
  {
    var last := x[|x| - 1];
    GatherSplit(x, s, p0);
    CountThreeParts(Gather(x, s[..p0]), last, Gather(x, s[p0 + 1..]), v, c);
    assert x == x[..|x| - 1] + [last];
    CountAppend(x[..|x| - 1], [last], v, c);
  }

  /** Reordering a row by a permutation changes no count. */
  lemma {:induction false} GatherPreservesCounts(x: seq<real>, s: seq<nat>, v: real, c: Cmp)
    requires IsPermutation(s, |x|)
    ensures Count(Gather(x, s), v, c) == Count(x, v, c)
  {
    if |x| > 0 {
      var p0 := IndexOf(s, |x| - 1);
      RemoveLargest(s, |x| - 1, p0);
      GatherPreservesCounts(x[..|x| - 1], s[..p0] + s[p0 + 1..], v, c);
      GatherCountStep(x, s, p0, v, c);
    }
  }
}
