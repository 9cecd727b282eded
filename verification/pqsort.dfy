/** `pqsort.c`: the quicksort of Bentley and McIlroy that only settles a window of positions. */
module Pqsort {

  ghost predicate TotalPreorder<T(!new)>(cmp: (T, T) -> int) {
    && (forall x, y :: cmp(x, y) < 0 <==> cmp(y, x) > 0)
    && (forall x, y, z :: cmp(x, y) <= 0 && cmp(y, z) <= 0 ==> cmp(x, z) <= 0)
  }

  // ---------------------------------------------------------------- permutations of a segment

  /** `t` is `s` with the elements of [lo, hi) rearranged. */
  ghost predicate Perm<T>(s: seq<T>, t: seq<T>, lo: nat, hi: nat) {
    && |s| == |t| && lo <= hi <= |s|
    && multiset(s[lo..hi]) == multiset(t[lo..hi])
    && s[..lo] == t[..lo] && s[hi..] == t[hi..]
  }

  lemma PermTrans<T>(s: seq<T>, t: seq<T>, u: seq<T>, lo: nat, hi: nat)
    requires Perm(s, t, lo, hi) && Perm(t, u, lo, hi)
    ensures Perm(s, u, lo, hi)
  {
  }

  lemma PermWiden<T>(s: seq<T>, t: seq<T>, lo: nat, hi: nat, lo': nat, hi': nat)
    requires Perm(s, t, lo, hi) && lo' <= lo && hi <= hi' <= |s|
    ensures Perm(s, t, lo', hi')
  {
    assert s[lo'..lo] == s[..lo][lo'..] == t[..lo][lo'..] == t[lo'..lo];
    assert s[hi..hi'] == s[hi..][..hi' - hi] == t[hi..][..hi' - hi] == t[hi..hi'];
    assert s[lo'..hi'] == s[lo'..lo] + s[lo..hi] + s[hi..hi'];
    assert t[lo'..hi'] == t[lo'..lo] + t[lo..hi] + t[hi..hi'];
    assert s[..lo'] == s[..lo][..lo'] == t[..lo][..lo'] == t[..lo'];
    assert s[hi'..] == s[hi..][hi' - hi..] == t[hi..][hi' - hi..] == t[hi'..];
  }

  lemma PermSwap<T>(s: seq<T>, i: nat, j: nat, lo: nat, hi: nat)
    requires lo <= i < hi <= |s| && lo <= j < hi
    ensures Perm(s, s[i := s[j]][j := s[i]], lo, hi)
  {
    var t := s[i := s[j]][j := s[i]];
    assert t[lo..hi] == s[lo..hi][i - lo := s[j]][j - lo := s[i]];
  }

  lemma PermOutside<T>(s: seq<T>, t: seq<T>, lo: nat, hi: nat, k: nat)
    requires Perm(s, t, lo, hi) && k < |s| && (k < lo || hi <= k)
    ensures s[k] == t[k]
  {
    if k < lo { assert s[k] == s[..lo][k]; } else { assert s[k] == s[hi..][k - hi]; }
  }

  lemma PermFrom<T>(s: seq<T>, t: seq<T>, lo: nat, hi: nat, k: nat) returns (j: nat)
    requires Perm(s, t, lo, hi) && lo <= k < hi
    ensures lo <= j < hi && t[k] == s[j]
  {
    assert t[k] == t[lo..hi][k - lo];
    assert t[k] in multiset(t[lo..hi]);
    assert t[k] in s[lo..hi];
    var i :| 0 <= i < hi - lo && s[lo..hi][i] == t[k];
    j := lo + i;
  }

  // ---------------------------------------------------------------- what the sort promises

  /** Position `k` of [lo, hi) holds what it would hold if the segment were sorted. */
  ghost predicate Settled<T(!new)>(s: seq<T>, cmp: (T, T) -> int, lo: nat, hi: nat, k: nat)
    requires lo <= k < hi <= |s|
  {
    && (forall j :: lo <= j < k ==> cmp(s[j], s[k]) <= 0)
    && (forall j :: k < j < hi ==> cmp(s[k], s[j]) <= 0)
  }

  ghost predicate InWindow(k: nat, lrange: nat, rrange: nat) { lrange <= k <= rrange }

  /** The test around the recursive call: the elements l..r do not meet the window. */
  predicate Skipped(l: nat, r: nat, lrange: nat, rrange: nat) {
    (lrange < l && rrange < l) || (lrange > r && rrange > r)
  }

  /** All positions of [lo, mid) that are in the window are settled in [lo, hi). */
  ghost predicate WindowSettled<T(!new)>(s: seq<T>, cmp: (T, T) -> int, lo: nat, mid: nat, hi: nat, lrange: nat,
                                         rrange: nat)
    requires lo <= mid <= hi <= |s|
  {
    forall k :: lo <= k < mid && InWindow(k, lrange, rrange) ==> Settled(s, cmp, lo, hi, k)
  }

  /** Nothing in [lo, mid) is above anything in [mid, hi). */
  ghost predicate Below<T(!new)>(s: seq<T>, cmp: (T, T) -> int, lo: nat, mid: nat, hi: nat)
    requires lo <= mid <= hi <= |s|
  {
    forall j, k :: lo <= j < mid <= k < hi ==> cmp(s[j], s[k]) <= 0
  }

  /** Less than `v`, equal to it, greater. */
  ghost predicate Parted<T(!new)>(s: seq<T>, cmp: (T, T) -> int, lo: nat, p: nat, q: nat, hi: nat, v: T)
    requires lo <= p <= q <= hi <= |s|
  {
    && (forall k :: lo <= k < p ==> cmp(s[k], v) < 0)
    && (forall k :: p <= k < q ==> cmp(s[k], v) == 0)
    && (forall k :: q <= k < hi ==> cmp(s[k], v) > 0)
  }

  ghost predicate Sorted<T(!new)>(s: seq<T>, cmp: (T, T) -> int, lo: nat, hi: nat)
    requires lo <= hi <= |s|
  {
    forall j, k :: lo <= j < k < hi ==> cmp(s[j], s[k]) <= 0
  }

  // ---------------------------------------------------------------- what rearranging keeps

  lemma BelowPerm<T(!new)>(s: seq<T>, t: seq<T>, cmp: (T, T) -> int, lo: nat, mid: nat, hi: nat)
    requires Perm(s, t, mid, hi) && lo <= mid && Below(s, cmp, lo, mid, hi)
    ensures Below(t, cmp, lo, mid, hi)
  {
    forall j, k | lo <= j < mid <= k < hi ensures cmp(t[j], t[k]) <= 0 {
      PermOutside(s, t, mid, hi, j);
      var i := PermFrom(s, t, mid, hi, k);
    }
  }

  /** The settled part in front of a segment stays settled when the segment is rearranged. */
  lemma SettledPerm<T(!new)>(s: seq<T>, t: seq<T>, cmp: (T, T) -> int, lo: nat, mid: nat, hi: nat, lrange: nat,
                             rrange: nat)
    requires Perm(s, t, mid, hi) && lo <= mid && Below(s, cmp, lo, mid, hi)
    requires WindowSettled(s, cmp, lo, mid, hi, lrange, rrange)
    ensures WindowSettled(t, cmp, lo, mid, hi, lrange, rrange)
  {
    BelowPerm(s, t, cmp, lo, mid, hi);
    forall k | lo <= k < mid && InWindow(k, lrange, rrange) ensures Settled(t, cmp, lo, hi, k) {
      assert Settled(s, cmp, lo, hi, k);
      PermOutside(s, t, mid, hi, k);
      forall j | lo <= j < mid ensures s[j] == t[j] { PermOutside(s, t, mid, hi, j); }
    }
  }

  lemma PartedPerm<T(!new)>(s: seq<T>, t: seq<T>, cmp: (T, T) -> int, lo: nat, p: nat, q: nat, hi: nat, v: T)
    requires lo <= p <= q <= hi <= |s| && Perm(s, t, lo, p) && Parted(s, cmp, lo, p, q, hi, v)
    ensures Parted(t, cmp, lo, p, q, hi, v)
  {
    forall k | lo <= k < p ensures cmp(t[k], v) < 0 { var i := PermFrom(s, t, lo, p, k); }
    forall k | p <= k < hi ensures t[k] == s[k] { PermOutside(s, t, lo, p, k); }
  }

  lemma PartedOrder<T(!new)>(s: seq<T>, cmp: (T, T) -> int, lo: nat, p: nat, q: nat, hi: nat, v: T, j: nat, k: nat)
    requires TotalPreorder(cmp) && lo <= p <= q <= hi <= |s| && Parted(s, cmp, lo, p, q, hi, v)
    requires lo <= j < k < hi && (j < q || q <= k) && (p <= k || j < p) && !(j < p && k < p) && !(q <= j)
    ensures cmp(s[j], s[k]) <= 0
  {
    assert cmp(s[j], v) <= 0;
    assert cmp(s[k], v) >= 0;
    assert cmp(v, s[k]) <= 0;
  }

  /** After partitioning and sorting the low part, everything up to the high part is settled. */
  lemma PartedSettles<T(!new)>(s: seq<T>, cmp: (T, T) -> int, lo: nat, p: nat, q: nat, hi: nat, v: T, lrange: nat,
                               rrange: nat)
    requires TotalPreorder(cmp) && lo <= p <= q <= hi <= |s| && Parted(s, cmp, lo, p, q, hi, v)
    requires WindowSettled(s, cmp, lo, p, p, lrange, rrange)
    ensures WindowSettled(s, cmp, lo, q, hi, lrange, rrange) && Below(s, cmp, lo, q, hi)
  {
    hide Parted, TotalPreorder;
    forall k | lo <= k < q && InWindow(k, lrange, rrange) ensures Settled(s, cmp, lo, hi, k) {
      forall j | lo <= j < k ensures cmp(s[j], s[k]) <= 0 {
        if k < p { assert Settled(s, cmp, lo, p, k); } else { PartedOrder(s, cmp, lo, p, q, hi, v, j, k); }
      }
      forall j | k < j < hi ensures cmp(s[k], s[j]) <= 0 {
        if j < p { assert Settled(s, cmp, lo, p, k); } else { PartedOrder(s, cmp, lo, p, q, hi, v, k, j); }
      }
    }
    forall j, k | lo <= j < q <= k < hi ensures cmp(s[j], s[k]) <= 0 { PartedOrder(s, cmp, lo, p, q, hi, v, j, k); }
  }

  /** A settled piece behind a lower part is settled in the whole. */
  lemma SettledJoin<T(!new)>(s: seq<T>, cmp: (T, T) -> int, lo: nat, mid: nat, q: nat, hi: nat, lrange: nat,
                             rrange: nat)
    requires lo <= mid <= q <= hi <= |s| && Below(s, cmp, lo, mid, hi)
    requires WindowSettled(s, cmp, lo, mid, hi, lrange, rrange) && WindowSettled(s, cmp, mid, q, hi, lrange, rrange)
    ensures WindowSettled(s, cmp, lo, q, hi, lrange, rrange)
  {
    forall k | lo <= k < q && InWindow(k, lrange, rrange) ensures Settled(s, cmp, lo, hi, k) {
      if k < mid {
        assert Settled(s, cmp, lo, hi, k);
      } else {
        assert Settled(s, cmp, mid, hi, k);
      }
    }
  }

  lemma BelowJoin<T(!new)>(s: seq<T>, cmp: (T, T) -> int, lo: nat, mid: nat, q: nat, hi: nat)
    requires lo <= mid <= q <= hi <= |s| && Below(s, cmp, lo, mid, hi) && Below(s, cmp, mid, q, hi)
    ensures Below(s, cmp, lo, q, hi)
  {
  }

  // ---------------------------------------------------------------- the algorithm

  method Swap<T>(a: array<T>, i: nat, j: nat)
    requires i < a.Length && j < a.Length
    modifies a
    ensures a[..] == old(a[..])[i := old(a[j])][j := old(a[i])]
  {
    a[i], a[j] := a[j], a[i];
  }

  lemma PermRefl<T>(s: seq<T>, lo: nat, hi: nat)
    requires lo <= hi <= |s|
    ensures Perm(s, s, lo, hi)
  {
  }

  function Swapped<T>(s: seq<T>, i: nat, j: nat): (t: seq<T>)
    requires i < |s| && j < |s|
    ensures |t| == |s|
  {
    s[i := s[j]][j := s[i]]
  }

  /** A swap inside a segment that already is a rearrangement of `s`. */
  method SwapIn<T>(a: array<T>, i: nat, j: nat, ghost s: seq<T>, lo: nat, hi: nat)
    requires lo <= i < hi <= a.Length && lo <= j < hi && Perm(s, a[..], lo, hi)
    modifies a
    ensures Perm(s, a[..], lo, hi)
    ensures a[..] == Swapped(old(a[..]), i, j)
  {
    hide Perm;
    Swap(a, i, j);
    PermSwap(old(a[..]), i, j, lo, hi);
    PermTrans(s, old(a[..]), a[..], lo, hi);
  }

  /** The blocks of `r` elements at `i` and at `j` have changed places. */
  ghost predicate Exchanged<T>(s: seq<T>, t: seq<T>, i: nat, j: nat, r: nat)
    requires i + r <= j && j + r <= |s|
  {
    && |t| == |s|
    && (forall k :: i <= k < i + r ==> t[k] == s[k + (j - i)])
    && (forall k :: j <= k < j + r ==> t[k] == s[k - (j - i)])
    && (forall k :: 0 <= k < |s| && !(i <= k < i + r) && !(j <= k < j + r) ==> t[k] == s[k])
  }

  lemma ExchangeStart<T>(s: seq<T>, i: nat, j: nat)
    requires i <= j <= |s|
    ensures Exchanged(s, s, i, j, 0)
  {
  }

  lemma ExchangeStep<T>(s: seq<T>, t: seq<T>, i: nat, j: nat, n: nat)
    requires i + n < j && j + n < |s| && Exchanged(s, t, i, j, n)
    ensures Exchanged(s, Swapped(t, i + n, j + n), i, j, n + 1)
  {
    assert t[i + n] == s[i + n] && t[j + n] == s[j + n];
  }

  /** `vecswap`: exchange two blocks of `r` elements. */
  method VecSwap<T>(a: array<T>, i: nat, j: nat, r: nat, lo: nat, hi: nat)
    requires lo <= i && i + r <= j && j + r <= hi <= a.Length
    modifies a
    ensures Perm(old(a[..]), a[..], lo, hi)
    ensures Exchanged(old(a[..]), a[..], i, j, r)
  {
    hide Perm, Exchanged, Swapped;
    ghost var s := a[..];
    PermRefl(s, lo, hi);
    ExchangeStart(s, i, j);
    var n := 0;
    while n < r
      invariant n <= r
      invariant Perm(s, a[..], lo, hi) && Exchanged(s, a[..], i, j, n)
    {
      ExchangeStep(s, a[..], i, j, n);
      SwapIn(a, i + n, j + n, s, lo, hi);
      n := n + 1;
    }
  }

  /** The elements up to `pm` are sorted, except that the one at `pl` may have to go further down. */
  ghost predicate Inserting<T(!new)>(s: seq<T>, cmp: (T, T) -> int, lo: nat, pl: nat, pm: nat)
    requires lo <= pl <= pm < |s|
  {
    forall j, k :: lo <= j < k <= pm && k != pl ==> cmp(s[j], s[k]) <= 0
  }

  lemma InsertStart<T(!new)>(s: seq<T>, cmp: (T, T) -> int, lo: nat, pm: nat)
    requires lo < pm < |s| && Sorted(s, cmp, lo, pm)
    ensures Inserting(s, cmp, lo, pm, pm)
  {
  }

  lemma InsertStep<T(!new)>(s: seq<T>, cmp: (T, T) -> int, lo: nat, pl: nat, pm: nat)
    requires lo < pl <= pm < |s| && Inserting(s, cmp, lo, pl, pm) && cmp(s[pl], s[pl - 1]) <= 0
    ensures Inserting(Swapped(s, pl, pl - 1), cmp, lo, pl - 1, pm)
  {
    var t := Swapped(s, pl, pl - 1);
    forall j, k | lo <= j < k <= pm && k != pl - 1 ensures cmp(t[j], t[k]) <= 0 {
      var j' := if j == pl then pl - 1 else if j == pl - 1 then pl else j;
      assert t[j] == s[j'];
      if k == pl { assert t[k] == s[pl - 1]; } else { assert t[k] == s[k]; }
    }
  }

  lemma InsertStop<T(!new)>(s: seq<T>, cmp: (T, T) -> int, lo: nat, pl: nat, pm: nat)
    requires TotalPreorder(cmp) && lo <= pl <= pm < |s| && Inserting(s, cmp, lo, pl, pm)
    requires pl > lo ==> cmp(s[pl - 1], s[pl]) <= 0
    ensures Sorted(s, cmp, lo, pm + 1)
  {
    forall j, k | lo <= j < k < pm + 1 ensures cmp(s[j], s[k]) <= 0 {
      if k == pl && j < pl - 1 { assert cmp(s[j], s[pl - 1]) <= 0; }
    }
  }

  lemma NotAbove<T(!new)>(cmp: (T, T) -> int, x: T, y: T)
    requires TotalPreorder(cmp) && cmp(x, y) > 0
    ensures cmp(y, x) <= 0
  {
  }

  lemma ShortSorted<T(!new)>(s: seq<T>, cmp: (T, T) -> int, lo: nat)
    requires lo <= |s|
    ensures Sorted(s, cmp, lo, lo) && (lo < |s| ==> Sorted(s, cmp, lo, lo + 1))
  {
  }

  /** Insertion sort, for fewer than seven elements. */
  method InsertionSort<T(!new)>(a: array<T>, cmp: (T, T) -> int, lo: nat, n: nat)
    requires TotalPreorder(cmp) && lo + n <= a.Length
    modifies a
    ensures Perm(old(a[..]), a[..], lo, lo + n)
    ensures Sorted(a[..], cmp, lo, lo + n)
  {
    hide Perm, TotalPreorder, Sorted, Inserting, Swapped;
    ghost var s := a[..];
    PermRefl(s, lo, lo + n);
    ShortSorted(s, cmp, lo);
    if n == 0 { return; }
    var pm := lo + 1;
    while pm < lo + n
      invariant lo + 1 <= pm <= lo + n
      invariant Perm(s, a[..], lo, lo + n) && Sorted(a[..], cmp, lo, pm)
    {
      var pl := pm;
      InsertStart(a[..], cmp, lo, pm);
      while pl > lo && cmp(a[pl - 1], a[pl]) > 0
        invariant lo <= pl <= pm
        invariant Perm(s, a[..], lo, lo + n) && Inserting(a[..], cmp, lo, pl, pm)
      {
        NotAbove(cmp, a[pl - 1], a[pl]);
        InsertStep(a[..], cmp, lo, pl, pm);
        SwapIn(a, pl, pl - 1, s, lo, lo + n);
        pl := pl - 1;
      }
      InsertStop(a[..], cmp, lo, pl, pm);
      pm := pm + 1;
    }
  }

  /** `med3`: the position of a median of three. */
  method Med3<T(!new)>(a: array<T>, i: nat, j: nat, k: nat, cmp: (T, T) -> int) returns (m: nat)
    requires TotalPreorder(cmp) && i < a.Length && j < a.Length && k < a.Length
    ensures m == i || m == j || m == k
    ensures exists x, y :: (
      multiset{i, j, k} == multiset{x, m, y} && x < a.Length && y < a.Length
      && cmp(a[x], a[m]) <= 0 && cmp(a[m], a[y]) <= 0)
  {
    if cmp(a[i], a[j]) < 0 {
      if cmp(a[j], a[k]) < 0 {
        m := j;
        assert multiset{i, j, k} == multiset{i, m, k};
      } else if cmp(a[i], a[k]) < 0 {
        m := k;
        assert multiset{i, j, k} == multiset{i, m, j};
      } else {
        m := i;
        assert multiset{i, j, k} == multiset{k, m, j};
      }
    } else {
      if cmp(a[j], a[k]) > 0 {
        m := j;
        assert multiset{i, j, k} == multiset{k, m, i};
      } else if cmp(a[i], a[k]) < 0 {
        m := i;
        assert multiset{i, j, k} == multiset{j, m, k};
      } else {
        m := k;
        assert multiset{i, j, k} == multiset{j, m, i};
      }
    }
  }

  /** The choice of the pivot. The sort only relies on its being inside the segment. */
  method ChoosePivot<T(!new)>(a: array<T>, cmp: (T, T) -> int, lo: nat, n: nat) returns (pm: nat)
    requires TotalPreorder(cmp) && 7 <= n && lo + n <= a.Length
    ensures lo <= pm < lo + n
  {
    pm := lo + n / 2;
    if n > 7 {
      var pl, pn := lo, lo + n - 1;
      if n > 40 {
        var d := n / 8;
        pl := Med3(a, pl, pl + d, pl + 2 * d, cmp);
        pm := Med3(a, pm - d, pm, pm + d, cmp);
        pn := Med3(a, pn - 2 * d, pn - d, pn, cmp);
      }
      pm := Med3(a, pl, pm, pn, cmp);
    }
  }

  /** What the four pointers delimit: equal, less, unseen, greater, equal. */
  ghost predicate Regions<T(!new)>(s: seq<T>, cmp: (T, T) -> int, lo: nat, hi: nat, pa: int, pb: int, pc: int,
                                   pd: int, v: T) {
    && lo < pa <= pb <= pc + 1 && pc <= pd < hi <= |s|
    && s[lo] == v
    && (forall k :: lo <= k < pa ==> cmp(s[k], v) == 0)
    && (forall k :: pa <= k < pb ==> cmp(s[k], v) < 0)
    && (forall k :: pc < k <= pd ==> cmp(s[k], v) > 0)
    && (forall k :: pd < k < hi ==> cmp(s[k], v) == 0)
  }

  lemma LowEqual<T(!new)>(s: seq<T>, cmp: (T, T) -> int, lo: nat, hi: nat, pa: nat, pb: nat, pc: int, pd: int, v: T)
    requires Regions(s, cmp, lo, hi, pa, pb, pc, pd, v) && pb <= pc && cmp(s[pb], v) == 0
    ensures Regions(Swapped(s, pa, pb), cmp, lo, hi, pa + 1, pb + 1, pc, pd, v)
  {
  }

  lemma LowLess<T(!new)>(s: seq<T>, cmp: (T, T) -> int, lo: nat, hi: nat, pa: nat, pb: nat, pc: int, pd: int, v: T)
    requires Regions(s, cmp, lo, hi, pa, pb, pc, pd, v) && pb <= pc && cmp(s[pb], v) < 0
    ensures Regions(s, cmp, lo, hi, pa, pb + 1, pc, pd, v)
  {
  }

  lemma HighEqual<T(!new)>(s: seq<T>, cmp: (T, T) -> int, lo: nat, hi: nat, pa: nat, pb: nat, pc: int, pd: int, v: T)
    requires Regions(s, cmp, lo, hi, pa, pb, pc, pd, v) && pb <= pc && cmp(s[pc], v) == 0
    ensures Regions(Swapped(s, pc, pd), cmp, lo, hi, pa, pb, pc - 1, pd - 1, v)
  {
  }

  lemma HighGreater<T(!new)>(s: seq<T>, cmp: (T, T) -> int, lo: nat, hi: nat, pa: nat, pb: nat, pc: int, pd: int, v: T)
    requires Regions(s, cmp, lo, hi, pa, pb, pc, pd, v) && pb <= pc && cmp(s[pc], v) > 0
    ensures Regions(s, cmp, lo, hi, pa, pb, pc - 1, pd, v)
  {
  }

  lemma Crosswise<T(!new)>(s: seq<T>, cmp: (T, T) -> int, lo: nat, hi: nat, pa: nat, pb: nat, pc: int, pd: int, v: T)
    requires Regions(s, cmp, lo, hi, pa, pb, pc, pd, v) && pb < pc && cmp(s[pb], v) > 0 && cmp(s[pc], v) < 0
    ensures Regions(Swapped(s, pb, pc), cmp, lo, hi, pa, pb + 1, pc - 1, pd, v)
  {
  }

  lemma RegionBounds<T(!new)>(s: seq<T>, cmp: (T, T) -> int, lo: nat, hi: nat, pa: int, pb: int, pc: int, pd: int, v: T)
    requires Regions(s, cmp, lo, hi, pa, pb, pc, pd, v)
    ensures lo < pa <= pb <= pc + 1 && pc <= pd < hi <= |s| && s[lo] == v
  {
  }

  /** The first inner loop: extend the low regions. */
  method ScanUp<T(!new)>(a: array<T>, cmp: (T, T) -> int, lo: nat, hi: nat, pa0: nat, pb0: nat, pc: int, pd: int,
                         ghost v: T, ghost s: seq<T>)
    returns (pa: nat, pb: nat)
    requires hi <= a.Length && Regions(a[..], cmp, lo, hi, pa0, pb0, pc, pd, v) && Perm(s, a[..], lo, hi)
    modifies a
    ensures Regions(a[..], cmp, lo, hi, pa, pb, pc, pd, v) && Perm(s, a[..], lo, hi)
    ensures lo < pa && pb0 <= pb <= pc + 1 <= hi && (pb <= pc ==> cmp(a[pb], v) > 0)
  {
    hide Perm, Regions, Swapped;
    pa, pb := pa0, pb0;
    RegionBounds(a[..], cmp, lo, hi, pa, pb, pc, pd, v);
    while pb <= pc && cmp(a[pb], a[lo]) <= 0
      invariant lo < pa <= pb && pb0 <= pb <= pc + 1 && a[lo] == v
      invariant Regions(a[..], cmp, lo, hi, pa, pb, pc, pd, v) && Perm(s, a[..], lo, hi)
      decreases pc + 1 - pb
    {
      if cmp(a[pb], a[lo]) == 0 {
        LowEqual(a[..], cmp, lo, hi, pa, pb, pc, pd, v);
        SwapIn(a, pa, pb, s, lo, hi);
        pa := pa + 1;
      } else {
        LowLess(a[..], cmp, lo, hi, pa, pb, pc, pd, v);
      }
      pb := pb + 1;
      RegionBounds(a[..], cmp, lo, hi, pa, pb, pc, pd, v);
      assert a[lo] == a[..][lo];
    }
  }

  /** The second inner loop: extend the high regions. */
  method ScanDown<T(!new)>(a: array<T>, cmp: (T, T) -> int, lo: nat, hi: nat, pa: nat, pb: nat, pc0: int, pd0: int,
                           ghost v: T, ghost s: seq<T>)
    returns (pc: int, pd: int)
    requires hi <= a.Length && Regions(a[..], cmp, lo, hi, pa, pb, pc0, pd0, v)
    requires Perm(s, a[..], lo, hi) && lo <= pb <= pc0 + 1 <= hi && (pb <= pc0 ==> cmp(a[pb], v) > 0)
    modifies a
    ensures Regions(a[..], cmp, lo, hi, pa, pb, pc, pd, v) && Perm(s, a[..], lo, hi)
    ensures pb <= pc + 1 && pc <= pc0 && pc < hi
    ensures pb <= pc ==> pb < pc && cmp(a[pb], v) > 0 && cmp(a[pc], v) < 0
  {
    hide Perm, Regions, Swapped;
    pc, pd := pc0, pd0;
    RegionBounds(a[..], cmp, lo, hi, pa, pb, pc, pd, v);
    while pb <= pc && cmp(a[pc], a[lo]) >= 0
      invariant pb <= pc + 1 && pc <= pc0 && pc <= pd < hi && a[lo] == v
      invariant Regions(a[..], cmp, lo, hi, pa, pb, pc, pd, v) && Perm(s, a[..], lo, hi)
      invariant pb <= pc ==> cmp(a[pb], v) > 0
      decreases pc + 1 - pb
    {
      if cmp(a[pc], a[lo]) == 0 {
        HighEqual(a[..], cmp, lo, hi, pa, pb, pc, pd, v);
        SwapKeeps(a[..], pc, pd, pb);
        SwapIn(a, pc, pd, s, lo, hi);
        pd := pd - 1;
      } else {
        HighGreater(a[..], cmp, lo, hi, pa, pb, pc, pd, v);
      }
      pc := pc - 1;
      RegionBounds(a[..], cmp, lo, hi, pa, pb, pc, pd, v);
      assert a[lo] == a[..][lo] && (pb <= pc ==> a[pb] == a[..][pb]);
    }
  }

  lemma SwapKeeps<T>(s: seq<T>, i: nat, j: nat, k: nat)
    requires i < |s| && j < |s| && k < |s|
    ensures k != i && k != j ==> Swapped(s, i, j)[k] == s[k]
  {
  }

  /** The pivot is brought to the front. */
  lemma FirstRegions<T(!new)>(s: seq<T>, cmp: (T, T) -> int, lo: nat, hi: nat, pm: nat)
    requires TotalPreorder(cmp) && lo <= pm < hi <= |s|
    ensures Regions(Swapped(s, lo, pm), cmp, lo, hi, lo + 1, lo + 1, hi - 1, hi - 1, s[pm])
  {
    assert cmp(s[pm], s[pm]) == 0;
  }

  /** The three-way partition, up to the point where the pointers cross. */
  method Partition<T(!new)>(a: array<T>, cmp: (T, T) -> int, lo: nat, hi: nat, pm: nat)
    returns (pa: nat, pb: nat, pc: int, pd: int, ghost v: T)
    requires TotalPreorder(cmp) && lo <= pm < hi <= a.Length
    modifies a
    ensures Perm(old(a[..]), a[..], lo, hi)
    ensures Regions(a[..], cmp, lo, hi, pa, pb, pc, pd, v) && pb == pc + 1
  {
    hide Perm, Regions, Swapped, TotalPreorder;
    ghost var s := a[..];
    PermRefl(s, lo, hi);
    v := a[pm];
    FirstRegions(s, cmp, lo, hi, pm);
    SwapIn(a, lo, pm, s, lo, hi);
    pa, pb, pc, pd := lo + 1, lo + 1, hi - 1, hi - 1;
    while true
      invariant lo < pb <= pc + 1 <= hi
      invariant Regions(a[..], cmp, lo, hi, pa, pb, pc, pd, v) && Perm(s, a[..], lo, hi)
      decreases pc + 1 - pb
    {
      pa, pb := ScanUp(a, cmp, lo, hi, pa, pb, pc, pd, v, s);
      pc, pd := ScanDown(a, cmp, lo, hi, pa, pb, pc, pd, v, s);
      if pb > pc { break; }
      Crosswise(a[..], cmp, lo, hi, pa, pb, pc, pd, v);
      SwapIn(a, pb, pc, s, lo, hi);
      pb := pb + 1;
      pc := pc - 1;
    }
  }

  /** The partition, with the equal elements then moved from both ends to the middle. */
  method PartitionEqual<T(!new)>(a: array<T>, cmp: (T, T) -> int, lo: nat, hi: nat, pm: nat)
    returns (p: nat, q: nat, ghost v: T)
    requires TotalPreorder(cmp) && lo <= pm < hi <= a.Length
    modifies a
    ensures Perm(old(a[..]), a[..], lo, hi)
    ensures lo <= p < q <= hi && Parted(a[..], cmp, lo, p, q, hi, v)
  {
    hide Perm, Exchanged, Regions, Parted, TotalPreorder;
    var pa, pb, pc, pd;
    pa, pb, pc, pd, v := Partition(a, cmp, lo, hi, pm);
    ghost var s := a[..];
    RegionBounds(s, cmp, lo, hi, pa, pb, pc, pd, v);
    var r: nat := if pa - lo < pb - pa then pa - lo else pb - pa;
    VecSwap(a, lo, pb - r, r, lo, hi);
    ghost var t := a[..];
    PermTrans(old(a[..]), s, t, lo, hi);
    p := lo + (pb - pa);
    LowMoved(s, t, cmp, lo, hi, pa, pb, pc, pd, v, r);
    r := if pd - pc < hi - pd - 1 then pd - pc else hi - pd - 1;
    VecSwap(a, pb, hi - r, r, lo, hi);
    PermTrans(old(a[..]), t, a[..], lo, hi);
    q := hi - (pd - pc);
    HighMoved(t, a[..], cmp, lo, hi, p, pb, pd, v, r);
  }

  /** Between the two exchanges: less, equal, greater, equal. */
  ghost predicate HalfMoved<T(!new)>(s: seq<T>, cmp: (T, T) -> int, lo: nat, p: nat, pb: nat, pd: int, hi: nat, v: T) {
    && lo <= p < pb <= pd + 1 <= hi <= |s|
    && (forall k :: lo <= k < p ==> cmp(s[k], v) < 0)
    && (forall k :: p <= k < pb ==> cmp(s[k], v) == 0)
    && (forall k :: pb <= k <= pd ==> cmp(s[k], v) > 0)
    && (forall k :: pd < k < hi ==> cmp(s[k], v) == 0)
  }

  lemma LowMoved<T(!new)>(s: seq<T>, t: seq<T>, cmp: (T, T) -> int, lo: nat, hi: nat, pa: nat, pb: nat, pc: int,
                          pd: int, v: T, r: nat)
    requires Regions(s, cmp, lo, hi, pa, pb, pc, pd, v) && pb == pc + 1
    requires r == (if pa - lo < pb - pa then pa - lo else pb - pa) && Exchanged(s, t, lo, pb - r, r)
    ensures HalfMoved(t, cmp, lo, lo + (pb - pa), pb, pd, hi, v)
  {
  }

  lemma HighMoved<T(!new)>(s: seq<T>, t: seq<T>, cmp: (T, T) -> int, lo: nat, hi: nat, p: nat, pb: nat, pd: int, v: T,
                           r: nat)
    requires HalfMoved(s, cmp, lo, p, pb, pd, hi, v)
    requires r == (if pd + 1 - pb < hi - pd - 1 then pd + 1 - pb else hi - pd - 1) && Exchanged(s, t, pb, hi - r, r)
    ensures Parted(t, cmp, lo, p, hi - (pd + 1 - pb), hi, v)
  {
  }

  /** The low part, sorted when it is longer than one element and meets the window. */
  method SortLow<T(!new)>(a: array<T>, cmp: (T, T) -> int, lo: nat, p: nat, lrange: nat, rrange: nat)
    requires TotalPreorder(cmp) && lo <= p <= a.Length
    modifies a
    ensures Perm(old(a[..]), a[..], lo, p)
    ensures WindowSettled(a[..], cmp, lo, p, p, lrange, rrange)
    decreases p - lo, 1
  {
    if p - lo > 1 && !Skipped(lo, p - 1, lrange, rrange) {
      SortSegment(a, cmp, lo, p - lo, lrange, rrange);
    }
  }

  /** `_pqsort` on the segment [lo0, lo0 + n0): every position of the window is settled. */
  method SortSegment<T(!new)>(a: array<T>, cmp: (T, T) -> int, lo0: nat, n0: nat, lrange: nat, rrange: nat)
    requires TotalPreorder(cmp) && lo0 + n0 <= a.Length
    modifies a
    ensures Perm(old(a[..]), a[..], lo0, lo0 + n0)
    ensures WindowSettled(a[..], cmp, lo0, lo0 + n0, lo0 + n0, lrange, rrange)
    decreases n0, 0
  {
    hide Perm, Parted, WindowSettled, Below, TotalPreorder, Sorted;
    ghost var hi := lo0 + n0;
    var lo, n := lo0, n0;
    PermRefl(a[..], lo0, hi);
    NothingBelow(a[..], cmp, lo0, hi, lrange, rrange);
    while n >= 7
      invariant lo0 <= lo && lo + n == hi
      invariant Perm(old(a[..]), a[..], lo0, hi)
      invariant WindowSettled(a[..], cmp, lo0, lo, hi, lrange, rrange) && Below(a[..], cmp, lo0, lo, hi)
      decreases n
    {
      ghost var s := a[..];
      var pm := ChoosePivot(a, cmp, lo, n);
      var p, q;
      ghost var v;
      p, q, v := PartitionEqual(a, cmp, lo, lo + n, pm);
      ghost var t := a[..];
      SortLow(a, cmp, lo, p, lrange, rrange);
      Round(old(a[..]), s, t, a[..], cmp, lo0, lo, p, q, hi, v, lrange, rrange);
      var r := lo + n - q;
      if r > 1 && !Skipped(q, q + r - 1, lrange, rrange) {
        lo, n := q, r;
      } else {
        RestSettled(a[..], cmp, lo0, q, hi, lrange, rrange);
        return;
      }
    }
    ghost var s := a[..];
    InsertionSort(a, cmp, lo, n);
    LastRound(old(a[..]), s, a[..], cmp, lo0, lo, hi, lrange, rrange);
  }

  lemma NothingBelow<T(!new)>(s: seq<T>, cmp: (T, T) -> int, lo: nat, hi: nat, lrange: nat, rrange: nat)
    requires lo <= hi <= |s|
    ensures WindowSettled(s, cmp, lo, lo, hi, lrange, rrange) && Below(s, cmp, lo, lo, hi)
  {
  }

  /** One round: `s` at its start, `t` after the partition, `u` after the low part is sorted. */
  lemma Round<T(!new)>(o: seq<T>, s: seq<T>, t: seq<T>, u: seq<T>, cmp: (T, T) -> int,
                       lo0: nat, lo: nat, p: nat, q: nat, hi: nat, v: T, lrange: nat, rrange: nat)
    requires TotalPreorder(cmp) && lo0 <= lo <= p <= q <= hi <= |s|
    requires Perm(o, s, lo0, hi) && Perm(s, t, lo, hi) && Perm(t, u, lo, p)
    requires WindowSettled(s, cmp, lo0, lo, hi, lrange, rrange) && Below(s, cmp, lo0, lo, hi)
    requires Parted(t, cmp, lo, p, q, hi, v) && WindowSettled(u, cmp, lo, p, p, lrange, rrange)
    ensures |u| == |s| && Perm(o, u, lo0, hi)
    ensures WindowSettled(u, cmp, lo0, q, hi, lrange, rrange) && Below(u, cmp, lo0, q, hi)
  {
    hide Parted, WindowSettled, Below, TotalPreorder;
    assert |s| == |t| == |u|;
    PartedPerm(t, u, cmp, lo, p, q, hi, v);
    PartedSettles(u, cmp, lo, p, q, hi, v, lrange, rrange);
    PermWiden(t, u, lo, p, lo, hi);
    PermTrans(s, t, u, lo, hi);
    SettledPerm(s, u, cmp, lo0, lo, hi, lrange, rrange);
    BelowPerm(s, u, cmp, lo0, lo, hi);
    SettledJoin(u, cmp, lo0, lo, q, hi, lrange, rrange);
    BelowJoin(u, cmp, lo0, lo, q, hi);
    PermWiden(s, u, lo, hi, lo0, hi);
    PermTrans(o, s, u, lo0, hi);
  }

  /** The high part is not visited: it has at most one element, or the window does not meet it. */
  lemma RestSettled<T(!new)>(s: seq<T>, cmp: (T, T) -> int, lo: nat, q: nat, hi: nat, lrange: nat, rrange: nat)
    requires lo <= q <= hi <= |s| && (hi - q <= 1 || Skipped(q, hi - 1, lrange, rrange))
    requires WindowSettled(s, cmp, lo, q, hi, lrange, rrange) && Below(s, cmp, lo, q, hi)
    ensures WindowSettled(s, cmp, lo, hi, hi, lrange, rrange)
  {
  }

  lemma LastRound<T(!new)>(o: seq<T>, s: seq<T>, t: seq<T>, cmp: (T, T) -> int, lo0: nat, lo: nat, hi: nat,
                           lrange: nat, rrange: nat)
    requires lo0 <= lo <= hi <= |s| && Perm(o, s, lo0, hi) && Perm(s, t, lo, hi) && Sorted(t, cmp, lo, hi)
    requires WindowSettled(s, cmp, lo0, lo, hi, lrange, rrange) && Below(s, cmp, lo0, lo, hi)
    ensures |t| == |s| && Perm(o, t, lo0, hi) && WindowSettled(t, cmp, lo0, hi, hi, lrange, rrange)
  {
    hide Below, WindowSettled;
    SettledPerm(s, t, cmp, lo0, lo, hi, lrange, rrange);
    BelowPerm(s, t, cmp, lo0, lo, hi);
    SortedSettled(t, cmp, lo, hi, lrange, rrange);
    SettledJoin(t, cmp, lo0, lo, hi, hi, lrange, rrange);
    PermWiden(s, t, lo, hi, lo0, hi);
    PermTrans(o, s, t, lo0, hi);
  }

  lemma SortedSettled<T(!new)>(s: seq<T>, cmp: (T, T) -> int, lo: nat, hi: nat, lrange: nat, rrange: nat)
    requires lo <= hi <= |s| && Sorted(s, cmp, lo, hi)
    ensures WindowSettled(s, cmp, lo, hi, hi, lrange, rrange)
  {
  }

  /** `pqsort`: the array is rearranged, and every position of the window holds what any full sort
      of the original array would put there, up to elements that compare equal. */
  method Sort<T(!new)>(a: array<T>, cmp: (T, T) -> int, lrange: nat, rrange: nat)
    requires TotalPreorder(cmp)
    modifies a
    ensures multiset(a[..]) == old(multiset(a[..]))
    ensures forall k :: 0 <= k < a.Length && lrange <= k <= rrange ==> Settled(a[..], cmp, 0, a.Length, k)
    ensures forall t: seq<T>, k: nat :: IsSortOf(t, old(a[..]), cmp) && k < a.Length && lrange <= k <= rrange
              ==> cmp(a[..][k], t[k]) == 0
  {
    hide Settled, TotalPreorder, Sorted;
    SortSegment(a, cmp, 0, a.Length, lrange, rrange);
    assert a[0..a.Length] == a[..] && old(a[0..a.Length]) == old(a[..]);
    forall k: nat | k < a.Length && lrange <= k <= rrange ensures Settled(a[..], cmp, 0, a.Length, k) {
      assert InWindow(k, lrange, rrange);
    }
    ghost var s, o := a[..], old(a[..]);
    forall t: seq<T>, k: nat | IsSortOf(t, o, cmp) && k < |s| && lrange <= k <= rrange ensures cmp(s[k], t[k]) == 0 {
      SettledAgrees(s, t, cmp, k);
    }
  }

  // ---------------------------------------------------------------- settled is what sorting would give

  ghost predicate IsSortOf<T(!new)>(t: seq<T>, s: seq<T>, cmp: (T, T) -> int)
    ensures IsSortOf(t, s, cmp) ==> |t| == |s|
  {
    SameSize(t, s);
    multiset(t) == multiset(s) && Sorted(t, cmp, 0, |t|)
  }

  lemma SameSize<T>(t: seq<T>, s: seq<T>)
    ensures multiset(t) == multiset(s) ==> |t| == |s|
  {
    assert |multiset(t)| == |t| && |multiset(s)| == |s|;
  }

  /** How many elements satisfy `f`. */
  function Count<T>(s: seq<T>, f: T -> bool): (n: nat)
    ensures n <= |s|
  {
    if s == [] then 0 else (if f(s[0]) then 1 else 0) + Count(s[1..], f)
  }

  lemma {:induction false} CountConcat<T>(s: seq<T>, t: seq<T>, f: T -> bool)
    ensures Count(s + t, f) == Count(s, f) + Count(t, f)
  {
    if s == [] {
      assert s + t == t;
    } else {
      assert (s + t)[1..] == s[1..] + t;
      CountConcat(s[1..], t, f);
    }
  }

  function Without<T>(t: seq<T>, j: nat): (r: seq<T>)
    requires j < |t|
    ensures |r| == |t| - 1
  {
    t[..j] + t[j + 1..]
  }

  lemma WithoutMultiset<T>(t: seq<T>, j: nat)
    requires j < |t|
    ensures multiset(Without(t, j)) == multiset(t) - multiset{t[j]}
  {
    var a, b := t[..j], t[j + 1..];
    assert t == a + ([t[j]] + b);
    assert multiset(t) == multiset(a) + multiset([t[j]] + b);
  }

  lemma WithoutCount<T>(t: seq<T>, j: nat, f: T -> bool)
    requires j < |t|
    ensures Count(t, f) == Count(Without(t, j), f) + if f(t[j]) then 1 else 0
  {
    Split(t, j, f);
    CountConcat(t[..j], t[j + 1..], f);
    assert t[j..][0] == t[j] && t[j..][1..] == t[j + 1..];
  }

  lemma {:induction false} CountPerm<T>(s: seq<T>, t: seq<T>, f: T -> bool)
    requires multiset(s) == multiset(t)
    ensures Count(s, f) == Count(t, f)
    decreases |s|
  {
    hide Count, Without;
    SameSize(s, t);
    if s == [] {
    } else {
      var x := s[0];
      assert x in multiset(t);
      var j :| 0 <= j < |t| && t[j] == x;
      WithoutMultiset(s, 0);
      WithoutMultiset(t, j);
      WithoutCount(s, 0, f);
      WithoutCount(t, j, f);
      CountPerm(Without(s, 0), Without(t, j), f);
    }
  }

  lemma {:induction false} CountAll<T>(s: seq<T>, f: T -> bool)
    ensures (forall k :: 0 <= k < |s| ==> f(s[k])) ==> Count(s, f) == |s|
    ensures (forall k :: 0 <= k < |s| ==> !f(s[k])) ==> Count(s, f) == 0
  {
    if s != [] {
      CountAll(s[1..], f);
    }
  }

  /** A settled position agrees with every sort of the same elements. */
  lemma SettledAgrees<T(!new)>(s: seq<T>, t: seq<T>, cmp: (T, T) -> int, k: nat)
    requires TotalPreorder(cmp) && multiset(s) == multiset(t) && |s| == |t| && k < |s|
    requires Settled(s, cmp, 0, |s|, k) && Sorted(t, cmp, 0, |t|)
    ensures cmp(s[k], t[k]) == 0
  {
    hide TotalPreorder, Settled, Sorted, Count;
    if cmp(s[k], t[k]) > 0 {
      FewBelow(s, cmp, k);
      ManyBelow(t, cmp, k, s[k]);
      CountPerm(s, t, (x: T) => cmp(x, s[k]) < 0);
    } else if cmp(s[k], t[k]) < 0 {
      FewAbove(s, cmp, k);
      ManyAbove(t, cmp, k, s[k]);
      CountPerm(s, t, (x: T) => cmp(x, s[k]) > 0);
    }
  }

  /** At most `k` elements are less than the settled one, at most |s| - k - 1 greater. */
  lemma FewBelow<T(!new)>(s: seq<T>, cmp: (T, T) -> int, k: nat)
    requires TotalPreorder(cmp) && k < |s| && Settled(s, cmp, 0, |s|, k)
    ensures Count(s, (x: T) => cmp(x, s[k]) < 0) <= k
  {
    hide Count;
    var f := (x: T) => cmp(x, s[k]) < 0;
    Split(s, k, f);
    forall j | 0 <= j < |s[k..]| ensures !f(s[k..][j]) {
      assert s[k..][j] == s[k + j];
      assert j == 0 || cmp(s[k], s[k + j]) <= 0;
      assert cmp(s[k], s[k]) == 0;
    }
    CountAll(s[k..], f);
  }

  lemma FewAbove<T(!new)>(s: seq<T>, cmp: (T, T) -> int, k: nat)
    requires TotalPreorder(cmp) && k < |s| && Settled(s, cmp, 0, |s|, k)
    ensures Count(s, (x: T) => cmp(x, s[k]) > 0) < |s| - k
  {
    hide Count;
    var f := (x: T) => cmp(x, s[k]) > 0;
    Split(s, k + 1, f);
    var low := s[..k + 1];
    forall j | 0 <= j < |low| ensures !f(low[j]) {
      assert low[j] == s[j];
      assert j == k || cmp(s[j], s[k]) <= 0;
      assert cmp(s[k], s[k]) == 0;
    }
    CountAll(low, f);
  }

  lemma ManyBelow<T(!new)>(t: seq<T>, cmp: (T, T) -> int, k: nat, v: T)
    requires TotalPreorder(cmp) && k < |t| && Sorted(t, cmp, 0, |t|) && cmp(v, t[k]) > 0
    ensures Count(t, (x: T) => cmp(x, v) < 0) > k
  {
    hide Count, TotalPreorder;
    var f := (x: T) => cmp(x, v) < 0;
    Split(t, k + 1, f);
    var low := t[..k + 1];
    forall j | 0 <= j < |low| ensures f(low[j]) {
      assert low[j] == t[j];
      StrictlyBelow(cmp, t[j], t[k], v);
    }
    CountAll(low, f);
  }

  lemma ManyAbove<T(!new)>(t: seq<T>, cmp: (T, T) -> int, k: nat, v: T)
    requires TotalPreorder(cmp) && k < |t| && Sorted(t, cmp, 0, |t|) && cmp(v, t[k]) < 0
    ensures Count(t, (x: T) => cmp(x, v) > 0) >= |t| - k
  {
    hide Count, TotalPreorder;
    var f := (x: T) => cmp(x, v) > 0;
    Split(t, k, f);
    forall j | 0 <= j < |t[k..]| ensures f(t[k..][j]) {
      assert t[k..][j] == t[k + j];
      StrictlyAbove(cmp, t[k + j], t[k], v);
    }
    CountAll(t[k..], f);
  }

  lemma Split<T>(s: seq<T>, k: nat, f: T -> bool)
    requires k <= |s|
    ensures Count(s, f) == Count(s[..k], f) + Count(s[k..], f)
  {
    assert s == s[..k] + s[k..];
    CountConcat(s[..k], s[k..], f);
  }

  lemma StrictlyBelow<T(!new)>(cmp: (T, T) -> int, x: T, y: T, z: T)
    requires TotalPreorder(cmp) && (cmp(x, y) <= 0 || x == y) && cmp(z, y) > 0
    ensures cmp(x, z) < 0
  {
    assert cmp(x, x) == 0;
    assert cmp(z, x) <= 0 ==> cmp(z, y) <= 0;
  }

  lemma StrictlyAbove<T(!new)>(cmp: (T, T) -> int, x: T, y: T, z: T)
    requires TotalPreorder(cmp) && (cmp(y, x) <= 0 || x == y) && cmp(z, y) < 0
    ensures cmp(x, z) > 0
  {
    assert cmp(x, x) == 0;
    assert cmp(x, z) <= 0 ==> cmp(y, z) <= 0;
  }
}
