/**
 * The array operations of the JavaScript runtime that the components use:
 * `filter`, `slice` (with its treatment of negative and out-of-range
 * indices), `find`, and `sort` with a comparator, which the engine performs
 * as a stable sort.
 */
module JsArray {

  import opened Wrappers

  function Min(a: int, b: int): int {
    if a <= b then a else b
  }

  // ---------------------------------------------------------------------
  // s.filter(p)

  /** `s.filter(p)`: the elements satisfying `p`, in their original order. */
  function Filter<T>(s: seq<T>, p: T -> bool): (r: seq<T>)
    ensures |r| <= |s|
    ensures forall i :: 0 <= i < |r| ==> p(r[i])
  {
    if s == [] then [] else (if p(s[0]) then [s[0]] else []) + Filter(s[1..], p)
  }

  /** Filtering keeps every occurrence of an element satisfying `p` and no other. */
  lemma {:induction false} FilterMultiset<T>(s: seq<T>, p: T -> bool, x: T)
    ensures multiset(Filter(s, p))[x] == if p(x) then multiset(s)[x] else 0
  {
    if s != [] {
      FilterMultiset(s[1..], p, x);
      assert s == [s[0]] + s[1..];
    }
  }

  /** Filtering distributes over concatenation: the relative order of kept elements is preserved. */
  lemma {:induction false} FilterConcat<T>(a: seq<T>, b: seq<T>, p: T -> bool)
    ensures Filter(a + b, p) == Filter(a, p) + Filter(b, p)
  {
    if a == [] {
      assert a + b == b;
    } else {
      assert (a + b)[0] == a[0] && (a + b)[1..] == a[1..] + b;
      FilterConcat(a[1..], b, p);
    }
  }

  /** Filtering keeps everything exactly when every element satisfies the predicate. */
  lemma {:induction false} FilterAll<T>(s: seq<T>, p: T -> bool)
    ensures Filter(s, p) == s <==> forall i :: 0 <= i < |s| ==> p(s[i])
  {
    if s != [] {
      FilterAll(s[1..], p);
      if !p(s[0]) {
        assert |Filter(s, p)| < |s|;
      }
    }
  }

  // ---------------------------------------------------------------------
  // s.slice(start, end)

  /** How `slice` resolves a relative index: negative counts from the end, then clamp to `[0, len]`. */
  function ResolveIndex(rel: int, len: nat): (k: nat)
    ensures k <= len
    ensures 0 <= rel ==> k == Min(rel, len)
    ensures rel < 0 ==> k == if len + rel < 0 then 0 else len + rel
  {
    if rel < 0 then (if len + rel < 0 then 0 else len + rel) else Min(rel, len)
  }

  /** `s.slice(start, end)`, never a fault: an empty range gives `[]`. */
  function JsSlice<T>(s: seq<T>, start: int, end: int): seq<T> {
    var from, to := ResolveIndex(start, |s|), ResolveIndex(end, |s|);
    if from < to then s[from..to] else []
  }

  /** For bounds `0 <= start <= end`, `slice` is the ordinary subrange, clipped to the sequence. */
  lemma JsSliceNonNegative<T>(s: seq<T>, start: int, end: int)
    requires 0 <= start <= end
    ensures JsSlice(s, start, end) == s[Min(start, |s|)..Min(end, |s|)]
  {
  }

  /** Element `k` of a slice is the element `k` places after where the slice starts. */
  lemma JsSliceElement<T>(s: seq<T>, start: int, end: int, k: nat)
    requires k < |JsSlice(s, start, end)|
    ensures ResolveIndex(start, |s|) + k < |s|
    ensures JsSlice(s, start, end)[k] == s[ResolveIndex(start, |s|) + k]
  {
  }

  /** The page `pageIndex` of `s`: `s.slice(pageIndex * pageSize, pageIndex * pageSize + pageSize)`. */
  function Page<T>(s: seq<T>, pageIndex: int, pageSize: int): seq<T> {
    var start := pageIndex * pageSize;
    JsSlice(s, start, start + pageSize)
  }

  /**
   * A page with a non-negative index is the contiguous block starting at
   * `pageIndex * pageSize`, shortened at the end of the list, and empty past it.
   */
  lemma PageBlock<T>(s: seq<T>, pageIndex: int, pageSize: int)
    requires pageIndex >= 0 && pageSize >= 0
    ensures |Page(s, pageIndex, pageSize)| <= pageSize
    ensures pageIndex * pageSize >= |s| ==> Page(s, pageIndex, pageSize) == []
    ensures pageIndex * pageSize < |s| ==>
      Page(s, pageIndex, pageSize) == s[pageIndex * pageSize..Min(pageIndex * pageSize + pageSize, |s|)]
  {
    var start := pageIndex * pageSize;
    MulNonNegative(pageIndex, pageSize);
    JsSliceNonNegative(s, start, start + pageSize);
  }

  lemma MulNonNegative(a: int, b: int)
    requires a >= 0 && b >= 0
    ensures a * b >= 0
  {
  }

  /** Element `k` of the list is element `k % pageSize` of page `k / pageSize`. */
  lemma PageElement<T>(s: seq<T>, k: nat, pageSize: int)
    requires k < |s| && pageSize > 0
    ensures k % pageSize < |Page(s, k / pageSize, pageSize)|
    ensures Page(s, k / pageSize, pageSize)[k % pageSize] == s[k]
  {
    var q, m := k / pageSize, k % pageSize;
    assert q * pageSize + m == k;
    PageBlock(s, q, pageSize);
  }

  // ---------------------------------------------------------------------
  // s.findIndex(p) / s.find(p)

  /** The position of the first element satisfying `p`, if any. */
  function FirstIndex<T>(s: seq<T>, p: T -> bool): (r: Option<nat>)
    ensures r.Some? ==> r.value < |s| && p(s[r.value]) && forall j :: 0 <= j < r.value ==> !p(s[j])
    ensures r.None? ==> forall j :: 0 <= j < |s| ==> !p(s[j])
  {
    if s == [] then None
    else if p(s[0]) then Some(0)
    else match FirstIndex(s[1..], p)
      case None => None
      case Some(i) => Some(i + 1)
  }

  // ---------------------------------------------------------------------
  // s.sort((a, b) => key(b) - key(a)): stable, descending by key

  /** Keys never increase from left to right. */
  ghost predicate SortedDesc<T>(s: seq<T>, key: T -> int) {
    forall i, j :: 0 <= i < j < |s| ==> key(s[i]) >= key(s[j])
  }

  function KeyIs<T>(key: T -> int, d: int): T -> bool {
    x => key(x) == d
  }

  /** The elements whose key is `d`, in order. */
  function WithKey<T>(s: seq<T>, key: T -> int, d: int): seq<T> {
    Filter(s, KeyIs(key, d))
  }

  /** Elements with equal keys keep their relative order. */
  ghost predicate StableFor<T>(r: seq<T>, s: seq<T>, key: T -> int) {
    forall d :: WithKey(r, key, d) == WithKey(s, key, d)
  }

  /**
   * Where a stable insertion puts `x` into `s`: after the last element whose
   * key is at least `key(x)`.
   */
  function InsertPos<T>(x: T, s: seq<T>, key: T -> int): (k: nat)
    ensures k <= |s|
    ensures forall i :: k <= i < |s| ==> key(s[i]) < key(x)
    ensures k > 0 ==> key(s[k - 1]) >= key(x)
  {
    if s == [] then 0
    else if key(s[|s| - 1]) < key(x) then InsertPos(x, s[..|s| - 1], key)
    else |s|
  }

  /** Those three facts pin the insertion position down. */
  lemma InsertPosUnique<T>(x: T, s: seq<T>, key: T -> int, j: nat)
    requires j <= |s|
    requires forall i :: j <= i < |s| ==> key(s[i]) < key(x)
    requires j > 0 ==> key(s[j - 1]) >= key(x)
    ensures InsertPos(x, s, key) == j
  {
  }

  function Insert<T>(x: T, s: seq<T>, key: T -> int): seq<T> {
    var k := InsertPos(x, s, key);
    s[..k] + [x] + s[k..]
  }

  lemma InsertMultiset<T>(x: T, s: seq<T>, key: T -> int)
    ensures multiset(Insert(x, s, key)) == multiset(s) + multiset{x}
  {
    var k := InsertPos(x, s, key);
    assert s == s[..k] + s[k..];
  }

  lemma InsertSorted<T>(x: T, s: seq<T>, key: T -> int)
    requires SortedDesc(s, key)
    ensures SortedDesc(Insert(x, s, key), key)
  {
    var k := InsertPos(x, s, key);
    var r := Insert(x, s, key);
    forall i, j | 0 <= i < j < |r| ensures key(r[i]) >= key(r[j]) {
      if j < k || i > k {
      } else if i == k {
        assert key(r[j]) == key(s[j - 1]);
      } else if j == k {
        assert key(s[k - 1]) >= key(x) && key(s[i]) >= key(s[k - 1]);
      } else {
        assert r[i] == s[i] && r[j] == s[j - 1];
      }
    }
  }

  lemma InsertWithKey<T>(x: T, s: seq<T>, key: T -> int, d: int)
    ensures WithKey(Insert(x, s, key), key, d) == WithKey(s, key, d) + WithKey([x], key, d)
  {
    var k := InsertPos(x, s, key);
    var p, q := s[..k], s[k..];
    assert s == p + q;
    forall i | 0 <= i < |q| ensures key(q[i]) < key(x) {
      assert q[i] == s[k + i];
    }
    SpliceWithKey(p, x, q, key, d);
  }

  /** Putting `x` between `p` and `q`, where `q` holds only smaller keys, appends `x` to its key's elements. */
  lemma SpliceWithKey<T>(p: seq<T>, x: T, q: seq<T>, key: T -> int, d: int)
    requires forall i :: 0 <= i < |q| ==> key(q[i]) < key(x)
    ensures WithKey(p + [x] + q, key, d) == WithKey(p + q, key, d) + WithKey([x], key, d)
  {
    FilterSplice(p, x, q, KeyIs(key, d));
    if key(x) == d {
      FilterAbsent(q, KeyIs(key, d));
    }
  }

  /**
   * Filtering `p + [x] + q` and `p + q`: the two results differ exactly in
   * the contribution of `x`.
   */
  lemma FilterSplice<T>(p: seq<T>, x: T, q: seq<T>, pr: T -> bool)
    ensures Filter(p + q, pr) == Filter(p, pr) + Filter(q, pr)
    ensures Filter(p + [x] + q, pr) == Filter(p, pr) + Filter([x], pr) + Filter(q, pr)
    ensures pr(x) ==> Filter([x], pr) == [x]
    ensures !pr(x) ==> Filter([x], pr) == []
  {
    FilterConcat(p + [x], q, pr);
    FilterConcat(p, [x], pr);
    FilterConcat(p, q, pr);
  }

  lemma {:induction false} FilterAbsent<T>(s: seq<T>, p: T -> bool)
    requires forall i :: 0 <= i < |s| ==> !p(s[i])
    ensures Filter(s, p) == []
  {
    if s != [] {
      FilterAbsent(s[1..], p);
    }
  }

  /** The result of the engine's stable sort, descending by key: insertion from left to right. */
  function SortDesc<T>(s: seq<T>, key: T -> int): (r: seq<T>)
    ensures |r| == |s|
  {
    if s == [] then [] else Insert(s[|s| - 1], SortDesc(s[..|s| - 1], key), key)
  }

  /** The sort returns a permutation of its input. */
  lemma {:induction false} SortDescPermutation<T>(s: seq<T>, key: T -> int)
    ensures multiset(SortDesc(s, key)) == multiset(s)
  {
    if s != [] {
      var init, last := s[..|s| - 1], s[|s| - 1];
      SortDescPermutation(init, key);
      InsertMultiset(last, SortDesc(init, key), key);
      assert s == init + [last];
    }
  }

  /** The sort's result is ordered by key, largest first. */
  lemma {:induction false} SortDescSorted<T>(s: seq<T>, key: T -> int)
    ensures SortedDesc(SortDesc(s, key), key)
  {
    if s != [] {
      var init := s[..|s| - 1];
      SortDescSorted(init, key);
      InsertSorted(s[|s| - 1], SortDesc(init, key), key);
    }
  }

  /** The sort is stable: elements with equal keys stay in their input order. */
  lemma {:induction false} SortDescStable<T>(s: seq<T>, key: T -> int)
    ensures StableFor(SortDesc(s, key), s, key)
  {
    if s != [] {
      var init, last := s[..|s| - 1], s[|s| - 1];
      SortDescStable(init, key);
      assert s == init + [last];
      forall d ensures WithKey(SortDesc(s, key), key, d) == WithKey(s, key, d) {
        InsertWithKey(last, SortDesc(init, key), key, d);
        FilterConcat(init, [last], KeyIs(key, d));
      }
    }
  }

  /**
   * Two sequences that are both sorted by key and hold the same elements of
   * every key in the same order are equal. So any stable sort, whatever its
   * algorithm, produces `SortDesc`.
   */
  lemma {:induction false} SortedStableUnique<T>(r1: seq<T>, r2: seq<T>, key: T -> int)
    requires SortedDesc(r1, key) && SortedDesc(r2, key)
    requires forall d :: WithKey(r1, key, d) == WithKey(r2, key, d)
    ensures r1 == r2
    decreases |r1| + |r2|
  {
    if r1 == [] || r2 == [] {
      if r1 != [] {
        WithKeyHead(r1, key);
        assert false;
      } else if r2 != [] {
        WithKeyHead(r2, key);
        assert false;
      }
    } else {
      var k1, k2 := key(r1[0]), key(r2[0]);
      WithKeyHead(r1, key);
      WithKeyHead(r2, key);
      KeyBound(r2, key, k1);
      KeyBound(r1, key, k2);
      assert k1 == k2;
      assert r1[0] == WithKey(r1, key, k1)[0] == WithKey(r2, key, k1)[0] == r2[0];
      forall d ensures WithKey(r1[1..], key, d) == WithKey(r2[1..], key, d) {
        WithKeyTail(r1, key, d);
        WithKeyTail(r2, key, d);
        var w1, w2 := WithKey(r1[1..], key, d), WithKey(r2[1..], key, d);
        if d == k1 {
          assert WithKey(r1, key, d) == [r1[0]] + w1;
          assert WithKey(r2, key, d) == [r1[0]] + w2;
          assert w1 == ([r1[0]] + w1)[1..];
          assert w2 == ([r1[0]] + w2)[1..];
        } else {
          assert WithKey(r1, key, d) == w1;
          assert WithKey(r2, key, d) == w2;
        }
      }
      SortedStableUnique(r1[1..], r2[1..], key);
      assert r1 == [r1[0]] + r1[1..] && r2 == [r2[0]] + r2[1..];
    }
  }

  lemma WithKeyHead<T>(s: seq<T>, key: T -> int)
    requires s != []
    ensures WithKey(s, key, key(s[0])) != [] && WithKey(s, key, key(s[0]))[0] == s[0]
  {
  }

  lemma WithKeyTail<T>(s: seq<T>, key: T -> int, d: int)
    requires s != []
    ensures WithKey(s, key, d) == (if key(s[0]) == d then [s[0]] else []) + WithKey(s[1..], key, d)
  {
  }

  /** In a sorted sequence no key exceeds the first one. */
  lemma KeyBound<T>(s: seq<T>, key: T -> int, d: int)
    requires s != [] && SortedDesc(s, key)
    requires WithKey(s, key, d) != []
    ensures d <= key(s[0])
  {
    var w := WithKey(s, key, d);
    assert w == Filter(s, KeyIs(key, d));
    var x := w[0];
    FilterMultiset(s, KeyIs(key, d), x);
    assert KeyIs(key, d)(x);
    assert multiset(w)[x] > 0;
    assert x in s;
    var i :| 0 <= i < |s| && s[i] == x;
  }

  /** Every stable sort of `s`, descending by key, equals `SortDesc(s, key)`. */
  lemma StableSortIsSortDesc<T>(s: seq<T>, r: seq<T>, key: T -> int)
    requires SortedDesc(r, key) && StableFor(r, s, key)
    ensures r == SortDesc(s, key)
  {
    SortDescStable(s, key);
    SortDescSorted(s, key);
    SortedStableUnique(r, SortDesc(s, key), key);
  }

  /** `a.sort((x, y) => key(y) - key(x))` on an array, in place: insertion of each element in turn. */
  method SortInPlace<T>(a: array<T>, key: T -> int)
    modifies a
    ensures a[..] == SortDesc(old(a[..]), key)
  {
    ghost var s := a[..];
    var i := 0;
    while i < a.Length
      invariant 0 <= i <= a.Length
      invariant a[..] == SortDesc(s[..i], key) + s[i..]
    {
      ghost var done := SortDesc(s[..i], key);
      assert a[..i] == done && a[i] == s[i] && a[i + 1..] == s[i + 1..];
      InsertAt(a, i, key);
      SortDescSnoc(s, i, key);
      i := i + 1;
    }
    assert s[..a.Length] == s;
  }

  lemma SortDescSnoc<T>(s: seq<T>, i: nat, key: T -> int)
    requires i < |s|
    ensures SortDesc(s[..i + 1], key) == Insert(s[i], SortDesc(s[..i], key), key)
  {
    assert s[..i + 1][..i] == s[..i];
  }

  /** One insertion step: moves `a[i]` left past the neighbours with a smaller key. */
  method InsertAt<T>(a: array<T>, i: nat, key: T -> int)
    requires i < a.Length
    modifies a
    ensures a[..] == Insert(old(a[i]), old(a[..i]), key) + old(a[i + 1..])
  {
    var x := a[i];
    ghost var sorted := a[..i];
    var j := i;
    while j > 0 && key(a[j - 1]) < key(x)
      invariant 0 <= j <= i
      invariant forall k :: 0 <= k < j ==> a[k] == sorted[k]
      invariant forall k :: j < k <= i ==> a[k] == sorted[k - 1]
      invariant forall k :: i < k < a.Length ==> a[k] == old(a[k])
      invariant forall k :: j <= k < i ==> key(sorted[k]) < key(x)
    {
      a[j] := a[j - 1];
      j := j - 1;
    }
    a[j] := x;
    InsertPosUnique(x, sorted, key, j);
    assert a[..] == sorted[..j] + [x] + sorted[j..] + old(a[i + 1..]);
  }

  // ---------------------------------------------------------------------
  // Distinct elements

  ghost predicate Distinct<T>(s: seq<T>) {
    forall i, j :: 0 <= i < j < |s| ==> s[i] != s[j]
  }

  /** Distinct elements means every element occurs at most once. */
  lemma {:induction false} DistinctMultiset<T>(s: seq<T>)
    ensures Distinct(s) <==> forall x :: multiset(s)[x] <= 1
  {
    if s != [] {
      DistinctMultiset(s[1..]);
      assert s == [s[0]] + s[1..];
      if Distinct(s) {
        assert s[0] !in s[1..];
      }
      if forall x :: multiset(s)[x] <= 1 {
        assert multiset(s)[s[0]] <= 1;
        assert s[0] !in multiset(s[1..]);
        forall x ensures multiset(s[1..])[x] <= 1 {
          assert multiset(s)[x] == multiset(s[1..])[x] + (if x == s[0] then 1 else 0);
        }
        forall i, j | 0 <= i < j < |s| ensures s[i] != s[j] {
          assert s[j] in s[1..];
          if i > 0 {
            assert s[i] == s[1..][i - 1] && s[j] == s[1..][j - 1];
          }
        }
      }
    }
  }

  /** A permutation of distinct elements is again distinct. */
  lemma DistinctPermutation<T>(s: seq<T>, t: seq<T>)
    requires multiset(s) == multiset(t) && Distinct(s)
    ensures Distinct(t)
  {
    DistinctMultiset(s);
    DistinctMultiset(t);
  }
}
