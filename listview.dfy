/** The list operations that every page builds its table from: keeping the
    records a search matches, cutting one page out of a list with JavaScript's
    `slice`, counting pages, and choosing the id of a new record. */
module ListView {

  function Min(a: int, b: int): int {
    if a <= b then a else b
  }

  function Max(a: int, b: int): int {
    if a >= b then a else b
  }

  /** `s.filter(p)`: the elements of `s` that satisfy `p`, in their order. */
  function Filter<T>(s: seq<T>, p: T -> bool): (r: seq<T>)
    ensures |r| <= |s|
    ensures forall i | 0 <= i < |r| :: p(r[i])
  {
    if s == [] then
      []
    else
      (if p(s[0]) then [s[0]] else []) + Filter(s[1..], p)
  }

  /** The filter keeps each element that passes as often as it occurs, and
      no other element. */
  lemma {:induction false} FilterCounts<T>(s: seq<T>, p: T -> bool, x: T)
    ensures multiset(Filter(s, p))[x] == if p(x) then multiset(s)[x] else 0
  {
    if s != [] {
      FilterCounts(s[1..], p, x);
      assert s == [s[0]] + s[1..];
    }
  }

  /** Membership: the filter keeps exactly the elements of `s` that pass. */
  lemma FilterMembers<T>(s: seq<T>, p: T -> bool)
    ensures forall x | x in Filter(s, p) :: x in s && p(x)
    ensures forall x | x in s && p(x) :: x in Filter(s, p)
  {
    forall x | x in Filter(s, p) || (x in s && p(x))
      ensures x in Filter(s, p) <==> x in s && p(x)
    {
      FilterCounts(s, p, x);
    }
  }

  /** `r` is obtained from `s` by deleting some elements. */
  ghost predicate IsSubsequence<T>(r: seq<T>, s: seq<T>)
    decreases |s|
  {
    r == [] || (s != [] && (IsSubsequence(r, s[1..]) || (r[0] == s[0] && IsSubsequence(r[1..], s[1..]))))
  }

  /** Filtering never reorders: the result is a subsequence of the input. */
  lemma {:induction false} FilterSubsequence<T>(s: seq<T>, p: T -> bool)
    ensures IsSubsequence(Filter(s, p), s)
  {
    if s != [] {
      FilterSubsequence(s[1..], p);
      if p(s[0]) {
        assert Filter(s, p) == [s[0]] + Filter(s[1..], p);
        assert Filter(s, p)[1..] == Filter(s[1..], p);
      } else {
        assert Filter(s, p) == Filter(s[1..], p);
      }
    }
  }

  /** One step of the filter: the head is kept when it passes. */
  lemma FilterCons<T>(x: T, s: seq<T>, p: T -> bool)
    ensures Filter([x] + s, p) == (if p(x) then [x] else []) + Filter(s, p)
  {
    assert ([x] + s)[1..] == s;
  }

  /** Filtering distributes over concatenation, so it keeps relative order. */
  lemma {:induction false} FilterAppend<T>(a: seq<T>, b: seq<T>, p: T -> bool)
    ensures Filter(a + b, p) == Filter(a, p) + Filter(b, p)
  {
    if a == [] {
      assert a + b == b;
    } else {
      var x, t := a[0], a[1..];
      assert a == [x] + t;
      assert a + b == [x] + (t + b);
      FilterAppend(t, b, p);
      FilterCons(x, t + b, p);
      FilterCons(x, t, p);
      var head := if p(x) then [x] else [];
      assert head + (Filter(t, p) + Filter(b, p)) == (head + Filter(t, p)) + Filter(b, p);
    }
  }

  /** When every element passes, the filter returns its input unchanged. */
  lemma {:induction false} FilterKeepsAll<T>(s: seq<T>, p: T -> bool)
    requires forall x | x in s :: p(x)
    ensures Filter(s, p) == s
  {
    if s != [] {
      FilterKeepsAll(s[1..], p);
    }
  }

  /** When no element passes, the filter returns nothing. */
  lemma {:induction false} FilterDropsAll<T>(s: seq<T>, p: T -> bool)
    requires forall x | x in s :: !p(x)
    ensures Filter(s, p) == []
  {
    if s != [] {
      FilterDropsAll(s[1..], p);
    }
  }

  /** Two tests that agree on every element filter alike. */
  lemma {:induction false} FilterCongruent<T>(s: seq<T>, p: T -> bool, q: T -> bool)
    requires forall x | x in s :: p(x) == q(x)
    ensures Filter(s, p) == Filter(s, q)
  {
    if s != [] {
      FilterCongruent(s[1..], p, q);
    }
  }

  function Reverse<T>(s: seq<T>): (r: seq<T>)
    ensures |r| == |s|
    ensures forall i | 0 <= i < |s| :: r[i] == s[|s| - 1 - i]
  {
    seq(|s|, i requires 0 <= i < |s| => s[|s| - 1 - i])
  }

  lemma ReverseAppend<T>(a: seq<T>, b: seq<T>)
    ensures Reverse(a + b) == Reverse(b) + Reverse(a)
  {
  }

  lemma {:induction false} FilterReverse<T>(s: seq<T>, p: T -> bool)
    ensures Filter(Reverse(s), p) == Reverse(Filter(s, p))
  {
    if s != [] {
      var head := if p(s[0]) then [s[0]] else [];
      calc {
        Filter(Reverse(s), p);
        { assert s == [s[0]] + s[1..]; ReverseAppend([s[0]], s[1..]); assert Reverse([s[0]]) == [s[0]]; }
        Filter(Reverse(s[1..]) + [s[0]], p);
        { FilterAppend(Reverse(s[1..]), [s[0]], p); }
        Filter(Reverse(s[1..]), p) + Filter([s[0]], p);
        { FilterReverse(s[1..], p); }
        Reverse(Filter(s[1..], p)) + Reverse(head);
        { ReverseAppend(head, Filter(s[1..], p)); assert Reverse(head) == head; }
        Reverse(head + Filter(s[1..], p));
      }
    }
  }

  /** How `slice` resolves one of its arguments against a length: a negative
      argument counts back from the end; the result is clamped to [0, len]. */
  function SliceIndex(i: int, len: nat): (r: nat)
    ensures r <= len
    ensures 0 <= i <= len ==> r == i
    ensures i > len ==> r == len
    ensures i < 0 ==> r == Max(len + i, 0)
  {
    if i < 0 then Max(len + i, 0) else Min(i, len)
  }

  /** `s.slice(start, end)`. */
  function JsSlice<T>(s: seq<T>, start: int, end: int): (r: seq<T>)
    ensures |r| <= |s|
  {
    var from, to := SliceIndex(start, |s|), SliceIndex(end, |s|);
    if from < to then s[from..to] else []
  }

  /** The slice holds the elements from the resolved start up to, not
      including, the resolved end, and nothing when the end does not lie
      after the start. */
  lemma JsSliceElements<T>(s: seq<T>, start: int, end: int)
    ensures var r, from, to := JsSlice(s, start, end), SliceIndex(start, |s|), SliceIndex(end, |s|);
      |r| == (if from < to then to - from else 0) && forall i | 0 <= i < |r| :: r[i] == s[from + i]
  {
  }

  lemma ProductNonNegative(a: nat, b: nat)
    ensures a * b >= 0
  {
  }

  /** Page `page` (counted from 1) of `s` with `size` rows per page: the
      slice from `(page - 1) * size` to `(page - 1) * size + size`. Page 0,
      which the room and booking pages can reach, is always empty. */
  function Page<T>(s: seq<T>, page: nat, size: nat): (r: seq<T>)
    requires size > 0
    ensures |r| <= size
    ensures page == 0 ==> r == []
    ensures page > 0 ==> |r| == Max(0, Min(size, |s| - (page - 1) * size))
    ensures page > 0 ==> forall i | 0 <= i < |r| :: r[i] == s[(page - 1) * size + i]
    ensures forall x | x in r :: x in s
  {
    if page > 0 then ProductNonNegative(page - 1, size); JsSlice(s, (page - 1) * size, (page - 1) * size + size)
    else JsSlice(s, (page - 1) * size, (page - 1) * size + size)
  }

  /** `Math.ceil(n / size)` for a natural `n`: the fewest pages of `size` rows
      that hold `n` rows. */
  function PageCount(n: nat, size: nat): (r: nat)
    requires size > 0
    ensures r * size >= n
    ensures r > 0 ==> (r - 1) * size < n
    ensures r == 0 <==> n == 0
  {
    var q := (n + size - 1) / size;
    assert q * size <= n + size - 1 < q * size + size;
    q
  }

  /** Pages 1 to k laid end to end. */
  function AllPages<T>(s: seq<T>, size: nat, k: nat): seq<T>
    requires size > 0
  {
    if k == 0 then [] else AllPages(s, size, k - 1) + Page(s, k, size)
  }

  /** Multiplying by a natural number keeps the order of natural numbers. */
  lemma MulMonotone(a: nat, b: nat, size: nat)
    requires a <= b
    ensures a * size <= b * size
  {
    ProductNonNegative(b - a, size);
    assert b * size == a * size + (b - a) * size;
  }

  /** Page `k` is the slice between `(k - 1) * size` and `k * size`, both
      cut down to the length of the list. */
  lemma PageSlice<T>(s: seq<T>, k: nat, size: nat, lo: nat)
    requires size > 0 && k > 0 && lo == (k - 1) * size
    ensures Page(s, k, size) == s[Min(lo, |s|)..Min(lo + size, |s|)]
  {
  }

  lemma {:induction false} AllPagesPrefix<T>(s: seq<T>, size: nat, k: nat)
    requires size > 0
    ensures AllPages(s, size, k) == s[..Min(k * size, |s|)]
  {
    if k > 0 {
      ProductNonNegative(k - 1, size);
      var lo: nat := (k - 1) * size;
      assert k * size == lo + size;
      AllPagesPrefix(s, size, k - 1);
      PageSlice(s, k, size, lo);
      var m, h := Min(lo, |s|), Min(lo + size, |s|);
      assert s[..m] + s[m..h] == s[..h];
    }
  }

  /** A page after the last one is empty. */
  lemma PageAfterLastEmpty<T>(s: seq<T>, size: nat, p: nat)
    requires size > 0 && p > PageCount(|s|, size)
    ensures Page(s, p, size) == []
  {
    var n := PageCount(|s|, size);
    MulMonotone(n, p - 1, size);
    PageSlice(s, p, size, (p - 1) * size);
  }

  /** Every page from the first to the last holds at least one row. */
  lemma PageUpToLastNonEmpty<T>(s: seq<T>, size: nat, p: nat)
    requires size > 0 && 1 <= p <= PageCount(|s|, size)
    ensures Page(s, p, size) != []
  {
    var n := PageCount(|s|, size);
    MulMonotone(p - 1, n - 1, size);
    PageSlice(s, p, size, (p - 1) * size);
  }

  /** Laying pages 1 to PageCount end to end gives back the whole list, so
      every row is on exactly one page; every later page is empty and no
      earlier page is. */
  lemma PagesCover<T>(s: seq<T>, size: nat)
    requires size > 0
    ensures AllPages(s, size, PageCount(|s|, size)) == s
    ensures forall p: nat | p > PageCount(|s|, size) :: Page(s, p, size) == []
    ensures forall p: nat | 1 <= p <= PageCount(|s|, size) :: Page(s, p, size) != []
  {
    AllPagesPrefix(s, size, PageCount(|s|, size));
    assert s[..|s|] == s;
    forall p: nat | p > PageCount(|s|, size)
      ensures Page(s, p, size) == []
    {
      PageAfterLastEmpty(s, size, p);
    }
    forall p: nat | 1 <= p <= PageCount(|s|, size)
      ensures Page(s, p, size) != []
    {
      PageUpToLastNonEmpty(s, size, p);
    }
  }

  /** The Previous button of the room and booking pages:
      `Math.max(p - 1, 1)`, one page back and never below page 1. */
  function ClampedPrevious(p: nat): (r: nat)
    ensures r >= 1
    ensures p > 1 ==> r == p - 1
    ensures p <= 1 ==> r == 1
  {
    Max(p - 1, 1)
  }

  /** The Next button of the room and booking pages:
      `Math.min(p + 1, total)`, one page on and never past the last page.
      With no rows the last page is 0, so Next then goes to page 0. */
  function ClampedNext(p: nat, total: nat): (r: nat)
    ensures r <= total
    ensures p < total ==> r == p + 1
    ensures p >= total ==> r == total
  {
    Min(p + 1, total)
  }

  /** `Math.max(...s.map(id))`. */
  function MaxId<T>(s: seq<T>, id: T -> int): (m: int)
    requires s != []
    ensures forall i | 0 <= i < |s| :: id(s[i]) <= m
    ensures exists i | 0 <= i < |s| :: id(s[i]) == m
  {
    if |s| == 1 then
      id(s[0])
    else
      var rest := MaxId(s[1..], id);
      assert forall i | 1 <= i < |s| :: s[i] == s[1..][i - 1];
      if id(s[0]) >= rest then id(s[0]) else rest
  }

  /** The id rule of the booking and user pages: one more than the largest
      id, or 1 for an empty list. */
  function NextId<T>(s: seq<T>, id: T -> int): (r: int)
    ensures forall i | 0 <= i < |s| :: id(s[i]) < r
    ensures s == [] ==> r == 1
    ensures s != [] ==> exists i | 0 <= i < |s| :: id(s[i]) == r - 1
  {
    if |s| > 0 then MaxId(s, id) + 1 else 1
  }

  /** No two elements of `s` share an id. */
  ghost predicate UniqueIds<T>(s: seq<T>, id: T -> int) {
    forall i, j | 0 <= i < j < |s| :: id(s[i]) != id(s[j])
  }

  /** Deleting elements keeps ids unique. */
  lemma {:induction false} SubsequenceKeepsUniqueIds<T>(r: seq<T>, s: seq<T>, id: T -> int)
    requires IsSubsequence(r, s) && UniqueIds(s, id)
    ensures UniqueIds(r, id)
    decreases |s|
  {
    if r != [] {
      assert UniqueIds(s[1..], id) by {
        forall i, j | 0 <= i < j < |s[1..]|
          ensures id(s[1..][i]) != id(s[1..][j])
        {
          assert s[1..][i] == s[i + 1] && s[1..][j] == s[j + 1];
        }
      }
      if IsSubsequence(r, s[1..]) {
        SubsequenceKeepsUniqueIds(r, s[1..], id);
      } else {
        SubsequenceKeepsUniqueIds(r[1..], s[1..], id);
        SubsequenceIn(r[1..], s[1..]);
        forall j | 0 < j < |r|
          ensures id(r[0]) != id(r[j])
        {
          assert r[j] in r[1..];
          var m :| 0 <= m < |s[1..]| && s[1..][m] == r[j];
          assert s[m + 1] == r[j];
        }
        forall i, j | 0 <= i < j < |r|
          ensures id(r[i]) != id(r[j])
        {
          if i > 0 {
            assert r[i] == r[1..][i - 1] && r[j] == r[1..][j - 1];
          }
        }
      }
    }
  }

  /** Every element of a subsequence occurs in the larger sequence. */
  lemma {:induction false} SubsequenceIn<T>(r: seq<T>, s: seq<T>)
    requires IsSubsequence(r, s)
    ensures forall x | x in r :: x in s
    decreases |s|
  {
    if r != [] {
      if IsSubsequence(r, s[1..]) {
        SubsequenceIn(r, s[1..]);
      } else {
        SubsequenceIn(r[1..], s[1..]);
        assert forall x | x in r :: x == r[0] || x in r[1..];
      }
    }
  }
}
