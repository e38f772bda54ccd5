/** Sorting a page's rows by one column, ascending or descending, the way
    `Array.prototype.sort` does with a comparator that answers -1, 1 or 0:
    the result is sorted by the column and rows whose column values are equal
    keep their relative order (the sort is stable). */
module StableSort {
  import opened Strings
  import opened ListView

  /** The value a row shows in the column being sorted. JavaScript's `<`
      compares two numbers numerically and two strings character by
      character; a column holds values of one kind only, and ordering every
      number before every string merely makes the order total. */
  datatype SortKey = Num(n: int) | Str(s: string)

  datatype Direction = Asc | Desc

  /** The other direction. */
  function Flip(d: Direction): (r: Direction)
    ensures r != d
  {
    if d == Asc then Desc else Asc
  }

  predicate KeyLess(a: SortKey, b: SortKey) {
    match a
    case Num(x) => (match b case Num(y) => x < y case Str(_) => true)
    case Str(x) => (match b case Num(_) => false case Str(y) => StrLess(x, y))
  }

  /** The comparator answers -1 for (a, b): a row with key `a` goes before
      one with key `b`. */
  predicate Precedes(a: SortKey, b: SortKey, dir: Direction) {
    if dir == Asc then KeyLess(a, b) else KeyLess(b, a)
  }

  lemma PrecedesIrreflexive(a: SortKey, dir: Direction)
    ensures !Precedes(a, a, dir)
  {
    if a.Str? {
      StrLessIrreflexive(a.s);
    }
  }

  lemma KeyLessTransitive(a: SortKey, b: SortKey, c: SortKey)
    requires KeyLess(a, b) && KeyLess(b, c)
    ensures KeyLess(a, c)
  {
    if a.Str? && b.Str? && c.Str? {
      StrLessTransitive(a.s, b.s, c.s);
    }
  }

  lemma PrecedesTransitive(a: SortKey, b: SortKey, c: SortKey, dir: Direction)
    requires Precedes(a, b, dir) && Precedes(b, c, dir)
    ensures Precedes(a, c, dir)
  {
    if dir == Asc {
      KeyLessTransitive(a, b, c);
    } else {
      KeyLessTransitive(c, b, a);
    }
  }

  lemma PrecedesTotal(a: SortKey, b: SortKey, dir: Direction)
    ensures a == b || Precedes(a, b, dir) || Precedes(b, a, dir)
  {
    if a.Str? && b.Str? {
      StrLessTotal(a.s, b.s);
    }
  }

  lemma PrecedesAsymmetric(a: SortKey, b: SortKey, dir: Direction)
    requires Precedes(a, b, dir)
    ensures !Precedes(b, a, dir)
  {
    if Precedes(b, a, dir) {
      PrecedesTransitive(a, b, a, dir);
      PrecedesIrreflexive(a, dir);
    }
  }

  /** "Does not go after" is transitive. */
  lemma NotPrecedesTransitive(a: SortKey, b: SortKey, c: SortKey, dir: Direction)
    requires !Precedes(b, a, dir) && !Precedes(c, b, dir)
    ensures !Precedes(c, a, dir)
  {
    PrecedesTotal(a, b, dir);
    if Precedes(c, a, dir) && Precedes(a, b, dir) {
      PrecedesTransitive(c, a, b, dir);
    }
  }

  /** The comparator the tables hand to `sort`: -1 when a row with key `a`
      goes first in direction `dir`, 1 when a row with key `b` does, and 0
      exactly when the keys are equal. */
  function Compare(a: SortKey, b: SortKey, dir: Direction): (r: int)
    ensures r == -1 <==> Precedes(a, b, dir)
    ensures r == 1 <==> Precedes(b, a, dir)
    ensures r == 0 <==> a == b
  {
    PrecedesTotal(a, b, Asc);
    PrecedesIrreflexive(a, Asc);
    if KeyLess(a, b) then
      PrecedesAsymmetric(a, b, Asc);
      if dir == Asc then -1 else 1
    else if KeyLess(b, a) then
      if dir == Asc then 1 else -1
    else
      0
  }

  /** No row goes after a later row. */
  ghost predicate Sorted<T>(s: seq<T>, key: T -> SortKey, dir: Direction) {
    forall i, j | 0 <= i < j < |s| :: !Precedes(key(s[j]), key(s[i]), dir)
  }

  /** Places `x` in front of the first row that does not go before it. */
  function Insert<T>(x: T, s: seq<T>, key: T -> SortKey, dir: Direction): (r: seq<T>)
    ensures |r| == |s| + 1
  {
    if s == [] || !Precedes(key(s[0]), key(x), dir) then [x] + s
    else [s[0]] + Insert(x, s[1..], key, dir)
  }

  /** `[...s].sort(comparator)` for the comparator that orders rows by `key`
      in direction `dir` and answers 0 for equal keys. */
  function Sort<T>(s: seq<T>, key: T -> SortKey, dir: Direction): (r: seq<T>)
    ensures |r| == |s|
  {
    if s == [] then [] else Insert(s[0], Sort(s[1..], key, dir), key, dir)
  }

  lemma {:induction false} InsertPermutes<T>(x: T, s: seq<T>, key: T -> SortKey, dir: Direction)
    ensures multiset(Insert(x, s, key, dir)) == multiset(s) + multiset{x}
  {
    if s != [] && Precedes(key(s[0]), key(x), dir) {
      InsertPermutes(x, s[1..], key, dir);
      assert s == [s[0]] + s[1..];
    }
  }

  /** The sorted rows are a rearrangement of the input rows. */
  lemma {:induction false} SortPermutes<T>(s: seq<T>, key: T -> SortKey, dir: Direction)
    ensures multiset(Sort(s, key, dir)) == multiset(s)
  {
    if s != [] {
      SortPermutes(s[1..], key, dir);
      InsertPermutes(s[0], Sort(s[1..], key, dir), key, dir);
      assert s == [s[0]] + s[1..];
    }
  }

  /** A row that goes after none of the rows of a sorted list can stand in
      front of it. */
  lemma SortedCons<T>(h: T, rest: seq<T>, key: T -> SortKey, dir: Direction)
    requires Sorted(rest, key, dir)
    requires forall m | 0 <= m < |rest| :: !Precedes(key(rest[m]), key(h), dir)
    ensures Sorted([h] + rest, key, dir)
  {
    var r := [h] + rest;
    forall i, j | 0 <= i < j < |r|
      ensures !Precedes(key(r[j]), key(r[i]), dir)
    {
      assert r[j] == rest[j - 1];
      if i > 0 {
        assert r[i] == rest[i - 1];
      }
    }
  }

  lemma SortedTail<T>(s: seq<T>, key: T -> SortKey, dir: Direction)
    requires s != [] && Sorted(s, key, dir)
    ensures Sorted(s[1..], key, dir)
  {
    var t := s[1..];
    forall i, j | 0 <= i < j < |t|
      ensures !Precedes(key(t[j]), key(t[i]), dir)
    {
      assert t[i] == s[i + 1] && t[j] == s[j + 1];
    }
  }

  lemma {:induction false} InsertSorted<T>(x: T, s: seq<T>, key: T -> SortKey, dir: Direction)
    requires Sorted(s, key, dir)
    ensures Sorted(Insert(x, s, key, dir), key, dir)
  {
    if s == [] {
      assert Insert(x, s, key, dir) == [x];
    } else if !Precedes(key(s[0]), key(x), dir) {
      forall m | 0 <= m < |s|
        ensures !Precedes(key(s[m]), key(x), dir)
      {
        if m > 0 {
          NotPrecedesTransitive(key(x), key(s[0]), key(s[m]), dir);
        }
      }
      SortedCons(x, s, key, dir);
    } else {
      var t := s[1..];
      SortedTail(s, key, dir);
      InsertSorted(x, t, key, dir);
      var rest := Insert(x, t, key, dir);
      InsertPermutes(x, t, key, dir);
      forall m | 0 <= m < |rest|
        ensures !Precedes(key(rest[m]), key(s[0]), dir)
      {
        var y := rest[m];
        assert y in multiset(rest);
        if y == x {
          PrecedesAsymmetric(key(s[0]), key(x), dir);
        } else {
          assert y in multiset(t);
          var n :| 0 <= n < |t| && t[n] == y;
          assert s[n + 1] == y;
        }
      }
      SortedCons(s[0], rest, key, dir);
    }
  }

  /** The sorted rows are in order. */
  lemma {:induction false} SortSorted<T>(s: seq<T>, key: T -> SortKey, dir: Direction)
    ensures Sorted(Sort(s, key, dir), key, dir)
  {
    if s != [] {
      SortSorted(s[1..], key, dir);
      InsertSorted(s[0], Sort(s[1..], key, dir), key, dir);
    }
  }

  function HasKey<T>(key: T -> SortKey, k: SortKey): T -> bool {
    x => key(x) == k
  }

  /** The rows whose sort key is `k`, in their order in `s`. */
  function KeyClass<T>(s: seq<T>, key: T -> SortKey, k: SortKey): seq<T> {
    Filter(s, HasKey(key, k))
  }

  lemma KeyClassCons<T>(x: T, s: seq<T>, key: T -> SortKey, k: SortKey)
    ensures KeyClass([x] + s, key, k) == (if key(x) == k then [x] else []) + KeyClass(s, key, k)
  {
    assert ([x] + s)[0] == x && ([x] + s)[1..] == s;
  }

  lemma {:induction false} InsertStable<T>(x: T, s: seq<T>, key: T -> SortKey, dir: Direction, k: SortKey)
    ensures KeyClass(Insert(x, s, key, dir), key, k) == KeyClass([x] + s, key, k)
  {
    if s != [] && Precedes(key(s[0]), key(x), dir) {
      InsertStable(x, s[1..], key, dir, k);
      KeyClassCons(s[0], Insert(x, s[1..], key, dir), key, k);
      KeyClassCons(x, s[1..], key, k);
      KeyClassCons(x, s, key, k);
      assert s == [s[0]] + s[1..];
      KeyClassCons(s[0], s[1..], key, k);
      if key(x) == k {
        PrecedesIrreflexive(key(x), dir);
      }
    }
  }

  /** Stability: among rows with equal keys the sort keeps the input order. */
  lemma {:induction false} SortStable<T>(s: seq<T>, key: T -> SortKey, dir: Direction)
    ensures forall k :: KeyClass(Sort(s, key, dir), key, k) == KeyClass(s, key, k)
  {
    if s != [] {
      SortStable(s[1..], key, dir);
      forall k
        ensures KeyClass(Sort(s, key, dir), key, k) == KeyClass(s, key, k)
      {
        InsertStable(s[0], Sort(s[1..], key, dir), key, dir, k);
        KeyClassCons(s[0], Sort(s[1..], key, dir), key, k);
        KeyClassCons(s[0], s[1..], key, k);
        assert s == [s[0]] + s[1..];
      }
    }
  }

  lemma KeyClassNonEmpty<T>(s: seq<T>, key: T -> SortKey)
    requires s != []
    ensures KeyClass(s, key, key(s[0])) != []
  {
    KeyClassCons(s[0], s[1..], key, key(s[0]));
    assert s == [s[0]] + s[1..];
  }

  /** Two sorted sequences with the same rows for every key are equal. */
  lemma {:induction false} SortedClassesDetermine<T>(a: seq<T>, b: seq<T>, key: T -> SortKey, dir: Direction)
    requires Sorted(a, key, dir) && Sorted(b, key, dir)
    requires forall k :: KeyClass(a, key, k) == KeyClass(b, key, k)
    ensures a == b
    decreases |a|
  {
    if a != [] {
      KeyClassNonEmpty(a, key);
    }
    if b != [] {
      KeyClassNonEmpty(b, key);
    }
    if a != [] {
      assert a == [a[0]] + a[1..] && b == [b[0]] + b[1..];
      var ka, kb := key(a[0]), key(b[0]);
      if ka != kb {
        // b[0] has key kb, so some later row of a does; a is sorted, so kb
        // does not go before ka. Symmetrically ka does not go before kb.
        KeyClassCons(b[0], b[1..], key, kb);
        FilterMembers(a, HasKey(key, kb));
        assert b[0] in KeyClass(a, key, kb);
        var j :| 0 <= j < |a| && a[j] == b[0];
        assert !Precedes(kb, ka, dir);
        KeyClassCons(a[0], a[1..], key, ka);
        FilterMembers(b, HasKey(key, ka));
        assert a[0] in KeyClass(b, key, ka);
        var m :| 0 <= m < |b| && b[m] == a[0];
        assert !Precedes(ka, kb, dir);
        PrecedesTotal(ka, kb, dir);
        assert false;
      }
      KeyClassCons(a[0], a[1..], key, ka);
      KeyClassCons(b[0], b[1..], key, ka);
      assert KeyClass(a, key, ka)[0] == a[0] && KeyClass(b, key, ka)[0] == b[0];
      assert a[0] == b[0];
      forall k
        ensures KeyClass(a[1..], key, k) == KeyClass(b[1..], key, k)
      {
        KeyClassCons(a[0], a[1..], key, k);
        KeyClassCons(b[0], b[1..], key, k);
        var h := if key(a[0]) == k then [a[0]] else [];
        assert KeyClass(a[1..], key, k) == KeyClass(a, key, k)[|h|..];
        assert KeyClass(b[1..], key, k) == KeyClass(b, key, k)[|h|..];
      }
      SortedTail(a, key, dir);
      SortedTail(b, key, dir);
      SortedClassesDetermine(a[1..], b[1..], key, dir);
    }
  }

  /** The sort is determined by what it promises: any sorted sequence with the
      same rows for every key, in the same order, is the sort's result. So
      every stable sort gives the rows in the same order. */
  lemma SortUnique<T>(s: seq<T>, r: seq<T>, key: T -> SortKey, dir: Direction)
    requires Sorted(r, key, dir)
    requires forall k :: KeyClass(r, key, k) == KeyClass(s, key, k)
    ensures r == Sort(s, key, dir)
  {
    SortSorted(s, key, dir);
    SortStable(s, key, dir);
    SortedClassesDetermine(r, Sort(s, key, dir), key, dir);
  }

  /** Sorting rows that are already in order changes nothing; in particular
      sorting twice by the same column and direction equals sorting once. */
  lemma SortIdempotent<T>(s: seq<T>, key: T -> SortKey, dir: Direction)
    ensures Sorted(s, key, dir) ==> Sort(s, key, dir) == s
    ensures Sort(Sort(s, key, dir), key, dir) == Sort(s, key, dir)
  {
    if Sorted(s, key, dir) {
      SortUnique(s, s, key, dir);
    }
    var t := Sort(s, key, dir);
    SortSorted(s, key, dir);
    SortUnique(t, t, key, dir);
  }

  /** No two rows share a sort key. */
  ghost predicate DistinctKeys<T>(s: seq<T>, key: T -> SortKey) {
    forall i, j | 0 <= i < j < |s| :: key(s[i]) != key(s[j])
  }

  lemma {:induction false} DistinctKeysClassSmall<T>(s: seq<T>, key: T -> SortKey, k: SortKey)
    requires DistinctKeys(s, key)
    ensures |KeyClass(s, key, k)| <= 1
  {
    if s != [] {
      var t := s[1..];
      KeyClassCons(s[0], t, key, k);
      assert s == [s[0]] + t;
      if key(s[0]) == k {
        forall x | x in t
          ensures !HasKey(key, k)(x)
        {
          var m :| 0 <= m < |t| && t[m] == x;
          assert s[m + 1] == x;
        }
        FilterDropsAll(t, HasKey(key, k));
      } else {
        assert DistinctKeys(t, key) by {
          forall i, j | 0 <= i < j < |t|
            ensures key(t[i]) != key(t[j])
          {
            assert t[i] == s[i + 1] && t[j] == s[j + 1];
          }
        }
        DistinctKeysClassSmall(t, key, k);
      }
    }
  }

  /** Without ties, sorting descending gives the ascending order reversed.
      With ties it does not: equal rows keep their input order both ways. */
  lemma DescendingReversesAscending<T>(s: seq<T>, key: T -> SortKey)
    requires DistinctKeys(s, key)
    ensures Sort(s, key, Desc) == Reverse(Sort(s, key, Asc))
  {
    var up := Sort(s, key, Asc);
    var down := Reverse(up);
    SortSorted(s, key, Asc);
    SortStable(s, key, Asc);
    assert Sorted(down, key, Desc) by {
      forall i, j | 0 <= i < j < |down|
        ensures !Precedes(key(down[j]), key(down[i]), Desc)
      {
        assert down[i] == up[|up| - 1 - i] && down[j] == up[|up| - 1 - j];
      }
    }
    forall k
      ensures KeyClass(down, key, k) == KeyClass(s, key, k)
    {
      FilterReverse(up, HasKey(key, k));
      DistinctKeysClassSmall(s, key, k);
      var c := KeyClass(s, key, k);
      assert Reverse(c) == c;
    }
    SortUnique(s, down, key, Desc);
  }
}
