/** Sequence helpers standing for the JavaScript array built-ins the engine
    uses: `find`/`findIndex`, stable `sort`, `slice(0, n)` and counting. */
module Seqs {

  datatype Option<T> = None | Some(value: T)

  function Min(a: int, b: int): int { if a <= b then a else b }
  function Max(a: int, b: int): int { if a >= b then a else b }

  /** `findIndex(x => p(x, a))`, with -1 as None. */
  function FindIndexWhere<T, A>(s: seq<T>, p: (T, A) -> bool, a: A): (r: Option<nat>)
    ensures r.Some? ==> r.value < |s| && p(s[r.value], a)
    ensures r.Some? ==> forall j :: 0 <= j < r.value ==> !p(s[j], a)
    ensures r.None? <==> forall j :: 0 <= j < |s| ==> !p(s[j], a)
  {
    if s == [] then None
    else if p(s[0], a) then Some(0)
    else match FindIndexWhere(s[1..], p, a)
      case None => None
      case Some(i) => Some(i + 1)
  }

  /** `find(x => p(x, a))`, with undefined as None. */
  function FindWhere<T, A>(s: seq<T>, p: (T, A) -> bool, a: A): (r: Option<T>)
    ensures r.None? <==> forall x :: x in s ==> !p(x, a)
    ensures r.Some? ==> r.value in s && p(r.value, a)
    ensures r.Some? ==> exists i :: 0 <= i < |s| && s[i] == r.value && forall j :: 0 <= j < i ==> !p(s[j], a)
  {
    match FindIndexWhere(s, p, a)
    case None => None
    case Some(i) => Some(s[i])
  }

  /** `a || b` on two possibly-undefined objects. */
  function OrElse<T>(a: Option<T>, b: Option<T>): (r: Option<T>)
    ensures r.Some? <==> a.Some? || b.Some?
  {
    if a.Some? then a else b
  }

  /** `s[0]`, which is undefined on an empty array. */
  function First<T>(s: seq<T>): (r: Option<T>)
    ensures r.Some? <==> |s| > 0
    ensures r.Some? ==> r.value == s[0]
  {
    if |s| > 0 then Some(s[0]) else None
  }

  /** Number of elements x with p(x, a). */
  function CountWhere<T, A>(s: seq<T>, p: (T, A) -> bool, a: A): nat {
    if s == [] then 0 else CountWhere(s[..|s| - 1], p, a) + (if p(s[|s| - 1], a) then 1 else 0)
  }

  lemma {:induction false} CountWhereAppend<T, A>(s: seq<T>, t: seq<T>, p: (T, A) -> bool, a: A)
    ensures CountWhere(s + t, p, a) == CountWhere(s, p, a) + CountWhere(t, p, a)
  {
    if t != [] {
      assert (s + t)[..|s + t| - 1] == s + t[..|t| - 1];
      CountWhereAppend(s, t[..|t| - 1], p, a);
    } else {
      assert s + t == s;
    }
  }

  lemma {:induction false} CountWhereCons<T, A>(x: T, t: seq<T>, p: (T, A) -> bool, a: A)
    ensures CountWhere([x] + t, p, a) == (if p(x, a) then 1 else 0) + CountWhere(t, p, a)
  {
    CountWhereAppend([x], t, p, a);
    assert [x][..0] == [];
  }

  lemma {:induction false} CountWherePrefix<T, A>(s: seq<T>, n: nat, p: (T, A) -> bool, a: A)
    requires n <= |s|
    ensures CountWhere(s[..n], p, a) <= CountWhere(s, p, a)
  {
    assert s == s[..n] + s[n..];
    CountWhereAppend(s[..n], s[n..], p, a);
  }

  /** Zero count means no element satisfies p. */
  lemma {:induction false} CountWhereZero<T, A>(s: seq<T>, p: (T, A) -> bool, a: A)
    ensures CountWhere(s, p, a) == 0 <==> forall x :: x in s ==> !p(x, a)
  {
    if s != [] {
      CountWhereZero(s[..|s| - 1], p, a);
      assert s == s[..|s| - 1] + [s[|s| - 1]];
    }
  }

  /** `find` returns the first matching element. */
  lemma FirstMatchIsFound<T, A>(s: seq<T>, p: (T, A) -> bool, a: A, k: int)
    requires 0 <= k < |s| && p(s[k], a) && forall j :: 0 <= j < k ==> !p(s[j], a)
    ensures FindIndexWhere(s, p, a) == Some(k) && FindWhere(s, p, a) == Some(s[k])
  {
  }

  /** One matching element makes the count positive. */
  lemma {:induction false} CountWherePositive<T, A>(s: seq<T>, p: (T, A) -> bool, a: A, i: int)
    requires 0 <= i < |s| && p(s[i], a)
    ensures CountWhere(s, p, a) >= 1
  {
    CountWhereZero(s, p, a);
    assert s[i] in s;
  }

  /** Two matching positions make the count at least two. */
  lemma {:induction false} CountWhereTwo<T, A>(s: seq<T>, p: (T, A) -> bool, a: A, i: int, j: int)
    requires 0 <= i < j < |s| && p(s[i], a) && p(s[j], a)
    ensures CountWhere(s, p, a) >= 2
  {
    var init := s[..|s| - 1];
    assert init[i] == s[i];
    if j < |s| - 1 {
      assert init[j] == s[j];
      CountWhereTwo(init, p, a, i, j);
    } else {
      CountWherePositive(init, p, a, i);
    }
  }

  /** When at most one element matches, `find` returns that element. */
  lemma {:induction false} UniqueMatchIsFound<T, A>(s: seq<T>, p: (T, A) -> bool, a: A, x: T)
    requires x in s && p(x, a) && CountWhere(s, p, a) <= 1
    ensures FindWhere(s, p, a) == Some(x)
  {
    var k :| 0 <= k < |s| && s[k] == x;
    var r := FindWhere(s, p, a);
    var i :| 0 <= i < |s| && s[i] == r.value && forall j :: 0 <= j < i ==> !p(s[j], a);
    if i < k {
      CountWhereTwo(s, p, a, i, k);
    }
  }

  /** `filter(x => p(x, a))` */
  function Filter<T, A>(s: seq<T>, p: (T, A) -> bool, a: A): (r: seq<T>)
    ensures forall x :: x in r ==> x in s && p(x, a)
    ensures forall x :: x in s && p(x, a) ==> x in r
    ensures |r| == CountWhere(s, p, a)
  {
    if s == [] then []
    else
      assert s == s[..|s| - 1] + [s[|s| - 1]];
      Filter(s[..|s| - 1], p, a) + (if p(s[|s| - 1], a) then [s[|s| - 1]] else [])
  }

  /** A count over a filtered sequence is bounded by a count over the whole
      sequence for any predicate q2 that every kept q-element satisfies. */
  lemma {:induction false} FilterCountAtMost<T, A, B, C>(s: seq<T>, p: (T, A) -> bool, a: A,
                                                        q: (T, B) -> bool, b: B, q2: (T, C) -> bool, c: C)
    requires forall x :: p(x, a) && q(x, b) ==> q2(x, c)
    ensures CountWhere(Filter(s, p, a), q, b) <= CountWhere(s, q2, c)
  {
    if s != [] {
      var init := s[..|s| - 1];
      var last := s[|s| - 1];
      FilterCountAtMost(init, p, a, q, b, q2, c);
      CountWhereAppend(Filter(init, p, a), if p(last, a) then [last] else [], q, b);
      if p(last, a) {
        assert [last][..0] == [];
      }
    }
  }

  /** Filtering a concatenation filters each part. */
  lemma {:induction false} FilterAppend<T, A>(s: seq<T>, t: seq<T>, p: (T, A) -> bool, a: A)
    ensures Filter(s + t, p, a) == Filter(s, p, a) + Filter(t, p, a)
  {
    if t != [] {
      assert (s + t)[..|s + t| - 1] == s + t[..|t| - 1];
      FilterAppend(s, t[..|t| - 1], p, a);
    } else {
      assert s + t == s;
    }
  }

  /** A filter that every element passes keeps the sequence; one that no
      element passes empties it. */
  lemma {:induction false} FilterAllOrNone<T, A>(s: seq<T>, p: (T, A) -> bool, a: A)
    ensures (forall i :: 0 <= i < |s| ==> p(s[i], a)) ==> Filter(s, p, a) == s
    ensures (forall i :: 0 <= i < |s| ==> !p(s[i], a)) ==> Filter(s, p, a) == []
  {
    if s != [] {
      FilterAllOrNone(s[..|s| - 1], p, a);
      assert s == s[..|s| - 1] + [s[|s| - 1]];
    }
  }

  /** Filtering a concatenation whose parts fall on opposite sides of two
      complementary tests gives back each part. */
  lemma FilterSplit<T, A>(kept: seq<T>, added: seq<T>, p: (T, A) -> bool, q: (T, A) -> bool, a: A)
    requires forall i :: 0 <= i < |kept| ==> p(kept[i], a) && !q(kept[i], a)
    requires forall i :: 0 <= i < |added| ==> q(added[i], a) && !p(added[i], a)
    ensures Filter(kept + added, p, a) == kept
    ensures Filter(kept + added, q, a) == added
  {
    FilterAppend(kept, added, p, a);
    FilterAppend(kept, added, q, a);
    FilterAllOrNone(kept, p, a);
    FilterAllOrNone(kept, q, a);
    FilterAllOrNone(added, p, a);
    FilterAllOrNone(added, q, a);
    assert kept + [] == kept;
    assert [] + added == added;
  }

  /** Replacing one element changes a count by at most the two elements involved. */
  lemma {:induction false} CountWhereUpdate<T, A>(s: seq<T>, i: int, x: T, p: (T, A) -> bool, a: A)
    requires 0 <= i < |s|
    ensures CountWhere(s[i := x], p, a) + (if p(s[i], a) then 1 else 0)
         == CountWhere(s, p, a) + (if p(x, a) then 1 else 0)
  {
    assert s == s[..i] + [s[i]] + s[i + 1..];
    assert s[i := x] == s[..i] + [x] + s[i + 1..];
    CountWhereAppend(s[..i] + [s[i]], s[i + 1..], p, a);
    CountWhereAppend(s[..i] + [x], s[i + 1..], p, a);
    CountWhereAppend(s[..i], [s[i]], p, a);
    CountWhereAppend(s[..i], [x], p, a);
    assert [x][..0] == [] && [s[i]][..0] == [];
  }

  /** Sorted ascending by key. */
  predicate SortedBy<T>(s: seq<T>, key: T -> int) {
    forall i, j :: 0 <= i < j < |s| ==> key(s[i]) <= key(s[j])
  }

  /** Puts x in front of the first element whose key is not smaller,
      so x precedes every element with an equal key. */
  function Insert<T>(x: T, s: seq<T>, key: T -> int): (r: seq<T>)
    ensures |r| == |s| + 1
    ensures multiset(r) == multiset(s) + multiset{x}
  {
    if s == [] || key(x) <= key(s[0]) then [x] + s
    else
      assert s == [s[0]] + s[1..];
      [s[0]] + Insert(x, s[1..], key)
  }

  /** Inserting into a sorted list keeps it sorted. */
  lemma {:induction false} InsertSorted<T>(x: T, s: seq<T>, key: T -> int)
    requires SortedBy(s, key)
    ensures SortedBy(Insert(x, s, key), key)
  {
    if s == [] || key(x) <= key(s[0]) {
      forall y | y in s ensures key(x) <= key(y) {
        var k :| 0 <= k < |s| && s[k] == y;
        if k > 0 {
          assert key(s[0]) <= key(s[k]);
        }
      }
      SortedCons(x, s, key);
    } else {
      var tail := s[1..];
      assert SortedBy(tail, key) by {
        forall i, j | 0 <= i < j < |tail| ensures key(tail[i]) <= key(tail[j]) {
          assert tail[i] == s[i + 1] && tail[j] == s[j + 1];
        }
      }
      InsertSorted(x, tail, key);
      var rest := Insert(x, tail, key);
      assert s == [s[0]] + tail;
      forall y | y in rest ensures key(s[0]) <= key(y) {
        assert y in multiset(rest);
        if y != x {
          assert y in multiset(tail);
          var k :| 0 <= k < |tail| && tail[k] == y;
          assert s[k + 1] == y;
        }
      }
      SortedCons(s[0], rest, key);
    }
  }

  /** An element no larger than every element of a sorted list can go in front. */
  lemma SortedCons<T>(a: T, rest: seq<T>, key: T -> int)
    requires SortedBy(rest, key)
    requires forall y :: y in rest ==> key(a) <= key(y)
    ensures SortedBy([a] + rest, key)
  {
    var r := [a] + rest;
    forall i, j | 0 <= i < j < |r| ensures key(r[i]) <= key(r[j]) {
      assert r[j] == rest[j - 1];
      if i > 0 {
        assert r[i] == rest[i - 1];
      } else {
        assert rest[j - 1] in rest;
      }
    }
  }

  /** The stable sort `Array.prototype.sort` performs with comparator
      `(a, b) => key(a) - key(b)`. */
  function SortBy<T>(s: seq<T>, key: T -> int): (r: seq<T>)
    ensures |r| == |s|
    ensures multiset(r) == multiset(s)
    ensures SortedBy(r, key)
  {
    if s == [] then []
    else
      assert s == [s[0]] + s[1..];
      var sorted := SortBy(s[1..], key);
      InsertSorted(s[0], sorted, key);
      Insert(s[0], sorted, key)
  }

  lemma {:induction false} CountWhereInsert<T, A>(x: T, s: seq<T>, key: T -> int, p: (T, A) -> bool, a: A)
    ensures CountWhere(Insert(x, s, key), p, a) == (if p(x, a) then 1 else 0) + CountWhere(s, p, a)
  {
    if s == [] || key(x) <= key(s[0]) {
      CountWhereCons(x, s, p, a);
    } else {
      assert s == [s[0]] + s[1..];
      CountWhereInsert(x, s[1..], key, p, a);
      CountWhereCons(s[0], Insert(x, s[1..], key), p, a);
      CountWhereCons(s[0], s[1..], p, a);
    }
  }

  /** Sorting does not change how many elements satisfy a predicate. */
  lemma {:induction false} CountWhereSortBy<T, A>(s: seq<T>, key: T -> int, p: (T, A) -> bool, a: A)
    ensures CountWhere(SortBy(s, key), p, a) == CountWhere(s, p, a)
  {
    if s != [] {
      assert s == [s[0]] + s[1..];
      CountWhereSortBy(s[1..], key, p, a);
      CountWhereInsert(s[0], SortBy(s[1..], key), key, p, a);
      CountWhereCons(s[0], s[1..], p, a);
    }
  }

  /** The elements whose key is k, in their order in s. */
  function WithKey<T>(s: seq<T>, key: T -> int, k: int): seq<T> {
    if s == [] then []
    else (if key(s[0]) == k then [s[0]] else []) + WithKey(s[1..], key, k)
  }

  lemma {:induction false} WithKeyInsert<T>(x: T, s: seq<T>, key: T -> int, k: int)
    ensures WithKey(Insert(x, s, key), key, k) == (if key(x) == k then [x] else []) + WithKey(s, key, k)
  {
    if s == [] || key(x) <= key(s[0]) {
      assert ([x] + s)[1..] == s;
    } else {
      var rest := Insert(x, s[1..], key);
      assert ([s[0]] + rest)[1..] == rest;
      WithKeyInsert(x, s[1..], key, k);
      if key(x) == k {
        // s[0] comes before x and has a smaller key, so it is not kept
        assert key(s[0]) != k;
      }
    }
  }

  /** Stability: for every key value the sort keeps the original order of
      the elements carrying it. */
  lemma {:induction false} SortByIsStable<T>(s: seq<T>, key: T -> int, k: int)
    ensures WithKey(SortBy(s, key), key, k) == WithKey(s, key, k)
  {
    if s != [] {
      SortByIsStable(s[1..], key, k);
      WithKeyInsert(s[0], SortBy(s[1..], key), key, k);
    }
  }

  /** `s.slice(0, n)`: a negative n counts from the end. */
  function SliceTo<T>(s: seq<T>, n: int): (r: seq<T>)
    ensures |r| <= |s| && r == s[..|r|]
    ensures n >= 0 ==> |r| == Min(n, |s|)
    ensures n < 0 ==> |r| == Max(|s| + n, 0)
  {
    if n >= 0 then s[..Min(n, |s|)] else s[..Max(|s| + n, 0)]
  }
}
