/** Sorting as the model's `sort_unstable`: a sorted permutation, which is
    unique wherever the order separates the elements. */
module Sorting {
  import opened Bytes

  ghost predicate TotalPreorder<T(!new)>(le: (T, T) -> bool) {
    && (forall a, b :: le(a, b) || le(b, a))
    && (forall a, b, c :: le(a, b) && le(b, c) ==> le(a, c))
  }

  lemma LexIsTotalPreorder()
    ensures TotalPreorder(LEX_ORDER)
  {
    forall a: Bytes, b: Bytes ensures LEX_ORDER(a, b) || LEX_ORDER(b, a) { LexTotal(a, b); }
    forall a: Bytes, b: Bytes, c: Bytes | LEX_ORDER(a, b) && LEX_ORDER(b, c) ensures LEX_ORDER(a, c) {
      LexTransitive(a, b, c);
    }
  }

  ghost predicate SortedBy<T>(le: (T, T) -> bool, s: seq<T>) {
    forall i, j | 0 <= i < j < |s| :: le(s[i], s[j])
  }

  function Insert<T>(le: (T, T) -> bool, x: T, s: seq<T>): (r: seq<T>)
    ensures multiset(r) == multiset(s) + multiset{x}
  {
    if s == [] || le(x, s[0]) then
      assert [x] + s == [x] + s;
      [x] + s
    else
      assert s == [s[0]] + s[1..];
      [s[0]] + Insert(le, x, s[1..])
  }

  function Sort<T>(le: (T, T) -> bool, s: seq<T>): (r: seq<T>)
    ensures multiset(r) == multiset(s)
    ensures |r| == |s|
  {
    if s == [] then []
    else
      assert s == [s[0]] + s[1..];
      var r := Insert(le, s[0], Sort(le, s[1..]));
      assert |r| == |multiset(r)| && |s| == |multiset(s)|;
      r
  }

  lemma {:induction false} InsertSorted<T(!new)>(le: (T, T) -> bool, x: T, s: seq<T>)
    requires TotalPreorder(le) && SortedBy(le, s)
    ensures SortedBy(le, Insert(le, x, s))
  {
    if s == [] || le(x, s[0]) {
      var r := [x] + s;
      forall i, j | 0 <= i < j < |r| ensures le(r[i], r[j]) {
        if i == 0 && j > 1 { assert le(s[0], s[j - 1]); }
      }
    } else {
      InsertSorted(le, x, s[1..]);
      var tail := Insert(le, x, s[1..]);
      var r := [s[0]] + tail;
      forall i, j | 0 <= i < j < |r| ensures le(r[i], r[j]) {
        if i == 0 {
          assert tail[j - 1] in multiset(tail);
          assert tail[j - 1] == x || tail[j - 1] in s[1..];
        } else {
          assert r[i] == tail[i - 1] && r[j] == tail[j - 1];
        }
      }
    }
  }

  lemma {:induction false} SortSorts<T(!new)>(le: (T, T) -> bool, s: seq<T>)
    requires TotalPreorder(le)
    ensures SortedBy(le, Sort(le, s))
  {
    if s != [] {
      SortSorts(le, s[1..]);
      InsertSorted(le, s[0], Sort(le, s[1..]));
    }
  }

  /** The order separates the elements of `s`: ties are equalities. */
  ghost predicate Separates<T>(le: (T, T) -> bool, s: seq<T>) {
    forall x, y | x in s && y in s && le(x, y) && le(y, x) :: x == y
  }

  lemma SortedHeads<T(!new)>(le: (T, T) -> bool, a: seq<T>, b: seq<T>)
    requires SortedBy(le, a) && SortedBy(le, b) && Separates(le, a)
    requires multiset(a) == multiset(b) && a != [] && b != []
    ensures a[0] == b[0]
  {
    assert a[0] in multiset(b) && b[0] in multiset(a);
    var i :| 0 <= i < |b| && b[i] == a[0];
    var j :| 0 <= j < |a| && a[j] == b[0];
    if i != 0 && j != 0 {
      assert le(a[0], a[j]) && le(b[0], b[i]);
    }
  }

  /** Two sorted permutations of each other are equal when the order
      separates the elements that occur. */
  lemma {:induction false} SortedUnique<T(!new)>(le: (T, T) -> bool, a: seq<T>, b: seq<T>)
    requires SortedBy(le, a) && SortedBy(le, b) && Separates(le, a)
    requires multiset(a) == multiset(b)
    ensures a == b
  {
    assert |a| == |multiset(a)| && |b| == |multiset(b)|;
    if a != [] {
      SortedHeads(le, a, b);
      TailsPermute(a, b);
      SortedTail(le, a);
      SortedTail(le, b);
      SortedUnique(le, a[1..], b[1..]);
    }
  }

  lemma TailsPermute<T>(a: seq<T>, b: seq<T>)
    requires a != [] && b != [] && a[0] == b[0] && multiset(a) == multiset(b)
    ensures multiset(a[1..]) == multiset(b[1..])
  {
    assert a == [a[0]] + a[1..] && b == [b[0]] + b[1..];
    assert multiset(a[1..]) == multiset(a) - multiset{a[0]};
  }

  lemma SortedTail<T>(le: (T, T) -> bool, s: seq<T>)
    requires s != []
    ensures SortedBy(le, s) ==> SortedBy(le, s[1..])
    ensures Separates(le, s) ==> Separates(le, s[1..])
  {
    assert forall e | e in s[1..] :: e in s;
  }

  /** A sequence already in order is its own sorting. */
  lemma SortFixed<T(!new)>(le: (T, T) -> bool, s: seq<T>)
    requires TotalPreorder(le) && SortedBy(le, s)
    requires Separates(le, s)
    ensures Sort(le, s) == s
  {
    SortSorts(le, s);
    SortedUnique(le, s, Sort(le, s));
  }

  // ----- sorting by a key is sorting the keys -----

  function Map<T, U>(f: T -> U, s: seq<T>): (r: seq<U>)
    ensures |r| == |s|
    ensures forall i | 0 <= i < |s| :: r[i] == f(s[i])
  {
    seq(|s|, i requires 0 <= i < |s| => f(s[i]))
  }

  lemma {:induction false} InsertMapped<T(!new), U(!new)>(le: (T, T) -> bool, keyLe: (U, U) -> bool, key: T -> U,
          x: T, s: seq<T>)
    requires forall a, b :: le(a, b) == keyLe(key(a), key(b))
    ensures Map(key, Insert(le, x, s)) == Insert(keyLe, key(x), Map(key, s))
  {
    if s == [] || le(x, s[0]) {
      assert Map(key, [x] + s) == [key(x)] + Map(key, s);
    } else {
      InsertMapped(le, keyLe, key, x, s[1..]);
      assert Map(key, s)[1..] == Map(key, s[1..]);
      var inserted := Insert(le, x, s[1..]);
      assert Map(key, [s[0]] + inserted) == [key(s[0])] + Map(key, inserted);
    }
  }

  lemma {:induction false} SortMapped<T(!new), U(!new)>(le: (T, T) -> bool, keyLe: (U, U) -> bool, key: T -> U,
          s: seq<T>)
    requires forall a, b :: le(a, b) == keyLe(key(a), key(b))
    ensures Map(key, Sort(le, s)) == Sort(keyLe, Map(key, s))
  {
    if s != [] {
      SortMapped(le, keyLe, key, s[1..]);
      InsertMapped(le, keyLe, key, s[0], Sort(le, s[1..]));
      assert Map(key, s)[1..] == Map(key, s[1..]);
    }
  }

  /** Pairwise distinctness. */
  predicate Distinct<T(==)>(s: seq<T>) {
    forall i, j | 0 <= i < j < |s| :: s[i] != s[j]
  }

  lemma {:induction false} DistinctByMultiset<T>(s: seq<T>)
    ensures Distinct(s) <==> (forall x | x in s :: multiset(s)[x] == 1)
  {
    if s != [] {
      var t := s[1..];
      assert s == [s[0]] + t;
      DistinctByMultiset(t);
      if Distinct(s) {
        assert forall i, j | 0 <= i < j < |t| :: t[i] == s[i + 1] && t[j] == s[j + 1];
        assert Distinct(t);
        assert s[0] !in t;
        forall x | x in s ensures multiset(s)[x] == 1 {
          if x in t { assert multiset(t)[x] == 1; }
        }
      }
      if forall x | x in s :: multiset(s)[x] == 1 {
        assert s[0] in s;
        assert s[0] !in multiset(t);
        forall x | x in t ensures multiset(t)[x] == 1 { assert x in s; assert x != s[0]; }
        forall i, j | 0 <= i < j < |s| ensures s[i] != s[j] {
          if i == 0 { assert s[j] in t; } else { assert s[i] == t[i - 1] && s[j] == t[j - 1]; }
        }
      }
    }
  }

  lemma DistinctPermutes<T>(a: seq<T>, b: seq<T>)
    requires multiset(a) == multiset(b) && Distinct(a)
    ensures Distinct(b)
  {
    DistinctByMultiset(a);
    DistinctByMultiset(b);
    forall x | x in b ensures multiset(b)[x] == 1 { assert x in multiset(b); assert x in multiset(a); assert x in a; }
  }
}
