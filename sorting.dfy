/**
 * `Array.prototype.filter` and `Array.prototype.sort` with a key comparison,
 * over an abstract total preorder on strings (the role `localeCompare` plays).
 */
module Sorting {

  /** Every two keys are comparable, and the comparison is transitive. Ties are allowed. */
  ghost predicate TotalPreorder(before: (string, string) -> bool) {
    && (forall a, b :: before(a, b) || before(b, a))
    && (forall a, b, c :: before(a, b) && before(b, c) ==> before(a, c))
  }

  ghost predicate SortedBy<T>(s: seq<T>, key: T -> string, before: (string, string) -> bool) {
    forall i, j | 0 <= i < j < |s| :: before(key(s[i]), key(s[j]))
  }

  predicate NoDup<T(==)>(s: seq<T>) {
    forall i, j | 0 <= i < j < |s| :: s[i] != s[j]
  }

  /** `s.filter(p)`: the elements satisfying `p`. */
  function Select<T(!new)>(s: seq<T>, p: T -> bool): (r: seq<T>)
    ensures |r| <= |s|
    ensures forall x :: x in r <==> x in s && p(x)
  {
    if s == [] then []
    else
      var rest := Select(s[1..], p);
      assert s == [s[0]] + s[1..];
      if p(s[0]) then [s[0]] + rest else rest
  }

  /** `filter` keeps each element satisfying `p` as often as it occurs in `s`, and no other. */
  lemma {:induction false} SelectCount<T(!new)>(s: seq<T>, p: T -> bool)
    ensures forall x :: multiset(Select(s, p))[x] == if p(x) then multiset(s)[x] else 0
  {
    if s != [] {
      SelectCount(s[1..], p);
      assert s == [s[0]] + s[1..];
    }
  }

  /** Puts `x` in front of the first element it sorts before, keeping the sequence sorted. */
  function Insert<T>(x: T, s: seq<T>, key: T -> string, before: (string, string) -> bool): (r: seq<T>)
    requires TotalPreorder(before)
    requires SortedBy(s, key, before)
    ensures multiset(r) == multiset(s) + multiset{x}
    ensures SortedBy(r, key, before)
  {
    if s == [] || before(key(x), key(s[0])) then
      [x] + s
    else
      var rest := Insert(x, s[1..], key, before);
      InsertAfterHead(x, s, rest, key, before);
      [s[0]] + rest
  }

  /** The recursive step of `Insert`: `x` goes after the head, into the tail. */
  lemma InsertAfterHead<T>(x: T, s: seq<T>, rest: seq<T>, key: T -> string, before: (string, string) -> bool)
    requires TotalPreorder(before)
    requires s != [] && SortedBy(s, key, before) && !before(key(x), key(s[0]))
    requires SortedBy(rest, key, before) && multiset(rest) == multiset(s[1..]) + multiset{x}
    ensures SortedBy([s[0]] + rest, key, before)
    ensures multiset([s[0]] + rest) == multiset(s) + multiset{x}
  {
    assert forall j | 0 <= j < |s[1..]| :: s[1..][j] == s[j + 1];
    HeadBound(s[0], x, s[1..], rest, key, before);
    var r := [s[0]] + rest;
    forall i, j | 0 <= i < j < |r| ensures before(key(r[i]), key(r[j])) {
      assert r[j] == rest[j - 1];
      if i > 0 {
        assert r[i] == rest[i - 1];
      }
    }
    assert s == [s[0]] + s[1..];
  }

  /** An element that sorts before `x` and before all of `t` sorts before all of a permutation of `t + [x]`. */
  lemma HeadBound<T>(h: T, x: T, t: seq<T>, rest: seq<T>, key: T -> string, before: (string, string) -> bool)
    requires multiset(rest) == multiset(t) + multiset{x}
    requires before(key(h), key(x))
    requires forall j | 0 <= j < |t| :: before(key(h), key(t[j]))
    ensures forall j | 0 <= j < |rest| :: before(key(h), key(rest[j]))
  {
    forall j | 0 <= j < |rest| ensures before(key(h), key(rest[j])) {
      assert rest[j] in multiset(rest);
      if rest[j] != x {
        assert rest[j] in t;
      }
    }
  }

  /** Insertion sort: a sorted permutation of `s`. */
  function SortBy<T>(s: seq<T>, key: T -> string, before: (string, string) -> bool): (r: seq<T>)
    requires TotalPreorder(before)
    ensures multiset(r) == multiset(s)
    ensures SortedBy(r, key, before)
  {
    if s == [] then []
    else
      assert s == [s[0]] + s[1..];
      Insert(s[0], SortBy(s[1..], key, before), key, before)
  }

  /** `filter` on a list with a given first element. */
  lemma SelectCons<T(!new)>(x: T, s: seq<T>, p: T -> bool)
    ensures Select([x] + s, p) == (if p(x) then [x] else []) + Select(s, p)
  {
    assert ([x] + s)[0] == x && ([x] + s)[1..] == s;
  }

  /** `filter` keeps the input order: filtering a concatenation concatenates the filtered parts. */
  lemma {:induction false} SelectConcat<T(!new)>(a: seq<T>, b: seq<T>, p: T -> bool)
    ensures Select(a + b, p) == Select(a, p) + Select(b, p)
  {
    if a == [] {
      assert a + b == b;
    } else {
      var head: seq<T> := if p(a[0]) then [a[0]] else [];
      calc {
        Select(a + b, p);
      == { assert (a + b)[0] == a[0] && (a + b)[1..] == a[1..] + b; }
        head + Select(a[1..] + b, p);
      == { SelectConcat(a[1..], b, p); }
        head + (Select(a[1..], p) + Select(b, p));
      ==
        (head + Select(a[1..], p)) + Select(b, p);
      }
    }
  }

  /** Two keys tie when each sorts before the other. */
  function SameKey<T>(key: T -> string, before: (string, string) -> bool, k: string): T -> bool {
    (x: T) => before(key(x), k) && before(k, key(x))
  }

  /** `x` goes in front of every element whose key ties with its own. */
  lemma {:induction false} InsertStable<T(!new)>(x: T, s: seq<T>, key: T -> string,
                                                before: (string, string) -> bool, k: string)
    requires TotalPreorder(before)
    requires SortedBy(s, key, before)
    ensures Select(Insert(x, s, key, before), SameKey(key, before, k))
              == (if SameKey(key, before, k)(x) then [x] else []) + Select(s, SameKey(key, before, k))
  {
    var q := SameKey(key, before, k);
    if s == [] || before(key(x), key(s[0])) {
      assert ([x] + s)[1..] == s;
    } else {
      assert s == [s[0]] + s[1..];
      assert SortedBy(s[1..], key, before) by {
        forall i, j | 0 <= i < j < |s[1..]| ensures before(key(s[1..][i]), key(s[1..][j])) {
          assert s[1..][i] == s[i + 1] && s[1..][j] == s[j + 1];
        }
      }
      InsertStable(x, s[1..], key, before, k);
      var rest := Insert(x, s[1..], key, before);
      assert ([s[0]] + rest)[1..] == rest;
      if q(x) {
        assert !q(s[0]);
      }
    }
  }

  /**
   * The sort is stable: for every key, the elements whose keys tie with it
   * come out in the order they went in.
   */
  lemma {:induction false} SortByStable<T(!new)>(s: seq<T>, key: T -> string,
                                                before: (string, string) -> bool, k: string)
    requires TotalPreorder(before)
    ensures Select(SortBy(s, key, before), SameKey(key, before, k)) == Select(s, SameKey(key, before, k))
  {
    if s != [] {
      SortByStable(s[1..], key, before, k);
      InsertStable(s[0], SortBy(s[1..], key, before), key, before, k);
    }
  }

  /** `filter` keeps a list free of duplicates. */
  lemma SelectNoDup<T(!new)>(s: seq<T>, p: T -> bool)
    ensures NoDup(s) ==> NoDup(Select(s, p))
  {
    var r := Select(s, p);
    SelectCount(s, p);
    if NoDup(s) {
      forall i, j | 0 <= i < j < |r| ensures r[i] != r[j] {
        CountPair(r, i, j);
        NoDupCount(s, r[i]);
      }
    }
  }

  /** Without duplicates, every element occurs once. */
  lemma {:induction false} NoDupCount<T>(s: seq<T>, x: T)
    requires NoDup(s)
    ensures multiset(s)[x] <= 1
  {
    if s != [] {
      assert s == [s[0]] + s[1..];
      NoDupCount(s[1..], x);
      if s[0] == x {
        forall j | 0 <= j < |s| - 1 ensures s[1..][j] != x {
          assert s[1..][j] == s[j + 1];
        }
        assert x !in s[1..];
      }
    }
  }

  /** Two equal entries at distinct positions make an element occur at least twice. */
  lemma CountPair<T>(s: seq<T>, i: nat, j: nat)
    requires i < j < |s|
    ensures s[i] == s[j] ==> multiset(s)[s[i]] >= 2
  {
    assert s == s[..j] + [s[j]] + s[j + 1..];
    assert s[i] in s[..j];
    assert multiset(s)[s[i]] == multiset(s[..j])[s[i]] + multiset([s[j]])[s[i]] + multiset(s[j + 1..])[s[i]];
  }

  /** Having no duplicates depends only on the multiset of elements. */
  lemma NoDupPermutation<T>(a: seq<T>, b: seq<T>)
    requires NoDup(a) && multiset(a) == multiset(b)
    ensures NoDup(b)
  {
    forall i, j | 0 <= i < j < |b| ensures b[i] != b[j] {
      CountPair(b, i, j);
      NoDupCount(a, b[i]);
    }
  }
}
