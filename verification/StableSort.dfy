/** What a stable sort by key does, as `sort_by_key` promises: it determines the result completely. */
module StableSort {

  predicate SortedBy<T>(key: T -> int, s: seq<T>) {
    forall i, j | 0 <= i < j < |s| :: key(s[i]) <= key(s[j])
  }

  function Insert<T>(key: T -> int, x: T, s: seq<T>): seq<T> {
    if s == [] || key(x) <= key(s[0]) then [x] + s else [s[0]] + Insert(key, x, s[1..])
  }

  function SortBy<T>(key: T -> int, s: seq<T>): seq<T> {
    if s == [] then [] else Insert(key, s[0], SortBy(key, s[1..]))
  }

  function IfKey<T>(key: T -> int, k: int, x: T): seq<T> {
    if key(x) == k then [x] else []
  }

  /** The elements with key `k`, in order. */
  function KeyClass<T>(key: T -> int, k: int, s: seq<T>): seq<T> {
    if s == [] then [] else IfKey(key, k, s[0]) + KeyClass(key, k, s[1..])
  }

  lemma ClassCons<T>(key: T -> int, k: int, x: T, s: seq<T>)
    ensures KeyClass(key, k, [x] + s) == IfKey(key, k, x) + KeyClass(key, k, s)
  {
    assert ([x] + s)[1..] == s;
  }

  lemma {:induction false} InsertElements<T>(key: T -> int, x: T, s: seq<T>)
    ensures multiset(Insert(key, x, s)) == multiset{x} + multiset(s)
  {
    if s != [] && key(x) > key(s[0]) {
      InsertElements(key, x, s[1..]);
      assert s == [s[0]] + s[1..];
    }
  }

  lemma {:induction false} InsertSorts<T>(key: T -> int, x: T, s: seq<T>)
    requires SortedBy(key, s)
    ensures SortedBy(key, Insert(key, x, s))
  {
    if s != [] && key(x) > key(s[0]) {
      InsertSorts(key, x, s[1..]);
      InsertElements(key, x, s[1..]);
      var rest := Insert(key, x, s[1..]);
      forall j | 0 <= j < |rest|
        ensures key(s[0]) <= key(rest[j])
      {
        assert rest[j] in multiset(rest);
      }
    }
  }

  lemma {:induction false} InsertClasses<T>(key: T -> int, k: int, x: T, s: seq<T>)
    ensures KeyClass(key, k, Insert(key, x, s)) == IfKey(key, k, x) + KeyClass(key, k, s)
  {
    if s == [] || key(x) <= key(s[0]) {
      ClassCons(key, k, x, s);
    } else {
      InsertClasses(key, k, x, s[1..]);
      ClassCons(key, k, s[0], Insert(key, x, s[1..]));
      var rest := KeyClass(key, k, s[1..]);
      if key(x) == k {
        assert IfKey(key, k, s[0]) == [] && [] + ([x] + rest) == [x] + ([] + rest);
      } else {
        assert [] + rest == rest && [] + KeyClass(key, k, s) == KeyClass(key, k, s);
      }
    }
  }

  /** The sort orders by key, loses and invents nothing, and keeps equal keys in their order. */
  lemma {:induction false} SortBySorts<T>(key: T -> int, s: seq<T>)
    ensures SortedBy(key, SortBy(key, s))
    ensures multiset(SortBy(key, s)) == multiset(s)
    ensures forall k :: KeyClass(key, k, SortBy(key, s)) == KeyClass(key, k, s)
  {
    if s != [] {
      SortBySorts(key, s[1..]);
      var rest := SortBy(key, s[1..]);
      InsertSorts(key, s[0], rest);
      InsertElements(key, s[0], rest);
      assert s == [s[0]] + s[1..];
      forall k
        ensures KeyClass(key, k, SortBy(key, s)) == KeyClass(key, k, s)
      {
        InsertClasses(key, k, s[0], rest);
      }
    }
  }

  lemma {:induction false} ClassMember<T>(key: T -> int, s: seq<T>, k: int)
    ensures KeyClass(key, k, s) != [] <==> exists x | x in s :: key(x) == k
  {
    if s != [] {
      ClassMember(key, s[1..], k);
      assert forall x :: x in s <==> x == s[0] || x in s[1..];
    }
  }

  /** Two sorted sequences with the same elements of each key in the same order are the same: any stable
      sort gives what `SortBy` gives. */
  lemma {:induction false} StableSortUnique<T>(key: T -> int, a: seq<T>, b: seq<T>)
    requires SortedBy(key, a) && SortedBy(key, b)
    requires forall k :: KeyClass(key, k, a) == KeyClass(key, k, b)
    ensures a == b
  {
    if a == [] || b == [] {
      if a != b {
        var x := if a == [] then b[0] else a[0];
        ClassMember(key, a, key(x));
        ClassMember(key, b, key(x));
      }
    } else {
      var k := key(a[0]);
      ClassMember(key, a, k);
      ClassMember(key, b, k);
      ClassMember(key, a, key(b[0]));
      ClassMember(key, b, key(b[0]));
      assert key(b[0]) == k;
      assert KeyClass(key, k, a)[0] == a[0] && KeyClass(key, k, b)[0] == b[0];
      forall k'
        ensures KeyClass(key, k', a[1..]) == KeyClass(key, k', b[1..])
      {
        var n := |IfKey(key, k', a[0])|;
        assert KeyClass(key, k', a[1..]) == KeyClass(key, k', a)[n..];
        assert KeyClass(key, k', b[1..]) == KeyClass(key, k', b)[n..];
      }
      StableSortUnique(key, a[1..], b[1..]);
    }
  }

  ghost predicate StrictlySorted<T>(key: T -> int, s: seq<T>) {
    forall i, j | 0 <= i < j < |s| :: key(s[i]) < key(s[j])
  }

  /** No key occurs twice. */
  ghost predicate DistinctKeys<T>(key: T -> int, s: seq<T>) {
    forall k :: |KeyClass(key, k, s)| <= 1
  }

  /** Sorting leaves no two equal neighbours exactly when no two elements share a key. */
  lemma StrictlySortedExact<T>(key: T -> int, s: seq<T>)
    ensures StrictlySorted(key, SortBy(key, s)) <==> DistinctKeys(key, s)
  {
    SortBySorts(key, s);
    var t := SortBy(key, s);
    if StrictlySorted(key, t) {
      StrictlyMeansDistinct(key, t);
      assert DistinctKeys(key, s);
    }
    if DistinctKeys(key, s) {
      assert DistinctKeys(key, t);
      DistinctMeansStrictly(key, t);
    }
  }

  lemma {:induction false} StrictlyMeansDistinct<T>(key: T -> int, t: seq<T>)
    requires StrictlySorted(key, t)
    ensures DistinctKeys(key, t)
  {
    if t != [] {
      var rest := t[1..];
      StrictlyMeansDistinct(key, rest);
      ClassMember(key, rest, key(t[0]));
      assert forall x | x in rest :: key(t[0]) < key(x);
    }
  }

  lemma {:induction false} DistinctMeansStrictly<T>(key: T -> int, t: seq<T>)
    requires SortedBy(key, t) && DistinctKeys(key, t)
    ensures StrictlySorted(key, t)
  {
    if t != [] {
      var rest := t[1..];
      ClassMember(key, rest, key(t[0]));
      assert |KeyClass(key, key(t[0]), t)| <= 1;
      forall k
        ensures |KeyClass(key, k, rest)| <= 1
      {
        assert |KeyClass(key, k, t)| <= 1;
      }
      DistinctMeansStrictly(key, rest);
      forall i, j | 0 <= i < j < |t|
        ensures key(t[i]) < key(t[j])
      {
        assert t[j] == rest[j - 1] && rest[j - 1] in rest;
        if i > 0 {
          assert t[i] == rest[i - 1];
        }
      }
    }
  }
}
