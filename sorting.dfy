/** Python's list.sort(key=...) and Django's `ordering`: a stable sort by a two-part key
    compared lexicographically, as Python compares tuples of integers. */
module Sorting {

  /** A sort key (a, b), compared as the Python tuple (a, b). */
  datatype Key = Key(major: int, minor: int)

  predicate KeyLess(x: Key, y: Key) {
    x.major < y.major || (x.major == y.major && x.minor < y.minor)
  }

  predicate KeyLessEq(x: Key, y: Key) {
    KeyLess(x, y) || x == y
  }

  /** The keys along s never decrease. */
  predicate SortedBy<T>(s: seq<T>, key: T -> Key) {
    forall i, j | 0 <= i < j < |s| :: KeyLessEq(key(s[i]), key(s[j]))
  }

  /** The keys along s strictly increase. */
  predicate StrictlySortedBy<T>(s: seq<T>, key: T -> Key) {
    forall i, j | 0 <= i < j < |s| :: KeyLess(key(s[i]), key(s[j]))
  }

  /** The elements of s that satisfy p, in their order in s. */
  function Filter<T>(s: seq<T>, p: T -> bool): (r: seq<T>)
    ensures |r| <= |s|
    ensures forall x | x in r :: x in s && p(x)
  {
    if s == [] then [] else (if p(s[0]) then [s[0]] else []) + Filter(s[1..], p)
  }

  /** Nothing is kept when no element satisfies p. */
  lemma {:induction false} FilterNone<T>(s: seq<T>, p: T -> bool)
    requires forall k | 0 <= k < |s| :: !p(s[k])
    ensures Filter(s, p) == []
  {
    if s != [] {
      FilterNone(s[1..], p);
    }
  }

  /** Filtering a list extended at the end extends the filtered list at the end. */
  lemma {:induction false} FilterSnoc<T>(s: seq<T>, x: T, p: T -> bool)
    ensures Filter(s + [x], p) == Filter(s, p) + (if p(x) then [x] else [])
    decreases |s|
  {
    if s != [] {
      FilterSnoc(s[1..], x, p);
      assert (s + [x])[1..] == s[1..] + [x];
    }
  }

  /** Places x in front of the first element whose key is not below x's key. */
  function Insert<T>(x: T, s: seq<T>, key: T -> Key): seq<T> {
    if s == [] then [x]
    else if KeyLessEq(key(x), key(s[0])) then [x] + s
    else [s[0]] + Insert(x, s[1..], key)
  }

  /** Stable sort: elements with equal keys keep their relative order. */
  function Sort<T>(s: seq<T>, key: T -> Key): seq<T> {
    if s == [] then [] else Insert(s[0], Sort(s[1..], key), key)
  }

  lemma {:induction false} InsertSorted<T>(x: T, s: seq<T>, key: T -> Key)
    requires SortedBy(s, key)
    ensures SortedBy(Insert(x, s, key), key)
    ensures forall y | y in Insert(x, s, key) :: y == x || y in s
  {
    if s != [] && !KeyLessEq(key(x), key(s[0])) {
      InsertSorted(x, s[1..], key);
      var t := Insert(x, s[1..], key);
      forall y | y in t ensures KeyLessEq(key(s[0]), key(y)) {
        if y != x {
          var k :| 0 <= k < |s[1..]| && s[1..][k] == y;
          assert s[k + 1] == y;
        }
      }
    }
  }

  lemma {:induction false} InsertCount<T>(x: T, s: seq<T>, key: T -> Key)
    ensures multiset(Insert(x, s, key)) == multiset(s) + multiset{x}
  {
    if s != [] && !KeyLessEq(key(x), key(s[0])) {
      InsertCount(x, s[1..], key);
      assert s == [s[0]] + s[1..];
    }
  }

  /** The sort orders by key and rearranges its input without losing or adding anything. */
  lemma {:induction false} SortFacts<T>(s: seq<T>, key: T -> Key)
    ensures SortedBy(Sort(s, key), key)
    ensures multiset(Sort(s, key)) == multiset(s)
    ensures forall x | x in Sort(s, key) :: x in s
  {
    if s != [] {
      SortFacts(s[1..], key);
      InsertSorted(s[0], Sort(s[1..], key), key);
      InsertCount(s[0], Sort(s[1..], key), key);
      assert s == [s[0]] + s[1..];
    }
    forall x | x in Sort(s, key) ensures x in s {
      assert x in multiset(Sort(s, key));
    }
  }

  /** A property every element has survives the sort. */
  lemma SortPreserves<T>(s: seq<T>, key: T -> Key, p: T -> bool)
    requires forall k | 0 <= k < |s| :: p(s[k])
    ensures forall k | 0 <= k < |Sort(s, key)| :: p(Sort(s, key)[k])
  {
    SortFacts(s, key);
    forall k | 0 <= k < |Sort(s, key)| ensures p(Sort(s, key)[k]) {
      var x := Sort(s, key)[k];
      assert x in s;
    }
  }

  lemma SortedTail<T>(s: seq<T>, key: T -> Key)
    requires SortedBy(s, key) && s != []
    ensures SortedBy(s[1..], key)
  {
  }

  lemma FilterSorted<T>(s: seq<T>, p: T -> bool, key: T -> Key)
    requires SortedBy(s, key)
    ensures SortedBy(Filter(s, p), key)
    decreases |s|
  {
    if s != [] {
      FilterSorted(s[1..], p, key);
      var r := Filter(s[1..], p);
      forall y | y in r ensures KeyLessEq(key(s[0]), key(y)) {
        var k :| 0 <= k < |s[1..]| && s[1..][k] == y;
        assert s[k + 1] == y;
      }
    }
  }

  /** Keeping the elements that satisfy p commutes with inserting x into a sorted list. */
  lemma {:induction false} FilterInsert<T>(x: T, s: seq<T>, p: T -> bool, key: T -> Key)
    requires SortedBy(s, key)
    ensures Filter(Insert(x, s, key), p)
         == if p(x) then Insert(x, Filter(s, p), key) else Filter(s, p)
  {
    if s == [] {
    } else if KeyLessEq(key(x), key(s[0])) {
      FilterInsertFront(x, s, p, key);
    } else {
      FilterInsert(x, s[1..], p, key);
      var t := Insert(x, s[1..], key);
      assert Insert(x, s, key) == [s[0]] + t;
      FilterCons(s[0], t, p);
      FilterCons(s[0], s[1..], p);
      assert [s[0]] + s[1..] == s;
      if !p(s[0]) {
        assert Filter(s, p) == Filter(s[1..], p);
      } else if p(x) {
        InsertBehind(x, s[0], Filter(s[1..], p), key);
        assert Filter(s, p) == [s[0]] + Filter(s[1..], p);
      }
    }
  }

  /** x goes in front of a sorted list whose head's key is not below its own, before and
      after filtering. */
  lemma FilterInsertFront<T>(x: T, s: seq<T>, p: T -> bool, key: T -> Key)
    requires SortedBy(s, key) && s != [] && KeyLessEq(key(x), key(s[0]))
    ensures Filter(Insert(x, s, key), p)
         == if p(x) then Insert(x, Filter(s, p), key) else Filter(s, p)
  {
    assert Insert(x, s, key) == [x] + s;
    FilterCons(x, s, p);
    var f := Filter(s, p);
    if p(x) && f != [] {
      assert f[0] in s;
      var k :| 0 <= k < |s| && s[k] == f[0];
      assert KeyLessEq(key(s[0]), key(s[k]));
      KeyLessEqTrans(key(x), key(s[0]), key(f[0]));
      assert Insert(x, f, key) == [x] + f;
    }
  }

  lemma KeyLessEqTrans(a: Key, b: Key, c: Key)
    requires KeyLessEq(a, b) && KeyLessEq(b, c)
    ensures KeyLessEq(a, c)
  {
  }

  lemma FilterCons<T>(a: T, t: seq<T>, p: T -> bool)
    ensures Filter([a] + t, p) == (if p(a) then [a] else []) + Filter(t, p)
  {
    assert ([a] + t)[1..] == t;
  }

  /** x goes behind a head whose key is below its own. */
  lemma InsertBehind<T>(x: T, a: T, f: seq<T>, key: T -> Key)
    requires !KeyLessEq(key(x), key(a))
    ensures Insert(x, [a] + f, key) == [a] + Insert(x, f, key)
  {
    assert ([a] + f)[1..] == f;
  }

  /** Stability: the sorted list, restricted to the elements satisfying p, is the sort of
      the restriction. */
  lemma {:induction false} FilterSort<T>(s: seq<T>, p: T -> bool, key: T -> Key)
    ensures Filter(Sort(s, key), p) == Sort(Filter(s, p), key)
  {
    if s != [] {
      SortFacts(s[1..], key);
      FilterInsert(s[0], Sort(s[1..], key), p, key);
      FilterSort(s[1..], p, key);
      if p(s[0]) {
        assert Filter(s, p) == [s[0]] + Filter(s[1..], p);
      } else {
        assert Filter(s, p) == Filter(s[1..], p);
      }
    }
  }

  /** Sorting a list that is already in key order leaves it alone. */
  lemma {:induction false} SortSorted<T>(s: seq<T>, key: T -> Key)
    requires SortedBy(s, key)
    ensures Sort(s, key) == s
  {
    if s != [] {
      SortedTail(s, key);
      SortSorted(s[1..], key);
      if |s| > 1 {
        assert KeyLessEq(key(s[0]), key(s[1]));
      }
      assert [s[0]] + s[1..] == s;
    }
  }

  /** Two key-ordered arrangements of the same elements coincide when no two distinct
      elements share a key. */
  lemma {:induction false} SortedUnique<T>(a: seq<T>, b: seq<T>, key: T -> Key)
    requires SortedBy(a, key) && SortedBy(b, key)
    requires multiset(a) == multiset(b)
    requires forall x, y | x in a && y in a && key(x) == key(y) :: x == y
    ensures a == b
    decreases |a|
  {
    assert |a| == |multiset(a)| == |b|;
    if a != [] {
      SortedHeads(a, b, key);
      SameTails(a, b);
      SortedTail(a, key);
      SortedTail(b, key);
      UniqueKeysTail(a, key);
      SortedUnique(a[1..], b[1..], key);
      assert a == [a[0]] + a[1..];
      assert b == [b[0]] + b[1..];
    }
  }

  /** Two sorted arrangements of the same elements, no two sharing a key, start alike. */
  lemma SortedHeads<T>(a: seq<T>, b: seq<T>, key: T -> Key)
    requires SortedBy(a, key) && SortedBy(b, key)
    requires multiset(a) == multiset(b)
    requires forall x, y | x in a && y in a && key(x) == key(y) :: x == y
    requires a != []
    ensures b != [] && a[0] == b[0]
  {
    assert |a| == |multiset(a)| == |b|;
    assert a[0] in multiset(b);
    assert b[0] in multiset(a);
    var i :| 0 <= i < |b| && b[i] == a[0];
    var j :| 0 <= j < |a| && a[j] == b[0];
    assert KeyLessEq(key(b[0]), key(a[0]));
    assert KeyLessEq(key(a[0]), key(b[0]));
  }

  lemma SameTails<T>(a: seq<T>, b: seq<T>)
    requires a != [] && b != [] && a[0] == b[0] && multiset(a) == multiset(b)
    ensures multiset(a[1..]) == multiset(b[1..])
  {
    assert a == [a[0]] + a[1..];
    assert b == [b[0]] + b[1..];
    assert multiset(a[1..]) == multiset(a) - multiset{a[0]};
    assert multiset(b[1..]) == multiset(b) - multiset{b[0]};
  }

  lemma UniqueKeysTail<T>(a: seq<T>, key: T -> Key)
    requires a != []
    requires forall x, y | x in a && y in a && key(x) == key(y) :: x == y
    ensures forall x, y | x in a[1..] && y in a[1..] && key(x) == key(y) :: x == y
  {
    forall x, y | x in a[1..] && y in a[1..] && key(x) == key(y)
      ensures x == y
    {
      assert x in a && y in a;
    }
  }

  /** An element is kept exactly when it occurs and satisfies p. */
  lemma {:induction false} FilterMembers<T>(s: seq<T>, p: T -> bool, x: T)
    ensures x in Filter(s, p) <==> x in s && p(x)
  {
    if s != [] {
      FilterMembers(s[1..], p, x);
      assert s == [s[0]] + s[1..];
    }
  }

  /** Keeping some elements of a strictly ordered list keeps it strictly ordered. */
  lemma {:induction false} FilterStrict<T>(s: seq<T>, p: T -> bool, key: T -> Key)
    requires StrictlySortedBy(s, key)
    ensures StrictlySortedBy(Filter(s, p), key)
    decreases |s|
  {
    if s != [] {
      FilterStrict(s[1..], p, key);
      var r := Filter(s[1..], p);
      forall y | y in r ensures KeyLess(key(s[0]), key(y)) {
        var k :| 0 <= k < |s[1..]| && s[1..][k] == y;
        assert s[k + 1] == y;
      }
    }
  }

  /** Two strictly key-ordered lists with the same elements are the same list. */
  lemma {:induction false} StrictSortedUnique<T>(a: seq<T>, b: seq<T>, key: T -> Key)
    requires StrictlySortedBy(a, key) && StrictlySortedBy(b, key)
    requires forall x :: x in a <==> x in b
    ensures a == b
    decreases |a|
  {
    assert b != [] ==> b[0] in a;
    if a != [] {
      assert a[0] in b && b != [];
      var i :| 0 <= i < |b| && b[i] == a[0];
      var j :| 0 <= j < |a| && a[j] == b[0];
      var ka, kb := key(a[0]), key(b[0]);
      assert i > 0 ==> KeyLess(kb, ka);
      assert j > 0 ==> KeyLess(ka, kb);
      assert a[0] == b[0];
      forall x ensures x in a[1..] <==> x in b[1..] {
        if x in a[1..] {
          var k :| 0 <= k < |a[1..]| && a[1..][k] == x;
          assert KeyLess(key(a[0]), key(a[k + 1]));
          assert x in b;
        }
        if x in b[1..] {
          var k :| 0 <= k < |b[1..]| && b[1..][k] == x;
          assert KeyLess(key(b[0]), key(b[k + 1]));
          assert x in a;
        }
      }
      StrictSortedUnique(a[1..], b[1..], key);
      assert a == [a[0]] + a[1..];
      assert b == [b[0]] + b[1..];
    }
  }

  /** No element occurs twice. */
  ghost predicate NoRepeats<T>(s: seq<T>) {
    forall a, b | 0 <= a < b < |s| :: s[a] != s[b]
  }

  /** Keeping some elements of a list without repeats leaves none. */
  lemma {:induction false} FilterNoRepeats<T>(s: seq<T>, p: T -> bool)
    requires NoRepeats(s)
    ensures NoRepeats(Filter(s, p))
    decreases |s|
  {
    if s != [] {
      FilterNoRepeats(s[1..], p);
      assert s[0] !in s[1..];
    }
  }

  lemma {:induction false} NoRepeatsCount<T>(t: seq<T>, x: T)
    requires NoRepeats(t)
    ensures multiset(t)[x] <= 1
    decreases |t|
  {
    if t != [] {
      var init := t[..|t| - 1];
      NoRepeatsCount(init, x);
      assert t == init + [t[|t| - 1]];
      if x == t[|t| - 1] {
        assert x !in init;
      }
    }
  }

  /** A rearrangement of a list without repeats has none. */
  lemma NoRepeatsPerm<T>(s: seq<T>, t: seq<T>)
    requires multiset(s) == multiset(t) && NoRepeats(t)
    ensures NoRepeats(s)
  {
    forall a, b | 0 <= a < b < |s| ensures s[a] != s[b] {
      if s[a] == s[b] {
        var x := s[a];
        assert multiset(s)[x] >= 2 by {
          assert s == s[..a] + [x] + s[a + 1..b] + [x] + s[b + 1..];
        }
        NoRepeatsCount(t, x);
      }
    }
  }
}
