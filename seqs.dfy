/** Sequence operations behind the server's array chains: `filter`, `map`, the stable
    `sort` of `Array.prototype.sort`, and the insertion-ordered de-duplication of a `Set`. */
module Seqs {

  /** The elements of `s` that satisfy `p`, in their order in `s`. */
  function Filter<T>(s: seq<T>, p: T -> bool): seq<T> {
    if s == [] then [] else (if p(s[0]) then [s[0]] else []) + Filter(s[1..], p)
  }

  /** What filtering keeps: only elements that satisfy `p`, and every element of `s` that does. */
  lemma {:induction false} FilterSpec<T>(s: seq<T>, p: T -> bool)
    ensures |Filter(s, p)| <= |s|
    ensures forall i | 0 <= i < |Filter(s, p)| :: p(Filter(s, p)[i])
    ensures forall x :: x in Filter(s, p) <==> x in s && p(x)
  {
    if s != [] {
      FilterSpec(s[1..], p);
      assert s == [s[0]] + s[1..];
    }
  }

  /** Filtering keeps every occurrence of a kept value and none of the others. */
  lemma {:induction false} FilterCount<T(!new)>(s: seq<T>, p: T -> bool, x: T)
    ensures multiset(Filter(s, p))[x] == if p(x) then multiset(s)[x] else 0
  {
    if s != [] {
      assert s == [s[0]] + s[1..];
      FilterCount(s[1..], p, x);
    }
  }

  lemma FilterCons<T>(x: T, s: seq<T>, p: T -> bool)
    ensures Filter([x] + s, p) == (if p(x) then [x] else []) + Filter(s, p)
  {
    assert ([x] + s)[1..] == s;
  }

  lemma {:induction false} FilterAppend<T(!new)>(a: seq<T>, b: seq<T>, p: T -> bool)
    ensures Filter(a + b, p) == Filter(a, p) + Filter(b, p)
  {
    if a == [] {
      assert a + b == b;
    } else {
      var h := if p(a[0]) then [a[0]] else [];
      assert (a + b)[0] == a[0] && (a + b)[1..] == a[1..] + b;
      assert Filter(a + b, p) == h + Filter(a[1..] + b, p);
      FilterAppend(a[1..], b, p);
      assert Filter(a, p) == h + Filter(a[1..], p);
    }
  }

  lemma {:induction false} FilterAll<T(!new)>(s: seq<T>, p: T -> bool)
    requires forall i | 0 <= i < |s| :: p(s[i])
    ensures Filter(s, p) == s
  {
    if s != [] {
      FilterAll(s[1..], p);
    }
  }

  /** `s` with `f` applied to each element. */
  function MapSeq<T, U>(s: seq<T>, f: T -> U): (r: seq<U>)
    ensures |r| == |s| && forall i | 0 <= i < |s| :: r[i] == f(s[i])
  {
    seq(|s|, i requires 0 <= i < |s| => f(s[i]))
  }

  lemma MapSeqMember<T, U>(s: seq<T>, f: T -> U, y: U)
    ensures y in MapSeq(s, f) <==> exists i | 0 <= i < |s| :: f(s[i]) == y
  {
    if y in MapSeq(s, f) {
      var i :| 0 <= i < |s| && MapSeq(s, f)[i] == y;
    }
  }

  /** `a` can be obtained from `b` by deleting elements. */
  predicate IsSubsequence<T(==)>(a: seq<T>, b: seq<T>) {
    a == [] || (b != [] && ((a[0] == b[0] && IsSubsequence(a[1..], b[1..])) || IsSubsequence(a, b[1..])))
  }

  lemma {:induction false} FilterIsSubsequence<T(!new)>(s: seq<T>, p: T -> bool)
    ensures IsSubsequence(Filter(s, p), s)
  {
    if s != [] {
      var rest := Filter(s[1..], p);
      FilterIsSubsequence(s[1..], p);
      if p(s[0]) {
        assert ([s[0]] + rest)[1..] == rest;
      } else {
        assert Filter(s, p) == rest;
      }
    }
  }

  // ---------------------------------------------------------------------------------------
  // Stable sort in descending order of an integer key. A comparator `(a, b) => key(b) - key(a)`
  // handed to the stable `Array.prototype.sort` yields exactly this order.

  predicate SortedDesc<T>(s: seq<T>, key: T -> int) {
    forall i, j | 0 <= i < j < |s| :: key(s[i]) >= key(s[j])
  }

  /** Puts `x` after every element whose key is at least `x`'s, so after its equals. */
  function InsertDesc<T>(x: T, s: seq<T>, key: T -> int): (r: seq<T>)
    ensures |r| == |s| + 1
  {
    if s == [] || key(s[0]) < key(x) then [x] + s
    else [s[0]] + InsertDesc(x, s[1..], key)
  }

  /** Insertion sort that takes the elements in their order, so equal keys keep it. */
  function SortDesc<T>(s: seq<T>, key: T -> int): (r: seq<T>)
    ensures |r| == |s|
  {
    if s == [] then [] else InsertDesc(s[|s| - 1], SortDesc(s[..|s| - 1], key), key)
  }

  function KeyIs<T>(key: T -> int, k: int): T -> bool {
    x => key(x) == k
  }

  /** The elements of `s` whose key is `k`, in order: comparing these before and after a
      sort states stability. */
  function WithKey<T(!new)>(s: seq<T>, key: T -> int, k: int): seq<T> {
    Filter(s, KeyIs(key, k))
  }

  lemma {:induction false} InsertDescPermutes<T>(x: T, s: seq<T>, key: T -> int)
    ensures multiset(InsertDesc(x, s, key)) == multiset(s) + multiset{x}
  {
    if s != [] && key(s[0]) >= key(x) {
      assert s == [s[0]] + s[1..];
      InsertDescPermutes(x, s[1..], key);
    }
  }

  lemma {:induction false} InsertDescSorted<T>(x: T, s: seq<T>, key: T -> int)
    requires SortedDesc(s, key)
    ensures SortedDesc(InsertDesc(x, s, key), key)
  {
    if s != [] && key(s[0]) >= key(x) {
      var rest := InsertDesc(x, s[1..], key);
      InsertDescSorted(x, s[1..], key);
      InsertDescPermutes(x, s[1..], key);
      forall j | 0 <= j < |rest| ensures key(s[0]) >= key(rest[j]) {
        assert rest[j] in multiset(rest);
        assert rest[j] in s[1..] || rest[j] == x;
      }
    }
  }

  lemma {:induction false} NoneWithKey<T(!new)>(s: seq<T>, key: T -> int, k: int)
    requires forall i | 0 <= i < |s| :: key(s[i]) != k
    ensures WithKey(s, key, k) == []
  {
    if s != [] {
      NoneWithKey(s[1..], key, k);
    }
  }

  lemma {:induction false} WithKeyCons<T(!new)>(x: T, s: seq<T>, key: T -> int, k: int)
    ensures WithKey([x] + s, key, k) == (if key(x) == k then [x] else []) + WithKey(s, key, k)
  {
    assert ([x] + s)[0] == x;
    assert ([x] + s)[1..] == s;
  }

  lemma {:induction false} InsertDescStable<T(!new)>(x: T, s: seq<T>, key: T -> int, k: int)
    requires SortedDesc(s, key)
    ensures WithKey(InsertDesc(x, s, key), key, k) == WithKey(s, key, k) + WithKey([x], key, k)
  {
    WithKeyCons(x, [], key, k);
    assert [x] + [] == [x];
    if s == [] || key(s[0]) < key(x) {
      WithKeyCons(x, s, key, k);
      if key(x) == k {
        NoneWithKey(s, key, k);
      }
    } else {
      var rest := InsertDesc(x, s[1..], key);
      WithKeyCons(s[0], rest, key, k);
      InsertDescStable(x, s[1..], key, k);
      assert s == [s[0]] + s[1..];
      WithKeyCons(s[0], s[1..], key, k);
    }
  }

  /** Sorting only reorders. */
  lemma {:induction false} SortDescPermutes<T>(s: seq<T>, key: T -> int)
    ensures multiset(SortDesc(s, key)) == multiset(s)
  {
    if s != [] {
      var init := s[..|s| - 1];
      SortDescPermutes(init, key);
      InsertDescPermutes(s[|s| - 1], SortDesc(init, key), key);
      assert s == init + [s[|s| - 1]];
    }
  }

  /** The result is non-increasing by key. */
  lemma {:induction false} SortDescSorted<T>(s: seq<T>, key: T -> int)
    ensures SortedDesc(SortDesc(s, key), key)
  {
    if s != [] {
      SortDescSorted(s[..|s| - 1], key);
      InsertDescSorted(s[|s| - 1], SortDesc(s[..|s| - 1], key), key);
    }
  }

  /** Elements with equal keys keep their relative order. */
  lemma {:induction false} SortDescStable<T(!new)>(s: seq<T>, key: T -> int, k: int)
    ensures WithKey(SortDesc(s, key), key, k) == WithKey(s, key, k)
  {
    if s != [] {
      var init := s[..|s| - 1];
      SortDescStable(init, key, k);
      SortDescSorted(init, key);
      InsertDescStable(s[|s| - 1], SortDesc(init, key), key, k);
      assert s == init + [s[|s| - 1]];
      FilterAppend(init, [s[|s| - 1]], KeyIs(key, k));
    }
  }

  lemma MemberKeyBound<T>(t: seq<T>, key: T -> int, x: T)
    requires SortedDesc(t, key) && x in t
    ensures key(x) <= key(t[0])
  {
    var m :| 0 <= m < |t| && t[m] == x;
  }

  lemma InWithKey<T(!new)>(s: seq<T>, key: T -> int, x: T)
    requires x in s
    ensures x in WithKey(s, key, key(x))
  {
    FilterSpec(s, KeyIs(key, key(x)));
  }

  lemma FromWithKey<T(!new)>(s: seq<T>, key: T -> int, k: int, x: T)
    requires x in WithKey(s, key, k)
    ensures x in s && key(x) == k
  {
    FilterSpec(s, KeyIs(key, k));
  }

  lemma HeadKeysAgree<T(!new)>(r: seq<T>, t: seq<T>, key: T -> int)
    requires SortedDesc(r, key) && SortedDesc(t, key) && r != [] && t != []
    requires WithKey(r, key, key(r[0])) == WithKey(t, key, key(r[0]))
    requires WithKey(r, key, key(t[0])) == WithKey(t, key, key(t[0]))
    ensures key(r[0]) == key(t[0])
  {
    InWithKey(r, key, r[0]);
    FromWithKey(t, key, key(r[0]), r[0]);
    MemberKeyBound(t, key, r[0]);
    InWithKey(t, key, t[0]);
    FromWithKey(r, key, key(t[0]), t[0]);
    MemberKeyBound(r, key, t[0]);
  }

  /** A sorted arrangement starts with an element of the largest key, so two sorted
      arrangements that agree within every key start with the same element. */
  lemma HeadsAgree<T(!new)>(r: seq<T>, t: seq<T>, key: T -> int)
    requires SortedDesc(r, key) && SortedDesc(t, key) && r != [] && t != []
    requires WithKey(r, key, key(r[0])) == WithKey(t, key, key(r[0]))
    requires WithKey(r, key, key(t[0])) == WithKey(t, key, key(t[0]))
    ensures r[0] == t[0]
  {
    HeadKeysAgree(r, t, key);
    var k := key(r[0]);
    assert r == [r[0]] + r[1..];
    assert t == [t[0]] + t[1..];
    WithKeyCons(r[0], r[1..], key, k);
    WithKeyCons(t[0], t[1..], key, k);
    assert WithKey(r, key, k)[0] == r[0];
    assert WithKey(t, key, k)[0] == t[0];
  }

  lemma TailsAgree<T(!new)>(r: seq<T>, t: seq<T>, key: T -> int, k: int)
    requires r != [] && t != [] && r[0] == t[0]
    requires WithKey(r, key, k) == WithKey(t, key, k)
    ensures WithKey(r[1..], key, k) == WithKey(t[1..], key, k)
  {
    assert r == [r[0]] + r[1..];
    assert t == [t[0]] + t[1..];
    WithKeyCons(r[0], r[1..], key, k);
    WithKeyCons(t[0], t[1..], key, k);
    var n := if key(r[0]) == k then 1 else 0;
    assert WithKey(r[1..], key, k) == WithKey(r, key, k)[n..];
    assert WithKey(t[1..], key, k) == WithKey(t, key, k)[n..];
  }

  lemma NonEmptyWithKey<T(!new)>(r: seq<T>, t: seq<T>, key: T -> int)
    requires r != []
    requires WithKey(r, key, key(r[0])) == WithKey(t, key, key(r[0]))
    ensures t != []
  {
    InWithKey(r, key, r[0]);
    FromWithKey(t, key, key(r[0]), r[0]);
  }

  /** Two arrangements sorted by key that agree on the order within every key are equal. */
  lemma {:induction false} SortedStableUnique<T(!new)>(r: seq<T>, t: seq<T>, key: T -> int)
    requires SortedDesc(r, key) && SortedDesc(t, key)
    requires forall k :: WithKey(r, key, k) == WithKey(t, key, k)
    ensures r == t
  {
    if r != [] {
      NonEmptyWithKey(r, t, key);
      HeadsAgree(r, t, key);
      forall k ensures WithKey(r[1..], key, k) == WithKey(t[1..], key, k) {
        TailsAgree(r, t, key, k);
      }
      SortedStableUnique(r[1..], t[1..], key);
      assert r == [r[0]] + r[1..];
      assert t == [t[0]] + t[1..];
    } else if t != [] {
      NonEmptyWithKey(t, r, key);
    }
  }

  /** `SortDesc` is the one arrangement of `s` that is sorted by key and stable. */
  lemma SortDescCharacterized<T(!new)>(s: seq<T>, r: seq<T>, key: T -> int)
    requires SortedDesc(r, key)
    requires forall k :: WithKey(r, key, k) == WithKey(s, key, k)
    ensures r == SortDesc(s, key)
  {
    SortDescSorted(s, key);
    forall k ensures WithKey(r, key, k) == WithKey(SortDesc(s, key), key, k) {
      SortDescStable(s, key, k);
    }
    SortedStableUnique(r, SortDesc(s, key), key);
  }

  /** Zero or one element is already in order (the comparator is never consulted). */
  lemma SortDescShort<T>(s: seq<T>, key: T -> int)
    requires |s| <= 1
    ensures SortDesc(s, key) == s
  {
    if |s| == 1 {
      assert s[..0] == [];
    }
  }

  lemma {:induction false} InsertDescSameKeys<T>(x: T, s: seq<T>, key1: T -> int, key2: T -> int)
    requires key1(x) == key2(x)
    requires forall i | 0 <= i < |s| :: key1(s[i]) == key2(s[i])
    ensures InsertDesc(x, s, key1) == InsertDesc(x, s, key2)
  {
    if s != [] {
      assert forall i | 0 <= i < |s[1..]| :: s[1..][i] == s[i + 1];
      InsertDescSameKeys(x, s[1..], key1, key2);
    }
  }

  /** The sort looks at keys only: two keys that agree on the elements give one order. */
  lemma {:induction false} SortDescSameKeys<T>(s: seq<T>, key1: T -> int, key2: T -> int)
    requires forall i | 0 <= i < |s| :: key1(s[i]) == key2(s[i])
    ensures SortDesc(s, key1) == SortDesc(s, key2)
  {
    if s != [] {
      var init, last := s[..|s| - 1], s[|s| - 1];
      assert forall i | 0 <= i < |init| :: init[i] == s[i];
      SortDescSameKeys(init, key1, key2);
      var t := SortDesc(init, key1);
      SortDescPermutes(init, key1);
      forall i | 0 <= i < |t| ensures key1(t[i]) == key2(t[i]) {
        assert t[i] in multiset(init);
      }
      InsertDescSameKeys(last, t, key1, key2);
    }
  }

  // ---------------------------------------------------------------------------------------
  // De-duplication in first-insertion order, as adding to a JavaScript `Set` and reading it
  // back with `Array.from` does.

  predicate NoDuplicates<T(==)>(s: seq<T>) {
    forall i, j | 0 <= i < j < |s| :: s[i] != s[j]
  }

  /** The insertion order of a `Set` that held `start` (in this order) after `add` of each
      element of `xs` in turn: an element already present does not move. */
  function AddAll<T(==)>(start: seq<T>, xs: seq<T>): seq<T> {
    if xs == [] then start
    else
      var d := AddAll(start, xs[..|xs| - 1]);
      if xs[|xs| - 1] in d then d else d + [xs[|xs| - 1]]
  }

  /** Adding keeps what was there and each added element, and nothing else; it repeats
      nothing that was not repeated before. */
  lemma {:induction false} AddAllSpec<T(!new)>(start: seq<T>, xs: seq<T>)
    ensures forall x :: x in AddAll(start, xs) <==> x in start || x in xs
    ensures NoDuplicates(start) ==> NoDuplicates(AddAll(start, xs))
  {
    if xs != [] {
      var init := xs[..|xs| - 1];
      assert xs == init + [xs[|xs| - 1]];
      AddAllSpec(start, init);
    }
  }

  lemma AddAllSnoc<T>(start: seq<T>, xs: seq<T>, y: T)
    ensures AddAll(start, xs + [y]) == if y in AddAll(start, xs) then AddAll(start, xs) else AddAll(start, xs) + [y]
  {
    assert (xs + [y])[..|xs|] == xs;
  }

  /** The distinct elements of `s`, each where it first occurs: a `Set` built from `s`. */
  function Dedup<T(==,!new)>(s: seq<T>): (r: seq<T>)
    ensures forall x :: x in r <==> x in s
    ensures NoDuplicates(r)
  {
    AddAllSpec([], s);
    AddAll([], s)
  }

  /** Adding `b` to the set built from `a` gives the set built from `a + b`. */
  lemma {:induction false} AddAllDedup<T(!new)>(a: seq<T>, b: seq<T>)
    ensures AddAll(Dedup(a), b) == Dedup(a + b)
  {
    if b == [] {
      assert a + b == a;
    } else {
      var init := b[..|b| - 1];
      AddAllDedup(a, init);
      assert (a + b)[..|a + b| - 1] == a + init;
    }
  }

  /** The first position of `x` in `s`. */
  function IndexOf<T(==)>(s: seq<T>, x: T): (i: nat)
    requires x in s
    ensures i < |s| && s[i] == x
    ensures forall j | 0 <= j < i :: s[j] != x
  {
    if s[0] == x then 0 else 1 + IndexOf(s[1..], x)
  }

  lemma IndexOfUnique<T>(s: seq<T>, x: T, i: nat)
    requires i < |s| && s[i] == x
    requires forall j | 0 <= j < i :: s[j] != x
    ensures IndexOf(s, x) == i
  {
  }

  lemma IndexOfAppend<T>(s: seq<T>, t: seq<T>, x: T)
    requires x in s
    ensures IndexOf(s + t, x) == IndexOf(s, x)
  {
    IndexOfUnique(s + t, x, IndexOf(s, x));
  }

  /** The de-duplicated elements come in the order of their first occurrences. */
  lemma {:induction false} DedupFirstOccurrenceOrder<T(!new)>(s: seq<T>)
    ensures forall i, j | 0 <= i < j < |Dedup(s)| :: IndexOf(s, Dedup(s)[i]) < IndexOf(s, Dedup(s)[j])
  {
    if s != [] {
      var init, last := s[..|s| - 1], s[|s| - 1];
      assert s == init + [last];
      DedupFirstOccurrenceOrder(init);
      var d := Dedup(init);
      forall x | x in init ensures IndexOf(s, x) == IndexOf(init, x) {
        IndexOfAppend(init, [last], x);
      }
      if last !in d {
        IndexOfUnique(s, last, |init|);
      }
    }
  }
}
