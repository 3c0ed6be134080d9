/**
 `Collections.sort` with a comparator is a stable merge sort. This module states what such a sort
 produces: the unique permutation of its input that is ordered by the comparator and keeps tied
 elements in their input order. The comparators of both screens order by a key made of a rank
 (pinned before unpinned) and a name compared ignoring case, so the sort is given the key.
 */
module Sorting {
  import opened Text

  /** What a comparator looks at: a rank, then a name compared with `compareToIgnoreCase`. */
  datatype SortKey = SortKey(rank: nat, name: string)

  /** `compare(a, b) <= 0` for the key comparator. */
  predicate KeyLe(a: SortKey, b: SortKey)
  {
    a.rank < b.rank || (a.rank == b.rank && CompareIgnoreCase(a.name, b.name) <= 0)
  }

  /** `compare(a, b) == 0`: neither key sorts strictly before the other. */
  predicate Equiv(a: SortKey, b: SortKey)
  {
    KeyLe(a, b) && KeyLe(b, a)
  }

  lemma KeyLeReflexive(a: SortKey)
    ensures KeyLe(a, a)
  {
    CompareIgnoreCaseZeroIff(a.name, a.name);
  }

  lemma KeyLeTotal(a: SortKey, b: SortKey)
    ensures KeyLe(a, b) || KeyLe(b, a)
  {
    CompareIgnoreCaseAntisymmetric(a.name, b.name);
  }

  lemma KeyLeTransitive(a: SortKey, b: SortKey, c: SortKey)
    requires KeyLe(a, b) && KeyLe(b, c)
    ensures KeyLe(a, c)
  {
    if a.rank == b.rank == c.rank {
      CompareIgnoreCaseTransitive(a.name, b.name, c.name);
    }
  }

  /** Every earlier element's key is at most every later one's. */
  ghost predicate Sorted<T>(s: seq<T>, key: T -> SortKey)
  {
    forall i, j :: 0 <= i < j < |s| ==> KeyLe(key(s[i]), key(s[j]))
  }

  /** Insert `x` before the first element whose key is not below `x`'s key. */
  function Insert<T>(x: T, t: seq<T>, key: T -> SortKey): seq<T>
  {
    if t == [] then [x]
    else if KeyLe(key(x), key(t[0])) then [x] + t
    else [t[0]] + Insert(x, t[1..], key)
  }

  /** Stable insertion sort by `key`. */
  function Sort<T>(s: seq<T>, key: T -> SortKey): seq<T>
  {
    if s == [] then [] else Insert(s[0], Sort(s[1..], key), key)
  }

  /** The elements of `s` whose key is tied with `k`, in their order in `s`. */
  function Tied<T>(s: seq<T>, key: T -> SortKey, k: SortKey): seq<T>
  {
    if s == [] then []
    else (if Equiv(key(s[0]), k) then [s[0]] else []) + Tied(s[1..], key, k)
  }

  lemma {:induction false} InsertMultiset<T>(x: T, t: seq<T>, key: T -> SortKey)
    ensures multiset(Insert(x, t, key)) == multiset(t) + multiset{x}
  {
    if t != [] && !KeyLe(key(x), key(t[0])) {
      InsertMultiset(x, t[1..], key);
      assert t == [t[0]] + t[1..];
    }
  }

  /** The sort is a permutation of its input. */
  lemma {:induction false} SortMultiset<T>(s: seq<T>, key: T -> SortKey)
    ensures multiset(Sort(s, key)) == multiset(s)
  {
    if s != [] {
      SortMultiset(s[1..], key);
      InsertMultiset(s[0], Sort(s[1..], key), key);
      assert s == [s[0]] + s[1..];
    }
  }

  /** A key below `x` and below all of `t` is below everything in `Insert(x, t)`. */
  lemma {:induction false} InsertLowerBound<T>(x: T, t: seq<T>, key: T -> SortKey, b: SortKey)
    requires KeyLe(b, key(x))
    requires forall i :: 0 <= i < |t| ==> KeyLe(b, key(t[i]))
    ensures forall j :: 0 <= j < |Insert(x, t, key)| ==> KeyLe(b, key(Insert(x, t, key)[j]))
  {
    if t != [] && !KeyLe(key(x), key(t[0])) {
      forall i | 0 <= i < |t[1..]| ensures KeyLe(b, key(t[1..][i])) {
        assert t[1..][i] == t[i + 1];
      }
      InsertLowerBound(x, t[1..], key, b);
    }
  }

  lemma {:induction false} InsertSorted<T>(x: T, t: seq<T>, key: T -> SortKey)
    requires Sorted(t, key)
    ensures Sorted(Insert(x, t, key), key)
  {
    if t == [] {
    } else if KeyLe(key(x), key(t[0])) {
      var r := [x] + t;
      forall i, j | 0 <= i < j < |r| ensures KeyLe(key(r[i]), key(r[j])) {
        if i == 0 && j > 1 {
          KeyLeTransitive(key(x), key(t[0]), key(t[j - 1]));
        }
      }
    } else {
      KeyLeTotal(key(x), key(t[0]));
      SortedTail(t, key);
      InsertSorted(x, t[1..], key);
      forall i | 0 <= i < |t[1..]| ensures KeyLe(key(t[0]), key(t[1..][i])) {
        assert t[1..][i] == t[i + 1];
      }
      InsertLowerBound(x, t[1..], key, key(t[0]));
      var u := Insert(x, t[1..], key);
      var r := [t[0]] + u;
      forall i, j | 0 <= i < j < |r| ensures KeyLe(key(r[i]), key(r[j])) {
        if i > 0 {
          assert r[i] == u[i - 1] && r[j] == u[j - 1];
        } else {
          assert r[j] == u[j - 1];
        }
      }
    }
  }

  /** The sort orders its result by the key. */
  lemma {:induction false} SortSorted<T>(s: seq<T>, key: T -> SortKey)
    ensures Sorted(Sort(s, key), key)
  {
    if s != [] {
      SortSorted(s[1..], key);
      InsertSorted(s[0], Sort(s[1..], key), key);
    }
  }

  /** The tied elements of a sequence with a head in front. */
  lemma TiedCons<T>(x: T, t: seq<T>, key: T -> SortKey, k: SortKey)
    ensures Tied([x] + t, key, k) == Tied([x], key, k) + Tied(t, key, k)
  {
    assert ([x] + t)[1..] == t;
    assert Tied([x], key, k) == (if Equiv(key(x), k) then [x] else []) + Tied([], key, k);
  }

  /** A single element is tied with `k` or not. */
  lemma TiedSingle<T>(x: T, key: T -> SortKey, k: SortKey)
    ensures Tied([x], key, k) == if Equiv(key(x), k) then [x] else []
  {
    assert [x][1..] == [];
  }

  /** The recursive case of `TiedInsert`: `x` passes `t[0]`, which therefore is not tied with `x`. */
  lemma TiedInsertStep<T>(x: T, t: seq<T>, key: T -> SortKey, k: SortKey)
    requires t != [] && !KeyLe(key(x), key(t[0]))
    requires Tied(Insert(x, t[1..], key), key, k) == Tied([x], key, k) + Tied(t[1..], key, k)
    ensures Tied(Insert(x, t, key), key, k) == Tied([x], key, k) + Tied(t, key, k)
  {
    var u := Insert(x, t[1..], key);
    assert Insert(x, t, key) == [t[0]] + u;
    var hx, h0, rest := Tied([x], key, k), Tied([t[0]], key, k), Tied(t[1..], key, k);
    TiedCons(t[0], u, key, k);
    TiedCons(t[0], t[1..], key, k);
    assert [t[0]] + t[1..] == t;
    TiedSingle(x, key, k);
    TiedSingle(t[0], key, k);
    if Equiv(key(x), k) && Equiv(key(t[0]), k) {
      KeyLeTransitive(key(x), k, key(t[0]));
      assert false;
    }
    if hx == [] {
      assert h0 + (hx + rest) == hx + (h0 + rest);
    } else {
      assert h0 == [];
      assert h0 + (hx + rest) == hx + (h0 + rest);
    }
  }

  lemma {:induction false} TiedInsert<T>(x: T, t: seq<T>, key: T -> SortKey, k: SortKey)
    ensures Tied(Insert(x, t, key), key, k) == Tied([x], key, k) + Tied(t, key, k)
  {
    if t != [] {
      if KeyLe(key(x), key(t[0])) {
        TiedCons(x, t, key, k);
      } else {
        TiedInsert(x, t[1..], key, k);
        TiedInsertStep(x, t, key, k);
      }
    }
  }

  /** Stability: for every key, the tied elements come out in the order they went in. */
  lemma {:induction false} SortStable<T>(s: seq<T>, key: T -> SortKey, k: SortKey)
    ensures Tied(Sort(s, key), key, k) == Tied(s, key, k)
  {
    if s != [] {
      SortStable(s[1..], key, k);
      TiedInsert(s[0], Sort(s[1..], key), key, k);
      TiedCons(s[0], s[1..], key, k);
      assert [s[0]] + s[1..] == s;
    }
  }

  /** Sorting an ordered sequence leaves it as it is; in particular sorting is idempotent. */
  lemma {:induction false} SortOfSorted<T>(s: seq<T>, key: T -> SortKey)
    requires Sorted(s, key)
    ensures Sort(s, key) == s
  {
    if s != [] {
      SortOfSorted(s[1..], key);
      assert s == [s[0]] + s[1..];
    }
  }

  lemma SortIdempotent<T>(s: seq<T>, key: T -> SortKey)
    ensures Sort(Sort(s, key), key) == Sort(s, key)
  {
    SortSorted(s, key);
    SortOfSorted(Sort(s, key), key);
  }

  /** The head of an ordered sequence has the least key. */
  lemma SortedHeadLeast<T>(s: seq<T>, key: T -> SortKey, y: T)
    requires Sorted(s, key) && s != [] && y in s
    ensures KeyLe(key(s[0]), key(y))
  {
    var j :| 0 <= j < |s| && s[j] == y;
    if j == 0 {
      KeyLeReflexive(key(y));
    }
  }

  lemma TiedHead<T>(s: seq<T>, key: T -> SortKey)
    requires s != []
    ensures Tied(s, key, key(s[0])) != [] && Tied(s, key, key(s[0]))[0] == s[0]
  {
    KeyLeReflexive(key(s[0]));
  }

  lemma SortedTail<T>(s: seq<T>, key: T -> SortKey)
    requires Sorted(s, key) && s != []
    ensures Sorted(s[1..], key)
  {
    var t := s[1..];
    forall i, j | 0 <= i < j < |t| ensures KeyLe(key(t[i]), key(t[j])) {
      assert t[i] == s[i + 1] && t[j] == s[j + 1];
    }
  }

  /** Two ordered, stable permutations of each other start with the same element. */
  lemma SameHead<T>(r1: seq<T>, r2: seq<T>, key: T -> SortKey)
    requires Sorted(r1, key) && Sorted(r2, key) && r1 != [] && r2 != []
    requires multiset(r1) == multiset(r2)
    requires Tied(r1, key, key(r1[0])) == Tied(r2, key, key(r1[0]))
    ensures r1[0] == r2[0]
  {
    var k := key(r1[0]);
    assert r1[0] in multiset(r2) && r2[0] in multiset(r1);
    SortedHeadLeast(r1, key, r2[0]);
    SortedHeadLeast(r2, key, r1[0]);
    TiedHead(r1, key);
    assert Equiv(key(r2[0]), k);
    assert Tied(r2, key, k)[0] == r2[0];
  }

  /** Removing the same head from two permutations of each other leaves permutations of each other. */
  lemma MultisetTail<T>(r1: seq<T>, r2: seq<T>)
    requires r1 != [] && r2 != [] && r1[0] == r2[0] && multiset(r1) == multiset(r2)
    ensures multiset(r1[1..]) == multiset(r2[1..])
  {
    assert r1 == [r1[0]] + r1[1..] && r2 == [r2[0]] + r2[1..];
    assert multiset(r1) == multiset{r1[0]} + multiset(r1[1..]);
    assert multiset(r2) == multiset{r2[0]} + multiset(r2[1..]);
    assert multiset(r1[1..]) == multiset(r1) - multiset{r1[0]};
    assert multiset(r2[1..]) == multiset(r2) - multiset{r2[0]};
  }

  /** Removing the same head from two sequences with the same tied elements keeps them the same. */
  lemma TiedTail<T>(r1: seq<T>, r2: seq<T>, key: T -> SortKey, k: SortKey)
    requires r1 != [] && r2 != [] && r1[0] == r2[0]
    requires Tied(r1, key, k) == Tied(r2, key, k)
    ensures Tied(r1[1..], key, k) == Tied(r2[1..], key, k)
  {
    var h := if Equiv(key(r1[0]), k) then [r1[0]] else [];
    assert Tied(r1, key, k) == h + Tied(r1[1..], key, k);
    assert Tied(r2, key, k) == h + Tied(r2[1..], key, k);
    assert Tied(r1[1..], key, k) == (h + Tied(r1[1..], key, k))[|h|..];
    assert Tied(r2[1..], key, k) == (h + Tied(r2[1..], key, k))[|h|..];
  }

  /**
   Uniqueness: two sequences that are both ordered by the key, both permutations of the same
   elements and both stable with respect to each other are equal. So any stable sort algorithm
   (the merge sort of `Collections.sort` included) gives exactly the result of `Sort`.
   */
  lemma {:induction false} StableSortUnique<T>(r1: seq<T>, r2: seq<T>, key: T -> SortKey)
    requires Sorted(r1, key) && Sorted(r2, key)
    requires multiset(r1) == multiset(r2)
    requires forall k :: Tied(r1, key, k) == Tied(r2, key, k)
    ensures r1 == r2
  {
    assert |r1| == |multiset(r1)| == |multiset(r2)| == |r2|;
    if r1 != [] {
      SameHead(r1, r2, key);
      MultisetTail(r1, r2);
      forall k ensures Tied(r1[1..], key, k) == Tied(r2[1..], key, k) {
        TiedTail(r1, r2, key, k);
      }
      SortedTail(r1, key);
      SortedTail(r2, key);
      StableSortUnique(r1[1..], r2[1..], key);
      assert r1 == [r1[0]] + r1[1..] && r2 == [r2[0]] + r2[1..];
    }
  }

  /** Any ordered, stable permutation of `s` is `Sort(s, key)`. */
  lemma SortCharacterized<T>(s: seq<T>, r: seq<T>, key: T -> SortKey)
    requires Sorted(r, key) && multiset(r) == multiset(s)
    requires forall k :: Tied(r, key, k) == Tied(s, key, k)
    ensures r == Sort(s, key)
  {
    SortSorted(s, key);
    SortMultiset(s, key);
    forall k ensures Tied(r, key, k) == Tied(Sort(s, key), key, k) {
      SortStable(s, key, k);
    }
    StableSortUnique(r, Sort(s, key), key);
  }
}
