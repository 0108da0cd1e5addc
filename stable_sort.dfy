/**
 * Stable sorting of a list of paths by a key function, as Python's
 * `list.sort(key=...)` does it: the order of the keys, the stability of ties,
 * and the fact that these two determine the result.
 */
module StableSort {
  import opened SortKey

  /** Python's sort does not raise: all keys are numbers or all are strings. */
  predicate KeysComparable(key: string -> Key, s: seq<string>) {
    || (forall p :: p in s ==> key(p).Number?)
    || (forall p :: p in s ==> key(p).Name?)
  }

  predicate SortedByKey(key: string -> Key, s: seq<string>) {
    forall i, j :: 0 <= i < j < |s| ==> KeyLe(key(s[i]), key(s[j]))
  }

  /**
   * Inserts x into s after every entry whose key is at most x's key. The sort
   * only inserts keys of one kind (see SortByKey), where KeyLe is Python's `<=`.
   */
  function Insert(key: string -> Key, s: seq<string>, x: string): (r: seq<string>)
    ensures |r| == |s| + 1
    ensures multiset(r) == multiset(s) + multiset{x}
  {
    if s == [] then [x]
    else
      var init, last := s[..|s| - 1], s[|s| - 1];
      assert s == init + [last];
      if KeyLe(key(last), key(x)) then s + [x]
      else Insert(key, init, x) + [last]
  }

  /**
   * `list.sort(key=...)`: a stable sort by the key. Any stable sort by a
   * key gives the same result (StableSortUnique), so insertion sort stands
   * for CPython's. Where the keys mix numbers and strings, Python raises
   * TypeError, and the sort is not defined.
   */
  function SortByKey(key: string -> Key, s: seq<string>): (r: seq<string>)
    requires KeysComparable(key, s)
    ensures |r| == |s|
    ensures multiset(r) == multiset(s)
  {
    if s == [] then []
    else
      var init, last := s[..|s| - 1], s[|s| - 1];
      assert s == init + [last];
      ComparableFront(key, s);
      Insert(key, SortByKey(key, init), last)
  }

  /** Keys of one kind stay of one kind on the front of the list. */
  lemma ComparableFront(key: string -> Key, s: seq<string>)
    requires s != [] && KeysComparable(key, s)
    ensures KeysComparable(key, s[..|s| - 1])
  {
    assert s == s[..|s| - 1] + [s[|s| - 1]];
  }

  lemma {:induction false} InsertSorted(key: string -> Key, s: seq<string>, x: string)
    requires forall p :: p in s ==> Comparable(key(p), key(x))
    requires SortedByKey(key, s)
    ensures SortedByKey(key, Insert(key, s, x))
  {
    if s != [] {
      var init, last := s[..|s| - 1], s[|s| - 1];
      if KeyLe(key(last), key(x)) {
        var r := s + [x];
        forall i, j | 0 <= i < j < |r| ensures KeyLe(key(r[i]), key(r[j])) {
          if j == |s| && i < |s| - 1 {
            KeyLeTransitive(key(s[i]), key(last), key(x));
          }
        }
      } else {
        KeyLeTotal(key(last), key(x));
        assert forall p :: p in init ==> p in s;
        InsertSorted(key, init, x);
        var m := Insert(key, init, x);
        var r := m + [last];
        forall i, j | 0 <= i < j < |r| ensures KeyLe(key(r[i]), key(r[j])) {
          if j == |m| {
            assert r[i] in multiset(m);
            if r[i] != x {
              assert r[i] in multiset(init);
              var k :| 0 <= k < |init| && init[k] == r[i];
              assert s[k] == r[i];
            }
          }
        }
      }
    }
  }

  /** When the keys are comparable, the sort puts them in non-decreasing order. */
  lemma {:induction false} SortByKeySorted(key: string -> Key, s: seq<string>)
    requires KeysComparable(key, s)
    ensures SortedByKey(key, SortByKey(key, s))
  {
    if s != [] {
      var init, last := s[..|s| - 1], s[|s| - 1];
      assert forall p :: p in init ==> p in s;
      SortByKeySorted(key, init);
      forall p | p in SortByKey(key, init) ensures Comparable(key(p), key(last)) {
        assert p in multiset(init);
      }
      InsertSorted(key, SortByKey(key, init), last);
    }
  }

  /** The entries of s whose key is k, in their order in s. */
  function Ties(key: string -> Key, s: seq<string>, k: Key): seq<string> {
    if s == [] then []
    else
      var init, last := s[..|s| - 1], s[|s| - 1];
      Ties(key, init, k) + (if key(last) == k then [last] else [])
  }

  lemma {:induction false} TiesAppend(key: string -> Key, a: seq<string>, b: seq<string>, k: Key)
    ensures Ties(key, a + b, k) == Ties(key, a, k) + Ties(key, b, k)
  {
    if b != [] {
      var init, last := b[..|b| - 1], b[|b| - 1];
      assert (a + b)[..|a + b| - 1] == a + init;
      TiesAppend(key, a, init, k);
    } else {
      assert a + b == a;
    }
  }

  lemma {:induction false} InsertTies(key: string -> Key, s: seq<string>, x: string, k: Key)
    ensures Ties(key, Insert(key, s, x), k) == Ties(key, s, k) + Ties(key, [x], k)
  {
    if s == [] {
    } else {
      var init, last := s[..|s| - 1], s[|s| - 1];
      if KeyLe(key(last), key(x)) {
        TiesAppend(key, s, [x], k);
      } else {
        KeyLeReflexive(key(x));
        InsertTies(key, init, x, k);
        TiesAppend(key, Insert(key, init, x), [last], k);
        assert [x][..0] == [] && [last][..0] == [];
      }
    }
  }

  /**
   * The sort is stable: the entries that share a key keep their relative
   * order, i.e. the ties of every key are the same subsequence before and after.
   */
  lemma {:induction false} SortByKeyStable(key: string -> Key, s: seq<string>, k: Key)
    requires KeysComparable(key, s)
    ensures Ties(key, SortByKey(key, s), k) == Ties(key, s, k)
  {
    if s != [] {
      ComparableFront(key, s);
      SortByKeyStable(key, s[..|s| - 1], k);
      SortByKeyStepTies(key, s, k);
    }
  }

  /** Inserting the last entry into the sorted front adds it after the front's ties. */
  lemma SortByKeyStepTies(key: string -> Key, s: seq<string>, k: Key)
    requires s != [] && KeysComparable(key, s)
    requires KeysComparable(key, s[..|s| - 1])
    requires Ties(key, SortByKey(key, s[..|s| - 1]), k) == Ties(key, s[..|s| - 1], k)
    ensures Ties(key, SortByKey(key, s), k) == Ties(key, s, k)
  {
    var init, last := s[..|s| - 1], s[|s| - 1];
    var sorted := SortByKey(key, init);
    var inserted := Insert(key, sorted, last);
    assert SortByKey(key, s) == inserted;
    assert Ties(key, inserted, k) == Ties(key, sorted, k) + Ties(key, [last], k) by {
      InsertTies(key, sorted, last, k);
    }
    TiesSingle(key, last, k);
  }

  /** A single entry is its own tie exactly when it has the key. */
  lemma TiesSingle(key: string -> Key, x: string, k: Key)
    ensures Ties(key, [x], k) == if key(x) == k then [x] else []
  {
    assert [x][..0] == [];
  }

  lemma {:induction false} TiesMember(key: string -> Key, s: seq<string>, k: Key, x: string)
    requires x in Ties(key, s, k)
    ensures x in s && key(x) == k
  {
    var init, last := s[..|s| - 1], s[|s| - 1];
    if x in Ties(key, init, k) {
      TiesMember(key, init, k, x);
    }
  }

  /** A non-empty list has at least one entry tied with its last entry: the last entry itself. */
  lemma LastTie(key: string -> Key, s: seq<string>)
    ensures s != [] ==> Ties(key, s, key(s[|s| - 1])) != []
  {
  }

  /** A sorted list is fixed by the ties of each key. */
  lemma {:induction false} SortedTiesUnique(key: string -> Key, r1: seq<string>, r2: seq<string>)
    requires SortedByKey(key, r1) && SortedByKey(key, r2)
    requires forall k :: Ties(key, r1, k) == Ties(key, r2, k)
    ensures r1 == r2
    decreases |r1|
  {
    if r1 == [] {
      LastTie(key, r2);
    } else {
      var init1, a := r1[..|r1| - 1], r1[|r1| - 1];
      assert r2 != [] && key(a) == key(r2[|r2| - 1]) by {
        LastTie(key, r1);
        assert Ties(key, r2, key(a)) != [];
        SortedHasMaxKey(key, r2, a);
        LastTie(key, r2);
        assert Ties(key, r1, key(r2[|r2| - 1])) != [];
        SortedHasMaxKey(key, r1, r2[|r2| - 1]);
        KeyLeAntisymmetric(key(a), key(r2[|r2| - 1]));
      }
      var init2, b := r2[..|r2| - 1], r2[|r2| - 1];
      assert a == b && forall k :: Ties(key, init1, k) == Ties(key, init2, k) by {
        assert r1 == init1 + [a] && r2 == init2 + [b];
        DropLastTies(key, init1, a, init2, b);
      }
      assert SortedByKey(key, init1) && SortedByKey(key, init2) by {
        SortedPrefix(key, r1);
        SortedPrefix(key, r2);
      }
      SortedTiesUnique(key, init1, init2);
      assert r1 == init1 + [a] && r2 == init2 + [b];
    }
  }

  lemma SortedPrefix(key: string -> Key, r: seq<string>)
    requires r != [] && SortedByKey(key, r)
    ensures SortedByKey(key, r[..|r| - 1])
  {
  }

  /** Two lists with the same ties whose last entries share a key have the same last entry, and their fronts the same ties. */
  lemma DropLastTies(key: string -> Key, init1: seq<string>, a: string, init2: seq<string>, b: string)
    requires key(a) == key(b)
    requires forall k :: Ties(key, init1 + [a], k) == Ties(key, init2 + [b], k)
    ensures a == b
    ensures forall k :: Ties(key, init1, k) == Ties(key, init2, k)
  {
    var k := key(a);
    assert (init1 + [a])[..|init1|] == init1 && (init2 + [b])[..|init2|] == init2;
    var t1, t2 := Ties(key, init1, k), Ties(key, init2, k);
    assert Ties(key, init1 + [a], k) == t1 + [a] && Ties(key, init2 + [b], k) == t2 + [b];
    assert t1 == (t1 + [a])[..|t1|] && t2 == (t2 + [b])[..|t2|];
    forall k' ensures Ties(key, init1, k') == Ties(key, init2, k') {
      if k' != k {
        assert Ties(key, init1, k') == Ties(key, init1 + [a], k');
        assert Ties(key, init2, k') == Ties(key, init2 + [b], k');
      }
    }
  }

  /** An entry whose key occurs in a sorted list has a key at most that of the last entry. */
  lemma SortedHasMaxKey(key: string -> Key, r: seq<string>, x: string)
    requires SortedByKey(key, r)
    requires Ties(key, r, key(x)) != []
    ensures r != [] && KeyLe(key(x), key(r[|r| - 1]))
  {
    var k := key(x);
    var t := Ties(key, r, k);
    var y := t[|t| - 1];
    TiesMember(key, r, k, y);
    var j :| 0 <= j < |r| && r[j] == y;
    if j == |r| - 1 {
      KeyLeReflexive(k);
    } else {
      assert KeyLe(key(r[j]), key(r[|r| - 1]));
    }
  }

  /**
   * The stable sort is the only sorted arrangement that keeps the ties of
   * every key in their original order: CPython's sort produces exactly it.
   */
  lemma StableSortUnique(key: string -> Key, s: seq<string>, r: seq<string>)
    requires KeysComparable(key, s)
    requires SortedByKey(key, r)
    requires forall k :: Ties(key, r, k) == Ties(key, s, k)
    ensures r == SortByKey(key, s)
  {
    SortByKeySorted(key, s);
    forall k ensures Ties(key, r, k) == Ties(key, SortByKey(key, s), k) {
      SortByKeyStable(key, s, k);
    }
    SortedTiesUnique(key, r, SortByKey(key, s));
  }

}
