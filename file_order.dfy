/**
 * The ordered file list of one merger window: which directory entries are
 * kept, how their paths are built, the stable sort by the natural sort key of
 * the base name, and the exchange of two neighbouring entries.
 */
module FileOrder {
  import opened SortKey
  import opened StableSort

  const Mp3Suffix: string := ".mp3"

  /** `str.endswith` (case-sensitive). */
  predicate EndsWith(s: string, suffix: string): (b: bool)
    ensures b <==> |suffix| <= |s| && forall k :: 0 <= k < |suffix| ==> s[|s| - |suffix| + k] == suffix[k]
  {
    |suffix| <= |s| && s[|s| - |suffix|..] == suffix
  }

  /** `os.path.join(folder, name)` on POSIX paths. */
  function Join(folder: string, name: string): (p: string)
    ensures EndsWith(p, name)
    ensures (|name| > 0 && name[0] == '/') || (|folder| <= |p| && p[..|folder|] == folder)
  {
    if |name| > 0 && name[0] == '/' then name
    else if folder == [] || folder[|folder| - 1] == '/' then folder + name
    else folder + "/" + name
  }

  /** Index just past the last '/' of p, or 0 when p has none. */
  function BaseStart(p: string): (i: nat)
    ensures i <= |p|
    ensures i > 0 ==> p[i - 1] == '/'
    ensures forall k :: i <= k < |p| ==> p[k] != '/'
  {
    if p == [] then 0
    else if p[|p| - 1] == '/' then |p|
    else BaseStart(p[..|p| - 1])
  }

  /** `os.path.basename(p)`: what follows the last '/'. */
  function Basename(p: string): (name: string)
    ensures '/' !in name
    ensures EndsWith(p, name)
    ensures |name| == |p| || p[|p| - |name| - 1] == '/'
  {
    p[BaseStart(p)..]
  }

  function Basenames(paths: seq<string>): (names: seq<string>)
    ensures |names| == |paths|
    ensures forall i :: 0 <= i < |paths| ==> names[i] == Basename(paths[i])
  {
    seq(|paths|, i requires 0 <= i < |paths| => Basename(paths[i]))
  }

  /** A directory entry never contains the separator. */
  predicate NoSeparator(names: seq<string>) {
    forall i :: 0 <= i < |names| ==> '/' !in names[i]
  }

  /** The base name of a joined path is the entry it was joined from. */
  lemma BasenameOfJoin(folder: string, name: string)
    requires '/' !in name
    ensures Basename(Join(folder, name)) == name
  {
    var p := Join(folder, name);
    var m := |p| - |name|;
    assert p[m..] == name;
    assert m > 0 ==> p[m - 1] == '/' by {
      if folder == [] || folder[|folder| - 1] == '/' {
        assert p == folder + name;
      } else {
        assert p == folder + "/" + name;
      }
    }
    var i := BaseStart(p);
    assert i == m;
  }

  /** The entries kept by the filter `f.endswith(".mp3")`, in listing order. */
  function Mp3Names(listing: seq<string>): (kept: seq<string>)
    ensures forall f :: multiset(kept)[f] == if EndsWith(f, Mp3Suffix) then multiset(listing)[f] else 0
  {
    if listing == [] then []
    else
      var init, last := listing[..|listing| - 1], listing[|listing| - 1];
      assert listing == init + [last];
      Mp3Names(init) + (if EndsWith(last, Mp3Suffix) then [last] else [])
  }

  /** The list comprehension of the load: each kept entry joined with the folder. */
  function Candidates(folder: string, listing: seq<string>): (c: seq<string>)
    ensures |c| == |Mp3Names(listing)|
    ensures forall i :: 0 <= i < |c| ==> c[i] == Join(folder, Mp3Names(listing)[i])
  {
    if listing == [] then []
    else
      var init, last := listing[..|listing| - 1], listing[|listing| - 1];
      assert Mp3Names(listing) == Mp3Names(init) + (if EndsWith(last, Mp3Suffix) then [last] else []);
      Candidates(folder, init) + (if EndsWith(last, Mp3Suffix) then [Join(folder, last)] else [])
  }

  /** One more entry of the listing: it is joined and appended when it ends in ".mp3". */
  lemma CandidatesStep(folder: string, listing: seq<string>, i: nat)
    requires i < |listing|
    ensures Candidates(folder, listing[..i + 1])
      == Candidates(folder, listing[..i]) + (if EndsWith(listing[i], Mp3Suffix) then [Join(folder, listing[i])] else [])
  {
    assert listing[..i + 1][..i] == listing[..i];
  }

  /** A joined path ends with the entry it was joined from. */
  lemma JoinEndsWithName(folder: string, name: string, suffix: string)
    requires EndsWith(name, suffix)
    ensures EndsWith(Join(folder, name), suffix)
  {
    var p := Join(folder, name);
    assert p[|p| - |name|..] == name;
    assert p[|p| - |suffix|..] == name[|name| - |suffix|..];
  }

  /** f applied to every entry, in order. */
  function Mapped(f: string -> string, s: seq<string>): (r: seq<string>)
    ensures |r| == |s|
    ensures forall i :: 0 <= i < |s| ==> r[i] == f(s[i])
  {
    seq(|s|, i requires 0 <= i < |s| => f(s[i]))
  }

  lemma MappedAppend(f: string -> string, a: seq<string>, b: seq<string>)
    ensures Mapped(f, a + b) == Mapped(f, a) + Mapped(f, b)
  {
  }

  /** Mapping two arrangements of the same entries gives two arrangements of the same results. */
  lemma {:induction false} MappedPermutation(f: string -> string, a: seq<string>, b: seq<string>)
    requires multiset(a) == multiset(b)
    ensures multiset(Mapped(f, a)) == multiset(Mapped(f, b))
    decreases |a|
  {
    if a == [] {
      assert |multiset(b)| == 0;
    } else {
      var x, front := a[|a| - 1], a[..|a| - 1];
      assert a == front + [x];
      assert x in multiset(b);
      var j :| 0 <= j < |b| && b[j] == x;
      var left, right := b[..j], b[j + 1..];
      assert b == left + [x] + right;
      assert multiset(left + right) == multiset(front) by {
        MultisetCancel(multiset(left + right), multiset(front), x);
      }
      MappedPermutation(f, front, left + right);
      MappedAppend(f, front, [x]);
      MappedAppend(f, left, [x]);
      MappedAppend(f, left + [x], right);
      MappedAppend(f, left, right);
    }
  }

  lemma MultisetCancel(m1: multiset<string>, m2: multiset<string>, x: string)
    requires m1 + multiset{x} == m2 + multiset{x}
    ensures m1 == m2
  {
    forall y ensures m1[y] == m2[y] {
      assert (m1 + multiset{x})[y] == (m2 + multiset{x})[y];
    }
  }

  /** Reordering the paths reorders their base names: the same names, as often each. */
  lemma BasenamesPermutation(a: seq<string>, b: seq<string>)
    requires multiset(a) == multiset(b)
    ensures multiset(Basenames(a)) == multiset(Basenames(b))
  {
    assert Basenames(a) == Mapped(Basename, a);
    assert Basenames(b) == Mapped(Basename, b);
    MappedPermutation(Basename, a, b);
  }

  /**
   * The candidates are exactly the ".mp3" entries of the listing, in listing
   * order, each joined with the folder: their base names are the kept entries.
   */
  lemma CandidatesSpec(folder: string, listing: seq<string>)
    requires NoSeparator(listing)
    ensures Basenames(Candidates(folder, listing)) == Mp3Names(listing)
  {
    var c, m := Candidates(folder, listing), Mp3Names(listing);
    forall i | 0 <= i < |m| ensures Basenames(c)[i] == m[i] {
      CandidateBasename(folder, listing, i);
    }
  }

  /** The i-th candidate's base name is the i-th kept entry. */
  lemma CandidateBasename(folder: string, listing: seq<string>, i: nat)
    requires NoSeparator(listing) && i < |Mp3Names(listing)|
    ensures Basename(Candidates(folder, listing)[i]) == Mp3Names(listing)[i]
  {
    var name := Mp3Names(listing)[i];
    assert name in multiset(Mp3Names(listing));
    var j :| 0 <= j < |listing| && listing[j] == name;
    BasenameOfJoin(folder, name);
  }

  /** The natural sort key of a path, taken on its base name as the load does. */
  function PathKey(p: string): (k: Key)
    ensures '/' !in p ==> k == NumericSortKey(p)
  {
    NumericSortKey(Basename(p))
  }

  /**
   * A name ending in ".mp3" contains the digit '3', so its key is always a
   * number: the lower-cased fallback never applies to a loaded file.
   */
  lemma Mp3PathHasNumberKey(p: string)
    requires EndsWith(p, Mp3Suffix)
    ensures PathKey(p).Number?
  {
    assert p[|p| - 1] == Mp3Suffix[3] == '3';
    var b := Basename(p);
    assert b[|b| - 1] == '3';
  }

  /** A stem without digits gets key 3 from the "3" of its extension. */
  lemma DigitFreeStemKey(stem: string)
    requires !HasDigit(stem)
    ensures NumericSortKey(stem + Mp3Suffix) == Number(3)
  {
    var name := stem + Mp3Suffix;
    var n := |stem|;
    assert name[n + 3] == '3';
    assert forall k :: 0 <= k < n ==> name[k] == stem[k];
    assert LeftmostRun(name, n + 3, n + 4);
    assert name[n + 3..n + 4] == "3" && "3"[..0] == "";
    NumericSortKeySpec(name);
  }

  /** "intro.mp3" sorts between "track2.mp3" and "track4.mp3", not alphabetically. */
  lemma DigitFreeNameExample()
    ensures NumericSortKey("intro.mp3") == Number(3)
    ensures NumericSortKey("outro.mp3") == Number(3)
  {
    var intro, outro := "intro", "outro";
    assert intro == ['i', 'n', 't', 'r', 'o'] && outro == ['o', 'u', 't', 'r', 'o'];
    assert !HasDigit(intro) && !HasDigit(outro);
    assert intro + Mp3Suffix == "intro.mp3" && outro + Mp3Suffix == "outro.mp3";
    DigitFreeStemKey(intro);
    DigitFreeStemKey(outro);
  }

  /** The load never hits the int-against-str TypeError. */
  lemma CandidatesComparable(folder: string, listing: seq<string>)
    ensures KeysComparable(PathKey, Candidates(folder, listing))
  {
    var c := Candidates(folder, listing);
    forall p | p in c ensures PathKey(p).Number? {
      CandidateIsMp3(folder, listing, p);
      Mp3PathHasNumberKey(p);
    }
  }

  lemma {:induction false} CandidateIsMp3(folder: string, listing: seq<string>, p: string)
    requires p in Candidates(folder, listing)
    ensures EndsWith(p, Mp3Suffix)
  {
    var init, last := listing[..|listing| - 1], listing[|listing| - 1];
    if p in Candidates(folder, init) {
      CandidateIsMp3(folder, init, p);
    } else {
      JoinEndsWithName(folder, last, Mp3Suffix);
    }
  }

  /**
   * What the load leaves in the list: the ".mp3" candidates, as a
   * permutation, in non-decreasing key order, ties in listing order, every
   * key a number.
   */
  lemma LoadedOrder(folder: string, listing: seq<string>)
    ensures KeysComparable(PathKey, Candidates(folder, listing))
    ensures var c := Candidates(folder, listing);
      var r := SortByKey(PathKey, c);
      && SortedByKey(PathKey, r)
      && multiset(r) == multiset(c)
      && (forall k :: Ties(PathKey, r, k) == Ties(PathKey, c, k))
      && (forall p :: p in r ==> EndsWith(p, Mp3Suffix) && PathKey(p).Number?)
  {
    var c := Candidates(folder, listing);
    CandidatesComparable(folder, listing);
    var r := SortByKey(PathKey, c);
    SortByKeySorted(PathKey, c);
    forall k ensures Ties(PathKey, r, k) == Ties(PathKey, c, k) {
      SortByKeyStable(PathKey, c, k);
    }
    forall p | p in r ensures EndsWith(p, Mp3Suffix) && PathKey(p).Number? {
      assert p in multiset(c);
      CandidateIsMp3(folder, listing, p);
      Mp3PathHasNumberKey(p);
    }
  }

  /** After a load the list box shows exactly the ".mp3" entries of the listing, each once per occurrence. */
  lemma LoadedRows(folder: string, listing: seq<string>)
    requires NoSeparator(listing)
    ensures KeysComparable(PathKey, Candidates(folder, listing))
    ensures multiset(Basenames(SortByKey(PathKey, Candidates(folder, listing)))) == multiset(Mp3Names(listing))
  {
    var c := Candidates(folder, listing);
    CandidatesComparable(folder, listing);
    CandidatesSpec(folder, listing);
    BasenamesPermutation(SortByKey(PathKey, c), c);
  }

  /** `a[i], a[j] = a[j], a[i]`. */
  function Swap(s: seq<string>, i: nat, j: nat): (r: seq<string>)
    requires i < |s| && j < |s|
    ensures |r| == |s|
    ensures r[i] == s[j] && r[j] == s[i]
    ensures forall k :: 0 <= k < |s| && k != i && k != j ==> r[k] == s[k]
    ensures multiset(r) == multiset(s)
  {
    s[i := s[j]][j := s[i]]
  }

  /** Exchanging the same two positions twice restores the list. */
  lemma SwapInvolutive(s: seq<string>, i: nat, j: nat)
    requires i < |s| && j < |s|
    ensures Swap(Swap(s, i, j), i, j) == s
  {
  }

  /** The order of the two positions does not matter. */
  lemma SwapSymmetric(s: seq<string>, i: nat, j: nat)
    requires i < |s| && j < |s|
    ensures Swap(s, i, j) == Swap(s, j, i)
  {
  }
}
