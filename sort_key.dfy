/**
 * The natural sort key of a file name: the value of the first run of
 * decimal digits in the name, or the lower-cased name when it has no digit.
 * Keys of the two kinds are Python's `int` and `str`; comparing one with the
 * other raises a TypeError, which `KeyLe` reflects by being false on mixed
 * pairs and `Comparable` names explicitly.
 */
module SortKey {

  datatype Key = Number(value: nat) | Name(text: string)

  predicate IsDigit(c: char) {
    '0' <= c <= '9'
  }

  predicate AllDigits(s: string) {
    forall k :: 0 <= k < |s| ==> IsDigit(s[k])
  }

  predicate HasDigit(s: string) {
    exists k :: 0 <= k < |s| && IsDigit(s[k])
  }

  function DigitValue(c: char): (d: nat)
    requires IsDigit(c)
    ensures d < 10
  {
    c as int - '0' as int
  }

  /** The value `int()` gives a string of decimal digits, most significant first. */
  function DecimalValue(s: string): (v: nat)
    requires AllDigits(s)
    ensures v == 0 <==> forall k :: 0 <= k < |s| ==> s[k] == '0'
  {
    if s == [] then 0
    else
      var init := s[..|s| - 1];
      assert forall k :: 0 <= k < |init| ==> init[k] == s[k];
      DecimalValue(init) * 10 + DigitValue(s[|s| - 1])
  }

  /** Leading zeros do not change the value: "007" and "7" both read as 7. */
  lemma {:induction false} LeadingZeroIgnored(s: string)
    requires AllDigits(s)
    ensures AllDigits("0" + s)
    ensures DecimalValue("0" + s) == DecimalValue(s)
  {
    var z := "0" + s;
    if s != [] {
      var init := s[..|s| - 1];
      assert z[..|z| - 1] == "0" + init;
      assert z[|z| - 1] == s[|s| - 1];
      LeadingZeroIgnored(init);
    }
  }

  /** Index of the leftmost digit of s, or |s| when s has no digit. */
  function FirstDigit(s: string): (i: nat)
    ensures i <= |s|
    ensures forall k :: 0 <= k < i ==> !IsDigit(s[k])
    ensures i < |s| ==> IsDigit(s[i])
  {
    if s == [] then 0
    else if IsDigit(s[0]) then 0
    else
      var rest := FirstDigit(s[1..]);
      assert forall k :: 1 <= k < rest + 1 ==> s[k] == s[1..][k - 1];
      rest + 1
  }

  /** End of the maximal run of digits that starts at index i (greedy `\d+`). */
  function RunEnd(s: string, i: nat): (j: nat)
    requires i <= |s|
    ensures i <= j <= |s|
    ensures forall k :: i <= k < j ==> IsDigit(s[k])
    ensures j == |s| || !IsDigit(s[j])
    decreases |s| - i
  {
    if i < |s| && IsDigit(s[i]) then RunEnd(s, i + 1) else i
  }

  /** s[i..j] is the leftmost maximal run of digits in s, the match of `re.search(r'(\d+)', s)`. */
  predicate LeftmostRun(s: string, i: nat, j: nat) {
    && i < j <= |s|
    && (forall k :: 0 <= k < i ==> !IsDigit(s[k]))
    && (forall k :: i <= k < j ==> IsDigit(s[k]))
    && (j == |s| || !IsDigit(s[j]))
  }

  function LowerChar(c: char): char {
    if 'A' <= c <= 'Z' then (c as int + 32) as char else c
  }

  /** `str.lower()` restricted to ASCII letters. */
  function Lower(s: string): (r: string)
    ensures |r| == |s|
    ensures forall k :: 0 <= k < |s| ==> r[k] == LowerChar(s[k])
  {
    seq(|s|, k requires 0 <= k < |s| => LowerChar(s[k]))
  }

  /** Lower-casing leaves no upper-case ASCII letter and is idempotent. */
  lemma LowerIsLower(s: string)
    ensures forall k :: 0 <= k < |s| ==> !('A' <= Lower(s)[k] <= 'Z')
    ensures Lower(Lower(s)) == Lower(s)
  {
  }

  function NumericSortKey(filename: string): (key: Key)
    ensures key.Number? <==> HasDigit(filename)
    ensures key.Name? ==> key.text == Lower(filename)
  {
    var i := FirstDigit(filename);
    if i == |filename| then Name(Lower(filename))
    else
      var j := RunEnd(filename, i);
      Number(DecimalValue(filename[i..j]))
  }

  /** A string has at most one leftmost maximal run of digits. */
  lemma LeftmostRunUnique(s: string, i: nat, j: nat, i': nat, j': nat)
    requires LeftmostRun(s, i, j) && LeftmostRun(s, i', j')
    ensures i == i' && j == j'
  {
    // each run's first digit bounds the other's start from above
    assert IsDigit(s[i]) && IsDigit(s[i']);
    assert i == i';
    // each run's terminator bounds the other's end from above
    assert j == |s| || !IsDigit(s[j]);
    assert j' == |s| || !IsDigit(s[j']);
  }

  /**
   * The key of a name with a digit is the value of its leftmost maximal digit
   * run; the key of a name without a digit is the lower-cased name.
   */
  lemma NumericSortKeySpec(filename: string)
    ensures HasDigit(filename) ==>
      exists i: nat, j: nat :: LeftmostRun(filename, i, j)
    ensures forall i: nat, j: nat :: LeftmostRun(filename, i, j) ==>
      NumericSortKey(filename) == Number(DecimalValue(filename[i..j]))
    ensures !HasDigit(filename) ==> NumericSortKey(filename) == Name(Lower(filename))
  {
    var i := FirstDigit(filename);
    if i < |filename| {
      var j := RunEnd(filename, i);
      assert LeftmostRun(filename, i, j);
      forall i': nat, j': nat | LeftmostRun(filename, i', j')
        ensures NumericSortKey(filename) == Number(DecimalValue(filename[i'..j']))
      {
        LeftmostRunUnique(filename, i, j, i', j');
      }
    }
  }

  /** Python's `<=` between two keys; false where Python would raise TypeError. */
  predicate KeyLe(a: Key, b: Key) {
    match (a, b)
    case (Number(x), Number(y)) => x <= y
    case (Name(x), Name(y)) => LexLe(x, y)
    case _ => false
  }

  /** Python compares an `int` key only with an `int` key and a `str` key only with a `str` key. */
  predicate Comparable(a: Key, b: Key) {
    a.Number? == b.Number?
  }

  /** Python's `<=` on `str`: code point by code point, a proper prefix first. */
  predicate LexLe(a: string, b: string) {
    a == [] || (b != [] && (a[0] < b[0] || (a[0] == b[0] && LexLe(a[1..], b[1..]))))
  }

  /**
   * LexLe is the lexicographic order: a is a prefix of b, or a has a smaller
   * code point than b at the first position where they differ.
   */
  lemma {:induction false} LexLeSpec(a: string, b: string)
    ensures LexLe(a, b) <==> a <= b || FirstDifferenceSmaller(a, b)
  {
    if a != [] && b != [] {
      LexLeSpec(a[1..], b[1..]);
      if a[0] == b[0] {
        assert a <= b <==> a[1..] <= b[1..] by {
          assert a == [a[0]] + a[1..] && b == [b[0]] + b[1..];
        }
        DifferenceShift(a, b);
      } else if a[0] < b[0] {
        assert a[..0] == b[..0];
      } else {
        forall i | 0 < i < |a| && i < |b| ensures a[..i] != b[..i] {
          assert a[..i][0] == a[0] && b[..i][0] == b[0];
        }
      }
    }
  }

  /** At the first position where a and b differ, a has the smaller code point. */
  predicate FirstDifferenceSmaller(a: string, b: string) {
    exists i :: 0 <= i < |a| && i < |b| && a[..i] == b[..i] && a[i] < b[i]
  }

  /** Strings with the same first character differ first where their tails do. */
  lemma DifferenceShift(a: string, b: string)
    requires a != [] && b != [] && a[0] == b[0]
    ensures FirstDifferenceSmaller(a, b) <==> FirstDifferenceSmaller(a[1..], b[1..])
  {
    var a', b' := a[1..], b[1..];
    if FirstDifferenceSmaller(a', b') {
      var j :| 0 <= j < |a'| && j < |b'| && a'[..j] == b'[..j] && a'[j] < b'[j];
      assert a[..j + 1] == [a[0]] + a'[..j] && b[..j + 1] == [b[0]] + b'[..j];
      assert a[j + 1] == a'[j] && b[j + 1] == b'[j];
    }
    if FirstDifferenceSmaller(a, b) {
      var i :| 0 <= i < |a| && i < |b| && a[..i] == b[..i] && a[i] < b[i];
      assert i > 0;
      assert a'[..i - 1] == a[..i][1..] && b'[..i - 1] == b[..i][1..];
      assert a'[i - 1] == a[i] && b'[i - 1] == b[i];
    }
  }

  lemma {:induction false} LexLeReflexive(a: string)
    ensures LexLe(a, a)
  {
    if a != [] {
      LexLeReflexive(a[1..]);
    }
  }

  lemma {:induction false} LexLeTotal(a: string, b: string)
    ensures LexLe(a, b) || LexLe(b, a)
  {
    if a != [] && b != [] && a[0] == b[0] {
      LexLeTotal(a[1..], b[1..]);
    }
  }

  lemma {:induction false} LexLeTransitive(a: string, b: string, c: string)
    requires LexLe(a, b) && LexLe(b, c)
    ensures LexLe(a, c)
  {
    if a != [] && b != [] && c != [] && a[0] == b[0] == c[0] {
      LexLeTransitive(a[1..], b[1..], c[1..]);
    }
  }

  lemma {:induction false} LexLeAntisymmetric(a: string, b: string)
    requires LexLe(a, b) && LexLe(b, a)
    ensures a == b
  {
    if a != [] && b != [] {
      LexLeAntisymmetric(a[1..], b[1..]);
      assert a == [a[0]] + a[1..];
      assert b == [b[0]] + b[1..];
    }
  }

  /** A number key and a string key are never ordered: Python raises instead. */
  lemma KeyLeSameKind(a: Key, b: Key)
    requires KeyLe(a, b)
    ensures Comparable(a, b)
  {
  }

  lemma KeyLeReflexive(a: Key)
    ensures KeyLe(a, a)
  {
    if a.Name? {
      LexLeReflexive(a.text);
    }
  }

  /** Two keys of the same kind are always ordered one way or the other. */
  lemma KeyLeTotal(a: Key, b: Key)
    requires Comparable(a, b)
    ensures KeyLe(a, b) || KeyLe(b, a)
  {
    if a.Name? {
      LexLeTotal(a.text, b.text);
    }
  }

  lemma KeyLeTransitive(a: Key, b: Key, c: Key)
    requires KeyLe(a, b) && KeyLe(b, c)
    ensures KeyLe(a, c)
  {
    if a.Name? {
      LexLeTransitive(a.text, b.text, c.text);
    }
  }

  /** Keys that compare equal both ways are equal: a tie in the sort is an equal key. */
  lemma KeyLeAntisymmetric(a: Key, b: Key)
    requires KeyLe(a, b) && KeyLe(b, a)
    ensures a == b
  {
    if a.Name? {
      LexLeAntisymmetric(a.text, b.text);
    }
  }

  /**
   * A name made of a digit-free stem, a run of digits, and a rest that does
   * not continue the run has the value of that run as its key.
   */
  lemma KeyOfFirstRun(stem: string, digits: string, rest: string)
    requires !HasDigit(stem) && digits != [] && AllDigits(digits)
    requires rest == [] || !IsDigit(rest[0])
    ensures AllDigits(digits)
    ensures NumericSortKey(stem + digits + rest) == Number(DecimalValue(digits))
  {
    var name := stem + digits + rest;
    var i, j := |stem|, |stem| + |digits|;
    assert forall k :: 0 <= k < i ==> name[k] == stem[k];
    assert forall k :: i <= k < j ==> name[k] == digits[k - i];
    assert j < |name| ==> name[j] == rest[0];
    assert LeftmostRun(name, i, j);
    assert name[i..j] == digits;
    NumericSortKeySpec(name);
  }

  /** "track2.mp3" has key 2. */
  lemma Track2Key()
    ensures NumericSortKey("track2.mp3") == Number(2)
  {
    var stem, rest := "track", ".mp3";
    assert stem == ['t', 'r', 'a', 'c', 'k'] && !HasDigit(stem);
    assert stem + "2" + rest == "track2.mp3";
    assert "2"[..0] == "";
    KeyOfFirstRun(stem, "2", rest);
  }

  /** "track10.mp3" has key 10. */
  lemma Track10Key()
    ensures NumericSortKey("track10.mp3") == Number(10)
  {
    var stem, rest := "track", ".mp3";
    assert stem == ['t', 'r', 'a', 'c', 'k'] && !HasDigit(stem);
    assert stem + "10" + rest == "track10.mp3";
    assert "10"[..1] == "1" && "1"[..0] == "";
    KeyOfFirstRun(stem, "10", rest);
  }

  /** Numbers compare as numbers: "track2.mp3" sorts strictly before "track10.mp3". */
  lemma NaturalOrderExample()
    ensures KeyLe(NumericSortKey("track2.mp3"), NumericSortKey("track10.mp3"))
    ensures !KeyLe(NumericSortKey("track10.mp3"), NumericSortKey("track2.mp3"))
  {
    Track2Key();
    Track10Key();
  }

  /** Leading zeros collapse: "007.mp3" has key 7. */
  lemma LeadingZerosExample()
    ensures NumericSortKey("007.mp3") == Number(7)
  {
    assert "" + "007" + ".mp3" == "007.mp3";
    assert "007" == "0" + "07" && "07" == "0" + "7";
    LeadingZeroIgnored("07");
    LeadingZeroIgnored("7");
    KeyOfFirstRun("", "007", ".mp3");
  }

  /** A name without any digit falls back to its lower-cased self. */
  lemma NameFallbackExample()
    ensures NumericSortKey("Cover.JPG") == Name("cover.jpg")
  {
    var a := "Cover.JPG";
    assert a == ['C', 'o', 'v', 'e', 'r', '.', 'J', 'P', 'G'];
    assert !HasDigit(a);
    assert Lower(a) == "cover.jpg";
  }
}
