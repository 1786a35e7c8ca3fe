/**
 * Python's ordering of str values (lexicographic by code point, a proper prefix first)
 * and the sort that list.sort() performs on the candidate file names.
 */
module Ordering {

  /** a < b on Python strings: compare code points from the left; a proper prefix is smaller. */
  predicate Less(a: string, b: string) {
    if a == [] then b != []
    else if b == [] then false
    else if a[0] != b[0] then a[0] < b[0]
    else Less(a[1..], b[1..])
  }

  /** a <= b on Python strings. */
  predicate LessEq(a: string, b: string) {
    a == b || Less(a, b)
  }

  /** No string precedes itself. */
  lemma {:induction false} LessIrreflexive(a: string)
    ensures !Less(a, a)
  {
    if a != [] {
      LessIrreflexive(a[1..]);
    }
  }

  /** The order is transitive. */
  lemma {:induction false} LessTransitive(a: string, b: string, c: string)
    requires Less(a, b) && Less(b, c)
    ensures Less(a, c)
  {
    if a != [] && a[0] == b[0] && b[0] == c[0] {
      LessTransitive(a[1..], b[1..], c[1..]);
    }
  }

  /** Any two strings are ordered one way or the other, or are equal. */
  lemma {:induction false} LessTrichotomy(a: string, b: string)
    ensures Less(a, b) || a == b || Less(b, a)
  {
    if a != [] && b != [] && a[0] == b[0] {
      LessTrichotomy(a[1..], b[1..]);
      if a[1..] == b[1..] {
        assert a == [a[0]] + a[1..] && b == [b[0]] + b[1..];
      }
    }
  }

  /** Of two strings, at most one precedes the other. */
  lemma {:induction false} LessAsymmetric(a: string, b: string)
    requires Less(a, b)
    ensures !Less(b, a)
  {
    if a != [] && a[0] == b[0] {
      LessAsymmetric(a[1..], b[1..]);
    }
  }

  /** Dafny's own < on sequences is the proper-prefix relation; it implies Python's <. */
  lemma {:induction false} ProperPrefixIsLess(a: string, b: string)
    requires a < b
    ensures Less(a, b)
  {
    if a != [] {
      assert a[1..] < b[1..] by {
        assert a[1..] == b[1..|a|];
      }
      ProperPrefixIsLess(a[1..], b[1..]);
    }
  }

  /**
   * The order is case-sensitive: a name starting with an upper-case ASCII letter precedes
   * every name starting with a lower-case one (the first characters already differ).
   */
  lemma UpperBeforeLower(a: string, b: string)
    requires |a| > 0 && |b| > 0
    requires 'A' <= a[0] <= 'Z' && 'a' <= b[0] <= 'z'
    ensures Less(a, b)
  {
  }

  /** Two instances of UpperBeforeLower. */
  lemma CaseSensitiveExample()
    ensures Less("IMG_02.JPG", "img_01.jpg")
    ensures Less("Zebra.png", "apple.png")
  {
  }

  /** Adjacent elements are in order. */
  predicate Sorted(s: seq<string>) {
    forall i | 0 < i < |s| :: LessEq(s[i - 1], s[i])
  }

  /** In a sorted sequence, every element is at most every later one. */
  lemma {:induction false} SortedPairwise(s: seq<string>, i: int, j: int)
    requires Sorted(s)
    requires 0 <= i <= j < |s|
    ensures LessEq(s[i], s[j])
    decreases j - i
  {
    if i < j {
      SortedPairwise(s, i + 1, j);
      if s[i] != s[i + 1] && s[i + 1] != s[j] {
        LessTransitive(s[i], s[i + 1], s[j]);
      }
    }
  }

  /** Inserts x into a sorted sequence before the first element it does not exceed. */
  function Insert(x: string, s: seq<string>): (r: seq<string>)
    requires Sorted(s)
    ensures Sorted(r)
    ensures multiset(r) == multiset(s) + multiset{x}
    ensures |r| == |s| + 1
    ensures r[0] == x || (s != [] && r[0] == s[0])
  {
    if s == [] then [x]
    else if LessEq(x, s[0]) then [x] + s
    else
      LessTrichotomy(x, s[0]);
      var t := Insert(x, s[1..]);
      assert s == [s[0]] + s[1..];
      [s[0]] + t
  }

  /** The reference sort: insertion sort on the sequence. */
  function Sort(s: seq<string>): (r: seq<string>)
    ensures Sorted(r)
    ensures multiset(r) == multiset(s)
  {
    if s == [] then []
    else
      assert s == [s[0]] + s[1..];
      Insert(s[0], Sort(s[1..]))
  }

  /** The first element of a sorted sequence is at most every element. */
  lemma SortedHeadLeast(s: seq<string>, x: string)
    requires Sorted(s)
    requires x in s
    ensures LessEq(s[0], x)
  {
    var k :| 0 <= k < |s| && s[k] == x;
    SortedPairwise(s, 0, k);
  }

  /** Two sorted sequences with the same elements start with the same element. */
  lemma SortedHeadsAgree(a: seq<string>, b: seq<string>)
    requires Sorted(a) && Sorted(b) && a != []
    requires multiset(a) == multiset(b)
    ensures b != [] && a[0] == b[0]
  {
    assert |b| == |multiset(b)| == |a|;
    assert a[0] in multiset(b) && b[0] in multiset(a);
    SortedHeadLeast(a, b[0]);
    SortedHeadLeast(b, a[0]);
    if a[0] != b[0] {
      LessAsymmetric(a[0], b[0]);
    }
  }

  /** Dropping the head of a sequence removes one occurrence of it from the multiset. */
  lemma TailMultiset(a: seq<string>)
    requires a != []
    ensures multiset(a[1..]) == multiset(a) - multiset{a[0]}
  {
    assert a == [a[0]] + a[1..];
  }

  /** Two sorted arrangements of the same multiset of strings are the same sequence. */
  lemma {:induction false} SortedUnique(a: seq<string>, b: seq<string>)
    requires Sorted(a) && Sorted(b)
    requires multiset(a) == multiset(b)
    ensures a == b
  {
    if a == [] {
      assert |b| == |multiset(b)| == 0;
    } else {
      SortedHeadsAgree(a, b);
      TailMultiset(a);
      TailMultiset(b);
      assert Sorted(a[1..]) && Sorted(b[1..]);
      SortedUnique(a[1..], b[1..]);
      assert a == [a[0]] + a[1..] && b == [b[0]] + b[1..];
    }
  }

  /** The first n elements of a are in order. */
  ghost predicate SortedPrefix(a: array<string>, n: int)
    reads a
  {
    forall k | 0 < k < n && k < a.Length :: LessEq(a[k - 1], a[k])
  }

  /** Exchanges two elements of a. */
  method Swap(a: array<string>, i: int, j: int)
    requires 0 <= i < a.Length && 0 <= j < a.Length
    modifies a
    ensures a[i] == old(a[j]) && a[j] == old(a[i])
    ensures forall k | 0 <= k < a.Length && k != i && k != j :: a[k] == old(a[k])
    ensures multiset(a[..]) == multiset(old(a[..]))
  {
    a[i], a[j] := a[j], a[i];
  }

  /** Moves a[i] left past every larger element, extending the sorted prefix by one. */
  method InsertAt(a: array<string>, i: int)
    requires 0 <= i < a.Length
    requires SortedPrefix(a, i)
    modifies a
    ensures SortedPrefix(a, i + 1)
    ensures multiset(a[..]) == multiset(old(a[..]))
  {
    var j := i;
    while j > 0 && Less(a[j], a[j - 1])
      invariant 0 <= j <= i
      invariant forall k | 0 < k < j :: LessEq(a[k - 1], a[k])
      invariant forall k | j + 1 < k <= i :: LessEq(a[k - 1], a[k])
      invariant 0 < j < i ==> LessEq(a[j - 1], a[j + 1])
      invariant j < i ==> Less(a[j], a[j + 1])
      invariant multiset(a[..]) == multiset(old(a[..]))
    {
      Swap(a, j - 1, j);
      j := j - 1;
    }
    if j > 0 {
      LessTrichotomy(a[j], a[j - 1]);
    }
  }

  /**
   * list.sort() on the candidate names, as an in-place insertion sort on an array. The
   * result is the one sorted arrangement of the original contents.
   */
  method SortInPlace(a: array<string>)
    modifies a
    ensures Sorted(a[..])
    ensures multiset(a[..]) == multiset(old(a[..]))
    ensures a[..] == Sort(old(a[..]))
  {
    ghost var original := a[..];
    var i := 0;
    while i < a.Length
      invariant 0 <= i <= a.Length
      invariant SortedPrefix(a, i)
      invariant multiset(a[..]) == multiset(original)
    {
      InsertAt(a, i);
      i := i + 1;
    }
    assert Sorted(a[..]);
    SortedUnique(a[..], Sort(original));
  }
}
