/**
 * Path-string operations with the semantics of Python's posixpath on the
 * string level: str.rfind, os.path.join of two components, os.path.splitext
 * and str.lower (the last restricted to the ASCII letters A-Z).
 */
module Paths {

  /** Index of the last occurrence of c in s, or -1 when there is none (str.rfind). */
  function RFind(s: string, c: char): (r: int)
    ensures -1 <= r < |s|
  {
    if s == [] then -1
    else if s[|s| - 1] == c then |s| - 1
    else RFind(s[..|s| - 1], c)
  }

  /** RFind finds an occurrence of c, and no occurrence of c follows it. */
  lemma {:induction false} RFindSpec(s: string, c: char)
    ensures RFind(s, c) >= 0 ==> s[RFind(s, c)] == c
    ensures forall j | RFind(s, c) < j < |s| :: s[j] != c
  {
    if s != [] && s[|s| - 1] != c {
      RFindSpec(s[..|s| - 1], c);
    }
  }

  /** Searching a concatenation finds the last hit in the right part, else in the left. */
  lemma {:induction false} RFindConcat(x: string, y: string, c: char)
    ensures RFind(x + y, c) == if RFind(y, c) >= 0 then |x| + RFind(y, c) else RFind(x, c)
  {
    if y == [] {
      assert x + y == x;
    } else if y[|y| - 1] == c {
    } else {
      assert (x + y)[..|x + y| - 1] == x + y[..|y| - 1];
      RFindConcat(x, y[..|y| - 1], c);
    }
  }

  /** True when some character of p at a position in [lo, hi) is not a dot. */
  predicate HasNonDotIn(p: string, lo: int, hi: int)
    requires 0 <= lo <= hi <= |p|
    decreases hi - lo
  {
    lo < hi && (p[lo] != '.' || HasNonDotIn(p, lo + 1, hi))
  }

  /** A character other than a dot in [lo, hi) makes HasNonDotIn hold. */
  lemma {:induction false} NonDotIn(p: string, lo: int, hi: int, i: int)
    requires 0 <= lo <= i < hi <= |p| && p[i] != '.'
    ensures HasNonDotIn(p, lo, hi)
    decreases i - lo
  {
    if lo < i {
      NonDotIn(p, lo + 1, hi, i);
    }
  }

  /** When HasNonDotIn holds, it has a witness: a position in [lo, hi) that is not a dot. */
  lemma {:induction false} NonDotWitness(p: string, lo: int, hi: int) returns (i: int)
    requires 0 <= lo <= hi <= |p| && HasNonDotIn(p, lo, hi)
    ensures lo <= i < hi && p[i] != '.'
    decreases hi - lo
  {
    if p[lo] != '.' {
      i := lo;
    } else {
      i := NonDotWitness(p, lo + 1, hi);
    }
  }

  /** HasNonDotIn is the existential statement it abbreviates. */
  lemma HasNonDotInExists(p: string, lo: int, hi: int)
    requires 0 <= lo <= hi <= |p|
    ensures HasNonDotIn(p, lo, hi) <==> exists i | lo <= i < hi :: p[i] != '.'
  {
    if HasNonDotIn(p, lo, hi) {
      var i := NonDotWitness(p, lo, hi);
    }
    if exists i | lo <= i < hi :: p[i] != '.' {
      var i :| lo <= i < hi && p[i] != '.';
      NonDotIn(p, lo, hi, i);
    }
  }

  /** os.path.join(a, b): an absolute b replaces a; otherwise a separator is inserted if needed. */
  function Join(a: string, b: string): string {
    if |b| > 0 && b[0] == '/' then b
    else if a == [] || a[|a| - 1] == '/' then a + b
    else a + "/" + b
  }

  /**
   * os.path.splitext(p): the extension is the suffix from the last dot, provided that
   * dot lies in the last path component and is preceded in that component by some
   * character other than a dot; otherwise the extension is empty.
   */
  function SplitExt(p: string): (string, string) {
    var sep := RFind(p, '/');
    var dot := RFind(p, '.');
    if dot > sep && HasNonDotIn(p, sep + 1, dot) then (p[..dot], p[dot..]) else (p, [])
  }

  /** The two parts of splitext make up the path, and a non-empty extension is a dot followed by neither dots nor separators. */
  lemma SplitExtParts(p: string)
    ensures SplitExt(p).0 + SplitExt(p).1 == p
    ensures var e := SplitExt(p).1;
      e == [] || (e[0] == '.' && (forall j | 0 < j < |e| :: e[j] != '.') && forall j | 0 <= j < |e| :: e[j] != '/')
  {
    RFindSpec(p, '/');
    RFindSpec(p, '.');
    var dot := RFind(p, '.');
    if SplitExt(p).1 != [] {
      var e := p[dot..];
      assert forall j | 0 <= j < |e| :: e[j] == p[dot + j];
    }
  }

  /** The second component of os.path.splitext. */
  function Extension(p: string): string {
    SplitExt(p).1
  }

  /**
   * Reference definition of "the extension of p starts at position k", written without
   * rfind: p[k] is a dot, no dot or separator follows it, and before it, within the same
   * path component, there is a character that is neither a dot nor a separator.
   */
  ghost predicate ExtensionAt(p: string, k: int) {
    && 0 <= k < |p|
    && p[k] == '.'
    && (forall j | k < j < |p| :: p[j] != '.' && p[j] != '/')
    && exists i | 0 <= i < k :: p[i] != '.' && p[i] != '/' && forall m | i < m < k :: p[m] != '/'
  }

  /** e is the extension of p in the sense of the reference definition. */
  ghost predicate IsExtension(p: string, e: string) {
    1 <= |e| <= |p| && e == p[|p| - |e|..] && ExtensionAt(p, |p| - |e|)
  }

  /** A non-empty extension computed by SplitExt meets the reference definition. */
  lemma ExtensionSound(p: string)
    ensures Extension(p) != [] ==> IsExtension(p, Extension(p))
  {
    RFindSpec(p, '/');
    RFindSpec(p, '.');
    var sep := RFind(p, '/');
    var dot := RFind(p, '.');
    if dot > sep && HasNonDotIn(p, sep + 1, dot) {
      var i := NonDotWitness(p, sep + 1, dot);
      assert p[i] != '/';
      assert ExtensionAt(p, dot);
    }
  }

  /** Every extension in the sense of the reference definition is the one SplitExt computes. */
  lemma ExtensionComplete(p: string, e: string)
    requires IsExtension(p, e)
    ensures Extension(p) == e
  {
    var k := |p| - |e|;
    var i :| 0 <= i < k && p[i] != '.' && p[i] != '/' && forall m | i < m < k :: p[m] != '/';
    RFindSpec(p, '/');
    RFindSpec(p, '.');
    var sep := RFind(p, '/');
    assert sep < i;
    assert RFind(p, '.') == k;
    NonDotIn(p, sep + 1, k, i);
  }

  /** A witness form of the reference definition, for computing extensions of given names. */
  lemma ExtensionFrom(p: string, i: int, k: int)
    requires 0 <= i < k < |p| && p[k] == '.' && p[i] != '.' && p[i] != '/'
    requires forall m | i < m < |p| :: p[m] != '/'
    requires forall j | k < j < |p| :: p[j] != '.'
    ensures Extension(p) == p[k..]
  {
    assert ExtensionAt(p, k);
    ExtensionComplete(p, p[k..]);
  }

  /** A name that ends in a dot followed by neither dots nor separators has that extension or none. */
  lemma ExtensionOfDottedSuffix(x: string, e: string)
    requires |e| >= 1 && e[0] == '.'
    requires forall j | 0 < j < |e| :: e[j] != '.'
    requires forall j | 0 <= j < |e| :: e[j] != '/'
    ensures Extension(x + e) == e || Extension(x + e) == []
  {
    var p := x + e;
    RFindConcat(x, e, '.');
    RFindConcat(x, e, '/');
    RFindSpec(e, '.');
    RFindSpec(e, '/');
    assert RFind(e, '.') == 0;
    assert RFind(e, '/') == -1;
    assert RFind(p, '.') == |x|;
    assert p[|x|..] == e;
  }

  /** The extension either is empty or meets the reference definition, and is then unique. */
  lemma ExtensionUnique(p: string, e: string)
    ensures Extension(p) == e <==> (IsExtension(p, e) || (e == [] && forall e' :: !IsExtension(p, e')))
  {
    ExtensionSound(p);
    if IsExtension(p, e) {
      ExtensionComplete(p, e);
    }
    if e == [] && Extension(p) == [] {
      forall e' ensures !IsExtension(p, e') {
        if IsExtension(p, e') {
          ExtensionComplete(p, e');
        }
      }
    }
  }

  /** A dot test on the right part of a concatenation is the same test on that part alone. */
  lemma HasNonDotInConcat(x: string, b: string, lo: int, hi: int)
    requires 0 <= lo <= hi <= |b|
    ensures HasNonDotIn(x + b, |x| + lo, |x| + hi) <==> HasNonDotIn(b, lo, hi)
  {
    if HasNonDotIn(b, lo, hi) {
      var i := NonDotWitness(b, lo, hi);
      assert (x + b)[|x| + i] != '.';
      NonDotIn(x + b, |x| + lo, |x| + hi, |x| + i);
    }
    if HasNonDotIn(x + b, |x| + lo, |x| + hi) {
      var i := NonDotWitness(x + b, |x| + lo, |x| + hi);
      assert b[i - |x|] != '.';
      NonDotIn(b, lo, hi, i - |x|);
    }
  }

  /** After a separator (or at the start) the extension depends only on the slash-free rest. */
  lemma ExtensionAfterSeparator(x: string, b: string)
    requires x == [] || x[|x| - 1] == '/'
    requires '/' !in b
    ensures Extension(x + b) == Extension(b)
  {
    var p := x + b;
    RFindConcat(x, b, '/');
    RFindConcat(x, b, '.');
    RFindSpec(b, '/');
    RFindSpec(x, '.');
    assert RFind(b, '/') == -1;
    assert RFind(p, '/') == |x| - 1;
    var dB := RFind(b, '.');
    if dB >= 0 {
      assert RFind(p, '.') == |x| + dB;
      HasNonDotInConcat(x, b, 0, dB);
      assert p[|x| + dB..] == b[dB..];
    } else {
      assert x != [] ==> x[|x| - 1] != '.';
      assert RFind(p, '.') <= |x| - 1;
    }
  }

  /** Joining a directory and a slash-free name leaves the name's extension unchanged. */
  lemma ExtensionOfJoin(dir: string, name: string)
    requires '/' !in name
    ensures Extension(Join(dir, name)) == Extension(name)
  {
    if |name| > 0 && name[0] == '/' {
    } else if dir == [] || dir[|dir| - 1] == '/' {
      ExtensionAfterSeparator(dir, name);
    } else {
      assert dir + "/" + name == (dir + "/") + name;
      ExtensionAfterSeparator(dir + "/", name);
    }
  }

  /** str.lower on one character, for the ASCII upper-case letters. */
  function LowerChar(c: char): (r: char)
    ensures 'A' <= c <= 'Z' ==> 'a' <= r <= 'z' && r as int - c as int == 32
    ensures !('A' <= c <= 'Z') ==> r == c
  {
    if 'A' <= c <= 'Z' then (c as int + 32) as char else c
  }

  /** str.lower: character by character. */
  function Lower(s: string): (r: string)
    ensures |r| == |s|
  {
    if s == [] then [] else [LowerChar(s[0])] + Lower(s[1..])
  }

  /** Each character of the lower-cased string is the lower-cased character. */
  lemma {:induction false} LowerAt(s: string)
    ensures forall i | 0 <= i < |s| :: Lower(s)[i] == LowerChar(s[i])
  {
    if s != [] {
      LowerAt(s[1..]);
      forall i | 0 < i < |s| ensures Lower(s)[i] == LowerChar(s[i]) {
        assert Lower(s)[i] == Lower(s[1..])[i - 1];
      }
    }
  }

  /** A string without upper-case ASCII letters is its own lower-cased form. */
  lemma {:induction false} LowerOfLowerCase(s: string)
    requires forall i | 0 <= i < |s| :: !('A' <= s[i] <= 'Z')
    ensures Lower(s) == s
  {
    if s != [] {
      LowerOfLowerCase(s[1..]);
      assert s == [s[0]] + s[1..];
    }
  }

  /** Lower-casing twice is lower-casing once. */
  lemma {:induction false} LowerIdempotent(s: string)
    ensures Lower(Lower(s)) == Lower(s)
  {
    if s != [] {
      LowerIdempotent(s[1..]);
      var t := Lower(s);
      assert t[1..] == Lower(s[1..]);
    }
  }

  /** Lower-casing distributes over concatenation. */
  lemma {:induction false} LowerConcat(a: string, b: string)
    ensures Lower(a + b) == Lower(a) + Lower(b)
  {
    if a == [] {
      assert a + b == b;
    } else {
      LowerConcat(a[1..], b);
      assert (a + b)[1..] == a[1..] + b;
    }
  }

  /** Lower-casing keeps separators and dots where they are and creates no new ones. */
  lemma LowerKeepsPunctuation(s: string)
    ensures forall i :: 0 <= i < |s| ==> (Lower(s)[i] == '/' <==> s[i] == '/')
    ensures forall i :: 0 <= i < |s| ==> (Lower(s)[i] == '.' <==> s[i] == '.')
    ensures ('/' in Lower(s)) <==> ('/' in s)
  {
    LowerAt(s);
    if '/' in Lower(s) {
      var i :| 0 <= i < |s| && Lower(s)[i] == '/';
      assert s[i] == '/';
    }
    if '/' in s {
      var i :| 0 <= i < |s| && s[i] == '/';
      assert Lower(s)[i] == '/';
    }
  }

  /** Lower-casing commutes with joining a directory and a name. */
  lemma LowerJoin(a: string, b: string)
    ensures Lower(Join(a, b)) == Join(Lower(a), Lower(b))
  {
    LowerKeepsPunctuation(a);
    LowerKeepsPunctuation(b);
    if |b| > 0 && b[0] == '/' {
    } else if a == [] || a[|a| - 1] == '/' {
      LowerConcat(a, b);
    } else {
      LowerConcat(a, "/");
      LowerConcat(a + "/", b);
      assert Lower("/") == "/";
    }
  }
}
