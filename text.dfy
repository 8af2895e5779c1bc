/**
 * Text operations the catalog relies on: Python's `str.strip()`, applied to
 * every form field but the identifier, and the order SQLite's default BINARY
 * collation puts on text in `ORDER BY`.
 */
module Text {

  /** The characters Python's `str.isspace()` accepts, which `str.strip()` removes. */
  predicate IsSpace(c: char) {
    || c == ' '
    || '\t' <= c <= '\r'
    || '\U{1c}' <= c <= '\U{1f}'
    || c == '\U{85}' || c == '\U{a0}' || c == '\U{1680}'
    || '\U{2000}' <= c <= '\U{200a}'
    || c == '\U{2028}' || c == '\U{2029}' || c == '\U{202f}' || c == '\U{205f}' || c == '\U{3000}'
  }

  predicate AllSpace(s: string) {
    forall i :: 0 <= i < |s| ==> IsSpace(s[i])
  }

  /** Neither end of `s` is whitespace. */
  predicate Trimmed(s: string) {
    s != [] ==> !IsSpace(s[0]) && !IsSpace(s[|s| - 1])
  }

  /** How many whitespace characters `s` starts with. */
  function LeadCount(s: string): (n: nat)
    ensures n <= |s|
    ensures forall m :: 0 <= m < n ==> IsSpace(s[m])
    ensures n < |s| ==> !IsSpace(s[n])
  {
    if s != [] && IsSpace(s[0]) then 1 + LeadCount(s[1..]) else 0
  }

  /** How many whitespace characters `s` ends with. */
  function TrailCount(s: string): (n: nat)
    ensures n <= |s|
    ensures forall m :: |s| - n <= m < |s| ==> IsSpace(s[m])
    ensures n < |s| ==> !IsSpace(s[|s| - 1 - n])
  {
    if s != [] && IsSpace(s[|s| - 1]) then 1 + TrailCount(s[..|s| - 1]) else 0
  }

  /**
   * Python's `s.strip()`: the slice of `s` left once the whitespace at both
   * ends is cut off, so that everything outside it is whitespace. It is
   * empty exactly when `s` is all whitespace.
   */
  function Strip(s: string): (r: string)
    ensures Trimmed(r)
    ensures r == [] <==> AllSpace(s)
    ensures LeadCount(s) + |r| <= |s| && r == s[LeadCount(s)..LeadCount(s) + |r|]
    ensures forall m :: 0 <= m < LeadCount(s) || LeadCount(s) + |r| <= m < |s| ==> IsSpace(s[m])
  {
    var i := LeadCount(s);
    if i == |s| then [] else s[i..|s| - TrailCount(s)]
  }

  /** A whitespace run of length `i` followed by a non-whitespace character (or nothing) is the lead. */
  lemma LeadAt(s: string, i: nat)
    requires i <= |s|
    requires forall m :: 0 <= m < i ==> IsSpace(s[m])
    requires i < |s| ==> !IsSpace(s[i])
    ensures LeadCount(s) == i
  {
  }

  /** A whitespace run from `j` to the end preceded by a non-whitespace character (or nothing) is the trail. */
  lemma TrailAt(s: string, j: nat)
    requires j <= |s|
    requires forall m :: j <= m < |s| ==> IsSpace(s[m])
    requires 0 < j ==> !IsSpace(s[j - 1])
    ensures TrailCount(s) == |s| - j
  {
  }

  /**
   * `Strip` is fully determined: any slice of `s` surrounded by whitespace
   * and not itself starting or ending with whitespace is the stripped string.
   */
  lemma StripUnique(s: string, i: nat, j: nat)
    requires i <= j <= |s|
    requires forall m :: 0 <= m < i || j <= m < |s| ==> IsSpace(s[m])
    requires Trimmed(s[i..j])
    ensures Strip(s) == s[i..j]
  {
    if i == j {
      LeadAt(s, |s|);
    } else {
      assert s[i] == s[i..j][0] && s[j - 1] == s[i..j][j - i - 1];
      LeadAt(s, i);
      TrailAt(s, j);
    }
  }

  /** Padding a trimmed string with whitespace on either side is undone by `Strip`. */
  lemma StripPadded(pre: string, core: string, post: string)
    requires AllSpace(pre) && AllSpace(post) && Trimmed(core)
    ensures Strip(pre + core + post) == core
  {
    var s := pre + core + post;
    forall m | 0 <= m < |pre| || |pre| + |core| <= m < |s| ensures IsSpace(s[m]) {
      if m < |pre| { assert s[m] == pre[m]; } else { assert s[m] == post[m - |pre| - |core|]; }
    }
    assert s[|pre|..|pre| + |core|] == core;
    StripUnique(s, |pre|, |pre| + |core|);
  }

  /** Stripping a string that has no whitespace at its ends leaves it as it is. */
  lemma StripTrimmed(s: string)
    requires Trimmed(s)
    ensures Strip(s) == s
  {
    StripUnique(s, 0, |s|);
    assert s[0..|s|] == s;
  }

  /**
   * `a` sorts no later than `b` under SQLite's BINARY collation: the UTF-8
   * bytes compared with memcmp, which orders strings code point by code point,
   * a proper prefix first.
   */
  predicate Precedes(a: string, b: string) {
    a == [] || (b != [] && (a[0] < b[0] || (a[0] == b[0] && Precedes(a[1..], b[1..]))))
  }

  lemma {:induction false} PrecedesReflexive(a: string)
    ensures Precedes(a, a)
  {
    if a != [] { PrecedesReflexive(a[1..]); }
  }

  lemma {:induction false} PrecedesTotal(a: string, b: string)
    ensures Precedes(a, b) || Precedes(b, a)
  {
    if a != [] && b != [] && a[0] == b[0] { PrecedesTotal(a[1..], b[1..]); }
  }

  lemma {:induction false} PrecedesAntisymmetric(a: string, b: string)
    requires Precedes(a, b) && Precedes(b, a)
    ensures a == b
  {
    if a != [] && b != [] {
      PrecedesAntisymmetric(a[1..], b[1..]);
      assert a == [a[0]] + a[1..] && b == [b[0]] + b[1..];
    }
  }

  lemma {:induction false} PrecedesTransitive(a: string, b: string, c: string)
    requires Precedes(a, b) && Precedes(b, c)
    ensures Precedes(a, c)
  {
    if a != [] && a[0] == b[0] && b[0] == c[0] { PrecedesTransitive(a[1..], b[1..], c[1..]); }
  }
}
