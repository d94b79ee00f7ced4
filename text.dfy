/** Character classes and the string operations the loader uses from
    ECMAScript: literal search, first-occurrence replacement and `trim`. */
module Text {
  import opened Wrappers

  /** `\s` in an ECMAScript regular expression: the WhiteSpace and
      LineTerminator code points. `String.prototype.trim` strips the same set. */
  predicate IsSpace(c: char) {
    var n := c as int;
    n == 0x09 || n == 0x0A || n == 0x0B || n == 0x0C || n == 0x0D || n == 0x20 ||
    n == 0xA0 || n == 0x1680 || 0x2000 <= n <= 0x200A || n == 0x2028 || n == 0x2029 ||
    n == 0x202F || n == 0x205F || n == 0x3000 || n == 0xFEFF
  }

  /** `\w`: the characters a `\b` word boundary separates from the others. */
  predicate IsWordChar(c: char) {
    'a' <= c <= 'z' || 'A' <= c <= 'Z' || '0' <= c <= '9' || c == '_'
  }

  /** `[a-z]` */
  predicate IsLower(c: char) {
    'a' <= c <= 'z'
  }

  ghost predicate AllSpace(s: string) {
    forall i :: 0 <= i < |s| ==> IsSpace(s[i])
  }

  /** `pat` occurs in `s` at position `i`. */
  predicate StartsAt(s: string, pat: string, i: nat) {
    i + |pat| <= |s| && s[i..i + |pat|] == pat
  }

  /** The position of the first occurrence of `pat` in `s` at or after `from`. */
  function IndexOfFrom(s: string, pat: string, from: nat): (r: Option<nat>)
    requires from <= |s|
    decreases |s| - from
    ensures r.Some? ==> from <= r.value <= |s| && StartsAt(s, pat, r.value)
    ensures r.Some? ==> forall j :: from <= j < r.value ==> !StartsAt(s, pat, j)
    ensures r.None? ==> forall j :: from <= j ==> !StartsAt(s, pat, j)
  {
    if StartsAt(s, pat, from) then Some(from)
    else if from == |s| then None
    else IndexOfFrom(s, pat, from + 1)
  }

  /** The position of the first `c` in `s` at or after `from`. */
  function IndexOfChar(s: string, c: char, from: nat): (r: Option<nat>)
    requires from <= |s|
    decreases |s| - from
    ensures r.Some? ==> from <= r.value < |s| && s[r.value] == c
    ensures r.Some? ==> forall j :: from <= j < r.value ==> s[j] != c
    ensures r.None? ==> forall j :: from <= j < |s| ==> s[j] != c
  {
    if from == |s| then None
    else if s[from] == c then Some(from)
    else IndexOfChar(s, c, from + 1)
  }

  /** The scan for `c` stops at the first `c` at or after `from`. */
  lemma IndexOfCharIs(s: string, c: char, from: nat, j: nat)
    requires from <= j < |s| && s[j] == c
    requires forall k :: from <= k < j ==> s[k] != c
    ensures IndexOfChar(s, c, from) == Some(j)
  {
  }

  /** The scan for `pat` stops at its first occurrence at or after `from`. */
  lemma IndexOfFromIs(s: string, pat: string, from: nat, j: nat)
    requires from <= j && StartsAt(s, pat, j)
    requires forall k :: from <= k < j ==> !StartsAt(s, pat, k)
    ensures from <= |s| && IndexOfFrom(s, pat, from) == Some(j)
  {
  }

  /** `pat` occurs at `j` and nowhere before. */
  ghost predicate FirstOccurrence(s: string, pat: string, j: nat) {
    StartsAt(s, pat, j) && forall k :: 0 <= k < j ==> !StartsAt(s, pat, k)
  }

  /** `s.replace(pat, rep)` with a string pattern and the replacement taken
      literally: the first occurrence of `pat`, if any, becomes `rep`. */
  function ReplaceFirst(s: string, pat: string, rep: string): (r: string)
    ensures (forall j: nat :: !StartsAt(s, pat, j)) ==> r == s
    ensures forall j: nat :: FirstOccurrence(s, pat, j) ==> j + |pat| <= |s| && r == s[..j] + rep + s[j + |pat|..]
  {
    match IndexOfFrom(s, pat, 0)
    case None => s
    case Some(j) => s[..j] + rep + s[j + |pat|..]
  }

  /** Replacing the first occurrence, known to be at `j`. */
  lemma ReplaceFirstAt(s: string, pat: string, rep: string, j: nat)
    requires StartsAt(s, pat, j)
    requires forall k :: 0 <= k < j ==> !StartsAt(s, pat, k)
    ensures j + |pat| <= |s| && ReplaceFirst(s, pat, rep) == s[..j] + rep + s[j + |pat|..]
  {
    assert FirstOccurrence(s, pat, j);
  }

  /** A slice cut in two. */
  lemma SplitAt(s: string, a: nat, b: nat, c: nat)
    requires a <= b <= c <= |s|
    ensures s[a..c] == s[a..b] + s[b..c]
  {
  }

  /** A slice of a slice is a slice. */
  lemma SubSlice(s: string, q: nat, n: nat, a: nat, b: nat)
    requires q + n <= |s| && a <= b <= n
    ensures s[q..q + n][a..b] == s[q + a..q + b]
  {
    var x, y := s[q..q + n][a..b], s[q + a..q + b];
    assert |x| == |y| && forall k :: 0 <= k < |x| ==> x[k] == y[k];
  }

  /** The number of whitespace characters `s` starts with. */
  function LeadingSpaces(s: string): (n: nat)
    ensures n <= |s| && AllSpace(s[..n])
    ensures n < |s| ==> !IsSpace(s[n])
  {
    if s == [] || !IsSpace(s[0]) then 0
    else
      var n := 1 + LeadingSpaces(s[1..]);
      assert s[..n] == [s[0]] + s[1..][..n - 1];
      n
  }

  /** The number of whitespace characters `s` ends with. */
  function TrailingSpaces(s: string): (n: nat)
    ensures n <= |s| && AllSpace(s[|s| - n..])
    ensures n < |s| ==> !IsSpace(s[|s| - n - 1])
  {
    if s == [] || !IsSpace(s[|s| - 1]) then 0
    else
      var t := s[..|s| - 1];
      var n := 1 + TrailingSpaces(t);
      assert s[|s| - n..] == t[|t| - (n - 1)..] + [s[|s| - 1]];
      n
  }

  /** `s` is `r` with whitespace, and only whitespace, added at both ends. */
  ghost predicate IsPaddingOf(s: string, r: string) {
    exists a: nat, b: nat :: a <= b <= |s| && r == s[a..b] && AllSpace(s[..a]) && AllSpace(s[b..])
  }

  /** `String.prototype.trim`. */
  function Trim(s: string): (r: string)
    ensures IsPaddingOf(s, r)
    ensures r != [] ==> !IsSpace(r[0]) && !IsSpace(r[|r| - 1])
  {
    var a := LeadingSpaces(s);
    var t := s[a..];
    var b := a + |t| - TrailingSpaces(t);
    assert s[a..b] == t[..|t| - TrailingSpaces(t)];
    assert s[b..] == t[|t| - TrailingSpaces(t)..];
    s[a..b]
  }

  /** Trimming twice is trimming once. */
  lemma TrimIdempotent(s: string)
    ensures Trim(Trim(s)) == Trim(s)
  {
    var r := Trim(s);
    assert LeadingSpaces(r) == 0;
    assert TrailingSpaces(r[0..]) == 0;
    assert r[0..|r|] == r;
  }
}
