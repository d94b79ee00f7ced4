/** The three fixed regular expressions of the loader, as scanners:
    the block pattern `<tag((\s[^>\s]*)*)>([\S\s.]*?)</tag>` run with
    `matchAll`, the language attribute `lang="([a-z]*)"` run with `match`
    and removed with `replace(/\s?lang="<lang>"/, "")`, and the exclusion
    pattern `\b<word>\b` run with `test`. Each scanner is proved to find
    the leftmost match of a declarative description of its pattern. */
module Patterns {
  import opened Wrappers
  import opened Text

  // ---------------------------------------------------------------------
  // Blocks
  // ---------------------------------------------------------------------

  /** One match of the block pattern, by position: where it starts, where
      the `>` that ends its opening tag stands, and where its closing tag
      starts. Capture group 1 (the attribute run) lies between the tag name
      and `tagEnd`, capture group 3 (the body) between `tagEnd` and
      `closeAt`. */
  datatype BlockMatch = BlockMatch(start: nat, tagEnd: nat, closeAt: nat)

  function OpenTag(tag: string): string {
    "<" + tag
  }

  function CloseTag(tag: string): string {
    "</" + tag + ">"
  }

  /** Where the attribute run starts. */
  function AttrsStart(tag: string, m: BlockMatch): nat {
    m.start + |OpenTag(tag)|
  }

  /** Where the match ends. */
  function BlockEnd(tag: string, m: BlockMatch): nat {
    m.closeAt + |CloseTag(tag)|
  }

  /** The positions of `m` are ordered and lie inside `s`. */
  predicate InBounds(s: string, tag: string, m: BlockMatch) {
    AttrsStart(tag, m) <= m.tagEnd < m.closeAt <= BlockEnd(tag, m) <= |s|
  }

  /** Capture group 1. */
  function Attrs(s: string, tag: string, m: BlockMatch): string
    requires InBounds(s, tag, m)
  {
    s[AttrsStart(tag, m)..m.tagEnd]
  }

  /** Capture group 3. */
  function Body(s: string, tag: string, m: BlockMatch): string
    requires InBounds(s, tag, m)
  {
    s[m.tagEnd + 1..m.closeAt]
  }

  /** The whole match, capture group 0. */
  function BlockText(s: string, tag: string, m: BlockMatch): string
    requires InBounds(s, tag, m)
  {
    s[m.start..BlockEnd(tag, m)]
  }

  /** No `c` in `s[a..b]`. */
  predicate NoCharIn(s: string, c: char, a: int, b: int) {
    forall j :: a <= j < b && 0 <= j < |s| ==> s[j] != c
  }

  /** No occurrence of `pat` starts in `[a, b)`. */
  predicate NoOccurrenceIn(s: string, pat: string, a: int, b: int) {
    forall j: nat :: a <= j < b ==> !StartsAt(s, pat, j)
  }

  /** The block pattern matches `s` at `m.start` with these captures:
      `<tag`, then `>` or a whitespace character (`(\s[^>\s]*)*` is empty
      or starts with one), then the attribute run up to the first `>`
      (`(\s[^>\s]*)*` holds no `>`), then the body up to the first closing
      tag (the lazy `[\S\s.]*?`), then `</tag>`. */
  ghost predicate IsBlockAt(s: string, tag: string, m: BlockMatch) {
    && TagsAt(s, tag, m)
    && NoCharIn(s, '>', AttrsStart(tag, m), m.tagEnd)
    && NoOccurrenceIn(s, CloseTag(tag), m.tagEnd + 1, m.closeAt)
  }

  /** The fixed characters of a match stand where `m` says. */
  ghost predicate TagsAt(s: string, tag: string, m: BlockMatch) {
    InBounds(s, tag, m) && TagTexts(s, tag, m) && TagChars(s, tag, m)
  }

  /** The opening tag name and the closing tag stand where `m` says. */
  ghost predicate TagTexts(s: string, tag: string, m: BlockMatch) {
    StartsAt(s, OpenTag(tag), m.start) && StartsAt(s, CloseTag(tag), m.closeAt)
  }

  /** The tag name is followed by `>` or whitespace, and the opening tag ends
      with `>` at `tagEnd`. */
  ghost predicate TagChars(s: string, tag: string, m: BlockMatch)
    requires InBounds(s, tag, m)
  {
    var k := AttrsStart(tag, m);
    (s[k] == '>' || IsSpace(s[k])) && s[m.tagEnd] == '>'
  }

  /** The match of the block pattern that starts exactly at `i`, if any. */
  function MatchAt(s: string, tag: string, i: nat): (r: Option<BlockMatch>)
    requires i <= |s|
    ensures r.Some? ==> r.value.start == i && IsBlockAt(s, tag, r.value)
  {
    var k := i + |OpenTag(tag)|;
    if !StartsAt(s, OpenTag(tag), i) || k == |s| || (s[k] != '>' && !IsSpace(s[k])) then None
    else MatchTail(s, tag, i)
  }

  /** The rest of a match once its opening tag is found at `i`: the first
      `>` ends the attributes, the first closing tag after it ends the
      body. */
  function MatchTail(s: string, tag: string, i: nat): (r: Option<BlockMatch>)
    requires i + |OpenTag(tag)| < |s|
    ensures r.Some? ==> var m := r.value;
      && m.start == i && AttrsStart(tag, m) <= m.tagEnd < m.closeAt && BlockEnd(tag, m) <= |s|
      && s[m.tagEnd] == '>' && StartsAt(s, CloseTag(tag), m.closeAt)
      && NoCharIn(s, '>', AttrsStart(tag, m), m.tagEnd)
      && NoOccurrenceIn(s, CloseTag(tag), m.tagEnd + 1, m.closeAt)
  {
    match IndexOfChar(s, '>', i + |OpenTag(tag)|)
    case None => None
    case Some(g) =>
      match IndexOfFrom(s, CloseTag(tag), g + 1)
      case None => None
      case Some(e) => Some(BlockMatch(i, g, e))
  }

  /** MatchTail finds the scans of every match. */
  lemma MatchTailComplete(s: string, tag: string, m: BlockMatch)
    requires AttrsStart(tag, m) <= m.tagEnd < m.closeAt && BlockEnd(tag, m) <= |s|
    requires s[m.tagEnd] == '>' && StartsAt(s, CloseTag(tag), m.closeAt)
    requires NoCharIn(s, '>', AttrsStart(tag, m), m.tagEnd)
    requires NoOccurrenceIn(s, CloseTag(tag), m.tagEnd + 1, m.closeAt)
    ensures MatchTail(s, tag, m.start) == Some(m)
  {
    IndexOfCharIs(s, '>', AttrsStart(tag, m), m.tagEnd);
    IndexOfFromIs(s, CloseTag(tag), m.tagEnd + 1, m.closeAt);
  }

  /** MatchAt misses no match. */
  lemma MatchAtComplete(s: string, tag: string, m: BlockMatch)
    requires IsBlockAt(s, tag, m)
    ensures MatchAt(s, tag, m.start) == Some(m)
  {
    var k := AttrsStart(tag, m);
    assert TagsAt(s, tag, m);
    assert StartsAt(s, OpenTag(tag), m.start) && k < |s| && (s[k] == '>' || IsSpace(s[k]));
    MatchTailComplete(s, tag, m);
  }

  lemma MatchAtNone(s: string, tag: string, i: nat)
    requires i <= |s| && MatchAt(s, tag, i).None?
    ensures forall g, e :: !IsBlockAt(s, tag, BlockMatch(i, g, e))
  {
    forall g, e | IsBlockAt(s, tag, BlockMatch(i, g, e)) ensures false {
      MatchAtComplete(s, tag, BlockMatch(i, g, e));
    }
  }

  /** At most one match starts at a given position. */
  lemma MatchUnique(s: string, tag: string, m1: BlockMatch, m2: BlockMatch)
    requires IsBlockAt(s, tag, m1) && IsBlockAt(s, tag, m2) && m1.start == m2.start
    ensures m1 == m2
  {
    MatchAtComplete(s, tag, m1);
    MatchAtComplete(s, tag, m2);
  }

  /** The leftmost match that starts at or after `i`: how the regex engine
      searches. */
  function FirstMatchFrom(s: string, tag: string, i: nat): (r: Option<BlockMatch>)
    requires i <= |s|
    decreases |s| - i
    ensures r.Some? ==> i <= r.value.start && IsBlockAt(s, tag, r.value)
    ensures r.Some? ==> forall q: nat, g, e :: i <= q < r.value.start ==> !IsBlockAt(s, tag, BlockMatch(q, g, e))
    ensures r.None? ==> forall q: nat, g, e :: i <= q ==> !IsBlockAt(s, tag, BlockMatch(q, g, e))
  {
    match MatchAt(s, tag, i)
    case Some(m) => Some(m)
    case None =>
      MatchAtNone(s, tag, i);
      if i == |s| then None
      else
        var r := FirstMatchFrom(s, tag, i + 1);
        ExtendNoMatch(s, tag, i, r);
        r
  }

  /** No match at `i` extends what the search from `i + 1` found to the
      search from `i`. */
  lemma ExtendNoMatch(s: string, tag: string, i: nat, r: Option<BlockMatch>)
    requires forall g, e :: !IsBlockAt(s, tag, BlockMatch(i, g, e))
    requires r.Some? ==> forall q: nat, g, e :: i + 1 <= q < r.value.start ==> !IsBlockAt(s, tag, BlockMatch(q, g, e))
    requires r.None? ==> forall q: nat, g, e :: i + 1 <= q ==> !IsBlockAt(s, tag, BlockMatch(q, g, e))
    ensures r.Some? ==> forall q: nat, g, e :: i <= q < r.value.start ==> !IsBlockAt(s, tag, BlockMatch(q, g, e))
    ensures r.None? ==> forall q: nat, g, e :: i <= q ==> !IsBlockAt(s, tag, BlockMatch(q, g, e))
  {
  }

  /** `[...s.matchAll(re)]` for the global block pattern: each search
      resumes where the previous match ended. */
  function AllMatchesFrom(s: string, tag: string, i: nat): (ms: seq<BlockMatch>)
    requires i <= |s|
    decreases |s| - i
    ensures forall k :: 0 <= k < |ms| ==> i <= ms[k].start && IsBlockAt(s, tag, ms[k])
    ensures forall k :: 0 < k < |ms| ==> BlockEnd(tag, ms[k - 1]) <= ms[k].start
    ensures ms == [] ==> forall q: nat, g, e :: i <= q ==> !IsBlockAt(s, tag, BlockMatch(q, g, e))
    ensures ms != [] ==> forall q: nat, g, e :: i <= q < ms[0].start ==> !IsBlockAt(s, tag, BlockMatch(q, g, e))
  {
    match FirstMatchFrom(s, tag, i)
    case None => []
    case Some(m) =>
      var rest := AllMatchesFrom(s, tag, BlockEnd(tag, m));
      ConsMatches(s, tag, i, m, rest);
      [m] + rest
  }

  /** Putting the leftmost match from `i` in front of the matches after it
      keeps the matches in order and apart. */
  lemma ConsMatches(s: string, tag: string, i: nat, m: BlockMatch, rest: seq<BlockMatch>)
    requires i <= m.start && IsBlockAt(s, tag, m)
    requires forall k :: 0 <= k < |rest| ==> BlockEnd(tag, m) <= rest[k].start && IsBlockAt(s, tag, rest[k])
    requires forall k :: 0 < k < |rest| ==> BlockEnd(tag, rest[k - 1]) <= rest[k].start
    ensures var ms := [m] + rest;
      && (forall k :: 0 <= k < |ms| ==> i <= ms[k].start && IsBlockAt(s, tag, ms[k]))
      && (forall k :: 0 < k < |ms| ==> BlockEnd(tag, ms[k - 1]) <= ms[k].start)
  {
    var ms := [m] + rest;
    assert forall k :: 0 < k < |ms| ==> ms[k] == rest[k - 1];
  }

  function AllMatches(s: string, tag: string): seq<BlockMatch> {
    AllMatchesFrom(s, tag, 0)
  }

  /** A match with no match starting before it is the first one `matchAll`
      reports. */
  lemma FirstMatchIs(s: string, tag: string, m: BlockMatch)
    requires IsBlockAt(s, tag, m)
    requires forall q: nat, g, e :: q < m.start ==> !IsBlockAt(s, tag, BlockMatch(q, g, e))
    ensures AllMatches(s, tag) != [] && AllMatches(s, tag)[0] == m
  {
    var ms := AllMatches(s, tag);
    assert ms != [];
    assert ms[0].start == m.start by {
      assert !IsBlockAt(s, tag, BlockMatch(m.start, m.tagEnd, m.closeAt)) || !(m.start < ms[0].start);
    }
    MatchUnique(s, tag, ms[0], m);
  }

  /** Two opening tags do not overlap when the tag name holds no `<`. */
  lemma OpenTagsApart(s: string, tag: string, p: nat, q: nat)
    requires '<' !in tag
    requires StartsAt(s, OpenTag(tag), p) && StartsAt(s, OpenTag(tag), q) && p < q
    ensures p + |OpenTag(tag)| <= q
  {
    var o := OpenTag(tag);
    assert s[q] == '<' by {
      assert s[q..q + |o|][0] == s[q];
    }
    forall j | p < j < p + |o| ensures s[j] != '<' {
      assert s[j] == s[p..p + |o|][j - p] == tag[j - p - 1];
    }
  }

  /** Of two matches, the one that starts first does not end later, as long
      as the tag name holds no `<`: the opening tags cannot overlap, the
      attribute run stops at the first `>` and the body at the first
      closing tag. */
  lemma EarlierMatchEndsFirst(s: string, tag: string, f: BlockMatch, m: BlockMatch)
    requires '<' !in tag
    requires IsBlockAt(s, tag, f) && IsBlockAt(s, tag, m) && f.start <= m.start
    ensures BlockEnd(tag, f) <= BlockEnd(tag, m)
  {
    if f.start == m.start {
      MatchUnique(s, tag, f, m);
    } else {
      OpenTagsApart(s, tag, f.start, m.start);
      assert f.tagEnd <= m.tagEnd;
      assert f.closeAt <= m.closeAt;
    }
  }

  /** Two matches that do not overlap make `matchAll` report at least two. */
  lemma TwoBlocksTwoMatches(s: string, tag: string, m1: BlockMatch, m2: BlockMatch)
    requires '<' !in tag
    requires IsBlockAt(s, tag, m1) && IsBlockAt(s, tag, m2) && BlockEnd(tag, m1) <= m2.start
    ensures |AllMatches(s, tag)| >= 2
  {
    var f := FirstMatchFrom(s, tag, 0);
    assert f.Some?;
    EarlierMatchEndsFirst(s, tag, f.value, m1);
    assert AllMatches(s, tag) == [f.value] + AllMatchesFrom(s, tag, BlockEnd(tag, f.value));
    assert AllMatchesFrom(s, tag, BlockEnd(tag, f.value)) != [];
  }

  /** The whole match is the opening tag, the attributes, `>`, the body and
      the closing tag. */
  lemma BlockTextParts(s: string, tag: string, m: BlockMatch)
    requires TagsAt(s, tag, m)
    ensures BlockText(s, tag, m) == OpenTag(tag) + Attrs(s, tag, m) + ">" + Body(s, tag, m) + CloseTag(tag)
  {
    var i, k, g, e, end := m.start, AttrsStart(tag, m), m.tagEnd, m.closeAt, BlockEnd(tag, m);
    assert s[i..k] == OpenTag(tag) && s[e..end] == CloseTag(tag);
    assert s[g..g + 1] == ">";
    SplitAt(s, i, k, g);
    SplitAt(s, i, g, g + 1);
    SplitAt(s, i, g + 1, e);
    SplitAt(s, i, e, end);
  }

  /** The windows of `s` at `p` and at `q` agree at offset `t`. */
  predicate WinEq(s: string, p: nat, q: nat, t: nat) {
    p + t < |s| && q + t < |s| && s[p + t] == s[q + t]
  }

  /** The `n` characters at `p` are the `n` characters at `q`. */
  ghost predicate SameWindow(s: string, p: nat, q: nat, n: nat) {
    p + n <= |s| && q + n <= |s| && forall t: nat :: t < n ==> WinEq(s, p, q, t)
  }

  lemma WindowOf(s: string, p: nat, q: nat, n: nat)
    requires p + n <= |s| && q + n <= |s| && s[p..p + n] == s[q..q + n]
    ensures SameWindow(s, p, q, n)
  {
    forall t: nat | t < n ensures WinEq(s, p, q, t) {
      assert s[p + t] == s[p..p + n][t];
      assert s[q + t] == s[q..q + n][t];
    }
  }

  /** Two equal windows agree on characters and on occurrences. */
  lemma ShiftChar(s: string, p: nat, q: nat, n: nat, t: nat)
    requires SameWindow(s, p, q, n) && t < n
    ensures s[p + t] == s[q + t]
  {
    assert WinEq(s, p, q, t);
  }

  lemma ShiftStartsAt(s: string, p: nat, q: nat, n: nat, pat: string, t: nat)
    requires SameWindow(s, p, q, n) && t + |pat| <= n
    ensures StartsAt(s, pat, p + t) == StartsAt(s, pat, q + t)
  {
    var x, y := s[p + t..p + t + |pat|], s[q + t..q + t + |pat|];
    forall i | 0 <= i < |pat| ensures x[i] == y[i] {
      assert WinEq(s, p, q, t + i);
    }
    assert x == y;
  }

  /** A character absent from a stretch of one window is absent from the
      same stretch of an equal window. */
  lemma ShiftNoChar(s: string, p: nat, q: nat, n: nat, a: nat, b: nat, c: char)
    requires SameWindow(s, p, q, n) && a <= b <= n
    requires NoCharIn(s, c, p + a, p + b)
    ensures NoCharIn(s, c, q + a, q + b)
  {
    forall j | q + a <= j < q + b ensures s[j] != c {
      ShiftChar(s, p, q, n, j - q);
      assert s[p + (j - q)] != c;
    }
  }

  /** Likewise for occurrences of a pattern that fit inside the window. */
  lemma ShiftNoOccurrence(s: string, p: nat, q: nat, n: nat, a: nat, b: nat, pat: string)
    requires SameWindow(s, p, q, n) && a <= b && b + |pat| <= n
    requires NoOccurrenceIn(s, pat, p + a, p + b)
    ensures NoOccurrenceIn(s, pat, q + a, q + b)
  {
    forall j | q + a <= j < q + b ensures !StartsAt(s, pat, j) {
      ShiftStartsAt(s, p, q, n, pat, j - q);
      assert !StartsAt(s, pat, p + (j - q));
    }
  }

  /** `m` moved to start at `q`. */
  function MovedTo(m: BlockMatch, q: nat): BlockMatch
    requires m.start <= m.tagEnd <= m.closeAt
  {
    BlockMatch(q, q + (m.tagEnd - m.start), q + (m.closeAt - m.start))
  }

  /** The character after the tag name and the `>` that ends the opening
      tag, found again in a window that reappears at `q`. */
  lemma CharsShift(s: string, p: nat, q: nat, n: nat, k: nat, g: nat)
    requires SameWindow(s, p, q, n) && k < n && g < n
    requires (s[p + k] == '>' || IsSpace(s[p + k])) && s[p + g] == '>'
    ensures (s[q + k] == '>' || IsSpace(s[q + k])) && s[q + g] == '>'
  {
    ShiftChar(s, p, q, n, k);
    ShiftChar(s, p, q, n, g);
  }

  /** The tag texts of a match whose window reappears at `q`. */
  lemma TagTextsShift(s: string, tag: string, m: BlockMatch, q: nat, n: nat)
    requires InBounds(s, tag, m) && TagTexts(s, tag, m) && n == BlockEnd(tag, m) - m.start
    requires SameWindow(s, m.start, q, n)
    ensures InBounds(s, tag, MovedTo(m, q)) && TagTexts(s, tag, MovedTo(m, q))
  {
    var p := m.start;
    ShiftStartsAt(s, p, q, n, OpenTag(tag), 0);
    ShiftStartsAt(s, p, q, n, CloseTag(tag), m.closeAt - p);
  }

  /** The tag characters of a match whose window reappears at `q`. */
  lemma TagCharsShift(s: string, tag: string, m: BlockMatch, q: nat, n: nat)
    requires InBounds(s, tag, m) && TagChars(s, tag, m) && n == BlockEnd(tag, m) - m.start
    requires SameWindow(s, m.start, q, n)
    ensures InBounds(s, tag, MovedTo(m, q)) && TagChars(s, tag, MovedTo(m, q))
  {
    CharsShift(s, m.start, q, n, |OpenTag(tag)|, m.tagEnd - m.start);
  }

  /** A match whose window of `n` characters reappears at `q` reappears as a
      match at `q`, as far as its fixed characters go. */
  lemma TagsShiftWindow(s: string, tag: string, m: BlockMatch, q: nat, n: nat)
    requires TagsAt(s, tag, m) && n == BlockEnd(tag, m) - m.start
    requires SameWindow(s, m.start, q, n)
    ensures TagsAt(s, tag, MovedTo(m, q))
  {
    TagTextsShift(s, tag, m, q, n);
    TagCharsShift(s, tag, m, q, n);
  }

  lemma MatchShiftWindow(s: string, tag: string, m: BlockMatch, q: nat, n: nat)
    requires IsBlockAt(s, tag, m) && n == BlockEnd(tag, m) - m.start
    requires SameWindow(s, m.start, q, n)
    ensures IsBlockAt(s, tag, MovedTo(m, q))
  {
    var p := m.start;
    var k, g, e := |OpenTag(tag)|, m.tagEnd - p, m.closeAt - p;
    TagsShiftWindow(s, tag, m, q, n);
    ShiftNoChar(s, p, q, n, k, g, '>');
    ShiftNoOccurrence(s, p, q, n, g + 1, e, CloseTag(tag));
  }

  /** A copy of a match's text elsewhere in the document is a match too. */
  lemma MatchShift(s: string, tag: string, m: BlockMatch, q: nat)
    requires IsBlockAt(s, tag, m)
    requires StartsAt(s, BlockText(s, tag, m), q)
    ensures IsBlockAt(s, tag, MovedTo(m, q))
  {
    var n := BlockEnd(tag, m) - m.start;
    WindowOf(s, m.start, q, n);
    MatchShiftWindow(s, tag, m, q, n);
  }

  /** The first occurrence of the first match's text is the match itself. */
  lemma FirstOccurrenceIsFirstMatch(s: string, tag: string)
    requires AllMatches(s, tag) != []
    ensures var m := AllMatches(s, tag)[0];
      && StartsAt(s, BlockText(s, tag, m), m.start)
      && forall q: nat :: q < m.start ==> !StartsAt(s, BlockText(s, tag, m), q)
  {
    var m := AllMatches(s, tag)[0];
    forall q: nat | q < m.start ensures !StartsAt(s, BlockText(s, tag, m), q) {
      if StartsAt(s, BlockText(s, tag, m), q) {
        MatchShift(s, tag, m, q);
        assert false;
      }
    }
  }

  /** The same for a match known to be the leftmost one. */
  lemma LeftmostMatchFirstOccurrence(s: string, tag: string, m: BlockMatch)
    requires IsBlockAt(s, tag, m)
    requires forall q: nat, g, e :: q < m.start ==> !IsBlockAt(s, tag, BlockMatch(q, g, e))
    ensures StartsAt(s, BlockText(s, tag, m), m.start)
    ensures forall q: nat :: q < m.start ==> !StartsAt(s, BlockText(s, tag, m), q)
  {
    FirstMatchIs(s, tag, m);
    FirstOccurrenceIsFirstMatch(s, tag);
  }

  /** `s.replace(block, rep)`, with `block` the first match's text, rewrites
      the document at the match and nowhere else. */
  lemma ReplaceFirstMatch(s: string, tag: string, rep: string)
    requires AllMatches(s, tag) != []
    ensures var m := AllMatches(s, tag)[0];
      ReplaceFirst(s, BlockText(s, tag, m), rep) == s[..m.start] + rep + s[BlockEnd(tag, m)..]
  {
    var m := AllMatches(s, tag)[0];
    FirstOccurrenceIsFirstMatch(s, tag);
    ReplaceFirstAt(s, BlockText(s, tag, m), rep, m.start);
  }

  // ---------------------------------------------------------------------
  // The language attribute
  // ---------------------------------------------------------------------

  /** `[a-z]*` */
  predicate AllLower(l: string) {
    forall i :: 0 <= i < |l| ==> IsLower(l[i])
  }

  const LangOpen: string := "lang=\""

  /** The literal text `lang="<l>"`. */
  function LangPattern(l: string): string {
    LangOpen + l + "\""
  }

  /** The pattern `lang="([a-z]*)"` matches at `i`, capturing `l`. */
  ghost predicate IsLangAt(a: string, i: nat, l: string) {
    AllLower(l) && StartsAt(a, LangPattern(l), i)
  }

  /** Where the run of lower-case letters that starts at `j` ends. */
  function LowerRunEnd(a: string, j: nat): (e: nat)
    requires j <= |a|
    decreases |a| - j
    ensures j <= e <= |a| && AllLower(a[j..e])
    ensures e < |a| ==> !IsLower(a[e])
  {
    if j == |a| || !IsLower(a[j]) then j
    else
      var e := LowerRunEnd(a, j + 1);
      assert a[j..e] == [a[j]] + a[j + 1..e];
      e
  }

  /** The capture of `lang="([a-z]*)"` when the pattern matches at `i`. */
  function LangAt(a: string, i: nat): (r: Option<string>)
    ensures r.Some? ==> IsLangAt(a, i, r.value)
  {
    if !StartsAt(a, LangOpen, i) then None
    else
      var j := i + |LangOpen|;
      var e := LowerRunEnd(a, j);
      if e < |a| && a[e] == '"' then
        var l := a[j..e];
        assert a[i..e + 1] == a[i..j] + l + [a[e]];
        Some(l)
      else None
  }

  /** LangAt misses no match. */
  lemma LangAtComplete(a: string, i: nat, l: string)
    requires IsLangAt(a, i, l)
    ensures LangAt(a, i) == Some(l)
  {
    var j, n := i + |LangOpen|, |LangPattern(l)|;
    var w := a[i..i + n];
    assert StartsAt(a, LangOpen, i) by {
      SubSlice(a, i, n, 0, |LangOpen|);
      assert w[0..|LangOpen|] == LangOpen;
    }
    assert a[j..j + |l|] == l by {
      SubSlice(a, i, n, |LangOpen|, |LangOpen| + |l|);
      assert w[|LangOpen|..|LangOpen| + |l|] == l;
    }
    assert a[j + |l|] == '"' by {
      assert a[j + |l|] == w[|LangOpen| + |l|];
    }
  }

  /** The pattern captures at most one value at a given position. */
  lemma LangUnique(a: string, i: nat, l1: string, l2: string)
    requires IsLangAt(a, i, l1) && IsLangAt(a, i, l2)
    ensures l1 == l2
  {
    LangAtComplete(a, i, l1);
    LangAtComplete(a, i, l2);
  }

  /** Where the pattern matched and what it captured. */
  datatype LangAttr = LangAttr(at: nat, value: string)

  /** The leftmost match of `lang="([a-z]*)"` at or after `i`. */
  function FindLangFrom(a: string, i: nat): (r: Option<LangAttr>)
    requires i <= |a|
    decreases |a| - i
    ensures r.Some? ==> i <= r.value.at && IsLangAt(a, r.value.at, r.value.value)
    ensures r.Some? ==> forall q: nat, l :: i <= q < r.value.at ==> !IsLangAt(a, q, l)
    ensures r.None? ==> forall q: nat, l :: i <= q ==> !IsLangAt(a, q, l)
  {
    match LangAt(a, i)
    case Some(l) => Some(LangAttr(i, l))
    case None =>
      assert forall l :: !IsLangAt(a, i, l) by {
        forall l | IsLangAt(a, i, l) ensures false {
          LangAtComplete(a, i, l);
        }
      }
      if i == |a| then None else FindLangFrom(a, i + 1)
  }

  /** `attributes.match(/lang="([a-z]*)"/)`. */
  function FindLang(a: string): Option<LangAttr> {
    FindLangFrom(a, 0)
  }

  /** FindLang stops at the leftmost match. */
  lemma FindLangIs(a: string, q: nat, l: string)
    requires IsLangAt(a, q, l)
    requires forall p: nat, l' :: p < q ==> !IsLangAt(a, p, l')
    ensures FindLang(a) == Some(LangAttr(q, l))
  {
    var la := FindLang(a).value;
    LangUnique(a, q, la.value, l);
  }

  // ---------------------------------------------------------------------
  // Exclusion patterns
  // ---------------------------------------------------------------------

  /** A `\w` character just before position `p`. */
  predicate WordBefore(a: string, p: nat) {
    0 < p <= |a| && IsWordChar(a[p - 1])
  }

  /** A `\w` character at position `p`. */
  predicate WordAfter(a: string, p: nat) {
    p < |a| && IsWordChar(a[p])
  }

  /** `\b` holds at position `p`. */
  predicate Boundary(a: string, p: nat) {
    WordBefore(a, p) != WordAfter(a, p)
  }

  /** The pattern `\b<w>\b` matches at `p`. */
  ghost predicate IsWordAt(a: string, w: string, p: nat) {
    StartsAt(a, w, p) && Boundary(a, p) && Boundary(a, p + |w|)
  }

  /** `/\b<w>\b/.test(a)`, scanning from `i`. */
  function ContainsWordFrom(a: string, w: string, i: nat): (r: bool)
    requires i <= |a|
    decreases |a| - i
    ensures r <==> exists p: nat :: i <= p && IsWordAt(a, w, p)
  {
    if StartsAt(a, w, i) && Boundary(a, i) && Boundary(a, i + |w|) then
      assert IsWordAt(a, w, i);
      true
    else if i == |a| then
      assert forall p: nat :: i <= p ==> !IsWordAt(a, w, p) by {
        forall p: nat | i < p ensures !StartsAt(a, w, p) { }
      }
      false
    else ContainsWordFrom(a, w, i + 1)
  }

  function ContainsWord(a: string, w: string): bool {
    ContainsWordFrom(a, w, 0)
  }

  /** `exclude.some((re) => re.test(a))`, each pattern being `\b<word>\b`. */
  function AnyWord(words: seq<string>, a: string): (r: bool)
    ensures r <==> exists k, p: nat :: 0 <= k < |words| && IsWordAt(a, words[k], p)
  {
    if words == [] then false
    else if ContainsWord(a, words[0]) then true
    else
      var r := AnyWord(words[1..], a);
      assert forall k :: 0 < k < |words| ==> words[k] == words[1..][k - 1];
      r
  }

  // ---------------------------------------------------------------------
  // Removing the language attribute
  // ---------------------------------------------------------------------

  /** The length of the match of `\s?<pat>` at `p`, trying the whitespace
      first as the greedy `?` does. */
  function OptSpaceMatchAt(a: string, pat: string, p: nat): Option<nat> {
    if p < |a| && IsSpace(a[p]) && StartsAt(a, pat, p + 1) then Some(|pat| + 1)
    else if StartsAt(a, pat, p) then Some(|pat|)
    else None
  }

  /** Where a removed stretch starts and how long it is. */
  datatype Span = Span(at: nat, len: nat)

  /** The leftmost match of `\s?<pat>` at or after `i`. */
  function FirstOptSpaceFrom(a: string, pat: string, i: nat): (r: Option<Span>)
    requires i <= |a|
    decreases |a| - i
    ensures r.Some? ==> i <= r.value.at && OptSpaceMatchAt(a, pat, r.value.at) == Some(r.value.len)
    ensures r.Some? ==> forall q: nat :: i <= q < r.value.at ==> OptSpaceMatchAt(a, pat, q).None?
    ensures r.None? ==> forall q: nat :: i <= q <= |a| ==> OptSpaceMatchAt(a, pat, q).None?
  {
    match OptSpaceMatchAt(a, pat, i)
    case Some(n) => Some(Span(i, n))
    case None => if i == |a| then None else FirstOptSpaceFrom(a, pat, i + 1)
  }

  /** `a.replace(new RegExp(`\\s?${pat}`), "")` for a `pat` free of regular
      expression syntax. */
  function RemoveOptSpace(a: string, pat: string): (r: string)
    ensures FirstOptSpaceFrom(a, pat, 0).None? ==> r == a
    ensures FirstOptSpaceFrom(a, pat, 0).Some? ==>
      var sp := FirstOptSpaceFrom(a, pat, 0).value;
      sp.at + sp.len <= |a| && r == a[..sp.at] + a[sp.at + sp.len..]
  {
    match FirstOptSpaceFrom(a, pat, 0)
    case None => a
    case Some(sp) => a[..sp.at] + a[sp.at + sp.len..]
  }

  /** The scan stops at the first position where the pattern matches. */
  lemma {:induction false} FirstOptSpaceIs(a: string, pat: string, i: nat, sp: Span)
    requires i <= sp.at <= |a| && OptSpaceMatchAt(a, pat, sp.at) == Some(sp.len)
    requires forall q: nat :: i <= q < sp.at ==> OptSpaceMatchAt(a, pat, q).None?
    decreases |a| - i
    ensures FirstOptSpaceFrom(a, pat, i) == Some(sp)
  {
    if i < sp.at {
      FirstOptSpaceIs(a, pat, i + 1, sp);
    }
  }

  /** Before the first occurrence of `pat` at `q`, `\s?pat` can match only
      at `q - 1`, and only when a whitespace character stands there. */
  lemma NoOptSpaceBefore(a: string, pat: string, q: nat, at: nat)
    requires at <= q <= |a|
    requires forall p: nat :: p < q ==> !StartsAt(a, pat, p)
    requires at == q && q > 0 ==> !IsSpace(a[q - 1])
    ensures forall p: nat :: p < at ==> OptSpaceMatchAt(a, pat, p).None?
  {
  }

  /** Removing `\s?lang="<l>"`, with `l` the value the lang attribute
      captured, takes out exactly the first lang attribute together with the
      whitespace character before it, if there is one. */
  lemma LangRemovalFound(a: string)
    requires FindLang(a).Some?
    ensures var la := FindLang(a).value;
      var q := la.at;
      var end := q + |LangPattern(la.value)|;
      var q' := if q > 0 && IsSpace(a[q - 1]) then q - 1 else q;
      end <= |a| && RemoveOptSpace(a, LangPattern(la.value)) == a[..q'] + a[end..]
  {
    var la := FindLang(a).value;
    var pat, q := LangPattern(la.value), la.at;
    assert StartsAt(a, pat, q);
    assert a[q] == 'l' by {
      assert a[q] == a[q..q + |pat|][0];
    }
    var sp := if q > 0 && IsSpace(a[q - 1]) then Span(q - 1, |pat| + 1) else Span(q, |pat|);
    forall p: nat | p < q ensures !StartsAt(a, pat, p) {
      assert !IsLangAt(a, p, la.value);
    }
    NoOptSpaceBefore(a, pat, q, sp.at);
    FirstOptSpaceIs(a, pat, 0, sp);
  }

  /** When the attributes hold no lang attribute, removing the attribute for
      a default language made of `[a-z]` letters changes nothing. */
  lemma LangRemovalNone(a: string, fallback: string)
    requires AllLower(fallback) && FindLang(a).None?
    ensures RemoveOptSpace(a, LangPattern(fallback)) == a
  {
    var pat := LangPattern(fallback);
    forall q: nat | q <= |a| ensures OptSpaceMatchAt(a, pat, q).None? {
      assert !IsLangAt(a, q, fallback) && !IsLangAt(a, q + 1, fallback);
    }
  }
}
