/** `String.prototype.replace` with a string pattern, as ECMAScript defines
    it: the replacement text is not inserted literally but passed through
    the GetSubstitution operation, which expands `$$`, `$&`, `` $` `` and
    `$'`. A string pattern has no capture groups, so `$1` or `$<name>`
    stay as they are.

    The block rewrite (src/loaders/vue.ts:105-112) hands the compiled block
    to this operation as the replacement text; this module shows what that
    does to compiled text holding a `$` pattern. The rest of the model
    splices literally, with Text.ReplaceFirst. */
module Replacement {
  import opened Wrappers
  import opened Text

  /** True when `rep` holds no `$`. */
  predicate NoDollar(rep: string) {
    forall k :: 0 <= k < |rep| ==> rep[k] != '$'
  }

  /** GetSubstitution for a match of `matched`, with `before` the text in
      front of the match and `after` the text behind it. */
  function Substitute(rep: string, matched: string, before: string, after: string): (r: string)
    decreases |rep|
    ensures NoDollar(rep) ==> r == rep
  {
    if rep == [] then []
    else if rep[0] == '$' && |rep| >= 2 && rep[1] == '$' then "$" + Substitute(rep[2..], matched, before, after)
    else if rep[0] == '$' && |rep| >= 2 && rep[1] == '&' then matched + Substitute(rep[2..], matched, before, after)
    else if rep[0] == '$' && |rep| >= 2 && rep[1] == '`' then before + Substitute(rep[2..], matched, before, after)
    else if rep[0] == '$' && |rep| >= 2 && rep[1] == '\'' then after + Substitute(rep[2..], matched, before, after)
    else
      assert NoDollar(rep) ==> NoDollar(rep[1..]);
      [rep[0]] + Substitute(rep[1..], matched, before, after)
  }

  /** `s.replace(pat, rep)`: the first occurrence of `pat` gives way to the
      substituted replacement text. */
  function JsReplace(s: string, pat: string, rep: string): (r: string)
    ensures NoDollar(rep) ==> r == ReplaceFirst(s, pat, rep)
  {
    match IndexOfFrom(s, pat, 0)
    case None => s
    case Some(j) => s[..j] + Substitute(rep, pat, s[..j], s[j + |pat|..]) + s[j + |pat|..]
  }

  /** A character other than `$` is copied as it is. */
  lemma SubstituteLiteralHead(c: char, t: string, matched: string, before: string, after: string)
    requires c != '$'
    ensures Substitute([c] + t, matched, before, after) == [c] + Substitute(t, matched, before, after)
  {
    var r := [c] + t;
    assert r[0] == c && r[1..] == t;
  }

  /** A non-empty text is its first character followed by the rest. */
  lemma ConsSplit(x: string, t: string)
    requires |x| > 0
    ensures x + t == [x[0]] + (x[1..] + t)
  {
    assert [x[0]] + x[1..] == x;
  }

  /** A `$`-free prefix of the replacement text is copied as it is. */
  lemma {:induction false} SubstituteLiteralPrefix(x: string, rest: string, matched: string, before: string, after: string)
    requires NoDollar(x)
    decreases |x|
    ensures Substitute(x + rest, matched, before, after) == x + Substitute(rest, matched, before, after)
  {
    if x == [] {
      assert x + rest == rest;
    } else {
      var tail := Substitute(rest, matched, before, after);
      ConsSplit(x, rest);
      ConsSplit(x, tail);
      SubstituteLiteralHead(x[0], x[1..] + rest, matched, before, after);
      assert NoDollar(x[1..]);
      SubstituteLiteralPrefix(x[1..], rest, matched, before, after);
    }
  }

  /** `$$` between two `$`-free texts comes out as a single `$`. */
  lemma SubstituteDollars(x: string, y: string, matched: string, before: string, after: string)
    requires NoDollar(x) && NoDollar(y)
    ensures Substitute(x + "$$" + y, matched, before, after) == x + "$" + y
  {
    var t := "$$" + y;
    assert x + "$$" + y == x + t;
    SubstituteLiteralPrefix(x, t, matched, before, after);
    assert |t| >= 2 && t[0] == '$' && t[1] == '$' && t[2..] == y;
    assert Substitute(t, matched, before, after) == "$" + Substitute(y, matched, before, after);
    assert x + ("$" + y) == x + "$" + y;
  }

  /** Replacing a whole text: the replacement is substituted with nothing
      before and nothing after the match. */
  lemma ReplaceWhole(s: string, rep: string)
    ensures JsReplace(s, s, rep) == Substitute(rep, s, [], [])
    ensures ReplaceFirst(s, s, rep) == rep
  {
    assert StartsAt(s, s, 0);
    IndexOfFromIs(s, s, 0, 0);
    assert s[..0] == [] && s[0 + |s|..] == [];
    var sub := Substitute(rep, s, [], []);
    assert JsReplace(s, s, rep) == [] + sub + [];
    assert [] + sub + [] == sub;
    assert ReplaceFirst(s, s, rep) == [] + rep + [];
    assert [] + rep + [] == rep;
  }

  /** `$$` in the replacement text comes out as a single `$`. When the
      document is exactly the block, a rewritten block `x$$y` (with no other
      `$`) comes out as `x$y` where the literal splice keeps `x$$y`: for
      `<script>x</script>` compiled to `$$`, x is `<script>\n` and y is
      `\n</script>`. */
  lemma WholeBlockDollars(block: string, x: string, y: string)
    requires NoDollar(x) && NoDollar(y)
    ensures JsReplace(block, block, x + "$$" + y) == x + "$" + y
    ensures ReplaceFirst(block, block, x + "$$" + y) == x + "$$" + y
  {
    ReplaceWhole(block, x + "$$" + y);
    SubstituteDollars(x, y, block, [], []);
  }
}
