/** `vueBlockLoader`: one block kind of a Vue single-file component is cut
    out of the document, compiled through the dispatcher and spliced back in
    compiled form. */
module BlockLoader {
  import opened Wrappers
  import opened Text
  import opened Patterns
  import opened Loader

  /** The options a block loader is built with. `exclude` lists the words
      `w` of the exclusion patterns `\bw\b`. */
  datatype BlockConfig = BlockConfig(
    tag: string,
    outputLang: string,
    validExtensions: seq<string>,
    exclude: seq<string>)

  /** `styleLoader` */
  const Style := BlockConfig("style", "css", [], [])

  /** `scriptLoader`: `<script setup>` blocks are left alone. */
  const Script := BlockConfig("script", "js", [".js", ".mjs"], ["setup"])

  /** An emitted file that can stand in for the block: its extension is the
      canonical output extension or one of the accepted ones. */
  predicate Usable(cfg: BlockConfig, f: OutFile) {
    f.extension.Some? && (f.extension.value == "." + cfg.outputLang || f.extension.value in cfg.validExtensions)
  }

  /** `j` is the index `files.find` stops at. */
  predicate FirstUsable(cfg: BlockConfig, files: seq<OutFile>, j: nat) {
    j < |files| && Usable(cfg, files[j]) && forall k :: 0 <= k < j ==> !Usable(cfg, files[k])
  }

  function FindOutputFrom(cfg: BlockConfig, files: seq<OutFile>, i: nat): (r: Option<nat>)
    requires i <= |files|
    decreases |files| - i
    ensures r.Some? ==> i <= r.value < |files| && Usable(cfg, files[r.value])
    ensures r.Some? ==> forall k :: i <= k < r.value ==> !Usable(cfg, files[k])
    ensures r.None? ==> forall k :: i <= k < |files| ==> !Usable(cfg, files[k])
  {
    if i == |files| then None
    else if Usable(cfg, files[i]) then Some(i)
    else FindOutputFrom(cfg, files, i + 1)
  }

  /** The index of the file `files.find` selects. */
  function FindOutput(cfg: BlockConfig, files: seq<OutFile>): (r: Option<nat>)
    ensures r.Some? ==> FirstUsable(cfg, files, r.value)
    ensures r.None? ==> forall k :: 0 <= k < |files| ==> !Usable(cfg, files[k])
  {
    FindOutputFrom(cfg, files, 0)
  }

  /** The language of a block: the value of its first `lang="…"` attribute,
      or the output language when it has none. */
  function ResolveLang(cfg: BlockConfig, attrs: string): (lang: string)
    ensures (forall q: nat, l :: !IsLangAt(attrs, q, l)) ==> lang == cfg.outputLang
    ensures (exists q: nat, l :: IsLangAt(attrs, q, l)) ==>
      exists q: nat :: IsLangAt(attrs, q, lang) && forall p: nat, l :: p < q ==> !IsLangAt(attrs, p, l)
  {
    match FindLang(attrs)
    case Some(la) => la.value
    case None => cfg.outputLang
  }

  /** `(await loadFile(…)) || []` */
  function Emitted(r: Option<seq<OutFile>>): seq<OutFile> {
    match r
    case Some(files) => files
    case None => []
  }

  /** The attributes of the rewritten opening tag: the first `lang="<lang>"`
      removed, with the whitespace character before it. */
  function NewAttrs(cfg: BlockConfig, attrs: string): string {
    RemoveOptSpace(attrs, LangPattern(ResolveLang(cfg, attrs)))
  }

  /** The files the dispatcher emits for block `m`: it is asked for
      `<path>.<lang>` and `<srcPath>.<lang>` with the block body verbatim. */
  function Dispatched(cfg: BlockConfig, input: InFile, loadFile: Dispatcher, m: BlockMatch): seq<OutFile>
    requires InBounds(input.contents, cfg.tag, m)
  {
    var lang := ResolveLang(cfg, Attrs(input.contents, cfg.tag, m));
    Emitted(loadFile(InFile(input.path + "." + lang, input.srcPath + "." + lang, "." + lang, Body(input.contents, cfg.tag, m))))
  }

  /** The compiled block: the opening tag keeps its other attributes, the
      selected contents are trimmed and sit on lines of their own. */
  function RewrittenBlock(tag: string, newAttrs: string, compiled: string): string {
    "<" + tag + newAttrs + ">\n" + Trim(compiled) + "\n</" + tag + ">"
  }

  /** The first match of the block pattern in `s`, if `matchAll` finds one. */
  function FirstBlock(s: string, tag: string): (r: Option<BlockMatch>)
    ensures r.Some? ==> IsBlockAt(s, tag, r.value)
    ensures r.Some? ==> forall q: nat, g, e :: q < r.value.start ==> !IsBlockAt(s, tag, BlockMatch(q, g, e))
    ensures r.None? ==> forall q: nat, g, e :: !IsBlockAt(s, tag, BlockMatch(q, g, e))
  {
    var ms := AllMatches(s, tag);
    if ms == [] then None else Some(ms[0])
  }

  /** The loader `vueBlockLoader(cfg)` applied to `input`, whose contents are
      the current document text. */
  function BlockLoad(cfg: BlockConfig, input: InFile, loadFile: Dispatcher): (r: Option<seq<OutFile>>)
    ensures r.Some? ==> |r.value| >= 1 && r.value[0].path == input.path && r.value[0].extension.None?
  {
    var ms := AllMatches(input.contents, cfg.tag);
    if ms == [] then None
    else if cfg.tag == "script" && |ms| > 1 then None
    else LoadMatch(cfg, input, loadFile, ms[0])
  }

  /** What the loader does once `matchAll` has found `m` first. */
  function LoadMatch(cfg: BlockConfig, input: InFile, loadFile: Dispatcher, m: BlockMatch): (r: Option<seq<OutFile>>)
    requires InBounds(input.contents, cfg.tag, m)
    ensures r.Some? ==> |r.value| >= 1 && r.value[0].path == input.path && r.value[0].extension.None?
  {
    var s, tag := input.contents, cfg.tag;
    var attrs, body := Attrs(s, tag, m), Body(s, tag, m);
    if body == "" then None
    else if AnyWord(cfg.exclude, attrs) then None
    else
      var files := Dispatched(cfg, input, loadFile, m);
      match FindOutput(cfg, files)
      case None => None
      case Some(j) => Some(Spliced(input, tag, m, Rewrite(cfg, s, m, files[j].contents), files, j))
  }

  /** The compiled form of block `m`, with `compiled` the selected file's
      contents. */
  function Rewrite(cfg: BlockConfig, s: string, m: BlockMatch, compiled: string): string
    requires InBounds(s, cfg.tag, m)
  {
    RewrittenBlock(cfg.tag, NewAttrs(cfg, Attrs(s, cfg.tag, m)), compiled)
  }

  /** The document with block `m` replaced by `rep`, followed by the emitted
      files other than the selected `files[j]`. */
  function Spliced(input: InFile, tag: string, m: BlockMatch, rep: string, files: seq<OutFile>, j: nat): seq<OutFile>
    requires InBounds(input.contents, tag, m) && j < |files|
  {
    var s := input.contents;
    [OutFile(input.path, ReplaceFirst(s, BlockText(s, tag, m), rep), None)] + files[..j] + files[j + 1..]
  }

  // ---------------------------------------------------------------------
  // When the loader does not apply
  // ---------------------------------------------------------------------

  /** A document without the block is not the loader's business. */
  lemma NoBlockNotApplicable(cfg: BlockConfig, input: InFile, loadFile: Dispatcher)
    requires forall q: nat, g, e :: !IsBlockAt(input.contents, cfg.tag, BlockMatch(q, g, e))
    ensures BlockLoad(cfg, input, loadFile).None?
  {
    assert FirstBlock(input.contents, cfg.tag).None?;
  }

  /** Two script blocks one after the other make the script loader step
      aside. */
  lemma TwoScriptsNotApplicable(input: InFile, loadFile: Dispatcher, m1: BlockMatch, m2: BlockMatch)
    requires IsBlockAt(input.contents, "script", m1) && IsBlockAt(input.contents, "script", m2)
    requires BlockEnd("script", m1) <= m2.start
    ensures BlockLoad(Script, input, loadFile).None?
  {
    TwoBlocksTwoMatches(input.contents, "script", m1, m2);
  }

  /** A first block with an empty body is left alone. */
  lemma EmptyBodyNotApplicable(cfg: BlockConfig, input: InFile, loadFile: Dispatcher, m: BlockMatch)
    requires IsBlockAt(input.contents, cfg.tag, m)
    requires forall q: nat, g, e :: q < m.start ==> !IsBlockAt(input.contents, cfg.tag, BlockMatch(q, g, e))
    requires m.tagEnd + 1 == m.closeAt
    ensures BlockLoad(cfg, input, loadFile).None?
  {
    FirstMatchIs(input.contents, cfg.tag, m);
    assert LoadMatch(cfg, input, loadFile, m).None?;
  }

  /** A script whose attributes hold the whole word `setup` is left alone. */
  lemma SetupScriptNotApplicable(input: InFile, loadFile: Dispatcher, m: BlockMatch, p: nat)
    requires IsBlockAt(input.contents, "script", m)
    requires forall q: nat, g, e :: q < m.start ==> !IsBlockAt(input.contents, "script", BlockMatch(q, g, e))
    requires IsWordAt(Attrs(input.contents, "script", m), "setup", p)
    ensures BlockLoad(Script, input, loadFile).None?
  {
    FirstMatchIs(input.contents, "script", m);
    assert AnyWord(Script.exclude, Attrs(input.contents, "script", m)) by {
      assert Script.exclude[0] == "setup";
    }
  }

  /** When the dispatcher emits nothing usable, the block stays as it is. */
  lemma NoUsableOutputNotApplicable(cfg: BlockConfig, input: InFile, loadFile: Dispatcher, m: BlockMatch)
    requires IsBlockAt(input.contents, cfg.tag, m)
    requires forall q: nat, g, e :: q < m.start ==> !IsBlockAt(input.contents, cfg.tag, BlockMatch(q, g, e))
    requires forall f | f in Dispatched(cfg, input, loadFile, m) :: !Usable(cfg, f)
    ensures BlockLoad(cfg, input, loadFile).None?
  {
    FirstMatchIs(input.contents, cfg.tag, m);
  }

  // ---------------------------------------------------------------------
  // When the loader applies
  // ---------------------------------------------------------------------

  /** The first match `m` passed every check: it is the leftmost match, its
      body is not empty and its attributes hold no excluded word. */
  ghost predicate Passes(cfg: BlockConfig, s: string, m: BlockMatch)
    requires InBounds(s, cfg.tag, m)
  {
    && (forall q: nat, g, e :: q < m.start ==> !IsBlockAt(s, cfg.tag, BlockMatch(q, g, e)))
    && Body(s, cfg.tag, m) != ""
    && forall k, p: nat :: 0 <= k < |cfg.exclude| ==> !IsWordAt(Attrs(s, cfg.tag, m), cfg.exclude[k], p)
  }

  /** `r` is the document with block `m` replaced by `rep`, text before and
      after it untouched, followed by every emitted file but the selected
      `files[j]`, in their order. */
  ghost predicate SplicedAs(input: InFile, tag: string, m: BlockMatch, rep: string, files: seq<OutFile>, j: nat, r: seq<OutFile>)
    requires InBounds(input.contents, tag, m) && j < |files|
  {
    var s := input.contents;
    && |r| == |files|
    && r[0] == OutFile(input.path, s[..m.start] + rep + s[BlockEnd(tag, m)..], None)
    && r[1..] == files[..j] + files[j + 1..]
  }

  /** Putting `x` in front of `xs` without `xs[j]` keeps the length. */
  lemma ReplaceDropped<T>(x: T, xs: seq<T>, j: nat)
    requires j < |xs|
    ensures var r := [x] + xs[..j] + xs[j + 1..];
      |r| == |xs| && r[0] == x && r[1..] == xs[..j] + xs[j + 1..]
  {
    var r := [x] + xs[..j] + xs[j + 1..];
    assert r[1..] == xs[..j] + xs[j + 1..];
  }

  /** The splice replaces the leftmost match and drops the selected file. */
  lemma SplicedShape(input: InFile, tag: string, m: BlockMatch, rep: string, files: seq<OutFile>, j: nat)
    requires InBounds(input.contents, tag, m) && j < |files|
    requires var block := BlockText(input.contents, tag, m);
      && StartsAt(input.contents, block, m.start)
      && forall q: nat :: q < m.start ==> !StartsAt(input.contents, block, q)
    ensures SplicedAs(input, tag, m, rep, files, j, Spliced(input, tag, m, rep, files, j))
  {
    var s := input.contents;
    var text := ReplaceFirst(s, BlockText(s, tag, m), rep);
    ReplaceFirstAt(s, BlockText(s, tag, m), rep, m.start);
    ReplaceDropped(OutFile(input.path, text, None), files, j);
  }

  /** An applied LoadMatch found a non-empty body and no excluded word. */
  lemma LoadMatchPasses(cfg: BlockConfig, input: InFile, loadFile: Dispatcher, m: BlockMatch)
    requires IsBlockAt(input.contents, cfg.tag, m)
    requires forall q: nat, g, e :: q < m.start ==> !IsBlockAt(input.contents, cfg.tag, BlockMatch(q, g, e))
    requires LoadMatch(cfg, input, loadFile, m).Some?
    ensures Passes(cfg, input.contents, m)
  {
    assert !AnyWord(cfg.exclude, Attrs(input.contents, cfg.tag, m));
  }

  /** An applied LoadMatch selected the first usable emitted file and spliced
      it in. */
  lemma LoadMatchSpliced(cfg: BlockConfig, input: InFile, loadFile: Dispatcher, m: BlockMatch)
    requires InBounds(input.contents, cfg.tag, m)
    requires var block := BlockText(input.contents, cfg.tag, m);
      && StartsAt(input.contents, block, m.start)
      && forall q: nat :: q < m.start ==> !StartsAt(input.contents, block, q)
    requires LoadMatch(cfg, input, loadFile, m).Some?
    ensures var files := Dispatched(cfg, input, loadFile, m);
      exists j: nat :: FirstUsable(cfg, files, j)
        && SplicedAs(input, cfg.tag, m, Rewrite(cfg, input.contents, m, files[j].contents), files, j, LoadMatch(cfg, input, loadFile, m).value)
  {
    var files := Dispatched(cfg, input, loadFile, m);
    var j := FindOutput(cfg, files).value;
    var rep := Rewrite(cfg, input.contents, m, files[j].contents);
    assert LoadMatch(cfg, input, loadFile, m).value == Spliced(input, cfg.tag, m, rep, files, j);
    SplicedShape(input, cfg.tag, m, rep, files, j);
  }

  /** An applied LoadMatch passed every check, selected the first usable
      emitted file and spliced it in. */
  lemma LoadMatchApplied(cfg: BlockConfig, input: InFile, loadFile: Dispatcher, m: BlockMatch)
    requires IsBlockAt(input.contents, cfg.tag, m)
    requires forall q: nat, g, e :: q < m.start ==> !IsBlockAt(input.contents, cfg.tag, BlockMatch(q, g, e))
    requires LoadMatch(cfg, input, loadFile, m).Some?
    ensures Passes(cfg, input.contents, m)
    ensures var files := Dispatched(cfg, input, loadFile, m);
      exists j: nat :: FirstUsable(cfg, files, j)
        && SplicedAs(input, cfg.tag, m, Rewrite(cfg, input.contents, m, files[j].contents), files, j, LoadMatch(cfg, input, loadFile, m).value)
  {
    LoadMatchPasses(cfg, input, loadFile, m);
    LeftmostMatchFirstOccurrence(input.contents, cfg.tag, m);
    LoadMatchSpliced(cfg, input, loadFile, m);
  }

  /** Every result the loader returns comes from its first block, which is
      the only script block when the loader is the script loader. */
  lemma BlockLoadApplied(cfg: BlockConfig, input: InFile, loadFile: Dispatcher)
    requires BlockLoad(cfg, input, loadFile).Some?
    ensures var m := FirstBlock(input.contents, cfg.tag);
      && m.Some?
      && (cfg.tag == "script" ==> forall q: nat, g, e :: BlockEnd(cfg.tag, m.value) <= q ==> !IsBlockAt(input.contents, cfg.tag, BlockMatch(q, g, e)))
      && BlockLoad(cfg, input, loadFile) == LoadMatch(cfg, input, loadFile, m.value)
  {
    var s, tag := input.contents, cfg.tag;
    var ms := AllMatches(s, tag);
    if tag == "script" {
      assert ms == [ms[0]] + AllMatchesFrom(s, tag, BlockEnd(tag, ms[0]));
    }
  }

  /** The loader applies whenever the first block passes every check and the
      dispatcher emits a usable file. */
  lemma BlockLoadApplies(cfg: BlockConfig, input: InFile, loadFile: Dispatcher, m: BlockMatch)
    requires IsBlockAt(input.contents, cfg.tag, m)
    requires forall q: nat, g, e :: q < m.start ==> !IsBlockAt(input.contents, cfg.tag, BlockMatch(q, g, e))
    requires cfg.tag == "script" ==> forall q: nat, g, e :: BlockEnd(cfg.tag, m) <= q ==> !IsBlockAt(input.contents, cfg.tag, BlockMatch(q, g, e))
    requires Body(input.contents, cfg.tag, m) != ""
    requires forall k, p: nat :: 0 <= k < |cfg.exclude| ==> !IsWordAt(Attrs(input.contents, cfg.tag, m), cfg.exclude[k], p)
    requires exists f :: f in Dispatched(cfg, input, loadFile, m) && Usable(cfg, f)
    ensures BlockLoad(cfg, input, loadFile).Some?
  {
    var s, tag := input.contents, cfg.tag;
    FirstMatchIs(s, tag, m);
    var ms := AllMatches(s, tag);
    if tag == "script" {
      assert ms == [m] + AllMatchesFrom(s, tag, BlockEnd(tag, m));
    }
  }

  /** Every result the loader returns comes from its first block, which
      passed every check; the dispatcher's first usable file replaced the
      block and every other emitted file follows the document, in order. */
  lemma BlockLoadResult(cfg: BlockConfig, input: InFile, loadFile: Dispatcher)
    requires BlockLoad(cfg, input, loadFile).Some?
    ensures var m := FirstBlock(input.contents, cfg.tag);
      && m.Some?
      && Passes(cfg, input.contents, m.value)
      && var files := Dispatched(cfg, input, loadFile, m.value);
         exists j: nat :: FirstUsable(cfg, files, j)
           && SplicedAs(input, cfg.tag, m.value, Rewrite(cfg, input.contents, m.value, files[j].contents), files, j, BlockLoad(cfg, input, loadFile).value)
  {
    BlockLoadApplied(cfg, input, loadFile);
    var m := FirstBlock(input.contents, cfg.tag).value;
    LoadMatchApplied(cfg, input, loadFile, m);
  }

  /** The dispatcher is asked for `<path>.<l>`, `<srcPath>.<l>` and the
      extension `.<l>`, with the block body verbatim, where `l` is the value
      of the first `lang="…"` attribute. */
  lemma DispatchRequestLang(cfg: BlockConfig, input: InFile, loadFile: Dispatcher, m: BlockMatch, q: nat, l: string)
    requires InBounds(input.contents, cfg.tag, m)
    requires IsLangAt(Attrs(input.contents, cfg.tag, m), q, l)
    requires forall p: nat, l' :: p < q ==> !IsLangAt(Attrs(input.contents, cfg.tag, m), p, l')
    ensures Dispatched(cfg, input, loadFile, m)
      == Emitted(loadFile(InFile(input.path + "." + l, input.srcPath + "." + l, "." + l, Body(input.contents, cfg.tag, m))))
  {
    FindLangIs(Attrs(input.contents, cfg.tag, m), q, l);
  }

  /** Without a lang attribute the request is made in the output language. */
  lemma DispatchRequestNoLang(cfg: BlockConfig, input: InFile, loadFile: Dispatcher, m: BlockMatch)
    requires InBounds(input.contents, cfg.tag, m)
    requires forall q: nat, l :: !IsLangAt(Attrs(input.contents, cfg.tag, m), q, l)
    ensures var o := cfg.outputLang;
      Dispatched(cfg, input, loadFile, m)
      == Emitted(loadFile(InFile(input.path + "." + o, input.srcPath + "." + o, "." + o, Body(input.contents, cfg.tag, m))))
  {
  }

  /** The rewritten opening tag loses exactly its first `lang="…"` attribute
      and the whitespace character before it, if there is one. */
  lemma AttributeRewriteLang(cfg: BlockConfig, attrs: string, q: nat, l: string)
    requires IsLangAt(attrs, q, l)
    requires forall p: nat, l' :: p < q ==> !IsLangAt(attrs, p, l')
    ensures var q' := if q > 0 && IsSpace(attrs[q - 1]) then q - 1 else q;
      var end := q + |LangPattern(l)|;
      end <= |attrs| && NewAttrs(cfg, attrs) == attrs[..q'] + attrs[end..]
  {
    FindLangIs(attrs, q, l);
    LangRemovalFound(attrs);
  }

  /** An opening tag without a lang attribute is kept as it is, as long as
      the output language is itself a `[a-z]*` word. */
  lemma AttributeRewriteNoLang(cfg: BlockConfig, attrs: string)
    requires AllLower(cfg.outputLang)
    requires forall q: nat, l :: !IsLangAt(attrs, q, l)
    ensures NewAttrs(cfg, attrs) == attrs
  {
    LangRemovalNone(attrs, cfg.outputLang);
  }
}
