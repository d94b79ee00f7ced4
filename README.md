# mkdist Vue loader, modelled in Dafny

mkdist's Vue loader (`src/loaders/vue.ts`) turns a Vue single-file
component into a document whose `<style>` and `<script>` blocks have been
compiled to CSS and JavaScript. It has two layers:

- **`vueBlockLoader`** is built once per block kind (`styleLoader`,
  `scriptLoader`). Given the current document text it:
  - finds the block with a fixed regular expression;
  - steps aside when there is no block, when there is more than one
    `<script>`, when the body is empty, or when a `<script>` is marked
    `setup`;
  - resolves the block's `lang` attribute;
  - asks the injected dispatcher `loadFile` to compile the body under a
    synthetic path;
  - picks the first emitted file with a usable extension;
  - strips the `lang` attribute and splices the trimmed compiled text
    into the document in place of the block;
  - returns the document followed by every other emitted file.
- **`vueLoader`** checks for the `.vue` extension. It then runs the style
  loader and the script loader in that order, each on the text as the
  previous one left it. It gathers the document and the extra files into
  one mutable output array. It answers "not applicable" when neither
  loader applied.

The project's modules:

| file | module | what it holds |
|---|---|---|
| `wrappers.dfy` | `Wrappers` | `Option` |
| `text.dfy` | `Text` | `\s`, `\w`, literal search, first-occurrence replacement, `String.prototype.trim` |
| `patterns.dfy` | `Patterns` | the loader's fixed regular expressions, written as scanners (see below) |
| `loader.dfy` | `Loader` | the input and output file records and the dispatcher type |
| `block_loader.dfy` | `BlockLoader` | `vueBlockLoader` and the two configurations, as functions with lemmas |
| `vue_loader.dfy` | `Vue` | `vueLoader`, as a method whose loop updates an output sequence, plus lemmas |
| `replacement.dfy` | `Replacement` | `String.prototype.replace` with `$` patterns (see Findings) |

The regular expressions in `Patterns` are the block pattern
`<tag((\s[^>\s]*)*)>([\S\s.]*?)</tag>` under `matchAll`,
`lang="([a-z]*)"` under `match`, `\s?lang="<lang>"` under `replace`, and
`\bsetup\b` under `test`. Each has two parts:

- a declarative description of where the pattern matches (`IsBlockAt`,
  `IsLangAt`, `IsWordAt`, `OptSpaceMatchAt`);
- a scanner proved to find exactly the leftmost match; for `\bsetup\b`
  under `test`, a scanner proved to decide whether a match exists, which is
  all `test` and `some` report.

`matchAll` is modelled as repeated leftmost search, each search resuming
where the previous match ended. The dispatcher is a function parameter
`InFile -> Option<seq<OutFile>>`. A loader result is
`Option<seq<OutFile>>`, with `None` for "not applicable".

`String.prototype.replace` with a string pattern runs the replacement
text through GetSubstitution. In `BlockLoader` the splice is literal:
`Text.ReplaceFirst`. This is the intended behaviour; `Replacement` models
the code as written.

`files.find` is one pass: the selected file is the first file whose
extension is either `.<outputLang>` or in `validExtensions`. The model
follows this code. It does not look for the canonical extension first and
fall back to the accepted ones afterwards.

## Model

| member | source | states |
|---|---|---|
| Text.ReplaceFirst | src/loaders/vue.ts:105-112 | with no occurrence of the pattern the text is unchanged; otherwise the first occurrence, and only it, gives way to the replacement, with the text before and after it kept |
| Text.Trim | src/loaders/vue.ts:109 | `trim()` removes whitespace, and only whitespace, from both ends, and the result neither starts nor ends with whitespace |
| Text.TrimIdempotent | src/loaders/vue.ts:109 | trimming the trimmed text changes nothing |
| Patterns.MatchAt | src/loaders/vue.ts:52-55 | a block match reported at `i` starts at `i` and satisfies the declarative description of the block pattern (opening tag, attributes up to the first `>`, body up to the first closing tag) |
| Patterns.MatchAtComplete | src/loaders/vue.ts:52-55 | every match of the block pattern is found by the scan that starts at its position |
| Patterns.MatchUnique | src/loaders/vue.ts:52-55 | at most one match starts at a given position: the attribute run ends at the first `>`, and the lazy body ends at the first closing tag |
| Patterns.FirstMatchFrom | src/loaders/vue.ts:52-57 | the search from `i` returns a match at or after `i` with no match starting between `i` and it; it returns none only when no match starts at or after `i` |
| Patterns.AllMatchesFrom | src/loaders/vue.ts:57 | `matchAll` lists only matches, each starting no earlier than where the previous one ended; it is empty exactly when no match exists, and its head is the leftmost match |
| Patterns.FirstMatchIs | src/loaders/vue.ts:57-67 | a match with no match starting before it is `matches[0]` |
| Patterns.EarlierMatchEndsFirst | src/loaders/vue.ts:52-55 | of two block matches, the one that starts first does not end later |
| Patterns.TwoBlocksTwoMatches | src/loaders/vue.ts:57-65 | two blocks that do not overlap make `matchAll` report at least two matches |
| Patterns.BlockTextParts | src/loaders/vue.ts:52-55 | the matched text is the opening tag, capture group 1, `>`, capture group 3 and the closing tag, in that order |
| Patterns.MatchShift | src/loaders/vue.ts:105-106 | a copy of a match's text anywhere in the document is a match there too |
| Patterns.LeftmostMatchFirstOccurrence | src/loaders/vue.ts:105-106 | the text of the leftmost match occurs nowhere before the match |
| Patterns.ReplaceFirstMatch | src/loaders/vue.ts:102-112 | `contents.replace(block, …)` with the first match's text rewrites the document exactly at that match and keeps everything before and after it |
| Patterns.LowerRunEnd | src/loaders/vue.ts:78 | the `[a-z]*` run is maximal: it stops at the end of the text or at a character outside `[a-z]` |
| Patterns.LangAt | src/loaders/vue.ts:78 | a `lang="…"` capture reported at `i` is a `[a-z]*` value whose quoted attribute stands at `i` |
| Patterns.LangAtComplete | src/loaders/vue.ts:78 | every match of `lang="([a-z]*)"` is found by the scan at its position, with its capture |
| Patterns.LangUnique | src/loaders/vue.ts:78 | a position has at most one `lang="([a-z]*)"` capture |
| Patterns.FindLangFrom | src/loaders/vue.ts:77-78 | `match` finds the leftmost `lang="([a-z]*)"` at or after `i`; it finds none only when there is none |
| Patterns.FindLangIs | src/loaders/vue.ts:77-78 | the leftmost `lang="…"` attribute is the one `match` returns, with its position and value |
| Patterns.ContainsWordFrom | src/loaders/vue.ts:73 | `/\bw\b/.test` holds exactly when `w` occurs with a word boundary on both sides |
| Patterns.AnyWord | src/loaders/vue.ts:73 | `exclude.some` holds exactly when some excluded word occurs as a whole word |
| Patterns.FirstOptSpaceFrom | src/loaders/vue.ts:98-101 | the search for `\s?<pat>` finds the leftmost position where it matches, with its length; it finds none only when there is none |
| Patterns.RemoveOptSpace | src/loaders/vue.ts:98-101 | `replace(/\s?<pat>/, "")` deletes the leftmost match and keeps the rest; without a match the text is unchanged |
| Patterns.FirstOptSpaceIs | src/loaders/vue.ts:98-101 | the search stops at the first position where `\s?<pat>` matches |
| Patterns.LangRemovalFound | src/loaders/vue.ts:98-101 | removing `\s?lang="<lang>"`, with `<lang>` the captured value, deletes exactly the first lang attribute and the whitespace character before it, if there is one |
| Patterns.LangRemovalNone | src/loaders/vue.ts:98-101 | without a lang attribute, removing the attribute for a `[a-z]*` default language changes nothing |
| BlockLoader.FindOutputFrom | src/loaders/vue.ts:89-93 | the search from `i` returns a usable file with no usable file between `i` and it, or none when there is none |
| BlockLoader.FindOutput | src/loaders/vue.ts:89-96 | `files.find` selects the first file whose extension is `.<outputLang>` or an accepted one; it finds none only when no file qualifies |
| BlockLoader.ResolveLang | src/loaders/vue.ts:77-79 | the language is the output language when there is no lang attribute; otherwise it is the value of the leftmost one |
| BlockLoader.Usable | src/loaders/vue.ts:90-92 | defined as: the file has an extension, and it is `.<outputLang>` or one of `validExtensions`; FindOutput states the search built on it |
| BlockLoader.Emitted | src/loaders/vue.ts:81-87 | defined as: the dispatcher's files, or no files when it answers "not applicable"; NoUsableOutputNotApplicable states the consequence |
| BlockLoader.Dispatched | src/loaders/vue.ts:77-87 | defined as: the files the dispatcher emits for the block body at `<path>.<lang>`, `<srcPath>.<lang>`, extension `.<lang>`; DispatchRequestLang and DispatchRequestNoLang state the request for each case of `lang` |
| BlockLoader.NewAttrs | src/loaders/vue.ts:98-101 | defined as: the attributes with `\s?lang="<lang>"` removed once, for the resolved `<lang>`; AttributeRewriteLang and AttributeRewriteNoLang state what is removed |
| BlockLoader.RewrittenBlock | src/loaders/vue.ts:107-111 | defined as: `<tag`, the new attributes, `>`, a line break, the trimmed compiled text, a line break and `</tag>`; Text.Trim states the trimming |
| BlockLoader.Rewrite | src/loaders/vue.ts:98-111 | defined as: the rewritten block for the match's tag, with the match's attributes passed through NewAttrs |
| BlockLoader.Spliced | src/loaders/vue.ts:102-115 | defined as: the document with the first occurrence of the block's text replaced, then every emitted file but the selected one; SplicedShape and BlockLoadResult state the shape |
| BlockLoader.FirstBlock | src/loaders/vue.ts:57-67 | `matches[0]` is a block match with no match starting before it; there is none only when the document holds no block |
| BlockLoader.BlockLoad | src/loaders/vue.ts:47-116 | an applied loader returns at least one file, and the first is the document at the input's own path with no extension |
| BlockLoader.LoadMatch | src/loaders/vue.ts:67-115 | the same, once the first match is known |
| BlockLoader.SplicedShape | src/loaders/vue.ts:102-115 | the result is the document with the block replaced in place, followed by every emitted file but the selected one, in order; so it has as many elements as the dispatcher emitted |
| BlockLoader.NoBlockNotApplicable | src/loaders/vue.ts:57-60 | a document without the block is not applicable |
| BlockLoader.TwoScriptsNotApplicable | src/loaders/vue.ts:63-65 | two script blocks make the script loader not applicable |
| BlockLoader.EmptyBodyNotApplicable | src/loaders/vue.ts:67-71 | an empty body in the first block is not applicable |
| BlockLoader.SetupScriptNotApplicable | src/loaders/vue.ts:73-75 | a first script block whose attributes hold the whole word `setup` is not applicable |
| BlockLoader.NoUsableOutputNotApplicable | src/loaders/vue.ts:81-96 | when the dispatcher emits no usable file, or answers "not applicable" (read as no files), the loader is not applicable |
| BlockLoader.LoadMatchApplied | src/loaders/vue.ts:67-115 | an applied loader passed every check and spliced in the dispatcher's first usable file |
| BlockLoader.BlockLoadApplied | src/loaders/vue.ts:57-67 | an applied loader worked on the leftmost block; for scripts it was the only block |
| BlockLoader.BlockLoadApplies | src/loaders/vue.ts:57-96 | conversely, the loader applies when the first block passes every check and the dispatcher emits a usable file |
| BlockLoader.BlockLoadResult | src/loaders/vue.ts:47-116 | every applied result comes from the leftmost block, which passed every check: that block gives way to the rewritten block built from the dispatcher's first usable file, the text around it is untouched, and every other emitted file follows in order |
| BlockLoader.DispatchRequestLang | src/loaders/vue.ts:77-87 | with a lang attribute `l`, the dispatcher is asked for `<path>.l`, `<srcPath>.l`, extension `.l`, with the body verbatim |
| BlockLoader.DispatchRequestNoLang | src/loaders/vue.ts:77-87 | without one, the same request is made with the output language |
| BlockLoader.AttributeRewriteLang | src/loaders/vue.ts:98-101 | the rewritten tag loses exactly its leftmost lang attribute and the one whitespace character before it, if there is one |
| BlockLoader.AttributeRewriteNoLang | src/loaders/vue.ts:98-101 | a tag without a lang attribute keeps its attributes |
| Vue.Load | src/loaders/vue.ts:18-21 | a loader runs on the input with its contents replaced by the current document text; an applied result holds at least the document |
| Vue.Step | src/loaders/vue.ts:22-29 | defined as: progress unchanged when the loader is not applicable, otherwise the loader's document becomes the text and its other files are appended; it requires an applied result to hold the document, which Vue.Load guarantees; StepOutput and LoopStep state its effect on `output` |
| Vue.StepOutput | src/loaders/vue.ts:22-29 | the loop body on `output`: unchanged when the loader is not applicable, otherwise `output[0]` overwritten and the other files appended |
| Vue.Outcome | src/loaders/vue.ts:32-36 | defined as: "not applicable" when no loader applied, otherwise the output array; VueOutcome states the result in terms of the two loaders |
| Vue.Run | src/loaders/vue.ts:17-30 | if no loader has applied yet, the text is the document as read and there are no extra files |
| Vue.LoopStep | src/loaders/vue.ts:18-29 | a pass of the loop leaves the output alone when the loader is not applicable; otherwise it overwrites `output[0]` with the loader's document and appends its other files |
| Vue.LoadAll | src/loaders/vue.ts:8-30 | the loop leaves `output` as the document after all loaders followed by their extra files, and `earlyReturn` set exactly when no loader applied |
| Vue.VueLoad | src/loaders/vue.ts:3-37 | a file without the `.vue` extension is not applicable; otherwise the result is what running the style loader and then the script loader produces |
| Vue.RunStages | src/loaders/vue.ts:17-30 | running both loaders gives the script loader's rewrite of the style loader's rewrite, the style loader's extra files followed by the script loader's, and "applied" when either applied |
| Vue.VueOutcome | src/loaders/vue.ts:8-36 | the result is not applicable exactly when both loaders are not applicable; otherwise it is the final document at the input's path, then the style loader's extra files, then the script loader's |
| Vue.NoBlocksNotApplicable | src/loaders/vue.ts:3-37 | a document with neither a style nor a script block is not applicable |
| Vue.ScriptSeesStyleOutput | src/loaders/vue.ts:17-21 | the script loader reads the document as the style loader left it |
| Replacement.Substitute | src/loaders/vue.ts:105-112 | GetSubstitution leaves a replacement without `$` unchanged |
| Replacement.JsReplace | src/loaders/vue.ts:105-112 | `replace` with a `$`-free replacement is the literal first-occurrence replacement |
| Replacement.SubstituteLiteralPrefix | src/loaders/vue.ts:105-112 | a `$`-free prefix of the replacement is copied as it is |
| Replacement.SubstituteDollars | src/loaders/vue.ts:105-112 | `$$` in the replacement becomes a single `$` |
| Replacement.WholeBlockDollars | src/loaders/vue.ts:105-112 | when the document is one block rewritten to text holding `$$`, `replace` emits a single `$` where the literal splice keeps `$$` |

## Left out

- `async`/`await` and the lazy `getContents` accessors. File contents are
  plain strings. The only ordering that matters, style before script, is
  kept.
- The dispatcher `loadFile` and the `Loader`/`LoaderResult` types of
  `src/loader.ts`. The dispatcher is a function parameter, so its own
  behaviour is not part of this model.
- A general regular-expression engine. Only the four fixed patterns are
  modelled. `\s` is the full ECMAScript whitespace and line-terminator set,
  the same set `trim()` strips. `\w` is `[A-Za-z0-9_]`.
- Strings are sequences of Unicode scalar values, where JavaScript strings
  are sequences of UTF-16 code units: a lone surrogate cannot be
  represented, and a character outside the Basic Multilingual Plane is one
  character instead of two. The delimiters, `[a-z]`, `\w` and the
  whitespace set used here are all in the Basic Multilingual Plane, so the
  positions the scanners find correspond one to one.
- The `exclude` option holds regular expressions in the code. The model
  holds their words `w` and reads each as `\bw\b`, the only form the
  script loader uses.
- `contents?.trim()` on a file without contents. Emitted files always
  carry a string.
- The reference-identity filter `f !== blockOutputFile`. The selected file
  is dropped by index, so structurally equal duplicates are kept.
- The `defaultLang` option and the `template` kind. The code never reads
  `defaultLang`, and no `template` loader is built.
- The `!block` check: a match's text always holds at least the two tags, so
  it cannot be empty.
- Vue.VueLoad: "runs no block loader" for a non-`.vue` file is not stated.
  Loaders are pure functions in the model, so not running one has no
  observable effect beyond the `None` result.
- Idempotence of the whole transformation under a pass-through dispatcher
  is not proved. It depends on the dispatcher, and it fails, for example,
  for a tag with two lang attributes, whose second one the next run
  removes.
- BlockLoader.BlockLoad splices literally. The `$` expansion that
  `String.prototype.replace` performs stays in `Replacement`; see Findings.

## Findings

| source | as written | input that shows it | evidently intended | confidence | as-written member | corrected member |
|---|---|---|---|---|---|---|
| src/loaders/vue.ts:105-112 | `contents.replace(block, rewritten)` passes the compiled code as a replacement string, so `$$`, `$&`, `` $` `` and `$'` in it are expanded | the document `<script>x</script>`, with the dispatcher compiling the script to `$$`: the output holds `<script>\n$\n</script>` instead of `<script>\n$$\n</script>` | the block is replaced by the rewritten block verbatim (e.g. a replacer function `() => rewritten`) | high, not executed | Replacement.WholeBlockDollars | Patterns.ReplaceFirstMatch |
