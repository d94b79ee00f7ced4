/** `vueLoader`: runs the style loader and then the script loader over a
    `.vue` document, each on the text as the previous one left it, and
    gathers what they emit. */
module Vue {
  import opened Wrappers
  import opened Patterns
  import opened Loader
  import opened BlockLoader

  // ---------------------------------------------------------------------
  // The two stages, written out
  // ---------------------------------------------------------------------

  /** The style loader on the document as read. */
  function StyleStage(input: InFile, loadFile: Dispatcher): Option<seq<OutFile>> {
    BlockLoad(Style, input, loadFile)
  }

  /** The document once the style loader has run. */
  function AfterStyle(input: InFile, loadFile: Dispatcher): string {
    match StyleStage(input, loadFile)
    case Some(fs) => fs[0].contents
    case None => input.contents
  }

  /** The script loader on the document the style loader left. */
  function ScriptStage(input: InFile, loadFile: Dispatcher): Option<seq<OutFile>> {
    BlockLoad(Script, input.(contents := AfterStyle(input, loadFile)), loadFile)
  }

  /** The document once both loaders have run. */
  function FinalText(input: InFile, loadFile: Dispatcher): string {
    match ScriptStage(input, loadFile)
    case Some(fs) => fs[0].contents
    case None => AfterStyle(input, loadFile)
  }

  /** The files a loader emits besides the document. An applied loader
      always returns the document first, so the empty case does not arise. */
  function Extras(r: Option<seq<OutFile>>): seq<OutFile> {
    match r
    case Some(fs) => if fs == [] then [] else fs[1..]
    case None => []
  }

  // ---------------------------------------------------------------------
  // The loop
  // ---------------------------------------------------------------------

  /** What the loop has gathered after running some of the loaders: the
      document text, the extra files, and whether any loader applied. */
  datatype Progress = Progress(text: string, extras: seq<OutFile>, applied: bool)

  /** `output` as the loop holds it for a given progress. */
  function Output(input: InFile, st: Progress): seq<OutFile> {
    [OutFile(input.path, st.text, None)] + st.extras
  }

  /** What one loader does to the document text `text`. */
  function Load(cfg: BlockConfig, input: InFile, text: string, loadFile: Dispatcher): (r: Option<seq<OutFile>>)
    ensures r.Some? ==> |r.value| >= 1
  {
    BlockLoad(cfg, input.(contents := text), loadFile)
  }

  /** One pass of the loop body, given what the loader returned: an applied
      loader always returns the document first. */
  function Step(st: Progress, r: Option<seq<OutFile>>): Progress
    requires r.Some? ==> |r.value| >= 1
  {
    match r
    case None => st
    case Some(fs) => Progress(fs[0].contents, st.extras + fs[1..], true)
  }

  /** The loaders `cfgs` run in order. */
  function Run(cfgs: seq<BlockConfig>, input: InFile, loadFile: Dispatcher): (st: Progress)
    decreases |cfgs|
    ensures !st.applied ==> st.text == input.contents && st.extras == []
  {
    if cfgs == [] then Progress(input.contents, [], false)
    else
      var st := Run(cfgs[..|cfgs| - 1], input, loadFile);
      Step(st, Load(cfgs[|cfgs| - 1], input, st.text, loadFile))
  }

  /** Running one more loader is one more step. */
  lemma RunNext(cfgs: seq<BlockConfig>, i: nat, input: InFile, loadFile: Dispatcher)
    requires i < |cfgs|
    ensures var st := Run(cfgs[..i], input, loadFile);
      Run(cfgs[..i + 1], input, loadFile) == Step(st, Load(cfgs[i], input, st.text, loadFile))
  {
    assert cfgs[..i + 1][..i] == cfgs[..i];
  }

  /** The loop body keeps `output` in step with Run: the document is
      replaced in place and the extra files are appended. */
  lemma StepOutput(st: Progress, input: InFile, r: Option<seq<OutFile>>)
    requires r.Some? ==> |r.value| >= 1 && r.value[0].path == input.path && r.value[0].extension.None?
    ensures r.None? ==> Step(st, r) == st
    ensures r.Some? ==> Output(input, Step(st, r)) == Output(input, st)[0 := r.value[0]] + r.value[1..]
  {
  }

  /** One pass of the loop body on `output`, in terms of Run: a loader that
      does not apply leaves the progress alone; one that applies replaces the
      document and appends its other files. */
  lemma LoopStep(cfgs: seq<BlockConfig>, i: nat, input: InFile, loadFile: Dispatcher, r: Option<seq<OutFile>>)
    requires i < |cfgs|
    requires r == Load(cfgs[i], input, Run(cfgs[..i], input, loadFile).text, loadFile)
    ensures r.None? ==> Run(cfgs[..i + 1], input, loadFile) == Run(cfgs[..i], input, loadFile)
    ensures r.Some? ==> |r.value| >= 1 && Run(cfgs[..i + 1], input, loadFile).applied
    ensures r.Some? ==> Output(input, Run(cfgs[..i + 1], input, loadFile))
                          == Output(input, Run(cfgs[..i], input, loadFile))[0 := r.value[0]] + r.value[1..]
  {
    var st := Run(cfgs[..i], input, loadFile);
    RunNext(cfgs, i, input, loadFile);
    StepOutput(st, input, r);
  }

  lemma StyleStep(input: InFile, loadFile: Dispatcher)
    ensures Step(Progress(input.contents, [], false), Load(Style, input, input.contents, loadFile))
      == Progress(AfterStyle(input, loadFile), Extras(StyleStage(input, loadFile)), StyleStage(input, loadFile).Some?)
  {
    assert input.(contents := input.contents) == input;
  }

  lemma ScriptStep(input: InFile, loadFile: Dispatcher)
    ensures var st := Progress(AfterStyle(input, loadFile), Extras(StyleStage(input, loadFile)), StyleStage(input, loadFile).Some?);
      Step(st, Load(Script, input, st.text, loadFile))
      == Progress(FinalText(input, loadFile),
                  Extras(StyleStage(input, loadFile)) + Extras(ScriptStage(input, loadFile)),
                  StyleStage(input, loadFile).Some? || ScriptStage(input, loadFile).Some?)
  {
  }

  /** Running the style loader and then the script loader is the two stages
      above: the text is the last rewrite, the extra files are the style
      loader's followed by the script loader's, and something applied when
      either stage did. */
  lemma RunStages(input: InFile, loadFile: Dispatcher)
    ensures Run([Style, Script], input, loadFile) ==
      Progress(FinalText(input, loadFile),
               Extras(StyleStage(input, loadFile)) + Extras(ScriptStage(input, loadFile)),
               StyleStage(input, loadFile).Some? || ScriptStage(input, loadFile).Some?)
  {
    assert [Style, Script][..1] == [Style];
    assert [Style][..0] == [];
    assert Run([Style], input, loadFile) == Step(Progress(input.contents, [], false), Load(Style, input, input.contents, loadFile));
    StyleStep(input, loadFile);
    ScriptStep(input, loadFile);
  }

  /** What the orchestrator returns once the loop is done. */
  function Outcome(input: InFile, st: Progress): Option<seq<OutFile>> {
    if st.applied then Some(Output(input, st)) else None
  }

  /** The loop of the orchestrator over the loaders `loaders`: each runs on
      the document as `output[0]` holds it; one that applies replaces
      `output[0]` and appends its other files. `earlyReturn` stays set while
      no loader has applied. */
  method LoadAll(loaders: seq<BlockConfig>, input: InFile, loadFile: Dispatcher)
    returns (output: seq<OutFile>, earlyReturn: bool)
    ensures output == Output(input, Run(loaders, input, loadFile))
    ensures earlyReturn == !Run(loaders, input, loadFile).applied
  {
    output := [OutFile(input.path, input.contents, None)];
    earlyReturn := true;
    for i := 0 to |loaders|
      invariant output == Output(input, Run(loaders[..i], input, loadFile))
      invariant earlyReturn == !Run(loaders[..i], input, loadFile).applied
    {
      var result := Load(loaders[i], input, output[0].contents, loadFile);
      LoopStep(loaders, i, input, loadFile, result);
      if result.None? {
        continue;
      }
      earlyReturn := false;
      var vueFile, files := result.value[0], result.value[1..];
      output := output[0 := vueFile] + files;
    }
    assert loaders[..|loaders|] == loaders;
  }

  /** The orchestrator. `None` is "not applicable". */
  method VueLoad(input: InFile, loadFile: Dispatcher) returns (r: Option<seq<OutFile>>)
    ensures input.extension != ".vue" ==> r.None?
    ensures input.extension == ".vue" ==> r == Outcome(input, Run([Style, Script], input, loadFile))
  {
    if input.extension != ".vue" {
      return None;
    }
    var output, earlyReturn := LoadAll([Style, Script], input, loadFile);
    if earlyReturn {
      return None;
    }
    return Some(output);
  }

  /** What the orchestrator returns for a `.vue` document: "not applicable"
      exactly when neither loader applied; otherwise the document as the
      last loader left it, at the document's own path, followed by the style
      loader's extra files and then the script loader's, each in their
      order. */
  lemma VueOutcome(input: InFile, loadFile: Dispatcher)
    ensures var r := Outcome(input, Run([Style, Script], input, loadFile));
      && (r.None? <==> StyleStage(input, loadFile).None? && ScriptStage(input, loadFile).None?)
      && (r.Some? ==>
            r.value == [OutFile(input.path, FinalText(input, loadFile), None)]
                       + Extras(StyleStage(input, loadFile)) + Extras(ScriptStage(input, loadFile)))
  {
    RunStages(input, loadFile);
    OutcomeOfStages(input, Run([Style, Script], input, loadFile), FinalText(input, loadFile),
                    StyleStage(input, loadFile), ScriptStage(input, loadFile));
  }

  /** The outcome of a progress built from two stage results. */
  lemma OutcomeOfStages(input: InFile, st: Progress, text: string, a: Option<seq<OutFile>>, b: Option<seq<OutFile>>)
    requires st == Progress(text, Extras(a) + Extras(b), a.Some? || b.Some?)
    ensures var r := Outcome(input, st);
      && (r.None? <==> a.None? && b.None?)
      && (r.Some? ==> r.value == [OutFile(input.path, text, None)] + Extras(a) + Extras(b))
  {
  }

  // ---------------------------------------------------------------------
  // Consequences
  // ---------------------------------------------------------------------

  /** A document with neither a style block nor a script block is not
      applicable. */
  lemma NoBlocksNotApplicable(input: InFile, loadFile: Dispatcher)
    requires forall q: nat, g, e :: !IsBlockAt(input.contents, "style", BlockMatch(q, g, e))
    requires forall q: nat, g, e :: !IsBlockAt(input.contents, "script", BlockMatch(q, g, e))
    ensures Outcome(input, Run([Style, Script], input, loadFile)).None?
  {
    NoBlockNotApplicable(Style, input, loadFile);
    assert input.(contents := AfterStyle(input, loadFile)) == input;
    NoBlockNotApplicable(Script, input, loadFile);
    VueOutcome(input, loadFile);
  }

  /** The script loader reads the document as the style loader left it: as
      read when the style loader did not apply, rewritten otherwise. */
  lemma ScriptSeesStyleOutput(input: InFile, loadFile: Dispatcher)
    ensures StyleStage(input, loadFile).None? ==>
      ScriptStage(input, loadFile) == BlockLoad(Script, input, loadFile)
    ensures StyleStage(input, loadFile).Some? ==>
      ScriptStage(input, loadFile) == BlockLoad(Script, input.(contents := StyleStage(input, loadFile).value[0].contents), loadFile)
  {
    if StyleStage(input, loadFile).None? {
      assert input.(contents := AfterStyle(input, loadFile)) == input;
    }
  }
}
