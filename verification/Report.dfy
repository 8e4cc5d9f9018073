/** The pairing loop of main in tools/format_llvm_debug_html.py: every stage is
    compared with the one before it, once for each report. */
module Report {
  import opened Stages
  import opened Normalise
  import opened Diff

  /** What the two renderers are given. */
  datatype Report = Report(info: seq<(string, string, nat)>,
                           unified: seq<(seq<Marked>, nat)>,
                           sideBySide: seq<(seq<Row>, nat)>,
                           prevNames: seq<string>)

  /** The normal forms that are compared, stage by stage. */
  function NormalForms(stages: seq<Stage>): (norms: seq<seq<string>>)
    ensures |norms| == |stages|
  {
    seq(|stages|, k requires 0 <= k < |stages| => Normalised(stages[k].content))
  }

  /** What stage k is compared with: the normal form before it, or nothing. */
  function Before(norms: seq<seq<string>>, k: nat): seq<string>
    requires k < |norms|
  {
    if k == 0 then [] else norms[k - 1]
  }

  predicate ScriptFits(norms: seq<seq<string>>, script: seq<Opcode>, k: nat)
    requires k < |norms|
  {
    DifferContract(script, Before(norms, k), norms[k])
  }

  function Unified(norms: seq<seq<string>>, script: seq<Opcode>, k: nat): (seq<Marked>, nat)
    requires k < |norms| && ScriptFits(norms, script, k)
  {
    UnifiedView(script, Before(norms, k), norms[k])
  }

  function SideBySide(norms: seq<seq<string>>, script: seq<Opcode>, k: nat): (seq<Row>, nat)
    requires k < |norms| && ScriptFits(norms, script, k)
  {
    SideBySideView(script, Before(norms, k), norms[k])
  }

  /** One turn of the loop of main. It drops the count of the second builder and files
      its rows under the count of the first, which is right for both. */
  method PairOne(prevNorm: seq<string>, currNorm: seq<string>, script: seq<Opcode>)
    returns (uniDiff: seq<Marked>, sbsDiff: seq<Row>, changeCount: nat)
    requires ValidScript(script, prevNorm, currNorm)
    ensures (uniDiff, changeCount) == UnifiedView(script, prevNorm, currNorm)
    ensures (sbsDiff, changeCount) == SideBySideView(script, prevNorm, currNorm)
  {
    var dropped;
    uniDiff, changeCount := ComputeUnifiedDiff(script, prevNorm, currNorm);
    sbsDiff, dropped := ComputeSbsDiff(script, prevNorm, currNorm);
    Reconstruction(script, prevNorm, currNorm);
  }

  function NameBefore(stages: seq<Stage>, k: nat): string
    requires k <= |stages|
  {
    if k == 0 then "" else stages[k - 1].passName
  }

  function InfoOf(stage: Stage, changes: nat): (string, string, nat) {
    (stage.passName, stage.passId, changes)
  }

  /** The two annotated lists of main are right: entry k holds the view of the
      comparison with the stage before, and its change count. */
  predicate ViewsRight(norms: seq<seq<string>>, scripts: seq<seq<Opcode>>,
                       unified: seq<(seq<Marked>, nat)>, sideBySide: seq<(seq<Row>, nat)>, n: nat)
    requires n <= |norms| == |scripts|
  {
    && |unified| == |sideBySide| == n
    && forall k | 0 <= k < n ::
         && ScriptFits(norms, scripts[k], k)
         && unified[k] == Unified(norms, scripts[k], k)
         && sideBySide[k] == SideBySide(norms, scripts[k], k)
  }

  lemma ViewsStep(norms: seq<seq<string>>, scripts: seq<seq<Opcode>>, unified: seq<(seq<Marked>, nat)>,
                  sideBySide: seq<(seq<Row>, nat)>, n: nat, u: (seq<Marked>, nat), v: (seq<Row>, nat))
    requires n < |norms| == |scripts| && ViewsRight(norms, scripts, unified, sideBySide, n)
    requires ScriptFits(norms, scripts[n], n)
    requires u == Unified(norms, scripts[n], n) && v == SideBySide(norms, scripts[n], n)
    ensures ViewsRight(norms, scripts, unified + [u], sideBySide + [v], n + 1)
  {
  }

  /** The labels of the entries are right: the pass, its id and the change count; and
      the name of the pass before. */
  predicate LabelsRight(stages: seq<Stage>, report: Report, n: nat)
    requires n <= |stages| && n <= |report.unified|
  {
    && |report.info| == |report.prevNames| == n
    && forall k | 0 <= k < n ::
         report.info[k] == InfoOf(stages[k], report.unified[k].1) && report.prevNames[k] == NameBefore(stages, k)
  }

  function Extended(report: Report, info: (string, string, nat), u: (seq<Marked>, nat), v: (seq<Row>, nat), name: string)
    : Report
  {
    Report(report.info + [info], report.unified + [u], report.sideBySide + [v], report.prevNames + [name])
  }

  lemma LabelsStep(stages: seq<Stage>, report: Report, n: nat, u: (seq<Marked>, nat), v: (seq<Row>, nat))
    requires n < |stages| && n == |report.unified| && LabelsRight(stages, report, n)
    ensures LabelsRight(stages, Extended(report, InfoOf(stages[n], u.1), u, v, NameBefore(stages, n)), n + 1)
  {
    var next := Extended(report, InfoOf(stages[n], u.1), u, v, NameBefore(stages, n));
    forall k | 0 <= k < n + 1
      ensures next.info[k] == InfoOf(stages[k], next.unified[k].1) && next.prevNames[k] == NameBefore(stages, k)
    {
    }
  }

  /** The loop of main: every entry holds both views of the comparison with the stage
      before, under one change count that is correct for both. */
  method PairStages(stages: seq<Stage>, scripts: seq<seq<Opcode>>) returns (report: Report)
    requires |scripts| == |stages|
    requires forall k | 0 <= k < |stages| :: ScriptFits(NormalForms(stages), scripts[k], k)
    ensures ViewsRight(NormalForms(stages), scripts, report.unified, report.sideBySide, |stages|)
    ensures |report.unified| == |stages| && LabelsRight(stages, report, |stages|)
    ensures forall k | 0 <= k < |stages| ::
      && report.info[k] == (stages[k].passName, stages[k].passId, report.unified[k].1)
      && report.prevNames[k] == if k == 0 then "" else stages[k - 1].passName
  {
    ghost var norms := NormalForms(stages);
    report := Report([], [], [], []);
    var prevNorm: seq<string> := [];
    var prevName := "";
    for k := 0 to |stages|
      invariant k < |stages| ==> prevNorm == Before(norms, k)
      invariant prevName == NameBefore(stages, k)
      invariant ViewsRight(norms, scripts, report.unified, report.sideBySide, k)
      invariant |report.unified| == k && LabelsRight(stages, report, k)
    {
      var currNorm := NormaliseContent(stages[k].content);
      assert currNorm == norms[k] && ScriptFits(norms, scripts[k], k);
      var uniDiff, sbsDiff, changeCount := PairOne(prevNorm, currNorm, scripts[k]);
      ViewsStep(norms, scripts, report.unified, report.sideBySide, k, (uniDiff, changeCount), (sbsDiff, changeCount));
      LabelsStep(stages, report, k, (uniDiff, changeCount), (sbsDiff, changeCount));
      report := Extended(report, (stages[k].passName, stages[k].passId, changeCount),
                         (uniDiff, changeCount), (sbsDiff, changeCount), prevName);
      prevNorm := currNorm;
      prevName := stages[k].passName;
    }
    LabelsTell(stages, report);
  }

  lemma LabelsTell(stages: seq<Stage>, report: Report)
    requires |report.unified| == |stages| && LabelsRight(stages, report, |stages|)
    ensures forall k | 0 <= k < |stages| ::
      && report.info[k] == (stages[k].passName, stages[k].passId, report.unified[k].1)
      && report.prevNames[k] == if k == 0 then "" else stages[k - 1].passName
  {
  }

  /** Every stage's normal form can be read off either report, and each shown count
      is the number of marked lines. */
  lemma ReportShowsEveryStage(norms: seq<seq<string>>, script: seq<Opcode>, k: nat)
    requires k < |norms| && ScriptFits(norms, script, k)
    ensures
      var (items, changes) := Unified(norms, script, k);
      var (rows, rowChanges) := SideBySide(norms, script, k);
      && Without(Removed, items) == RightCells(rows) == norms[k]
      && changes == rowChanges == Count(Added, items) + Count(Removed, items)
  {
    Reconstruction(script, Before(norms, k), norms[k]);
  }

  /** Each entry compares a stage with the one right before it: the first entry marks
      nothing, and every other one gives the stage before back from either view, where
      both stages have something to compare. */
  lemma ReportComparesNeighbours(norms: seq<seq<string>>, script: seq<Opcode>, k: nat)
    requires k < |norms| && ScriptFits(norms, script, k)
    ensures k == 0 ==>
      && Unified(norms, script, k) == (MarkAll(Unchanged, norms[0]), 0) && SideBySide(norms, script, k).1 == 0
    ensures k > 0 && norms[k - 1] != [] && norms[k] != [] ==>
      && Without(Added, Unified(norms, script, k).0) == norms[k - 1]
      && LeftCells(SideBySide(norms, script, k).0) == norms[k - 1]
      && (Unified(norms, script, k).1 == 0 <==> norms[k] == norms[k - 1])
  {
    Reconstruction(script, Before(norms, k), norms[k]);
    ZeroExactly(script, Before(norms, k), norms[k]);
  }

  /** A stage that only adds slot indexes to the machine dump before it: the report
      shows "no changes" exactly when the dump is still recognised and every index was
      put where normalisation can see through it, or when nothing of the dump before
      is compared. */
  lemma SlotIndexStageShowsNoChange(script: seq<Opcode>, ds: seq<Decoration>, content: seq<string>)
    requires AllSuit(ds, content) && IsMachine(content)
    requires DifferContract(script, Normalised(content), Normalised(DecorateAll(ds, content)))
    ensures UnifiedView(script, Normalised(content), Normalised(DecorateAll(ds, content))).1 == 0
      <==> Normalised(content) == [] || (StaysMachine(ds, content) && AllUndone(ds, content))
  {
    SlotIndexInvisible(ds, content);
    if Normalised(DecorateAll(ds, content)) == [] {
      DecoratedKeepsLines(ds, content);
    }
    ZeroExactly(script, Normalised(content), Normalised(DecorateAll(ds, content)));
  }

  /** The same under a plain "# Machine code" header, which keeps it recognised. */
  lemma HeadedStageShowsNoChange(script: seq<Opcode>, ds: seq<Decoration>, content: seq<string>, n: nat)
    requires AllSuit(ds, content)
    requires HeadedAt(content, n) && ds[n] == Plain
    requires DifferContract(script, Normalised(content), Normalised(DecorateAll(ds, content)))
    ensures UnifiedView(script, Normalised(content), Normalised(DecorateAll(ds, content))).1 == 0
      <==> Normalised(content) == [] || AllUndone(ds, content)
  {
    HeadMakesMachine(content);
    SlotIndexStageShowsNoChange(script, ds, content);
  }
}
