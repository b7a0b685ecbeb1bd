/** The resolution ladder of `_process_movie_file`: starting from the
    probed resolution of a movie, each table height at or below it is
    visited in descending order (480 only for an SD source); each visited
    rung either finds the working file already marked for that height or
    encodes a new one and relocates the previous file; the last file is
    finally filed under the output directory of its height. */
module Ladder {
  import opened Wrappers
  import opened Strings
  import opened Paths
  import opened Resolution
  import opened Names
  import opened Effects

  /** The per-movie values `_process_resolution` receives besides the state. */
  datatype MovieJob = MovieJob(
    baseInput: string,   // the movie's input directory
    outputPath: string,  // the output root
    folder: string,      // the input directory's last component
    baseName: string,    // `Title (Year)` recovered from the file name
    delete: bool)        // not `--no-delete`

  /** `(current_resolution, source_file)`. */
  datatype LadderState = LadderState(current: int, source: string)

  /** One call of `_process_resolution`: the state it returns and what it did. */
  datatype Step = Step(state: LadderState, actions: seq<Action>)

  /** `os.path.join(output_path, str(res) + "p", file_folder)`. */
  function ResolutionDir(outputPath: string, res: int, folder: string): string {
    PathJoin(PathJoin(outputPath, IntToString(res) + "p"), folder)
  }

  /** The action leaves a file at `dst` (moved or copied there). */
  predicate Places(a: Action, dst: string) {
    a.Run? && (a.op.Move? || a.op.CopyFile?) && a.op.dst == dst
  }

  /** The action takes the file at `src` away (moved off or removed). */
  predicate Vacates(a: Action, src: string) {
    a.Run? && ((a.op.Move? && a.op.src == src) || (a.op.Remove? && a.op.path == src))
  }

  /** The only things the relocation may do: move or copy `from` to `to`,
      set the mode of `to`, or remove `from`. */
  predicate Relocates(a: Action, from: string, to: string) {
    || (a.Run? && (a.op.Move? || a.op.CopyFile?) && a.op.src == from && a.op.dst == to)
    || a == Run(Chmod(to, FileMode))
    || a == Run(Remove(from))
  }

  /** What becomes of the pre-encode file: a processed file is kept at `to`
      (moved on delete, copied otherwise); an unprocessed one is removed on
      delete and left alone otherwise. */
  function Relocate(delete: bool, processed: bool, from: string, to: string): (r: seq<Action>)
    ensures (exists i :: 0 <= i < |r| && Places(r[i], to)) <==> processed
    ensures (exists i :: 0 <= i < |r| && Vacates(r[i], from)) <==> delete
    ensures processed ==> Last(r) == Run(Chmod(to, FileMode))
    ensures forall i :: 0 <= i < |r| ==> r[i].Run? && Relocates(r[i], from, to)
    ensures |r| == if processed then 2 else if delete then 1 else 0
  {
    var r :=
      if delete then
        if processed then [Run(Move(from, to)), Run(Chmod(to, FileMode))]
        else [Run(Remove(from))]
      else if processed then [Run(CopyFile(from, to)), Run(Chmod(to, FileMode))]
      else [];
    assert processed ==> Places(r[0], to);
    assert delete ==> Vacates(r[0], from);
    r
  }

  /** The rung is a no-op: the file already carries the marker of the
      current height, and that height is the target. */
  predicate Reusable(st: LadderState, target: int) {
    IsProcessed(st.source, st.current) && st.current == target
  }

  /** The encoding branch of `_process_resolution`: encode the working file
      to the target's output name, prepare the directory of the current
      height, and relocate the pre-encode file there under `keptName`. */
  function EncodeStep(job: MovieJob, target: int, st: LadderState, title: string, keptName: string): (s: Step)
    requires IsRung(target)
    ensures s.state.current == target && IsProcessed(s.state.source, target)
    ensures StartsWith(s.state.source, job.baseName)
    ensures |s.actions| >= 3 && s.actions[0].Encode? && s.actions[0].height == target
    ensures s.actions[0].src == PathJoin(job.baseInput, st.source)
    ensures s.actions[0].dst == PathJoin(job.baseInput, s.state.source)
    ensures forall i :: 3 <= i < |s.actions| ==>
      Relocates(s.actions[i], PathJoin(job.baseInput, st.source),
                PathJoin(ResolutionDir(job.outputPath, st.current, job.folder), keptName))
  {
    var outputFile := OutputName(job.baseName, target);
    var fromPath := PathJoin(job.baseInput, st.source);
    var dir := ResolutionDir(job.outputPath, st.current, job.folder);
    Step(LadderState(target, outputFile),
      [Encode(fromPath, PathJoin(job.baseInput, outputFile), target, WidthOf(target), DisplayTitle(title)),
       Direct(MakeDirs(dir)), Direct(Chmod(dir, DirMode))]
      + Relocate(job.delete, IsProcessed(st.source, st.current), fromPath, PathJoin(dir, keptName)))
  }

  /** `_process_resolution` with the relocated file keeping its own name,
      the behaviour the rest of the model uses. */
  function ProcessResolution(job: MovieJob, target: int, st: LadderState): (r: Result<Step, Crash>)
    requires IsRung(target)
    ensures r.Success? <==> ParseTitle(job.baseName).Some?
    ensures r.Success? ==> r.value.state.current == target
    ensures r.Success? ==> IsProcessed(r.value.state.source, target)
    ensures r.Success? && Reusable(st, target) ==> r.value == Step(st, [])
    ensures r.Success? && !Reusable(st, target) ==>
      var acts := r.value.actions;
      var dir := ResolutionDir(job.outputPath, st.current, job.folder);
      var fromPath := PathJoin(job.baseInput, st.source);
      && r.value.state.source == OutputName(job.baseName, target)
      && |acts| >= 3
      && acts[0] == Encode(fromPath, PathJoin(job.baseInput, r.value.state.source), target,
                           WidthOf(target), DisplayTitle(ParseTitle(job.baseName).value))
      && acts[1] == Direct(MakeDirs(dir)) && acts[2] == Direct(Chmod(dir, DirMode))
      && acts[3..] == Relocate(job.delete, IsProcessed(st.source, st.current), fromPath,
                               PathJoin(dir, st.source))
  {
    match ParseTitle(job.baseName)
    case None => Failure(TitleMismatch(job.baseName))
    case Some(title) =>
      if Reusable(st, target) then Success(Step(LadderState(target, st.source), []))
      else Success(EncodeStep(job, target, st, title, st.source))
  }

  /** `_process_resolution` as written: `source_file` is reassigned to the
      new output's name before the relocation path is built, so the
      pre-encode file is relocated under the new output's name. */
  function ProcessResolutionAsWritten(job: MovieJob, target: int, st: LadderState): (r: Result<Step, Crash>)
    requires IsRung(target)
    ensures r.Success? <==> ParseTitle(job.baseName).Some?
    ensures r.Success? ==> r.value.state.current == target
    ensures r.Success? ==> IsProcessed(r.value.state.source, target)
    ensures r.Success? && !Reusable(st, target) && IsProcessed(st.source, st.current) ==>
      |r.value.actions| == 5 && Places(r.value.actions[3],
        PathJoin(ResolutionDir(job.outputPath, st.current, job.folder), OutputName(job.baseName, target)))
  {
    match ParseTitle(job.baseName)
    case None => Failure(TitleMismatch(job.baseName))
    case Some(title) =>
      if Reusable(st, target) then Success(Step(LadderState(target, st.source), []))
      else
        var s := EncodeStep(job, target, st, title, OutputName(job.baseName, target));
        assert IsProcessed(st.source, st.current) ==> |s.actions| == 5;
        Success(s)
  }

  /** The defect of the as-written step: when an already processed file is
      encoded down a rung, it is filed in its own height's directory under
      a name that carries the lower height's marker and not its own. */
  lemma AsWrittenMislabelsRelocatedFile(job: MovieJob, target: int, st: LadderState)
    requires IsRung(target) && st.current >= 0 && st.current != target
    requires IsProcessed(st.source, st.current)
    requires ParseTitle(job.baseName).Some?
    ensures ProcessResolutionAsWritten(job, target, st).Success?
    ensures exists i, name ::
      (&& 3 <= i < |ProcessResolutionAsWritten(job, target, st).value.actions|
       && Places(ProcessResolutionAsWritten(job, target, st).value.actions[i],
                 PathJoin(ResolutionDir(job.outputPath, st.current, job.folder), name))
       && !IsProcessed(name, st.current) && IsProcessed(name, target))
  {
    MarkersDistinct(job.baseName, target, st.current);
  }

  /** The corrected step files the pre-encode file in its own height's
      directory under its own name, which carries that height's marker. */
  lemma RelocationKeepsOwnResolution(job: MovieJob, target: int, st: LadderState)
    requires IsRung(target) && !Reusable(st, target)
    requires IsProcessed(st.source, st.current)
    requires ParseTitle(job.baseName).Some?
    ensures exists i, name ::
      (&& 3 <= i < |ProcessResolution(job, target, st).value.actions|
       && Places(ProcessResolution(job, target, st).value.actions[i],
                 PathJoin(ResolutionDir(job.outputPath, st.current, job.folder), name))
       && IsProcessed(name, st.current))
  {
    var acts := ProcessResolution(job, target, st).value.actions;
    assert Places(acts[3], PathJoin(ResolutionDir(job.outputPath, st.current, job.folder), st.source));
  }

  /** Re-running a rung on the state it produced encodes nothing. */
  lemma RungIsReentrant(job: MovieJob, target: int, st: LadderState)
    requires IsRung(target) && ProcessResolution(job, target, st).Success?
    ensures var next := ProcessResolution(job, target, st).value.state;
      ProcessResolution(job, target, next) == Success(Step(next, []))
  {
  }

  /** Which `_process_resolution` a ladder runs: the corrected step or the
      step as written. */
  datatype Variant = Corrected | AsWritten

  /** One rung of the ladder under the chosen step. */
  function Rung(v: Variant, job: MovieJob, target: int, st: LadderState): (r: Result<Step, Crash>)
    requires IsRung(target)
    ensures r.Success? <==> ParseTitle(job.baseName).Some?
    ensures r.Success? ==> r.value.state.current == target && IsProcessed(r.value.state.source, target)
  {
    match v
    case Corrected => ProcessResolution(job, target, st)
    case AsWritten => ProcessResolutionAsWritten(job, target, st)
  }

  /** The two steps reach the same state and log the same encode and
      directory preparation; they differ only in the destination of the
      relocation, and not at all when the pre-encode file was not
      processed. */
  lemma {:induction false} VariantsSameState(job: MovieJob, target: int, st: LadderState)
    requires IsRung(target) && ParseTitle(job.baseName).Some?
    ensures Rung(AsWritten, job, target, st).value.state == Rung(Corrected, job, target, st).value.state
    ensures var a := Rung(AsWritten, job, target, st).value.actions;
      var c := Rung(Corrected, job, target, st).value.actions;
      && |a| == |c|
      && (!IsProcessed(st.source, st.current) ==> a == c)
      && (Reusable(st, target) ==> a == c == [])
    ensures !Reusable(st, target) ==>
      var a := Rung(AsWritten, job, target, st).value.actions;
      var c := Rung(Corrected, job, target, st).value.actions;
      var from := PathJoin(job.baseInput, st.source);
      var dir := ResolutionDir(job.outputPath, st.current, job.folder);
      var processed := IsProcessed(st.source, st.current);
      && |a| >= 3 && |c| >= 3 && a[..3] == c[..3]
      && a[3..] == Relocate(job.delete, processed, from, PathJoin(dir, OutputName(job.baseName, target)))
      && c[3..] == Relocate(job.delete, processed, from, PathJoin(dir, st.source))
  {
    if !Reusable(st, target) {
      var title := ParseTitle(job.baseName).value;
      assert Rung(AsWritten, job, target, st).value
          == EncodeStep(job, target, st, title, OutputName(job.baseName, target));
      assert Rung(Corrected, job, target, st).value == EncodeStep(job, target, st, title, st.source);
    }
  }

  /** The state of the ladder loop after a run over some rungs. */
  datatype LadderRun = LadderRun(state: LadderState, actions: seq<Action>, visited: seq<int>)

  predicate AllRungs(rungs: seq<int>) {
    forall i :: 0 <= i < |rungs| ==> IsRung(rungs[i])
  }

  predicate StrictlyDecreasing(s: seq<int>) {
    forall i, j :: 0 <= i < j < |s| ==> s[i] > s[j]
  }

  /** The loop head's SD rule: 480 is skipped for a source above 480. */
  predicate SkipsSd(target: int, original: int) {
    target == 480 && original > 480
  }

  /** The `for res in self.video_resolutions.values()` loop of
      `_process_movie_file`, from `rungs` on, running the step `v`. */
  function RunLadder(v: Variant, job: MovieJob, original: int, rungs: seq<int>, st: LadderState): Result<LadderRun, Crash>
    requires AllRungs(rungs)
    decreases |rungs|
  {
    if |rungs| == 0 then Success(LadderRun(st, [], []))
    else
      var target := rungs[0];
      if SkipsSd(target, original) then RunLadder(v, job, original, rungs[1..], st)
      else if st.current >= target then
        var step :- Rung(v, job, target, st);
        var rest :- RunLadder(v, job, original, rungs[1..], step.state);
        Success(LadderRun(rest.state, step.actions + rest.actions, [target] + rest.visited))
      else RunLadder(v, job, original, rungs[1..], st)
  }

  /** The rungs a source of height `original` should be taken through:
      those at or below it, without 480 for a source above 480, in table
      order (`PlanSpec` states it). */
  function Plan(original: int, rungs: seq<int>): seq<int>
    decreases |rungs|
  {
    if |rungs| == 0 then []
    else if rungs[0] <= original && !SkipsSd(rungs[0], original) then [rungs[0]] + Plan(original, rungs[1..])
    else Plan(original, rungs[1..])
  }

  /** The plan holds exactly the rungs at or below the source that the SD
      rule keeps, and is strictly descending when the rungs are. */
  lemma {:induction false} PlanSpec(original: int, rungs: seq<int>)
    ensures forall h :: h in Plan(original, rungs) <==> h in rungs && h <= original && !SkipsSd(h, original)
    ensures StrictlyDecreasing(rungs) ==> StrictlyDecreasing(Plan(original, rungs))
    decreases |rungs|
  {
    if |rungs| > 0 {
      var tail := rungs[1..];
      PlanSpec(original, tail);
      var rest := Plan(original, tail);
      assert forall h :: h in rungs <==> h == rungs[0] || h in tail;
      if StrictlyDecreasing(rungs) {
        assert StrictlyDecreasing(tail);
        assert forall h :: h in tail ==> h < rungs[0];
        if rungs[0] <= original && !SkipsSd(rungs[0], original) {
          var r := [rungs[0]] + rest;
          assert forall j :: 0 < j < |r| ==> r[j] == rest[j - 1] && r[j] in rest;
        }
      }
    }
  }

  /** The plan for each height of the table. */
  lemma PlanExamples()
    ensures Plan(2160, Heights) == [2160, 1080, 720]
    ensures Plan(1080, Heights) == [1080, 720]
    ensures Plan(720, Heights) == [720]
    ensures Plan(480, Heights) == [480]
  {
    var low := [720, 480];
    assert Plan(2160, [480]) == [] && Plan(1080, [480]) == [] && Plan(720, [480]) == [];
    assert Plan(480, [480]) == [480];
    assert Plan(2160, low) == [720] && Plan(1080, low) == [720] && Plan(720, low) == [720];
    assert Plan(480, low) == [480];
    assert Plan(2160, [1080] + low) == [1080, 720] && Plan(1080, [1080] + low) == [1080, 720];
    assert Plan(720, [1080] + low) == [720] && Plan(480, [1080] + low) == [480];
    assert Heights == [2160, 1080] + low;
  }

  /** An encode followed by the preparation of a directory encodes only
      at the encode's height and calls nothing directly but that preparation. */
  lemma PreparedShape(e: Action, dir: string)
    requires e.Encode?
    ensures EncodesWithin([e, Direct(MakeDirs(dir)), Direct(Chmod(dir, DirMode))], [e.height])
    ensures DirectOnlyOnDirectories([e, Direct(MakeDirs(dir)), Direct(Chmod(dir, DirMode))])
  {
  }

  /** The encoding branch encodes only at the target height and calls
      nothing directly but directory preparation. */
  lemma EncodeStepShape(job: MovieJob, target: int, st: LadderState, title: string, keptName: string)
    requires IsRung(target)
    ensures EncodesWithin(EncodeStep(job, target, st, title, keptName).actions, [target])
    ensures DirectOnlyOnDirectories(EncodeStep(job, target, st, title, keptName).actions)
  {
    var outputFile := OutputName(job.baseName, target);
    var fromPath := PathJoin(job.baseInput, st.source);
    var dir := ResolutionDir(job.outputPath, st.current, job.folder);
    var head := [Encode(fromPath, PathJoin(job.baseInput, outputFile), target, WidthOf(target), DisplayTitle(title)),
                 Direct(MakeDirs(dir)), Direct(Chmod(dir, DirMode))];
    var rest := Relocate(job.delete, IsProcessed(st.source, st.current), fromPath, PathJoin(dir, keptName));
    assert EncodeStep(job, target, st, title, keptName).actions == head + rest;
    PreparedShape(head[0], dir);
    assert EncodesWithin(rest, []) && DirectOnlyOnDirectories(rest) by {
      assert forall i :: 0 <= i < |rest| ==> rest[i].Run?;
    }
    EncodesWithinAppend(head, rest, [target], []);
    assert [target] + [] == [target];
    DirectOnlyOnDirectoriesAppend(head, rest);
  }

  /** The shape of one rung's actions: its only encode is at the target
      height, and it calls nothing directly but directory preparation. */
  lemma StepShape(v: Variant, job: MovieJob, target: int, st: LadderState)
    requires IsRung(target) && Rung(v, job, target, st).Success?
    ensures EncodesWithin(Rung(v, job, target, st).value.actions, [target])
    ensures DirectOnlyOnDirectories(Rung(v, job, target, st).value.actions)
  {
    if !Reusable(st, target) {
      var kept := if v.Corrected? then st.source else OutputName(job.baseName, target);
      EncodeStepShape(job, target, st, ParseTitle(job.baseName).value, kept);
    }
  }

  /** The loop's invariant: from the current state, a rung is at or below
      the current height exactly when it is at or below the source's. */
  ghost predicate LadderInvariant(original: int, rungs: seq<int>, st: LadderState) {
    forall i :: 0 <= i < |rungs| ==> (st.current >= rungs[i] <==> rungs[i] <= original)
  }

  /** The ladder visits exactly the planned rungs, in order, encodes only
      at planned heights and ends at the lowest planned rung holding a file
      that carries that rung's marker. */
  lemma {:induction false} LadderFollowsPlan(v: Variant, job: MovieJob, original: int, rungs: seq<int>, st: LadderState)
    requires AllRungs(rungs) && StrictlyDecreasing(rungs)
    requires LadderInvariant(original, rungs, st)
    requires RunLadder(v, job, original, rungs, st).Success?
    ensures var run := RunLadder(v, job, original, rungs, st).value;
      && run.visited == Plan(original, rungs)
      && (|run.visited| == 0 ==> run.state == st && run.actions == [])
      && (|run.visited| > 0 ==> run.state.current == Last(run.visited)
                                && IsProcessed(run.state.source, run.state.current))
      && EncodesWithin(run.actions, run.visited)
      && DirectOnlyOnDirectories(run.actions)
    decreases |rungs|
  {
    if |rungs| > 0 {
      var target := rungs[0];
      var tail := rungs[1..];
      assert AllRungs(tail) && StrictlyDecreasing(tail);
      if SkipsSd(target, original) || st.current < target {
        assert LadderInvariant(original, tail, st);
        LadderFollowsPlan(v, job, original, tail, st);
      } else {
        var step := Rung(v, job, target, st).value;
        StepShape(v, job, target, st);
        assert LadderInvariant(original, tail, step.state);
        LadderFollowsPlan(v, job, original, tail, step.state);
        var rest := RunLadder(v, job, original, tail, step.state).value;
        assert RunLadder(v, job, original, rungs, st).value
            == LadderRun(rest.state, step.actions + rest.actions, [target] + rest.visited);
        RunCons(target, step, rest);
      }
    }
  }

  /** A rung's step followed by the run of the remaining rungs from the
      step's state keeps the run's guarantees. */
  lemma RunCons(target: int, step: Step, rest: LadderRun)
    requires step.state.current == target && IsProcessed(step.state.source, target)
    requires EncodesWithin(step.actions, [target]) && DirectOnlyOnDirectories(step.actions)
    requires |rest.visited| == 0 ==> rest.state == step.state && rest.actions == []
    requires |rest.visited| > 0 ==> rest.state.current == Last(rest.visited)
                                    && IsProcessed(rest.state.source, rest.state.current)
    requires EncodesWithin(rest.actions, rest.visited) && DirectOnlyOnDirectories(rest.actions)
    ensures var run := LadderRun(rest.state, step.actions + rest.actions, [target] + rest.visited);
      && run.state.current == Last(run.visited)
      && IsProcessed(run.state.source, run.state.current)
      && EncodesWithin(run.actions, run.visited)
      && DirectOnlyOnDirectories(run.actions)
  {
    EncodesWithinAppend(step.actions, rest.actions, [target], rest.visited);
    DirectOnlyOnDirectoriesAppend(step.actions, rest.actions);
  }

  /** The ladder crashes only on a base name without a title, and only if
      some rung is visited. */
  lemma {:induction false} LadderCrashesOnlyOnTitle(v: Variant, job: MovieJob, original: int, rungs: seq<int>, st: LadderState)
    requires AllRungs(rungs) && StrictlyDecreasing(rungs)
    requires LadderInvariant(original, rungs, st)
    ensures RunLadder(v, job, original, rungs, st).Success?
        <==> Plan(original, rungs) == [] || ParseTitle(job.baseName).Some?
    decreases |rungs|
  {
    if |rungs| > 0 {
      var target := rungs[0];
      var tail := rungs[1..];
      assert AllRungs(tail) && StrictlyDecreasing(tail);
      assert st.current >= target <==> target <= original;
      if SkipsSd(target, original) || st.current < target {
        assert Plan(original, rungs) == Plan(original, tail);
        assert RunLadder(v, job, original, rungs, st) == RunLadder(v, job, original, tail, st);
        assert LadderInvariant(original, tail, st);
        LadderCrashesOnlyOnTitle(v, job, original, tail, st);
      } else {
        assert Plan(original, rungs) == [target] + Plan(original, tail);
        if ParseTitle(job.baseName).Some? {
          var step := Rung(v, job, target, st).value;
          assert LadderInvariant(original, tail, step.state);
          LadderCrashesOnlyOnTitle(v, job, original, tail, step.state);
        } else {
          assert Rung(v, job, target, st).Failure?;
        }
      }
    }
  }

  /** The closing block of `_process_movie_file`: prepare the directory of
      the final height, move (or copy) the working file into it, set its
      mode, and on delete remove the input directory. */
  function FileResult(job: MovieJob, st: LadderState): (r: seq<Action>)
    ensures var dir := ResolutionDir(job.outputPath, st.current, job.folder);
      && |r| >= 4
      && r[0] == Direct(MakeDirs(dir)) && r[1] == Direct(Chmod(dir, DirMode))
      && Places(r[2], PathJoin(dir, st.source))
      && r[3] == Run(Chmod(PathJoin(dir, st.source), FileMode))
      && (Vacates(r[2], PathJoin(job.baseInput, st.source)) <==> job.delete)
      && (job.delete <==> |r| == 5 && r[4] == Run(RmTree(job.baseInput)))
      && (forall i :: 2 <= i < |r| ==> r[i].Run?)
      && r[2].op.src == PathJoin(job.baseInput, st.source)
      && (!job.delete ==> |r| == 4)
  {
    var dir := ResolutionDir(job.outputPath, st.current, job.folder);
    var from := PathJoin(job.baseInput, st.source);
    var to := PathJoin(dir, st.source);
    [Direct(MakeDirs(dir)), Direct(Chmod(dir, DirMode)),
     Run(if job.delete then Move(from, to) else CopyFile(from, to)),
     Run(Chmod(to, FileMode))]
    + (if job.delete then [Run(RmTree(job.baseInput))] else [])
  }

  /** The job `_process_movie_file` sets up for a file in `baseInput`. */
  function JobFor(baseInput: string, outputPath: string, base: string, delete: bool): MovieJob {
    MovieJob(baseInput, outputPath, LastComponent(baseInput), base, delete)
  }

  /** `_process_movie_file` for the file `filename` in directory
      `baseInput`, whose probe listed `streams`, running the step `v`: the
      actions it performs, or the crash that ends the run. */
  function ProcessMovieFile(v: Variant, streams: seq<Stream>, baseInput: string, filename: string,
                            outputPath: string, delete: bool): (r: Result<seq<Action>, Crash>)
    ensures ProbeFile(streams) == NoResolution ==> r == Success([])
    ensures ProbeFile(streams) != NoResolution && BaseName(filename).None? ==>
      r == Failure(BaseNameMismatch(filename))
    ensures ProbeFile(streams) != NoResolution && BaseName(filename).Some? ==>
      (r.Success? <==> ParseTitle(BaseName(filename).value).Some?)
  {
    var original := ProbeFile(streams);
    if original == NoResolution then Success([])
    else match BaseName(filename)
      case None => Failure(BaseNameMismatch(filename))
      case Some(base) =>
        var job := JobFor(baseInput, outputPath, base, delete);
        var start := LadderState(original, filename);
        LadderSucceedsIffTitled(v, job, original, filename);
        var run :- RunLadder(v, job, original, Heights, start);
        Success(run.actions + FileResult(job, run.state))
  }

  /** The whole ladder from a probed height crashes exactly when the base
      name has no title. */
  lemma LadderSucceedsIffTitled(v: Variant, job: MovieJob, original: int, filename: string)
    requires IsRung(original)
    ensures AllRungs(Heights)
    ensures RunLadder(v, job, original, Heights, LadderState(original, filename)).Success?
        <==> ParseTitle(job.baseName).Some?
  {
    PlanHasSource(original);
    assert LadderInvariant(original, Heights, LadderState(original, filename));
    LadderCrashesOnlyOnTitle(v, job, original, Heights, LadderState(original, filename));
  }

  /** The ladder run with the step as written crashes on the same inputs
      as the corrected one and ends in the same state after the same rungs:
      the final filing is the same, only intermediate relocations differ. */
  lemma {:induction false} LadderVariantsAgree(job: MovieJob, original: int, rungs: seq<int>, st: LadderState)
    requires AllRungs(rungs)
    ensures RunLadder(AsWritten, job, original, rungs, st).Success?
        <==> RunLadder(Corrected, job, original, rungs, st).Success?
    ensures RunLadder(Corrected, job, original, rungs, st).Success? ==>
      && RunLadder(AsWritten, job, original, rungs, st).value.state
         == RunLadder(Corrected, job, original, rungs, st).value.state
      && RunLadder(AsWritten, job, original, rungs, st).value.visited
         == RunLadder(Corrected, job, original, rungs, st).value.visited
    decreases |rungs|
  {
    if |rungs| > 0 {
      var target := rungs[0];
      var tail := rungs[1..];
      assert AllRungs(tail);
      if SkipsSd(target, original) || st.current < target {
        LadderVariantsAgree(job, original, tail, st);
      } else if ParseTitle(job.baseName).Some? {
        VariantsSameState(job, target, st);
        LadderVariantsAgree(job, original, tail, Rung(Corrected, job, target, st).value.state);
      }
    }
  }

  /** A probed source's own height is planned, last among the planned rungs
      being 720 for HD sources and 480 for SD ones. */
  lemma PlanHasSource(original: int)
    requires IsRung(original)
    ensures AllRungs(Heights) && StrictlyDecreasing(Heights)
    ensures original in Plan(original, Heights)
    ensures Last(Plan(original, Heights)) == if original == 480 then 480 else 720
  {
    PlanExamples();
  }

  /** The log of a finished ladder followed by the final filing keeps the
      ladder's guarantees and files the working file in the directory of
      the final height. */
  lemma FiledLog(job: MovieJob, run: LadderRun)
    requires EncodesWithin(run.actions, run.visited) && DirectOnlyOnDirectories(run.actions)
    ensures var r := run.actions + FileResult(job, run.state);
      var dir := ResolutionDir(job.outputPath, run.state.current, job.folder);
      && (exists i :: 0 <= i < |r| && Places(r[i], PathJoin(dir, run.state.source)))
      && EncodesWithin(r, run.visited)
      && DirectOnlyOnDirectories(r)
      && Direct(MakeDirs(dir)) in Effective(r, true)
      && (job.delete <==> Last(r) == Run(RmTree(job.baseInput)))
  {
    var dir := ResolutionDir(job.outputPath, run.state.current, job.folder);
    FilingAppend(run.actions, FileResult(job, run.state), run.visited, dir, PathJoin(dir, run.state.source));
  }

  /** Appending a filing block (prepare `dir`, place the file at `dst`,
      then only `_run` operations) to a log keeps the log's guarantees. */
  lemma FilingAppend(log: seq<Action>, tail: seq<Action>, hs: seq<int>, dir: string, dst: string)
    requires EncodesWithin(log, hs) && DirectOnlyOnDirectories(log)
    requires |tail| >= 3 && tail[0] == Direct(MakeDirs(dir)) && tail[1] == Direct(Chmod(dir, DirMode))
    requires Places(tail[2], dst) && forall i :: 2 <= i < |tail| ==> tail[i].Run?
    ensures var r := log + tail;
      && (exists i :: 0 <= i < |r| && Places(r[i], dst))
      && EncodesWithin(r, hs)
      && DirectOnlyOnDirectories(r)
      && Direct(MakeDirs(dir)) in Effective(r, true)
      && Last(r) == Last(tail)
  {
    var r := log + tail;
    assert Places(r[|log| + 2], dst) by {
      assert r[|log| + 2] == tail[2];
    }
    assert EncodesWithin(r, hs) by {
      assert EncodesWithin(tail, []);
      EncodesWithinAppend(log, tail, hs, []);
      assert hs + [] == hs;
    }
    assert DirectOnlyOnDirectories(r) by {
      assert DirectOnlyOnDirectories(tail);
      DirectOnlyOnDirectoriesAppend(log, tail);
    }
    assert Direct(MakeDirs(dir)) in Effective(r, true) by {
      assert r[|log|] == Direct(MakeDirs(dir));
    }
  }

  /** A movie whose probe found a height and whose file name carries a
      title is filed, with either step, as a file carrying the marker of
      the lowest planned height, in that height's output directory; it is encoded only at
      planned heights; nothing but directory preparation bypasses the dry
      run, so a dry run still creates that directory. */
  lemma MovieFiledUnderLowestRung(v: Variant, streams: seq<Stream>, baseInput: string, filename: string,
                                  outputPath: string, delete: bool)
    requires ProbeFile(streams) != NoResolution
    requires BaseName(filename).Some? && ParseTitle(BaseName(filename).value).Some?
    ensures var r := ProcessMovieFile(v, streams, baseInput, filename, outputPath, delete);
      var original := ProbeFile(streams);
      var low := if original == 480 then 480 else 720;
      var dir := ResolutionDir(outputPath, low, LastComponent(baseInput));
      && r.Success?
      && (exists i, name :: 0 <= i < |r.value| && Places(r.value[i], PathJoin(dir, name))
                           && IsProcessed(name, low))
      && EncodesWithin(r.value, Plan(original, Heights))
      && DirectOnlyOnDirectories(r.value)
      && Direct(MakeDirs(dir)) in Effective(r.value, true)
      && (delete <==> Last(r.value) == Run(RmTree(baseInput)))
  {
    var original := ProbeFile(streams);
    var job := JobFor(baseInput, outputPath, BaseName(filename).value, delete);
    var start := LadderState(original, filename);
    PlanHasSource(original);
    assert LadderInvariant(original, Heights, start);
    LadderSucceedsIffTitled(v, job, original, filename);
    LadderFollowsPlan(v, job, original, Heights, start);
    var run := RunLadder(v, job, original, Heights, start).value;
    assert ProcessMovieFile(v, streams, baseInput, filename, outputPath, delete)
        == Success(run.actions + FileResult(job, run.state));
    FiledLog(job, run);
  }
}
