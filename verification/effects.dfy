/** What the script does to the outside world, as data: file-system
    operations, encoder runs and the crashes that end a run. The script
    performs most file operations through `_run`, which only logs them on a
    dry run; a few directory operations are called directly and happen
    regardless. */
module Effects {

  /** `os.chmod` mode of output directories (0o775). */
  const DirMode: int := 509
  /** `os.chmod` mode of output files (0o664). */
  const FileMode: int := 436

  datatype FsOp =
    | MakeDirs(path: string)
    | Chmod(path: string, mode: int)
    | Move(src: string, dst: string)
    | CopyFile(src: string, dst: string)
    | Remove(path: string)
    | RmTree(path: string)

  datatype Action =
    /** An operation called directly (`os.makedirs`, `os.chmod`). */
    | Direct(op: FsOp)
    /** An operation passed as a statement to `_run`. */
    | Run(op: FsOp)
    /** One `_encode_video` call. */
    | Encode(src: string, dst: string, height: int, width: int, title: string)

  /** The uncaught exceptions the modelled code can raise. */
  datatype Crash =
    /** `re.match(r"(.*\(\d+\))", filename)` found nothing. */
    | BaseNameMismatch(filename: string)
    /** `re.match(r"(.*) \(\d{4}\)", base_name)` found nothing. */
    | TitleMismatch(base: string)
    /** `re.search(r"(\d+)p.mp4", file_name)` found nothing. */
    | NoResolutionMatch(name: string)
    /** `master_file` was never assigned. */
    | MasterUnbound

  /** The actions of `log` that take effect: all of them, or on a dry run
      only the directly called ones. */
  function Effective(log: seq<Action>, dryRun: bool): (r: seq<Action>)
    ensures !dryRun ==> r == log
    ensures forall a :: a in r <==> a in log && (!dryRun || a.Direct?)
    ensures |r| <= |log|
    decreases |log|
  {
    if |log| == 0 then []
    else
      var rest := Effective(log[1..], dryRun);
      assert log == [log[0]] + log[1..];
      if !dryRun || log[0].Direct? then [log[0]] + rest else rest
  }

  /** The filter keeps the log's order: the actions of a log that take
      effect are those of its first part followed by those of the rest. */
  lemma {:induction false} EffectiveAppend(a: seq<Action>, b: seq<Action>, dryRun: bool)
    ensures Effective(a + b, dryRun) == Effective(a, dryRun) + Effective(b, dryRun)
    decreases |a|
  {
    if |a| == 0 {
      assert a + b == b;
    } else {
      assert (a + b)[0] == a[0] && (a + b)[1..] == a[1..] + b;
      EffectiveAppend(a[1..], b, dryRun);
    }
  }

  /** Every directly called operation in `log` prepares an output directory. */
  predicate DirectOnlyOnDirectories(log: seq<Action>) {
    forall i :: 0 <= i < |log| && log[i].Direct? ==>
      log[i].op.MakeDirs? || (log[i].op.Chmod? && log[i].op.mode == DirMode)
  }

  lemma DirectOnlyOnDirectoriesAppend(a: seq<Action>, b: seq<Action>)
    requires DirectOnlyOnDirectories(a) && DirectOnlyOnDirectories(b)
    ensures DirectOnlyOnDirectories(a + b)
  {
    forall i | 0 <= i < |a + b| && (a + b)[i].Direct?
      ensures (a + b)[i].op.MakeDirs? || ((a + b)[i].op.Chmod? && (a + b)[i].op.mode == DirMode)
    {
      if i >= |a| { assert (a + b)[i] == b[i - |a|]; }
    }
  }

  /** Every encode in `log` is at one of the heights `hs`. */
  predicate EncodesWithin(log: seq<Action>, hs: seq<int>) {
    forall i :: 0 <= i < |log| && log[i].Encode? ==> log[i].height in hs
  }

  lemma EncodesWithinAppend(a: seq<Action>, b: seq<Action>, ha: seq<int>, hb: seq<int>)
    requires EncodesWithin(a, ha) && EncodesWithin(b, hb)
    ensures EncodesWithin(a + b, ha + hb)
  {
    forall i | 0 <= i < |a + b| && (a + b)[i].Encode?
      ensures (a + b)[i].height in ha + hb
    {
      if i >= |a| { assert (a + b)[i] == b[i - |a|]; }
    }
  }

  /** On a dry run nothing but directory preparation takes effect. */
  lemma DryRunOnlyPreparesDirectories(log: seq<Action>)
    requires DirectOnlyOnDirectories(log)
    ensures forall a :: a in Effective(log, true) ==>
      a.Direct? && (a.op.MakeDirs? || (a.op.Chmod? && a.op.mode == DirMode))
  {
  }
}
