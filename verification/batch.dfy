/**
 `main` of scripts/translate-comments_02M.js: process every sketch file the
 walk lists, turn a raised error into a skipped report, and count the
 updated and the skipped files.
 */
module Batch {
  import opened Wrappers
  import opened Rewrite
  import opened Walk

  /** One entry of `results`: the path, whether it was rewritten, and the reason when it was not. */
  datatype Report = Report(path: string, changed: bool, reason: Option<string>)

  /** The `message` Node gives the two errors a file operation raises here. */
  function ErrorMessage(e: FsError): string {
    match e
    case NotFound(p) => "ENOENT: no such file or directory, open '" + p + "'"
    case NotWritable(p) => "EACCES: permission denied, open '" + p + "'"
  }

  /** The `try`/`catch` around `processFile`: its report, or an error report. */
  function Record(fs: FileSystem, path: string): (out: (Report, FileSystem))
    ensures out.0.path == path
    ensures out.0.changed <==> ProcessFile(fs, path).result == Ok(Updated)
    ensures out.1 == ProcessFile(fs, path).fs
    ensures var res := ProcessFile(fs, path).result;
      (res == Ok(Updated) ==> out.0.reason == None) &&
      (res == Ok(NoJavadoc) ==> out.0.reason == Some("no-javadoc")) &&
      (res == Ok(SkipOrNoChange) ==> out.0.reason == Some("skip-or-nochange")) &&
      (res.Err? ==> out.0.reason == Some("error:" + ErrorMessage(res.error)))
  {
    var step := ProcessFile(fs, path);
    var report := match step.result
      case Ok(Updated) => Report(path, true, None)
      case Ok(NoJavadoc) => Report(path, false, Some("no-javadoc"))
      case Ok(SkipOrNoChange) => Report(path, false, Some("skip-or-nochange"))
      case Err(e) => Report(path, false, Some("error:" + ErrorMessage(e)));
    (report, step.fs)
  }

  /** Each file processed in the state the previous ones left, one report per file. */
  function FoldFiles(step: (FileSystem, string) -> (Report, FileSystem), fs: FileSystem, files: seq<string>): (out: (seq<Report>, FileSystem))
    ensures |out.0| == |files|
    decreases |files|
  {
    if |files| == 0 then ([], fs)
    else
      var (r, fs1) := step(fs, files[0]);
      var (rs, fs2) := FoldFiles(step, fs1, files[1..]);
      ([r] + rs, fs2)
  }

  /** The loop of `main` as a fold of `Record` over the files. */
  function ProcessAll(fs: FileSystem, files: seq<string>): (out: (seq<Report>, FileSystem))
    ensures |out.0| == |files|
    ensures forall k :: 0 <= k < |files| ==> out.0[k].path == files[k]
  {
    ProcessAllPaths(fs, files);
    FoldFiles(Record, fs, files)
  }

  lemma {:induction false} ProcessAllPaths(fs: FileSystem, files: seq<string>)
    ensures forall k :: 0 <= k < |files| ==> FoldFiles(Record, fs, files).0[k].path == files[k]
    decreases |files|
  {
    if |files| > 0 {
      ProcessAllPaths(Record(fs, files[0]).1, files[1..]);
    }
  }

  /** `results.filter(r => r.changed).length`. */
  function CountChanged(rs: seq<Report>): nat
  {
    if |rs| == 0 then 0 else (if rs[0].changed then 1 else 0) + CountChanged(rs[1..])
  }

  /** The reports that were not rewritten, errors included. */
  function CountUnchanged(rs: seq<Report>): nat
  {
    if |rs| == 0 then 0 else (if rs[0].changed then 0 else 1) + CountUnchanged(rs[1..])
  }

  /** Every report is counted exactly once, as updated or as skipped. */
  lemma {:induction false} CountsPartition(rs: seq<Report>)
    ensures CountChanged(rs) + CountUnchanged(rs) == |rs|
  {
    if |rs| > 0 {
      CountsPartition(rs[1..]);
    }
  }

  lemma {:induction false} CountChangedAppend(a: seq<Report>, b: seq<Report>)
    ensures CountChanged(a + b) == CountChanged(a) + CountChanged(b)
  {
    if |a| == 0 {
      assert a + b == b;
    } else {
      assert (a + b)[1..] == a[1..] + b;
      CountChangedAppend(a[1..], b);
    }
  }

  /** The first step of the fold. */
  lemma FoldFilesStep(step: (FileSystem, string) -> (Report, FileSystem), fs: FileSystem, files: seq<string>, r: Report, fs1: FileSystem)
    requires |files| > 0 && (r, fs1) == step(fs, files[0])
    ensures FoldFiles(step, fs, files).0 == [r] + FoldFiles(step, fs1, files[1..]).0
    ensures FoldFiles(step, fs, files).1 == FoldFiles(step, fs1, files[1..]).1
  {
  }

  /** A loop that threads the file system through `step`, file by file. */
  method RunSteps(step: (FileSystem, string) -> (Report, FileSystem), fs: FileSystem, files: seq<string>)
    returns (reports: seq<Report>, after: FileSystem)
    ensures (reports, after) == FoldFiles(step, fs, files)
  {
    reports := [];
    after := fs;
    var i := 0;
    while i < |files|
      invariant 0 <= i <= |files|
      invariant FoldFiles(step, fs, files).0 == reports + FoldFiles(step, after, files[i..]).0
      invariant FoldFiles(step, fs, files).1 == FoldFiles(step, after, files[i..]).1
    {
      var rest := files[i..];
      var (r, next) := step(after, files[i]);
      FoldFilesStep(step, after, rest, r, next);
      assert rest[1..] == files[i + 1..];
      reports := reports + [r];
      after := next;
      i := i + 1;
    }
    assert files[i..] == [];
    assert reports + [] == reports;
  }

  /** The `for` loop of `main`: one report per file, in order, threading the file system through. */
  method ProcessFiles(fs: FileSystem, files: seq<string>) returns (reports: seq<Report>, after: FileSystem)
    ensures (reports, after) == ProcessAll(fs, files)
  {
    reports, after := RunSteps(Record, fs, files);
  }

  /** The two counts `main` prints. */
  method Tally(reports: seq<Report>) returns (changed: nat, skipped: nat)
    ensures changed == CountChanged(reports)
    ensures skipped == CountUnchanged(reports)
    ensures changed + skipped == |reports|
  {
    changed := 0;
    var j := 0;
    while j < |reports|
      invariant 0 <= j <= |reports|
      invariant changed == CountChanged(reports[..j])
    {
      assert reports[..j + 1] == reports[..j] + [reports[j]];
      CountChangedAppend(reports[..j], [reports[j]]);
      if reports[j].changed {
        changed := changed + 1;
      }
      j := j + 1;
    }
    assert reports[..j] == reports;
    CountsPartition(reports);
    skipped := |reports| - changed;
  }

  /** `main`: walk the tree, process each sketch file in walk order, and count. */
  method RunBatch(fs: FileSystem, root: string, tree: seq<Entry>)
    returns (reports: seq<Report>, after: FileSystem, total: nat, changed: nat, skipped: nat)
    ensures (reports, after) == ProcessAll(fs, SketchFiles(root, tree))
    ensures total == |SketchFiles(root, tree)| == |reports|
    ensures changed == CountChanged(reports)
    ensures skipped == CountUnchanged(reports)
    ensures changed + skipped == total
  {
    var files := SketchFiles(root, tree);
    reports, after := ProcessFiles(fs, files);
    total := |reports|;
    changed, skipped := Tally(reports);
  }

  /** Processing a list leaves every file outside it as it was. */
  lemma {:induction false} OnlyListedFilesChange(fs: FileSystem, files: seq<string>, p: string)
    requires p in fs.files && p !in files
    ensures p in ProcessAll(fs, files).1.files && ProcessAll(fs, files).1.files[p] == fs.files[p]
    decreases |files|
  {
    if |files| > 0 {
      var fs1 := Record(fs, files[0]).1;
      assert files[0] != p;
      assert p !in files[1..];
      OnlyListedFilesChange(fs1, files[1..], p);
    }
  }

  /**
   When no listed file has a block that would change (none has a block, or
   every block already holds Japanese), a run reports no update and leaves the
   file system as it was. A second run over the tool's own output meets this
   condition only when each translation holds Japanese before its closer
   (`Rewrite.RewriteIsIdempotentOnJapanese`); a verb suffix appended after
   the closer does not (`RewriteExamples.VerbOnClosingLineRewritesTwice`).
   */
  lemma {:induction false} NothingToRewriteChangesNothing(fs: FileSystem, files: seq<string>)
    requires forall p :: p in files && p in fs.files ==> Rewritten(fs.files[p]).None?
    ensures ProcessAll(fs, files).1 == fs
    ensures CountChanged(ProcessAll(fs, files).0) == 0
    decreases |files|
  {
    if |files| > 0 {
      assert files[0] in files;
      assert forall p :: p in files[1..] ==> p in files;
      NothingToRewriteChangesNothing(fs, files[1..]);
    }
  }
}
