/**
 `analyze_layout`: walks the training directories, sends every entry that is not a JSON file
 to the prebuilt layout model, saves each result next to the document as `<path>.ocr.json`,
 and collects the documents the service rejected so that they can be listed at the end.

 The walk is given as a list of directories in visiting order. The service is the parameter
 `analyze`, which says for each document path how its analysis goes.
 */
module AnalyzeLayout {
  import opened Paths

  /** A directory visited by the walk: its path (`os.path.join(root, dir)`) and its `os.listdir` listing. */
  datatype Dir = Dir(path: string, entries: seq<string>)

  /**
   How the analysis of one document goes: it completes, and its OCR output is saved;
   `begin_analyze_document` raises `HttpResponseError`, which is caught; or `poller.result()`
   raises, which nothing catches, and the run ends there.
   */
  datatype Analysis = Completed | Rejected | Aborted

  /** One entry of the walk: its name in the listing and its path. */
  datatype Doc = Doc(file: string, path: string)

  /** `file.endswith((".json", ".jsonl"))`: JSON files are not analyzed. */
  predicate Skipped(file: string)
  {
    EndsWith(file, ".json") || EndsWith(file, ".jsonl")
  }

  /** Where the OCR output of a document is saved: `document_file_path + ".ocr.json"`. */
  function OcrPath(documentPath: string): (r: string)
  {
    documentPath + ".ocr.json"
  }

  /** The entries of one directory, in listing order. */
  function DirDocs(d: Dir): (ds: seq<Doc>)
    ensures |ds| == |d.entries|
    ensures forall i :: 0 <= i < |ds| ==> ds[i] == Doc(d.entries[i], Join(d.path, d.entries[i]))
  {
    seq(|d.entries|, i requires 0 <= i < |d.entries| => Doc(d.entries[i], Join(d.path, d.entries[i])))
  }

  /** All entries of the walk, in traversal order. */
  function Docs(tree: seq<Dir>): (r: seq<Doc>)
  {
    if tree == [] then [] else Docs(tree[..|tree| - 1]) + DirDocs(tree[|tree| - 1])
  }

  /** The entry is analyzed and its analysis ends the run. */
  predicate AbortsAt(doc: Doc, analyze: string -> Analysis)
  {
    !Skipped(doc.file) && analyze(doc.path) == Aborted
  }

  /** The paths of the analyzed entries the service rejected, in traversal order. */
  function RejectedPaths(docs: seq<Doc>, analyze: string -> Analysis): (r: seq<string>)
  {
    if docs == [] then []
    else
      var last := docs[|docs| - 1];
      RejectedPaths(docs[..|docs| - 1], analyze)
      + (if !Skipped(last.file) && analyze(last.path) == Rejected then [last.path] else [])
  }

  /** The OCR outputs saved for the analyzed entries that completed, in traversal order. */
  function OcrOutputs(docs: seq<Doc>, analyze: string -> Analysis): (r: seq<string>)
  {
    if docs == [] then []
    else
      var last := docs[|docs| - 1];
      OcrOutputs(docs[..|docs| - 1], analyze)
      + (if !Skipped(last.file) && analyze(last.path) == Completed then [OcrPath(last.path)] else [])
  }

  /** The index of the first entry whose analysis ends the run, or `|docs|` if none does. */
  function AbortIndex(docs: seq<Doc>, analyze: string -> Analysis): (k: nat)
    ensures k <= |docs|
    ensures forall j :: 0 <= j < k ==> !AbortsAt(docs[j], analyze)
    ensures k < |docs| ==> AbortsAt(docs[k], analyze)
  {
    if docs == [] then 0
    else
      var k := AbortIndex(docs[..|docs| - 1], analyze);
      if k < |docs| - 1 || AbortsAt(docs[|docs| - 1], analyze) then k else |docs|
  }

  /** The outcome of a batch: the rejected files, the OCR outputs saved, whether the summary was shown and whether the run finished. */
  datatype Report = Report(incompatibleFiles: seq<string>, ocrOutputs: seq<string>, summaryShown: bool, finished: bool)

  /** What a batch over `docs` produces: everything before the first aborting entry is processed. */
  function ExpectedReport(docs: seq<Doc>, analyze: string -> Analysis): (r: Report)
  {
    var k := AbortIndex(docs, analyze);
    var incompatible := RejectedPaths(docs[..k], analyze);
    var finished := k == |docs|;
    Report(incompatible, OcrOutputs(docs[..k], analyze), finished && |incompatible| > 0, finished)
  }

  lemma AbortIndexUnique(docs: seq<Doc>, analyze: string -> Analysis, n: nat)
    requires n <= |docs|
    requires forall j :: 0 <= j < n ==> !AbortsAt(docs[j], analyze)
    requires n < |docs| ==> AbortsAt(docs[n], analyze)
    ensures AbortIndex(docs, analyze) == n
  {
  }

  lemma {:induction false} DocsPrefix(tree: seq<Dir>, i: nat)
    requires i <= |tree|
    ensures |Docs(tree[..i])| <= |Docs(tree)|
    ensures Docs(tree)[..|Docs(tree[..i])|] == Docs(tree[..i])
    decreases |tree| - i
  {
    if i < |tree| {
      DocsPrefix(tree[..|tree| - 1], i);
      assert tree[..|tree| - 1][..i] == tree[..i];
    } else {
      assert tree[..i] == tree;
    }
  }

  lemma DocsStep(tree: seq<Dir>, i: nat)
    requires i < |tree|
    ensures Docs(tree[..i + 1]) == Docs(tree[..i]) + DirDocs(tree[i])
  {
    assert tree[..i + 1][..i] == tree[..i];
  }

  lemma DirDocsStep(d: Dir, j: nat)
    requires j < |d.entries|
    ensures DirDocs(d)[..j + 1] == DirDocs(d)[..j] + [Doc(d.entries[j], Join(d.path, d.entries[j]))]
  {
  }

  /**
   The entries processed so far are a prefix of the walk, and the next entry processed is the
   one after it.
   */
  lemma ProcessedPrefix(tree: seq<Dir>, i: nat, j: nat)
    requires i < |tree| && j < |tree[i].entries|
    ensures var p := Docs(tree[..i]) + DirDocs(tree[i])[..j];
            |p| < |Docs(tree)| && Docs(tree)[..|p|] == p
            && Docs(tree)[|p|] == DirDocs(tree[i])[j]
  {
    DocsPrefix(tree, i + 1);
    DocsStep(tree, i);
    PrefixThrough(Docs(tree), Docs(tree[..i]), DirDocs(tree[i]), j);
  }

  /** If `a + b` is a prefix of `all`, so is `a + b[..j]`, and `b[j]` comes right after it. */
  lemma PrefixThrough<T>(all: seq<T>, a: seq<T>, b: seq<T>, j: nat)
    requires |a + b| <= |all| && all[..|a + b|] == a + b && j < |b|
    ensures |a + b[..j]| < |all| && all[..|a + b[..j]|] == a + b[..j] && all[|a + b[..j]|] == b[j]
  {
    assert (a + b)[..|a| + j] == a + b[..j];
    assert (a + b)[|a| + j] == b[j];
  }

  /** Adding a processed entry to the prefix extends the rejected list and the outputs by that entry alone. */
  lemma ReportStep(docs: seq<Doc>, doc: Doc, analyze: string -> Analysis)
    ensures RejectedPaths(docs + [doc], analyze)
            == RejectedPaths(docs, analyze) + (if !Skipped(doc.file) && analyze(doc.path) == Rejected then [doc.path] else [])
    ensures OcrOutputs(docs + [doc], analyze)
            == OcrOutputs(docs, analyze) + (if !Skipped(doc.file) && analyze(doc.path) == Completed then [OcrPath(doc.path)] else [])
  {
    assert (docs + [doc])[..|docs|] == docs;
  }

  lemma NoAbortStep(docs: seq<Doc>, doc: Doc, analyze: string -> Analysis)
    requires forall k :: 0 <= k < |docs| ==> !AbortsAt(docs[k], analyze)
    requires !AbortsAt(doc, analyze)
    ensures forall k :: 0 <= k < |docs + [doc]| ==> !AbortsAt((docs + [doc])[k], analyze)
  {
  }

  lemma NoAbortConcat(a: seq<Doc>, b: seq<Doc>, analyze: string -> Analysis)
    requires forall k :: 0 <= k < |a| ==> !AbortsAt(a[k], analyze)
    requires forall k :: 0 <= k < |b| ==> !AbortsAt(b[k], analyze)
    ensures forall k :: 0 <= k < |a + b| ==> !AbortsAt((a + b)[k], analyze)
  {
    forall k | 0 <= k < |a + b| ensures !AbortsAt((a + b)[k], analyze) {
      if k < |a| {
        assert (a + b)[k] == a[k];
      } else {
        assert (a + b)[k] == b[k - |a|];
      }
    }
  }

  /** A run that meets an aborting entry right after the processed prefix `done` reports that prefix, unfinished. */
  lemma StopsAt(tree: seq<Dir>, i: nat, j: nat, done: seq<Doc>, analyze: string -> Analysis)
    requires i < |tree| && j < |tree[i].entries|
    requires done == Docs(tree[..i]) + DirDocs(tree[i])[..j]
    requires forall k :: 0 <= k < |done| ==> !AbortsAt(done[k], analyze)
    requires AbortsAt(DirDocs(tree[i])[j], analyze)
    ensures ExpectedReport(Docs(tree), analyze)
            == Report(RejectedPaths(done, analyze), OcrOutputs(done, analyze), false, false)
  {
    ProcessedPrefix(tree, i, j);
    AbortIndexUnique(Docs(tree), analyze, |done|);
  }

  /**
   One directory's contribution to a run: what it processes extends the rejected list and the
   outputs of the prefix before it; if it aborts, the run's report is that of the entries
   processed so far, and otherwise the processed prefix now covers the directory.
   */
  lemma DirectoryStep(tree: seq<Dir>, i: nat, done: seq<Doc>, analyze: string -> Analysis)
    requires i < |tree| && done == Docs(tree[..i])
    requires forall k :: 0 <= k < |done| ==> !AbortsAt(done[k], analyze)
    ensures var ds := DirDocs(tree[i]);
            var n := AbortIndex(ds, analyze);
            var next := done + ds[..n];
            && RejectedPaths(next, analyze) == RejectedPaths(done, analyze) + RejectedPaths(ds[..n], analyze)
            && OcrOutputs(next, analyze) == OcrOutputs(done, analyze) + OcrOutputs(ds[..n], analyze)
            && (forall k :: 0 <= k < |next| ==> !AbortsAt(next[k], analyze))
            && (n < |ds| ==> ExpectedReport(Docs(tree), analyze)
                             == Report(RejectedPaths(next, analyze), OcrOutputs(next, analyze), false, false))
            && (n == |ds| ==> next == Docs(tree[..i + 1]))
  {
    var ds := DirDocs(tree[i]);
    var n := AbortIndex(ds, analyze);
    RejectedPathsConcat(done, ds[..n], analyze);
    OcrOutputsConcat(done, ds[..n], analyze);
    NoAbortConcat(done, ds[..n], analyze);
    if n < |ds| {
      StopsAt(tree, i, n, done + ds[..n], analyze);
    } else {
      assert ds[..n] == ds;
      DocsStep(tree, i);
    }
  }

  /** A run that processed the whole walk without an abort reports all of it, finished. */
  lemma FinishesAt(tree: seq<Dir>, done: seq<Doc>, analyze: string -> Analysis)
    requires done == Docs(tree[..|tree|])
    requires forall k :: 0 <= k < |done| ==> !AbortsAt(done[k], analyze)
    ensures var r := RejectedPaths(done, analyze);
            ExpectedReport(Docs(tree), analyze) == Report(r, OcrOutputs(done, analyze), |r| > 0, true)
  {
    assert tree[..|tree|] == tree;
    AbortIndexUnique(Docs(tree), analyze, |done|);
    assert Docs(tree)[..|done|] == done;
  }

  /**
   The loop of `analyze_layout` over the entries of one directory: analyzes every non-JSON
   entry, saving the OCR output of each completed analysis and recording each rejected
   document before going on to the next entry. It stops at the first analysis that aborts,
   and says so. The documents it rejected and the outputs it saved are returned, to be added
   to those of the directories before it.
   */
  method AnalyzeDirectory(d: Dir, analyze: string -> Analysis)
    returns (incompatibleFiles: seq<string>, outputs: seq<string>, aborted: bool)
    ensures var ds := DirDocs(d);
            var n := AbortIndex(ds, analyze);
            && (aborted <==> n < |ds|)
            && incompatibleFiles == RejectedPaths(ds[..n], analyze)
            && outputs == OcrOutputs(ds[..n], analyze)
  {
    incompatibleFiles, outputs, aborted := [], [], false;
    ghost var done: seq<Doc> := [];
    for j := 0 to |d.entries|
      invariant done == DirDocs(d)[..j]
      invariant forall k :: 0 <= k < j ==> !AbortsAt(done[k], analyze)
      invariant incompatibleFiles == RejectedPaths(done, analyze)
      invariant outputs == OcrOutputs(done, analyze)
    {
      var file := d.entries[j];
      var documentFilePath := Join(d.path, file);
      DirDocsStep(d, j);
      ReportStep(done, Doc(file, documentFilePath), analyze);
      if !Skipped(file) {
        var ocrJsonFilePath := OcrPath(documentFilePath);
        var outcome := analyze(documentFilePath);
        if outcome == Rejected {
          incompatibleFiles := incompatibleFiles + [documentFilePath];
        } else if outcome == Aborted {
          AbortIndexUnique(DirDocs(d), analyze, j);
          aborted := true;
          return;
        } else {
          outputs := outputs + [ocrJsonFilePath];
        }
      }
      NoAbortStep(done, Doc(file, documentFilePath), analyze);
      done := done + [Doc(file, documentFilePath)];
    }
    AbortIndexUnique(DirDocs(d), analyze, |d.entries|);
    assert DirDocs(d)[..|d.entries|] == DirDocs(d);
  }

  /**
   `analyze_layout`: analyzes the entries of every directory in turn; an aborted analysis
   ends the run, and the summary of rejected files is printed only when the run finished
   with some file rejected.
   */
  method AnalyzeBatch(tree: seq<Dir>, analyze: string -> Analysis) returns (report: Report)
    ensures report == ExpectedReport(Docs(tree), analyze)
  {
    var incompatibleFiles: seq<string> := [];
    var outputs: seq<string> := [];
    ghost var done: seq<Doc> := [];
    for i := 0 to |tree|
      invariant done == Docs(tree[..i])
      invariant forall k :: 0 <= k < |done| ==> !AbortsAt(done[k], analyze)
      invariant incompatibleFiles == RejectedPaths(done, analyze)
      invariant outputs == OcrOutputs(done, analyze)
    {
      ghost var ds := DirDocs(tree[i]);
      ghost var n := AbortIndex(ds, analyze);
      var rejected, saved, aborted := AnalyzeDirectory(tree[i], analyze);
      DirectoryStep(tree, i, done, analyze);
      incompatibleFiles := incompatibleFiles + rejected;
      outputs := outputs + saved;
      if aborted {
        report := Report(incompatibleFiles, outputs, false, false);
        return;
      }
      done := done + ds[..n];
    }
    FinishesAt(tree, done, analyze);
    report := Report(incompatibleFiles, outputs, |incompatibleFiles| > 0, true);
  }

  // ---------------------------------------------------------------------------------------
  // Properties of a batch
  // ---------------------------------------------------------------------------------------

  /**
   A path is listed as incompatible exactly when it belongs to an analyzed (non-JSON) entry
   whose analysis was rejected: JSON files and completed analyses are never listed.
   */
  lemma {:induction false} RejectedPathsMember(docs: seq<Doc>, analyze: string -> Analysis, p: string)
    ensures p in RejectedPaths(docs, analyze)
            <==> exists i :: 0 <= i < |docs| && docs[i].path == p && !Skipped(docs[i].file) && analyze(docs[i].path) == Rejected
  {
    if docs != [] {
      var n := |docs| - 1;
      var pre := docs[..n];
      RejectedPathsMember(pre, analyze, p);
      if p in RejectedPaths(pre, analyze) {
        var i :| 0 <= i < |pre| && pre[i].path == p && !Skipped(pre[i].file) && analyze(pre[i].path) == Rejected;
        assert docs[i] == pre[i];
      }
      if exists i :: 0 <= i < |docs| && docs[i].path == p && !Skipped(docs[i].file) && analyze(docs[i].path) == Rejected {
        var i :| 0 <= i < |docs| && docs[i].path == p && !Skipped(docs[i].file) && analyze(docs[i].path) == Rejected;
        if i < n {
          assert pre[i] == docs[i];
        }
      }
    }
  }

  /**
   An OCR output is saved exactly for each analyzed (non-JSON) entry whose analysis completed,
   next to that entry's document.
   */
  lemma {:induction false} OcrOutputsMember(docs: seq<Doc>, analyze: string -> Analysis, p: string)
    ensures p in OcrOutputs(docs, analyze)
            <==> exists i :: 0 <= i < |docs| && p == OcrPath(docs[i].path) && !Skipped(docs[i].file) && analyze(docs[i].path) == Completed
  {
    if docs != [] {
      var n := |docs| - 1;
      var pre := docs[..n];
      OcrOutputsMember(pre, analyze, p);
      if p in OcrOutputs(pre, analyze) {
        var i :| 0 <= i < |pre| && p == OcrPath(pre[i].path) && !Skipped(pre[i].file) && analyze(pre[i].path) == Completed;
        assert docs[i] == pre[i];
      }
      if exists i :: 0 <= i < |docs| && p == OcrPath(docs[i].path) && !Skipped(docs[i].file) && analyze(docs[i].path) == Completed {
        var i :| 0 <= i < |docs| && p == OcrPath(docs[i].path) && !Skipped(docs[i].file) && analyze(docs[i].path) == Completed;
        if i < n {
          assert pre[i] == docs[i];
        }
      }
    }
  }

  /** The incompatible list keeps traversal order: the list for a walk is that of its first part followed by that of the rest. */
  lemma {:induction false} RejectedPathsConcat(a: seq<Doc>, b: seq<Doc>, analyze: string -> Analysis)
    ensures RejectedPaths(a + b, analyze) == RejectedPaths(a, analyze) + RejectedPaths(b, analyze)
    decreases |b|
  {
    if b == [] {
      assert a + b == a;
    } else {
      var n := |b| - 1;
      assert (a + b)[..|a + b| - 1] == a + b[..n];
      RejectedPathsConcat(a, b[..n], analyze);
    }
  }

  /** The OCR outputs keep traversal order in the same way. */
  lemma {:induction false} OcrOutputsConcat(a: seq<Doc>, b: seq<Doc>, analyze: string -> Analysis)
    ensures OcrOutputs(a + b, analyze) == OcrOutputs(a, analyze) + OcrOutputs(b, analyze)
    decreases |b|
  {
    if b == [] {
      assert a + b == a;
    } else {
      var n := |b| - 1;
      assert (a + b)[..|a + b| - 1] == a + b[..n];
      OcrOutputsConcat(a, b[..n], analyze);
    }
  }

  /** A rejection does not stop the batch: the run ends early only at an entry whose analysis aborts. */
  lemma RejectionContinues(docs: seq<Doc>, analyze: string -> Analysis)
    requires forall i :: 0 <= i < |docs| ==> !AbortsAt(docs[i], analyze)
    ensures ExpectedReport(docs, analyze).finished
    ensures ExpectedReport(docs, analyze).incompatibleFiles == RejectedPaths(docs, analyze)
    ensures ExpectedReport(docs, analyze).ocrOutputs == OcrOutputs(docs, analyze)
  {
    AbortIndexUnique(docs, analyze, |docs|);
    assert docs[..|docs|] == docs;
  }

  /** The run finishes exactly when no analyzed entry aborts; skipped entries never end it. */
  lemma FinishedIff(docs: seq<Doc>, analyze: string -> Analysis)
    ensures ExpectedReport(docs, analyze).finished <==> forall i :: 0 <= i < |docs| ==> !AbortsAt(docs[i], analyze)
  {
  }

  /** The summary of skipped files is shown exactly when the run finished with some file rejected. */
  lemma SummaryShownIff(docs: seq<Doc>, analyze: string -> Analysis)
    ensures ExpectedReport(docs, analyze).summaryShown
            <==> ExpectedReport(docs, analyze).finished && ExpectedReport(docs, analyze).incompatibleFiles != []
  {
  }

  /**
   An OCR output is saved next to its document as `<file>.ocr.json`, a name ending in `.json`,
   so a later run skips it instead of analyzing it again.
   */
  lemma OcrOutputSkipped(dirPath: string, file: string)
    ensures OcrPath(Join(dirPath, file)) == Join(dirPath, file + ".ocr.json")
    ensures Skipped(file + ".ocr.json")
  {
    JoinAppend(dirPath, file, ".ocr.json");
    OcrNameEndsWithJson(file);
  }

  lemma OcrNameEndsWithJson(file: string)
    ensures EndsWith(file + ".ocr.json", ".json")
  {
    EndsWithConcat(file, ".ocr.json");
    assert EndsWith(".ocr.json", ".json");
    EndsWithTrans(file + ".ocr.json", ".ocr.json", ".json");
  }
}
