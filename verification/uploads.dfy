/**
 The summary the file-upload endpoint returns: one report per upload that has a
 file name, in upload order, with its language, line count and character count.
 Reading the upload and decoding its bytes as UTF-8 happen before this point:
 each upload arrives here as its name and its decoded text.
 */
module Uploads {
  import opened Wrappers
  import opened Text
  import Language

  /** One uploaded file: its client-supplied name (possibly absent) and its text. */
  datatype Upload = Upload(filename: Option<string>, content: string)

  /** The per-file entry of the response. */
  datatype FileReport = FileReport(
    file: string,
    language: string,
    lines: nat,
    characters: nat,
    analysisStatus: string,
    warnings: seq<string>)

  /** The whole response of a successful request. */
  datatype UploadSummary = UploadSummary(
    success: bool,
    totalFiles: nat,
    analyzedFiles: nat,
    results: seq<FileReport>,
    analysisType: string)

  /** Python's truth test on the file name: present and not empty. */
  predicate HasFilename(u: Upload)
  {
    u.filename.Some? && u.filename.value != ""
  }

  /** `len(content.split('\n'))`. */
  function LineCount(content: string): (n: nat)
    ensures n == multiset(content)['\n'] + 1
    ensures n >= 1
  {
    SplitCount(content, '\n');
    |Split(content, '\n')|
  }

  /** The report for one named upload. */
  function Report(u: Upload): (r: FileReport)
    requires HasFilename(u)
    ensures r.file == u.filename.value
    ensures r.language == Language.DetectLanguage(u.filename.value)
    ensures r.language in Language.LanguageTags
    ensures r.lines == multiset(u.content)['\n'] + 1
    ensures r.characters == |u.content|
    ensures r.analysisStatus == "completed" && r.warnings == []
  {
    var name := u.filename.value;
    FileReport(name, Language.DetectLanguage(name), LineCount(u.content), |u.content|, "completed", [])
  }

  /** The uploads the endpoint summarises: those with a file name, in order. */
  function Named(files: seq<Upload>): (kept: seq<Upload>)
    ensures |kept| <= |files|
    ensures forall i :: 0 <= i < |kept| ==> HasFilename(kept[i])
    decreases |files|
  {
    if |files| == 0 then []
    else
      var last := files[|files| - 1];
      Named(files[..|files| - 1]) + (if HasFilename(last) then [last] else [])
  }

  /** Reports for a sequence of named uploads, position by position. */
  function Reports(kept: seq<Upload>): (rs: seq<FileReport>)
    requires forall i :: 0 <= i < |kept| ==> HasFilename(kept[i])
    ensures |rs| == |kept|
    ensures forall i :: 0 <= i < |kept| ==> rs[i] == Report(kept[i])
  {
    seq(|kept|, i requires 0 <= i < |kept| => Report(kept[i]))
  }

  /** The upload endpoint's summary, computed as the endpoint does it: one pass
      over the uploads, appending a report for each named one. */
  method AnalyzeUploadedFiles(files: seq<Upload>, analysisType: string) returns (s: UploadSummary)
    ensures s.success
    ensures s.totalFiles == |files|
    ensures s.analyzedFiles == |s.results|
    ensures s.results == Reports(Named(files))
    ensures s.analyzedFiles <= s.totalFiles
    ensures s.analyzedFiles == s.totalFiles <==> forall i :: 0 <= i < |files| ==> HasFilename(files[i])
    ensures s.analysisType == analysisType
  {
    var results: seq<FileReport> := [];
    for i := 0 to |files|
      invariant results == Reports(Named(files[..i]))
    {
      assert files[..i + 1][..i] == files[..i];
      if HasFilename(files[i]) {
        results := results + [Report(files[i])];
      }
    }
    assert files[..|files|] == files;
    NamedAll(files);
    s := UploadSummary(true, |files|, |results|, results, analysisType);
  }

  // ---------------------------------------------------------------------------
  // Properties of the selection
  // ---------------------------------------------------------------------------

  /** Selection distributes over concatenation, so it keeps upload order. */
  lemma {:induction false} NamedConcat(a: seq<Upload>, b: seq<Upload>)
    ensures Named(a + b) == Named(a) + Named(b)
    decreases |b|
  {
    if |b| == 0 {
      assert a + b == a;
    } else {
      var ab := a + b;
      assert ab[..|ab| - 1] == a + b[..|b| - 1];
      NamedConcat(a, b[..|b| - 1]);
    }
  }

  /** An upload is summarised exactly when it was received and has a file name. */
  lemma {:induction false} NamedMembers(files: seq<Upload>, u: Upload)
    ensures u in Named(files) <==> u in files && HasFilename(u)
    decreases |files|
  {
    if |files| > 0 {
      NamedMembers(files[..|files| - 1], u);
      assert files == files[..|files| - 1] + [files[|files| - 1]];
    }
  }

  /** Every upload is summarised exactly when every upload has a file name. */
  lemma {:induction false} NamedAll(files: seq<Upload>)
    ensures |Named(files)| == |files| <==> forall i :: 0 <= i < |files| ==> HasFilename(files[i])
    decreases |files|
  {
    if |files| > 0 {
      var init := files[..|files| - 1];
      NamedAll(init);
      assert forall i :: 0 <= i < |init| ==> init[i] == files[i];
    }
  }
}
