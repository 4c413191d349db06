/** Where `convert_all_to_pdfs` writes its conversions. It writes each one
    next to its source as `f.with_suffix(".pdf")`, and that path may itself
    be a listed file: `r.docx` beside `r.pdf`. Conversion then overwrites the
    listed PDF, and the merge list names that path twice. The corrected
    targets below live in a directory of their own, named after the whole
    source name, so no listed file is written and every survivor is merged
    exactly once. */
module Targets {
  import opened Results
  import opened Text
  import opened Paths
  import opened Listing
  import opened Dispatch
  import opened Pipeline

  /** Conversion as written, for a file whose PDF target is another listed
      file: the converter writes onto that file, and the merge list holds
      its path twice. */
  lemma ListedTargetMergedTwice(paths: seq<Path>, probe: Probe, i: nat, j: nat)
    requires i < |paths| && j < |paths| && i != j
    requires Ext(paths[i]) != ".pdf" && Survives(FileOf(paths[i]), probe)
    requires PdfTarget(paths[i]) == paths[j]
    ensures Call(paths[i], paths[j]) in ConvertAllToPdfs(paths, probe).calls
    ensures exists k, l ::
      && 0 <= k < l < |ConvertAllToPdfs(paths, probe).pdfs|
      && ConvertAllToPdfs(paths, probe).pdfs[k] == paths[j]
      && ConvertAllToPdfs(paths, probe).pdfs[l] == paths[j]
  {
    var files := FilesOf(paths);
    var pdfs := ExpectedPdfs(files, probe);
    var idx := SurvivorIndices(files, probe);
    PdfTargetSpec(paths[i]);
    assert files[j].IsPdf();
    assert i in idx && j in idx;
    var a :| 0 <= a < |idx| && idx[a] == i;
    var b :| 0 <= b < |idx| && idx[b] == j;
    ExpectedPdfsIndexed(files, probe);
    assert pdfs[a] == paths[j] && pdfs[b] == paths[j];
    if a < b {
      assert 0 <= a < b < |pdfs| && pdfs[a] == paths[j] && pdfs[b] == paths[j];
    } else {
      assert 0 <= b < a < |pdfs| && pdfs[b] == paths[j] && pdfs[a] == paths[j];
    }
    ExpectedCallsMember(files, i);
  }

  /** Every non-PDF file's call is among the converter calls. */
  lemma {:induction false} ExpectedCallsMember(files: seq<FileEntry>, i: nat)
    requires i < |files| && !files[i].IsPdf()
    ensures Call(files[i].path, files[i].pdfPath) in ExpectedCalls(files)
    decreases |files|
  {
    if i > 0 {
      assert files[1..][i - 1] == files[i];
      ExpectedCallsMember(files[1..], i - 1);
    }
  }

  /** A dot-free stem followed by a simple suffix reads back as that stem
      and that suffix. */
  lemma StemThenSuffix(d: string, stem: Name, s: string)
    requires forall j :: 0 <= j < |stem| ==> stem[j] != '.'
    requires SimpleSuffix(s)
    ensures Suffix(stem + s) == s && Stem(stem + s) == stem
  {
    SuffixSpec(stem);
    assert Stem(stem) == stem;
    WithSuffixRoundTrip(Path(d, stem), s);
    assert WithSuffix(Path(d, stem), s).value.name == stem + s;
  }

  /** `r.docx` has the suffix `.docx`, for every dot-free stem `r`. */
  lemma DocxSuffix(d: string, stem: Name)
    requires forall j :: 0 <= j < |stem| ==> stem[j] != '.'
    ensures Ext(Path(d, stem + ".docx")) == ".docx"
  {
    StemThenSuffix(d, stem, ".docx");
    LowerOfLower(".docx");
  }

  /** The PDF target of `r.docx` is `r.pdf`, for every dot-free stem `r`. */
  lemma DocxTarget(d: string, stem: Name)
    requires forall j :: 0 <= j < |stem| ==> stem[j] != '.'
    ensures PdfTarget(Path(d, stem + ".docx")) == Path(d, stem + ".pdf")
  {
    StemThenSuffix(d, stem, ".docx");
  }

  /** A Word file converts when COM is usable and Word succeeds. */
  lemma WordConverts(p: Path, probe: Probe)
    requires Ext(p) == ".docx"
    requires probe(p, PdfTarget(p)).comAvailable && probe(p, PdfTarget(p)).word.Pass?
    ensures Survives(FileOf(p), probe)
  {
    ClassifyText(Docx);
  }

  /** The smallest folder that shows it: `r.docx` and `r.pdf`, for any
      dot-free stem `r`, with Word automation converting `r.docx`. The names
      are distinct, as in any directory; the one conversion writes `r.pdf`,
      and the merge list is `r.pdf` twice. */
  lemma SharedImageExample(d: string, stem: Name, probe: Probe)
    requires forall j :: 0 <= j < |stem| ==> stem[j] != '.'
    requires probe(Path(d, stem + ".docx"), Path(d, stem + ".pdf")).comAvailable
    requires probe(Path(d, stem + ".docx"), Path(d, stem + ".pdf")).word.Pass?
    ensures var paths := [Path(d, stem + ".docx"), Path(d, stem + ".pdf")];
      && paths[0].name != paths[1].name
      && Call(paths[0], paths[1]) in ConvertAllToPdfs(paths, probe).calls
      && ConvertAllToPdfs(paths, probe).pdfs == [paths[1], paths[1]]
  {
    var docx := Path(d, stem + ".docx");
    var pdf := Path(d, stem + ".pdf");
    var paths := [docx, pdf];
    assert |ConvertAllToPdfs(paths, probe).pdfs| <= 2;
    DocxSuffix(d, stem);
    DocxTarget(d, stem);
    assert docx.name[|stem| + 1] != pdf.name[|stem| + 1];
    WordConverts(docx, probe);
    ListedTargetMergedTwice(paths, probe, 0, 1);
    TwiceInTwo(ConvertAllToPdfs(paths, probe).pdfs, pdf);
  }

  /** A list of at most two entries holding `p` at two positions is `[p, p]`. */
  lemma TwiceInTwo(xs: seq<Path>, p: Path)
    requires |xs| <= 2
    requires exists k, l :: 0 <= k < l < |xs| && xs[k] == p && xs[l] == p
    ensures xs == [p, p]
  {
  }

  /** The corrected target: the whole source name plus `.pdf`, inside
      `outDir`, a directory other than the listed folder. */
  function TargetIn(p: Path, outDir: string): (r: Path)
    ensures r.parent == outDir
    ensures |r.name| == |p.name| + 4 && r.name[..|p.name|] == p.name
  {
    Path(outDir, p.name + ".pdf")
  }

  function FileInto(p: Path, outDir: string): (r: FileEntry)
    ensures r.path == p && r.pdfPath == TargetIn(p, outDir)
    ensures r.IsPdf() <==> Ext(p) == ".pdf"
  {
    FileEntry(p, Classify(Ext(p)), TargetIn(p, outDir))
  }

  function FilesInto(paths: seq<Path>, outDir: string): (r: seq<FileEntry>)
    ensures |r| == |paths|
    ensures forall i :: 0 <= i < |paths| ==> r[i] == FileInto(paths[i], outDir)
  {
    seq(|paths|, i requires 0 <= i < |paths| => FileInto(paths[i], outDir))
  }

  /** The loop of `convert_all_to_pdfs` unchanged except for the targets. */
  function ConvertAllInto(paths: seq<Path>, outDir: string, probe: Probe): (r: Conversion)
    ensures r.pdfs == ExpectedPdfs(FilesInto(paths, outDir), probe)
    ensures r.calls == ExpectedCalls(FilesInto(paths, outDir))
    ensures r.events == RunEvents(FilesInto(paths, outDir), |paths|, probe)
  {
    var entries := FilesInto(paths, outDir);
    assert entries[..|entries|] == entries;
    ConvertPrefix(entries, |entries|, probe)
  }

  /** A folder listing: every path in `folder`, and no name twice. */
  predicate InFolder(paths: seq<Path>, folder: string) {
    && (forall i :: 0 <= i < |paths| ==> paths[i].parent == folder)
    && (forall i, j :: 0 <= i < j < |paths| ==> paths[i].name != paths[j].name)
  }

  /** With targets outside the folder, distinct files contribute distinct
      paths. */
  lemma ImagesDistinct(paths: seq<Path>, folder: string, outDir: string, i: nat, j: nat)
    requires InFolder(paths, folder) && outDir != folder
    requires i < j < |paths|
    ensures Image(FileInto(paths[i], outDir)) != Image(FileInto(paths[j], outDir))
  {
    var a := paths[i].name;
    var b := paths[j].name;
    if !FileInto(paths[i], outDir).IsPdf() && !FileInto(paths[j], outDir).IsPdf() && |a| == |b| {
      assert (a + ".pdf")[..|a|] == a;
      assert (b + ".pdf")[..|b|] == b;
    }
  }

  /** Corrected conversion: no converter call writes a listed file, and the
      merge list names each survivor's output once, with no path repeated. */
  lemma ConvertAllIntoDistinct(paths: seq<Path>, folder: string, outDir: string, probe: Probe)
    requires InFolder(paths, folder) && outDir != folder
    ensures forall c :: c in ConvertAllInto(paths, outDir, probe).calls ==> c.target !in paths
    ensures forall k, l :: 0 <= k < l < |ConvertAllInto(paths, outDir, probe).pdfs| ==>
      ConvertAllInto(paths, outDir, probe).pdfs[k] != ConvertAllInto(paths, outDir, probe).pdfs[l]
  {
    var files := FilesInto(paths, outDir);
    var pdfs := ExpectedPdfs(files, probe);
    var idx := SurvivorIndices(files, probe);
    ExpectedPdfsIndexed(files, probe);
    forall k, l | 0 <= k < l < |pdfs|
      ensures pdfs[k] != pdfs[l]
    {
      ImagesDistinct(paths, folder, outDir, idx[k], idx[l]);
    }
    ExpectedCallsTargets(files, outDir);
  }

  /** Every converter call writes the target its file carries. */
  lemma {:induction false} ExpectedCallsTargets(files: seq<FileEntry>, outDir: string)
    requires forall i :: 0 <= i < |files| ==> files[i].pdfPath.parent == outDir
    ensures forall c :: c in ExpectedCalls(files) ==> c.target.parent == outDir
    decreases |files|
  {
    if |files| > 0 {
      assert forall i :: 0 <= i < |files[1..]| ==> files[1..][i] == files[i + 1];
      ExpectedCallsTargets(files[1..], outDir);
    }
  }
}
