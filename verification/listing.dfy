/** `SUPPORTED_EXTS` and `list_supported_files`: the non-recursive scan of the
    chosen folder. The folder's contents are given as the sequence of entries
    `Path.iterdir()` yields, each flagged with what `is_file()` answers. */
module Listing {
  import opened Results
  import opened Text
  import opened Paths

  const SupportedExts: seq<string> := [".doc", ".docx", ".ppt", ".pptx", ".pdf"]

  /** `path.suffix.lower()`, the extension every decision is keyed on. */
  function Ext(p: Path): string {
    Lower(Suffix(p.name))
  }

  predicate IsSupported(p: Path) {
    Ext(p) in SupportedExts
  }

  /** A lower-cased extension, with the five the program knows by name. */
  datatype Extension = Doc | Docx | Ppt | Pptx | Pdf | Other(text: string) {
    function Text(): string {
      match this
      case Doc => ".doc"
      case Docx => ".docx"
      case Ppt => ".ppt"
      case Pptx => ".pptx"
      case Pdf => ".pdf"
      case Other(t) => t
    }
  }

  /** Names a lower-cased extension; the text is kept, so nothing is lost. */
  function Classify(s: string): (e: Extension)
    ensures e.Text() == s
    ensures e.Other? <==> s !in SupportedExts
  {
    if s == ".doc" then Doc
    else if s == ".docx" then Docx
    else if s == ".ppt" then Ppt
    else if s == ".pptx" then Pptx
    else if s == ".pdf" then Pdf
    else Other(s)
  }

  /** Every extension except an `Other` spelling a known one is recovered
      from its text. */
  lemma ClassifyText(e: Extension)
    requires e.Other? ==> e.text !in SupportedExts
    ensures Classify(e.Text()) == e
  {
  }

  /** A listed file together with what the conversion loop derives from its
      path: the lower-cased extension (`f.suffix.lower()`) and the path of its
      PDF rendition (`f.with_suffix(".pdf")`). */
  datatype FileEntry = FileEntry(path: Path, ext: Extension, pdfPath: Path) {
    predicate IsPdf() {
      ext == Pdf
    }
  }

  /** `f.with_suffix(".pdf")`, which cannot raise for this suffix. */
  function PdfTarget(p: Path): (r: Path)
    ensures r.parent == p.parent
  {
    WithSuffixRoundTrip(p, ".pdf");
    WithSuffix(p, ".pdf").value
  }

  function FileOf(p: Path): (r: FileEntry)
    ensures r.path == p && r.ext.Text() == Ext(p) && r.pdfPath == PdfTarget(p)
    ensures r.IsPdf() <==> Ext(p) == ".pdf"
  {
    FileEntry(p, Classify(Ext(p)), PdfTarget(p))
  }

  /** The PDF rendition sits next to its source, keeps its stem and is itself
      recognised as a PDF. */
  lemma PdfTargetSpec(p: Path)
    ensures WithSuffix(p, ".pdf") == Some(PdfTarget(p))
    ensures PdfTarget(p).parent == p.parent
    ensures Stem(PdfTarget(p).name) == Stem(p.name)
    ensures Suffix(PdfTarget(p).name) == ".pdf"
    ensures FileOf(PdfTarget(p)).IsPdf()
  {
    WithSuffixRoundTrip(p, ".pdf");
    PdfIsLower();
    assert Ext(PdfTarget(p)) == ".pdf";
  }

  lemma PdfIsLower()
    ensures Lower(".pdf") == ".pdf"
  {
    LowerOfLower(".pdf");
  }

  function FilesOf(paths: seq<Path>): (r: seq<FileEntry>)
    ensures |r| == |paths|
    ensures forall i :: 0 <= i < |paths| ==> r[i] == FileOf(paths[i])
  {
    seq(|paths|, i requires 0 <= i < |paths| => FileOf(paths[i]))
  }

  /** One item of `Path.iterdir()` and the answer of its `is_file()`. */
  datatype DirEntry = DirEntry(path: Path, isFile: bool)

  predicate Listed(e: DirEntry) {
    e.isFile && IsSupported(e.path)
  }

  function PathsOf(entries: seq<DirEntry>): (r: seq<Path>)
    ensures |r| == |entries|
    ensures forall i :: 0 <= i < |entries| ==> r[i] == entries[i].path
  {
    seq(|entries|, i requires 0 <= i < |entries| => entries[i].path)
  }

  /** `a` is `b` with some elements left out, order kept. */
  predicate IsSubsequence<T(==)>(a: seq<T>, b: seq<T>)
    decreases |b|
  {
    && |a| <= |b|
    && (|a| == 0 || (a[0] == b[0] && IsSubsequence(a[1..], b[1..])) || IsSubsequence(a, b[1..]))
  }

  /** The regular files of the listing whose lower-cased suffix is supported,
      in enumeration order, and nothing else. */
  function ListSupportedFiles(entries: seq<DirEntry>): (r: seq<Path>)
    ensures |r| <= |entries|
    ensures forall p :: p in r <==> DirEntry(p, true) in entries && IsSupported(p)
    ensures IsSubsequence(r, PathsOf(entries))
    ensures (forall i :: 0 <= i < |entries| ==> Listed(entries[i])) ==> r == PathsOf(entries)
    ensures r == [] <==> forall i :: 0 <= i < |entries| ==> !Listed(entries[i])
    decreases |entries|
  {
    if |entries| == 0 then []
    else
      var rest := ListSupportedFiles(entries[1..]);
      assert PathsOf(entries)[1..] == PathsOf(entries[1..]);
      assert forall e :: e in entries <==> e == entries[0] || e in entries[1..];
      if Listed(entries[0]) then [entries[0].path] + rest else rest
  }

  /** The positions holding `true`, in increasing order. */
  function TrueIndices(flags: seq<bool>): (idx: seq<nat>)
    ensures forall k :: 0 <= k < |idx| ==> idx[k] < |flags|
    ensures forall k, l :: 0 <= k < l < |idx| ==> idx[k] < idx[l]
    ensures forall i :: 0 <= i < |flags| ==> (flags[i] <==> i in idx)
    decreases |flags|
  {
    if |flags| == 0 then []
    else
      var n := |flags| - 1;
      var prev := TrueIndices(flags[..n]);
      assert forall i :: 0 <= i < n ==> flags[..n][i] == flags[i];
      prev + if flags[n] then [n] else []
  }

  function ListedFlags(entries: seq<DirEntry>): (flags: seq<bool>)
    ensures |flags| == |entries|
    ensures forall i :: 0 <= i < |entries| ==> flags[i] == Listed(entries[i])
  {
    seq(|entries|, i requires 0 <= i < |entries| => Listed(entries[i]))
  }

  /** The positions of the entries `list_supported_files` keeps, in
      increasing order. */
  function ListedIndices(entries: seq<DirEntry>): (idx: seq<nat>)
    ensures forall k :: 0 <= k < |idx| ==> idx[k] < |entries|
    ensures forall k, l :: 0 <= k < l < |idx| ==> idx[k] < idx[l]
    ensures forall i :: 0 <= i < |entries| ==> (Listed(entries[i]) <==> i in idx)
  {
    TrueIndices(ListedFlags(entries))
  }

  lemma ListedIndicesSnoc(entries: seq<DirEntry>)
    requires |entries| > 0
    ensures ListedIndices(entries) == ListedIndices(entries[..|entries| - 1])
      + if Listed(entries[|entries| - 1]) then [|entries| - 1] else []
  {
    var n := |entries| - 1;
    var flags := ListedFlags(entries);
    assert flags[..n] == ListedFlags(entries[..n]);
  }

  lemma {:induction false} ListSupportedFilesAppend(a: seq<DirEntry>, b: seq<DirEntry>)
    ensures ListSupportedFiles(a + b) == ListSupportedFiles(a) + ListSupportedFiles(b)
    decreases |a|
  {
    if |a| > 0 {
      assert (a + b)[1..] == a[1..] + b;
      ListSupportedFilesAppend(a[1..], b);
    } else {
      assert a + b == b;
    }
  }

  lemma ListSupportedFilesSnoc(entries: seq<DirEntry>)
    requires |entries| > 0
    ensures ListSupportedFiles(entries) == ListSupportedFiles(entries[..|entries| - 1])
      + if Listed(entries[|entries| - 1]) then [entries[|entries| - 1].path] else []
  {
    var n := |entries| - 1;
    assert entries == entries[..n] + [entries[n]];
    ListSupportedFilesAppend(entries[..n], [entries[n]]);
    assert [entries[n]][1..] == [];
  }

  /** Extending a selection by the last entry keeps the k-th kept path
      equal to the path at the k-th kept position. */
  lemma PickSnoc(entries: seq<DirEntry>, kept: seq<Path>, idx: seq<nat>, keep: bool)
    requires |entries| > 0 && |kept| == |idx|
    requires forall k :: 0 <= k < |idx| ==> idx[k] < |entries| - 1
    requires forall k :: 0 <= k < |idx| ==> kept[k] == entries[..|entries| - 1][idx[k]].path
    ensures var n := |entries| - 1;
      var r := kept + if keep then [entries[n].path] else [];
      var ix := idx + if keep then [n] else [];
      && |r| == |ix|
      && forall k :: 0 <= k < |ix| ==> ix[k] < |entries| && r[k] == entries[ix[k]].path
  {
  }

  /** The listing is fixed exactly, repeated paths included: its k-th path
      is the path of the k-th entry that is a regular file with a supported
      suffix. */
  lemma {:induction false} ListSupportedFilesIndexed(entries: seq<DirEntry>)
    ensures |ListSupportedFiles(entries)| == |ListedIndices(entries)|
    ensures forall k :: 0 <= k < |ListedIndices(entries)| ==>
      ListSupportedFiles(entries)[k] == entries[ListedIndices(entries)[k]].path
    decreases |entries|
  {
    if |entries| > 0 {
      var n := |entries| - 1;
      var idx := ListedIndices(entries[..n]);
      var prev := ListSupportedFiles(entries[..n]);
      ListSupportedFilesIndexed(entries[..n]);
      var tail := if Listed(entries[n]) then [n] else [];
      var r := ListSupportedFiles(entries);
      ListedIndicesSnoc(entries);
      ListSupportedFilesSnoc(entries);
      PickSnoc(entries, prev, idx, Listed(entries[n]));
    }
  }
}
