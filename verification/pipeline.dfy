/** `convert_all_to_pdfs`: walks the files in order, passes PDFs through,
    converts the rest next to their source, and reports each step through the
    progress and row-status callbacks, modelled as appends to an event log. */
module Pipeline {
  import opened Results
  import opened Text
  import opened Paths
  import opened Listing
  import opened Dispatch
  import opened Events

  /** For each conversion attempt (source, intended output), the answer of the
      environment's backends. */
  type Probe = (Path, Path) -> Backends

  /** One call of `convert_office_to_pdf`. */
  datatype Call = Call(source: Path, target: Path)

  /** What handling one file contributes: its events, the PDF it adds to the
      merge list (if any) and the converter call it makes (if any). */
  datatype FileReport = FileReport(events: seq<Event>, pdf: Option<Path>, call: Option<Call>)

  datatype Conversion = Conversion(pdfs: seq<Path>, events: seq<Event>, calls: seq<Call>)

  /** The backend outcome for converting `f` to its PDF target. */
  function Attempt(f: FileEntry, probe: Probe): Result<Backend, ConvertError> {
    ConvertOfficeToPdf(f, probe(f.path, f.pdfPath))
  }

  /** `f` ends up in the merge list: it is a PDF already, or it converts. */
  predicate Survives(f: FileEntry, probe: Probe) {
    f.IsPdf() || Attempt(f, probe).Ok?
  }

  /** The path a surviving file contributes to the merge list. */
  function Image(f: FileEntry): Path {
    if f.IsPdf() then f.path else f.pdfPath
  }

  /** The row statuses one file goes through in a run. */
  function ExpectedStatuses(f: FileEntry, probe: Probe): seq<Status> {
    if f.IsPdf() then [Queued]
    else if Attempt(f, probe).Ok? then [Converting, Converted]
    else [Converting, Failed]
  }

  /** Reference for the merge list: the images of the surviving files, in
      input order. */
  function ExpectedPdfs(files: seq<FileEntry>, probe: Probe): (r: seq<Path>)
    ensures |r| <= |files|
    decreases |files|
  {
    if |files| == 0 then []
    else (if Survives(files[0], probe) then [Image(files[0])] else []) + ExpectedPdfs(files[1..], probe)
  }

  /** Reference for the converter calls: one per non-PDF file, in input order. */
  function ExpectedCalls(files: seq<FileEntry>): (r: seq<Call>)
    ensures |r| <= |files|
    decreases |files|
  {
    if |files| == 0 then []
    else (if files[0].IsPdf() then [] else [Call(files[0].path, files[0].pdfPath)]) + ExpectedCalls(files[1..])
  }

  lemma {:induction false} ExpectedPdfsAppend(a: seq<FileEntry>, b: seq<FileEntry>, probe: Probe)
    ensures ExpectedPdfs(a + b, probe) == ExpectedPdfs(a, probe) + ExpectedPdfs(b, probe)
    decreases |a|
  {
    if |a| > 0 {
      assert (a + b)[1..] == a[1..] + b;
      ExpectedPdfsAppend(a[1..], b, probe);
    } else {
      assert a + b == b;
    }
  }

  lemma {:induction false} ExpectedCallsAppend(a: seq<FileEntry>, b: seq<FileEntry>)
    ensures ExpectedCalls(a + b) == ExpectedCalls(a) + ExpectedCalls(b)
    decreases |a|
  {
    if |a| > 0 {
      assert (a + b)[1..] == a[1..] + b;
      ExpectedCallsAppend(a[1..], b);
    } else {
      assert a + b == b;
    }
  }

  /** One more file extends the merge list and the converter calls by that
      file's contribution. */
  lemma ExpectedSnoc(files: seq<FileEntry>, n: nat, probe: Probe)
    requires 0 < n <= |files|
    ensures ExpectedPdfs(files[..n], probe) == ExpectedPdfs(files[..n - 1], probe) +
      if Survives(files[n - 1], probe) then [Image(files[n - 1])] else []
    ensures ExpectedCalls(files[..n]) == ExpectedCalls(files[..n - 1]) +
      if files[n - 1].IsPdf() then [] else [Call(files[n - 1].path, files[n - 1].pdfPath)]
  {
    var f := files[n - 1];
    assert files[..n] == files[..n - 1] + [f];
    ExpectedPdfsAppend(files[..n - 1], [f], probe);
    ExpectedCallsAppend(files[..n - 1], [f]);
    assert [f][1..] == [];
  }

  /** Handling of the `current`-th of `total` files (one loop iteration). */
  function ProcessFile(f: FileEntry, current: nat, total: nat, probe: Probe): (r: FileReport)
    ensures r.pdf.Some? <==> Survives(f, probe)
    ensures r.pdf.Some? ==> r.pdf.value == Image(f)
    ensures r.call.Some? <==> !f.IsPdf()
    ensures r.call.Some? ==> r.call.value == Call(f.path, f.pdfPath)
    ensures 2 <= |r.events| <= 4
    ensures r.events[0] == Row(f.path.name, if f.IsPdf() then Queued else Converting)
    ensures forall i :: 0 <= i < |r.events| ==>
      r.events[i].Row? || (r.events[i].Progress? && r.events[i].current == current && r.events[i].total == total)
  {
    var name := f.path.name;
    if f.IsPdf() then
      FileReport([Row(name, Queued), Progress(current, total, QueuedPdf(name))], Some(f.path), None)
    else
      var target := f.pdfPath;
      var started := [Row(name, Converting), Progress(current, total, ConvertingTo(name, target.name))];
      match ConvertOfficeToPdf(f, probe(f.path, target))
      case Ok(_) =>
        FileReport(started + [Row(name, Converted)], Some(target), Some(Call(f.path, target)))
      case Err(e) =>
        FileReport(started + [Row(name, Failed), Progress(current, total, FailedWith(name, e))],
                   None, Some(Call(f.path, target)))
  }

  /** The row of the handled file goes Queued, or Converting then Converted or
      Failed; no other row is touched. */
  lemma ProcessFileStatuses(f: FileEntry, current: nat, total: nat, probe: Probe, name: string)
    ensures RowStatuses(ProcessFile(f, current, total, probe).events, name) ==
      if name == f.path.name then ExpectedStatuses(f, probe) else []
  {
    var es := ProcessFile(f, current, total, probe).events;
    var n := f.path.name;
    RowStatusesSingle(es[0], name);
    RowStatusesSingle(es[1], name);
    assert es[..2] == [es[0]] + [es[1]];
    RowStatusesAppend([es[0]], [es[1]], name);
    if |es| == 2 {
      assert es == es[..2];
    } else {
      RowStatusesSingle(es[2], name);
      assert es[..3] == es[..2] + [es[2]];
      RowStatusesAppend(es[..2], [es[2]], name);
      if |es| == 3 {
        assert es == es[..3];
      } else {
        RowStatusesSingle(es[3], name);
        assert es == es[..3] + [es[3]];
        RowStatusesAppend(es[..3], [es[3]], name);
      }
    }
  }

  /** A file that neither is a PDF nor converts ends with a "Failed: …"
      progress message carrying the converter's error. */
  lemma ProcessFileFailure(f: FileEntry, current: nat, total: nat, probe: Probe)
    requires !Survives(f, probe)
    ensures var es := ProcessFile(f, current, total, probe).events;
      es[|es| - 1] == Progress(current, total, FailedWith(f.path.name, Attempt(f, probe).error))
  {
  }

  /** The callbacks' event log after the loop has handled `files[..n]`: each
      iteration appends its own events. */
  function RunEvents(files: seq<FileEntry>, n: nat, probe: Probe): seq<Event>
    requires n <= |files|
    decreases n
  {
    if n == 0 then [] else RunEvents(files, n - 1, probe) + ProcessFile(files[n - 1], n, |files|, probe).events
  }

  /** The state after the loop has handled `files[..n]`. */
  function ConvertPrefix(files: seq<FileEntry>, n: nat, probe: Probe): (r: Conversion)
    requires n <= |files|
    ensures r.pdfs == ExpectedPdfs(files[..n], probe)
    ensures r.calls == ExpectedCalls(files[..n])
    ensures r.events == RunEvents(files, n, probe)
    decreases n
  {
    if n == 0 then Conversion([], [], [])
    else
      var prev := ConvertPrefix(files, n - 1, probe);
      var f := files[n - 1];
      var rep := ProcessFile(f, n, |files|, probe);
      ExpectedSnoc(files, n, probe);
      Conversion(prev.pdfs + OptionToSeq(rep.pdf), RunEvents(files, n, probe), prev.calls + OptionToSeq(rep.call))
  }

  /** Every event is a row update or a progress report `(current, total)`
      with `lo <= current <= hi`. */
  predicate ProgressWithin(es: seq<Event>, lo: nat, hi: nat, total: nat) {
    forall i :: 0 <= i < |es| ==>
      es[i].Row? || (es[i].Progress? && lo <= es[i].current <= hi && es[i].total == total)
  }

  lemma ProgressWithinAppend(a: seq<Event>, b: seq<Event>, lo: nat, hi: nat, total: nat)
    requires ProgressWithin(a, lo, hi, total) && ProgressWithin(b, lo, hi, total)
    ensures ProgressWithin(a + b, lo, hi, total)
  {
    assert forall i :: |a| <= i < |a + b| ==> (a + b)[i] == b[i - |a|];
  }

  /** Every event of the first `n` iterations is a row update or a progress
      report `(current, total)` with `1 <= current <= n` and `total` the
      number of files. */
  lemma {:induction false} RunEventsProgress(files: seq<FileEntry>, n: nat, probe: Probe)
    requires n <= |files|
    ensures ProgressWithin(RunEvents(files, n, probe), 1, n, |files|)
    decreases n
  {
    if n > 0 {
      RunEventsProgress(files, n - 1, probe);
      var prev := RunEvents(files, n - 1, probe);
      var rep := ProcessFile(files[n - 1], n, |files|, probe).events;
      assert ProgressWithin(prev, 1, n, |files|);
      assert ProgressWithin(rep, 1, n, |files|);
      ProgressWithinAppend(prev, rep, 1, n, |files|);
    }
  }

  /** `convert_all_to_pdfs(files, …)`: the merge list plus the events the
      callbacks received and the converter calls made. */
  function ConvertAllToPdfs(files: seq<Path>, probe: Probe): (r: Conversion)
    ensures r.pdfs == ExpectedPdfs(FilesOf(files), probe)
    ensures r.calls == ExpectedCalls(FilesOf(files))
    ensures r.events == RunEvents(FilesOf(files), |files|, probe)
    ensures ProgressWithin(r.events, 1, |files|, |files|)
  {
    var entries := FilesOf(files);
    assert entries[..|entries|] == entries;
    RunEventsProgress(entries, |entries|, probe);
    ConvertPrefix(entries, |entries|, probe)
  }

  /** What every file would contribute if all of them survived. */
  function Images(files: seq<FileEntry>): (r: seq<Path>)
    ensures |r| == |files|
    ensures forall i :: 0 <= i < |files| ==> r[i] == Image(files[i])
  {
    seq(|files|, i requires 0 <= i < |files| => Image(files[i]))
  }

  /** The positions of the surviving files, in increasing order. */
  function SurvivorIndices(files: seq<FileEntry>, probe: Probe): (idx: seq<nat>)
    ensures forall k :: 0 <= k < |idx| ==> idx[k] < |files|
    ensures forall k, l :: 0 <= k < l < |idx| ==> idx[k] < idx[l]
    ensures forall i :: 0 <= i < |files| ==> (Survives(files[i], probe) <==> i in idx)
    decreases |files|
  {
    if |files| == 0 then []
    else
      var n := |files| - 1;
      var prev := SurvivorIndices(files[..n], probe);
      assert forall i :: 0 <= i < n ==> files[..n][i] == files[i];
      prev + if Survives(files[n], probe) then [n] else []
  }

  /** The merge list is, entry by entry, the images of the surviving files
      taken in increasing position: one entry per survivor, even when two
      files share an image. */
  lemma {:induction false} ExpectedPdfsIndexed(files: seq<FileEntry>, probe: Probe)
    ensures |ExpectedPdfs(files, probe)| == |SurvivorIndices(files, probe)|
    ensures forall k :: 0 <= k < |SurvivorIndices(files, probe)| ==>
      ExpectedPdfs(files, probe)[k] == Image(files[SurvivorIndices(files, probe)[k]])
    decreases |files|
  {
    if |files| > 0 {
      var n := |files| - 1;
      var idx := SurvivorIndices(files[..n], probe);
      var prev := ExpectedPdfs(files[..n], probe);
      ExpectedPdfsIndexed(files[..n], probe);
      ExpectedSnoc(files, n + 1, probe);
      assert files[..n + 1] == files;
      var tail := if Survives(files[n], probe) then [n] else [];
      var r := ExpectedPdfs(files, probe);
      assert SurvivorIndices(files, probe) == idx + tail;
      assert r == prev + if Survives(files[n], probe) then [Image(files[n])] else [];
      forall k | 0 <= k < |idx + tail|
        ensures r[k] == Image(files[(idx + tail)[k]])
      {
        if k < |idx| {
          assert files[..n][idx[k]] == files[idx[k]];
        }
      }
    }
  }

  /** The merge list keeps the order of the input, holds exactly the images of
      the surviving files, and is all of them when every file survives. */
  lemma {:induction false} ExpectedPdfsSpec(files: seq<FileEntry>, probe: Probe)
    ensures IsSubsequence(ExpectedPdfs(files, probe), Images(files))
    ensures forall p :: p in ExpectedPdfs(files, probe) <==>
      exists i :: 0 <= i < |files| && Survives(files[i], probe) && Image(files[i]) == p
    ensures (forall i :: 0 <= i < |files| ==> Survives(files[i], probe)) ==>
      ExpectedPdfs(files, probe) == Images(files)
    decreases |files|
  {
    if |files| > 0 {
      var r := ExpectedPdfs(files, probe);
      var rest := ExpectedPdfs(files[1..], probe);
      ExpectedPdfsSpec(files[1..], probe);
      assert Images(files)[1..] == Images(files[1..]);
      if Survives(files[0], probe) {
        assert r == [Image(files[0])] + rest;
        assert r[1..] == rest;
      } else {
        assert r == rest;
      }
      forall p
        ensures p in r <==> exists i :: 0 <= i < |files| && Survives(files[i], probe) && Image(files[i]) == p
      {
        if p in r {
          if Survives(files[0], probe) && p == Image(files[0]) {
            assert Survives(files[0], probe) && Image(files[0]) == p;
          } else {
            assert p in rest;
            var j :| 0 <= j < |files[1..]| && Survives(files[1..][j], probe) && Image(files[1..][j]) == p;
            assert files[j + 1] == files[1..][j];
          }
        }
        if exists i :: 0 <= i < |files| && Survives(files[i], probe) && Image(files[i]) == p {
          var i :| 0 <= i < |files| && Survives(files[i], probe) && Image(files[i]) == p;
          if i > 0 {
            assert files[1..][i - 1] == files[i];
          }
        }
      }
      if forall i :: 0 <= i < |files| ==> Survives(files[i], probe) {
        assert forall i :: 0 <= i < |files[1..]| ==> Survives(files[1..][i], probe);
        assert Images(files) == [Image(files[0])] + Images(files[1..]);
      }
    } else {
      assert Images(files) == [];
    }
  }

  /** The merge list is fixed exactly, copies included: its entries are the
      images of the surviving files at strictly increasing positions, and
      every survivor has its entry. */
  lemma ExpectedPdfsExact(files: seq<FileEntry>, probe: Probe)
    ensures exists idx: seq<nat> ::
      && |idx| == |ExpectedPdfs(files, probe)|
      && (forall k :: 0 <= k < |idx| ==> idx[k] < |files| && ExpectedPdfs(files, probe)[k] == Image(files[idx[k]]))
      && (forall k, l :: 0 <= k < l < |idx| ==> idx[k] < idx[l])
      && (forall i :: 0 <= i < |files| ==> (Survives(files[i], probe) <==> i in idx))
  {
    ExpectedPdfsIndexed(files, probe);
    var idx := SurvivorIndices(files, probe);
    assert |idx| == |ExpectedPdfs(files, probe)|;
  }

  function NonPdfFlags(files: seq<FileEntry>): (flags: seq<bool>)
    ensures |flags| == |files|
    ensures forall i :: 0 <= i < |files| ==> flags[i] == !files[i].IsPdf()
  {
    seq(|files|, i requires 0 <= i < |files| => !files[i].IsPdf())
  }

  /** The positions of the files that are not PDFs, in increasing order. */
  function NonPdfIndices(files: seq<FileEntry>): (idx: seq<nat>)
    ensures forall k :: 0 <= k < |idx| ==> idx[k] < |files|
    ensures forall k, l :: 0 <= k < l < |idx| ==> idx[k] < idx[l]
    ensures forall i :: 0 <= i < |files| ==> (!files[i].IsPdf() <==> i in idx)
  {
    TrueIndices(NonPdfFlags(files))
  }

  lemma NonPdfIndicesSnoc(files: seq<FileEntry>)
    requires |files| > 0
    ensures var n := |files| - 1;
      NonPdfIndices(files) == NonPdfIndices(files[..n]) + if files[n].IsPdf() then [] else [n]
  {
    var n := |files| - 1;
    assert NonPdfFlags(files)[..n] == NonPdfFlags(files[..n]);
  }

  lemma ExpectedCallsSnoc(files: seq<FileEntry>)
    requires |files| > 0
    ensures var n := |files| - 1;
      ExpectedCalls(files) == ExpectedCalls(files[..n])
        + if files[n].IsPdf() then [] else [Call(files[n].path, files[n].pdfPath)]
  {
    var n := |files| - 1;
    ExpectedCallsAppend(files[..n], [files[n]]);
    assert files == files[..n] + [files[n]];
    assert [files[n]][1..] == [];
  }

  /** Extending the call list by the last file keeps the k-th call equal to
      the call of the file at the k-th non-PDF position. */
  lemma CallSnoc(files: seq<FileEntry>, calls: seq<Call>, idx: seq<nat>)
    requires |files| > 0 && |calls| == |idx|
    requires forall k :: 0 <= k < |idx| ==> idx[k] < |files| - 1
    requires forall k :: 0 <= k < |idx| ==>
      calls[k] == Call(files[..|files| - 1][idx[k]].path, files[..|files| - 1][idx[k]].pdfPath)
    ensures var n := |files| - 1;
      var r := calls + if files[n].IsPdf() then [] else [Call(files[n].path, files[n].pdfPath)];
      var ix := idx + if files[n].IsPdf() then [] else [n];
      && |r| == |ix|
      && forall k :: 0 <= k < |ix| ==> ix[k] < |files| && r[k] == Call(files[ix[k]].path, files[ix[k]].pdfPath)
  {
  }

  /** The call list has one call per non-PDF file, and its k-th call
      converts the k-th non-PDF file to its `with_suffix(".pdf")` target. */
  lemma {:induction false} ExpectedCallsIndexed(files: seq<FileEntry>)
    ensures |ExpectedCalls(files)| == |NonPdfIndices(files)|
    ensures forall k :: 0 <= k < |NonPdfIndices(files)| ==>
      ExpectedCalls(files)[k] == Call(files[NonPdfIndices(files)[k]].path, files[NonPdfIndices(files)[k]].pdfPath)
    decreases |files|
  {
    if |files| > 0 {
      var n := |files| - 1;
      var idx := NonPdfIndices(files[..n]);
      var prev := ExpectedCalls(files[..n]);
      ExpectedCallsIndexed(files[..n]);
      NonPdfIndicesSnoc(files);
      ExpectedCallsSnoc(files);
      CallSnoc(files, prev, idx);
    }
  }

  /** The merge list is empty exactly when no file survives. */
  lemma {:induction false} ExpectedPdfsEmpty(files: seq<FileEntry>, probe: Probe)
    ensures ExpectedPdfs(files, probe) == [] <==> forall i :: 0 <= i < |files| ==> !Survives(files[i], probe)
    decreases |files|
  {
    if |files| > 0 {
      ExpectedPdfsEmpty(files[1..], probe);
      assert forall i :: 1 <= i < |files| ==> files[i] == files[1..][i - 1];
    }
  }

  /** The converter is called exactly when some file is not a PDF. */
  lemma {:induction false} ExpectedCallsEmpty(files: seq<FileEntry>)
    ensures ExpectedCalls(files) == [] <==> forall i :: 0 <= i < |files| ==> files[i].IsPdf()
    decreases |files|
  {
    if |files| > 0 {
      ExpectedCallsEmpty(files[1..]);
      assert forall i :: 1 <= i < |files| ==> files[i] == files[1..][i - 1];
    }
  }

  /** A folder of PDFs only: the merge list is the input, unchanged, and no
      conversion is attempted. */
  lemma AllPdfPassThrough(paths: seq<Path>, probe: Probe)
    requires forall i :: 0 <= i < |paths| ==> Ext(paths[i]) == ".pdf"
    ensures ConvertAllToPdfs(paths, probe).pdfs == paths
    ensures ConvertAllToPdfs(paths, probe).calls == []
  {
    var files := FilesOf(paths);
    ExpectedPdfsSpec(files, probe);
    assert Images(files) == paths;
    ExpectedCallsEmpty(files);
  }

  /** Everything handed to the merger has the lower-cased suffix `.pdf`; a
      listed `A.PDF` passes through with its own spelling. */
  lemma MergeListArePdfs(paths: seq<Path>, probe: Probe)
    ensures forall p :: p in ConvertAllToPdfs(paths, probe).pdfs ==> Ext(p) == ".pdf"
  {
    var files := FilesOf(paths);
    ExpectedPdfsSpec(files, probe);
    forall p | p in ExpectedPdfs(files, probe)
      ensures Ext(p) == ".pdf"
    {
      var i :| 0 <= i < |files| && Survives(files[i], probe) && Image(files[i]) == p;
      ImageExt(paths[i]);
    }
  }

  /** A listed file's contribution to the merge list has the lower-cased
      suffix `.pdf`, whether it is the file itself or its conversion. */
  lemma ImageExt(p: Path)
    ensures Ext(Image(FileOf(p))) == ".pdf"
  {
    if !FileOf(p).IsPdf() {
      PdfTargetSpec(p);
    }
  }

  /** Reference for one row's history: the expected statuses of the files
      carrying that name, in input order. */
  function NameStatuses(files: seq<FileEntry>, name: string, probe: Probe): seq<Status>
    decreases |files|
  {
    if |files| == 0 then []
    else (if files[0].path.name == name then ExpectedStatuses(files[0], probe) else [])
         + NameStatuses(files[1..], name, probe)
  }

  lemma {:induction false} NameStatusesAppend(a: seq<FileEntry>, b: seq<FileEntry>, name: string, probe: Probe)
    ensures NameStatuses(a + b, name, probe) == NameStatuses(a, name, probe) + NameStatuses(b, name, probe)
    decreases |a|
  {
    if |a| > 0 {
      assert (a + b)[1..] == a[1..] + b;
      NameStatusesAppend(a[1..], b, name, probe);
    } else {
      assert a + b == b;
    }
  }

  /** One more file extends the reference history by that file's statuses. */
  lemma NameStatusesSnoc(files: seq<FileEntry>, n: nat, name: string, probe: Probe)
    requires 0 < n <= |files|
    ensures NameStatuses(files[..n], name, probe) == NameStatuses(files[..n - 1], name, probe) +
      if files[n - 1].path.name == name then ExpectedStatuses(files[n - 1], probe) else []
  {
    var f := files[n - 1];
    assert files[..n] == files[..n - 1] + [f];
    NameStatusesAppend(files[..n - 1], [f], name, probe);
    assert [f][1..] == [];
  }

  /** The row statuses reported while handling `files[..n]`. */
  lemma {:induction false} RunEventsStatuses(files: seq<FileEntry>, n: nat, probe: Probe, name: string)
    requires n <= |files|
    ensures RowStatuses(RunEvents(files, n, probe), name) == NameStatuses(files[..n], name, probe)
    decreases n
  {
    if n > 0 {
      var prev := RunEvents(files, n - 1, probe);
      var rep := ProcessFile(files[n - 1], n, |files|, probe).events;
      RunEventsStatuses(files, n - 1, probe, name);
      RowStatusesAppend(prev, rep, name);
      ProcessFileStatuses(files[n - 1], n, |files|, probe, name);
      NameStatusesSnoc(files, n, name, probe);
    } else {
      assert files[..n] == [];
    }
  }

  /** A name no file carries gets no status. */
  lemma {:induction false} NameStatusesAbsent(files: seq<FileEntry>, name: string, probe: Probe)
    requires forall i :: 0 <= i < |files| ==> files[i].path.name != name
    ensures NameStatuses(files, name, probe) == []
    decreases |files|
  {
    if |files| > 0 {
      assert forall i :: 0 <= i < |files[1..]| ==> files[1..][i] == files[i + 1];
      NameStatusesAbsent(files[1..], name, probe);
    }
  }

  /** A name carried by exactly one file gets exactly that file's statuses. */
  lemma {:induction false} NameStatusesUnique(files: seq<FileEntry>, k: nat, probe: Probe)
    requires k < |files|
    requires forall i :: 0 <= i < |files| && i != k ==> files[i].path.name != files[k].path.name
    ensures NameStatuses(files, files[k].path.name, probe) == ExpectedStatuses(files[k], probe)
    decreases |files|
  {
    assert forall i :: 0 <= i < |files[1..]| ==> files[1..][i] == files[i + 1];
    if k == 0 {
      NameStatusesAbsent(files[1..], files[0].path.name, probe);
    } else {
      NameStatusesUnique(files[1..], k - 1, probe);
    }
  }

  /** Within one folder (distinct names), each listed file's row goes Queued,
      or Converting then Converted or Failed, whatever the other files do. */
  lemma RunRowStatuses(paths: seq<Path>, probe: Probe, k: nat)
    requires k < |paths|
    requires forall i, j :: 0 <= i < j < |paths| ==> paths[i].name != paths[j].name
    ensures RowStatuses(ConvertAllToPdfs(paths, probe).events, paths[k].name) ==
      ExpectedStatuses(FileOf(paths[k]), probe)
  {
    var files := FilesOf(paths);
    assert files[..|files|] == files;
    RunEventsStatuses(files, |files|, probe, paths[k].name);
    NameStatusesUnique(files, k, probe);
  }

  /** Rows of names outside the run are never touched. */
  lemma RunRowStatusesOther(paths: seq<Path>, probe: Probe, name: string)
    requires forall i :: 0 <= i < |paths| ==> paths[i].name != name
    ensures RowStatuses(ConvertAllToPdfs(paths, probe).events, name) == []
  {
    var files := FilesOf(paths);
    assert files[..|files|] == files;
    RunEventsStatuses(files, |files|, probe, name);
    NameStatusesAbsent(files, name, probe);
  }
}
