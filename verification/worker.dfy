/** `_worker_main`: the background run. It converts the files, refuses an
    empty merge list, announces the merge, merges, and reports exactly one of
    `done` or `error` as its last message. */
module Worker {
  import opened Results
  import opened Paths
  import opened Listing
  import opened Events
  import opened Pipeline

  /** The text of the `RuntimeError` raised when nothing survived conversion. */
  const NothingToMerge: string := "No files to merge."

  /** For a merge list and an output path, what `merge_pdfs` does: return, or
      raise with the given text. */
  type Merger = (seq<Path>, string) -> Outcome

  /** Everything the worker put on the queue, and the list `merge_pdfs` was
      called with, if it was called. */
  datatype Run = Run(events: seq<Event>, merged: Option<seq<Path>>)

  /** Exactly one event is terminal, and it is the last one. */
  predicate EndsOnce(es: seq<Event>) {
    && |es| > 0
    && es[|es| - 1].IsTerminal()
    && forall i :: 0 <= i < |es| - 1 ==> !es[i].IsTerminal()
  }

  /** What `_worker_main` does once `convert_all_to_pdfs` has returned `c`:
      an empty list raises "No files to merge." before the merger is called;
      otherwise it announces the merge, merges `c.pdfs` into `out`, and
      reports `done` or the merger's exception. */
  function AfterConversion(c: Conversion, out: string, merge: Merger): (r: Run)
    requires forall i :: 0 <= i < |c.events| ==> !c.events[i].IsTerminal()
    ensures |c.events| < |r.events| && r.events[..|c.events|] == c.events
    ensures EndsOnce(r.events)
    ensures r.merged.Some? <==> c.pdfs != []
    ensures r.merged.Some? ==> r.merged.value == c.pdfs
    ensures c.pdfs == [] ==> r.events == c.events + [Error(NothingToMerge)]
    ensures c.pdfs != [] ==> |r.events| == |c.events| + 2 && r.events[|c.events|] == Stage(|c.pdfs|)
    ensures r.events[|r.events| - 1] == Done(out) <==> c.pdfs != [] && merge(c.pdfs, out).Pass?
    ensures c.pdfs != [] && merge(c.pdfs, out).Fail? ==>
      r.events[|r.events| - 1] == Error(merge(c.pdfs, out).message)
  {
    if c.pdfs == [] then
      Run(c.events + [Error(NothingToMerge)], None)
    else
      var last := match merge(c.pdfs, out)
        case Pass => Done(out)
        case Fail(m) => Error(m);
      Run(c.events + [Stage(|c.pdfs|), last], Some(c.pdfs))
  }

  /** `_worker_main(files, out_pdf)` */
  function WorkerMain(files: seq<Path>, out: string, probe: Probe, merge: Merger): (r: Run)
    ensures EndsOnce(r.events)
    ensures r.merged.Some? <==> ExpectedPdfs(FilesOf(files), probe) != []
    ensures r.merged.Some? ==> r.merged.value == ExpectedPdfs(FilesOf(files), probe)
    ensures r.merged.None? ==> r.events[|r.events| - 1] == Error(NothingToMerge)
    ensures r.merged.Some? ==>
      (r.events[|r.events| - 1] == Done(out) <==> merge(r.merged.value, out).Pass?)
  {
    var c := ConvertAllToPdfs(files, probe);
    assert forall i :: 0 <= i < |c.events| ==> !c.events[i].IsTerminal();
    AfterConversion(c, out, merge)
  }

  /** A run whose files all fail to convert (or that has no files) never
      reaches the merger and reports "No files to merge.". */
  lemma NothingSurvives(files: seq<Path>, out: string, probe: Probe, merge: Merger)
    requires forall i :: 0 <= i < |files| ==> !Survives(FileOf(files[i]), probe)
    ensures WorkerMain(files, out, probe, merge).merged == None
    ensures WorkerMain(files, out, probe, merge).events[|WorkerMain(files, out, probe, merge).events| - 1] ==
      Error(NothingToMerge)
  {
    ExpectedPdfsEmpty(FilesOf(files), probe);
  }

  /** Whatever reaches the merger has the lower-cased suffix `.pdf`, in input
      order. */
  lemma MergedArePdfs(files: seq<Path>, out: string, probe: Probe, merge: Merger)
    ensures var r := WorkerMain(files, out, probe, merge);
      r.merged.Some? ==>
        && (forall p :: p in r.merged.value ==> Ext(p) == ".pdf")
        && IsSubsequence(r.merged.value, Images(FilesOf(files)))
  {
    MergeListArePdfs(files, probe);
    ExpectedPdfsSpec(FilesOf(files), probe);
  }
}
