/** The `CleanApp` window as a state machine: the folder field, the listed
    files, the file table, the processing flag and the status line. Dialogs
    and the file system are parameters; the worker's queue is the sequence of
    events it produced, consumed in order. */
module Ui {
  import opened Results
  import opened Text
  import opened Paths
  import opened Listing
  import opened Events
  import opened Pipeline
  import opened Worker

  /** One line of the file table; the file name is also the item's id. */
  datatype RowItem = RowItem(name: string, ext: string, status: Status)

  datatype App = App(
    folder: string,
    files: seq<Path>,
    table: seq<RowItem>,
    processing: bool,
    statusText: string)

  /** What a path names in the file system. */
  datatype Node = Missing | RegularFile | Directory(entries: seq<DirEntry>)

  type FileSystem = string -> Node

  const ReadyText: string := "Ready."
  const ProcessingText: string := "Processing\U{2026} Converting files, then merging to a single PDF."
  const CompletedText: string := "Completed."
  const FailedText: string := "Failed."

  /** The window right after `__init__`. */
  const Initial: App := App("", [], [], false, ReadyText)

  function FoundText(count: nat): string {
    "Found " + NatToString(count) + " supported file(s)."
  }

  /** Some listed file carries the name `name`. */
  predicate Lists(files: seq<Path>, name: string) {
    exists j :: 0 <= j < |files| && files[j].name == name
  }

  /** The two tables have the same lines (names and types), in the same order;
      only statuses may differ. */
  predicate SameLines(a: seq<RowItem>, b: seq<RowItem>) {
    && |a| == |b|
    && forall i :: 0 <= i < |a| ==> a[i].name == b[i].name && a[i].ext == b[i].ext
  }

  /** `_refresh_table`: one Ready line per listed file, in order. */
  function RefreshTable(app: App): (r: App)
    ensures r.table == seq(|app.files|, i requires 0 <= i < |app.files| => RowItem(app.files[i].name, Ext(app.files[i]), Ready))
    ensures r == app.(table := r.table)
    ensures forall n :: (exists i :: 0 <= i < |r.table| && r.table[i].name == n) <==> Lists(app.files, n)
  {
    var table := seq(|app.files|, i requires 0 <= i < |app.files| => RowItem(app.files[i].name, Ext(app.files[i]), Ready));
    assert forall i :: 0 <= i < |app.files| ==> table[i].name == app.files[i].name;
    app.(table := table)
  }

  /** `_update_row_status`: sets the status of the line called `name`, if the
      table has one, and changes nothing else. */
  function UpdateRowStatus(app: App, name: string, status: Status): (r: App)
    ensures SameLines(r.table, app.table)
    ensures forall i :: 0 <= i < |app.table| ==>
      r.table[i].status == if app.table[i].name == name then status else app.table[i].status
    ensures r == app.(table := r.table)
    ensures (forall i :: 0 <= i < |app.table| ==> app.table[i].name != name) ==> r == app
  {
    var t := app.table;
    var table := seq(|t|, i requires 0 <= i < |t| => if t[i].name == name then t[i].(status := status) else t[i]);
    assert (forall i :: 0 <= i < |t| ==> t[i].name != name) ==> table == t;
    app.(table := table)
  }

  /** The loop in `_finish` that marks every listed file's line Merged. */
  function MarkMerged(app: App, files: seq<Path>): (r: App)
    ensures SameLines(r.table, app.table)
    ensures forall i :: 0 <= i < |app.table| ==>
      r.table[i].status == if Lists(files, app.table[i].name) then Merged else app.table[i].status
    ensures r == app.(table := r.table)
    decreases |files|
  {
    if |files| == 0 then app
    else
      var r := MarkMerged(UpdateRowStatus(app, files[0].name, Merged), files[1..]);
      assert forall n :: Lists(files, n) <==> files[0].name == n || Lists(files[1..], n) by {
        forall n | Lists(files, n)
          ensures files[0].name == n || Lists(files[1..], n)
        {
          var j :| 0 <= j < |files| && files[j].name == n;
          if j > 0 {
            assert files[1..][j - 1] == files[j];
          }
        }
        forall n | Lists(files[1..], n)
          ensures Lists(files, n)
        {
          var j :| 0 <= j < |files[1..]| && files[1..][j].name == n;
          assert files[j + 1] == files[1..][j];
        }
      }
      r
  }

  /** `_pick_folder`: a cancelled dialog changes nothing; otherwise the field
      takes the choice, the folder is listed, the table rebuilt and the count
      shown. A choice that is not a directory makes the listing raise after
      the field was set. */
  function PickFolder(app: App, chosen: string, fs: FileSystem): (r: App)
    ensures chosen == "" ==> r == app
    ensures chosen != "" && fs(chosen).Directory? ==>
      && r.files == ListSupportedFiles(fs(chosen).entries)
      && r.folder == chosen
      && r.table == RefreshTable(r).table
      && (forall i :: 0 <= i < |r.table| ==> r.table[i].status == Ready)
      && r.statusText == FoundText(|r.files|)
      && r.processing == app.processing
    ensures chosen != "" && !fs(chosen).Directory? ==> r == app.(folder := chosen)
  {
    if chosen == "" then app
    else
      match fs(chosen)
      case Directory(entries) =>
        var listed := app.(folder := chosen, files := ListSupportedFiles(entries));
        RefreshTable(listed).(statusText := FoundText(|listed.files|))
      case _ => app.(folder := chosen)
  }

  /** `_clear`: empties the field, the file list and the table. The Clear
      button is disabled while processing, which the flag is left alone for. */
  function Clear(app: App): (r: App)
    ensures r.folder == "" && r.files == [] && r.table == []
    ensures r.statusText == ReadyText
    ensures r.processing == app.processing
  {
    App("", [], [], app.processing, ReadyText)
  }

  /** How a press of "Convert & Merge" ends. */
  datatype StartOutcome =
    | Busy
    | InvalidFolder
    | NotADirectory
    | NoFiles
    | Cancelled
    | Started

  datatype StartStep = StartStep(app: App, outcome: StartOutcome)

  /** The field, stripped, names an existing directory. */
  predicate Listable(app: App, fs: FileSystem) {
    !IsBlank(app.folder) && fs(Strip(app.folder)).Directory?
  }

  /** `_start`: ignored while processing; the stripped field must name an
      existing path; the folder is listed again (without refreshing the
      table); an empty listing or a cancelled save dialog (`out == ""`) stops
      there; otherwise processing begins and the worker gets the listed files. */
  function Start(app: App, fs: FileSystem, out: string): (r: StartStep)
    ensures app.processing <==> r.outcome == Busy
    ensures !app.processing ==>
      (r.outcome == InvalidFolder <==> IsBlank(app.folder) || fs(Strip(app.folder)) == Missing)
    ensures r.outcome in {Busy, InvalidFolder, NotADirectory} ==> r.app == app
    ensures r.outcome in {NoFiles, Cancelled, Started} <==> !app.processing && Listable(app, fs)
    ensures r.outcome in {NoFiles, Cancelled, Started} ==>
      r.app.files == ListSupportedFiles(fs(Strip(app.folder)).entries)
    ensures r.outcome in {NoFiles, Cancelled, Started} ==>
      (r.outcome == NoFiles <==> r.app.files == [])
    ensures r.outcome in {Cancelled, Started} ==> (r.outcome == Cancelled <==> out == "")
    ensures r.app.processing <==> app.processing || r.outcome == Started
    ensures r.outcome == Started ==> r.app.statusText == ProcessingText
    ensures r.outcome != Started ==> r.app.statusText == app.statusText
    ensures r.app.table == app.table && r.app.folder == app.folder
  {
    if app.processing then StartStep(app, Busy)
    else
      var folder := Strip(app.folder);
      StripSpec(app.folder);
      if folder == "" then StartStep(app, InvalidFolder)
      else
        match fs(folder)
        case Missing => StartStep(app, InvalidFolder)
        case RegularFile => StartStep(app, NotADirectory)
        case Directory(entries) =>
          var listed := app.(files := ListSupportedFiles(entries));
          if listed.files == [] then StartStep(listed, NoFiles)
          else if out == "" then StartStep(listed, Cancelled)
          else StartStep(listed.(processing := true, statusText := ProcessingText), Started)
  }

  /** Pressing Convert & Merge in a fresh window, before a folder is chosen,
      reports an invalid folder and changes nothing. */
  lemma StartInitial(fs: FileSystem, out: string)
    ensures !Initial.processing && Initial.statusText == ReadyText && Initial.table == []
    ensures Start(Initial, fs, out) == StartStep(Initial, InvalidFolder)
  {
  }

  /** `_finish`: leaves the processing state; on success every listed file's
      line becomes Merged, whatever it showed before. */
  function Finish(app: App, ok: bool): (r: App)
    ensures !r.processing
    ensures r.statusText == if ok then CompletedText else FailedText
    ensures r.folder == app.folder && r.files == app.files
    ensures SameLines(r.table, app.table)
    ensures forall i :: 0 <= i < |app.table| ==>
      r.table[i].status == if ok && Lists(app.files, app.table[i].name) then Merged else app.table[i].status
  {
    var idle := app.(processing := false);
    if ok then MarkMerged(idle.(statusText := CompletedText), app.files)
    else idle.(statusText := FailedText)
  }

  /** The branch of `_poll_worker` that handles one queued event. */
  function Apply(app: App, e: Event): (r: App)
    ensures r.folder == app.folder && r.files == app.files
    ensures SameLines(r.table, app.table)
    ensures !e.IsTerminal() ==> r.processing == app.processing
    ensures e.IsTerminal() ==> !r.processing
    ensures !e.Row? && !(e.Done? || e.Error?) ==> r.table == app.table
  {
    match e
    case Progress(_, _, note) => app.(statusText := note.Text())
    case Row(file, status) => UpdateRowStatus(app, file, status)
    case Stage(count) => app.(statusText := StageText(count))
    case Done(_) => Finish(app, true)
    case Error(_) => Finish(app, false)
  }

  /** Handling the queued events in FIFO order. */
  function Consume(app: App, es: seq<Event>): (r: App)
    ensures r.folder == app.folder && r.files == app.files
    ensures SameLines(r.table, app.table)
    ensures (forall i :: 0 <= i < |es| ==> !es[i].IsTerminal()) ==> r.processing == app.processing
    decreases |es|
  {
    if |es| == 0 then app
    else
      var r := Consume(Apply(app, es[0]), es[1..]);
      assert forall i :: 1 <= i < |es| ==> es[1..][i - 1] == es[i];
      r
  }

  lemma {:induction false} ConsumeAppend(app: App, a: seq<Event>, b: seq<Event>)
    ensures Consume(app, a + b) == Consume(Consume(app, a), b)
    decreases |a|
  {
    if |a| > 0 {
      assert (a + b)[1..] == a[1..] + b;
      ConsumeAppend(Apply(app, a[0]), a[1..], b);
    } else {
      assert a + b == b;
    }
  }

  /** The status a line shows after `es`: the last one reported for it, or
      the one it had. */
  function LastStatus(statuses: seq<Status>, initial: Status): Status {
    if |statuses| == 0 then initial else statuses[|statuses| - 1]
  }

  /** Before the terminal event, each line shows the last status the run
      reported for its name. */
  lemma {:induction false} ConsumeRowStatus(app: App, es: seq<Event>, i: nat)
    requires i < |app.table|
    requires forall k :: 0 <= k < |es| ==> !es[k].IsTerminal()
    ensures Consume(app, es).table[i].status ==
      LastStatus(RowStatuses(es, app.table[i].name), app.table[i].status)
    decreases |es|
  {
    if |es| > 0 {
      var next := Apply(app, es[0]);
      assert forall k :: 0 <= k < |es[1..]| ==> es[1..][k] == es[k + 1];
      ConsumeRowStatus(next, es[1..], i);
      var name := app.table[i].name;
      assert next.table[i].name == name;
      assert next.table[i].status == LastStatus(StatusFor(es[0], name), app.table[i].status);
      var rest := RowStatuses(es[1..], name);
      if |rest| > 0 {
        assert (StatusFor(es[0], name) + rest)[|StatusFor(es[0], name) + rest| - 1] == rest[|rest| - 1];
      }
    }
  }

  /** Over a whole run the window stays busy until the terminal event and is
      idle after it. */
  lemma BusyUntilTerminal(app: App, es: seq<Event>)
    requires app.processing
    requires EndsOnce(es)
    ensures forall k :: 0 <= k < |es| ==> Consume(app, es[..k]).processing
    ensures !Consume(app, es).processing
  {
    forall k | 0 <= k < |es|
      ensures Consume(app, es[..k]).processing
    {
      assert forall i :: 0 <= i < k ==> es[..k][i] == es[i];
    }
    var n := |es| - 1;
    assert es == es[..n] + [es[n]];
    ConsumeAppend(app, es[..n], [es[n]]);
    assert forall i :: 0 <= i < n ==> es[..n][i] == es[i];
    assert [es[n]][1..] == [];
  }

  /** Consuming a whole run from the processing state: the window ends idle;
      after `done` it says "Completed." and every line of a listed file shows
      Merged, whatever it showed before; after `error` it says "Failed." and
      the lines keep what the run reported. */
  lemma ConsumeRun(s: App, es: seq<Event>)
    requires s.processing
    requires EndsOnce(es)
    ensures var f := Consume(s, es);
      && !f.processing
      && SameLines(f.table, s.table)
      && (es[|es| - 1].Done? ==>
            f.statusText == CompletedText
            && forall i :: 0 <= i < |f.table| && Lists(s.files, f.table[i].name) ==> f.table[i].status == Merged)
      && (es[|es| - 1].Error? ==>
            f.statusText == FailedText
            && forall i :: 0 <= i < |f.table| ==>
                 f.table[i].status == LastStatus(RowStatuses(es, s.table[i].name), s.table[i].status))
  {
    var n := |es| - 1;
    var pre := es[..n];
    assert es == pre + [es[n]];
    ConsumeAppend(s, pre, [es[n]]);
    assert forall i :: 0 <= i < n ==> pre[i] == es[i];
    assert [es[n]][1..] == [];
    var mid := Consume(s, pre);
    assert Consume(s, es) == Apply(mid, es[n]);
    if es[n].Error? {
      forall i | 0 <= i < |s.table|
        ensures Consume(s, es).table[i].status == LastStatus(RowStatuses(es, s.table[i].name), s.table[i].status)
      {
        ConsumeRowStatus(s, pre, i);
        RowStatusesAppend(pre, [es[n]], s.table[i].name);
        RowStatusesSingle(es[n], s.table[i].name);
      }
    }
  }

  /** Once a press of "Convert & Merge" has started processing, handling the
      whole worker run on the listed files leaves the window idle with the
      same table lines, and on success every listed file's line shows
      Merged. */
  lemma RunToCompletion(s: App, out: string, probe: Probe, merge: Merger)
    requires s.processing
    ensures var run := WorkerMain(s.files, out, probe, merge);
      var f := Consume(s, run.events);
      && !f.processing
      && SameLines(f.table, s.table)
      && (run.events[|run.events| - 1].Done? ==>
            f.statusText == CompletedText
            && forall i :: 0 <= i < |f.table| && Lists(s.files, f.table[i].name) ==> f.table[i].status == Merged)
  {
    ConsumeRun(s, WorkerMain(s.files, out, probe, merge).events);
  }
}
