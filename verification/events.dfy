/** Row statuses and the tuples the worker puts on its queue
    (`("progress", cur, total, msg)`, `("row", name, status)`, `("stage", msg)`,
    `("done", path)`, `("error", msg)`). */
module Events {
  import opened Text
  import opened Dispatch

  datatype Status = Ready | Queued | Converting | Converted | Failed | Merged

  /** The progress texts of the conversion loop, kept structured; `Text`
      renders each as its f-string does. */
  datatype Message =
    | QueuedPdf(name: string)
    | ConvertingTo(name: string, target: string)
    | FailedWith(name: string, error: ConvertError)
  {
    function Text(): string {
      match this
      case QueuedPdf(name) => "Queued PDF: " + name
      case ConvertingTo(name, target) => "Converting " + name + " \U{2192} " + target
      case FailedWith(name, error) => "Failed: " + name + " (" + error.Message() + ")"
    }
  }

  datatype Event =
    | Progress(current: nat, total: nat, note: Message)
    | Row(file: string, status: Status)
    | Stage(count: nat)
    | Done(output: string)
    | Error(message: string)
  {
    /** The events after which the UI leaves the processing state. */
    predicate IsTerminal() {
      Done? || Error?
    }
  }

  /** The stage text announcing the merge of `count` PDFs. */
  function StageText(count: nat): string {
    "Merging " + NatToString(count) + " PDF(s)\U{2026}"
  }

  /** The status one event reports for the row named `name`, if any. */
  function StatusFor(e: Event, name: string): seq<Status> {
    if e.Row? && e.file == name then [e.status] else []
  }

  /** The statuses reported for the row named `name`, in order. */
  function RowStatuses(es: seq<Event>, name: string): (r: seq<Status>)
    ensures |r| <= |es|
    decreases |es|
  {
    if |es| == 0 then []
    else StatusFor(es[0], name) + RowStatuses(es[1..], name)
  }

  lemma RowStatusesSingle(e: Event, name: string)
    ensures RowStatuses([e], name) == StatusFor(e, name)
  {
    assert [e][1..] == [];
  }

  lemma {:induction false} RowStatusesAppend(a: seq<Event>, b: seq<Event>, name: string)
    ensures RowStatuses(a + b, name) == RowStatuses(a, name) + RowStatuses(b, name)
    decreases |a|
  {
    if |a| > 0 {
      assert (a + b)[1..] == a[1..] + b;
      RowStatusesAppend(a[1..], b, name);
    } else {
      assert a + b == b;
    }
  }
}
