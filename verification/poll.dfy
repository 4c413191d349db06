/** `_poll_worker` over time. Each scheduled call drains whatever the worker
    has queued so far, then reschedules itself only if the worker thread is
    still alive. The worker may put its last event and return between the
    drain and the liveness check; that event is then never handled. */
module Polling {
  import opened Paths
  import opened Events
  import opened Pipeline
  import opened Worker
  import opened Ui

  /** What one scheduled call observes: how many of the worker's events were
      queued when the drain found the queue empty, and what `is_alive()`
      answered right after. */
  datatype Tick = Tick(queued: nat, alive: bool)

  /** Observations the two threads can produce for the worker's events `es`:
      the queue only grows, never past `es`, and once the worker has been seen
      dead it stays dead and all of its events are queued. */
  predicate Feasible(es: seq<Event>, ticks: seq<Tick>) {
    && (forall i :: 0 <= i < |ticks| ==> ticks[i].queued <= |es|)
    && (forall i, j :: 0 <= i < j < |ticks| ==> ticks[i].queued <= ticks[j].queued)
    && (forall i, j :: 0 <= i < j < |ticks| && !ticks[i].alive ==> ticks[j].queued == |es|)
    && (forall i, j :: 0 <= i < j < |ticks| && !ticks[i].alive ==> !ticks[j].alive)
  }

  /** The queue counts start at `handled`, never decrease and stay within
      `es`. */
  predicate Ordered(es: seq<Event>, handled: nat, ticks: seq<Tick>) {
    && handled <= |es|
    && (forall i :: 0 <= i < |ticks| ==> handled <= ticks[i].queued <= |es|)
    && (forall i, j :: 0 <= i < j < |ticks| ==> ticks[i].queued <= ticks[j].queued)
  }

  lemma OrderedTail(es: seq<Event>, handled: nat, ticks: seq<Tick>)
    requires Ordered(es, handled, ticks) && |ticks| > 0
    ensures Ordered(es, ticks[0].queued, ticks[1..])
  {
    assert forall i :: 0 <= i < |ticks| - 1 ==> ticks[1..][i] == ticks[i + 1];
  }

  /** The position of the first call that sees the worker dead, or the
      number of calls when every call sees it alive. */
  function FirstDead(ticks: seq<Tick>): (k: nat)
    ensures k <= |ticks|
    ensures forall i :: 0 <= i < k ==> ticks[i].alive
    ensures k < |ticks| ==> !ticks[k].alive
    decreases |ticks|
  {
    if |ticks| == 0 || !ticks[0].alive then 0
    else
      var k := FirstDead(ticks[1..]);
      assert forall i :: 1 <= i < k + 1 ==> ticks[i] == ticks[1..][i - 1];
      k + 1
  }

  /** How many events have been queued when polling as written stops: the
      count seen by the first call that finds the worker dead, else by the
      last call, else `handled` when there is no call. */
  function StopCount(handled: nat, ticks: seq<Tick>): nat {
    var k := FirstDead(ticks);
    if k < |ticks| then ticks[k].queued
    else if |ticks| > 0 then ticks[|ticks| - 1].queued
    else handled
  }

  /** One call that sees the worker alive leaves the stop point to the
      remaining calls. */
  lemma StopCountStep(handled: nat, ticks: seq<Tick>)
    requires |ticks| > 0 && ticks[0].alive
    ensures StopCount(handled, ticks) == StopCount(ticks[0].queued, ticks[1..])
  {
    assert FirstDead(ticks) == FirstDead(ticks[1..]) + 1;
    if |ticks| > 1 {
      assert ticks[1..][|ticks| - 2] == ticks[|ticks| - 1];
    }
  }

  /** `_poll_worker` as written: after draining, reschedule iff the worker is
      alive. `handled` events have already been consumed. Over all its calls
      it handles, in FIFO order, exactly the events queued up to the call
      that first sees the worker dead (or the last call), and nothing after
      them. */
  function PollAsWritten(app: App, es: seq<Event>, handled: nat, ticks: seq<Tick>): (r: App)
    requires Ordered(es, handled, ticks)
    ensures handled <= StopCount(handled, ticks) <= |es|
    ensures r == Consume(app, es[handled..StopCount(handled, ticks)])
    decreases |ticks|
  {
    if |ticks| == 0 then
      assert es[handled..handled] == [];
      app
    else
      var t := ticks[0];
      var next := Consume(app, es[handled..t.queued]);
      OrderedTail(es, handled, ticks);
      if t.alive then
        var r := PollAsWritten(next, es, t.queued, ticks[1..]);
        StopCountStep(handled, ticks);
        var q := StopCount(handled, ticks);
        ConsumeAppend(app, es[handled..t.queued], es[t.queued..q]);
        assert es[handled..t.queued] + es[t.queued..q] == es[handled..q];
        r
      else next
  }

  /** Polling until the terminal event has been handled: reschedule while the
      window is still processing. */
  function PollCorrected(app: App, es: seq<Event>, handled: nat, ticks: seq<Tick>): (r: App)
    requires Ordered(es, handled, ticks)
    ensures r.folder == app.folder && r.files == app.files
    decreases |ticks|
  {
    if |ticks| == 0 then app
    else
      var t := ticks[0];
      var next := Consume(app, es[handled..t.queued]);
      OrderedTail(es, handled, ticks);
      if next.processing then PollCorrected(next, es, t.queued, ticks[1..]) else next
  }

  /** Handling a proper prefix of a run keeps the window busy. */
  lemma PrefixBusy(app: App, es: seq<Event>, k: nat)
    requires app.processing && EndsOnce(es) && k < |es|
    ensures Consume(app, es[..k]).processing
  {
    assert forall i :: 0 <= i < k ==> es[..k][i] == es[i];
  }

  lemma EndsOnceSuffix(es: seq<Event>, k: nat)
    requires EndsOnce(es) && k < |es|
    ensures EndsOnce(es[k..])
  {
    assert forall i :: 0 <= i < |es| - k ==> es[k..][i] == es[k + i];
  }

  lemma SplitAt(es: seq<Event>, handled: nat, q: nat)
    requires handled <= q <= |es|
    ensures es[handled..q] == es[handled..][..q - handled]
    ensures es[q..] == es[handled..][q - handled..]
    ensures es[handled..] == es[handled..q] + es[q..]
  {
  }

  /** While the window stays busy, corrected polling moves on to the next
      call. */
  lemma PollCorrectedStep(app: App, es: seq<Event>, handled: nat, ticks: seq<Tick>)
    requires Ordered(es, handled, ticks) && |ticks| > 0
    requires Consume(app, es[handled..ticks[0].queued]).processing
    ensures Ordered(es, ticks[0].queued, ticks[1..])
    ensures PollCorrected(app, es, handled, ticks) ==
      PollCorrected(Consume(app, es[handled..ticks[0].queued]), es, ticks[0].queued, ticks[1..])
  {
    OrderedTail(es, handled, ticks);
  }

  /** With a schedule that keeps calling until after the worker has finished,
      corrected polling handles every event in order, exactly once, and ends
      idle. */
  lemma {:induction false} PollCorrectedDrains(app: App, es: seq<Event>, handled: nat, ticks: seq<Tick>)
    requires app.processing
    requires handled < |es| && EndsOnce(es[handled..])
    requires Ordered(es, handled, ticks)
    requires |ticks| > 0 && ticks[|ticks| - 1].queued == |es|
    ensures PollCorrected(app, es, handled, ticks) == Consume(app, es[handled..])
    ensures !PollCorrected(app, es, handled, ticks).processing
    decreases |ticks|
  {
    var q := ticks[0].queued;
    var rest := es[handled..];
    OrderedTail(es, handled, ticks);
    SplitAt(es, handled, q);
    if q < |es| {
      PrefixBusy(app, rest, q - handled);
      var next := Consume(app, es[handled..q]);
      PollCorrectedStep(app, es, handled, ticks);
      assert |ticks| > 1 && ticks[1..][|ticks| - 2] == ticks[|ticks| - 1];
      EndsOnceSuffix(rest, q - handled);
      PollCorrectedDrains(next, es, q, ticks[1..]);
      ConsumeAppend(app, es[handled..q], es[q..]);
    } else {
      assert es[handled..q] == rest;
      BusyUntilTerminal(app, rest);
      assert PollCorrected(app, es, handled, ticks) == Consume(app, rest);
    }
  }

  /** A whole run: starting busy with nothing handled, a feasible schedule
      whose last call comes after the worker finished ends idle with the same
      state as handling the events in order. */
  lemma PollCorrectedRun(app: App, es: seq<Event>, ticks: seq<Tick>)
    requires app.processing
    requires EndsOnce(es)
    requires Feasible(es, ticks)
    requires |ticks| > 0 && ticks[|ticks| - 1].queued == |es|
    ensures PollCorrected(app, es, 0, ticks) == Consume(app, es)
    ensures !PollCorrected(app, es, 0, ticks).processing
  {
    assert es[0..] == es;
    PollCorrectedDrains(app, es, 0, ticks);
  }

  /** Polling as written ends idle exactly when the call that stops it had
      already seen every event queued; stopping any earlier leaves the
      window "Processing…" with Convert and Clear disabled. */
  lemma PollAsWrittenHandlesAll(app: App, es: seq<Event>, ticks: seq<Tick>)
    requires app.processing && EndsOnce(es)
    requires Ordered(es, 0, ticks)
    ensures !PollAsWritten(app, es, 0, ticks).processing <==> StopCount(0, ticks) == |es|
  {
    var q := StopCount(0, ticks);
    assert es[0..q] == es[..q];
    if q < |es| {
      PrefixBusy(app, es, q);
    } else {
      assert es[..q] == es;
      BusyUntilTerminal(app, es);
    }
  }

  /** The schedule that loses the terminal event of a run `es`: one call
      drains everything but the terminal event; the worker then queues it and
      returns before that call asks `is_alive()`. */
  function LosingSchedule(es: seq<Event>): seq<Tick> {
    if |es| == 0 then [] else [Tick(|es| - 1, false), Tick(|es|, false)]
  }

  /** On the losing schedule, which the two threads can produce, polling as
      written stops with the window still "Processing…" (Convert and Clear
      disabled), while corrected polling handles the terminal event. */
  predicate LosesTerminal(app: App, es: seq<Event>) {
    var ticks := LosingSchedule(es);
    && |ticks| > 0
    && Feasible(es, ticks)
    && Ordered(es, 0, ticks)
    && PollAsWritten(app, es, 0, ticks).processing
    && !PollCorrected(app, es, 0, ticks).processing
  }

  /** Every run that ends with its terminal event can lose it: polling as
      written handles all but the last event and stops. */
  lemma PollAsWrittenLosesLast(app: App, es: seq<Event>)
    requires app.processing && EndsOnce(es)
    ensures LosesTerminal(app, es)
    ensures PollAsWritten(app, es, 0, LosingSchedule(es)) == Consume(app, es[..|es| - 1])
  {
    var ticks := LosingSchedule(es);
    assert FirstDead(ticks) == 0;
    PollAsWrittenHandlesAll(app, es, ticks);
    assert es[0..|es| - 1] == es[..|es| - 1];
    PollCorrectedRun(app, es, ticks);
  }

  /** That happens for every run the worker produces, so also for every run
      `_start` launches. */
  lemma PollAsWrittenLosesTerminal(app: App, files: seq<Path>, out: string, probe: Probe, merge: Merger)
    requires app.processing
    ensures LosesTerminal(app, WorkerMain(files, out, probe, merge).events)
  {
    PollAsWrittenLosesLast(app, WorkerMain(files, out, probe, merge).events);
  }
}
