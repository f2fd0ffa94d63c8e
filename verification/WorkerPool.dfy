/** The worker pool of the adapters: workers that share one cursor over the values and
    one output array, and wait while a value is mapped.

    A worker runs without interruption from one `await` to the next. The events below
    are finer than that, so every interleaving the runtime can produce is a list of
    events here. A value is `None` where the source has `undefined`. */
module WorkerPool {
  import opened Types

  datatype Worker =
    | Ready                  // about to test `cursor < values.length`
    | Mapping(index: nat)    // waiting for `map(values[index])`
    | Finished
    | Failed(index: nat)     // its `map` rejected

  datatype Pool<U> = Pool(cursor: nat, output: seq<Option<U>>, workers: seq<Worker>)

  datatype Event =
    | Claim(worker: nat)
    | Skip(worker: nat)      // the claimed value is undefined
    | Resolve(worker: nat)
    | Reject(worker: nat)
    | Finish(worker: nat)

  datatype Job<!T, !U> = Job(values: seq<Option<T>>, concurrency: int, map_: T -> U) {

    function WorkerCount(): nat {
      if concurrency < 0 then 0 else if concurrency < |values| then concurrency else |values|
    }

    function Start(): Pool<U> {
      Pool(0, seq(|values|, _ => None), seq(WorkerCount(), _ => Ready))
    }

    /** What the pool is for: position for position, the mapped values. */
    function Expected(): seq<Option<U>> {
      seq(|values|, i requires 0 <= i < |values| =>
        if values[i].Some? then Some(map_(values[i].value)) else None)
    }

    predicate Enabled(p: Pool<U>, e: Event) {
      && e.worker < |p.workers|
      && var w := p.workers[e.worker];
      match e
      case Claim(_) => w.Ready? && p.cursor < |values| && values[p.cursor].Some?
      case Skip(_) => w.Ready? && p.cursor < |values| && values[p.cursor].None?
      case Finish(_) => w.Ready? && p.cursor >= |values|
      case Resolve(_) => w.Mapping? && w.index < |values| && w.index < |p.output| && values[w.index].Some?
      case Reject(_) => w.Mapping?
    }

    function Next(p: Pool<U>, e: Event): Pool<U>
      requires Enabled(p, e)
    {
      var w := p.workers[e.worker];
      match e
      case Claim(n) => p.(cursor := p.cursor + 1, workers := p.workers[n := Mapping(p.cursor)])
      case Skip(n) => p.(cursor := p.cursor + 1)
      case Finish(n) => p.(workers := p.workers[n := Finished])
      case Resolve(n) => p.(output := p.output[w.index := Some(map_(values[w.index].value))],
                            workers := p.workers[n := Ready])
      case Reject(n) => p.(workers := p.workers[n := Failed(w.index)])
    }

    /** The pool after a run, or None if some event could not happen. */
    function Run(p: Pool<U>, events: seq<Event>): Option<Pool<U>>
      decreases |events|
    {
      if events == [] then Some(p)
      else if Enabled(p, events[0]) then Run(Next(p, events[0]), events[1..])
      else None
    }

    /** The indices a run takes from the cursor, in order. */
    function Claimed(p: Pool<U>, events: seq<Event>): seq<nat>
      decreases |events|
    {
      if events == [] || !Enabled(p, events[0]) then []
      else
        (if events[0].Claim? || events[0].Skip? then [p.cursor] else [])
        + Claimed(Next(p, events[0]), events[1..])
    }

    ghost predicate Stuck(p: Pool<U>) {
      forall e :: !Enabled(p, e)
    }

    ghost predicate InFlight(p: Pool<U>, i: nat) {
      exists n :: 0 <= n < |p.workers| && p.workers[n] == Mapping(i)
    }

    ghost predicate Lost(p: Pool<U>, i: nat) {
      exists n :: 0 <= n < |p.workers| && p.workers[n] == Failed(i)
    }

    /** Holds in every state of every run. */
    ghost predicate Invariant(p: Pool<U>) {
      && p.cursor <= |values| == |p.output|
      && |p.workers| == WorkerCount()
      && (forall i :: 0 <= i < |values| ==> Accounted(p, i))
      && (forall n :: 0 <= n < |p.workers| ==> Busy(p, n))
      && (forall m, n :: 0 <= m < n < |p.workers| ==> Apart(p.workers[m], p.workers[n]))
    }

    /** Below the cursor a defined value is done, in flight or lost; above it nothing is. */
    ghost predicate Accounted(p: Pool<U>, i: nat)
      requires i < |values| == |p.output|
    {
      if i >= p.cursor || values[i].None? then p.output[i] == None
      else if p.output[i].Some? then p.output[i] == Some(map_(values[i].value))
      else InFlight(p, i) || Lost(p, i)
    }

    ghost predicate Busy(p: Pool<U>, n: nat)
      requires n < |p.workers| && |values| == |p.output|
    {
      match p.workers[n]
      case Ready => true
      case Mapping(i) => i < p.cursor && i < |values| && values[i].Some? && p.output[i] == None
      case Failed(i) => i < p.cursor && i < |values| && values[i].Some? && p.output[i] == None
      case Finished => p.cursor == |values|
    }

    ghost predicate Apart(v: Worker, w: Worker) {
      (v.Mapping? || v.Failed?) && (w.Mapping? || w.Failed?) ==> v.index != w.index
    }

    lemma StartInvariant()
      ensures Invariant(Start())
    {
    }

    lemma NextAccounted(p: Pool<U>, e: Event, i: nat)
      requires Invariant(p) && Enabled(p, e) && i < |values|
      ensures |Next(p, e).output| == |values| && Accounted(Next(p, e), i)
    {
      var q := Next(p, e);
      assert Accounted(p, i);
      assert Busy(p, e.worker);
      if e.Claim? && i == p.cursor {
        assert q.workers[e.worker] == Mapping(i);
      } else if InFlight(p, i) {
        var n :| 0 <= n < |p.workers| && p.workers[n] == Mapping(i);
        assert n != e.worker ==> q.workers[n] == Mapping(i);
        if e.Reject? && n == e.worker { assert q.workers[n] == Failed(i); }
      } else if Lost(p, i) {
        var n :| 0 <= n < |p.workers| && p.workers[n] == Failed(i);
        assert q.workers[n] == Failed(i);
        assert Busy(p, n);
      }
    }

    lemma NextBusy(p: Pool<U>, e: Event, n: nat)
      requires Invariant(p) && Enabled(p, e) && n < |p.workers|
      ensures |Next(p, e).output| == |values| && Busy(Next(p, e), n)
    {
      assert Busy(p, n) && Busy(p, e.worker);
      if e.Claim? { assert Accounted(p, p.cursor); }
      if n < e.worker { assert Apart(p.workers[n], p.workers[e.worker]); }
      if e.worker < n { assert Apart(p.workers[e.worker], p.workers[n]); }
    }

    lemma NextApart(p: Pool<U>, e: Event, m: nat, n: nat)
      requires Invariant(p) && Enabled(p, e) && m < n < |p.workers|
      ensures Apart(Next(p, e).workers[m], Next(p, e).workers[n])
    {
      assert Apart(p.workers[m], p.workers[n]);
      assert Busy(p, m) && Busy(p, n);
    }

    /** Every event keeps the invariant. */
    lemma NextInvariant(p: Pool<U>, e: Event)
      requires Invariant(p) && Enabled(p, e)
      ensures Invariant(Next(p, e))
    {
      var q := Next(p, e);
      assert Busy(p, e.worker);
      forall i | 0 <= i < |values| ensures Accounted(q, i) { NextAccounted(p, e, i); }
      forall n | 0 <= n < |q.workers| ensures Busy(q, n) { NextBusy(p, e, n); }
      forall m, n | 0 <= m < n < |q.workers| ensures Apart(q.workers[m], q.workers[n]) { NextApart(p, e, m, n); }
    }

    lemma {:induction false} RunInvariant(p: Pool<U>, events: seq<Event>)
      requires Invariant(p) && Run(p, events).Some?
      ensures Invariant(Run(p, events).value)
      decreases |events|
    {
      if events != [] {
        NextInvariant(p, events[0]);
        RunInvariant(Next(p, events[0]), events[1..]);
      }
    }

    function Indices(from: nat, to: nat): seq<nat>
      requires from <= to
    {
      seq(to - from, i requires 0 <= i => from + i)
    }

    lemma {:induction false} ClaimsInOrder(p: Pool<U>, events: seq<Event>)
      requires Run(p, events).Some?
      ensures p.cursor <= Run(p, events).value.cursor
      ensures Claimed(p, events) == Indices(p.cursor, Run(p, events).value.cursor)
      decreases |events|
    {
      if events != [] { ClaimsInOrder(Next(p, events[0]), events[1..]); }
    }

    /** Safety of every run: each index below the cursor was claimed exactly once and in
        order, what is in the output is right, what is missing from it is in flight or
        lost, and no two workers hold the same index. */
    lemma EveryRunIsSafe(events: seq<Event>)
      requires Run(Start(), events).Some?
      ensures var p := Run(Start(), events).value;
        && Claimed(Start(), events) == Indices(0, p.cursor)
        && Invariant(p)
        && |p.workers| == (if concurrency < 0 then 0 else if concurrency < |values| then concurrency else |values|)
    {
      StartInvariant();
      RunInvariant(Start(), events);
      ClaimsInOrder(Start(), events);
    }

    // ---- Progress and termination ------------------------------------------------

    /** A worker that waits may see its value mapped or rejected; one that is ready takes the next
        value, or finishes when there is none; one that has finished or failed does nothing. */
    lemma WhatMayHappen(p: Pool<U>, e: Event)
      requires Invariant(p) && e.worker < |p.workers|
      ensures var w, left := p.workers[e.worker], p.cursor < |values|;
        Enabled(p, e) <==> if e.Resolve? || e.Reject? then w.Mapping?
                           else if e.Finish? then w.Ready? && !left
                           else w.Ready? && left && values[p.cursor].Some? == e.Claim?
    {
      assert Busy(p, e.worker);
    }

    /** Until every worker has finished or failed, something can happen. */
    lemma StuckMeansDone(p: Pool<U>)
      requires Invariant(p)
      ensures Stuck(p) <==> forall n :: 0 <= n < |p.workers| ==> p.workers[n].Finished? || p.workers[n].Failed?
    {
      if Stuck(p) {
        forall n | 0 <= n < |p.workers| ensures p.workers[n].Finished? || p.workers[n].Failed? {
          assert Busy(p, n);
          assert !Enabled(p, Claim(n)) && !Enabled(p, Skip(n)) && !Enabled(p, Finish(n)) && !Enabled(p, Resolve(n));
        }
      }
    }

    function Weight(w: Worker): nat {
      match w case Ready => 1 case Mapping(_) => 2 case Finished => 0 case Failed(_) => 0
    }

    function Weights(ws: seq<Worker>): nat {
      if ws == [] then 0 else Weight(ws[0]) + Weights(ws[1..])
    }

    lemma {:induction false} WeightsUpdate(ws: seq<Worker>, n: nat, w: Worker)
      requires n < |ws|
      ensures Weights(ws[n := w]) == Weights(ws) - Weight(ws[n]) + Weight(w)
    {
      if n == 0 {
        assert ws[n := w][1..] == ws[1..];
      } else {
        assert ws[n := w][1..] == ws[1..][n - 1 := w];
        WeightsUpdate(ws[1..], n - 1, w);
      }
    }

    lemma {:induction false} AllReady(ws: seq<Worker>)
      requires forall n :: 0 <= n < |ws| ==> ws[n].Ready?
      ensures Weights(ws) == |ws|
    {
      if ws != [] { AllReady(ws[1..]); }
    }

    lemma {:induction false} StepsLeft(p: Pool<U>, events: seq<Event>)
      requires Invariant(p) && Run(p, events).Some?
      ensures |events| <= 2 * (|values| - p.cursor) + Weights(p.workers)
      decreases |events|
    {
      if events != [] {
        var e := events[0];
        NextInvariant(p, e);
        StepsLeft(Next(p, e), events[1..]);
        WeightsUpdate(p.workers, e.worker, Next(p, e).workers[e.worker]);
        assert p.workers[e.worker := p.workers[e.worker]] == p.workers;
        assert Next(p, e).workers == p.workers[e.worker := Next(p, e).workers[e.worker]];
      }
    }

    /** No run is longer than two steps a value and one a worker. */
    lemma EveryRunEnds(events: seq<Event>)
      requires Run(Start(), events).Some?
      ensures |events| <= 2 * |values| + WorkerCount()
    {
      StartInvariant();
      StepsLeft(Start(), events);
      AllReady(Start().workers);
    }

    // ---- The result ------------------------------------------------------------------

    lemma {:induction false} NobodyFails(p: Pool<U>, events: seq<Event>)
      requires Run(p, events).Some?
      requires forall w :: w in p.workers ==> !w.Failed?
      requires forall e :: e in events ==> !e.Reject?
      ensures forall w :: w in Run(p, events).value.workers ==> !w.Failed?
      decreases |events|
    {
      if events != [] { NobodyFails(Next(p, events[0]), events[1..]); }
    }

    /** A run in which no `map` rejects ends with the mapped values exactly when there is
        a worker to map them, or nothing to map. */
    lemma CompleteRunMapsEverything(events: seq<Event>)
      requires Run(Start(), events).Some? && Stuck(Run(Start(), events).value)
      requires forall e :: e in events ==> !e.Reject?
      ensures Run(Start(), events).value.output == Expected()
         <==> concurrency >= 1 || forall v :: v in values ==> v.None?
    {
      var p := Run(Start(), events).value;
      EveryRunIsSafe(events);
      StuckMeansDone(p);
      NobodyFails(Start(), events);
      forall n | 0 <= n < |p.workers| ensures p.workers[n] == Finished && p.cursor == |values| {
        assert p.workers[n] in p.workers;
        assert Busy(p, n);
      }
      forall i | 0 <= i < |values| ensures p.output[i] == if WorkerCount() == 0 then None else Expected()[i] {
        assert Accounted(p, i);
        if WorkerCount() > 0 { assert p.workers[0] == Finished; }
      }
      if WorkerCount() > 0 || forall v :: v in values ==> v.None? {
        assert forall i :: 0 <= i < |values| ==> values[i] in values;
        assert p.output == Expected();
      } else {
        var v :| v in values && v.Some?;
        var i :| 0 <= i < |values| && values[i] == v;
        assert p.output[i] != Expected()[i];
      }
    }

    /** After rejections the others go on: as long as one worker survives, every defined
        value is mapped except the ones whose `map` rejected. */
    lemma SurvivorsFinishTheJob(events: seq<Event>, i: nat)
      requires Run(Start(), events).Some? && Stuck(Run(Start(), events).value)
      requires exists w :: w in Run(Start(), events).value.workers && w.Finished?
      requires i < |values|
      ensures var p := Run(Start(), events).value;
        |p.output| == |values| && p.output[i] == if Lost(p, i) then None else Expected()[i]
    {
      var p := Run(Start(), events).value;
      EveryRunIsSafe(events);
      StuckMeansDone(p);
      var w :| w in p.workers && w.Finished?;
      var n :| 0 <= n < |p.workers| && p.workers[n] == w;
      assert Busy(p, n) && Accounted(p, i);
      if Lost(p, i) {
        var m :| 0 <= m < |p.workers| && p.workers[m] == Failed(i);
        assert Busy(p, m);
      }
    }
  }
}
