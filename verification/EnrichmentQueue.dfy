/**
 The debounced queue between the watcher and the enricher (sourcegraph/queue.go). Senders, the
 timer and the one loop goroutine take turns; each step below is atomic in the program.
 */
module EnrichmentQueue {
  import opened Basics

  const DEFAULT_BUFFER_SIZE := 100

  datatype Timer = Stopped | Armed | Fired   // Fired: a tick waits in the timer's channel

  /** Where the loop goroutine is; it processes a batch to the end before it selects again. */
  datatype Loop = Selecting | Entering(paths: set<string>) | Running(paths: set<string>) | Cancelled

  /** `accepted` and `handed` record what Send took and what processBatch was given. */
  datatype Queue = Queue(channel: seq<seq<string>>, capacity: nat, accumulated: set<string>, timer: Timer,
      inFlight: bool, loop: Loop, accepted: set<string>, handed: set<string>, rejected: nat, dropped: nat)

  datatype Step = Send(paths: seq<string>) | Receive | Expire | Tick | Guard | Finish | Cancel

  predicate Enabled(q: Queue, s: Step) {
    match s
    case Send(_) => true
    case Receive => q.loop.Selecting? && q.channel != []
    case Expire => q.timer.Armed?
    case Tick => q.loop.Selecting? && q.timer.Fired?
    case Guard => q.loop.Entering?
    case Finish => q.loop.Running?
    case Cancel => q.loop.Selecting?
  }

  function Next(q: Queue, s: Step): Queue
    requires Enabled(q, s)
  {
    match s
    case Send(paths) =>
      if |q.channel| < q.capacity then q.(channel := q.channel + [paths], accepted := q.accepted + Members(paths))
      else q.(dropped := q.dropped + 1)
    case Receive =>       // stop and drain the timer, then arm it again
      q.(channel := q.channel[1..], accumulated := q.accumulated + Members(q.channel[0]), timer := Armed)
    case Expire => q.(timer := Fired)
    case Tick =>
      if q.accumulated == {} then q.(timer := Stopped)
      else q.(timer := Stopped, accumulated := {}, loop := Entering(q.accumulated), handed := q.handed + q.accumulated)
    case Guard =>         // compare-and-swap of the in-flight flag
      if q.inFlight then q.(loop := Selecting, rejected := q.rejected + 1)
      else q.(inFlight := true, loop := Running(q.loop.paths))
    case Finish => q.(inFlight := false, loop := Selecting)
    case Cancel => q.(loop := Cancelled, timer := Stopped)
  }

  function Waiting(channel: seq<seq<string>>): set<string> {
    if channel == [] then {} else Members(channel[0]) + Waiting(channel[1..])
  }

  ghost predicate Inv(q: Queue) {
    && q.accepted == Waiting(q.channel) + q.accumulated + q.handed
    && (q.inFlight <==> q.loop.Running?)
    && q.rejected == 0
    && |q.channel| <= q.capacity
    && (q.accumulated != {} && !q.loop.Cancelled? ==> q.timer != Stopped)
  }

  lemma {:induction false} WaitingSnoc(channel: seq<seq<string>>, paths: seq<string>)
    ensures Waiting(channel + [paths]) == Waiting(channel) + Members(paths)
  {
    if channel == [] {
      assert channel + [paths] == [paths] && [paths][1..] == [];
    } else {
      assert (channel + [paths])[1..] == channel[1..] + [paths];
      WaitingSnoc(channel[1..], paths);
    }
  }

  lemma StepKeepsInv(q: Queue, s: Step)
    requires Inv(q) && Enabled(q, s)
    ensures Inv(Next(q, s))
  {
    if s.Send? { WaitingSnoc(q.channel, s.paths); }
  }

  /** After NewTimer and Stop: a very short timer may already have ticked. */
  ghost predicate Initial(q: Queue) {
    q.capacity > 0 && !q.timer.Armed?
    && q == Queue([], q.capacity, {}, q.timer, false, Selecting, {}, {}, 0, 0)
  }

  ghost predicate Execution(qs: seq<Queue>, steps: seq<Step>) {
    && |qs| == |steps| + 1 && Initial(qs[0])
    && forall i :: 0 <= i < |steps| ==> Enabled(qs[i], steps[i]) && qs[i + 1] == Next(qs[i], steps[i])
  }

  /** Paths of the batches for which Send returned true among the first `n` steps. */
  ghost function SentPaths(qs: seq<Queue>, steps: seq<Step>, n: nat): set<string>
    requires n <= |steps| < |qs|
  {
    if n == 0 then {}
    else SentPaths(qs, steps, n - 1)
         + if steps[n - 1].Send? && |qs[n - 1].channel| < qs[n - 1].capacity then Members(steps[n - 1].paths) else {}
  }

  /**
   In every execution: a path of a batch that Send accepted is in the channel, in the accumulated
   set, or was handed to processBatch, and nothing else is; the in-flight guard never rejects a batch;
   and until cancellation a non-empty accumulated set has its timer armed or fired.
   */
  lemma {:induction false} QueueConserves(qs: seq<Queue>, steps: seq<Step>, n: nat)
    requires Execution(qs, steps) && n <= |steps|
    ensures Inv(qs[n])
    ensures SentPaths(qs, steps, n) == Waiting(qs[n].channel) + qs[n].accumulated + qs[n].handed
    ensures qs[n].rejected == 0
    ensures qs[n].accumulated != {} && !qs[n].loop.Cancelled? ==> qs[n].timer != Stopped
  {
    SentIsAccepted(qs, steps, n);
    if n > 0 {
      QueueConserves(qs, steps, n - 1);
      StepKeepsInv(qs[n - 1], steps[n - 1]);
    }
  }

  lemma {:induction false} SentIsAccepted(qs: seq<Queue>, steps: seq<Step>, n: nat)
    requires Execution(qs, steps) && n <= |steps|
    ensures SentPaths(qs, steps, n) == qs[n].accepted
  {
    if n > 0 { SentIsAccepted(qs, steps, n - 1); }
  }

  // ----- every single send

  /** Step `i` is a Send that returned true, and `p` is one of its paths. */
  ghost predicate SentAt(qs: seq<Queue>, steps: seq<Step>, i: nat, p: string)
    requires |steps| < |qs|
  {
    i < |steps| && steps[i].Send? && |qs[i].channel| < qs[i].capacity && p in steps[i].paths
  }

  /** At step `j` the accumulated set was handed to processBatch, and `p` was in it. */
  ghost predicate HandedAt(qs: seq<Queue>, steps: seq<Step>, j: nat, p: string)
    requires |steps| < |qs|
  {
    j < |steps| && steps[j].Tick? && p in qs[j].accumulated && qs[j + 1].loop == Entering(qs[j].accumulated)
  }

  ghost predicate OnItsWay(q: Queue, p: string) {
    p in Waiting(q.channel) || p in q.accumulated
  }

  /** One step moves a path on, or hands it over. */
  lemma StepMovesOn(q: Queue, s: Step, p: string)
    requires Enabled(q, s) && OnItsWay(q, p)
    ensures OnItsWay(Next(q, s), p) || (s.Tick? && p in q.accumulated && Next(q, s).loop == Entering(q.accumulated))
  {
    if s.Send? { WaitingSnoc(q.channel, s.paths); }
  }

  /**
   Every path of every accepted batch, however often it was sent before, is still in the channel or in
   the accumulated set, or was in a batch handed to processBatch after that very send.
   */
  lemma {:induction false} EverySendDelivered(qs: seq<Queue>, steps: seq<Step>, i: nat, n: nat, p: string)
    requires Execution(qs, steps) && SentAt(qs, steps, i, p) && i < n <= |steps|
    ensures OnItsWay(qs[n], p) || exists j :: i < j < n && HandedAt(qs, steps, j, p)
  {
    if n == i + 1 {
      WaitingSnoc(qs[i].channel, steps[i].paths);
    } else {
      EverySendDelivered(qs, steps, i, n - 1, p);
      if j :| i < j < n - 1 && HandedAt(qs, steps, j, p) {
        assert HandedAt(qs, steps, j, p);
      } else {
        StepMovesOn(qs[n - 1], steps[n - 1], p);
        assert steps[n - 1].Tick? && p in qs[n - 1].accumulated && qs[n].loop == Entering(qs[n - 1].accumulated)
          ==> HandedAt(qs, steps, n - 1, p);
      }
    }
  }

  /** The guard lets a batch that was handed over run: while it waits to enter, no other batch is in flight. */
  lemma HandedBatchEnters(qs: seq<Queue>, steps: seq<Step>, n: nat)
    requires Execution(qs, steps) && n < |steps| && steps[n].Guard?
    ensures qs[n + 1].loop == Running(qs[n].loop.paths)
  {
    QueueConserves(qs, steps, n);
  }

  // ----- debouncing

  /** The timer has ticked in a state: a whole quiet period has passed since it was last armed. */
  lemma {:induction false} NoTickBeforeExpiry(qs: seq<Queue>, steps: seq<Step>, i: nat, n: nat)
    requires Execution(qs, steps) && i < n <= |steps| && steps[i].Receive?
    requires forall k :: i < k < n ==> !steps[k].Expire?
    ensures !qs[n].timer.Fired?
  {
    if n > i + 1 { NoTickBeforeExpiry(qs, steps, i, n - 1); }
  }

  /**
   A batch starts only after a quiet period: between the last receive of a batch of paths and the tick that
   hands the paths over, the timer was armed by that receive and has run out.
   */
  lemma Debounced(qs: seq<Queue>, steps: seq<Step>, i: nat, j: nat)
    requires Execution(qs, steps) && i < j < |steps| && steps[i].Receive? && steps[j].Tick?
    ensures exists k :: i < k < j && steps[k].Expire?
  {
    if forall k :: i < k < j ==> !steps[k].Expire? { NoTickBeforeExpiry(qs, steps, i, j); }
  }

  /** The paths received since the timer last ticked. */
  ghost function ReceivedSince(qs: seq<Queue>, steps: seq<Step>, n: nat): set<string>
    requires Execution(qs, steps) && n <= |steps|
  {
    if n == 0 || steps[n - 1].Tick? then {}
    else ReceivedSince(qs, steps, n - 1) + if steps[n - 1].Receive? then Members(qs[n - 1].channel[0]) else {}
  }

  /** A batch is everything that was received since the tick before, each path once, and nothing else. */
  lemma {:induction false} BatchIsReceived(qs: seq<Queue>, steps: seq<Step>, n: nat)
    requires Execution(qs, steps) && n <= |steps|
    ensures qs[n].accumulated == ReceivedSince(qs, steps, n)
    ensures n < |steps| && steps[n].Tick? ==>
      qs[n + 1].loop == if ReceivedSince(qs, steps, n) == {} then Selecting else Entering(ReceivedSince(qs, steps, n))
  {
    if n > 0 { BatchIsReceived(qs, steps, n - 1); }
  }

  /** The timer is off in a state without receives since the last tick. */
  lemma {:induction false} OffUntilReceive(qs: seq<Queue>, steps: seq<Step>, i: nat, n: nat)
    requires Execution(qs, steps) && i < n <= |steps| && steps[i].Tick?
    requires forall k :: i < k < n ==> !steps[k].Receive?
    ensures qs[n].timer == Stopped
  {
    if n > i + 1 { OffUntilReceive(qs, steps, i, n - 1); }
  }

  /** Every tick but the first answers a receive after the tick before it, and every expiry makes a tick possible. */
  lemma TicksAnswerReceives(qs: seq<Queue>, steps: seq<Step>, i: nat, j: nat)
    requires Execution(qs, steps) && i < |steps|
    ensures i < j < |steps| && steps[i].Tick? && steps[j].Tick? ==> exists k :: i < k < j && steps[k].Receive?
    ensures steps[i].Expire? && qs[i].loop == Selecting ==> Enabled(qs[i + 1], Tick)
  {
    if i < j < |steps| && steps[i].Tick? && steps[j].Tick? && forall k :: i < k < j ==> !steps[k].Receive? {
      OffUntilReceive(qs, steps, i, j);
      assert false;
    }
  }

  /** The paths of all batches handed to processBatch among the first `n` steps. */
  ghost function Batches(qs: seq<Queue>, steps: seq<Step>, n: nat): set<string>
    requires n <= |steps| < |qs|
  {
    if n == 0 then {} else Batches(qs, steps, n - 1) + (if steps[n - 1].Tick? then qs[n - 1].accumulated else {})
  }

  lemma {:induction false} HandedIsBatches(qs: seq<Queue>, steps: seq<Step>, n: nat)
    requires Execution(qs, steps) && n <= |steps|
    ensures qs[n].handed == Batches(qs, steps, n)
  {
    if n > 0 { HandedIsBatches(qs, steps, n - 1); }
  }

  /** A batch that was let in runs to its end, and leaves the loop ready for the next selection. */
  lemma BatchesFinish(qs: seq<Queue>, steps: seq<Step>, n: nat)
    requires Execution(qs, steps) && n < |steps|
    ensures steps[n].Guard? ==> qs[n + 1].inFlight && qs[n + 1].loop == Running(qs[n].loop.paths)
    ensures steps[n].Finish? ==> !qs[n + 1].inFlight && qs[n + 1].loop == Selecting
    ensures steps[n].Guard? || steps[n].Finish? ==>
      qs[n + 1].channel == qs[n].channel && qs[n + 1].accumulated == qs[n].accumulated && qs[n + 1].timer == qs[n].timer
  {
    if steps[n].Guard? { HandedBatchEnters(qs, steps, n); }
  }

  predicate IsFullSend(q: Queue, s: Step) { s.Send? && |q.channel| >= q.capacity }

  /** The sends that found the channel full among the first `n` steps. */
  ghost function FullSends(qs: seq<Queue>, steps: seq<Step>, n: nat): nat
    requires n <= |steps| < |qs|
  {
    if n == 0 then 0
    else FullSends(qs, steps, n - 1) + (if IsFullSend(qs[n - 1], steps[n - 1]) then 1 else 0)
  }

  /** Every send is accepted or dropped, and the dropped ones are counted; a dropped send changes nothing else. */
  lemma {:induction false} DropsCounted(qs: seq<Queue>, steps: seq<Step>, n: nat)
    requires Execution(qs, steps) && n <= |steps|
    ensures qs[n].dropped == FullSends(qs, steps, n)
  {
    if n > 0 { DropsCounted(qs, steps, n - 1); }
  }

  /** Once cancelled the loop takes nothing more, and its timer is stopped for good. */
  lemma {:induction false} CancelIsFinal(qs: seq<Queue>, steps: seq<Step>, i: nat, n: nat)
    requires Execution(qs, steps) && i < n <= |steps| && steps[i].Cancel?
    ensures qs[n].loop == Cancelled && qs[n].timer == Stopped
    ensures qs[n].accumulated == qs[i].accumulated && qs[n].handed == qs[i].handed
  {
    if n > i + 1 { CancelIsFinal(qs, steps, i, n - 1); }
  }

  // ----- the object

  class EnrichmentQueue {
    const capacity: nat
    var channel: seq<seq<string>>
    var accumulated: set<string>
    var timer: Timer
    var inFlight: bool
    var loop: Loop
    ghost var accepted: set<string>
    ghost var handed: set<string>
    var rejected: nat
    var dropped: nat

    constructor (bufferSize: int)
      ensures Initial(View()) && View().timer == Stopped
      ensures capacity == if bufferSize <= 0 then DEFAULT_BUFFER_SIZE else bufferSize
    {
      capacity := if bufferSize <= 0 then DEFAULT_BUFFER_SIZE else bufferSize;
      channel, accumulated, timer, inFlight, loop := [], {}, Stopped, false, Selecting;
      accepted, handed, rejected, dropped := {}, {}, 0, 0;
    }

    ghost function View(): Queue
      reads this
    {
      Queue(channel, capacity, accumulated, timer, inFlight, loop, accepted, handed, rejected, dropped)
    }

    /** Non-blocking: a full channel drops the batch. */
    method TrySend(paths: seq<string>) returns (ok: bool)
      modifies this
      ensures View() == Next(old(View()), Send(paths))
      ensures ok <==> |old(channel)| < capacity
    {
      if |channel| >= capacity {
        dropped := dropped + 1;
        return false;
      }
      channel, accepted := channel + [paths], accepted + Members(paths);
      ok := true;
    }

    method OnPaths()
      requires Enabled(View(), Receive)
      modifies this
      ensures View() == Next(old(View()), Receive)
    {
      var paths := channel[0];
      channel := channel[1..];
      ghost var before := accumulated;
      for i := 0 to |paths|
        invariant accumulated == before + Members(paths[..i])
        invariant View() == old(View()).(channel := old(channel)[1..], accumulated := accumulated)
      {
        assert paths[..i + 1] == paths[..i] + [paths[i]];
        accumulated := accumulated + {paths[i]};
      }
      assert paths[..|paths|] == paths;
      timer := Stopped;   // stop, draining a tick that already fired
      timer := Armed;     // reset
    }

    method OnTimer()
      requires Enabled(View(), Tick)
      modifies this
      ensures View() == Next(old(View()), Tick)
    {
      timer := Stopped;
      if accumulated == {} { return; }
      var paths := accumulated;
      accumulated := {};
      handed := handed + paths;
      loop := Entering(paths);
    }

    /** With the queue invariant the guard always lets the batch in. */
    method EnterBatch() returns (ok: bool)
      requires Enabled(View(), Guard)
      modifies this
      ensures View() == Next(old(View()), Guard)
      ensures old(Inv(View())) ==> ok
      ensures ok <==> loop.Running?
    {
      if inFlight {
        rejected, loop := rejected + 1, Selecting;
        return false;
      }
      inFlight, loop := true, Running(loop.paths);
      ok := true;
    }

    method LeaveBatch()
      requires Enabled(View(), Finish)
      modifies this
      ensures View() == Next(old(View()), Finish)
    {
      inFlight, loop := false, Selecting;
    }
  }

  /** The ids of the symbols found under any of the paths, each once; failing lookups are skipped. */
  method ResolveSymbolIDs(paths: seq<string>, lookup: string -> Result<seq<int>>) returns (ids: seq<int>)
    ensures NoDuplicates(ids)
    ensures forall id :: id in ids <==>
      exists i :: 0 <= i < |paths| && lookup(paths[i]).Ok? && id in lookup(paths[i]).value
  {
    ids := [];
    for i := 0 to |paths|
      invariant NoDuplicates(ids)
      invariant forall id :: id in ids <==> exists k :: 0 <= k < i && FoundUnder(lookup, paths[k], id)
    {
      var found := lookup(paths[i]);
      if found.Ok? {
        ghost var before := ids;
        for j := 0 to |found.value|
          invariant NoDuplicates(ids)
          invariant forall id :: id in ids <==> id in before || id in found.value[..j]
        {
          if found.value[j] !in ids { ids := ids + [found.value[j]]; }
        }
        assert found.value[..|found.value|] == found.value;
        assert forall id :: FoundUnder(lookup, paths[i], id) <==> id in found.value;
      }
    }
    assert forall i, id :: 0 <= i < |paths| ==>
      (FoundUnder(lookup, paths[i], id) <==> lookup(paths[i]).Ok? && id in lookup(paths[i]).value);
  }

  predicate FoundUnder(lookup: string -> Result<seq<int>>, path: string, id: int) {
    lookup(path).Ok? && id in lookup(path).value
  }
}
