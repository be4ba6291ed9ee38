/** The telemetry channel and its flusher goroutine. */
module TelemetryBuffer {
  import opened Bytes

  // ---- The protocol, one atomic action at a time ----

  /** Where the flusher is: its select loop, draining after quit, past the drain, or finished. */
  datatype Phase = Running | Draining | Drained | Done

  /** `accepted`, `attempts` and `atDrain` are bookkeeping: every send that returned true, the
      number of sends, and how many had been accepted when the drain loop saw an empty channel. */
  datatype State<E> = State(
    capacity: nat, batchSize: int,
    ch: seq<E>, batch: seq<E>, sunk: seq<seq<E>>, flushed: nat, dropped: nat,
    phase: Phase, quit: bool,
    accepted: seq<E>, attempts: nat, atDrain: nat)

  datatype Step<E> = Send(e: E) | Receive | Tick | Stop | SeeQuit | DrainOne | DrainEnd | FinalFlush

  function Flush<E>(s: State<E>): State<E> {
    if s.batch == [] then s
    else s.(sunk := s.sunk + [s.batch], flushed := s.flushed + |s.batch|, batch := [])
  }

  predicate Enabled<E>(s: State<E>, step: Step<E>) {
    match step
    case Send(_) => true
    case Receive => s.phase.Running? && s.ch != []
    case Tick => s.phase.Running?
    case Stop => !s.quit
    case SeeQuit => s.phase.Running? && s.quit
    case DrainOne => s.phase.Draining? && s.ch != []
    case DrainEnd => s.phase.Draining? && s.ch == []
    case FinalFlush => s.phase.Drained?
  }

  function Do<E>(s: State<E>, step: Step<E>): State<E>
    requires Enabled(s, step)
  {
    match step
    case Send(e) =>
      if |s.ch| < s.capacity then s.(ch := s.ch + [e], accepted := s.accepted + [e], attempts := s.attempts + 1)
      else s.(dropped := s.dropped + 1, attempts := s.attempts + 1)
    case Receive =>
      var t := s.(ch := s.ch[1..], batch := s.batch + [s.ch[0]]);
      if |t.batch| >= s.batchSize then Flush(t) else t
    case Tick => Flush(s)
    case Stop => s.(quit := true)
    case SeeQuit => s.(phase := Draining)
    case DrainOne => s.(ch := s.ch[1..], batch := s.batch + [s.ch[0]])
    case DrainEnd => s.(phase := Drained, atDrain := |s.accepted|)
    case FinalFlush => Flush(s).(phase := Done)
  }

  function Start<E>(capacity: nat, batchSize: int): State<E> {
    State(capacity, batchSize, [], [], [], 0, 0, Running, false, [], 0, 0)
  }

  ghost predicate IsRun<E>(s: State<E>, steps: seq<Step<E>>)
    decreases |steps|
  {
    steps != [] ==> Enabled(s, steps[0]) && IsRun(Do(s, steps[0]), steps[1..])
  }

  ghost function After<E>(s: State<E>, steps: seq<Step<E>>): State<E>
    requires IsRun(s, steps)
    decreases |steps|
  {
    if steps == [] then s else After(Do(s, steps[0]), steps[1..])
  }

  // ---- When things happen ----

  /** A send is accepted exactly when the channel has room, and counted as dropped otherwise. */
  lemma {:induction false} SendIff<E>(s: State<E>, e: E)
    ensures var t := Do(s, Send(e));
            if |s.ch| < s.capacity then t.ch == s.ch + [e] && t.accepted == s.accepted + [e] && t.dropped == s.dropped
            else t.ch == s.ch && t.accepted == s.accepted && t.dropped == s.dropped + 1
  {
  }

  /** A received event is flushed with its batch exactly when the batch is full. */
  lemma {:induction false} ReceiveIff<E>(s: State<E>)
    requires Enabled(s, Receive)
    ensures var t, batch := Do(s, Receive), s.batch + [s.ch[0]];
            && t.ch == s.ch[1..]
            && if |batch| >= s.batchSize then t.batch == [] && t.sunk == s.sunk + [batch]
               else t.batch == batch && t.sunk == s.sunk
  {
  }

  /** A tick and the end of the drain hand over whatever there is. */
  lemma {:induction false} TickEmpties<E>(s: State<E>, step: Step<E>)
    requires Enabled(s, step) && (step.Tick? || step.FinalFlush?)
    ensures Do(s, step).batch == []
    ensures Do(s, step).sunk == s.sunk + (if s.batch == [] then [] else [s.batch])
  {
  }

  // ---- Conservation and order ----

  ghost function Flat<E>(batches: seq<seq<E>>): seq<E> {
    if batches == [] then [] else Flat(batches[..|batches| - 1]) + batches[|batches| - 1]
  }

  function Limit(batchSize: int): nat {
    if batchSize < 1 then 1 else batchSize
  }

  ghost predicate SmallBatches<E>(batches: seq<seq<E>>, batchSize: int) {
    forall i :: 0 <= i < |batches| ==> 0 < |batches[i]| <= Limit(batchSize)
  }

  /** No batch is empty, and only the one after the drain may exceed the limit. */
  ghost predicate BatchesOk<E>(s: State<E>) {
    && (forall i :: 0 <= i < |s.sunk| ==> s.sunk[i] != [])
    && (!s.phase.Done? ==> SmallBatches(s.sunk, s.batchSize))
    && (s.phase.Done? ==> s.batch == [] && (s.sunk != [] ==> SmallBatches(s.sunk[..|s.sunk| - 1], s.batchSize)))
  }

  ghost predicate Inv<E>(s: State<E>) {
    && Flat(s.sunk) + s.batch + s.ch == s.accepted
    && s.flushed == |Flat(s.sunk)|
    && s.attempts == |s.accepted| + s.dropped
    && |s.ch| <= s.capacity
    && (s.phase.Running? ==> |s.batch| < Limit(s.batchSize))
    && BatchesOk(s)
    && (s.phase.Drained? || s.phase.Done? ==>
          && s.atDrain <= |s.accepted|
          && s.ch == s.accepted[s.atDrain..] && Flat(s.sunk) + s.batch == s.accepted[..s.atDrain])
  }

  lemma FlatSnoc<E>(batches: seq<seq<E>>, b: seq<E>)
    ensures Flat(batches + [b]) == Flat(batches) + b
  {
    assert (batches + [b])[..|batches|] == batches;
  }

  /** What a flush keeps: the events in order, and the counter. */
  lemma FlushKeeps<E>(s: State<E>)
    ensures var t := Flush(s);
            && Flat(t.sunk) + t.batch == Flat(s.sunk) + s.batch
            && (s.flushed == |Flat(s.sunk)| ==> t.flushed == |Flat(t.sunk)|)
            && t == s.(sunk := t.sunk, flushed := t.flushed, batch := [])
  {
    FlatSnoc(s.sunk, s.batch);
    assert Flat(s.sunk) + s.batch + [] == Flat(s.sunk) + s.batch;
  }

  lemma SmallSnoc<E>(batches: seq<seq<E>>, b: seq<E>, batchSize: int)
    requires SmallBatches(batches, batchSize) && 0 < |b| <= Limit(batchSize)
    ensures SmallBatches(batches + [b], batchSize)
  {
  }

  /** A flush within the limit, before the end. */
  lemma FlushIsSmall<E>(s: State<E>)
    requires !s.phase.Done? && SmallBatches(s.sunk, s.batchSize) && |s.batch| <= Limit(s.batchSize)
    ensures BatchesOk(Flush(s))
  {
    if s.batch != [] { SmallSnoc(s.sunk, s.batch, s.batchSize); }
  }

  /** The final flush, of any size. */
  lemma FlushIsLast<E>(s: State<E>)
    requires BatchesOk(s) && s.phase.Drained?
    ensures BatchesOk(Flush(s).(phase := Done))
  {
    if s.batch != [] {
      assert (s.sunk + [s.batch])[..|s.sunk|] == s.sunk;
    }
  }

  /** Moving the head of the channel to the batch moves nothing else. */
  lemma TakeKeeps<E>(s: State<E>)
    requires s.ch != []
    ensures Flat(s.sunk) + (s.batch + [s.ch[0]]) + s.ch[1..] == Flat(s.sunk) + s.batch + s.ch
  {
    assert s.ch == [s.ch[0]] + s.ch[1..];
  }

  lemma SendKeeps<E>(s: State<E>, e: E)
    requires Inv(s)
    ensures Inv(Do(s, Send(e)))
  {
    if |s.ch| < s.capacity {
      var t := Do(s, Send(e));
      Associate(Flat(s.sunk) + s.batch, s.ch, [e]);
      if s.phase.Drained? || s.phase.Done? {
        assert t.accepted[s.atDrain..] == s.accepted[s.atDrain..] + [e];
        assert t.accepted[..s.atDrain] == s.accepted[..s.atDrain];
      }
    }
  }

  lemma ReceiveKeeps<E>(s: State<E>)
    requires Inv(s) && Enabled(s, Receive)
    ensures Inv(Do(s, Receive))
  {
    TakeKeeps(s);
    var t := s.(ch := s.ch[1..], batch := s.batch + [s.ch[0]]);
    FlushKeeps(t);
    FlushIsSmall(t);
  }

  lemma TickKeeps<E>(s: State<E>)
    requires Inv(s) && s.phase.Running?
    ensures Inv(Do(s, Tick))
  {
    FlushKeeps(s);
    FlushIsSmall(s);
  }

  lemma FinalFlushKeeps<E>(s: State<E>)
    requires Inv(s) && s.phase.Drained?
    ensures Inv(Do(s, FinalFlush))
  {
    FlushKeeps(s);
    FlushIsLast(s);
    assert Flat(Flush(s).sunk) + [] == Flat(Flush(s).sunk);
  }

  lemma DrainEndKeeps<E>(s: State<E>)
    requires Inv(s) && Enabled(s, DrainEnd)
    ensures Inv(Do(s, DrainEnd))
  {
    assert Flat(s.sunk) + s.batch + [] == Flat(s.sunk) + s.batch;
    assert s.accepted[..|s.accepted|] == s.accepted && s.accepted[|s.accepted|..] == [];
  }

  lemma StepKeeps<E>(s: State<E>, step: Step<E>)
    requires Inv(s) && Enabled(s, step)
    ensures Inv(Do(s, step))
  {
    match step
    case Send(e) => SendKeeps(s, e);
    case Receive => ReceiveKeeps(s);
    case Tick => TickKeeps(s);
    case DrainOne => TakeKeeps(s);
    case DrainEnd => DrainEndKeeps(s);
    case FinalFlush => FinalFlushKeeps(s);
    case _ =>
  }

  lemma {:induction false} RunKeeps<E>(s: State<E>, steps: seq<Step<E>>)
    requires Inv(s) && IsRun(s, steps)
    ensures Inv(After(s, steps))
    decreases |steps|
  {
    if steps != [] {
      StepKeeps(s, steps[0]);
      RunKeeps(Do(s, steps[0]), steps[1..]);
    }
  }

  /** In every reachable state nothing is lost, duplicated or reordered, and the counters are
      exact; every batch handed to the sink is non-empty, and all but the one after the drain
      are within the limit. */
  lemma {:induction false} Conservation<E>(capacity: nat, batchSize: int, steps: seq<Step<E>>)
    requires IsRun(Start(capacity, batchSize), steps)
    ensures var s := After(Start(capacity, batchSize), steps);
            && Flat(s.sunk) + s.batch + s.ch == s.accepted
            && s.flushed == |Flat(s.sunk)|
            && s.dropped == s.attempts - |s.accepted|
            && (forall i :: 0 <= i < |s.sunk| ==> s.sunk[i] != [])
            && (!s.phase.Done? ==> SmallBatches(s.sunk, batchSize))
            && (s.phase.Done? && s.sunk != [] ==> SmallBatches(s.sunk[..|s.sunk| - 1], batchSize))
  {
    RunKeeps(Start(capacity, batchSize), steps);
    ParametersStay(Start(capacity, batchSize), steps);
  }

  lemma {:induction false} ParametersStay<E>(s: State<E>, steps: seq<Step<E>>)
    requires IsRun(s, steps)
    ensures After(s, steps).batchSize == s.batchSize && After(s, steps).capacity == s.capacity
    decreases |steps|
  {
    if steps != [] { ParametersStay(Do(s, steps[0]), steps[1..]); }
  }

  /** When `done` closes, the sink holds exactly what was accepted before the drain saw an empty
      channel; an event is stranded exactly when it was accepted after that. */
  lemma {:induction false} ShutdownComplete<E>(capacity: nat, batchSize: int, steps: seq<Step<E>>)
    requires IsRun(Start(capacity, batchSize), steps)
    requires After(Start(capacity, batchSize), steps).phase.Done?
    ensures var s := After(Start(capacity, batchSize), steps);
            && s.atDrain <= |s.accepted|
            && Flat(s.sunk) == s.accepted[..s.atDrain]
            && s.ch == s.accepted[s.atDrain..]
            && (Flat(s.sunk) == s.accepted <==> s.atDrain == |s.accepted|)
  {
    RunKeeps(Start(capacity, batchSize), steps);
    var s := After(Start(capacity, batchSize), steps);
    assert Flat(s.sunk) + [] == Flat(s.sunk);
    if s.atDrain == |s.accepted| {
      assert s.accepted[..s.atDrain] == s.accepted;
    }
  }

  // ---- The buffer object ----

  lemma {:induction false} RunSnoc<E>(s: State<E>, steps: seq<Step<E>>, step: Step<E>)
    requires IsRun(s, steps) && Enabled(After(s, steps), step)
    ensures IsRun(s, steps + [step]) && After(s, steps + [step]) == Do(After(s, steps), step)
    decreases |steps|
  {
    if steps == [] {
      assert [] + [step] == [step] && [step][1..] == [];
      assert IsRun(Do(s, step), []);
    } else {
      assert (steps + [step])[0] == steps[0] && (steps + [step])[1..] == steps[1..] + [step];
      RunSnoc(Do(s, steps[0]), steps[1..], step);
    }
  }

  class Buffer<E> {
    const capacity: nat
    const batchSize: int
    var ch: seq<E>
    var batch: seq<E>
    var sunk: seq<seq<E>>
    var flushed: nat
    var dropped: nat
    var stopping: bool
    ghost var phase: Phase
    ghost var accepted: seq<E>
    ghost var attempts: nat
    ghost var atDrain: nat
    ghost var trace: seq<Step<E>>

    ghost function Abs(): State<E>
      reads this
    {
      State(capacity, batchSize, ch, batch, sunk, flushed, dropped, phase, stopping, accepted, attempts, atDrain)
    }

    /** The object is where the recorded run of the protocol leads. */
    ghost predicate Valid()
      reads this
    {
      IsRun(Start(capacity, batchSize), trace) && Abs() == After(Start(capacity, batchSize), trace)
    }

    constructor (capacity: nat, batchSize: int)
      ensures Valid() && trace == [] && Abs() == Start(capacity, batchSize)
    {
      this.capacity, this.batchSize := capacity, batchSize;
      ch, batch, sunk, flushed, dropped, stopping := [], [], [], 0, 0, false;
      phase, accepted, attempts, atDrain, trace := Running, [], 0, 0, [];
    }

    /** Bookkeeping for the step that comes next. */
    ghost method Log(step: Step<E>)
      requires Valid() && Enabled(Abs(), step)
      modifies this`trace
      ensures trace == old(trace) + [step]
      ensures IsRun(Start(capacity, batchSize), trace)
      ensures After(Start(capacity, batchSize), trace) == Do(old(Abs()), step)
    {
      RunSnoc(Start(capacity, batchSize), trace, step);
      trace := trace + [step];
    }

    method TrySend(e: E) returns (ok: bool)
      requires Valid()
      modifies this`ch, this`accepted, this`attempts, this`dropped, this`trace
      ensures Valid() && trace == old(trace) + [Send(e)]
      ensures Abs() == Do(old(Abs()), Send(e))
      ensures ok <==> |old(ch)| < capacity
    {
      Log(Send(e));
      attempts := attempts + 1;
      if |ch| < capacity {
        ch := ch + [e];
        accepted := accepted + [e];
        return true;
      }
      dropped := dropped + 1;
      return false;
    }

    /** The flush closure. */
    method FlushBatch()
      modifies this`batch, this`sunk, this`flushed
      ensures Abs() == Flush(old(Abs()))
    {
      if |batch| == 0 {
        return;
      }
      sunk := sunk + [batch];
      flushed := flushed + |batch|;
      batch := [];
    }

    method OnEvent()
      requires Valid() && phase.Running? && ch != []
      modifies this`ch, this`batch, this`sunk, this`flushed, this`trace
      ensures Valid() && trace == old(trace) + [Receive]
      ensures Abs() == Do(old(Abs()), Receive)
    {
      Log(Receive);
      batch := batch + [ch[0]];
      ch := ch[1..];
      if |batch| >= batchSize {
        FlushBatch();
      }
    }

    method OnTick()
      requires Valid() && phase.Running?
      modifies this`batch, this`sunk, this`flushed, this`trace
      ensures Valid() && trace == old(trace) + [Tick]
      ensures Abs() == Do(old(Abs()), Tick)
    {
      Log(Tick);
      FlushBatch();
    }

    /** The part of Stop before it waits. */
    method CloseQuit()
      requires Valid() && !stopping
      modifies this`stopping, this`trace
      ensures Valid() && trace == old(trace) + [Step.Stop]
      ensures Abs() == Do(old(Abs()), Step.Stop)
    {
      Log(Step.Stop);
      stopping := true;
    }

    /** Senders at work. */
    method SendAll(events: seq<E>)
      requires Valid()
      modifies this`ch, this`accepted, this`attempts, this`dropped, this`trace
      ensures Valid() && old(trace) <= trace && old(accepted) <= accepted
      ensures events == [] ==> accepted == old(accepted)
    {
      for i := 0 to |events|
        invariant Valid() && old(trace) <= trace && old(accepted) <= accepted
        invariant i == 0 ==> accepted == old(accepted)
      {
        var ok := TrySend(events[i]);
      }
    }

    method DrainHead()
      requires Valid() && phase.Draining? && ch != []
      modifies this`ch, this`batch, this`trace
      ensures Valid() && trace == old(trace) + [DrainOne] && |ch| < |old(ch)|
    {
      Log(DrainOne);
      batch := batch + [ch[0]];
      ch := ch[1..];
    }

    /** The drain loop; `arrivals` are submitted before its successive looks at the channel. */
    method Drain(arrivals: seq<seq<E>>)
      requires Valid() && phase.Draining?
      modifies this`ch, this`batch, this`accepted, this`attempts, this`dropped, this`trace
      ensures Valid() && old(trace) <= trace && old(accepted) <= accepted && ch == []
    {
      var rest := arrivals;
      while true
        invariant Valid() && old(trace) <= trace && old(accepted) <= accepted
        decreases |rest|, |ch|
      {
        if rest != [] {
          SendAll(rest[0]);
          rest := rest[1..];
        }
        if |ch| == 0 {
          break;
        }
        DrainHead();
      }
    }

    method EndDrain()
      requires Valid() && phase.Draining? && ch == []
      modifies this`phase, this`atDrain, this`trace
      ensures Valid() && phase.Drained? && trace == old(trace) + [DrainEnd] && atDrain == |accepted|
    {
      Log(DrainEnd);
      phase, atDrain := Drained, |accepted|;
    }

    method LastFlush()
      requires Valid() && phase.Drained?
      modifies this`batch, this`sunk, this`flushed, this`phase, this`trace
      ensures Valid() && phase.Done? && trace == old(trace) + [FinalFlush]
    {
      Log(FinalFlush);
      FlushBatch();
      phase := Done;
    }

    /** The quit branch, whatever is submitted during the drain and after it: the sink has
        exactly what was accepted before the channel was seen empty, and the rest is stranded. */
    method OnQuit(arrivals: seq<seq<E>>, late: seq<E>)
      requires Valid() && phase.Running? && stopping
      modifies this
      ensures Valid() && phase.Done? && old(trace) <= trace && old(accepted) <= accepted
      ensures |old(accepted)| <= atDrain <= |accepted|
      ensures Flat(sunk) == accepted[..atDrain] && ch == accepted[atDrain..]
      ensures late == [] ==> Flat(sunk) == accepted
    {
      EnterDrain();
      Drain(arrivals);
      EndDrain();
      SendAll(late);
      LastFlush();
      ShutdownComplete(capacity, batchSize, trace);
    }

    method EnterDrain()
      requires Valid() && phase.Running? && stopping
      modifies this`phase, this`trace
      ensures Valid() && phase.Draining? && trace == old(trace) + [SeeQuit]
    {
      Log(SeeQuit);
      phase := Draining;
    }
  }
}
