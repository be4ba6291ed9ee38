/** The agent's socket server: a bounded pool of connection handlers and its counters. */
module WorkerServer {
  import opened Bytes

  // ---- What can come of one connection ----

  datatype Outcome = Blocked | Permitted | Error | FailOpen

  /** Everything a handler learns from outside: the read, the parse, the pipeline's verdict and
      its duration, the encoding of the response, the write. */
  datatype Exchange = Exchange(
    readOk: bool, bytesRead: nat, parseOk: bool, elapsed: int, marshalOk: bool, writeOk: bool, action: string)

  function OutcomeOf(x: Exchange, timeout: int): Outcome {
    if !x.readOk || x.bytesRead == 0 then Error
    else if !x.parseOk then Error
    else if x.elapsed > timeout then FailOpen
    else if !x.marshalOk then Error
    else if !x.writeOk then Error
    else if x.action == "BLOCK" then Blocked
    else Permitted
  }

  /** The request was read and understood. */
  predicate Understood(x: Exchange) {
    x.readOk && x.bytesRead > 0 && x.parseOk
  }

  /** The pipeline's answer came in time and reached the client. */
  predicate Answered(x: Exchange, timeout: int) {
    Understood(x) && x.elapsed <= timeout && x.marshalOk && x.writeOk
  }

  lemma {:induction false} OutcomeIff(x: Exchange, timeout: int)
    ensures OutcomeOf(x, timeout) == Blocked <==> Answered(x, timeout) && x.action == "BLOCK"
    ensures OutcomeOf(x, timeout) == Permitted <==> Answered(x, timeout) && x.action != "BLOCK"
    ensures OutcomeOf(x, timeout) == FailOpen <==> Understood(x) && x.elapsed > timeout
  {
  }

  datatype Counters = Counters(total: nat, blocked: nat, permitted: nat, errors: nat, failOpen: nat)

  function Recorded(c: Counters): nat {
    c.blocked + c.permitted + c.errors + c.failOpen
  }

  function Count(c: Counters, o: Outcome): Counters {
    match o
    case Blocked => c.(blocked := c.blocked + 1)
    case Permitted => c.(permitted := c.permitted + 1)
    case Error => c.(errors := c.errors + 1)
    case FailOpen => c.(failOpen := c.failOpen + 1)
  }

  // ---- The protocol ----

  /** The accept loop: accepting, holding a connection while it waits for a worker slot, waiting
      for the handlers after quit, or returned. */
  datatype Loop = Accepting | Holding(conn: int) | Waiting | Returned

  /** Connections are numbered in the order they are accepted. `active` hold a worker slot,
      `begun` of them are between the total counter and their outcome. `exchanges` and
      `outcomes` are bookkeeping: what happened on each connection and what it was recorded as. */
  datatype State = State(
    maxWorkers: nat, timeout: int, loop: Loop, quit: bool, next: nat,
    active: set<int>, begun: set<int>, counters: Counters,
    exchanges: map<int, Exchange>, outcomes: map<int, Outcome>)

  datatype Step =
    | Accept
    | AcceptFails
    | Acquire
    | Begin(c: int)
    | Record(c: int, x: Exchange)
    | Release(c: int)
    | Stop
    | Return

  predicate Enabled(s: State, step: Step) {
    match step
    case Accept => s.loop.Accepting?
    case AcceptFails => s.loop.Accepting?
    case Acquire => s.loop.Holding? && |s.active| < s.maxWorkers
    case Begin(c) => c in s.active && c !in s.begun && c !in s.outcomes
    case Record(c, _) => c in s.begun
    case Release(c) => c in s.active && c in s.outcomes
    case Stop => !s.quit
    case Return => s.loop.Waiting? && s.active == {}
  }

  function Do(s: State, step: Step): State
    requires Enabled(s, step)
  {
    match step
    case Accept => s.(loop := Holding(s.next), next := s.next + 1)
    case AcceptFails => if s.quit then s.(loop := Waiting) else s
    case Acquire => s.(loop := Accepting, active := s.active + {s.loop.conn})
    case Begin(c) => s.(begun := s.begun + {c}, counters := s.counters.(total := s.counters.total + 1))
    case Record(c, x) =>
      var o := OutcomeOf(x, s.timeout);
      s.(begun := s.begun - {c}, counters := Count(s.counters, o),
         exchanges := s.exchanges[c := x], outcomes := s.outcomes[c := o])
    case Release(c) => s.(active := s.active - {c})
    case Stop => s.(quit := true)
    case Return => s.(loop := Returned)
  }

  function Started(maxWorkers: nat, timeout: int): State {
    State(maxWorkers, timeout, Accepting, false, 0, {}, {}, Counters(0, 0, 0, 0, 0), map[], map[])
  }

  ghost predicate IsRun(s: State, steps: seq<Step>)
    decreases |steps|
  {
    steps != [] ==> Enabled(s, steps[0]) && IsRun(Do(s, steps[0]), steps[1..])
  }

  ghost function After(s: State, steps: seq<Step>): State
    requires IsRun(s, steps)
    decreases |steps|
  {
    if steps == [] then s else After(Do(s, steps[0]), steps[1..])
  }

  // ---- Accounting ----

  ghost function Having(outcomes: map<int, Outcome>, o: Outcome): set<int> {
    set c | c in outcomes && outcomes[c] == o
  }

  /** The connections accepted first, n of them. */
  ghost function Upto(n: nat): (cs: set<int>)
    ensures forall c :: c in cs <==> 0 <= c < n
    ensures |cs| == n
  {
    if n == 0 then {} else Upto(n - 1) + {n - 1}
  }

  /** The counters are the sizes of the outcome classes; the total also counts the handlers in
      flight. */
  ghost predicate Tally(k: Counters, inFlight: nat, outcomes: map<int, Outcome>) {
    && k.total == inFlight + Recorded(k)
    && k.blocked == |Having(outcomes, Blocked)|
    && k.permitted == |Having(outcomes, Permitted)|
    && k.errors == |Having(outcomes, Error)|
    && k.failOpen == |Having(outcomes, FailOpen)|
    && Recorded(k) == |outcomes.Keys|
  }

  ghost predicate Accounted(s: State) {
    Tally(s.counters, |s.begun|, s.outcomes)
  }

  /** Where connection c is: a handler that has not begun, one in flight, one with an outcome, or
      none at all, because c is not accepted yet or waits for a slot. */
  ghost predicate PlacedAt(s: State, c: int) {
    && (c in s.begun ==> c in s.active && c !in s.outcomes)
    && (c in s.active || c in s.outcomes <==> 0 <= c < s.next && s.loop != Holding(c))
  }

  ghost predicate Placed(s: State) {
    && |s.active| <= s.maxWorkers
    && (forall c {:trigger PlacedAt(s, c)} :: PlacedAt(s, c))
    && (s.loop.Holding? ==> 0 <= s.loop.conn < s.next)
    && (s.loop.Returned? ==> s.active == {})
  }

  lemma HavingRecord(outcomes: map<int, Outcome>, c: int, o: Outcome, p: Outcome)
    requires c !in outcomes
    ensures |Having(outcomes[c := o], p)| == |Having(outcomes, p)| + (if o == p then 1 else 0)
  {
    var before, after := Having(outcomes, p), Having(outcomes[c := o], p);
    assert forall x :: x in after <==> x in before || (x == c && o == p);
    if o == p {
      AddOne(before, c);
      assert after == before + {c};
    } else {
      assert after == before;
    }
  }

  lemma KeysRecord(outcomes: map<int, Outcome>, c: int, o: Outcome)
    requires c !in outcomes
    ensures outcomes[c := o].Keys == outcomes.Keys + {c}
    ensures |outcomes[c := o].Keys| == |outcomes.Keys| + 1
  {
    assert outcomes[c := o].Keys == outcomes.Keys + {c};
  }

  lemma RemoveOne(cs: set<int>, c: int)
    requires c in cs
    ensures |cs - {c}| == |cs| - 1
  {
  }

  lemma AddOne(cs: set<int>, c: int)
    requires c !in cs
    ensures |cs + {c}| == |cs| + 1
  {
  }

  lemma RecordTally(k: Counters, inFlight: nat, outcomes: map<int, Outcome>, c: int, o: Outcome)
    requires Tally(k, inFlight, outcomes) && inFlight > 0 && c !in outcomes
    ensures Tally(Count(k, o), inFlight - 1, outcomes[c := o])
  {
    HavingRecord(outcomes, c, o, Blocked);
    HavingRecord(outcomes, c, o, Permitted);
    HavingRecord(outcomes, c, o, Error);
    HavingRecord(outcomes, c, o, FailOpen);
    KeysRecord(outcomes, c, o);
  }

  lemma BeginTally(k: Counters, inFlight: nat, outcomes: map<int, Outcome>)
    requires Tally(k, inFlight, outcomes)
    ensures Tally(k.(total := k.total + 1), inFlight + 1, outcomes)
  {
  }

  lemma {:induction false} StepAccounts(s: State, step: Step)
    requires Placed(s) && Enabled(s, step)
    ensures Accounted(s) ==> Accounted(Do(s, step))
  {
    if !Accounted(s) { return; }
    match step
    case Record(c, x) =>
      assert PlacedAt(s, c);
      RemoveOne(s.begun, c);
      RecordTally(s.counters, |s.begun|, s.outcomes, c, OutcomeOf(x, s.timeout));
    case Begin(c) =>
      AddOne(s.begun, c);
      BeginTally(s.counters, |s.begun|, s.outcomes);
    case _ =>
  }

  /** A step moves a connection only between places that account for it. */
  lemma StepPlacesAt(s: State, step: Step, c: int)
    requires Placed(s) && Enabled(s, step)
    ensures PlacedAt(Do(s, step), c)
  {
    assert PlacedAt(s, c);
  }

  lemma StepPlaces(s: State, step: Step)
    requires Placed(s) && Enabled(s, step)
    ensures Placed(Do(s, step))
  {
    forall c ensures PlacedAt(Do(s, step), c) {
      StepPlacesAt(s, step, c);
    }
    match step
    case Acquire =>
      assert PlacedAt(s, s.loop.conn);
      AddOne(s.active, s.loop.conn);
    case Release(c) => RemoveOne(s.active, c);
    case _ =>
  }

  lemma {:induction false} RunKeeps(s: State, steps: seq<Step>)
    requires Accounted(s) && Placed(s) && IsRun(s, steps)
    ensures Accounted(After(s, steps)) && Placed(After(s, steps))
    decreases |steps|
  {
    if steps != [] {
      StepAccounts(s, steps[0]);
      StepPlaces(s, steps[0]);
      RunKeeps(Do(s, steps[0]), steps[1..]);
    }
  }

  lemma {:induction false} LimitStays(s: State, steps: seq<Step>)
    requires IsRun(s, steps)
    ensures After(s, steps).maxWorkers == s.maxWorkers && After(s, steps).timeout == s.timeout
    decreases |steps|
  {
    if steps != [] { LimitStays(Do(s, steps[0]), steps[1..]); }
  }

  /** Every recorded outcome is the one its exchange determines. */
  ghost predicate Truthful(s: State) {
    && s.exchanges.Keys == s.outcomes.Keys
    && forall c :: c in s.exchanges && c in s.outcomes ==> s.outcomes[c] == OutcomeOf(s.exchanges[c], s.timeout)
  }

  lemma {:induction false} TruthfulRun(s: State, steps: seq<Step>)
    requires Truthful(s) && IsRun(s, steps)
    ensures Truthful(After(s, steps))
    decreases |steps|
  {
    if steps != [] { TruthfulRun(Do(s, steps[0]), steps[1..]); }
  }

  /** In every reachable state the total is the recorded outcomes plus the handlers in flight,
      and no more than maxWorkers handlers run. */
  lemma {:induction false} Accounting(maxWorkers: nat, timeout: int, steps: seq<Step>)
    requires IsRun(Started(maxWorkers, timeout), steps)
    ensures var s := After(Started(maxWorkers, timeout), steps);
            && s.counters.total == Recorded(s.counters) + |s.begun|
            && s.begun <= s.active && |s.active| <= maxWorkers
  {
    StartOk(maxWorkers, timeout);
    RunKeeps(Started(maxWorkers, timeout), steps);
    LimitStays(Started(maxWorkers, timeout), steps);
    var s := After(Started(maxWorkers, timeout), steps);
    forall c | c in s.begun ensures c in s.active { assert PlacedAt(s, c); }
  }

  lemma StartOk(maxWorkers: nat, timeout: int)
    ensures Accounted(Started(maxWorkers, timeout)) && Placed(Started(maxWorkers, timeout))
  {
    var s := Started(maxWorkers, timeout);
    NothingTallied(s.counters, s.outcomes);
    EmptySize(s.active);
    EmptySize(s.begun);
  }

  lemma NothingTallied(k: Counters, outcomes: map<int, Outcome>)
    requires k == Counters(0, 0, 0, 0, 0) && outcomes.Keys == {}
    ensures Tally(k, 0, outcomes)
  {
    HavingNothing(outcomes, Blocked);
    HavingNothing(outcomes, Permitted);
    HavingNothing(outcomes, Error);
    HavingNothing(outcomes, FailOpen);
    EmptySize(outcomes.Keys);
  }

  lemma EmptySize(cs: set<int>)
    requires cs == {}
    ensures |cs| == 0
  {
  }

  lemma HavingNothing(outcomes: map<int, Outcome>, o: Outcome)
    requires outcomes.Keys == {}
    ensures |Having(outcomes, o)| == 0
  {
    assert forall c :: c !in Having(outcomes, o);
    EmptySize(Having(outcomes, o));
  }

  /** When the accept loop has returned, every accepted connection has exactly one recorded
      outcome, the one its exchange determines, and each counter is the size of its class. */
  lemma {:induction false} GracefulReturn(maxWorkers: nat, timeout: int, steps: seq<Step>)
    requires IsRun(Started(maxWorkers, timeout), steps)
    requires After(Started(maxWorkers, timeout), steps).loop.Returned?
    ensures var s := After(Started(maxWorkers, timeout), steps);
            && s.exchanges.Keys == s.outcomes.Keys == Upto(s.next)
            && (forall c :: 0 <= c < s.next ==> s.outcomes[c] == OutcomeOf(s.exchanges[c], timeout))
            && s.counters.total == s.next == Recorded(s.counters)
            && s.counters.blocked == |Having(s.outcomes, Blocked)|
            && s.counters.permitted == |Having(s.outcomes, Permitted)|
            && s.counters.errors == |Having(s.outcomes, Error)|
            && s.counters.failOpen == |Having(s.outcomes, FailOpen)|
  {
    StartOk(maxWorkers, timeout);
    RunKeeps(Started(maxWorkers, timeout), steps);
    TruthfulRun(Started(maxWorkers, timeout), steps);
    LimitStays(Started(maxWorkers, timeout), steps);
    var s := After(Started(maxWorkers, timeout), steps);
    forall c ensures c !in s.begun && (c in s.outcomes.Keys <==> c in Upto(s.next)) {
      assert PlacedAt(s, c);
    }
    assert s.outcomes.Keys == Upto(s.next);
    EmptySize(s.begun);
  }

  // ---- The server object ----

  lemma {:induction false} RunSnoc(s: State, steps: seq<Step>, step: Step)
    requires IsRun(s, steps) && Enabled(After(s, steps), step)
    ensures IsRun(s, steps + [step]) && After(s, steps + [step]) == Do(After(s, steps), step)
    decreases |steps|
  {
    if steps == [] {
      assert [] + [step] == [step] && [step][1..] == [];
      assert IsRun(Do(s, step), []);
    } else {
      assert (steps + [step])[0] == steps[0] && (steps + [step])[1..] == steps[1..] + [step];
      RunSnoc(Do(s, steps[0]), steps[1..], step);
    }
  }

  class Server {
    const maxWorkers: nat
    const timeout: int
    var counters: Counters
    var quit: bool
    var next: nat
    ghost var loop: Loop
    ghost var active: set<int>
    ghost var begun: set<int>
    ghost var exchanges: map<int, Exchange>
    ghost var outcomes: map<int, Outcome>
    ghost var trace: seq<Step>

    ghost function Abs(): State
      reads this
    {
      State(maxWorkers, timeout, loop, quit, next, active, begun, counters, exchanges, outcomes)
    }

    /** The object is where the recorded run of the protocol leads. */
    ghost predicate Valid()
      reads this
    {
      IsRun(Started(maxWorkers, timeout), trace) && Abs() == After(Started(maxWorkers, timeout), trace)
    }

    constructor (maxWorkers: nat, timeout: int)
      ensures Valid() && trace == [] && Abs() == Started(maxWorkers, timeout)
    {
      this.maxWorkers, this.timeout := maxWorkers, timeout;
      counters, quit, next := Counters(0, 0, 0, 0, 0), false, 0;
      loop, active, begun, exchanges, outcomes, trace := Accepting, {}, {}, map[], map[], [];
    }

    /** Bookkeeping for the step that comes next. */
    ghost method Log(step: Step)
      requires Valid() && Enabled(Abs(), step)
      modifies this`trace
      ensures trace == old(trace) + [step]
      ensures IsRun(Started(maxWorkers, timeout), trace)
      ensures After(Started(maxWorkers, timeout), trace) == Do(old(Abs()), step)
    {
      RunSnoc(Started(maxWorkers, timeout), trace, step);
      trace := trace + [step];
    }

    /** One turn of the accept loop, up to where it waits for a slot. */
    method AcceptConn() returns (c: int)
      requires Valid() && loop.Accepting?
      modifies this`next, this`loop, this`trace
      ensures Valid() && trace == old(trace) + [Accept] && loop == Holding(c) && c == old(next)
    {
      Log(Accept);
      c := next;
      next, loop := next + 1, Holding(c);
    }

    /** The slot is there: the handler of the connection may start. */
    method TakeSlot()
      requires Valid() && loop.Holding? && |active| < maxWorkers
      modifies this`loop, this`active, this`trace
      ensures Valid() && trace == old(trace) + [Acquire] && loop.Accepting? && old(loop).conn in active
    {
      Log(Acquire);
      active, loop := active + {loop.conn}, Accepting;
    }

    /** handleConn: one connection raises the total and exactly one outcome counter, the one its
        exchange determines. Other handlers may be in flight, and may run between its parts. */
    method HandleConn(c: int, x: Exchange)
      requires Valid() && c in active && c !in begun && c !in outcomes
      modifies this`counters, this`begun, this`exchanges, this`outcomes, this`trace
      ensures Valid() && trace == old(trace) + [Begin(c), Record(c, x)]
      ensures counters == Count(old(counters).(total := old(counters).total + 1), OutcomeOf(x, timeout))
    {
      CountConn(c);
      Settle(c, x);
      assert old(trace) + [Begin(c)] + [Record(c, x)] == old(trace) + [Begin(c), Record(c, x)];
    }

    method CountConn(c: int)
      requires Valid() && c in active && c !in begun && c !in outcomes
      modifies this`counters, this`begun, this`trace
      ensures Valid() && trace == old(trace) + [Begin(c)] && c in begun
      ensures counters == old(counters).(total := old(counters).total + 1)
    {
      Log(Begin(c));
      counters := counters.(total := counters.total + 1);
      begun := begun + {c};
    }

    /** The rest of handleConn, with its seven ways out. */
    method Settle(c: int, x: Exchange)
      requires Valid() && c in begun
      modifies this`counters, this`begun, this`exchanges, this`outcomes, this`trace
      ensures Valid() && trace == old(trace) + [Record(c, x)]
      ensures counters == Count(old(counters), OutcomeOf(x, timeout))
    {
      Log(Record(c, x));
      begun, exchanges := begun - {c}, exchanges[c := x];
      outcomes := outcomes[c := OutcomeOf(x, timeout)];
      Conclude(x);
    }

    method Conclude(x: Exchange)
      modifies this`counters
      ensures counters == Count(old(counters), OutcomeOf(x, timeout))
    {
      if !x.readOk || x.bytesRead == 0 {
        counters := counters.(errors := counters.errors + 1);
        return;
      }
      if !x.parseOk {
        counters := counters.(errors := counters.errors + 1);
        return;
      }
      if x.elapsed > timeout {
        counters := counters.(failOpen := counters.failOpen + 1);
        return;
      }
      if !x.marshalOk {
        counters := counters.(errors := counters.errors + 1);
        return;
      }
      if !x.writeOk {
        counters := counters.(errors := counters.errors + 1);
        return;
      }
      if x.action == "BLOCK" {
        counters := counters.(blocked := counters.blocked + 1);
      } else {
        counters := counters.(permitted := counters.permitted + 1);
      }
    }

    /** The handler's deferred function gives its slot back. */
    ghost method GiveSlotBack(c: int)
      requires Valid() && c in active && c in outcomes
      modifies this`active, this`trace
      ensures Valid() && trace == old(trace) + [Release(c)] && c !in active
    {
      Log(Release(c));
      active := active - {c};
    }

    /** Stop, up to where it waits for the handlers. */
    method SignalStop()
      requires Valid() && !quit
      modifies this`quit, this`trace
      ensures Valid() && trace == old(trace) + [Step.Stop] && quit
    {
      Log(Step.Stop);
      quit := true;
    }

    /** Accept fails after Stop and the last handler is done: Start returns, and every connection
        accepted so far is accounted for. */
    ghost method ReturnFromStart()
      requires Valid() && quit && loop.Accepting? && active == {}
      modifies this`loop, this`trace
      ensures Valid() && trace == old(trace) + [AcceptFails, Return]
      ensures exchanges.Keys == outcomes.Keys == Upto(next)
      ensures forall c :: 0 <= c < next ==> outcomes[c] == OutcomeOf(exchanges[c], timeout)
      ensures counters.total == next == Recorded(counters)
    {
      Log(AcceptFails);
      loop := Waiting;
      Log(Return);
      loop := Returned;
      assert trace == old(trace) + [AcceptFails, Return];
      GracefulReturn(maxWorkers, timeout, trace);
    }
  }

  predicate IsNewline(b: byte) {
    b == 10 || b == 13
  }

  /** trimNewline: the longest prefix that does not end in a newline character. */
  method TrimNewline(b: bytes) returns (t: bytes)
    ensures t <= b
    ensures t == [] || !IsNewline(t[|t| - 1])
    ensures forall i :: |t| <= i < |b| ==> IsNewline(b[i])
  {
    t := b;
    while |t| > 0 && IsNewline(t[|t| - 1])
      invariant t <= b
      invariant forall i :: |t| <= i < |b| ==> IsNewline(b[i])
    {
      t := t[..|t| - 1];
    }
  }
}
