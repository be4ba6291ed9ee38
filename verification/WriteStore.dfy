/** The agent's store: a bounded write queue, one writer that applies it in batches, and the
    expiring IP verdicts. */
module WriteStore {
  import opened Bytes
  import opened Verdicts

  // ---- Tables and write operations ----

  datatype Signature = Signature(cveId: string, pattern: string, severity: string)

  datatype Tables = Tables(
    ips: map<string, IpRow>, files: map<string, FileRow>, signatures: map<int, Signature>, config: map<string, string>)

  datatype Op =
    | SetIp(ip: string, ipRow: IpRow)
    | CleanExpired
    | StoreFile(sha: string, fileRow: FileRow)
    | UpsertSignature(id: int, sig: Signature)
    | SetConfig(key: string, value: string)

  function Expire(ips: map<string, IpRow>, now: int): map<string, IpRow> {
    map ip | ip in ips && ips[ip].expires > now :: ips[ip]
  }

  /** One statement, executed at database time `now`. */
  function Apply(t: Tables, op: Op, now: int): Tables {
    match op
    case SetIp(ip, row) => t.(ips := t.ips[ip := row])
    case CleanExpired => t.(ips := Expire(t.ips, now))
    case StoreFile(sha, row) => t.(files := t.files[sha := row])
    case UpsertSignature(id, sig) => t.(signatures := t.signatures[id := sig])
    case SetConfig(key, value) => t.(config := t.config[key := value])
  }

  /** A clean-up removes exactly the expired rows. */
  lemma {:induction false} CleanUpIs(t: Tables, now: int)
    ensures var u := Apply(t, CleanExpired, now);
            && (forall ip :: ip in u.ips <==> ip in t.ips && t.ips[ip].expires > now)
            && (forall ip :: ip in u.ips ==> u.ips[ip] == t.ips[ip])
            && u == t.(ips := u.ips)
  {
  }

  function ApplyAll(t: Tables, ops: seq<Op>, now: int): Tables {
    if ops == [] then t else Apply(ApplyAll(t, ops[..|ops| - 1], now), ops[|ops| - 1], now)
  }

  const EMPTY: Tables := Tables(map[], map[], map[], map[])

  // ---- What the tables must answer, read off the operations ----

  /** The row of the last SetIp for this address. */
  function LastSetIp(ops: seq<Op>, ip: string): Option<IpRow> {
    if ops == [] then None
    else
      var last := ops[|ops| - 1];
      if last.SetIp? && last.ip == ip then Some(last.ipRow) else LastSetIp(ops[..|ops| - 1], ip)
  }

  function LastStoreFile(ops: seq<Op>, sha: string): Option<FileRow> {
    if ops == [] then None
    else
      var last := ops[|ops| - 1];
      if last.StoreFile? && last.sha == sha then Some(last.fileRow) else LastStoreFile(ops[..|ops| - 1], sha)
  }

  function LastSignature(ops: seq<Op>, id: int): Option<Signature> {
    if ops == [] then None
    else
      var last := ops[|ops| - 1];
      if last.UpsertSignature? && last.id == id then Some(last.sig) else LastSignature(ops[..|ops| - 1], id)
  }

  function LastConfig(ops: seq<Op>, key: string): Option<string> {
    if ops == [] then None
    else
      var last := ops[|ops| - 1];
      if last.SetConfig? && last.key == key then Some(last.value) else LastConfig(ops[..|ops| - 1], key)
  }

  function Lookup<K, V>(m: map<K, V>, k: K): Option<V> {
    if k in m then Some(m[k]) else None
  }

  function OrElse<T>(first: Option<T>, second: Option<T>): Option<T> {
    if first.Some? then first else second
  }

  /** A row that has not expired by `now`. */
  function Unexpired(row: Option<IpRow>, now: int): Option<IpRow> {
    if row.Some? && row.value.expires > now then row else None
  }

  /** Asked at `now`, t answers what the last operation on the key says, and what `before` says
      where there was none. */
  ghost predicate Updates(before: Tables, t: Tables, ops: seq<Op>, now: int) {
    && (forall ip :: LiveRow(t.ips, ip, now) == Unexpired(OrElse(LastSetIp(ops, ip), Lookup(before.ips, ip)), now))
    && (forall sha :: Lookup(t.files, sha) == OrElse(LastStoreFile(ops, sha), Lookup(before.files, sha)))
    && (forall id :: Lookup(t.signatures, id) == OrElse(LastSignature(ops, id), Lookup(before.signatures, id)))
    && (forall key :: Lookup(t.config, key) == OrElse(LastConfig(ops, key), Lookup(before.config, key)))
  }

  lemma {:induction false} ApplyUpdates(before: Tables, t: Tables, ops: seq<Op>, op: Op, at: int, now: int)
    requires Updates(before, t, ops, now) && (op.CleanExpired? ==> at <= now)
    ensures Updates(before, Apply(t, op, at), ops + [op], now)
  {
    assert (ops + [op])[..|ops|] == ops;
  }

  /** A batch committed at `at` has this effect on every question asked from then on. */
  lemma {:induction false} BatchUpdates(t: Tables, ops: seq<Op>, at: int, now: int)
    requires at <= now || forall op :: op in ops ==> !op.CleanExpired?
    ensures Updates(t, ApplyAll(t, ops, at), ops, now)
  {
    if ops != [] {
      var init, op := ops[..|ops| - 1], ops[|ops| - 1];
      assert ops == init + [op];
      BatchUpdates(t, init, at, now);
      ApplyUpdates(t, ApplyAll(t, init, at), init, op, at, now);
    }
  }

  /** The tables answer, at `now`, exactly for the operations given. */
  ghost predicate Answers(t: Tables, ops: seq<Op>, now: int) {
    && (forall ip :: LiveRow(t.ips, ip, now) == Unexpired(LastSetIp(ops, ip), now))
    && (forall sha :: Lookup(t.files, sha) == LastStoreFile(ops, sha))
    && (forall id :: Lookup(t.signatures, id) == LastSignature(ops, id))
    && (forall key :: Lookup(t.config, key) == LastConfig(ops, key))
  }

  // ---- The reference: operations applied one by one, and never any clean-up ----

  function WithoutClean(ops: seq<Op>): seq<Op> {
    if ops == [] then []
    else WithoutClean(ops[..|ops| - 1]) + (if ops[|ops| - 1].CleanExpired? then [] else [ops[|ops| - 1]])
  }

  /** The tables that the accepted operations describe, in acceptance order. */
  function Sequential(ops: seq<Op>): Tables {
    ApplyAll(EMPTY, WithoutClean(ops), 0)
  }

  /** t is u after clean-ups no later than `now`: equal except for expired IP rows. */
  ghost predicate CleanedUp(t: Tables, u: Tables, now: int) {
    && t == u.(ips := t.ips)
    && (forall ip :: ip in t.ips ==> ip in u.ips && t.ips[ip] == u.ips[ip])
    && (forall ip :: ip in u.ips && ip !in t.ips ==> u.ips[ip].expires <= now)
  }

  lemma CleanedUpAnswers(t: Tables, u: Tables, clock: int, ip: string, now: int)
    requires CleanedUp(t, u, clock) && clock <= now
    ensures LiveRow(t.ips, ip, now) == LiveRow(u.ips, ip, now)
  {
  }

  lemma ApplyBoth(t: Tables, u: Tables, clock: int, op: Op, now: int)
    requires CleanedUp(t, u, clock) && clock <= now
    ensures CleanedUp(Apply(t, op, now), if op.CleanExpired? then u else Apply(u, op, 0), now)
  {
  }

  lemma SequentialSnoc(ops: seq<Op>, op: Op)
    ensures Sequential(ops + [op]) == if op.CleanExpired? then Sequential(ops) else Apply(Sequential(ops), op, 0)
  {
    assert (ops + [op])[..|ops|] == ops;
    var w := WithoutClean(ops);
    assert (w + [op])[..|w|] == w && w + [] == w;
  }

  lemma {:induction false} WithoutCleanSame(ops: seq<Op>)
    ensures forall ip :: LastSetIp(WithoutClean(ops), ip) == LastSetIp(ops, ip)
    ensures forall sha :: LastStoreFile(WithoutClean(ops), sha) == LastStoreFile(ops, sha)
    ensures forall id :: LastSignature(WithoutClean(ops), id) == LastSignature(ops, id)
    ensures forall key :: LastConfig(WithoutClean(ops), key) == LastConfig(ops, key)
    ensures forall op :: op in WithoutClean(ops) ==> !op.CleanExpired?
  {
    if ops != [] {
      var init, op := ops[..|ops| - 1], ops[|ops| - 1];
      WithoutCleanSame(init);
      var w := WithoutClean(init);
      assert (w + [op])[..|w|] == w && w + [] == w;
    }
  }

  /** The reference answers for its operations, at any time. */
  lemma {:induction false} SequentialAnswers(ops: seq<Op>, now: int)
    ensures Answers(Sequential(ops), ops, now)
  {
    WithoutCleanSame(ops);
    BatchUpdates(EMPTY, WithoutClean(ops), 0, now);
  }

  /** And so do tables that are the reference after clean-ups. */
  lemma {:induction false} CleanedUpStillAnswers(t: Tables, ops: seq<Op>, clock: int, now: int)
    requires CleanedUp(t, Sequential(ops), clock) && clock <= now
    ensures Answers(t, ops, now)
  {
    SequentialAnswers(ops, now);
    forall ip ensures LiveRow(t.ips, ip, now) == LiveRow(Sequential(ops).ips, ip, now) {
      CleanedUpAnswers(t, Sequential(ops), clock, ip, now);
    }
  }

  /** Applying a batch at one moment is applying its operations to the reference. */
  lemma {:induction false} BatchFits(t: Tables, clock: int, done: seq<Op>, ops: seq<Op>, now: int)
    requires CleanedUp(t, Sequential(done), clock) && clock <= now
    ensures CleanedUp(ApplyAll(t, ops, now), Sequential(done + ops), now)
    decreases |ops|
  {
    if ops == [] {
      assert done + ops == done;
    } else {
      var init, op := ops[..|ops| - 1], ops[|ops| - 1];
      BatchFits(t, clock, done, init, now);
      SequentialSnoc(done + init, op);
      assert done + ops == done + init + [op];
      ApplyBoth(ApplyAll(t, init, now), Sequential(done + init), now, op, now);
    }
  }

  // ---- The writer protocol ----

  const QUEUE: nat := 10000
  const BATCH: nat := 200

  /** Idle in its select, gathering a batch, flushing after quit, or finished. */
  datatype Phase = Idle | Gathering | Flushing | Closed

  /** `accepted` and `atDrain` are bookkeeping: every queued operation, and how many there were
      when the final flush saw an empty queue. */
  datatype State = State(
    queue: seq<Op>, ops: seq<Op>, tables: Tables, phase: Phase, quit: bool, clock: int,
    accepted: seq<Op>, atDrain: nat)

  datatype Step =
    | AsyncWrite(op: Op)
    | TakeFirst
    | TakeNext
    | Commit(now: int)
    | Close
    | SeeQuit
    | FlushOne(now: int)
    | FlushEnd

  predicate Enabled(s: State, step: Step) {
    match step
    case AsyncWrite(_) => true
    case TakeFirst => s.phase.Idle? && s.queue != []
    case TakeNext => s.phase.Gathering? && |s.ops| < BATCH && s.queue != []
    case Commit(now) => s.phase.Gathering? && s.clock <= now
    case Close => !s.quit
    case SeeQuit => s.phase.Idle? && s.quit
    case FlushOne(now) => s.phase.Flushing? && s.queue != [] && s.clock <= now
    case FlushEnd => s.phase.Flushing? && s.queue == []
  }

  /** A commit may come after any number of operations from 1 to BATCH: when the gathering
      stops depends on what the senders do meanwhile. */
  function Do(s: State, step: Step): State
    requires Enabled(s, step)
  {
    match step
    case AsyncWrite(op) =>
      if |s.queue| < QUEUE then s.(queue := s.queue + [op], accepted := s.accepted + [op]) else s
    case TakeFirst => s.(ops := [s.queue[0]], queue := s.queue[1..], phase := Gathering)
    case TakeNext => s.(ops := s.ops + [s.queue[0]], queue := s.queue[1..])
    case Commit(now) => s.(tables := ApplyAll(s.tables, s.ops, now), ops := [], phase := Idle, clock := now)
    case Close => s.(quit := true)
    case SeeQuit => s.(phase := Flushing)
    case FlushOne(now) => s.(tables := Apply(s.tables, s.queue[0], now), queue := s.queue[1..], clock := now)
    case FlushEnd => s.(phase := Closed, atDrain := |s.accepted|)
  }

  function Opened(clock: int): State {
    State([], [], EMPTY, Idle, false, clock, [], 0)
  }

  ghost predicate IsRun(s: State, steps: seq<Step>)
    decreases |steps|
  {
    steps != [] ==> Enabled(s, steps[0]) && IsRun(Do(s, steps[0]), steps[1..])
  }

  ghost function After(s: State, steps: seq<Step>): State
    requires IsRun(s, steps)
    decreases |steps|
  {
    if steps == [] then s else After(Do(s, steps[0]), steps[1..])
  }

  // ---- Refinement ----

  /** How many accepted operations are in the tables. */
  function Applied(s: State): int {
    |s.accepted| - |s.ops| - |s.queue|
  }

  /** The operations not applied yet wait in acceptance order. */
  ghost predicate Waiting(s: State) {
    && 0 <= Applied(s)
    && s.ops + s.queue == s.accepted[Applied(s)..]
    && |s.ops| <= BATCH && |s.queue| <= QUEUE
    && (!s.phase.Gathering? ==> s.ops == [])
    && (s.phase.Closed? ==> s.atDrain == Applied(s))
  }

  ghost predicate Inv(s: State) {
    Waiting(s) && CleanedUp(s.tables, Sequential(s.accepted[..Applied(s)]), s.clock)
  }

  /** Nothing was applied. */
  lemma TablesStay(s: State, t: State)
    requires Inv(s) && Waiting(t) && Applied(t) == Applied(s)
    requires t.tables == s.tables && t.clock == s.clock && s.accepted <= t.accepted
    ensures Inv(t)
  {
    assert t.accepted[..Applied(s)] == s.accepted[..Applied(s)];
  }

  lemma AsyncWriteKeeps(s: State, op: Op)
    requires Inv(s)
    ensures Inv(Do(s, AsyncWrite(op)))
  {
    if |s.queue| < QUEUE {
      assert (s.accepted + [op])[Applied(s)..] == s.accepted[Applied(s)..] + [op];
      Associate(s.ops, s.queue, [op]);
      TablesStay(s, Do(s, AsyncWrite(op)));
    }
  }

  lemma MoveHead<T>(ops: seq<T>, queue: seq<T>)
    requires queue != []
    ensures ops + [queue[0]] + queue[1..] == ops + queue
    ensures ops == [] ==> [queue[0]] + queue[1..] == ops + queue
  {
  }

  lemma TakeWaits(s: State)
    requires Waiting(s) && s.queue != []
    ensures Enabled(s, TakeFirst) ==> Waiting(Do(s, TakeFirst)) && Applied(Do(s, TakeFirst)) == Applied(s)
    ensures Enabled(s, TakeNext) ==> Waiting(Do(s, TakeNext)) && Applied(Do(s, TakeNext)) == Applied(s)
  {
    MoveHead(s.ops, s.queue);
  }

  lemma TakeKeeps(s: State)
    requires Inv(s)
    ensures Enabled(s, TakeFirst) ==> Inv(Do(s, TakeFirst))
    ensures Enabled(s, TakeNext) ==> Inv(Do(s, TakeNext))
  {
    if s.queue != [] {
      TakeWaits(s);
      if Enabled(s, TakeFirst) { TablesStay(s, Do(s, TakeFirst)); }
      if Enabled(s, TakeNext) { TablesStay(s, Do(s, TakeNext)); }
    }
  }

  lemma SplitTail<T>(all: seq<T>, n: nat, a: seq<T>, b: seq<T>)
    requires n <= |all| && a + b == all[n..]
    ensures all[..n + |a|] == all[..n] + a && all[n + |a|..] == b == [] + b
  {
    assert forall i :: 0 <= i < |a| ==> a[i] == (a + b)[i] == all[n + i];
    assert forall i :: 0 <= i < |b| ==> b[i] == (a + b)[|a| + i] == all[n + |a| + i];
  }

  /** The reference, one batch further. */
  lemma CommitTables(s: State, now: int)
    requires Inv(s) && s.clock <= now
    ensures CleanedUp(ApplyAll(s.tables, s.ops, now), Sequential(s.accepted[..Applied(s) + |s.ops|]), now)
  {
    SplitTail(s.accepted, Applied(s), s.ops, s.queue);
    BatchFits(s.tables, s.clock, s.accepted[..Applied(s)], s.ops, now);
  }

  lemma CommitWaits(s: State, now: int)
    requires Waiting(s) && Enabled(s, Commit(now))
    ensures Waiting(Do(s, Commit(now))) && Applied(Do(s, Commit(now))) == Applied(s) + |s.ops|
  {
    SplitTail(s.accepted, Applied(s), s.ops, s.queue);
  }

  lemma CommitKeeps(s: State, now: int)
    requires Inv(s) && Enabled(s, Commit(now))
    ensures Inv(Do(s, Commit(now)))
  {
    CommitTables(s, now);
    CommitWaits(s, now);
  }

  lemma DropHead<T>(all: seq<T>, n: nat, queue: seq<T>)
    requires n <= |all| && queue == all[n..] && queue != []
    ensures all[..n + 1] == all[..n] + [queue[0]] && queue[1..] == all[n + 1..]
  {
  }

  lemma FlushWaits(s: State, now: int)
    requires Waiting(s) && Enabled(s, FlushOne(now))
    ensures Waiting(Do(s, FlushOne(now))) && Applied(Do(s, FlushOne(now))) == Applied(s) + 1
    ensures s.accepted[..Applied(s) + 1] == s.accepted[..Applied(s)] + [s.queue[0]]
  {
    assert [] + s.queue == s.queue && [] + s.queue[1..] == s.queue[1..];
    DropHead(s.accepted, Applied(s), s.queue);
  }

  lemma FlushKeeps(s: State, now: int)
    requires Inv(s) && Enabled(s, FlushOne(now))
    ensures Inv(Do(s, FlushOne(now)))
  {
    var done := s.accepted[..Applied(s)];
    FlushWaits(s, now);
    SequentialSnoc(done, s.queue[0]);
    ApplyBoth(s.tables, Sequential(done), s.clock, s.queue[0], now);
  }

  lemma StepKeeps(s: State, step: Step)
    requires Inv(s) && Enabled(s, step)
    ensures Inv(Do(s, step)) && s.clock <= Do(s, step).clock
  {
    match step
    case AsyncWrite(op) => AsyncWriteKeeps(s, op);
    case TakeFirst => TakeKeeps(s);
    case TakeNext => TakeKeeps(s);
    case Commit(now) => CommitKeeps(s, now);
    case FlushOne(now) => FlushKeeps(s, now);
    case _ =>
  }

  lemma {:induction false} RunKeeps(s: State, steps: seq<Step>)
    requires Inv(s) && IsRun(s, steps)
    ensures Inv(After(s, steps))
    decreases |steps|
  {
    if steps != [] {
      StepKeeps(s, steps[0]);
      RunKeeps(Do(s, steps[0]), steps[1..]);
    }
  }

  /** In a state of the invariant the tables answer for the operations applied so far, and the
      other accepted operations are waiting in order. */
  lemma {:induction false} InvRefines(s: State, now: int)
    requires Inv(s) && s.clock <= now
    ensures 0 <= Applied(s) <= |s.accepted|
    ensures s.accepted == s.accepted[..Applied(s)] + s.ops + s.queue
    ensures Answers(s.tables, s.accepted[..Applied(s)], now)
  {
    var n := Applied(s);
    assert s.accepted == s.accepted[..n] + s.accepted[n..];
    Associate(s.accepted[..n], s.ops, s.queue);
    CleanedUpStillAnswers(s.tables, s.accepted[..n], s.clock, now);
  }

  lemma OpenedOk(clock: int)
    ensures Inv(Opened(clock))
  {
  }

  /** However the writer batches and whenever it sees the quit signal, the tables answer every
      question, at the current or a later time, by the last accepted operation on its key, of
      those applied so far; the others wait in acceptance order. */
  lemma {:induction false} BatchingRefinesSequential(clock: int, steps: seq<Step>, now: int)
    requires IsRun(Opened(clock), steps) && After(Opened(clock), steps).clock <= now
    ensures var s := After(Opened(clock), steps);
            && 0 <= Applied(s) <= |s.accepted|
            && s.accepted == s.accepted[..Applied(s)] + s.ops + s.queue
            && Answers(s.tables, s.accepted[..Applied(s)], now)
  {
    OpenedOk(clock);
    RunKeeps(Opened(clock), steps);
    InvRefines(After(Opened(clock), steps), now);
  }

  lemma {:induction false} ClosedRefines(s: State, now: int)
    requires Inv(s) && s.phase.Closed? && s.clock <= now
    ensures s.atDrain <= |s.accepted| && s.queue == s.accepted[s.atDrain..]
    ensures Answers(s.tables, s.accepted[..s.atDrain], now)
  {
    assert [] + s.queue == s.queue;
    InvRefines(s, now);
  }

  /** Close leaves nothing unapplied that was accepted before the flush saw an empty queue, and
      everything accepted later stays in the queue. */
  lemma {:induction false} CloseAppliesAll(clock: int, steps: seq<Step>, now: int)
    requires IsRun(Opened(clock), steps) && After(Opened(clock), steps).phase.Closed?
    requires After(Opened(clock), steps).clock <= now
    ensures var s := After(Opened(clock), steps);
            && s.atDrain <= |s.accepted|
            && Answers(s.tables, s.accepted[..s.atDrain], now)
            && s.queue == s.accepted[s.atDrain..]
  {
    OpenedOk(clock);
    RunKeeps(Opened(clock), steps);
    ClosedRefines(After(Opened(clock), steps), now);
  }

  // ---- Clean-ups at arbitrary points ----

  datatype Timed = Timed(op: Op, now: int)

  ghost predicate InOrder(log: seq<Timed>, now: int) {
    && (forall i, j :: 0 <= i < j < |log| ==> log[i].now <= log[j].now)
    && (forall i :: 0 <= i < |log| ==> log[i].now <= now)
  }

  function Replay(log: seq<Timed>): Tables {
    if log == [] then EMPTY
    else Apply(Replay(log[..|log| - 1]), log[|log| - 1].op, log[|log| - 1].now)
  }

  function OpsOf(log: seq<Timed>): seq<Op> {
    if log == [] then [] else OpsOf(log[..|log| - 1]) + [log[|log| - 1].op]
  }

  lemma {:induction false} ReplayCleanedUp(log: seq<Timed>, now: int)
    requires InOrder(log, now)
    ensures CleanedUp(Replay(log), Sequential(OpsOf(log)), now)
    decreases |log|
  {
    if log != [] {
      var init, x := log[..|log| - 1], log[|log| - 1];
      ReplayCleanedUp(init, x.now);
      SequentialSnoc(OpsOf(init), x.op);
      ApplyBoth(Replay(init), Sequential(OpsOf(init)), x.now, x.op, x.now);
    }
  }

  /** Two logs with the same upserts, each with clean-ups wherever it likes, answer every later
      verdict query alike. */
  lemma CleanUpsInvisible(a: seq<Timed>, b: seq<Timed>, ip: string, now: int)
    requires InOrder(a, now) && InOrder(b, now)
    requires WithoutClean(OpsOf(a)) == WithoutClean(OpsOf(b))
    ensures LiveRow(Replay(a).ips, ip, now) == LiveRow(Replay(b).ips, ip, now)
  {
    ReplayCleanedUp(a, now);
    ReplayCleanedUp(b, now);
    CleanedUpAnswers(Replay(a), Sequential(OpsOf(a)), now, ip, now);
    CleanedUpAnswers(Replay(b), Sequential(OpsOf(b)), now, ip, now);
  }

  // ---- The store object ----

  lemma {:induction false} RunSnoc(s: State, steps: seq<Step>, step: Step)
    requires IsRun(s, steps) && Enabled(After(s, steps), step)
    ensures IsRun(s, steps + [step]) && After(s, steps + [step]) == Do(After(s, steps), step)
    decreases |steps|
  {
    if steps == [] {
      assert [] + [step] == [step] && [step][1..] == [];
      assert IsRun(Do(s, step), []);
    } else {
      assert (steps + [step])[0] == steps[0] && (steps + [step])[1..] == steps[1..] + [step];
      RunSnoc(Do(s, steps[0]), steps[1..], step);
    }
  }

  /** What happens while the writer is between two looks at its queue: what the senders submit,
      and the time it is when the writer goes on. */
  datatype Gap = Gap(sends: seq<Op>, now: int)

  ghost predicate GapsFrom(gaps: seq<Gap>, clock: int) {
    gaps != [] ==> clock <= gaps[0].now && GapsFrom(gaps[1..], gaps[0].now)
  }

  class Store {
    var queue: seq<Op>
    var tables: Tables
    var quit: bool
    ghost var since: int
    ghost var trace: seq<Step>
    ghost var pending: seq<Op>
    ghost var phase: Phase
    ghost var clock: int
    ghost var accepted: seq<Op>
    ghost var atDrain: nat

    ghost function Abs(): State
      reads this
    {
      State(queue, pending, tables, phase, quit, clock, accepted, atDrain)
    }

    /** The object is where the recorded run of the protocol leads. */
    ghost predicate Valid()
      reads this
    {
      IsRun(Opened(since), trace) && Abs() == After(Opened(since), trace)
    }

    constructor (ghost now: int)
      ensures Valid() && trace == [] && Abs() == Opened(now)
    {
      queue, tables, quit := [], EMPTY, false;
      since, trace, pending, phase, clock, accepted, atDrain := now, [], [], Idle, now, [], 0;
    }

    /** Bookkeeping for the step that comes next. */
    ghost method Log(step: Step)
      requires Valid() && Enabled(Abs(), step)
      modifies this`trace
      ensures trace == old(trace) + [step]
      ensures IsRun(Opened(since), trace) && After(Opened(since), trace) == Do(old(Abs()), step)
    {
      RunSnoc(Opened(since), trace, step);
      trace := trace + [step];
    }

    method AsyncWriteOp(op: Op) returns (ok: bool)
      requires Valid()
      modifies this`queue, this`accepted, this`trace
      ensures Valid() && trace == old(trace) + [AsyncWrite(op)]
      ensures ok <==> |old(queue)| < 10000
      ensures queue == (if ok then old(queue) + [op] else old(queue))
      ensures accepted == (if ok then old(accepted) + [op] else old(accepted))
    {
      Log(AsyncWrite(op));
      ok := |queue| < QUEUE;
      if ok {
        queue := queue + [op];
        accepted := accepted + [op];
      }
    }

    /** Closing twice is closing once. */
    method Close()
      requires Valid()
      modifies this`quit, this`trace
      ensures Valid() && quit
      ensures trace == if old(quit) then old(trace) else old(trace) + [Step.Close]
    {
      if !quit {
        Log(Step.Close);
        quit := true;
      }
    }

    /** Senders at work. */
    method Submit(sends: seq<Op>) returns (ghost added: seq<Op>)
      requires Valid()
      modifies this`queue, this`accepted, this`trace
      ensures Valid() && old(trace) <= trace
      ensures queue == old(queue) + added && accepted == old(accepted) + added
    {
      added := [];
      for i := 0 to |sends|
        invariant Valid() && old(trace) <= trace
        invariant queue == old(queue) + added && accepted == old(accepted) + added
      {
        ghost var more := added;
        var ok := AsyncWriteOp(sends[i]);
        if ok {
          added := added + [sends[i]];
          Associate(old(queue), more, [sends[i]]);
          Associate(old(accepted), more, [sends[i]]);
        }
      }
    }

    /** Whatever is submitted before the next look at the queue. */
    method Meanwhile(arrivals: seq<seq<Op>>) returns (rest: seq<seq<Op>>, ghost more: seq<Op>)
      requires Valid()
      modifies this`queue, this`accepted, this`trace
      ensures Valid() && old(trace) <= trace
      ensures queue == old(queue) + more && accepted == old(accepted) + more
    {
      rest, more := arrivals, [];
      if arrivals != [] {
        more := Submit(arrivals[0]);
        rest := arrivals[1..];
      }
    }

    /** Takes the head of the queue into the batch. */
    method Take() returns (op: Op)
      requires Valid() && queue != []
      requires phase.Idle? || (phase.Gathering? && |pending| < BATCH)
      modifies this`queue, this`pending, this`phase, this`trace
      ensures Valid() && old(trace) <= trace && phase.Gathering?
      ensures op == old(queue)[0] && queue == old(queue)[1..]
      ensures pending == (if old(phase).Idle? then [op] else old(pending) + [op])
    {
      ghost var step := if phase.Idle? then TakeFirst else TakeNext;
      Log(step);
      op := queue[0];
      pending := if phase.Idle? then [op] else pending + [op];
      queue := queue[1..];
      phase := Gathering;
    }

    /** The transaction: all operations of the batch, at one moment. */
    method CommitBatch(ops: seq<Op>, now: int)
      requires Valid() && phase.Gathering? && pending == ops && clock <= now
      modifies this`tables, this`pending, this`phase, this`clock, this`trace
      ensures Valid() && trace == old(trace) + [Commit(now)] && phase.Idle?
      ensures tables == ApplyAll(old(tables), ops, now)
      ensures forall later :: now <= later ==> Updates(old(tables), tables, ops, later)
    {
      Log(Commit(now));
      forall later | now <= later ensures Updates(tables, ApplyAll(tables, ops, now), ops, later) {
        BatchUpdates(tables, ops, now, later);
      }
      var t := tables;
      assert ops[..0] == [];
      for i := 0 to |ops|
        invariant t == ApplyAll(old(tables), ops[..i], now)
      {
        assert ops[..i + 1][..i] == ops[..i];
        t := Apply(t, ops[i], now);
      }
      assert ops[..|ops|] == ops;
      tables, pending, phase, clock := t, [], Idle, now;
    }

    /** One look at the queue: the batch grows by its head, unless it is empty. */
    method Look(ops: seq<Op>, arrivals: seq<seq<Op>>) returns (next: seq<Op>, rest: seq<seq<Op>>, ghost more: seq<Op>)
      requires Valid() && phase.Gathering? && pending == ops && |ops| < BATCH
      modifies this`queue, this`pending, this`phase, this`accepted, this`trace
      ensures Valid() && phase.Gathering? && pending == next && old(trace) <= trace
      ensures accepted == old(accepted) + more && next + queue == ops + old(queue) + more
      ensures |next| == |ops| + 1 || (next == ops && queue == [])
    {
      ghost var before := queue;
      rest, more := Meanwhile(arrivals);
      Associate(ops, before, more);
      next := ops;
      if |queue| > 0 {
        Associate(ops, [queue[0]], queue[1..]);
        var op := Take();
        next := ops + [op];
      }
    }

    /** Fills a batch from the queue, whatever is submitted between two looks at it. */
    method Gather(arrivals: seq<seq<Op>>) returns (ops: seq<Op>, ghost added: seq<Op>)
      requires Valid() && phase.Idle? && queue != []
      modifies this`queue, this`pending, this`phase, this`accepted, this`trace
      ensures Valid() && phase.Gathering? && pending == ops && old(trace) <= trace
      ensures accepted == old(accepted) + added && ops + queue == old(queue) + added
      ensures 1 <= |ops| <= BATCH && (|ops| < BATCH ==> queue == [])
    {
      ghost var all := queue;
      var op := Take();
      var rest, drained := arrivals, false;
      ops, added := [op], [];
      while |ops| < BATCH && !drained
        invariant Valid() && phase.Gathering? && pending == ops && 1 <= |ops| <= BATCH && old(trace) <= trace
        invariant accepted == old(accepted) + added && ops + queue == all + added
        invariant drained ==> queue == []
        decreases BATCH - |ops|, !drained
      {
        var next, left, more := Look(ops, rest);
        Associate(all, added, more);
        drained := next == ops;
        ops, rest, added := next, left, added + more;
      }
    }

    /** One round of the write loop: up to BATCH operations leave the queue in order, fewer only
        when it was found empty, and are applied together. */
    method ProcessBatch(arrivals: seq<seq<Op>>, now: int) returns (ghost batch: seq<Op>)
      requires Valid() && phase.Idle? && queue != [] && clock <= now
      modifies this`queue, this`tables, this`pending, this`phase, this`clock, this`accepted, this`trace
      ensures Valid() && phase.Idle? && old(trace) <= trace
      ensures old(accepted) <= accepted
      ensures batch + queue == old(queue) + accepted[|old(accepted)|..]
      ensures 1 <= |batch| <= 200 && (|batch| < 200 ==> queue == [])
      ensures forall later :: now <= later ==> Updates(old(tables), tables, batch, later)
    {
      var ops, added := Gather(arrivals);
      CommitBatch(ops, now);
      batch := ops;
    }

    /** The quit branch, whatever is submitted meanwhile: it ends with an empty queue, and with
        everything accepted by then in the tables. */
    method FlushRemaining(gaps: seq<Gap>, start: int)
      requires Valid() && phase.Idle? && quit && clock <= start && GapsFrom(gaps, start)
      modifies this`queue, this`tables, this`phase, this`clock, this`accepted, this`atDrain, this`trace
      ensures Valid() && phase.Closed? && old(trace) <= trace
      ensures queue == [] && old(accepted) <= accepted
      ensures forall later :: clock <= later ==> Answers(tables, accepted, later)
    {
      EnterFlush();
      Drain(gaps, start);
      EndFlush();
      AllApplied();
    }

    method EnterFlush()
      requires Valid() && phase.Idle? && quit
      modifies this`phase, this`trace
      ensures Valid() && phase.Flushing? && trace == old(trace) + [SeeQuit]
    {
      Log(SeeQuit);
      phase := Flushing;
    }

    method EndFlush()
      requires Valid() && phase.Flushing? && queue == []
      modifies this`phase, this`atDrain, this`trace
      ensures Valid() && phase.Closed? && trace == old(trace) + [FlushEnd] && atDrain == |accepted|
    {
      Log(FlushEnd);
      phase, atDrain := Phase.Closed, |accepted|;
    }

    /** The tables of a store that closed with an empty queue. */
    lemma {:induction false} AllApplied()
      requires Valid() && phase.Closed? && queue == [] && atDrain == |accepted|
      ensures forall later :: clock <= later ==> Answers(tables, accepted, later)
    {
      OpenedOk(since);
      RunKeeps(Opened(since), trace);
      assert accepted[..atDrain] == accepted;
      forall later | clock <= later ensures Answers(tables, accepted, later) {
        ClosedRefines(Abs(), later);
      }
    }

    method Drain(gaps: seq<Gap>, start: int)
      requires Valid() && phase.Flushing? && clock <= start && GapsFrom(gaps, start)
      modifies this`queue, this`tables, this`clock, this`accepted, this`trace
      ensures Valid() && old(trace) <= trace && queue == [] && old(accepted) <= accepted
    {
      var now, rest := start, gaps;
      while true
        invariant Valid() && old(trace) <= trace && old(accepted) <= accepted
        invariant clock <= now && GapsFrom(rest, now)
        decreases |rest|, |queue|
      {
        if rest != [] {
          now := rest[0].now;
          ghost var added := Submit(rest[0].sends);
          rest := rest[1..];
        }
        if |queue| == 0 {
          break;
        }
        FlushHead(now);
      }
    }

    method FlushHead(now: int)
      requires Valid() && phase.Flushing? && queue != [] && clock <= now
      modifies this`queue, this`tables, this`clock, this`trace
      ensures Valid() && trace == old(trace) + [FlushOne(now)]
      ensures queue == old(queue)[1..] && clock == now
    {
      Log(FlushOne(now));
      tables := Apply(tables, queue[0], now);
      queue, clock := queue[1..], now;
    }
  }
}
