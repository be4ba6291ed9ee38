/** What the rows of the audit log record: the requests of the run, in the order of their stamps. */
module AuditRecords {
  import opened AuditChain
  import opened AuditRun
  import opened AuditVerdicts

  /** Step p of the past stamped the request that row r records. */
  ghost predicate StampedAt(past: seq<Step>, p: nat, r: Row) {
    p < |past| && past[p].Stamp? && Records(r, past[p].req, past[p].now)
  }

  /** `at` names, row by row, the steps that stamped the table, in their order. */
  ghost predicate Recorded(table: seq<Row>, past: seq<Step>, at: seq<nat>) {
    && |at| == |table|
    && (forall i, j :: 0 <= i < j < |at| ==> at[i] < at[j])
    && (forall i :: 0 <= i < |at| ==> StampedAt(past, at[i], table[i]))
  }

  /** An entry still to be written was stamped, by step p, after every row of the table. */
  ghost predicate Pending(s: State, past: seq<Step>, at: seq<nat>, p: nat) {
    s.phase.Stamped? ==> StampedAt(past, p, s.phase.entry) && forall i :: 0 <= i < |at| ==> at[i] < p
  }

  lemma {:induction false} RecordedMore(table: seq<Row>, past: seq<Step>, at: seq<nat>, step: Step)
    requires Recorded(table, past, at)
    ensures Recorded(table, past + [step], at)
  {
    forall i | 0 <= i < |at| ensures StampedAt(past + [step], at[i], table[i]) {
      assert StampedAt(past, at[i], table[i]);
    }
  }

  lemma {:induction false} WriteRecords(table: seq<Row>, past: seq<Step>, at: seq<nat>, p: nat, e: Row)
    requires Recorded(table, past, at) && StampedAt(past, p, e) && forall i :: 0 <= i < |at| ==> at[i] < p
    ensures Recorded(table + [e], past, at + [p])
  {
  }

  lemma {:induction false} PurgeRecords(table: seq<Row>, past: seq<Step>, at: seq<nat>, cutoff: int)
    requires StrictlyOrdered(table) && Recorded(table, past, at)
    ensures |Kept(table, cutoff)| <= |at|
    ensures Recorded(Kept(table, cutoff), past, at[|at| - |Kept(table, cutoff)|..])
  {
    PurgeSplits(table, cutoff);
    var gone, kept := Purged(table, cutoff), Kept(table, cutoff);
    var d := |gone|;
    assert |at| - |kept| == d;
    forall i | 0 <= i < |kept| ensures StampedAt(past, at[d..][i], kept[i]) {
      assert StampedAt(past, at[d + i], table[d + i]);
    }
  }

  /** One step keeps the bookkeeping. */
  lemma {:induction false} StepRecords(k: Crypto, s: State, step: Step, past: seq<Step>, at: seq<nat>, p: nat)
      returns (at': seq<nat>, p': nat)
    requires StrictlyOrdered(s.table) && Enabled(s, step)
    requires Recorded(s.table, past, at) && Pending(s, past, at, p)
    ensures Recorded(Do(k, s, step).table, past + [step], at') && Pending(Do(k, s, step), past + [step], at', p')
  {
    RecordedMore(s.table, past, at, step);
    at', p' := at, p;
    match step
    case Stamp(_, _) => p' := |past|;
    case Write =>
      WriteRecords(s.table, past + [step], at, p, s.phase.entry);
      at' := at + [p];
    case ResetDelete => at' := [];
    case Purge(cutoff) =>
      PurgeRecords(s.table, past + [step], at, cutoff);
      at' := at[|at| - |Kept(s.table, cutoff)|..];
    case _ =>
  }

  lemma {:induction false} StepRecordsInv(k: Crypto, s: State, step: Step, past: seq<Step>, at: seq<nat>, p: nat)
      returns (at': seq<nat>, p': nat)
    requires Genuine(k) && Inv(k, s) && Enabled(s, step)
    requires Recorded(s.table, past, at) && Pending(s, past, at, p)
    ensures Inv(k, Do(k, s, step))
    ensures Recorded(Do(k, s, step).table, past + [step], at') && Pending(Do(k, s, step), past + [step], at', p')
  {
    StepKeepsInv(k, s, step);
    at', p' := StepRecords(k, s, step, past, at, p);
  }

  lemma {:induction false} RunRecords(k: Crypto, s: State, steps: seq<Step>, past: seq<Step>, at: seq<nat>, p: nat)
      returns (at': seq<nat>)
    requires Genuine(k) && Inv(k, s) && IsRun(k, s, steps)
    requires Recorded(s.table, past, at) && Pending(s, past, at, p)
    ensures Recorded(After(k, s, steps).table, past + steps, at')
    decreases |steps|
  {
    if steps == [] {
      assert past + steps == past;
      at' := at;
    } else {
      var at1, p1 := StepRecordsInv(k, s, steps[0], past, at, p);
      at' := RunRecords(k, Do(k, s, steps[0]), steps[1..], past + [steps[0]], at1, p1);
      assert past + [steps[0]] + steps[1..] == past + steps;
    }
  }

  /** After any run the log is a list of records of its stamped requests, each with its fields
      and its time, in the order they were stamped and none twice. */
  lemma {:induction false} LogRecordsRequests(k: Crypto, clock: int, steps: seq<Step>)
    requires Genuine(k) && IsRun(k, Fresh(clock), steps)
    ensures exists at :: Recorded(After(k, Fresh(clock), steps).table, steps, at)
  {
    assert Recorded([], [], []);
    var at := RunRecords(k, Fresh(clock), steps, [], [], 0);
    assert [] + steps == steps;
  }

  /** A request whose append was stored is on record, until a purge or a reset removes it. */
  lemma {:induction false} StoredIsRecorded(k: Crypto, s: State, req: Request, now: int)
    requires s.phase.Idle? && !s.resetting && s.clock < now
    requires Insertable(s.table, MakeEntry(k, s.lastHash, req, now))
    ensures IsRun(k, s, AppendSteps(req, now, true))
    ensures var t := After(k, s, AppendSteps(req, now, true));
            |t.table| == |s.table| + 1 && t.table[..|s.table|] == s.table && Records(t.table[|s.table|], req, now)
  {
    assert AppendSteps(req, now, true) == [Stamp(req, now), Write, Advance];
    AppendRun(k, s, req, now);
  }

  /** No step but a purge past its age or a reset takes a row away, and no step changes one. */
  lemma {:induction false} RowsStay(k: Crypto, s: State, step: Step, r: Row)
    requires Enabled(s, step) && r in s.table
    ensures r in Do(k, s, step).table <==> !step.ResetDelete? && !(step.Purge? && r.timestamp < step.cutoff)
  {
    if step.Purge? { PurgeIsByAge(s.table, step.cutoff); }
  }
}
