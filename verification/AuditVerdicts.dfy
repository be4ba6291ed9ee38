/** What every run of the audit log guarantees, and the server object that makes the runs. */
module AuditVerdicts {
  import AuditPayload
  import opened AuditChain
  import opened AuditRun

  // ---- Every step keeps the invariant ----

  lemma {:induction false} PurgeKeepsInv(k: Crypto, s: State, cutoff: int)
    requires Genuine(k) && Inv(k, s) && !s.resetting
    ensures Inv(k, Do(k, s, Purge(cutoff)))
  {
    PurgeKeepsTable(k, s, cutoff);
  }

  lemma {:induction false} WriteKeepsInv(k: Crypto, s: State)
    requires Genuine(k) && Inv(k, s) && Enabled(s, Write)
    ensures Inv(k, Do(k, s, Write))
  {
    var e := s.phase.entry;
    LinkedExtend(k, s.anchor, s.table, e);
    assert forall i :: 0 <= i < |s.table| ==> s.table[i] in s.table;
  }

  lemma {:induction false} StepKeepsInv(k: Crypto, s: State, step: Step)
    requires Genuine(k) && Inv(k, s) && Enabled(s, step)
    ensures Inv(k, Do(k, s, step))
  {
    match step
    case Write => WriteKeepsInv(k, s);
    case Purge(cutoff) => PurgeKeepsInv(k, s, cutoff);
    case Restart => LatestIsLast(s.table);
    case _ =>
  }

  lemma {:induction false} RunKeepsInv(k: Crypto, s: State, steps: seq<Step>)
    requires Genuine(k) && Inv(k, s) && IsRun(k, s, steps)
    ensures Inv(k, After(k, s, steps))
    decreases |steps|
  {
    if steps != [] {
      StepKeepsInv(k, s, steps[0]);
      RunKeepsInv(k, Do(k, s, steps[0]), steps[1..]);
    }
  }

  // ---- Main results over runs ----

  /** What the verify endpoint answers for a table, whatever order the database gives to ties. */
  ghost predicate VerifyOk(k: Crypto, table: seq<Row>) {
    forall sel :: IsOrdering(sel, table) ==> Linked(k, GENESIS, sel)
  }

  /** The oldest row, if any, points at GENESIS. */
  predicate StartsAtGenesis(table: seq<Row>) {
    table != [] ==> table[0].prevHash == GENESIS
  }

  lemma AnchorIsStored(k: Crypto, s: State)
    requires TableOk(k, s) && s.table != []
    ensures s.anchor == s.table[0].prevHash
  {
    assert LinkAt(k, s.anchor, s.table, 0);
  }

  /** An ordered table has one answer. */
  lemma OrderedVerdict(k: Crypto, table: seq<Row>)
    requires StrictlyOrdered(table)
    ensures VerifyOk(k, table) <==> Linked(k, GENESIS, table)
  {
    assert IsOrdering(table, table);
    forall sel | IsOrdering(sel, table) ensures sel == table {
      OrderingUnique(sel, table);
    }
  }

  lemma OrderedSnoc(table: seq<Row>, e: Row)
    requires StrictlyOrdered(table) && forall r :: r in table ==> r.timestamp < e.timestamp
    ensures StrictlyOrdered(table + [e])
  {
    assert forall i :: 0 <= i < |table| ==> table[i] in table;
  }

  /** A log of the invariant verifies exactly when its oldest row points at GENESIS. */
  lemma VerifyOkIff(k: Crypto, s: State)
    requires Genuine(k) && TableOk(k, s)
    ensures VerifyOk(k, s.table) <==> StartsAtGenesis(s.table)
    ensures Linked(k, GENESIS, s.table) <==> StartsAtGenesis(s.table)
    ensures s.table != [] ==> s.anchor == s.table[0].prevHash
  {
    OrderedVerdict(k, s.table);
    if s.table != [] {
      AnchorIsStored(k, s);
      assert s.anchor != GENESIS ==> !LinkAt(k, GENESIS, s.table, 0);
    }
  }

  /** Every reachable state, purges included: the log verifies exactly when its oldest row
      points at GENESIS, and at rest the pointer is the last row's seal. */
  lemma {:induction false} ReachableVerdict(k: Crypto, clock: int, steps: seq<Step>)
    requires Genuine(k) && IsRun(k, Fresh(clock), steps)
    ensures var s := After(k, Fresh(clock), steps);
            && (VerifyOk(k, s.table) <==> StartsAtGenesis(s.table))
            && (s.phase.Idle? && !s.resetting && s.table != [] ==> s.lastHash == s.table[|s.table| - 1].chainHash)
  {
    RunKeepsInv(k, Fresh(clock), steps);
    VerifyOkIff(k, After(k, Fresh(clock), steps));
  }

  /** No purge of the run deletes a row. */
  ghost predicate Lossless(k: Crypto, s: State, steps: seq<Step>)
    requires IsRun(k, s, steps)
    decreases |steps|
  {
    steps != [] ==>
      && (steps[0].Purge? ==> Purged(s.table, steps[0].cutoff) == [])
      && Lossless(k, Do(k, s, steps[0]), steps[1..])
  }

  /** Without purges that delete something, no interleaving of appends, failed writes, resets
      and restarts ever makes verification fail, and at rest the pointer is the last row's hash. */
  lemma {:induction false} WholeRunValid(k: Crypto, clock: int, steps: seq<Step>)
    requires Genuine(k) && IsRun(k, Fresh(clock), steps) && Lossless(k, Fresh(clock), steps)
    ensures var s := After(k, Fresh(clock), steps);
            && VerifyOk(k, s.table)
            && (s.phase.Idle? && !s.resetting ==> s.lastHash == Tip(GENESIS, s.table))
  {
    AnchorStays(k, Fresh(clock), steps);
    RunKeepsInv(k, Fresh(clock), steps);
    VerifyOkIff(k, After(k, Fresh(clock), steps));
  }

  lemma {:induction false} AnchorStays(k: Crypto, s: State, steps: seq<Step>)
    requires IsRun(k, s, steps) && s.anchor == GENESIS && Lossless(k, s, steps)
    ensures After(k, s, steps).anchor == GENESIS
    decreases |steps|
  {
    if steps != [] {
      AnchorStays(k, Do(k, s, steps[0]), steps[1..]);
    }
  }

  /** A purge of a verifying log leaves a verifying log exactly when it deletes nothing or
      everything. */
  lemma {:induction false} PurgeVerdict(k: Crypto, s: State, cutoff: int)
    requires Genuine(k) && Inv(k, s) && !s.resetting && StartsAtGenesis(s.table)
    ensures VerifyOk(k, Do(k, s, Purge(cutoff)).table) <==>
            Purged(s.table, cutoff) == [] || Kept(s.table, cutoff) == []
  {
    VerifyOkIff(k, s);
    PurgeKeepsInv(k, s, cutoff);
    PurgeSplits(s.table, cutoff);
    var gone := Purged(s.table, cutoff);
    LinkedSplit(k, GENESIS, gone, Kept(s.table, cutoff));
    TipLength(k, GENESIS, gone);
    VerifyOkIff(k, Do(k, s, Purge(cutoff)));
  }

  // ---- What the next append makes of a log ----

  /** From any ordered table and any pointer: the log after a stored append verifies exactly when
      it verified before and the pointer was its last seal, or GENESIS for an empty one. */
  lemma {:induction false} AppendVerdictIff(k: Crypto, s: State, req: Request, now: int)
    requires s.phase.Idle? && !s.resetting && s.clock < now
    requires StrictlyOrdered(s.table) && forall r :: r in s.table ==> r.timestamp <= s.clock
    requires Insertable(s.table, MakeEntry(k, s.lastHash, req, now))
    ensures IsRun(k, s, AppendSteps(req, now, true))
    ensures VerifyOk(k, After(k, s, AppendSteps(req, now, true)).table) <==>
            Linked(k, GENESIS, s.table) && s.lastHash == Tip(GENESIS, s.table)
  {
    var e := MakeEntry(k, s.lastHash, req, now);
    assert AppendSteps(req, now, true) == [Stamp(req, now), Write, Advance];
    AppendRun(k, s, req, now);
    OrderedSnoc(s.table, e);
    OrderedVerdict(k, s.table + [e]);
    LinkedExtend(k, GENESIS, s.table, e);
  }

  /** In a state of the invariant: when the log verifies now, and has a row or a fresh pointer. */
  lemma {:induction false} NextAppendIff(k: Crypto, s: State, req: Request, now: int)
    requires Genuine(k) && Inv(k, s) && s.phase.Idle? && !s.resetting && s.clock < now
    requires Insertable(s.table, MakeEntry(k, s.lastHash, req, now))
    ensures IsRun(k, s, AppendSteps(req, now, true))
    ensures VerifyOk(k, After(k, s, AppendSteps(req, now, true)).table) <==>
            StartsAtGenesis(s.table) && (s.table != [] || s.lastHash == GENESIS)
  {
    AppendVerdictIff(k, s, req, now);
    VerifyOkIff(k, s);
  }

  /** After a purge of a log that the next append would have kept verifiable, it still does so
      exactly when the purge deleted nothing. */
  lemma {:induction false} PurgedAppendIff(k: Crypto, s: State, cutoff: int, req: Request, now: int)
    requires Genuine(k) && Inv(k, s) && s.phase.Idle? && !s.resetting && s.clock < now
    requires StartsAtGenesis(s.table) && (s.table != [] || s.lastHash == GENESIS)
    requires Insertable(Kept(s.table, cutoff), MakeEntry(k, s.lastHash, req, now))
    ensures var t := Do(k, s, Purge(cutoff));
            && IsRun(k, t, AppendSteps(req, now, true))
            && (VerifyOk(k, After(k, t, AppendSteps(req, now, true)).table) <==> Purged(s.table, cutoff) == [])
  {
    var t := Do(k, s, Purge(cutoff));
    PurgeKeepsInv(k, s, cutoff);
    PurgeSplits(s.table, cutoff);
    NextAppendIff(k, t, req, now);
    PurgeVerdict(k, s, cutoff);
    VerifyOkIff(k, t);
    TipLength(k, s.anchor, s.table);
  }

  /** In particular, a purge of everything leaves a log that the next append breaks. */
  lemma {:induction false} EmptiedLogBreaks(k: Crypto, s: State, cutoff: int, req: Request, now: int)
    requires Genuine(k) && Inv(k, s) && !s.resetting && StartsAtGenesis(s.table) && s.phase.Idle?
    requires s.table != [] && Kept(s.table, cutoff) == [] && s.clock < now
    ensures var emptied := Do(k, s, Purge(cutoff));
            && emptied.table == []
            && IsRun(k, emptied, AppendSteps(req, now, true))
            && !VerifyOk(k, After(k, emptied, AppendSteps(req, now, true)).table)
  {
    EmptiedPointer(k, s, cutoff);
    StrayPointerBreaks(k, Do(k, s, Purge(cutoff)), req, now);
  }

  /** A purge of everything leaves the pointer at a row that is gone. */
  lemma {:induction false} EmptiedPointer(k: Crypto, s: State, cutoff: int)
    requires Genuine(k) && Inv(k, s) && !s.resetting && s.phase.Idle?
    requires s.table != [] && Kept(s.table, cutoff) == []
    ensures var t := Do(k, s, Purge(cutoff));
            t.table == [] && t.lastHash == s.table[|s.table| - 1].chainHash && |t.lastHash| == 64
  {
    TipLength(k, s.anchor, s.table);
  }

  /** And so does any pointer at a seal over an empty table, however it came about. */
  lemma {:induction false} StrayPointerBreaks(k: Crypto, s: State, req: Request, now: int)
    requires Genuine(k) && s.table == [] && |s.lastHash| == 64
    requires s.phase.Idle? && !s.resetting && s.clock < now
    ensures var steps := AppendSteps(req, now, true);
            IsRun(k, s, steps) && !VerifyOk(k, After(k, s, steps).table)
  {
    AppendVerdictIff(k, s, req, now);
  }

  /** The three steps of a successful append, run back to back. */
  lemma AppendRun(k: Crypto, s: State, req: Request, now: int)
    requires s.phase.Idle? && !s.resetting && s.clock < now
    requires Insertable(s.table, MakeEntry(k, s.lastHash, req, now))
    ensures var e := MakeEntry(k, s.lastHash, req, now);
            && IsRun(k, s, [Stamp(req, now), Write, Advance])
            && After(k, s, [Stamp(req, now), Write, Advance])
               == s.(table := s.table + [e], lastHash := e.chainHash, clock := now)
  {
    var s1 := Do(k, s, Stamp(req, now));
    var s2 := Do(k, s1, Write);
    var s3 := Do(k, s2, Advance);
    assert [Stamp(req, now), Write, Advance][1..] == [Write, Advance];
    assert [Write, Advance][1..] == [Advance];
    assert [Advance][1..] == [];
    assert IsRun(k, s3, []) && IsRun(k, s2, [Advance]) && IsRun(k, s1, [Write, Advance]);
    assert After(k, s2, [Advance]) == s3;
    assert After(k, s1, [Write, Advance]) == s3;
  }

  /** The two steps of an append that the database refuses. */
  lemma DropRun(k: Crypto, s: State, req: Request, now: int)
    requires s.phase.Idle? && !s.resetting && s.clock < now
    ensures IsRun(k, s, [Stamp(req, now), WriteFails])
    ensures After(k, s, [Stamp(req, now), WriteFails]) == s.(clock := now)
  {
    var s1 := Do(k, s, Stamp(req, now));
    assert [Stamp(req, now), WriteFails][1..] == [WriteFails];
    assert [WriteFails][1..] == [];
    assert IsRun(k, s1, [WriteFails]) && After(k, s1, [WriteFails]) == Do(k, s1, WriteFails);
  }

  /** One call of the append, by its result. */
  function AppendSteps(req: Request, now: int, stored: bool): seq<Step> {
    [Stamp(req, now)] + (if stored then [Write, Advance] else [WriteFails])
  }

  /** A restart whose reload fails resumes from GENESIS: the next append leaves a log that
      verifies exactly when there was nothing to reload. */
  lemma {:induction false} BlindRestart(k: Crypto, s: State, req: Request, now: int)
    requires Genuine(k) && Inv(k, s) && StartsAtGenesis(s.table) && s.clock < now
    requires Insertable(s.table, MakeEntry(k, GENESIS, req, now))
    ensures var blind := s.(lastHash := GENESIS, phase := Idle, resetting := false);
            && IsRun(k, blind, [Stamp(req, now), Write, Advance])
            && (VerifyOk(k, After(k, blind, [Stamp(req, now), Write, Advance]).table) <==> s.table == [])
  {
    var blind := s.(lastHash := GENESIS, phase := Idle, resetting := false);
    assert AppendSteps(req, now, true) == [Stamp(req, now), Write, Advance];
    AppendVerdictIff(k, blind, req, now);
    VerifyOkIff(k, s);
    TipLength(k, GENESIS, s.table);
  }

  /** The two locks are taken in opposite orders: a state that only a restart can leave is
      exactly one where a reset has caught an append between its stamp and its write. */
  lemma StuckIff(s: State)
    ensures (forall step :: Enabled(s, step) ==> step.Restart?) <==> s.resetting && s.phase.Stamped?
  {
    var req := Request(Extra("", "", "", 0.0, ""), "", "", "", 0);
    if s.phase.Idle? {
      assert Enabled(s, Stamp(req, s.clock + 1));
    } else if s.phase.Written? {
      assert Enabled(s, Advance);
    } else if !s.resetting {
      assert Enabled(s, WriteFails);
    }
  }

  /** Such a state is reached in two steps. */
  lemma StuckIsReachable(k: Crypto, clock: int, req: Request)
    ensures var steps := [Stamp(req, clock + 1), ResetDelete];
            && IsRun(k, Fresh(clock), steps)
            && After(k, Fresh(clock), steps).resetting && After(k, Fresh(clock), steps).phase.Stamped?
  {
    var s1 := Do(k, Fresh(clock), Stamp(req, clock + 1));
    assert [Stamp(req, clock + 1), ResetDelete][1..] == [ResetDelete];
    assert [ResetDelete][1..] == [];
    assert IsRun(k, s1, [ResetDelete]) && After(k, s1, [ResetDelete]) == Do(k, s1, ResetDelete);
  }

  /** There are keyed hashes as assumed: a fresh log under one of them. */
  lemma GenuineExists(clock: int) returns (k: Crypto)
    ensures Genuine(k) && Inv(k, Fresh(clock))
  {
    k := Crypto(_ => seq(64, _ => '0'), t => AuditPayload.Decimal(t));
    forall a, b | k.iso(a) == k.iso(b) ensures a == b {
      AuditPayload.DecimalInjective(a, b);
    }
    forall t ensures AuditPayload.PipeFree(k.iso(t)) {
      AuditPayload.DecimalInjective(t, t);
    }
  }

  /** `before` is `gone` followed by `after`, the rows older than the cutoff and the others. */
  ghost predicate PurgedFrom(before: seq<Row>, gone: seq<Row>, after: seq<Row>, cutoff: int) {
    && before == gone + after
    && (forall r :: r in gone ==> r.timestamp < cutoff)
    && (forall r :: r in after ==> r.timestamp >= cutoff)
  }

  lemma {:induction false} PurgeIsExact(table: seq<Row>, cutoff: int)
    requires StrictlyOrdered(table)
    ensures PurgedFrom(table, Purged(table, cutoff), Kept(table, cutoff), cutoff)
  {
    PurgeSplits(table, cutoff);
    PurgeIsByAge(table, cutoff);
  }

  // ---- The server object ----

  class AuditMiddleware {
    const k: Crypto
    var table: seq<Row>
    var lastHash: string
    ghost var clock: int
    ghost var anchor: string

    ghost function Now(): State
      reads this
    {
      State(table, lastHash, Idle, clock, false, anchor)
    }

    ghost predicate Valid()
      reads this
    {
      Genuine(k) && Inv(k, Now())
    }

    /** `__init__` on the table a previous process left behind. */
    constructor (k: Crypto, stored: seq<Row>, ghost before: State)
      requires Genuine(k) && Inv(k, before) && stored == before.table
      ensures Valid() && this.k == k && Now() == Do(k, before, Restart)
    {
      this.k := k;
      table := stored;
      lastHash := LatestHash(stored);
      clock := before.clock;
      anchor := if before.table == [] then GENESIS else before.anchor;
      new;
      StepKeepsInv(k, before, Restart);
    }

    /** `_append_to_chain`. `dbUp` is whether the database takes the row, keys permitting. */
    method AppendToChain(req: Request, now: int, dbUp: bool) returns (stored: bool)
      requires Valid() && clock < now
      modifies this`table, this`lastHash, this`clock
      ensures Valid()
      ensures stored <==> dbUp && Insertable(old(table), MakeEntry(k, old(lastHash), req, now))
      ensures stored ==>
                && |table| == |old(table)| + 1 && table[..|old(table)|] == old(table)
                && Records(table[|old(table)|], req, now)
                && table[|old(table)|].prevHash == old(lastHash)
                && lastHash == table[|old(table)|].chainHash
      ensures !stored ==> table == old(table) && lastHash == old(lastHash)
      ensures var steps := AppendSteps(req, now, stored);
              IsRun(k, old(Now()), steps) && Now() == After(k, old(Now()), steps)
    {
      ghost var ok := dbUp && Insertable(table, MakeEntry(k, lastHash, req, now));
      ghost var steps := AppendSteps(req, now, ok);
      if ok {
        assert steps == [Stamp(req, now), Write, Advance];
        AppendRun(k, Now(), req, now);
      } else {
        assert steps == [Stamp(req, now), WriteFails];
        DropRun(k, Now(), req, now);
      }
      RunKeepsInv(k, Now(), steps);
      ghost var next := After(k, Now(), steps);
      var prevHash := lastHash;
      var entry := MakeEntry(k, prevHash, req, now);
      clock := now;
      stored := WriteSync(entry, dbUp);
      if stored {
        lastHash := entry.chainHash;
      }
      assert Now() == next;
    }

    method WriteSync(entry: Row, dbUp: bool) returns (ok: bool)
      modifies this`table
      ensures ok <==>
              dbUp && forall r :: r in old(table) ==> r.extra.id != entry.extra.id && r.chainHash != entry.chainHash
      ensures table == if ok then old(table) + [entry] else old(table)
    {
      ok := dbUp && Insertable(table, entry);
      if ok {
        table := table + [entry];
      }
    }

    /** `verify_chain` on any result the database may give for ORDER BY timestamp. */
    method Verify(sel: seq<Row>) returns (res: VerifyResult)
      requires Valid() && IsOrdering(sel, table)
      ensures res.ok <==> (table != [] ==> table[0].prevHash == "GENESIS")
      ensures res.ok ==> res.entriesChecked == |table|
      ensures !res.ok ==> res.entriesChecked == 1 && res.firstBrokenAt == table[0].extra.id
    {
      OrderingUnique(sel, table);
      VerifyOkIff(k, Now());
      res := VerifyChain(k, sel);
      if !res.ok {
        assert LinkAt(k, anchor, table, 0);
        ghost var before := table[..res.entriesChecked - 1];
        assert before != [] ==> LinkAt(k, GENESIS, before, 0);
      }
    }

    /** The log loses its rows older than the cutoff, which come first, and no other. */
    method PurgeOldEntries(cutoff: int) returns (deleted: nat, ghost gone: seq<Row>)
      requires Valid()
      modifies this`table, this`anchor
      ensures Valid() && Now() == Do(k, old(Now()), Purge(cutoff)) && lastHash == old(lastHash)
      ensures PurgedFrom(old(table), gone, table, cutoff) && deleted == |gone|
    {
      ghost var next := Do(k, Now(), Purge(cutoff));
      PurgeKeepsInv(k, Now(), cutoff);
      PurgeIsExact(table, cutoff);
      gone := Purged(table, cutoff);
      deleted := |Purged(table, cutoff)|;
      anchor := Tip(anchor, gone);
      table := Kept(table, cutoff);
      assert Now() == next;
    }

    method ResetChain() returns (total: nat)
      requires Valid()
      modifies this
      ensures Valid() && Now() == Do(k, Do(k, old(Now()), ResetDelete), ResetPointer)
      ensures table == [] && lastHash == "GENESIS"
      ensures total == |old(table)|
    {
      total := |table|;
      table, anchor := [], GENESIS;
      lastHash := GENESIS;
    }
  }
}
