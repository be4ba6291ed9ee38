/** The audit log as a running system: appends that interleave with resets, purges, failed
    writes and restarts, at the granularity of the two locks. */
module AuditRun {
  import opened AuditChain

  datatype Request = Request(extra: Extra, actor: string, verb: string, path: string, status: int)

  /** Where the append that holds the chain lock is. */
  datatype Phase = Idle | Stamped(entry: Row) | Written(entry: Row)

  /** `resetting`: a reset has deleted the table, still holds the database lock and waits for
      the chain lock. `anchor` is bookkeeping, not server state: the hash that the oldest
      retained row was linked to. */
  datatype State = State(
    table: seq<Row>, lastHash: string, phase: Phase, clock: int, resetting: bool, anchor: string)

  datatype Step =
    | Stamp(req: Request, now: int)
    | Write
    | WriteFails
    | Advance
    | ResetDelete
    | ResetPointer
    | Restart
    | Purge(cutoff: int)

  /** Row r is the record of this request at this time. */
  predicate Records(r: Row, req: Request, now: int) {
    && r.timestamp == now && r.extra == req.extra
    && r.actor == req.actor && r.verb == req.verb && r.path == req.path && r.status == req.status
  }

  function MakeEntry(k: Crypto, prev: string, req: Request, now: int): (e: Row)
    ensures Accepted(k, prev, e) && Records(e, req, now)
  {
    var draft := Row(req.extra, now, req.actor, req.verb, req.path, req.status, prev, "");
    draft.(chainHash := ChainHash(k, draft))
  }

  /** The table's primary key and its UNIQUE column. */
  predicate Insertable(table: seq<Row>, e: Row) {
    forall r :: r in table ==> r.extra.id != e.extra.id && r.chainHash != e.chainHash
  }

  /** Rows a purge keeps, and rows it deletes. */
  function Kept(table: seq<Row>, cutoff: int): seq<Row> {
    if table == [] then []
    else (if table[0].timestamp < cutoff then [] else [table[0]]) + Kept(table[1..], cutoff)
  }

  function Purged(table: seq<Row>, cutoff: int): seq<Row> {
    if table == [] then []
    else (if table[0].timestamp < cutoff then [table[0]] else []) + Purged(table[1..], cutoff)
  }

  /** `SELECT chain_hash ... ORDER BY timestamp DESC LIMIT 1`, or GENESIS for an empty table. */
  function LatestHash(table: seq<Row>): string {
    if table == [] then GENESIS else Latest(table).chainHash
  }

  function Latest(table: seq<Row>): (r: Row)
    requires table != []
    ensures r in table && forall s :: s in table ==> s.timestamp <= r.timestamp
  {
    if |table| == 1 then table[0]
    else
      var r := Latest(table[1..]);
      if table[0].timestamp > r.timestamp then table[0] else r
  }

  predicate Enabled(s: State, step: Step) {
    match step
    case Stamp(_, now) => s.phase.Idle? && s.clock < now
    case Write => s.phase.Stamped? && !s.resetting && Insertable(s.table, s.phase.entry)
    case WriteFails => s.phase.Stamped? && !s.resetting
    case Advance => s.phase.Written?
    case ResetDelete => !s.resetting
    case ResetPointer => s.resetting && s.phase.Idle?
    case Restart => true
    case Purge(_) => !s.resetting
  }

  function Do(k: Crypto, s: State, step: Step): State
    requires Enabled(s, step)
  {
    match step
    case Stamp(req, now) => s.(phase := Stamped(MakeEntry(k, s.lastHash, req, now)), clock := now)
    case Write => s.(table := s.table + [s.phase.entry], phase := Written(s.phase.entry))
    case WriteFails => s.(phase := Idle)
    case Advance => s.(lastHash := s.phase.entry.chainHash, phase := Idle)
    case ResetDelete => s.(table := [], resetting := true, anchor := GENESIS)
    case ResetPointer => s.(lastHash := GENESIS, resetting := false)
    case Restart =>
      s.(lastHash := LatestHash(s.table), phase := Idle, resetting := false,
         anchor := if s.table == [] then GENESIS else s.anchor)
    case Purge(cutoff) =>
      s.(table := Kept(s.table, cutoff), anchor := Tip(s.anchor, Purged(s.table, cutoff)))
  }

  ghost predicate IsRun(k: Crypto, s: State, steps: seq<Step>)
    decreases |steps|
  {
    steps != [] ==> Enabled(s, steps[0]) && IsRun(k, Do(k, s, steps[0]), steps[1..])
  }

  ghost function After(k: Crypto, s: State, steps: seq<Step>): State
    requires IsRun(k, s, steps)
    decreases |steps|
  {
    if steps == [] then s else After(k, Do(k, s, steps[0]), steps[1..])
  }

  function Fresh(clock: int): State {
    State([], GENESIS, Idle, clock, false, GENESIS)
  }

  // ---- The invariant ----

  ghost predicate TableOk(k: Crypto, s: State) {
    && Linked(k, s.anchor, s.table)
    && StrictlyOrdered(s.table)
    && UniqueHashes(s.table)
    && (forall r :: r in s.table ==> r.timestamp <= s.clock)
    && (s.anchor == GENESIS || |s.anchor| == 64)
  }

  ghost predicate PointerOk(k: Crypto, s: State) {
    if s.resetting then s.table == [] && s.anchor == GENESIS
    else match s.phase
      case Idle => s.lastHash == Tip(s.anchor, s.table)
      case Stamped(e) =>
        && s.lastHash == Tip(s.anchor, s.table)
        && Accepted(k, s.lastHash, e)
        && e.timestamp <= s.clock
        && forall r :: r in s.table ==> r.timestamp < e.timestamp
      case Written(e) => e.chainHash == Tip(s.anchor, s.table)
  }

  ghost predicate Inv(k: Crypto, s: State) {
    TableOk(k, s) && PointerOk(k, s)
  }

  /** A purge is by age alone. */
  lemma {:induction false} PurgeIsByAge(table: seq<Row>, cutoff: int)
    ensures forall r :: r in Kept(table, cutoff) <==> r in table && r.timestamp >= cutoff
    ensures forall r :: r in Purged(table, cutoff) <==> r in table && r.timestamp < cutoff
  {
    if table != [] {
      assert table == [table[0]] + table[1..];
      PurgeIsByAge(table[1..], cutoff);
    }
  }

  lemma {:induction false} PurgeSpares(table: seq<Row>, cutoff: int)
    requires forall r :: r in table ==> cutoff <= r.timestamp
    ensures Purged(table, cutoff) == [] && Kept(table, cutoff) == table
  {
    if table != [] {
      assert table[0] in table && forall r :: r in table[1..] ==> r in table;
      PurgeSpares(table[1..], cutoff);
    }
  }

  lemma {:induction false} PurgeSplits(table: seq<Row>, cutoff: int)
    requires StrictlyOrdered(table)
    ensures table == Purged(table, cutoff) + Kept(table, cutoff)
  {
    if table != [] {
      var first, rest := table[0], table[1..];
      assert forall i :: 0 <= i < |rest| ==> rest[i] == table[i + 1];
      if first.timestamp < cutoff {
        PurgeSplits(rest, cutoff);
      } else {
        PurgeSpares(table, cutoff);
      }
    }
  }

  lemma {:induction false} LatestIsLast(table: seq<Row>)
    requires StrictlyOrdered(table)
    ensures LatestHash(table) == Tip(GENESIS, table)
  {
    if table != [] {
      var r := Latest(table);
      var i :| 0 <= i < |table| && table[i] == r;
      assert table[|table| - 1] in table;
    }
  }

  lemma {:induction false} TipLength(k: Crypto, start: string, rows: seq<Row>)
    requires Genuine(k) && Linked(k, start, rows)
    ensures rows != [] ==> |Tip(start, rows)| == 64
  {
    if rows != [] {
      assert LinkAt(k, start, rows, |rows| - 1);
    }
  }

  lemma {:induction false} SuffixOrdered(gone: seq<Row>, kept: seq<Row>)
    requires StrictlyOrdered(gone + kept) && UniqueHashes(gone + kept)
    ensures StrictlyOrdered(kept) && UniqueHashes(kept)
    ensures forall r :: r in kept ==> r in gone + kept
  {
    assert forall i :: 0 <= i < |kept| ==> kept[i] == (gone + kept)[|gone| + i];
  }

  /** Cutting the table anywhere, and the anchor with it. */
  lemma {:induction false} CutKeepsTable(k: Crypto, s: State, t: State, gone: seq<Row>, kept: seq<Row>)
    requires Genuine(k) && TableOk(k, s) && s.table == gone + kept
    requires t == s.(table := kept, anchor := Tip(s.anchor, gone))
    ensures TableOk(k, t) && Tip(t.anchor, t.table) == Tip(s.anchor, s.table)
  {
    LinkedSplit(k, s.anchor, gone, kept);
    SuffixOrdered(gone, kept);
    TipLength(k, s.anchor, gone);
    TipConcat(s.anchor, gone, kept);
  }

  lemma {:induction false} PurgeKeepsTable(k: Crypto, s: State, cutoff: int)
    requires Genuine(k) && TableOk(k, s) && !s.resetting
    ensures var t := Do(k, s, Purge(cutoff));
            && TableOk(k, t)
            && Tip(t.anchor, t.table) == Tip(s.anchor, s.table)
            && forall r :: r in t.table ==> r in s.table
  {
    PurgeSplits(s.table, cutoff);
    CutKeepsTable(k, s, Do(k, s, Purge(cutoff)), Purged(s.table, cutoff), Kept(s.table, cutoff));
  }

  lemma {:induction false} TipConcat(start: string, gone: seq<Row>, kept: seq<Row>)
    ensures Tip(Tip(start, gone), kept) == Tip(start, gone + kept)
  {
  }
}
