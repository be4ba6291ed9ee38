/** The hash chain stored in `audit_logs`: what a verified chain is, the loop that checks it,
    and what an accepted chain proves about the log. */
module AuditChain {
  import opened AuditPayload

  const GENESIS: string := "GENESIS"

  /** The keyed hash under the server's secret, and the text form of a timestamp. */
  datatype Crypto = Crypto(seal: string -> string, iso: int -> string)

  /** HMAC-SHA256 as 64 hex digits; ISO-8601 text is pipe-free and loses nothing.
      The seal is NOT assumed injective. */
  ghost predicate Genuine(k: Crypto) {
    && (forall p :: |k.seal(p)| == 64 && PipeFree(k.seal(p)))
    && (forall t :: PipeFree(k.iso(t)))
    && (forall t, u :: k.iso(t) == k.iso(u) ==> t == u)
  }

  /** Columns of a row that the seal does not cover. */
  datatype Extra = Extra(id: string, clientIp: string, query: string, elapsedMs: real, userAgent: string)

  datatype Row = Row(
    extra: Extra, timestamp: int, actor: string, verb: string, path: string, status: int,
    prevHash: string, chainHash: string)

  function Fields(k: Crypto, r: Row): Sealed {
    Sealed(r.prevHash, k.iso(r.timestamp), r.actor, r.verb, r.path, r.status)
  }

  function ChainHash(k: Crypto, r: Row): string {
    k.seal(Payload(Fields(k, r)))
  }

  /** The pointer a chain leaves behind. */
  function Tip(start: string, rows: seq<Row>): string {
    if rows == [] then start else rows[|rows| - 1].chainHash
  }

  predicate Accepted(k: Crypto, pointer: string, r: Row) {
    r.chainHash == ChainHash(k, r) && r.prevHash == pointer
  }

  /** Row i is sealed correctly and points at the row before it, the first one at `start`. */
  predicate LinkAt(k: Crypto, start: string, rows: seq<Row>, i: nat)
    requires i < |rows|
  {
    Accepted(k, if i == 0 then start else rows[i - 1].chainHash, rows[i])
  }

  ghost predicate Linked(k: Crypto, start: string, rows: seq<Row>) {
    forall i: nat :: i < |rows| ==> LinkAt(k, start, rows, i)
  }

  // ---- GET /v1/audit/verify ----

  datatype VerifyResult = VerifyResult(ok: bool, entriesChecked: nat, firstBrokenAt: string)

  method VerifyChain(k: Crypto, rows: seq<Row>) returns (res: VerifyResult)
    ensures res.ok <==> Linked(k, GENESIS, rows)
    ensures res.ok ==> res.entriesChecked == |rows| && res.firstBrokenAt == ""
    ensures !res.ok ==>
      && 1 <= res.entriesChecked <= |rows|
      && Linked(k, GENESIS, rows[..res.entriesChecked - 1])
      && !Accepted(k, Tip(GENESIS, rows[..res.entriesChecked - 1]), rows[res.entriesChecked - 1])
      && res.firstBrokenAt == rows[res.entriesChecked - 1].extra.id
  {
    var prevHash := GENESIS;
    var i := 0;
    while i < |rows|
      invariant 0 <= i <= |rows|
      invariant prevHash == Tip(GENESIS, rows[..i])
      invariant Linked(k, GENESIS, rows[..i])
    {
      var row := rows[i];
      var expected := ChainHash(k, row);
      if row.chainHash != expected || row.prevHash != prevHash {
        assert !LinkAt(k, GENESIS, rows, i);
        return VerifyResult(false, i + 1, row.extra.id);
      }
      LinkedExtend(k, GENESIS, rows[..i], row);
      assert rows[..i + 1] == rows[..i] + [row];
      prevHash := row.chainHash;
      i := i + 1;
    }
    assert rows[..|rows|] == rows;
    return VerifyResult(true, |rows|, "");
  }

  lemma LinkedExtend(k: Crypto, start: string, rows: seq<Row>, r: Row)
    ensures Linked(k, start, rows + [r]) <==> Linked(k, start, rows) && Accepted(k, Tip(start, rows), r)
  {
    var all := rows + [r];
    forall i: nat | i < |rows| ensures LinkAt(k, start, all, i) <==> LinkAt(k, start, rows, i) {}
    assert LinkAt(k, start, all, |rows|) <==> Accepted(k, Tip(start, rows), r);
    if Linked(k, start, all) {
      forall i: nat | i < |rows| ensures LinkAt(k, start, rows, i) {
        assert LinkAt(k, start, all, i);
      }
    }
  }

  /** Cutting a chain anywhere leaves two chains: the second starts at the first one's tip. */
  lemma LinkedSplit(k: Crypto, start: string, a: seq<Row>, b: seq<Row>)
    ensures Linked(k, start, a + b) <==> Linked(k, start, a) && Linked(k, Tip(start, a), b)
  {
    var all, mid := a + b, Tip(start, a);
    forall i: nat | i < |a| ensures LinkAt(k, start, all, i) <==> LinkAt(k, start, a, i) {}
    forall i: nat | i < |b| ensures LinkAt(k, start, all, |a| + i) <==> LinkAt(k, mid, b, i) {}
    if Linked(k, start, a) && Linked(k, mid, b) {
      forall i: nat | i < |all| ensures LinkAt(k, start, all, i) {
        if i < |a| {
          assert LinkAt(k, start, a, i);
        } else {
          assert LinkAt(k, mid, b, i - |a|);
        }
      }
    }
    if Linked(k, start, all) {
      forall i: nat | i < |a| ensures LinkAt(k, start, a, i) {
        assert LinkAt(k, start, all, i);
      }
      forall i: nat | i < |b| ensures LinkAt(k, mid, b, i) {
        assert LinkAt(k, start, all, |a| + i);
      }
    }
  }

  // ---- Integrity ----

  /** Two different sealed texts, one in each log, with the same seal. */
  ghost predicate Collision(k: Crypto, a: seq<Row>, b: seq<Row>) {
    exists i, j :: 0 <= i < |a| && 0 <= j < |b| && Clash(k, a[i], b[j])
  }

  predicate Clash(k: Crypto, r: Row, s: Row) {
    Payload(Fields(k, r)) != Payload(Fields(k, s)) && ChainHash(k, r) == ChainHash(k, s)
  }

  /** Equal in everything the seal covers, and in the seal. */
  predicate SameSealed(r: Row, s: Row) {
    r == s.(extra := r.extra)
  }

  ghost predicate SameHistory(a: seq<Row>, b: seq<Row>) {
    |a| == |b| && forall i :: 0 <= i < |a| ==> SameSealed(a[i], b[i])
  }

  ghost predicate HonestClients(k: Crypto, rows: seq<Row>) {
    forall r :: r in rows ==> ClientPartsPipeFree(Fields(k, r))
  }

  lemma TipPipeFree(k: Crypto, rows: seq<Row>)
    requires Genuine(k) && Linked(k, GENESIS, rows)
    ensures PipeFree(Tip(GENESIS, rows))
    ensures rows != [] <==> |Tip(GENESIS, rows)| == 64
    ensures forall r :: r in rows ==> ServerPartsPipeFree(Fields(k, r)) && |r.chainHash| == 64
  {
    forall i | 0 <= i < |rows|
      ensures PipeFree(rows[i].chainHash) && |rows[i].chainHash| == 64
      ensures ServerPartsPipeFree(Fields(k, rows[i]))
    {
      assert LinkAt(k, GENESIS, rows, i);
      if i > 0 {
        assert LinkAt(k, GENESIS, rows, i - 1);
      }
    }
  }

  /** One step back: equal tips of two non-empty chains are two rows that agree, or a clash. */
  lemma LastRowsAgree(k: Crypto, a: seq<Row>, r: Row, b: seq<Row>, s: Row)
    requires Genuine(k)
    requires Linked(k, GENESIS, a + [r]) && Linked(k, GENESIS, b + [s])
    requires ClientPartsPipeFree(Fields(k, r))
    requires r.chainHash == s.chainHash && !Clash(k, r, s)
    ensures SameSealed(r, s) && Tip(GENESIS, a) == Tip(GENESIS, b)
    ensures Linked(k, GENESIS, a) && Linked(k, GENESIS, b)
  {
    TipPipeFree(k, a + [r]);
    TipPipeFree(k, b + [s]);
    assert r in a + [r] && s in b + [s];
    LinkedExtend(k, GENESIS, a, r);
    LinkedExtend(k, GENESIS, b, s);
    PayloadDetermines(Fields(k, r), Fields(k, s));
  }

  lemma SameHistoryExtend(a: seq<Row>, r: Row, b: seq<Row>, s: Row)
    requires SameHistory(a, b) && SameSealed(r, s)
    ensures SameHistory(a + [r], b + [s])
  {
  }

  lemma CollisionExtend(k: Crypto, a: seq<Row>, r: Row, b: seq<Row>, s: Row)
    requires Collision(k, a, b) || Clash(k, r, s)
    ensures Collision(k, a + [r], b + [s])
  {
    var a', b' := a + [r], b + [s];
    if Clash(k, r, s) {
      assert Clash(k, a'[|a|], b'[|b|]);
    } else {
      var i, j :| 0 <= i < |a| && 0 <= j < |b| && Clash(k, a[i], b[j]);
      assert Clash(k, a'[i], b'[j]);
    }
  }

  /** Two logs that both verify and end in the same chain hash are the same history, or they
      exhibit a collision of the keyed hash. Only one of them needs pipe-free clients: the
      other is whatever an attacker wrote. */
  lemma {:induction false} Integrity(k: Crypto, a: seq<Row>, b: seq<Row>)
    requires Genuine(k)
    requires Linked(k, GENESIS, a) && Linked(k, GENESIS, b)
    requires HonestClients(k, a)
    requires Tip(GENESIS, a) == Tip(GENESIS, b)
    ensures SameHistory(a, b) || Collision(k, a, b)
    decreases |a|
  {
    TipPipeFree(k, a);
    TipPipeFree(k, b);
    if a != [] {
      var a', r := a[..|a| - 1], a[|a| - 1];
      var b', s := b[..|b| - 1], b[|b| - 1];
      assert a == a' + [r] && b == b' + [s];
      if Clash(k, r, s) {
        CollisionExtend(k, a', r, b', s);
      } else {
        assert r in a;
        LastRowsAgree(k, a', r, b', s);
        Integrity(k, a', b');
        if SameHistory(a', b') {
          SameHistoryExtend(a', r, b', s);
        } else {
          CollisionExtend(k, a', r, b', s);
        }
      }
    }
  }

  lemma ResealedStaysLinked(k: Crypto, start: string, a: seq<Row>, b: seq<Row>)
    requires SameHistory(a, b) && Linked(k, start, a)
    ensures Linked(k, start, b)
  {
    forall i: nat | i < |b| ensures LinkAt(k, start, b, i) {
      assert LinkAt(k, start, a, i);
      assert SameSealed(a[i], b[i]);
      assert Fields(k, a[i]) == Fields(k, b[i]);
      if i > 0 {
        assert SameSealed(a[i - 1], b[i - 1]);
      }
    }
  }

  /** The limit of the above: the columns the seal leaves out can be rewritten at will. */
  lemma UnsealedColumnsInvisible(k: Crypto, start: string, a: seq<Row>, b: seq<Row>)
    requires SameHistory(a, b)
    ensures Linked(k, start, a) <==> Linked(k, start, b)
  {
    if Linked(k, start, a) {
      ResealedStaysLinked(k, start, a, b);
    }
    if Linked(k, start, b) {
      assert forall i :: 0 <= i < |b| ==> SameSealed(a[i], b[i]) && SameSealed(b[i], a[i]);
      ResealedStaysLinked(k, start, b, a);
    }
  }

  // ---- Gaps ----

  /** `chain_hash` is declared UNIQUE. */
  ghost predicate UniqueHashes(rows: seq<Row>) {
    forall i, j :: 0 <= i < j < |rows| ==> rows[i].chainHash != rows[j].chainHash
  }

  ghost predicate Increasing(s: seq<int>, bound: nat) {
    && (forall i :: 0 <= i < |s| ==> 0 <= s[i] < bound)
    && (forall i, j :: 0 <= i < j < |s| ==> s[i] < s[j])
  }

  function Retained(rows: seq<Row>, kept: seq<int>): (sub: seq<Row>)
    requires forall i :: 0 <= i < |kept| ==> 0 <= kept[i] < |rows|
    ensures |sub| == |kept| && forall i :: 0 <= i < |kept| ==> sub[i] == rows[kept[i]]
  {
    seq(|kept|, i requires 0 <= i < |kept| => rows[kept[i]])
  }

  ghost predicate IsPrefixSelection(kept: seq<int>) {
    forall i :: 0 <= i < |kept| ==> kept[i] == i
  }

  lemma PrefixLinked(k: Crypto, start: string, rows: seq<Row>, m: nat)
    requires Linked(k, start, rows) && m <= |rows|
    ensures Linked(k, start, rows[..m])
  {
    forall i: nat | i < m ensures LinkAt(k, start, rows[..m], i) {
      assert LinkAt(k, start, rows, i);
    }
  }

  /** Deleting rows goes unnoticed exactly when only a tail was deleted. */
  lemma GapDetection(k: Crypto, rows: seq<Row>, kept: seq<int>)
    requires Genuine(k) && Linked(k, GENESIS, rows) && UniqueHashes(rows)
    requires Increasing(kept, |rows|)
    ensures Linked(k, GENESIS, Retained(rows, kept)) <==> IsPrefixSelection(kept)
  {
    if Linked(k, GENESIS, Retained(rows, kept)) {
      GapFree(k, rows, kept, |kept|);
    }
    if IsPrefixSelection(kept) {
      PrefixRetained(rows, kept);
      PrefixLinked(k, GENESIS, rows, |kept|);
    }
  }

  lemma PrefixRetained(rows: seq<Row>, kept: seq<int>)
    requires Increasing(kept, |rows|) && IsPrefixSelection(kept)
    ensures |kept| <= |rows| && Retained(rows, kept) == rows[..|kept|]
  {
    if kept != [] { assert kept[|kept| - 1] == |kept| - 1; }
  }

  lemma {:induction false} GapFree(k: Crypto, rows: seq<Row>, kept: seq<int>, n: nat)
    requires Genuine(k) && Linked(k, GENESIS, rows) && UniqueHashes(rows)
    requires Increasing(kept, |rows|) && n <= |kept|
    requires Linked(k, GENESIS, Retained(rows, kept))
    ensures forall i :: 0 <= i < n ==> kept[i] == i
  {
    if n > 0 {
      GapFree(k, rows, kept, n - 1);
      TipPipeFree(k, rows);
      var i := n - 1;
      var at := kept[i];
      assert LinkAt(k, GENESIS, Retained(rows, kept), i);
      assert LinkAt(k, GENESIS, rows, at);
      if at > 0 {
        assert rows[at - 1] in rows;
        assert i > 0 && kept[i - 1] == at - 1;
      }
    }
  }

  /** What a purge leaves: accepted from the last purged hash, refused from GENESIS. */
  lemma PurgedSuffix(k: Crypto, rows: seq<Row>, m: nat)
    requires Genuine(k) && Linked(k, GENESIS, rows) && m <= |rows|
    ensures Linked(k, Tip(GENESIS, rows[..m]), rows[m..])
    ensures Linked(k, GENESIS, rows[m..]) <==> m == 0 || m == |rows|
  {
    var kept, rest := rows[..m], rows[m..];
    assert rows == kept + rest;
    LinkedSplit(k, GENESIS, kept, rest);
    TipPipeFree(k, kept);
    if 0 < m < |rows| {
      assert LinkAt(k, Tip(GENESIS, kept), rest, 0);
      assert !LinkAt(k, GENESIS, rest, 0);
    }
  }

  // ---- ORDER BY timestamp ----

  ghost predicate StrictlyOrdered(rows: seq<Row>) {
    forall i, j :: 0 <= i < j < |rows| ==> rows[i].timestamp < rows[j].timestamp
  }

  /** A result the database may give for `SELECT ... ORDER BY timestamp ASC`: ties come in any order. */
  ghost predicate IsOrdering(sel: seq<Row>, table: seq<Row>) {
    && multiset(sel) == multiset(table)
    && forall i, j :: 0 <= i < j < |sel| ==> sel[i].timestamp <= sel[j].timestamp
  }

  /** The row a latest-first look at an ordered table finds. */
  lemma OrderingLast(sel: seq<Row>, table: seq<Row>)
    requires StrictlyOrdered(table) && IsOrdering(sel, table) && table != []
    ensures sel != [] && sel[|sel| - 1] == table[|table| - 1]
  {
    var r := table[|table| - 1];
    assert r in multiset(table);
    assert r in multiset(sel);
    var i :| 0 <= i < |sel| && sel[i] == r;
    var s := sel[|sel| - 1];
    assert s in multiset(sel);
    assert s in multiset(table);
    var j :| 0 <= j < |table| && table[j] == s;
  }

  lemma MultisetDropLast<T>(s: seq<T>, r: T)
    ensures multiset(s) == multiset(s + [r]) - multiset{r}
  {
  }

  lemma MultisetMiddle<T>(a: seq<T>, r: T, b: seq<T>)
    ensures multiset(a + [r] + b) == multiset(a + b + [r])
  {
  }

  lemma {:induction false} OrderingUnique(sel: seq<Row>, table: seq<Row>)
    requires StrictlyOrdered(table) && IsOrdering(sel, table)
    ensures sel == table
    decreases |table|
  {
    if table == [] {
      assert |sel| == |multiset(sel)|;
    } else {
      OrderingLast(sel, table);
      var sel', table', r := sel[..|sel| - 1], table[..|table| - 1], table[|table| - 1];
      assert sel == sel' + [r] && table == table' + [r];
      MultisetDropLast(sel', r);
      MultisetDropLast(table', r);
      OrderingUnique(sel', table');
    }
  }

  /** Where a late row lands: before the first row that is not earlier. */
  ghost function LandingPlace(table: seq<Row>, t: int): (m: nat)
    ensures m <= |table|
    ensures forall i :: 0 <= i < m ==> table[i].timestamp < t
    ensures m < |table| ==> t <= table[m].timestamp
  {
    if table == [] || t <= table[0].timestamp then 0 else 1 + LandingPlace(table[1..], t)
  }

  lemma LandingOrdered(table: seq<Row>, e: Row)
    requires StrictlyOrdered(table)
    ensures var m := LandingPlace(table, e.timestamp);
            IsOrdering(table[..m] + [e] + table[m..], table + [e])
  {
    var m := LandingPlace(table, e.timestamp);
    var a, b := table[..m], table[m..];
    assert table == a + b;
    MultisetMiddle(a, e, b);
    assert forall j :: 0 <= j < |b| ==> e.timestamp <= b[j].timestamp by {
      assert b != [] ==> b[0] == table[m];
      assert forall j :: 0 <= j < |b| ==> b[j] == table[m + j];
    }
    OrderedInsert(a, e, b);
  }

  lemma OrderedInsert(a: seq<Row>, e: Row, b: seq<Row>)
    requires StrictlyOrdered(a + b)
    requires forall i :: 0 <= i < |a| ==> a[i].timestamp <= e.timestamp
    requires forall j :: 0 <= j < |b| ==> e.timestamp <= b[j].timestamp
    ensures forall i, j :: 0 <= i < j < |a| + 1 + |b| ==>
              (a + [e] + b)[i].timestamp <= (a + [e] + b)[j].timestamp
  {
    var all, s := a + b, a + [e] + b;
    forall i, j | 0 <= i < j < |s| ensures s[i].timestamp <= s[j].timestamp {
      if i < |a| && j > |a| {
        assert s[i] == all[i] && s[j] == all[j - 1];
      } else if j < |a| {
        assert s[i] == all[i] && s[j] == all[j];
      } else if i > |a| {
        assert s[i] == all[i - 1] && s[j] == all[j - 1];
      }
    }
  }

  /** A row that points at the last row is not linked anywhere before it. */
  lemma LateRowUnlinked(k: Crypto, table: seq<Row>, e: Row, m: nat)
    requires Genuine(k) && Linked(k, GENESIS, table) && UniqueHashes(table)
    requires m < |table| && Accepted(k, Tip(GENESIS, table), e)
    ensures !LinkAt(k, GENESIS, table[..m] + [e] + table[m..], m)
  {
    TipPipeFree(k, table);
    var sel, n := table[..m] + [e] + table[m..], |table| - 1;
    assert sel[m] == e && table[n] in table;
    if m > 0 { assert sel[m - 1] == table[m - 1]; }
  }

  lemma LateRowBreaks(k: Crypto, table: seq<Row>, e: Row)
    requires Genuine(k) && Linked(k, GENESIS, table) && StrictlyOrdered(table) && table != []
    requires UniqueHashes(table)
    requires Accepted(k, Tip(GENESIS, table), e)
    requires e.timestamp <= table[|table| - 1].timestamp
    ensures exists sel :: IsOrdering(sel, table + [e]) && !Linked(k, GENESIS, sel)
  {
    var m := LandingPlace(table, e.timestamp);
    LandingOrdered(table, e);
    LateRowUnlinked(k, table, e, m);
    var sel := table[..m] + [e] + table[m..];
    assert IsOrdering(sel, table + [e]) && !Linked(k, GENESIS, sel);
  }

  /** The appended row keeps the log verifiable under every answer the database may give to
      ORDER BY timestamp exactly when its timestamp is strictly later than the last one. A
      clock that merely does not go backwards is not enough. */
  lemma AppendOrderIff(k: Crypto, table: seq<Row>, e: Row)
    requires Genuine(k) && Linked(k, GENESIS, table) && StrictlyOrdered(table) && table != []
    requires UniqueHashes(table)
    requires Accepted(k, Tip(GENESIS, table), e)
    ensures (forall sel :: IsOrdering(sel, table + [e]) ==> Linked(k, GENESIS, sel))
            <==> table[|table| - 1].timestamp < e.timestamp
  {
    var n := |table| - 1;
    if table[n].timestamp < e.timestamp {
      assert StrictlyOrdered(table + [e]);
      LinkedExtend(k, GENESIS, table, e);
      forall sel | IsOrdering(sel, table + [e]) ensures Linked(k, GENESIS, sel) {
        OrderingUnique(sel, table + [e]);
      }
    } else {
      LateRowBreaks(k, table, e);
    }
  }
}
