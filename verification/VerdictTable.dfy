/** The shared-memory verdict cache of the web-server modules: a direct-mapped table keyed by
    an FNV-1a hash, against the history of stores. */
module VerdictTable {
  import opened Bytes

  /** A NUL-terminated string, without its NUL. */
  type cstring = seq<bv8>

  const BUCKETS: nat := 65536
  const TTL: int := 60
  const IP_BYTES: nat := 45

  /** Feeds the bytes of s to f, first byte first. */
  function Fold(f: (bv32, bv8) -> bv32, h: bv32, s: cstring): bv32
    decreases |s|
  {
    if s == [] then h else Fold(f, f(h, s[0]), s[1..])
  }

  function FnvStep(h: bv32, c: bv8): bv32 {
    (h ^ (c as bv32)) * 0x01000193
  }

  function Fnv(ip: cstring): bv32 {
    Fold(FnvStep, 0x811c9dc5, ip)
  }

  function Index(ip: cstring): (i: nat)
    ensures i < BUCKETS
  {
    (Fnv(ip) & 0xffff) as nat
  }

  /** Published values of the hash for "", "a" and "foobar". */
  lemma {:induction false} FnvVectors()
    ensures Fnv([]) == 0x811c9dc5
    ensures Fnv([0x61]) == 0xe40c292c
    ensures Fnv([0x66, 0x6f, 0x6f, 0x62, 0x61, 0x72]) == 0xbf9cf968
  {
    FnvSplit([0x66, 0x6f, 0x6f, 0x62, 0x61, 0x72]);
    assert FnvStep(0x811c9dc5, 0x61) == 0xe40c292c;
    assert [0x61 as bv8][1..] == [];
    assert Fold(FnvStep, 0xe40c292c, []) == 0xe40c292c;
  }

  /** Six bytes, one by one. */
  lemma {:induction false} FnvSplit(s: cstring)
    requires |s| == 6
    ensures Fnv(s) ==
            FnvStep(FnvStep(FnvStep(FnvStep(FnvStep(FnvStep(0x811c9dc5, s[0]), s[1]), s[2]), s[3]), s[4]), s[5])
  {
    var h1 := FnvStep(0x811c9dc5, s[0]);
    var h2 := FnvStep(h1, s[1]);
    var h3 := FnvStep(h2, s[2]);
    var h4 := FnvStep(h3, s[3]);
    var h5 := FnvStep(h4, s[4]);
    var h6 := FnvStep(h5, s[5]);
    assert s[1..][1..] == s[2..] && s[2..][1..] == s[3..] && s[3..][1..] == s[4..] && s[4..][1..] == s[5..];
    assert s[5..][1..] == [];
    assert Fold(FnvStep, h6, []) == h6;
    assert Fold(FnvStep, h5, s[5..]) == h6;
    assert Fold(FnvStep, h4, s[4..]) == h6;
    assert Fold(FnvStep, h3, s[3..]) == h6;
    assert Fold(FnvStep, h2, s[2..]) == h6;
    assert Fold(FnvStep, h1, s[1..]) == h6;
  }

  lemma MaskIsRemainder(h: bv32)
    ensures (h & 0xffff) == h % 0x10000
  {
  }

  /** `aiss_fnv1a`'s loop, for any mixing step. */
  method FoldLoop(f: (bv32, bv8) -> bv32, start: bv32, ip: cstring) returns (h: bv32)
    ensures h == Fold(f, start, ip)
  {
    h := start;
    var rest := ip;
    while rest != []
      invariant Fold(f, h, rest) == Fold(f, start, ip)
      decreases |rest|
    {
      h := f(h, rest[0]);
      rest := rest[1..];
    }
  }

  method AissFnv1a(ip: cstring) returns (h: bv32)
    ensures h == Fnv(ip)
  {
    h := FoldLoop(FnvStep, 0x811c9dc5, ip);
  }

  // ---- The table ----

  datatype Entry = Entry(ip: cstring, verdict: int, expiresAt: int)

  /** One call of the store routine. */
  datatype Store = Store(ip: cstring, block: bool, now: int)

  /** All calls so far, the latest outermost. */
  datatype History = Zeroed | Then(before: History, last: Store)

  /** What fits the entry's text field. */
  function Clip(ip: cstring): cstring {
    if |ip| <= IP_BYTES then ip else ip[..IP_BYTES]
  }

  function EntryOf(s: Store): Entry {
    Entry(Clip(s.ip), if s.block then 1 else 0, s.now + TTL)
  }

  /** The bucket number of an address. */
  type Hash = cstring -> nat

  ghost predicate InRange(hash: Hash) {
    forall ip :: hash(ip) < BUCKETS
  }

  /** The last store whose address hashes to bucket i. */
  ghost function LastIn(hash: Hash, h: History, i: nat): Option<Store> {
    match h
    case Zeroed => None
    case Then(b, s) => if hash(s.ip) == i then Some(s) else LastIn(hash, b, i)
  }

  ghost function Bucket(hash: Hash, h: History, i: nat): Entry {
    match LastIn(hash, h, i) case None => Entry([], 0, 0) case Some(s) => EntryOf(s)
  }

  /** A store is live for 60 seconds; the instant -60 would write the empty-slot marker. */
  predicate Live(s: Store, now: int) {
    now < s.now + TTL && s.now + TTL != 0
  }

  /** The last store in the address's bucket is a live PERMIT whose stored text agrees. */
  ghost predicate Hit(hash: Hash, h: History, ip: cstring, now: int) {
    LastIn(hash, h, hash(ip)).Some? &&
    var s := LastIn(hash, h, hash(ip)).value;
    Clip(s.ip) == Clip(ip) && !s.block && Live(s, now)
  }

  /** A segment's entries are what a history of stores leaves. */
  ghost predicate LeftBy(hash: Hash, h: History, entries: seq<Entry>) {
    |entries| == BUCKETS && forall i :: 0 <= i < BUCKETS ==> entries[i] == Bucket(hash, h, i)
  }

  /** A segment the kernel has just created. */
  lemma NewSegment(entries: seq<Entry>)
    requires |entries| == BUCKETS && forall i :: 0 <= i < BUCKETS ==> entries[i] == Entry([], 0, 0)
    ensures LeftBy(Index, Zeroed, entries)
  {
  }

  class VerdictCache {
    const hash: Hash
    var shm: array?<Entry>
    ghost var history: History

    ghost predicate Valid()
      reads this, shm
    {
      && InRange(hash)
      && (shm != null ==> LeftBy(hash, history, shm[..]))
    }

    /** `aiss_shm_init`: opening does not clear the segment, so a process goes on with whatever
        others have stored; mapping it may fail, and the modules then run without it. */
    constructor (segment: array?<Entry>, ghost earlier: History)
      requires segment != null ==> LeftBy(Index, earlier, segment[..])
      ensures Valid() && hash == Index && history == earlier && shm == segment
    {
      hash, history, shm := Index, earlier, segment;
    }

    method Check(ip: cstring, now: int) returns (hit: bool)
      requires Valid()
      ensures hit <==> shm != null && Hit(hash, history, ip, now)
    {
      if shm == null {
        return false;
      }
      var e := shm[hash(ip)];
      if e.expiresAt == 0 {
        return false;
      }
      if now >= e.expiresAt {
        return false;
      }
      if Clip(e.ip) != Clip(ip) {
        return false;
      }
      return e.verdict == 0;
    }

    method StoreVerdict(ip: cstring, block: bool, now: int)
      requires Valid()
      modifies this`history, shm
      ensures Valid()
      ensures history == Then(old(history), Store(ip, block, now))
    {
      history := Then(history, Store(ip, block, now));
      if shm == null {
        return;
      }
      shm[hash(ip)] := Entry(Clip(ip), if block then 1 else 0, now + TTL);
    }
  }

  // ---- Against a map keyed by address ----

  /** The last store for exactly this address. */
  ghost function LastFor(h: History, ip: cstring): Option<Store> {
    match h
    case Zeroed => None
    case Then(b, s) => if s.ip == ip then Some(s) else LastFor(b, ip)
  }

  /** Some other address took the bucket after the last store for ip. */
  ghost predicate Evicted(hash: Hash, h: History, ip: cstring) {
    match h
    case Zeroed => false
    case Then(b, s) => if s.ip == ip then false else hash(s.ip) == hash(ip) || Evicted(hash, b, ip)
  }

  /** Every stored address fits the entry's text field. */
  ghost predicate AllFit(h: History) {
    h.Then? ==> |h.last.ip| <= IP_BYTES && AllFit(h.before)
  }

  lemma {:induction false} LastInIsLastFor(hash: Hash, h: History, ip: cstring)
    ensures !Evicted(hash, h, ip) ==> LastIn(hash, h, hash(ip)) == LastFor(h, ip)
    ensures Evicted(hash, h, ip) ==> LastIn(hash, h, hash(ip)).Some? && LastIn(hash, h, hash(ip)).value.ip != ip
    ensures LastFor(h, ip).Some? ==> LastFor(h, ip).value.ip == ip
  {
    if h.Then? { LastInIsLastFor(hash, h.before, ip); }
  }

  lemma {:induction false} LastInFits(hash: Hash, h: History, i: nat)
    requires AllFit(h)
    ensures LastIn(hash, h, i).Some? ==> |LastIn(hash, h, i).value.ip| <= IP_BYTES
  {
    if h.Then? { LastInFits(hash, h.before, i); }
  }

  /** The table answers like a map from addresses to verdicts that forgets on a collision: a
      hit is exactly a live PERMIT as the latest verdict for this very address, not evicted. */
  lemma {:induction false} HitIff(hash: Hash, h: History, ip: cstring, now: int)
    requires |ip| <= 45 && AllFit(h)
    ensures Hit(hash, h, ip, now) <==>
            && !Evicted(hash, h, ip) && LastFor(h, ip).Some?
            && !LastFor(h, ip).value.block
            && now < LastFor(h, ip).value.now + 60 && LastFor(h, ip).value.now != -60
  {
    LastInIsLastFor(hash, h, ip);
    LastInFits(hash, h, hash(ip));
  }
}
