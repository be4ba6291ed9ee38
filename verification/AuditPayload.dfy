/** The text that the audit seal covers: `prev|timestamp|actor|method|path|status`, and
    when that text determines the fields it was made from. */
module AuditPayload {
  import opened Text

  const PIPE: char := '|'

  ghost predicate PipeFree(s: string) {
    PIPE !in s
  }

  // ---- Decimal rendering of the status code (`str(int)`) ----

  function Decimal(n: int): string {
    if n < 0 then "-" + Digits(-n) else Digits(n)
  }

  /** `str(int)` loses nothing and never contains a pipe. */
  lemma DecimalInjective(n: int, m: int)
    ensures PipeFree(Decimal(n))
    ensures Decimal(n) == Decimal(m) ==> n == m
  {
    DigitsRoundTrip(if n < 0 then -n else n);
    DigitsRoundTrip(if m < 0 then -m else m);
    var dn, dm := Digits(if n < 0 then -n else n), Digits(if m < 0 then -m else m);
    assert dn[0] in dn && dm[0] in dm;
    assert n < 0 ==> Decimal(n)[1..] == dn;
    assert m < 0 ==> Decimal(m)[1..] == dm;
  }

  // ---- Splitting at a pipe ----

  ghost function Pipes(s: string): nat {
    if s == [] then 0 else (if s[0] == PIPE then 1 else 0) + Pipes(s[1..])
  }

  lemma {:induction false} PipesConcat(a: string, b: string)
    ensures Pipes(a + b) == Pipes(a) + Pipes(b)
  {
    if a == [] {
      assert a + b == b;
    } else {
      PipesConcat(a[1..], b);
      assert (a + b)[1..] == a[1..] + b;
    }
  }

  lemma {:induction false} PipesZero(s: string)
    ensures Pipes(s) == 0 <==> PipeFree(s)
  {
    if s != [] {
      PipesZero(s[1..]);
      assert s == [s[0]] + s[1..];
    }
  }

  lemma SplitAtPipe(a: string, x: string, b: string, y: string)
    requires PipeFree(a) && PipeFree(b)
    requires a + [PIPE] + x == b + [PIPE] + y
    ensures a == b && x == y
  {
    var s, t := a + [PIPE] + x, b + [PIPE] + y;
    assert s[|a|] == PIPE && t[|b|] == PIPE;
    assert forall i :: 0 <= i < |a| ==> s[i] == a[i];
    assert forall i :: 0 <= i < |b| ==> t[i] == b[i];
    assert |a| == |b|;
    assert s[..|a|] == a && t[..|b|] == b;
    assert s[|a| + 1..] == x && t[|b| + 1..] == y;
  }

  // ---- The payload ----

  /** The six fields the seal covers, in the order the payload lists them. */
  datatype Sealed = Sealed(prev: string, time: string, actor: string, verb: string, path: string, status: int)

  /** actor|method|path|status, the part of the payload that request data fills. */
  function RequestText(f: Sealed): string {
    f.actor + [PIPE] + (f.verb + [PIPE] + (f.path + [PIPE] + Decimal(f.status)))
  }

  function Payload(f: Sealed): string {
    f.prev + [PIPE] + (f.time + [PIPE] + RequestText(f))
  }

  /** One payload in full. */
  lemma {:induction false} PayloadLooksLike()
    ensures Payload(Sealed("GENESIS", "T1", "alice", "GET", "/v1/agents", 200))
            == "GENESIS|T1|alice|GET|/v1/agents|200"
  {
    TwoHundred();
    var status: string := "200";
    assert RequestText(Sealed("GENESIS", "T1", "alice", "GET", "/v1/agents", 200)) ==
           "alice" + [PIPE] + ("GET" + [PIPE] + ("/v1/agents" + [PIPE] + status));
  }

  lemma {:induction false} TwoHundred()
    ensures Decimal(200) == "200"
  {
    assert Digits(20) == Digits(2) + [Digit(0)] == "20";
    assert Digits(200) == Digits(20) + [Digit(0)] == "200";
  }

  /** What the server itself puts into a payload: never a pipe. */
  ghost predicate ServerPartsPipeFree(f: Sealed) {
    PipeFree(f.prev) && PipeFree(f.time)
  }

  /** What a client can put into a payload. */
  ghost predicate ClientPartsPipeFree(f: Sealed) {
    PipeFree(f.actor) && PipeFree(f.verb) && PipeFree(f.path)
  }

  lemma PipesJoin(a: string, b: string)
    ensures Pipes(a + [PIPE] + b) == Pipes(a) + 1 + Pipes(b)
  {
    PipesConcat(a + [PIPE], b);
    PipesConcat(a, [PIPE]);
  }

  lemma RequestTextPipes(f: Sealed)
    ensures Pipes(RequestText(f)) == 3 + Pipes(f.actor) + Pipes(f.verb) + Pipes(f.path)
  {
    var d := Decimal(f.status);
    DecimalInjective(f.status, f.status);
    PipesZero(d);
    PipesJoin(f.path, d);
    PipesJoin(f.verb, f.path + [PIPE] + d);
    PipesJoin(f.actor, f.verb + [PIPE] + (f.path + [PIPE] + d));
  }

  /** One pipe-free side is enough: the other side may hold any client text at all. */
  lemma PayloadDetermines(f: Sealed, g: Sealed)
    requires ServerPartsPipeFree(f) && ServerPartsPipeFree(g)
    requires ClientPartsPipeFree(f)
    requires Payload(f) == Payload(g)
    ensures f == g
  {
    SplitAtPipe(f.prev, f.time + [PIPE] + RequestText(f), g.prev, g.time + [PIPE] + RequestText(g));
    SplitAtPipe(f.time, RequestText(f), g.time, RequestText(g));
    RequestTextPipes(f);
    RequestTextPipes(g);
    PipesZero(f.actor); PipesZero(f.verb); PipesZero(f.path);
    PipesZero(g.actor); PipesZero(g.verb); PipesZero(g.path);
    var tf := f.verb + [PIPE] + (f.path + [PIPE] + Decimal(f.status));
    var tg := g.verb + [PIPE] + (g.path + [PIPE] + Decimal(g.status));
    SplitAtPipe(f.actor, tf, g.actor, tg);
    SplitAtPipe(f.verb, f.path + [PIPE] + Decimal(f.status), g.verb, g.path + [PIPE] + Decimal(g.status));
    SplitAtPipe(f.path, Decimal(f.status), g.path, Decimal(g.status));
    DecimalInjective(f.status, g.status);
  }

  /** Index of the first pipe. */
  ghost function FirstPipe(s: string): (i: nat)
    requires !PipeFree(s)
    ensures i < |s| && s[i] == PIPE
  {
    var i: nat :| i < |s| && s[i] == PIPE; i
  }

  /** A different request whose payload is the same text, when some client field holds a pipe. */
  ghost function Twin(f: Sealed): (g: Sealed)
    requires !ClientPartsPipeFree(f)
    ensures g != f && g.prev == f.prev && g.time == f.time && g.status == f.status
  {
    if !PipeFree(f.actor) then
      var i := FirstPipe(f.actor);
      f.(actor := f.actor[..i], verb := f.actor[i + 1..], path := f.verb + [PIPE] + f.path)
    else if !PipeFree(f.verb) then
      var i := FirstPipe(f.verb);
      var g := f.(actor := f.actor + [PIPE] + f.verb[..i], verb := f.verb[i + 1..]);
      assert |g.actor| > |f.actor|;
      g
    else
      var i := FirstPipe(f.path);
      var g := f.(verb := f.verb + [PIPE] + f.path[..i], path := f.path[i + 1..]);
      assert |g.verb| > |f.verb|;
      g
  }

  lemma Rejoin(s: string, i: nat)
    requires i < |s| && s[i] == PIPE
    ensures s == s[..i] + [PIPE] + s[i + 1..]
  {
  }

  lemma JoinAssociates(a: string, b: string, c: string)
    ensures a + [PIPE] + (b + [PIPE] + c) == a + [PIPE] + b + [PIPE] + c
  {
  }

  lemma TwinCollides(f: Sealed)
    requires !ClientPartsPipeFree(f)
    ensures Payload(Twin(f)) == Payload(f)
  {
    var d, g := Decimal(f.status), Twin(f);
    if !PipeFree(f.actor) {
      Rejoin(f.actor, FirstPipe(f.actor));
      JoinAssociates(f.verb, f.path, d);
      JoinAssociates(g.actor, g.verb, g.path + [PIPE] + d);
    } else if !PipeFree(f.verb) {
      var i := FirstPipe(f.verb);
      Rejoin(f.verb, i);
      JoinAssociates(f.actor, f.verb[..i], f.verb[i + 1..] + [PIPE] + (f.path + [PIPE] + d));
      JoinAssociates(f.verb[..i], f.verb[i + 1..], f.path + [PIPE] + d);
    } else {
      var i := FirstPipe(f.path);
      Rejoin(f.path, i);
      JoinAssociates(f.verb, f.path[..i], f.path[i + 1..] + [PIPE] + d);
      JoinAssociates(f.path[..i], f.path[i + 1..], d);
    }
    assert RequestText(g) == RequestText(f);
  }

  /** Exactly when the sealed text identifies the request: no client field holds a pipe. */
  lemma PayloadUniqueIff(f: Sealed)
    requires ServerPartsPipeFree(f)
    ensures (forall g :: ServerPartsPipeFree(g) && Payload(g) == Payload(f) ==> g == f) <==> ClientPartsPipeFree(f)
  {
    if ClientPartsPipeFree(f) {
      forall g | ServerPartsPipeFree(g) && Payload(g) == Payload(f) ensures g == f {
        PayloadDetermines(f, g);
      }
    } else {
      TwinCollides(f);
      assert Twin(f) != f;
    }
  }
}
