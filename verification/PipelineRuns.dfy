/** What the pipeline guarantees over sequences of requests. */
module PipelineRuns {
  import opened Bytes
  import opened Text
  import opened MagicBytes
  import opened Pipeline
  import opened Verdicts

  /** Requests in the order they are checked, the latest outermost. */
  datatype History = Start | Then(before: History, req: Request, now: int)

  /** The caches after a history, starting from given ones. */
  function CachesAt(cfg: Config, det: Detectors, c: Caches, h: History): Caches {
    match h
    case Start => c
    case Then(b, req, now) => CachesAfter(cfg, det, CachesAt(cfg, det, c, b), req, now)
  }

  // ---- Shadow and enforce in lockstep ----

  /** What an observer of shadow mode sees, against enforce mode. */
  ghost predicate Shadows(shadow: Response, enforce: Response) {
    && shadow.action == "PERMIT"
    && shadow.tier == enforce.tier && shadow.cveId == enforce.cveId
    && shadow.ruleName == enforce.ruleName && shadow.score == enforce.score
    && enforce.action in {"PERMIT", "BLOCK"}
    && shadow.reason ==
       (if enforce.action == "BLOCK" then "[SHADOW] Would block: " + enforce.reason else enforce.reason)
  }

  function InMode(cfg: Config, shadow: bool): Config {
    cfg.(shadow := shadow)
  }

  lemma {:induction false} InspectIgnoresMode(
      cfg: Config, det: Detectors, files: Files, targets: seq<bytes>, ct: string)
    ensures Inspect(InMode(cfg, true), det, files, targets, ct) == Inspect(InMode(cfg, false), det, files, targets, ct)
    decreases |targets|
  {
    if targets != [] {
      InspectIgnoresMode(cfg, det, files, targets[1..], ct);
      InspectIgnoresMode(cfg, det, Remember(cfg, files, det.sha(targets[0]), FileRow("CLEAN", "")), targets[1..], ct);
    }
  }

  lemma BodyIgnoresMode(cfg: Config, det: Detectors, files: Files, req: Request)
    ensures BodyFinding(InMode(cfg, true), det, files, req) == BodyFinding(InMode(cfg, false), det, files, req)
  {
    InspectIgnoresMode(cfg, det, files, TargetsOf(cfg, det, req), req.contentType);
  }

  lemma DecideFreshIgnoresMode(cfg: Config, det: Detectors, files: Files, req: Request)
    ensures DecideFresh(InMode(cfg, true), det, files, req) == DecideFresh(InMode(cfg, false), det, files, req)
  {
    BodyIgnoresMode(cfg, det, files, req);
  }

  lemma DecideIgnoresMode(cfg: Config, det: Detectors, c: Caches, req: Request, now: int)
    ensures Decide(InMode(cfg, true), det, c, req, now) == Decide(InMode(cfg, false), det, c, req, now)
    ensures CachesAfter(InMode(cfg, true), det, c, req, now) == CachesAfter(InMode(cfg, false), det, c, req, now)
  {
    DecideFreshIgnoresMode(cfg, det, c.files, req);
  }

  lemma {:induction false} CachesIgnoreMode(cfg: Config, det: Detectors, c: Caches, h: History)
    ensures CachesAt(InMode(cfg, true), det, c, h) == CachesAt(InMode(cfg, false), det, c, h)
  {
    if h.Then? {
      CachesIgnoreMode(cfg, det, c, h.before);
      DecideIgnoresMode(cfg, det, CachesAt(InMode(cfg, true), det, c, h.before), h.req, h.now);
    }
  }

  /** From equal caches, on the same requests and clock, the two modes keep identical caches,
      give the next request corresponding responses, and report the same requests. */
  lemma {:induction false} Lockstep(cfg: Config, det: Detectors, c: Caches, h: History, req: Request, now: int)
    ensures var quiet, loud := InMode(cfg, true), InMode(cfg, false);
            var s, e := CachesAt(quiet, det, c, h), CachesAt(loud, det, c, h);
            && s == e
            && Shadows(ResponseTo(quiet, det, s, req, now), ResponseTo(loud, det, e, req, now))
            && (Reported(Decide(quiet, det, s, req, now).0) <==> Reported(Decide(loud, det, e, req, now).0))
  {
    CachesIgnoreMode(cfg, det, c, h);
    DecideIgnoresMode(cfg, det, CachesAt(InMode(cfg, true), det, c, h), req, now);
  }

  // ---- The file-hash cache ----

  ghost predicate Bad(det: Detectors, target: bytes, ct: string) {
    Threat(det, target, ct).Some?
  }

  /** Inspecting the target can come out differently under the two declared types. */
  ghost predicate TypeMatters(det: Detectors, target: bytes, a: string, b: string) {
    Disputed(det.magic, target, a, b) && det.yara(target).None?
  }

  lemma SameThreatIff(det: Detectors, target: bytes, a: string, b: string)
    ensures (Bad(det, target, a) <==> Bad(det, target, b)) <==> !TypeMatters(det, target, a, b)
  {
    SameVerdictIff(det.magic, target, a, b);
  }

  /** Content that was inspected, and the type it was declared as. */
  datatype Look = Look(content: bytes, declared: string)

  /** The row says what the inspection of this content under this type said. */
  ghost predicate RowFits(det: Detectors, row: FileRow, hash: string, l: Look) {
    && det.sha(l.content) == hash
    && row == match Threat(det, l.content, l.declared)
              case Some(hit) => FileRow("MALICIOUS", hit.rule)
              case None => FileRow("CLEAN", "")
  }

  /** Every row records the true verdict of something that was inspected. */
  ghost predicate FilesSound(det: Detectors, files: Files, seen: set<Look>) {
    forall hash :: hash in files ==> exists l :: l in seen && RowFits(det, files[hash], hash, l)
  }

  ghost function TargetSet(targets: seq<bytes>): set<bytes> {
    set t | t in targets
  }

  /** What the inspection loop examines itself: the targets before the first remembered one, up to
      the first malicious one. */
  ghost function Examined(cfg: Config, det: Detectors, files: Files, targets: seq<bytes>, ct: string): set<Look>
    decreases |targets|
  {
    if targets == [] then {}
    else if targets[0] == [] then Examined(cfg, det, files, targets[1..], ct)
    else if cfg.hasDb && det.sha(targets[0]) in files then {}
    else if Bad(det, targets[0], ct) then {Look(targets[0], ct)}
    else
      {Look(targets[0], ct)} +
      Examined(cfg, det, Remember(cfg, files, det.sha(targets[0]), FileRow("CLEAN", "")), targets[1..], ct)
  }

  lemma {:induction false} ExaminedAreTargets(
      cfg: Config, det: Detectors, files: Files, targets: seq<bytes>, ct: string)
    ensures forall l :: l in Examined(cfg, det, files, targets, ct) ==>
              l.declared == ct && l.content in targets && l.content != []
    decreases |targets|
  {
    if targets != [] {
      var rest := targets[1..];
      assert forall t :: t in rest ==> t in targets;
      ExaminedAreTargets(cfg, det, files, rest, ct);
      ExaminedAreTargets(cfg, det, Remember(cfg, files, det.sha(targets[0]), FileRow("CLEAN", "")), rest, ct);
    }
  }

  /** The request gets as far as content inspection: no static file, no cached verdict, no earlier
      finding, and a type that is inspected. */
  ghost predicate ReachesContent(cfg: Config, det: Detectors, c: Caches, req: Request, now: int) {
    && !det.isStatic(req.uri) && !(cfg.hasDb && LiveRow(c.ips, req.ip, now).Some?)
    && !EarlyFinding(det, req) && Inspected(cfg, det, req)
  }

  ghost function ExaminedAt(cfg: Config, det: Detectors, c: Caches, req: Request, now: int): set<Look> {
    if ReachesContent(cfg, det, c, req, now)
    then Examined(cfg, det, c.files, TargetsOf(cfg, det, req), req.contentType)
    else {}
  }

  /** Everything examined in a history. */
  ghost function Seen(cfg: Config, det: Detectors, h: History): set<Look> {
    match h
    case Start => {}
    case Then(b, req, now) => Seen(cfg, det, b) + ExaminedAt(cfg, det, CachesAt(cfg, det, EMPTY, b), req, now)
  }

  lemma FilesSoundAdds(cfg: Config, det: Detectors, files: Files, seen: set<Look>, l: Look, row: FileRow)
    requires FilesSound(det, files, seen) && l in seen && RowFits(det, row, det.sha(l.content), l)
    ensures FilesSound(det, Remember(cfg, files, det.sha(l.content), row), seen)
  {
    var after := Remember(cfg, files, det.sha(l.content), row);
    forall hash | hash in after ensures exists m :: m in seen && RowFits(det, after[hash], hash, m) {
      if hash != det.sha(l.content) || !cfg.hasDb {
        var m :| m in seen && RowFits(det, files[hash], hash, m);
      }
    }
  }

  lemma {:induction false} InspectKeepsSound(
      cfg: Config, det: Detectors, files: Files, targets: seq<bytes>, ct: string, seen: set<Look>)
    requires FilesSound(det, files, seen) && Examined(cfg, det, files, targets, ct) <= seen
    ensures FilesSound(det, Inspect(cfg, det, files, targets, ct).0, seen)
    decreases |targets|
  {
    if targets != [] {
      var t, rest := targets[0], targets[1..];
      var hash := det.sha(t);
      if t == [] {
        InspectKeepsSound(cfg, det, files, rest, ct, seen);
      } else if !(cfg.hasDb && hash in files) {
        if Bad(det, t, ct) {
          FilesSoundAdds(cfg, det, files, seen, Look(t, ct), FileRow("MALICIOUS", Threat(det, t, ct).value.rule));
        } else {
          FilesSoundAdds(cfg, det, files, seen, Look(t, ct), FileRow("CLEAN", ""));
          InspectKeepsSound(cfg, det, Remember(cfg, files, hash, FileRow("CLEAN", "")), rest, ct, seen);
        }
      }
    }
  }

  lemma FilesSoundMore(det: Detectors, files: Files, seen: set<Look>, more: set<Look>)
    requires FilesSound(det, files, seen)
    ensures FilesSound(det, files, seen + more)
  {
    forall hash | hash in files ensures exists l :: l in seen + more && RowFits(det, files[hash], hash, l) {
      var l :| l in seen && RowFits(det, files[hash], hash, l);
      assert l in seen + more;
    }
  }

  const EMPTY: Caches := Caches(map[], map[])

  lemma FreshFiles(cfg: Config, det: Detectors, files: Files, req: Request)
    ensures DecideFresh(cfg, det, files, req).1 ==
            if EarlyFinding(det, req) then files else BodyFinding(cfg, det, files, req).0
  {
  }

  lemma FilesAfter(cfg: Config, det: Detectors, c: Caches, req: Request, now: int)
    ensures CachesAfter(cfg, det, c, req, now).files ==
            if ReachesContent(cfg, det, c, req, now)
            then Inspect(cfg, det, c.files, TargetsOf(cfg, det, req), req.contentType).0
            else c.files
  {
    FreshFiles(cfg, det, c.files, req);
  }

  /** Every reachable row is the true verdict of content that was examined, under the type it was
      declared as then. */
  lemma {:induction false} ReachableFilesSound(cfg: Config, det: Detectors, h: History)
    ensures FilesSound(det, CachesAt(cfg, det, EMPTY, h).files, Seen(cfg, det, h))
  {
    if h.Then? {
      ReachableFilesSound(cfg, det, h.before);
      var c, targets := CachesAt(cfg, det, EMPTY, h.before), TargetsOf(cfg, det, h.req);
      FilesSoundMore(det, c.files, Seen(cfg, det, h.before), ExaminedAt(cfg, det, c, h.req, h.now));
      if ReachesContent(cfg, det, c, h.req, h.now) {
        InspectKeepsSound(cfg, det, c.files, targets, h.req.contentType, Seen(cfg, det, h));
      }
      FilesAfter(cfg, det, c, h.req, h.now);
    }
  }

  /** No two of these contents share a hash. */
  ghost predicate NoCollision(det: Detectors, seen: set<bytes>) {
    forall t, u :: t in seen && u in seen && det.sha(t) == det.sha(u) ==> t == u
  }

  /** The cache says of each target what inspection would say. */
  ghost predicate Agrees(det: Detectors, files: Files, targets: seq<bytes>, ct: string) {
    forall t :: t in targets && t != [] && det.sha(t) in files ==>
      (files[det.sha(t)].verdict == "MALICIOUS" <==> Bad(det, t, ct))
  }

  /** A row agrees with inspecting its content under another type exactly when the type does
      not matter. */
  lemma RowAgreesIff(det: Detectors, row: FileRow, hash: string, l: Look, ct: string)
    requires RowFits(det, row, hash, l)
    ensures (row.verdict == "MALICIOUS" <==> Bad(det, l.content, ct)) <==> !TypeMatters(det, l.content, l.declared, ct)
  {
    SameThreatIff(det, l.content, l.declared, ct);
  }

  /** Nothing that was inspected before and is a target now was declared as a type that
      disagrees with the present one about it. */
  ghost predicate Undisputed(det: Detectors, seen: set<Look>, targets: seq<bytes>, ct: string) {
    forall l :: l in seen && l.content in targets ==> !TypeMatters(det, l.content, l.declared, ct)
  }

  ghost function Contents(seen: set<Look>): set<bytes> {
    set l | l in seen :: l.content
  }

  lemma {:induction false} SoundAgrees(det: Detectors, files: Files, seen: set<Look>, targets: seq<bytes>, ct: string)
    requires FilesSound(det, files, seen) && NoCollision(det, Contents(seen) + TargetSet(targets))
    requires Undisputed(det, seen, targets, ct)
    ensures Agrees(det, files, targets, ct)
  {
    forall t | t in targets && t != [] && det.sha(t) in files
      ensures files[det.sha(t)].verdict == "MALICIOUS" <==> Bad(det, t, ct)
    {
      var l :| l in seen && RowFits(det, files[det.sha(t)], det.sha(t), l);
      var all := Contents(seen) + TargetSet(targets);
      assert t in all && l.content in all;
      RowAgreesIff(det, files[det.sha(t)], det.sha(t), l, ct);
    }
  }

  /** Target i is malicious, and no earlier target stops the inspection: none is remembered,
      and none repeats one before it. */
  ghost predicate Exposed(det: Detectors, files: Files, targets: seq<bytes>, ct: string, i: int) {
    && 0 <= i < |targets| && targets[i] != [] && Bad(det, targets[i], ct)
    && (forall j :: 0 <= j < i && targets[j] != [] ==> det.sha(targets[j]) !in files)
    && (forall j, k :: 0 <= k < j < i && targets[j] != [] && targets[k] != [] ==>
          det.sha(targets[j]) != det.sha(targets[k]))
  }

  ghost predicate FreshMalice(det: Detectors, files: Files, targets: seq<bytes>, ct: string) {
    exists i :: Exposed(det, files, targets, ct, i)
  }

  ghost predicate AnyMalice(det: Detectors, targets: seq<bytes>, ct: string) {
    exists t :: t in targets && t != [] && Bad(det, t, ct)
  }

  lemma {:induction false} WithoutCacheIff(cfg: Config, det: Detectors, files: Files, targets: seq<bytes>, ct: string)
    requires !cfg.hasDb
    ensures Inspect(cfg, det, files, targets, ct).1.Some? <==> AnyMalice(det, targets, ct)
    decreases |targets|
  {
    if targets != [] {
      var t, rest := targets[0], targets[1..];
      assert targets == [t] + rest;
      WithoutCacheIff(cfg, det, files, rest, ct);
      if t != [] && Bad(det, t, ct) {
        assert AnyMalice(det, targets, ct);
      } else if AnyMalice(det, rest, ct) {
        var u :| u in rest && u != [] && Bad(det, u, ct);
        assert u in targets;
      }
    }
  }

  lemma ExposedTail(det: Detectors, files: Files, t: bytes, rest: seq<bytes>, ct: string, i: int)
    requires t != [] && !Bad(det, t, ct) && Exposed(det, files, [t] + rest, ct, i)
    ensures Exposed(det, files[det.sha(t) := FileRow("CLEAN", "")], rest, ct, i - 1)
  {
    var all := [t] + rest;
    assert all[0] == t && i > 0;
    assert forall j :: 0 <= j < |rest| ==> rest[j] == all[j + 1];
  }

  lemma ExposedCons(det: Detectors, files: Files, t: bytes, rest: seq<bytes>, ct: string, i: int)
    requires t != [] && det.sha(t) !in files
    requires Exposed(det, files[det.sha(t) := FileRow("CLEAN", "")], rest, ct, i)
    ensures Exposed(det, files, [t] + rest, ct, i + 1)
  {
    var all, after := [t] + rest, files[det.sha(t) := FileRow("CLEAN", "")];
    assert all[0] == t && all[i + 1] == rest[i];
    forall j | 0 < j < i + 1 && all[j] != []
      ensures all[j] == rest[j - 1] && det.sha(all[j]) !in after
    {
      assert rest[j - 1] != [] && det.sha(rest[j - 1]) !in after;
    }
    forall j, k | 0 <= k < j < i + 1 && all[j] != [] && all[k] != []
      ensures det.sha(all[j]) != det.sha(all[k])
    {
      assert all[j] == rest[j - 1];
      if k > 0 { assert all[k] == rest[k - 1]; }
    }
  }

  /** One harmless, unremembered target in front only shifts the question to the rest. */
  lemma ExposedShift(det: Detectors, files: Files, t: bytes, rest: seq<bytes>, ct: string)
    requires t != [] && !Bad(det, t, ct) && det.sha(t) !in files
    ensures FreshMalice(det, files, [t] + rest, ct)
            <==> FreshMalice(det, files[det.sha(t) := FileRow("CLEAN", "")], rest, ct)
  {
    if FreshMalice(det, files, [t] + rest, ct) {
      var i :| Exposed(det, files, [t] + rest, ct, i);
      ExposedTail(det, files, t, rest, ct, i);
    }
    if FreshMalice(det, files[det.sha(t) := FileRow("CLEAN", "")], rest, ct) {
      var i :| Exposed(det, files[det.sha(t) := FileRow("CLEAN", "")], rest, ct, i);
      ExposedCons(det, files, t, rest, ct, i);
    }
  }

  lemma ExposedSkip(det: Detectors, files: Files, rest: seq<bytes>, ct: string)
    ensures FreshMalice(det, files, [[]] + rest, ct) <==> FreshMalice(det, files, rest, ct)
  {
    var all: seq<bytes> := [[]] + rest;
    if FreshMalice(det, files, all, ct) {
      var i :| Exposed(det, files, all, ct, i);
      SkipTail(det, files, rest, ct, i);
    }
    if FreshMalice(det, files, rest, ct) {
      var i :| Exposed(det, files, rest, ct, i);
      SkipCons(det, files, rest, ct, i);
    }
  }

  lemma SkipTail(det: Detectors, files: Files, rest: seq<bytes>, ct: string, i: int)
    requires Exposed(det, files, [[]] + rest, ct, i)
    ensures Exposed(det, files, rest, ct, i - 1)
  {
    var all: seq<bytes> := [[]] + rest;
    assert all[0] == [] && i > 0;
    assert forall j :: 0 <= j < |rest| ==> rest[j] == all[j + 1];
  }

  lemma SkipCons(det: Detectors, files: Files, rest: seq<bytes>, ct: string, i: int)
    requires Exposed(det, files, rest, ct, i)
    ensures Exposed(det, files, [[]] + rest, ct, i + 1)
  {
    var all: seq<bytes> := [[]] + rest;
    assert all[0] == [];
    assert forall j :: 0 < j < |all| ==> all[j] == rest[j - 1];
  }

  lemma AgreesAfterClean(det: Detectors, files: Files, t: bytes, rest: seq<bytes>, ct: string)
    requires Agrees(det, files, [t] + rest, ct) && NoCollision(det, TargetSet([t] + rest))
    requires t != [] && !Bad(det, t, ct)
    ensures Agrees(det, files[det.sha(t) := FileRow("CLEAN", "")], rest, ct)
    ensures NoCollision(det, TargetSet(rest))
  {
    var all := [t] + rest;
    assert forall u :: u in rest ==> u in all;
    assert t == all[0] && t in TargetSet(all);
    var after := files[det.sha(t) := FileRow("CLEAN", "")];
    forall u | u in rest && u != [] && det.sha(u) in after
      ensures after[det.sha(u)].verdict == "MALICIOUS" <==> Bad(det, u, ct)
    {
      assert u in TargetSet(all);
    }
  }

  lemma ExposedFirst(det: Detectors, files: Files, t: bytes, rest: seq<bytes>, ct: string)
    requires t != [] && (Bad(det, t, ct) || det.sha(t) in files)
    ensures FreshMalice(det, files, [t] + rest, ct) <==> Bad(det, t, ct)
  {
    var all := [t] + rest;
    if Bad(det, t, ct) {
      assert Exposed(det, files, all, ct, 0);
    } else {
      forall i ensures !Exposed(det, files, all, ct, i) {
        if 0 < i < |all| { assert all[0] == t; }
      }
    }
  }

  /** Exactly when inspection with the cache blocks: some malicious target comes before any
      remembered or repeated one. A remembered clean target ends the whole inspection. */
  lemma {:induction false} WithCacheIff(cfg: Config, det: Detectors, files: Files, targets: seq<bytes>, ct: string)
    requires cfg.hasDb && Agrees(det, files, targets, ct) && NoCollision(det, TargetSet(targets))
    ensures Inspect(cfg, det, files, targets, ct).1.Some? <==> FreshMalice(det, files, targets, ct)
    decreases |targets|
  {
    if targets == [] {
      assert forall i :: !Exposed(det, files, targets, ct, i);
    } else {
      var t, rest := targets[0], targets[1..];
      assert targets == [t] + rest;
      if t == [] {
        assert TargetSet(rest) <= TargetSet(targets);
        WithCacheIff(cfg, det, files, rest, ct);
        ExposedSkip(det, files, rest, ct);
      } else if Bad(det, t, ct) || det.sha(t) in files {
        ExposedFirst(det, files, t, rest, ct);
        assert t in targets;
      } else {
        AgreesAfterClean(det, files, t, rest, ct);
        ExposedShift(det, files, t, rest, ct);
        WithCacheIff(cfg, det, files[det.sha(t) := FileRow("CLEAN", "")], rest, ct);
      }
    }
  }

  lemma FreshIsAny(det: Detectors, files: Files, targets: seq<bytes>, ct: string)
    ensures FreshMalice(det, files, targets, ct) ==> AnyMalice(det, targets, ct)
    ensures |targets| <= 1 ==> (FreshMalice(det, files, targets, ct) <==> AnyMalice(det, targets, ct))
  {
    if FreshMalice(det, files, targets, ct) {
      var i :| Exposed(det, files, targets, ct, i);
      assert targets[i] in targets;
    }
    if |targets| == 1 {
      assert targets == [targets[0]];
      if Bad(det, targets[0], ct) && targets[0] != [] { assert Exposed(det, files, targets, ct, 0); }
    }
  }

  /** No hash collision, and no dispute about types, between a request and what came before. */
  ghost predicate Unconfused(cfg: Config, det: Detectors, h: History, req: Request) {
    var targets := TargetsOf(cfg, det, req);
    && NoCollision(det, Contents(Seen(cfg, det, h)) + TargetSet(targets))
    && Undisputed(det, Seen(cfg, det, h), targets, req.contentType)
  }

  /** In every reachable state, content inspection with the cache blocks only what inspection
      without a database blocks; and the same when the raw body is the only target. */
  lemma {:induction false} CacheNeverOverblocks(cfg: Config, det: Detectors, h: History, req: Request)
    requires cfg.hasDb && Unconfused(cfg, det, h, req)
    ensures var files, targets := CachesAt(cfg, det, EMPTY, h).files, TargetsOf(cfg, det, req);
            var with := Inspect(cfg, det, files, targets, req.contentType).1.Some?;
            var without := Inspect(cfg.(hasDb := false), det, map[], targets, req.contentType).1.Some?;
            && (with <==> FreshMalice(det, files, targets, req.contentType))
            && (without <==> AnyMalice(det, targets, req.contentType))
            && (with ==> without)
            && (|targets| <= 1 ==> (with <==> without))
  {
    var files, targets := CachesAt(cfg, det, EMPTY, h).files, TargetsOf(cfg, det, req);
    ReachableFilesSound(cfg, det, h);
    SoundAgrees(det, files, Seen(cfg, det, h), targets, req.contentType);
    assert TargetSet(targets) <= Contents(Seen(cfg, det, h)) + TargetSet(targets);
    WithCacheIff(cfg, det, files, targets, req.contentType);
    WithoutCacheIff(cfg.(hasDb := false), det, map[], targets, req.contentType);
    FreshIsAny(det, files, targets, req.contentType);
  }

  /** Types outside the spoof table never disagree. */
  ghost predicate PlainType(det: Detectors, ct: string) {
    BaseType(ct) !in det.magic.expected
  }

  /** Every request that got as far as content inspection was of such a type. */
  ghost predicate PlainHistory(cfg: Config, det: Detectors, h: History) {
    h.Then? ==>
      && (ReachesContent(cfg, det, CachesAt(cfg, det, EMPTY, h.before), h.req, h.now) ==>
            PlainType(det, h.req.contentType))
      && PlainHistory(cfg, det, h.before)
  }

  lemma {:induction false} PlainSeen(cfg: Config, det: Detectors, h: History)
    requires PlainHistory(cfg, det, h)
    ensures forall l :: l in Seen(cfg, det, h) ==> PlainType(det, l.declared)
  {
    if h.Then? {
      PlainSeen(cfg, det, h.before);
      var files := CachesAt(cfg, det, EMPTY, h.before).files;
      ExaminedAreTargets(cfg, det, files, TargetsOf(cfg, det, h.req), h.req.contentType);
    }
  }

  lemma PlainIsUndisputed(cfg: Config, det: Detectors, h: History, req: Request)
    requires PlainHistory(cfg, det, h) && PlainType(det, req.contentType)
    ensures Undisputed(det, Seen(cfg, det, h), TargetsOf(cfg, det, req), req.contentType)
  {
    PlainSeen(cfg, det, h);
    forall l | l in Seen(cfg, det, h) ensures !TypeMatters(det, l.content, l.declared, req.contentType) {
      PlainTypesAgree(det.magic, l.content, l.declared, req.contentType);
      SameVerdictIff(det.magic, l.content, l.declared, req.contentType);
    }
  }

  /** Where the k-th sample of n bytes begins and ends. */
  function SampleSpan(n: nat, k: int): (int, int) {
    if k == 0 then (0, Min(4096, n))
    else if k == 1 then (Max(0, n / 2 - 2048), Min(n, n / 2 + 2048))
    else (Max(0, n - 4096), n)
  }

  predicate InSample(n: nat, k: int, i: int) {
    SampleSpan(n, k).0 <= i < SampleSpan(n, k).1
  }

  lemma SamplesAreSpans(body: bytes)
    ensures forall k :: 0 <= k < 3 ==>
              var (lo, hi) := SampleSpan(|body|, k);
              0 <= lo <= hi <= |body| && SampledTargets(body)[k] == body[lo..hi]
  {
    assert body[Max(0, |body| - 4096)..] == body[Max(0, |body| - 4096)..|body|];
  }

  /** The three samples of a large body cover every byte exactly up to 12288 bytes. */
  lemma SampleCoverageIff(n: nat)
    ensures (forall i :: 0 <= i < n ==> InSample(n, 0, i) || InSample(n, 1, i) || InSample(n, 2, i)) <==> n <= 12288
  {
    if n > 12288 {
      var gap := n / 2 + 2048;
      assert !InSample(n, 0, gap) && !InSample(n, 1, gap) && !InSample(n, 2, gap);
    }
  }

  /** The verdict blocks in enforce mode. */
  predicate Blocks(s: Stage) {
    s.Cve? || s.Injection? || s.Content? || s.Anomaly?
  }

  /** A finding before content inspection. */
  predicate EarlyFinding(det: Detectors, req: Request) {
    det.tier1(req).Some? || det.sqli(req).Some? || det.xss(req).Some?
  }

  lemma FreshBlocksIff(cfg: Config, det: Detectors, files: Files, req: Request)
    ensures Blocks(DecideFresh(cfg, det, files, req).0) <==>
            || EarlyFinding(det, req)
            || (Inspected(cfg, det, req) && Inspect(cfg, det, files, TargetsOf(cfg, det, req), req.contentType).1.Some?)
            || det.ml(req).block
  {
  }

  /** A request that no live IP row answers: blocked in a reachable state, it is blocked without
      a database too, and conversely when the raw body is the only target. */
  lemma {:induction false} RequestNeverOverblocked(cfg: Config, det: Detectors, h: History, req: Request)
    requires cfg.hasDb && (Inspected(cfg, det, req) ==> Unconfused(cfg, det, h, req))
    ensures Blocks(DecideFresh(cfg, det, CachesAt(cfg, det, EMPTY, h).files, req).0)
            ==> Blocks(DecideFresh(cfg.(hasDb := false), det, map[], req).0)
    ensures |TargetsOf(cfg, det, req)| <= 1 ==>
              (Blocks(DecideFresh(cfg, det, CachesAt(cfg, det, EMPTY, h).files, req).0)
               <==> Blocks(DecideFresh(cfg.(hasDb := false), det, map[], req).0))
  {
    var c := CachesAt(cfg, det, EMPTY, h);
    if Inspected(cfg, det, req) { CacheNeverOverblocks(cfg, det, h, req); }
    FreshBlocksIff(cfg, det, c.files, req);
    FreshBlocksIff(cfg.(hasDb := false), det, map[], req);
    assert TargetsOf(cfg, det, req) == TargetsOf(cfg.(hasDb := false), det, req);
  }

  /** The same when only types outside the spoof table were inspected. */
  lemma {:induction false} PlainRequestNeverOverblocked(cfg: Config, det: Detectors, h: History, req: Request)
    requires cfg.hasDb && PlainHistory(cfg, det, h)
    requires Inspected(cfg, det, req) ==>
               && PlainType(det, req.contentType)
               && NoCollision(det, Contents(Seen(cfg, det, h)) + TargetSet(TargetsOf(cfg, det, req)))
    ensures Blocks(DecideFresh(cfg, det, CachesAt(cfg, det, EMPTY, h).files, req).0)
            ==> Blocks(DecideFresh(cfg.(hasDb := false), det, map[], req).0)
  {
    if Inspected(cfg, det, req) { PlainIsUndisputed(cfg, det, h, req); }
    RequestNeverOverblocked(cfg, det, h, req);
  }

  // ---- Where the file cache changes answers: whole requests ----

  /** Only the content of the body speaks against this request, and it is inspected in full. */
  ghost predicate ContentDecides(cfg: Config, det: Detectors, req: Request) {
    && !det.isStatic(req.uri) && !EarlyFinding(det, req) && !det.ml(req).block
    && Inspected(cfg, det, req) && |req.body| <= cfg.fullScanLimit
  }

  lemma ContentVerdict(cfg: Config, det: Detectors, c: Caches, req: Request, now: int)
    requires !cfg.shadow && ContentDecides(cfg, det, req) && req.ip !in c.ips
    ensures var targets := FullScanTargets(det, req.body, req.contentType);
            var (files, found) := Inspect(cfg, det, c.files, targets, req.contentType);
            && (ResponseTo(cfg, det, c, req, now).action == if found.Some? then "BLOCK" else "PERMIT")
            && CachesAfter(cfg, det, c, req, now).files == files
            && CachesAfter(cfg, det, c, req, now).ips ==
               if found.Some? || !cfg.hasDb then c.ips
               else c.ips[req.ip := IpRow("PERMIT", "all checks passed", "", Expiry(cfg, now))]
  {
  }

  lemma HiddenFoundOnce(cfg: Config, det: Detectors, body: bytes, hidden: bytes, ct: string)
    requires cfg.hasDb && body != [] && hidden != []
    requires !Bad(det, body, ct) && Bad(det, hidden, ct) && det.sha(body) != det.sha(hidden)
    ensures var (files, first) := Inspect(cfg, det, map[], [body, hidden], ct);
            first.Some? && Inspect(cfg, det, files, [body, hidden], ct) == (files, None)
  {
    var clean := FileRow("CLEAN", "");
    var f1: Files := map[][det.sha(body) := clean];
    assert [body, hidden][1..] == [hidden];
    assert Inspect(cfg, det, map[], [body, hidden], ct) == Inspect(cfg, det, f1, [hidden], ct);
  }

  /** A request whose body is harmless as it stands and holds one malicious Base64 candidate is
      blocked, and the same request again is permitted and gives its address a PERMIT row. */
  lemma RepeatSlipsThrough(cfg: Config, det: Detectors, req: Request, hidden: bytes, t1: int, t2: int)
    requires cfg.hasDb && !cfg.shadow && ContentDecides(cfg, det, req)
    requires det.decodeWhole(req.body, req.contentType).None? && det.candidates(req.body) == [hidden] && hidden != []
    requires !Bad(det, req.body, req.contentType) && Bad(det, hidden, req.contentType)
    requires det.sha(req.body) != det.sha(hidden)
    ensures var c := CachesAfter(cfg, det, EMPTY, req, t1);
            && ResponseTo(cfg, det, EMPTY, req, t1).action == "BLOCK"
            && ResponseTo(cfg, det, c, req, t2).action == "PERMIT"
            && CachesAfter(cfg, det, c, req, t2).ips ==
               map[req.ip := IpRow("PERMIT", "all checks passed", "", Expiry(cfg, t2))]
  {
    assert FullScanTargets(det, req.body, req.contentType) == [req.body, hidden];
    HiddenFoundOnce(cfg, det, req.body, hidden, req.contentType);
    ContentVerdict(cfg, det, EMPTY, req, t1);
    ContentVerdict(cfg, det, CachesAfter(cfg, det, EMPTY, req, t1), req, t2);
  }

  lemma OneTarget(cfg: Config, det: Detectors, files: Files, t: bytes, ct: string)
    requires t != []
    ensures var (after, found) := Inspect(cfg, det, files, [t], ct);
            if cfg.hasDb && det.sha(t) in files then
              after == files && (found.Some? <==> files[det.sha(t)].verdict == "MALICIOUS")
            else
              && (found.Some? <==> Bad(det, t, ct))
              && (cfg.hasDb ==> det.sha(t) in after && RowFits(det, after[det.sha(t)], det.sha(t), Look(t, ct)))
  {
  }

  /** One body under two declared types, from different addresses: with the cache the second
      request gets the verdict of the first, which is its own verdict exactly when the type does
      not matter. A body blocked as one type stays blocked as a type that would permit it. */
  lemma SecondTypeIff(cfg: Config, det: Detectors, first: Request, second: Request, t1: int, t2: int)
    requires cfg.hasDb && !cfg.shadow && first.ip != second.ip && first.body == second.body
    requires ContentDecides(cfg, det, first) && ContentDecides(cfg, det, second)
    requires FullScanTargets(det, first.body, first.contentType) == [first.body]
    requires FullScanTargets(det, second.body, second.contentType) == [second.body]
    ensures var c, plain := CachesAfter(cfg, det, EMPTY, first, t1), cfg.(hasDb := false);
            var with := ResponseTo(cfg, det, c, second, t2).action;
            var without := ResponseTo(plain, det, EMPTY, second, t2).action;
            && (with == ResponseTo(cfg, det, EMPTY, first, t1).action)
            && (with == without <==> !TypeMatters(det, first.body, first.contentType, second.contentType))
            && (Bad(det, first.body, first.contentType) && !Bad(det, first.body, second.contentType)
                ==> with == "BLOCK" && without == "PERMIT")
  {
    var c, plain := CachesAfter(cfg, det, EMPTY, first, t1), cfg.(hasDb := false);
    ContentVerdict(cfg, det, EMPTY, first, t1);
    ContentVerdict(cfg, det, c, second, t2);
    ContentVerdict(plain, det, EMPTY, second, t2);
    OneTarget(cfg, det, map[], first.body, first.contentType);
    OneTarget(cfg, det, c.files, first.body, second.contentType);
    OneTarget(plain, det, map[], first.body, second.contentType);
    SameThreatIff(det, first.body, first.contentType, second.contentType);
  }

  /** Any text around an inspected type is inspected. */
  lemma MentionIsInspected(before: string, after: string)
    ensures ShouldInspectContent(before + "application/json" + after)
  {
    ContainsJoin(before, "application/json", after);
    ContainsLower(before + "application/json" + after, "application/json");
    assert INSPECTED_TYPES[1] == "application/json" == Lower("application/json");
  }

  /** With the shipped tables: a ZIP file sent as `application/pdf;...application/json...` is
      blocked; sent as plain JSON from another address it is over-blocked. */
  lemma ZipAsPdfOverblocks(
    cfg: Config, det: Detectors, first: Request, second: Request, more: bytes, mid: string, t1: int, t2: int)
    requires cfg.hasDb && !cfg.shadow && first.ip != second.ip && det.magic == Shipped()
    requires first.body == second.body == ZIP_MAGIC + more && |first.body| <= cfg.fullScanLimit
    requires first.contentType == "application/pdf" + [';'] + (mid + "application/json")
    requires second.contentType == "application/json"
    requires forall r :: r in {first, second} ==> !det.isStatic(r.uri) && !EarlyFinding(det, r) && !det.ml(r).block
    requires forall r :: r in {first, second} ==> FullScanTargets(det, r.body, r.contentType) == [r.body]
    requires det.yara(first.body).None?
    ensures var c, plain := CachesAfter(cfg, det, EMPTY, first, t1), cfg.(hasDb := false);
            && ResponseTo(cfg, det, EMPTY, first, t1).action == "BLOCK"
            && ResponseTo(cfg, det, c, second, t2).action == "BLOCK"
            && ResponseTo(plain, det, EMPTY, second, t2).action == "PERMIT"
  {
    MentionIsInspected("application/pdf" + [';'] + mid, "");
    assert first.contentType == "application/pdf" + [';'] + mid + "application/json" + "";
    MentionIsInspected("", "");
    assert second.contentType == "" + "application/json" + "";
    assert ContentDecides(cfg, det, first) && ContentDecides(cfg, det, second);
    ZipAsPdf(more, mid + "application/json");
    SecondTypeIff(cfg, det, first, second, t1, t2);
  }

  // ---- The IP cache: where rows come from ----

  /** at is h at some earlier moment, or h itself. */
  ghost predicate Within(at: History, h: History) {
    at == h || (h.Then? && Within(at, h.before))
  }

  /** The request went through every stage from this state without a finding. */
  ghost predicate PassedEverything(cfg: Config, det: Detectors, c: Caches, req: Request) {
    && det.tier1(req).None? && det.sqli(req).None? && det.xss(req).None?
    && (Inspected(cfg, det, req) ==> Inspect(cfg, det, c.files, TargetsOf(cfg, det, req), req.contentType).1.None?)
    && !det.ml(req).block
  }

  /** The last request of `at` is why the row says what it says. */
  ghost predicate Justifies(cfg: Config, det: Detectors, at: History, ip: string, row: IpRow) {
    && at.Then? && at.req.ip == ip && !det.isStatic(at.req.uri)
    && row.expires == Expiry(cfg, at.now)
    && (row.verdict == "BLOCK" || row.verdict == "PERMIT")
    && (row.verdict == "BLOCK" ==> det.tier1(at.req).Some? && row.cveId == det.tier1(at.req).value.cveId)
    && (row.verdict == "PERMIT" ==> PassedEverything(cfg, det, CachesAt(cfg, det, EMPTY, at.before), at.req))
  }

  lemma StepJustifies(cfg: Config, det: Detectors, h: History, row: IpRow)
    requires h.Then?
    requires NewRow(cfg, Decide(cfg, det, CachesAt(cfg, det, EMPTY, h.before), h.req, h.now).0, h.now) == Some(row)
    ensures Justifies(cfg, det, h, h.req.ip, row)
  {
  }

  lemma {:induction false} RowsAreJustified(cfg: Config, det: Detectors, h: History, ip: string)
    requires ip in CachesAt(cfg, det, EMPTY, h).ips
    ensures exists at :: Within(at, h) && Justifies(cfg, det, at, ip, CachesAt(cfg, det, EMPTY, h).ips[ip])
  {
    var c := CachesAt(cfg, det, EMPTY, h.before);
    var row := NewRow(cfg, Decide(cfg, det, c, h.req, h.now).0, h.now);
    if row.Some? && h.req.ip == ip {
      StepJustifies(cfg, det, h, row.value);
      assert Within(h, h);
    } else {
      RowsAreJustified(cfg, det, h.before, ip);
      var at :| Within(at, h.before) && Justifies(cfg, det, at, ip, c.ips[ip]);
      assert Within(at, h);
    }
  }

  lemma ExpiryBounds(cfg: Config, now: int)
    ensures now + cfg.ttl * SECOND - SECOND < Expiry(cfg, now) <= now + cfg.ttl * SECOND
  {
  }

  /** A cached verdict, whenever it is served, goes back to a request from that very address
      less than the time-to-live ago: a BLOCK to a CVE match, a PERMIT to a request that
      passed every stage. */
  lemma {:induction false} CachedVerdictsAreJustified(cfg: Config, det: Detectors, h: History, ip: string, now: int)
    requires LiveRow(CachesAt(cfg, det, EMPTY, h).ips, ip, now).Some?
    ensures var row := LiveRow(CachesAt(cfg, det, EMPTY, h).ips, ip, now).value;
            exists at :: Within(at, h) && Justifies(cfg, det, at, ip, row) && now - at.now < cfg.ttl * SECOND
  {
    RowsAreJustified(cfg, det, h, ip);
    var at :| Within(at, h) && Justifies(cfg, det, at, ip, CachesAt(cfg, det, EMPTY, h).ips[ip]);
    ExpiryBounds(cfg, at.now);
  }

  // ---- The IP cache: rows stick until they expire ----

  ghost predicate AllBefore(h: History, t: int) {
    h.Then? ==> h.now < t && AllBefore(h.before, t)
  }

  lemma LiveStep(cfg: Config, det: Detectors, c: Caches, req: Request, now: int, ip: string)
    requires cfg.hasDb && LiveRow(c.ips, ip, now).Some?
    ensures var after := CachesAfter(cfg, det, c, req, now);
            && ip in after.ips && after.ips[ip] == c.ips[ip]
            && (req.ip == ip ==> after == c)
  {
  }

  /** While a row is live, every request of that address that is not for a static file gets the
      row's verdict and changes neither cache, whatever was checked in between. */
  lemma {:induction false} RowsStick(cfg: Config, det: Detectors, c: Caches, h: History, ip: string, row: IpRow)
    requires cfg.hasDb && ip in c.ips && c.ips[ip] == row && AllBefore(h, row.expires)
    ensures var d := CachesAt(cfg, det, c, h);
            && ip in d.ips && d.ips[ip] == row
            && forall req: Request, now ::
                 req.ip == ip && now < row.expires && !det.isStatic(req.uri) ==>
                   && CachesAfter(cfg, det, d, req, now) == d
                   && (!cfg.shadow ==>
                         ResponseTo(cfg, det, d, req, now).action ==
                         (if row.verdict == "BLOCK" then "BLOCK" else "PERMIT"))
  {
    if h.Then? {
      RowsStick(cfg, det, c, h.before, ip, row);
      LiveStep(cfg, det, CachesAt(cfg, det, c, h.before), h.req, h.now, ip);
    }
    var d := CachesAt(cfg, det, c, h);
    forall req: Request, now | req.ip == ip && now < row.expires && !det.isStatic(req.uri)
      ensures CachesAfter(cfg, det, d, req, now) == d
      ensures !cfg.shadow ==>
                ResponseTo(cfg, det, d, req, now).action == (if row.verdict == "BLOCK" then "BLOCK" else "PERMIT")
    {
      LiveStep(cfg, det, d, req, now, ip);
    }
  }
}
