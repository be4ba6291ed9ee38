/** What the pipeline answers, reports and remembers for each kind of request, stated on the
    request and the rows of the caches. */
module PipelineAnswers {
  import opened Bytes
  import opened MagicBytes
  import opened Verdicts
  import opened Pipeline
  import opened PipelineRuns

  // ---- What content inspection looks at ----

  /** Every non-empty body of an inspected type is inspected. */
  lemma {:induction false} InspectedIff(cfg: Config, det: Detectors, req: Request)
    ensures Inspected(cfg, det, req) <==> req.body != [] && ShouldInspectContent(req.contentType)
  {
  }

  /** A body within the first limit is inspected whole, as its decoding, and as each candidate in
      it, in that order. */
  lemma {:induction false} SmallBodyTargets(cfg: Config, det: Detectors, req: Request)
    requires |req.body| <= cfg.fullScanLimit
    ensures var targets := TargetsOf(cfg, det, req);
            && |targets| >= 1 && targets[0] == req.body
            && forall t :: t in targets <==>
                 || t == req.body
                 || det.decodeWhole(req.body, req.contentType) == Some(t)
                 || t in det.candidates(req.body)
  {
  }

  /** One within the second limit by its first, middle and last 4096 bytes. */
  lemma {:induction false} LargeBodyTargets(cfg: Config, det: Detectors, req: Request)
    requires cfg.fullScanLimit < |req.body| <= cfg.sampleScanLimit && |req.body| >= 4096
    ensures var n, targets := |req.body|, TargetsOf(cfg, det, req);
            && |targets| == 3
            && targets[0] == req.body[..4096]
            && targets[1] == req.body[n / 2 - 2048..n / 2 + 2048]
            && targets[2] == req.body[n - 4096..]
  {
  }

  /** Anything larger not at all. */
  lemma {:induction false} HugeBodyTargets(cfg: Config, det: Detectors, req: Request)
    requires |req.body| > cfg.fullScanLimit && |req.body| > cfg.sampleScanLimit
    ensures TargetsOf(cfg, det, req) == []
  {
  }

  /** Content is bad when magic bytes say so, or YARA matches. */
  lemma {:induction false} BadIff(det: Detectors, t: bytes, ct: string)
    requires Fitting(det.magic.signatures)
    ensures Bad(det, t, ct) <==>
            || det.yara(t).Some?
            || exists s :: Detected(det.magic.signatures, t, s) &&
                           (s.dangerous || Spoofed(det.magic.expected, ct, s.key))
  {
    BlocksIff(det.magic, t, ct);
  }

  /** Why: the signature goes before the rule. */
  lemma {:induction false} ThreatNames(det: Detectors, t: bytes, ct: string)
    requires Bad(det, t, ct)
    ensures var hit := Threat(det, t, ct).value;
            if Validate(det.magic, t, ct).shouldBlock then
              hit.rule == Validate(det.magic, t, ct).detectedKey && hit.reason == Validate(det.magic, t, ct).reason
            else
              && hit.rule == det.yara(t).value.rule
              && hit.reason == "YARA: " + det.yara(t).value.rule + " - " + det.yara(t).value.description
  {
  }

  /** What inspection reports is the threat of a target, or the remembered one of a target. */
  lemma {:induction false} FoundComesFrom(
      cfg: Config, det: Detectors, files: Files, targets: seq<bytes>, ct: string) returns (t: bytes)
    requires Inspect(cfg, det, files, targets, ct).1.Some?
    ensures t in targets && t != []
    ensures var found := Inspect(cfg, det, files, targets, ct).1.value;
            || Threat(det, t, ct) == Some(found)
            || (cfg.hasDb && det.sha(t) in files && files[det.sha(t)].verdict == "MALICIOUS"
                && found.rule == files[det.sha(t)].threat)
    decreases |targets|
  {
    if targets[0] == [] {
      t := FoundComesFrom(cfg, det, files, targets[1..], ct);
    } else if (cfg.hasDb && det.sha(targets[0]) in files) || Bad(det, targets[0], ct) {
      t := targets[0];
    } else {
      t := FoundComesFrom(
        cfg, det, Remember(cfg, files, det.sha(targets[0]), FileRow("CLEAN", "")), targets[1..], ct);
    }
  }

  // ---- Answers ----

  /** The answer to a finding: in shadow mode it only says what would have happened. */
  ghost predicate Finding(cfg: Config, r: Response, tier: int, cve: string, rule: string, reason: string, score: real) {
    && r.tier == tier && r.cveId == cve && r.ruleName == rule && r.score == score
    && r.action == (if cfg.shadow then "PERMIT" else "BLOCK")
    && r.reason == (if cfg.shadow then "[SHADOW] Would block: " + reason else reason)
  }

  ghost predicate Permitted(r: Response, reason: string, score: real) {
    r == Response("PERMIT", 0, "", "", reason, score)
  }

  /** The request is answered by a row or for a static file; nothing else looks at it. */
  ghost predicate Shortcut(cfg: Config, det: Detectors, c: Caches, req: Request, now: int) {
    det.isStatic(req.uri) || (cfg.hasDb && req.ip in c.ips && c.ips[req.ip].expires > now)
  }

  lemma {:induction false} StaticAnswer(cfg: Config, det: Detectors, c: Caches, req: Request, now: int)
    requires det.isStatic(req.uri)
    ensures Permitted(ResponseTo(cfg, det, c, req, now), "static file - skipped", 0.0)
    ensures !Reported(Decide(cfg, det, c, req, now).0) && CachesAfter(cfg, det, c, req, now) == c
  {
  }

  lemma {:induction false} CachedAnswer(cfg: Config, det: Detectors, c: Caches, req: Request, now: int)
    requires !det.isStatic(req.uri) && cfg.hasDb && req.ip in c.ips && c.ips[req.ip].expires > now
    ensures var row, r := c.ips[req.ip], ResponseTo(cfg, det, c, req, now);
            if row.verdict == "BLOCK" then
              Finding(cfg, r, 0, "CACHED-BLOCK", "", row.reason, 0.0) && Reported(Decide(cfg, det, c, req, now).0)
            else
              Permitted(r, "cached permit: " + row.reason, 0.0) && !Reported(Decide(cfg, det, c, req, now).0)
    ensures CachesAfter(cfg, det, c, req, now) == c
  {
  }

  /** Everything below the caches is reported. */
  lemma {:induction false} TiersAreReported(cfg: Config, det: Detectors, c: Caches, req: Request, now: int)
    requires !Shortcut(cfg, det, c, req, now)
    ensures Reported(Decide(cfg, det, c, req, now).0)
  {
  }

  lemma {:induction false} CveAnswer(cfg: Config, det: Detectors, c: Caches, req: Request, now: int, h: CveHit)
    requires !Shortcut(cfg, det, c, req, now) && det.tier1(req) == Some(h)
    ensures Finding(cfg, ResponseTo(cfg, det, c, req, now), 1, h.cveId, "",
                    "CVE pattern match: " + h.name + " - " + h.description, 0.0)
  {
  }

  lemma {:induction false} InjectionAnswer(cfg: Config, det: Detectors, c: Caches, req: Request, now: int)
    requires !Shortcut(cfg, det, c, req, now) && det.tier1(req).None?
    ensures det.sqli(req).Some? ==>
              Finding(cfg, ResponseTo(cfg, det, c, req, now), 2, "GENERIC-SQLI", "", det.sqli(req).value, 0.0)
    ensures det.sqli(req).None? && det.xss(req).Some? ==>
              Finding(cfg, ResponseTo(cfg, det, c, req, now), 2, "GENERIC-XSS", "", det.xss(req).value, 0.0)
  {
  }

  /** The finding of content inspection, if the request is inspected and something is found. */
  ghost function ContentFinding(cfg: Config, det: Detectors, c: Caches, req: Request): Option<ContentHit> {
    if Inspected(cfg, det, req) then Inspect(cfg, det, c.files, TargetsOf(cfg, det, req), req.contentType).1 else None
  }

  lemma {:induction false} LateAnswer(cfg: Config, det: Detectors, c: Caches, req: Request, now: int)
    requires !Shortcut(cfg, det, c, req, now) && !EarlyFinding(det, req)
    ensures var r, found, ml := ResponseTo(cfg, det, c, req, now), ContentFinding(cfg, det, c, req), det.ml(req);
            if found.Some? then Finding(cfg, r, 4, "", found.value.rule, found.value.reason, 0.0)
            else if ml.block then Finding(cfg, r, 3, "", "", "ML anomaly score: " + ml.reason, ml.score)
            else Permitted(r, "all security checks passed", ml.score)
  {
  }

  // ---- What is remembered of an address ----

  /** The row of ip after the request: written now, and expiring within a second of its time. */
  ghost predicate FreshRow(cfg: Config, row: IpRow, verdict: string, reason: string, cve: string, now: int) {
    && row.verdict == verdict && row.reason == reason && row.cveId == cve
    && now + cfg.ttl * 1000000 - 1000000 < row.expires <= now + cfg.ttl * 1000000
  }

  ghost predicate OnlyRowOf(ip: string, before: Caches, after: Caches) {
    ip in after.ips && forall other :: other != ip ==>
      && (other in after.ips <==> other in before.ips)
      && (other in after.ips ==> after.ips[other] == before.ips[other])
  }

  /** Nothing was found in the request, at any stage. */
  ghost predicate FoundNothing(cfg: Config, det: Detectors, c: Caches, req: Request) {
    !EarlyFinding(det, req) && ContentFinding(cfg, det, c, req).None? && !det.ml(req).block
  }

  lemma {:induction false} CveIsRemembered(cfg: Config, det: Detectors, c: Caches, req: Request, now: int, h: CveHit)
    requires cfg.hasDb && !Shortcut(cfg, det, c, req, now) && det.tier1(req) == Some(h)
    ensures var after := CachesAfter(cfg, det, c, req, now);
            && OnlyRowOf(req.ip, c, after)
            && FreshRow(cfg, after.ips[req.ip], "BLOCK", "CVE: " + h.cveId, h.cveId, now)
            && after.files == c.files
  {
    ExpiryBounds(cfg, now);
  }

  lemma {:induction false} PassIsRemembered(cfg: Config, det: Detectors, c: Caches, req: Request, now: int)
    requires cfg.hasDb && !Shortcut(cfg, det, c, req, now) && FoundNothing(cfg, det, c, req)
    ensures var after := CachesAfter(cfg, det, c, req, now);
            && OnlyRowOf(req.ip, c, after)
            && FreshRow(cfg, after.ips[req.ip], "PERMIT", "all checks passed", "", now)
  {
    ExpiryBounds(cfg, now);
  }

  lemma {:induction false} OthersAreNotRemembered(cfg: Config, det: Detectors, c: Caches, req: Request, now: int)
    requires !cfg.hasDb || Shortcut(cfg, det, c, req, now)
             || (det.tier1(req).None? && !FoundNothing(cfg, det, c, req))
    ensures CachesAfter(cfg, det, c, req, now).ips == c.ips
  {
  }

  // ---- And what it means later ----

  function Append(h: History, more: History): History {
    match more
    case Start => h
    case Then(b, req, now) => Then(Append(h, b), req, now)
  }

  lemma {:induction false} CachesAtAppend(cfg: Config, det: Detectors, c: Caches, h: History, more: History)
    ensures CachesAt(cfg, det, c, Append(h, more)) == CachesAt(cfg, det, CachesAt(cfg, det, c, h), more)
  {
    if more.Then? { CachesAtAppend(cfg, det, c, h, more.before); }
  }

  /** A live row decides the answer to a later request of its address, whatever came in between. */
  lemma {:induction false} RowDecidesLater(
      cfg: Config, det: Detectors, h: History, more: History, row: IpRow, later: Request, t: int)
    requires cfg.hasDb && later.ip in CachesAt(cfg, det, EMPTY, h).ips
    requires CachesAt(cfg, det, EMPTY, h).ips[later.ip] == row
    requires AllBefore(more, row.expires) && t < row.expires && !det.isStatic(later.uri)
    ensures var r := ResponseTo(cfg, det, CachesAt(cfg, det, EMPTY, Append(h, more)), later, t);
            if row.verdict == "BLOCK" then Finding(cfg, r, 0, "CACHED-BLOCK", "", row.reason, 0.0)
            else Permitted(r, "cached permit: " + row.reason, 0.0)
  {
    CachesAtAppend(cfg, det, EMPTY, h, more);
    RowsStick(cfg, det, CachesAt(cfg, det, EMPTY, h), more, later.ip, row);
    CachedAnswer(cfg, det, CachesAt(cfg, det, EMPTY, Append(h, more)), later, t);
  }

  /** After a CVE match of an address that no live row answers, every request of that address that
      is not for a static file is answered by a cached block until a second before its time to
      live is over. */
  lemma {:induction false} CveBlocksLater(
      cfg: Config, det: Detectors, h: History, hit: CveHit, more: History, later: Request, t: int)
    requires cfg.hasDb && h.Then? && later.ip == h.req.ip && !det.isStatic(later.uri)
    requires !Shortcut(cfg, det, CachesAt(cfg, det, EMPTY, h.before), h.req, h.now) && det.tier1(h.req) == Some(hit)
    requires AllBefore(more, h.now + cfg.ttl * 1000000 - 1000000 + 1) && t <= h.now + cfg.ttl * 1000000 - 1000000
    ensures Finding(cfg, ResponseTo(cfg, det, CachesAt(cfg, det, EMPTY, Append(h, more)), later, t),
                    0, "CACHED-BLOCK", "", "CVE: " + hit.cveId, 0.0)
  {
    CveIsRemembered(cfg, det, CachesAt(cfg, det, EMPTY, h.before), h.req, h.now, hit);
    var row := CachesAt(cfg, det, EMPTY, h).ips[h.req.ip];
    BeforeLater(more, h.now + cfg.ttl * 1000000 - 1000000 + 1, row.expires);
    RowDecidesLater(cfg, det, h, more, row, later, t);
  }

  /** The same for a request that passed everything, and permits. */
  lemma {:induction false} PassPermitsLater(
      cfg: Config, det: Detectors, h: History, more: History, later: Request, t: int)
    requires cfg.hasDb && h.Then? && later.ip == h.req.ip && !det.isStatic(later.uri)
    requires !Shortcut(cfg, det, CachesAt(cfg, det, EMPTY, h.before), h.req, h.now)
    requires FoundNothing(cfg, det, CachesAt(cfg, det, EMPTY, h.before), h.req)
    requires AllBefore(more, h.now + cfg.ttl * 1000000 - 1000000 + 1) && t <= h.now + cfg.ttl * 1000000 - 1000000
    ensures Permitted(ResponseTo(cfg, det, CachesAt(cfg, det, EMPTY, Append(h, more)), later, t),
                      "cached permit: " + "all checks passed", 0.0)
  {
    PassIsRemembered(cfg, det, CachesAt(cfg, det, EMPTY, h.before), h.req, h.now);
    var row := CachesAt(cfg, det, EMPTY, h).ips[h.req.ip];
    BeforeLater(more, h.now + cfg.ttl * 1000000 - 1000000 + 1, row.expires);
    RowDecidesLater(cfg, det, h, more, row, later, t);
  }

  lemma {:induction false} BeforeLater(h: History, t: int, u: int)
    requires AllBefore(h, t) && t <= u
    ensures AllBefore(h, u)
  {
    if h.Then? { BeforeLater(h.before, t, u); }
  }
}
