/** The agent's decision pipeline: verdict flow, the IP and file-hash caches, shadow mode. */
module Pipeline {
  import opened Bytes
  import opened Text
  import opened MagicBytes
  import opened Verdicts

  // ---- Requests, detectors, configuration ----

  datatype Request = Request(
    id: string, ip: string, method_: string, uri: string, query: string, contentType: string,
    userAgent: string, headers: map<string, string>, body: bytes)

  datatype CveHit = CveHit(cveId: string, name: string, description: string)
  datatype RuleHit = RuleHit(rule: string, description: string)
  datatype MlResult = MlResult(block: bool, score: real, reason: string)

  /** Everything the pipeline asks of code outside it. */
  datatype Detectors = Detectors(
    isStatic: string -> bool,
    tier1: Request -> Option<CveHit>,
    sqli: Request -> Option<string>,
    xss: Request -> Option<string>,
    decodeWhole: (bytes, string) -> Option<bytes>,
    candidates: bytes -> seq<bytes>,
    sha: bytes -> string,
    magic: Tables,
    yara: bytes -> Option<RuleHit>,
    ml: Request -> MlResult)

  datatype Config = Config(shadow: bool, hasDb: bool, fullScanLimit: int, sampleScanLimit: int, ttl: int)

  // ---- The two caches ----

  type Files = map<string, FileRow>
  datatype Caches = Caches(ips: map<string, IpRow>, files: Files)

  const SECOND: int := 1000000

  /** The expiry time, in microseconds, is stored with its fraction of a second cut off. */
  function Expiry(cfg: Config, now: int): int {
    (now + cfg.ttl * SECOND) / SECOND * SECOND
  }

  // ---- Responses ----

  datatype Response = Response(action: string, tier: int, cveId: string, ruleName: string, reason: string, score: real)

  function Block(cfg: Config, tier: int, cve: string, rule: string, reason: string, score: real): Response {
    if cfg.shadow then Response("PERMIT", tier, cve, rule, "[SHADOW] Would block: " + reason, score)
    else Response("BLOCK", tier, cve, rule, reason, score)
  }

  function Permit(tier: int, reason: string, score: real): Response {
    Response("PERMIT", tier, "", "", reason, score)
  }

  // ---- Content inspection ----

  function Min(a: int, b: int): int { if a < b then a else b }
  function Max(a: int, b: int): int { if a > b then a else b }

  /** Head, middle and tail of a large body. */
  function SampledTargets(body: bytes): seq<bytes> {
    var n := |body|;
    var mid := n / 2;
    [body[..Min(4096, n)], body[Max(0, mid - 2048)..Min(n, mid + 2048)], body[Max(0, n - 4096)..]]
  }

  function FullScanTargets(det: Detectors, body: bytes, ct: string): seq<bytes> {
    [body] + (match det.decodeWhole(body, ct) case Some(d) => [d] case None => []) + det.candidates(body)
  }

  /** What is inspected inline; nothing above the second limit. */
  function TargetsOf(cfg: Config, det: Detectors, req: Request): seq<bytes> {
    var size := |req.body|;
    if size <= cfg.fullScanLimit then FullScanTargets(det, req.body, req.contentType)
    else if size <= cfg.sampleScanLimit then SampledTargets(req.body)
    else []
  }

  const INSPECTED_TYPES: seq<string> := [
    "application/x-www-form-urlencoded", "application/json", "application/xml", "text/xml", "text/plain",
    "application/octet-stream", "multipart/form-data"
  ]

  /** Whether one of these stands anywhere in the declared type. */
  predicate ShouldInspectContent(ct: string) {
    exists i :: 0 <= i < |INSPECTED_TYPES| && Contains(Lower(ct), INSPECTED_TYPES[i])
  }

  lemma {:induction false} InspectedTypesAre(ct: string)
    ensures ShouldInspectContent(ct) <==>
            var c := Lower(ct);
            || Contains(c, "application/x-www-form-urlencoded") || Contains(c, "application/json")
            || Contains(c, "application/xml") || Contains(c, "text/xml") || Contains(c, "text/plain")
            || Contains(c, "application/octet-stream") || Contains(c, "multipart/form-data")
  {
    assert INSPECTED_TYPES[0] == "application/x-www-form-urlencoded" && INSPECTED_TYPES[1] == "application/json";
    assert INSPECTED_TYPES[2] == "application/xml" && INSPECTED_TYPES[3] == "text/xml";
    assert INSPECTED_TYPES[4] == "text/plain" && INSPECTED_TYPES[5] == "application/octet-stream";
    assert INSPECTED_TYPES[6] == "multipart/form-data";
  }

  predicate Inspected(cfg: Config, det: Detectors, req: Request) {
    |req.body| > 0 && ShouldInspectContent(req.contentType)
  }

  datatype ContentHit = ContentHit(rule: string, reason: string)

  /** Magic bytes, then YARA: why this content is malicious, if it is. */
  function Threat(det: Detectors, target: bytes, ct: string): Option<ContentHit> {
    var m := Validate(det.magic, target, ct);
    if m.shouldBlock then Some(ContentHit(m.detectedKey, m.reason))
    else
      match det.yara(target)
      case Some(hit) => Some(ContentHit(hit.rule, "YARA: " + hit.rule + " - " + hit.description))
      case None => None
  }

  /** The reason shows the first 16 characters of the hash. */
  function KnownBad(row: FileRow, hash: string): ContentHit {
    ContentHit(row.threat, "Known malicious content (SHA-256: " + hash[..Min(16, |hash|)] + "...)")
  }

  /** The inspection loop: the verdict, and the file cache it leaves. */
  function Inspect(
      cfg: Config, det: Detectors, files: Files, targets: seq<bytes>, ct: string): (Files, Option<ContentHit>)
    decreases |targets|
  {
    if targets == [] then (files, None)
    else if targets[0] == [] then Inspect(cfg, det, files, targets[1..], ct)
    else
      var hash := det.sha(targets[0]);
      if cfg.hasDb && hash in files then
        (files, if files[hash].verdict == "MALICIOUS" then Some(KnownBad(files[hash], hash)) else None)
      else
        match Threat(det, targets[0], ct)
        case Some(hit) => (Remember(cfg, files, hash, FileRow("MALICIOUS", hit.rule)), Some(hit))
        case None => Inspect(cfg, det, Remember(cfg, files, hash, FileRow("CLEAN", "")), targets[1..], ct)
  }

  function Remember(cfg: Config, files: Files, hash: string, row: FileRow): Files {
    if cfg.hasDb then files[hash := row] else files
  }

  // ---- One request ----

  /** Where a request's verdict was decided. */
  datatype Stage =
    | Static
    | Cached(row: IpRow)
    | Cve(hit: CveHit)
    | Injection(id: string, detail: string)
    | Content(found: ContentHit)
    | Anomaly(ml: MlResult)
    | Passed(score: real)

  /** The deciding stage and the file cache after content inspection. */
  function Decide(cfg: Config, det: Detectors, c: Caches, req: Request, now: int): (Stage, Files) {
    if det.isStatic(req.uri) then (Static, c.files)
    else if cfg.hasDb && LiveRow(c.ips, req.ip, now).Some? then (Cached(LiveRow(c.ips, req.ip, now).value), c.files)
    else DecideFresh(cfg, det, c.files, req)
  }

  /** The content stage, for requests whose type is inspected. */
  function BodyFinding(cfg: Config, det: Detectors, before: Files, req: Request): (Files, Option<ContentHit>) {
    if Inspected(cfg, det, req) then Inspect(cfg, det, before, TargetsOf(cfg, det, req), req.contentType)
    else (before, None)
  }

  /** The tiers, for a request no cache answers. */
  function DecideFresh(cfg: Config, det: Detectors, before: Files, req: Request): (Stage, Files) {
    if det.tier1(req).Some? then (Cve(det.tier1(req).value), before)
    else if det.sqli(req).Some? then (Injection("GENERIC-SQLI", det.sqli(req).value), before)
    else if det.xss(req).Some? then (Injection("GENERIC-XSS", det.xss(req).value), before)
    else DecideLate(cfg, det, before, req)
  }

  /** Content inspection and the anomaly score. */
  function DecideLate(cfg: Config, det: Detectors, before: Files, req: Request): (Stage, Files) {
    var (files, found) := BodyFinding(cfg, det, before, req);
    if found.Some? then (Content(found.value), files)
    else if det.ml(req).block then (Anomaly(det.ml(req)), files)
    else (Passed(det.ml(req).score), files)
  }

  function Respond(cfg: Config, s: Stage): Response {
    match s
    case Static => Permit(0, "static file - skipped", 0.0)
    case Cached(row) =>
      if row.verdict == "BLOCK" then Block(cfg, 0, "CACHED-BLOCK", "", row.reason, 0.0)
      else Permit(0, "cached permit: " + row.reason, 0.0)
    case Cve(h) => Block(cfg, 1, h.cveId, "", "CVE pattern match: " + h.name + " - " + h.description, 0.0)
    case Injection(id, detail) => Block(cfg, 2, id, "", detail, 0.0)
    case Content(hit) => Block(cfg, 4, "", hit.rule, hit.reason, 0.0)
    case Anomaly(ml) => Block(cfg, 3, "", "", "ML anomaly score: " + ml.reason, ml.score)
    case Passed(score) => Permit(0, "all security checks passed", score)
  }

  /** The IP row a stage writes, if any. */
  function NewRow(cfg: Config, s: Stage, now: int): Option<IpRow> {
    match s
    case Cve(h) => if cfg.hasDb then Some(IpRow("BLOCK", "CVE: " + h.cveId, h.cveId, Expiry(cfg, now))) else None
    case Passed(_) => if cfg.hasDb then Some(IpRow("PERMIT", "all checks passed", "", Expiry(cfg, now))) else None
    case _ => None
  }

  function Update(c: Caches, ip: string, row: Option<IpRow>, files: Files): Caches {
    match row
    case Some(r) => Caches(c.ips[ip := r], files)
    case None => Caches(c.ips, files)
  }

  function CachesAfter(cfg: Config, det: Detectors, c: Caches, req: Request, now: int): Caches {
    var (s, files) := Decide(cfg, det, c, req, now);
    Update(c, req.ip, NewRow(cfg, s, now), files)
  }

  function ResponseTo(cfg: Config, det: Detectors, c: Caches, req: Request, now: int): Response {
    Respond(cfg, Decide(cfg, det, c, req, now).0)
  }

  /** Every verdict but a static file's and a cached permit is reported. */
  predicate Reported(s: Stage) {
    !s.Static? && !(s.Cached? && s.row.verdict != "BLOCK")
  }

  datatype Event = Event(request: Request, response: Response)

  // ---- The pipeline object ----

  class PipelineServer {
    const cfg: Config
    const det: Detectors
    var ips: map<string, IpRow>
    var files: Files
    var events: seq<Event>

    constructor (cfg: Config, det: Detectors)
      ensures this.cfg == cfg && this.det == det && ips == map[] && files == map[] && events == []
    {
      this.cfg, this.det := cfg, det;
      ips, files, events := map[], map[], [];
    }

    function State(): Caches
      reads this
    {
      Caches(ips, files)
    }

    method BlockWith(
        tier: int, cve: string, rule: string, reason: string, score: real, req: Request) returns (resp: Response)
      modifies this`events
      ensures resp == Block(cfg, tier, cve, rule, reason, score)
      ensures events == old(events) + [Event(req, resp)]
    {
      var action, why := "BLOCK", reason;
      if cfg.shadow {
        action := "PERMIT";
        why := "[SHADOW] Would block: " + why;
      }
      resp := Response(action, tier, cve, rule, why, score);
      events := events + [Event(req, resp)];
    }

    method InspectContent(req: Request) returns (found: Option<ContentHit>)
      modifies this`files
      ensures (files, found) == Inspect(cfg, det, old(files), TargetsOf(cfg, det, req), req.contentType)
    {
      var rest := TargetsOf(cfg, det, req);
      ghost var before, all := files, rest;
      while rest != []
        invariant Inspect(cfg, det, files, rest, req.contentType) == Inspect(cfg, det, before, all, req.contentType)
        decreases |rest|
      {
        var target := rest[0];
        rest := rest[1..];
        if |target| == 0 {
          continue;
        }
        var hash := det.sha(target);
        if cfg.hasDb && hash in files {
          if files[hash].verdict == "MALICIOUS" {
            return Some(KnownBad(files[hash], hash));
          }
          return None;
        }
        var magic := ValidateMagicBytes(det.magic, target, req.contentType);
        if magic.shouldBlock {
          files := Remember(cfg, files, hash, FileRow("MALICIOUS", magic.detectedKey));
          return Some(ContentHit(magic.detectedKey, magic.reason));
        }
        var hit := det.yara(target);
        if hit.Some? {
          files := Remember(cfg, files, hash, FileRow("MALICIOUS", hit.value.rule));
          return Some(ContentHit(hit.value.rule, "YARA: " + hit.value.rule + " - " + hit.value.description));
        }
        files := Remember(cfg, files, hash, FileRow("CLEAN", ""));
      }
      return None;
    }

    method Check(req: Request, now: int) returns (resp: Response)
      modifies this
      ensures resp == ResponseTo(cfg, det, old(State()), req, now)
      ensures State() == CachesAfter(cfg, det, old(State()), req, now)
      ensures events == old(events) +
                (if Reported(Decide(cfg, det, old(State()), req, now).0) then [Event(req, resp)] else [])
    {
      if det.isStatic(req.uri) {
        resp := Permit(0, "static file - skipped", 0.0);
        return;
      }
      if cfg.hasDb {
        var row := LiveRow(ips, req.ip, now);
        if row.Some? {
          if row.value.verdict == "BLOCK" {
            resp := BlockWith(0, "CACHED-BLOCK", "", row.value.reason, 0.0, req);
            return;
          }
          resp := Permit(0, "cached permit: " + row.value.reason, 0.0);
          return;
        }
      }
      resp := RunTiers(req, now);
    }

    /** The part of Check below the caches. */
    method RunTiers(req: Request, now: int) returns (resp: Response)
      modifies this
      ensures var (s, after) := DecideFresh(cfg, det, old(files), req);
              && resp == Respond(cfg, s)
              && State() == Update(old(State()), req.ip, NewRow(cfg, s, now), after)
              && events == old(events) + [Event(req, resp)]
              && !s.Static? && !s.Cached?
    {
      var cve := det.tier1(req);
      if cve.Some? {
        var h := cve.value;
        if cfg.hasDb {
          ips := ips[req.ip := IpRow("BLOCK", "CVE: " + h.cveId, h.cveId, Expiry(cfg, now))];
        }
        resp := BlockWith(1, h.cveId, "", "CVE pattern match: " + h.name + " - " + h.description, 0.0, req);
        return;
      }
      var sqli := det.sqli(req);
      if sqli.Some? {
        resp := BlockWith(2, "GENERIC-SQLI", "", sqli.value, 0.0, req);
        return;
      }
      var xss := det.xss(req);
      if xss.Some? {
        resp := BlockWith(2, "GENERIC-XSS", "", xss.value, 0.0, req);
        return;
      }
      resp := RunLateTiers(req, now);
    }

    method RunLateTiers(req: Request, now: int) returns (resp: Response)
      modifies this
      ensures var (s, after) := DecideLate(cfg, det, old(files), req);
              && resp == Respond(cfg, s)
              && State() == Update(old(State()), req.ip, NewRow(cfg, s, now), after)
              && events == old(events) + [Event(req, resp)]
              && !s.Static? && !s.Cached?
    {
      if Inspected(cfg, det, req) {
        var found := InspectContent(req);
        if found.Some? {
          resp := BlockWith(4, "", found.value.rule, found.value.reason, 0.0, req);
          return;
        }
      }
      var ml := det.ml(req);
      if ml.block {
        resp := BlockWith(3, "", "", "ML anomaly score: " + ml.reason, ml.score, req);
        return;
      }
      if cfg.hasDb {
        ips := ips[req.ip := IpRow("PERMIT", "all checks passed", "", Expiry(cfg, now))];
      }
      resp := Permit(0, "all security checks passed", ml.score);
      events := events + [Event(req, resp)];
    }
  }
}
