/** File-type detection by leading bytes, and the content-type spoofing check. */
module MagicBytes {
  import opened Bytes
  import opened Text

  datatype Signature = Signature(key: string, magic: bytes, description: string, dangerous: bool)

  const SIGNATURES: seq<Signature> := [
    Signature("EXE_WINDOWS", [0x4D, 0x5A], "Windows PE Executable", true),
    Signature("ELF_LINUX", [0x7F, 0x45, 0x4C, 0x46], "Linux ELF Executable", true),
    Signature("MACHO", [0xCE, 0xFA, 0xED, 0xFE], "macOS Mach-O Binary", true),
    Signature("PHP_SCRIPT", [0x3C, 0x3F, 0x70, 0x68, 0x70], "PHP Script (<?php)", true),
    Signature("PHP_SHORT", [0x3C, 0x3F], "PHP Short Tag (<?)", true),
    Signature("SHELL_SHEBANG", [0x23, 0x21], "Shell Script (#!)", true),
    Signature("JAVA_CLASS", [0xCA, 0xFE, 0xBA, 0xBE], "Java Class File", true),
    Signature("ZIP", [0x50, 0x4B, 0x03, 0x04], "ZIP / Office Document", false),
    Signature("GZIP", [0x1F, 0x8B], "GZIP", false),
    Signature("7ZIP", [0x37, 0x7A, 0xBC, 0xAF, 0x27, 0x1C], "7-Zip Archive", false),
    Signature("RAR", [0x52, 0x61, 0x72, 0x21, 0x1A, 0x07], "RAR Archive", false),
    Signature("PDF", [0x25, 0x50, 0x44, 0x46], "PDF Document", false),
    Signature("OLE2", [0xD0, 0xCF, 0x11, 0xE0], "MS Office OLE2 (doc/xls/ppt)", false),
    Signature("JPEG", [0xFF, 0xD8, 0xFF], "JPEG Image", false),
    Signature("PNG", [0x89, 0x50, 0x4E, 0x47, 0x0D, 0x0A, 0x1A, 0x0A], "PNG Image", false),
    Signature("GIF87", [0x47, 0x49, 0x46, 0x38, 0x37, 0x61], "GIF87 Image", false),
    Signature("GIF89", [0x47, 0x49, 0x46, 0x38, 0x39, 0x61], "GIF89 Image", false)
  ]

  type Expected = map<string, seq<string>>

  const EXPECTED: Expected := map[
    "image/jpeg" := ["JPEG"],
    "image/png" := ["PNG"],
    "image/gif" := ["GIF87", "GIF89"],
    "application/pdf" := ["PDF"],
    "application/zip" := ["ZIP", "7ZIP", "RAR"]
  ]

  /** The signature table and the spoof table. */
  datatype Tables = Tables(signatures: seq<Signature>, expected: Expected)

  function Shipped(): Tables {
    Tables(SIGNATURES, EXPECTED)
  }

  datatype MagicResult = MagicResult(
    detectedKey: string, description: string, isDangerous: bool, isSpoofed: bool, shouldBlock: bool, reason: string)

  const NOTHING: MagicResult := MagicResult("", "", false, false, false, "")

  predicate StartsWith(header: bytes, magic: bytes) {
    magic <= header
  }

  /** s is the first signature in table order that the data starts with. */
  ghost predicate Detected(sigs: seq<Signature>, header: bytes, s: Signature) {
    exists i :: 0 <= i < |sigs| && s == sigs[i] && StartsWith(header, s.magic)
                && forall k :: 0 <= k < i ==> !StartsWith(header, sigs[k].magic)
  }

  ghost predicate Undetected(sigs: seq<Signature>, header: bytes) {
    forall k :: 0 <= k < |sigs| ==> !StartsWith(header, sigs[k].magic)
  }

  function Detect(sigs: seq<Signature>, header: bytes): (r: Option<Signature>)
    ensures r.Some? ==> Detected(sigs, header, r.value)
    ensures r.None? ==> Undetected(sigs, header)
  {
    if sigs == [] then None
    else if StartsWith(header, sigs[0].magic) then Some(sigs[0])
    else
      var r := Detect(sigs[1..], header);
      assert r.Some? ==> Detected(sigs, header, r.value) by {
        if r.Some? {
          var i :| 0 <= i < |sigs[1..]| && r.value == sigs[1..][i] && StartsWith(header, r.value.magic)
                   && forall k :: 0 <= k < i ==> !StartsWith(header, sigs[1..][k].magic);
          assert forall k :: 0 < k < i + 1 ==> sigs[k] == sigs[1..][k - 1];
          assert r.value == sigs[i + 1];
        }
      }
      assert forall k :: 0 < k < |sigs| ==> sigs[k] == sigs[1..][k - 1];
      r
  }

  function Header(data: bytes): bytes {
    if |data| > 16 then data[..16] else data
  }

  /** The declared type without its parameters. */
  function BaseType(declared: string): string {
    TrimSpace(Lower(declared[..IndexOf(declared, ';')]))
  }

  predicate Spoofed(expected: Expected, declared: string, key: string) {
    BaseType(declared) in expected && key !in expected[BaseType(declared)]
  }

  function Validate(tb: Tables, data: bytes, declared: string): MagicResult {
    if |data| < 2 then NOTHING
    else
      match Detect(tb.signatures, Header(data))
      case None => NOTHING
      case Some(s) =>
        if s.dangerous then
          MagicResult(s.key, s.description, true, false, true, "Dangerous file type detected: " + s.description)
        else if Spoofed(tb.expected, declared, s.key) then
          MagicResult(s.key, s.description, false, true, true,
            "Content-Type spoofing: claimed '" + BaseType(declared) + "' but file is actually " + s.description)
        else
          MagicResult(s.key, s.description, false, false, false, "")
  }

  method Matches(header: bytes, magic: bytes) returns (ok: bool)
    ensures ok <==> StartsWith(header, magic)
  {
    if |header| < |magic| {
      return false;
    }
    for j := 0 to |magic|
      invariant header[..j] == magic[..j]
    {
      if header[j] != magic[j] {
        assert header[..|magic|][j] != magic[j];
        return false;
      }
      assert header[..j + 1] == header[..j] + [header[j]] && magic[..j + 1] == magic[..j] + [magic[j]];
    }
    assert magic[..|magic|] == magic;
    return true;
  }

  method ValidateMagicBytes(tb: Tables, data: bytes, declared: string) returns (result: MagicResult)
    ensures result == Validate(tb, data, declared)
  {
    result := NOTHING;
    if |data| < 2 {
      return;
    }
    var header := Header(data);
    var detected: Option<Signature> := None;
    var rest := tb.signatures;
    while rest != [] && detected.None?
      invariant detected.Some? ==> Detect(tb.signatures, header) == detected
      invariant detected.None? ==> Detect(tb.signatures, header) == Detect(rest, header)
      decreases |rest|
    {
      var ok := Matches(header, rest[0].magic);
      if ok {
        detected := Some(rest[0]);
      }
      rest := rest[1..];
    }
    if detected.None? {
      return;
    }
    var sig := detected.value;
    result := result.(detectedKey := sig.key, description := sig.description, isDangerous := sig.dangerous);
    if sig.dangerous {
      result := result.(shouldBlock := true, reason := "Dangerous file type detected: " + sig.description);
      return;
    }
    var ct := BaseType(declared);
    if ct in tb.expected {
      var expected := tb.expected[ct];
      var spoofed := true;
      for i := 0 to |expected|
        invariant spoofed <==> sig.key !in expected[..i]
      {
        assert expected[..i + 1] == expected[..i] + [expected[i]];
        if expected[i] == sig.key {
          spoofed := false;
        }
      }
      assert expected[..|expected|] == expected;
      if spoofed {
        result := result.(isSpoofed := true, shouldBlock := true,
          reason := "Content-Type spoofing: claimed '" + ct + "' but file is actually " + sig.description);
      }
    }
  }

  /** Magic numbers that fit the header and that no shorter input can start with. */
  ghost predicate Fitting(sigs: seq<Signature>) {
    forall i :: 0 <= i < |sigs| ==> 2 <= |sigs[i].magic| <= 16
  }

  lemma ShippedFits()
    ensures Fitting(Shipped().signatures)
  {
  }

  lemma HeaderDecides(data: bytes, magic: bytes)
    requires |magic| <= 16
    ensures StartsWith(Header(data), magic) <==> StartsWith(data, magic)
  {
    if |data| > 16 && magic <= data {
      assert data[..16][..|magic|] == data[..|magic|];
    }
    if |data| > 16 && magic <= data[..16] {
      assert data[..16][..|magic|] == data[..|magic|];
    }
  }

  /** At most one signature comes first. */
  lemma DetectedOnce(sigs: seq<Signature>, data: bytes, s: Signature, t: Signature)
    requires Detected(sigs, data, s) && Detected(sigs, data, t)
    ensures s == t
  {
    var i :| 0 <= i < |sigs| && s == sigs[i] && StartsWith(data, s.magic)
             && forall k :: 0 <= k < i ==> !StartsWith(data, sigs[k].magic);
    var j :| 0 <= j < |sigs| && t == sigs[j] && StartsWith(data, t.magic)
             && forall k :: 0 <= k < j ==> !StartsWith(data, sigs[k].magic);
    assert i == j;
  }

  lemma DetectedInHeader(sigs: seq<Signature>, data: bytes, s: Signature)
    requires Fitting(sigs)
    ensures Detected(sigs, Header(data), s) <==> Detected(sigs, data, s)
  {
    forall k | 0 <= k < |sigs| ensures StartsWith(Header(data), sigs[k].magic) <==> StartsWith(data, sigs[k].magic) {
      HeaderDecides(data, sigs[k].magic);
    }
  }

  /** Cutting the data to a header and skipping tiny inputs lose nothing: content is blocked
      exactly when the first signature the whole data starts with is dangerous, or contradicts
      the declared type. */
  lemma BlocksIff(tb: Tables, data: bytes, declared: string)
    requires Fitting(tb.signatures)
    ensures Validate(tb, data, declared).shouldBlock <==>
            exists s :: Detected(tb.signatures, data, s) && (s.dangerous || Spoofed(tb.expected, declared, s.key))
  {
    var r := Detect(tb.signatures, Header(data));
    forall s | Detected(tb.signatures, data, s) ensures |data| >= 2 && r == Some(s) {
      DetectedInHeader(tb.signatures, data, s);
      if r.Some? { DetectedOnce(tb.signatures, Header(data), r.value, s); }
    }
    if r.Some? { DetectedInHeader(tb.signatures, data, r.value); }
  }

  /** The data begins as a harmless type that the spoof table contradicts under one of two
      declared types and not under the other. */
  ghost predicate Disputed(tb: Tables, data: bytes, a: string, b: string) {
    |data| >= 2 &&
    exists s :: Detected(tb.signatures, Header(data), s) && !s.dangerous &&
                (Spoofed(tb.expected, a, s.key) <==> !Spoofed(tb.expected, b, s.key))
  }

  /** Two declared types give one verdict exactly for the data they do not dispute. */
  lemma SameVerdictIff(tb: Tables, data: bytes, a: string, b: string)
    ensures (Validate(tb, data, a).shouldBlock <==> Validate(tb, data, b).shouldBlock) <==> !Disputed(tb, data, a, b)
  {
    var r := Detect(tb.signatures, Header(data));
    if Disputed(tb, data, a, b) {
      var s :| Detected(tb.signatures, Header(data), s) && !s.dangerous &&
               (Spoofed(tb.expected, a, s.key) <==> !Spoofed(tb.expected, b, s.key));
      if r.Some? { DetectedOnce(tb.signatures, Header(data), r.value, s); }
    }
  }

  // ---- The shipped tables ----

  /** What is dangerous whatever it is declared as: `MZ`, `\\x7fELF`, Mach-O, `<?`, `#!`, and Java
      classes. */
  predicate LooksDangerous(data: bytes) {
    || [0x4D, 0x5A] <= data || [0x7F, 0x45, 0x4C, 0x46] <= data || [0xCE, 0xFA, 0xED, 0xFE] <= data
    || [0x3C, 0x3F] <= data || [0x23, 0x21] <= data || [0xCA, 0xFE, 0xBA, 0xBE] <= data
  }

  lemma {:induction false} DangerousIff(data: bytes)
    ensures (exists s :: Detected(SIGNATURES, data, s) && s.dangerous) <==> LooksDangerous(data)
  {
    if LooksDangerous(data) {
      LooksFits(data);
      var k := FirstFit(data, 7);
      TableOfDangerous(k);
      assert Detected(SIGNATURES, data, SIGNATURES[k]);
    }
    forall s | Detected(SIGNATURES, data, s) && s.dangerous ensures LooksDangerous(data) {
      var i :| 0 <= i < |SIGNATURES| && s == SIGNATURES[i] && StartsWith(data, s.magic);
      TableOfDangerous(i);
      FitsLooks(data, i);
    }
  }

  lemma {:induction false} TableOfDangerous(i: nat)
    requires i < |SIGNATURES|
    ensures SIGNATURES[i].dangerous <==> i < 7
  {
  }

  lemma {:induction false} LooksFits(data: bytes)
    requires LooksDangerous(data)
    ensures exists i :: 0 <= i < 7 && StartsWith(data, SIGNATURES[i].magic)
  {
    if [0x4D, 0x5A] <= data { assert StartsWith(data, SIGNATURES[0].magic); }
    else if [0x7F, 0x45, 0x4C, 0x46] <= data { assert StartsWith(data, SIGNATURES[1].magic); }
    else if [0xCE, 0xFA, 0xED, 0xFE] <= data { assert StartsWith(data, SIGNATURES[2].magic); }
    else if [0x3C, 0x3F] <= data { assert StartsWith(data, SIGNATURES[4].magic); }
    else if [0x23, 0x21] <= data { assert StartsWith(data, SIGNATURES[5].magic); }
    else { assert StartsWith(data, SIGNATURES[6].magic); }
  }

  lemma {:induction false} FitsLooks(data: bytes, i: nat)
    requires i < 7 && StartsWith(data, SIGNATURES[i].magic)
    ensures LooksDangerous(data)
  {
    PhpIsShort(data);
  }

  lemma {:induction false} PhpIsShort(data: bytes)
    ensures [0x3C, 0x3F, 0x70, 0x68, 0x70] <= data ==> [0x3C, 0x3F] <= data
  {
    var long: bytes, short: bytes := [0x3C, 0x3F, 0x70, 0x68, 0x70], [0x3C, 0x3F];
    if long <= data { assert data[..2] == long[..2] == short; }
  }

  /** The first of the first m signatures that fits. */
  lemma {:induction false} FirstFit(data: bytes, m: nat) returns (k: nat)
    requires m <= |SIGNATURES| && exists i :: 0 <= i < m && StartsWith(data, SIGNATURES[i].magic)
    ensures k < m && StartsWith(data, SIGNATURES[k].magic)
    ensures forall i :: 0 <= i < k ==> !StartsWith(data, SIGNATURES[i].magic)
    decreases m
  {
    if exists i :: 0 <= i < m - 1 && StartsWith(data, SIGNATURES[i].magic) {
      k := FirstFit(data, m - 1);
    } else {
      k := m - 1;
    }
  }

  /** Which declared types contradict which detected ones. */
  lemma {:induction false} ShippedSpoofIff(declared: string, key: string)
    ensures Spoofed(EXPECTED, declared, key) <==>
            var ct := BaseType(declared);
            || (ct == "image/jpeg" && key != "JPEG")
            || (ct == "image/png" && key != "PNG")
            || (ct == "image/gif" && key != "GIF87" && key != "GIF89")
            || (ct == "application/pdf" && key != "PDF")
            || (ct == "application/zip" && key != "ZIP" && key != "7ZIP" && key != "RAR")
  {
  }

  /** What the harmless ones begin with. */
  lemma {:induction false} HarmlessMagic(data: bytes, s: Signature)
    requires Detected(SIGNATURES, data, s) && !s.dangerous
    ensures || (s.key == "ZIP" && [0x50, 0x4B, 0x03, 0x04] <= data)
            || (s.key == "GZIP" && [0x1F, 0x8B] <= data)
            || (s.key == "7ZIP" && [0x37, 0x7A, 0xBC, 0xAF, 0x27, 0x1C] <= data)
            || (s.key == "RAR" && [0x52, 0x61, 0x72, 0x21, 0x1A, 0x07] <= data)
            || (s.key == "PDF" && [0x25, 0x50, 0x44, 0x46] <= data)
            || (s.key == "OLE2" && [0xD0, 0xCF, 0x11, 0xE0] <= data)
            || (s.key == "JPEG" && [0xFF, 0xD8, 0xFF] <= data)
            || (s.key == "PNG" && [0x89, 0x50, 0x4E, 0x47, 0x0D, 0x0A, 0x1A, 0x0A] <= data)
            || (s.key == "GIF87" && [0x47, 0x49, 0x46, 0x38, 0x37, 0x61] <= data)
            || (s.key == "GIF89" && [0x47, 0x49, 0x46, 0x38, 0x39, 0x61] <= data)
  {
    var i :| 0 <= i < |SIGNATURES| && s == SIGNATURES[i] && StartsWith(data, s.magic);
    assert i >= 7;
  }

  /** The result names the first signature the data starts with, and why it is refused. */
  lemma {:induction false} ResultNames(tb: Tables, data: bytes, declared: string, s: Signature)
    requires |data| >= 2 && Detected(tb.signatures, Header(data), s)
    ensures var r := Validate(tb, data, declared);
            && r.detectedKey == s.key && r.description == s.description && r.isDangerous == s.dangerous
            && (r.isSpoofed <==> !s.dangerous && Spoofed(tb.expected, declared, s.key))
            && (s.dangerous ==> r.reason == "Dangerous file type detected: " + s.description)
            && (r.isSpoofed ==> r.reason == "Content-Type spoofing: claimed '" + BaseType(declared)
                                            + "' but file is actually " + s.description)
  {
    var r := Detect(tb.signatures, Header(data));
    if r.Some? { DetectedOnce(tb.signatures, Header(data), r.value, s); }
  }

  /** Case, blanks around and parameters behind a semicolon do not matter. */
  lemma {:induction false} BaseTypeIgnores(before: string, name: string, after: string, rest: string)
    requires (forall c :: c in before ==> IsSpace(c)) && (forall c :: c in after ==> IsSpace(c))
    requires ';' !in before + name + after
    requires name != [] && !IsSpace(name[0]) && !IsSpace(name[|name| - 1])
    ensures BaseType(before + name + after + [';'] + rest) == Lower(name)
  {
    var all := before + name + after;
    IndexOfJoin(all, ';', rest);
    assert (all + [';'] + rest)[..|all|] == all;
    assert Lower(all) == Lower(before) + Lower(name) + Lower(after);
    assert forall i :: 0 <= i < |before| ==> before[i] in before;
    assert forall i :: 0 <= i < |after| ==> after[i] in after;
    TrimSpaceFinds(Lower(before), Lower(name), Lower(after));
  }

  /** Parameters after a semicolon do not matter. */
  lemma {:induction false} BaseTypeOf(name: string, rest: string)
    requires ';' !in name && Lower(name) == name
    requires name != [] && !IsSpace(name[0]) && !IsSpace(name[|name| - 1])
    ensures BaseType(name + [';'] + rest) == name == BaseType(name)
  {
    BaseTypeIgnores([], name, [], rest);
    assert [] + name + [] == name;
    WholeIsBaseType(name);
  }

  lemma {:induction false} WholeIsBaseType(name: string)
    requires ';' !in name && Lower(name) == name
    requires name != [] && !IsSpace(name[0]) && !IsSpace(name[|name| - 1])
    ensures BaseType(name) == name
  {
    IndexOfNone(name, ';');
    assert name[..|name|] == name && [] + name + [] == name;
    TrimSpaceFinds([], name, []);
  }

  const ZIP_MAGIC: bytes := [0x50, 0x4B, 0x03, 0x04]

  const ZIP: Signature := Signature("ZIP", ZIP_MAGIC, "ZIP / Office Document", false)

  lemma ZipIsFirst(header: bytes)
    requires ZIP_MAGIC <= header
    ensures Detected(SIGNATURES, header, ZIP)
  {
    assert header[0] == ZIP_MAGIC[0];
    assert SIGNATURES[7] == ZIP;
    forall k | 0 <= k < 7 ensures !StartsWith(header, SIGNATURES[k].magic) {
      assert SIGNATURES[k].magic[0] != 0x50;
    }
  }

  /** The first signature and the declared type decide. */
  lemma FirstDecides(tb: Tables, data: bytes, s: Signature, declared: string)
    requires |data| >= 2 && Detected(tb.signatures, Header(data), s)
    ensures Validate(tb, data, declared).shouldBlock <==> s.dangerous || Spoofed(tb.expected, declared, s.key)
  {
    var r := Detect(tb.signatures, Header(data));
    if r.Some? { DetectedOnce(tb.signatures, Header(data), r.value, s); }
  }

  lemma PdfIsNotZip(declared: string)
    requires BaseType(declared) == "application/pdf"
    ensures Spoofed(EXPECTED, declared, "ZIP")
  {
  }

  lemma JsonMayBeZip(declared: string)
    requires BaseType(declared) == "application/json"
    ensures !Spoofed(EXPECTED, declared, "ZIP")
  {
  }

  /** The shipped tables do dispute: a ZIP file declared as a PDF is blocked, and the same file
      declared as JSON is not, whatever follows in the file and in the first declaration. */
  lemma ZipAsPdf(more: bytes, rest: string)
    ensures var data, pdf := ZIP_MAGIC + more, "application/pdf" + [';'] + rest;
            && Disputed(Shipped(), data, pdf, "application/json")
            && Validate(Shipped(), data, pdf).shouldBlock
            && !Validate(Shipped(), data, "application/json").shouldBlock
  {
    var data, pdf := ZIP_MAGIC + more, "application/pdf" + [';'] + rest;
    ZipIsFirst(Header(data));
    PdfType(rest);
    PdfIsNotZip(pdf);
    JsonType();
    JsonMayBeZip("application/json");
    FirstDecides(Shipped(), data, ZIP, pdf);
    FirstDecides(Shipped(), data, ZIP, "application/json");
    SameVerdictIff(Shipped(), data, pdf, "application/json");
  }

  lemma PdfType(rest: string)
    ensures BaseType("application/pdf" + [';'] + rest) == "application/pdf"
  {
    BaseTypeOf("application/pdf", rest);
  }

  lemma JsonType()
    ensures BaseType("application/json") == "application/json"
  {
    BaseTypeOf("application/json", "");
  }

  /** Types outside the spoof table all give the same verdict. */
  lemma PlainTypesAgree(tb: Tables, data: bytes, a: string, b: string)
    requires BaseType(a) !in tb.expected && BaseType(b) !in tb.expected
    ensures Validate(tb, data, a) == Validate(tb, data, b)
  {
  }
}
