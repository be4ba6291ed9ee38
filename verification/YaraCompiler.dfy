/** The line-driven parser that compiles YARA rules into flat pattern sets, and the scanner. */
module YaraCompiler {
  import opened Bytes
  import opened Text

  // ---- Patterns ----

  /** A compiled string: quoted text, or a regular expression left to the regex library. */
  datatype Regex = Literal(text: string, nocase: bool) | Expression(source: string, nocase: bool)

  /** The regex library: which expressions compile, what they match, and match counts. */
  datatype Engine = Engine(
    compiles: (string, bool) -> bool,
    matches: (string, bool, string) -> bool,
    occurrences: (Regex, string) -> nat)

  predicate Matches(e: Engine, re: Regex, text: string) {
    match re
    case Literal(lit, nocase) => if nocase then Contains(Lower(text), Lower(lit)) else Contains(text, lit)
    case Expression(src, nocase) => e.matches(src, nocase, text)
  }

  predicate HasNocase(raw: string) {
    Contains(raw, " nocase") || Contains(raw, "\tnocase")
  }

  /** `compileYARAString`: only the first space-delimited field of the definition is used. */
  function CompileString(e: Engine, raw: string): Option<Regex>
    requires Fields(raw) != []
  {
    var nocase := HasNocase(raw);
    var token := Fields(raw)[0];
    if HasPrefix(token, "/") then
      var last := LastIndexOf(token, '/');
      if last <= 0 then None
      else if e.compiles(token[1..last], nocase) then Some(Expression(token[1..last], nocase))
      else None
    else
      Some(Literal(TrimQuotes(token), nocase))
  }

  // ---- Rules ----

  datatype CountTest = CountTest(re: Regex, min: int)

  datatype Rule = Rule(
    name: string, namespace: string, severity: string, description: string,
    anyPatterns: seq<Regex>, count: Option<CountTest>)

  predicate RuleMatches(e: Engine, r: Rule, text: string) {
    match r.count
    case Some(c) => e.occurrences(c.re, text) >= c.min
    case None => exists re :: re in r.anyPatterns && Matches(e, re, text)
  }

  method TestRule(e: Engine, r: Rule, text: string) returns (hit: bool)
    ensures hit <==> RuleMatches(e, r, text)
  {
    match r.count {
      case Some(c) => return e.occurrences(c.re, text) >= c.min;
      case None =>
    }
    for i := 0 to |r.anyPatterns|
      invariant forall k :: 0 <= k < i ==> !Matches(e, r.anyPatterns[k], text)
    {
      if Matches(e, r.anyPatterns[i], text) {
        return true;
      }
    }
    return false;
  }

  /** What a scan reports: the first matching rule, if any; empty data matches nothing. */
  function FirstMatch(e: Engine, rules: seq<Rule>, text: string): (res: Option<Rule>)
    ensures res.Some? <==> text != [] && exists i :: 0 <= i < |rules| && RuleMatches(e, rules[i], text)
    ensures res.Some? ==> exists i :: 0 <= i < |rules| && res.value == rules[i] && RuleMatches(e, rules[i], text)
                                      && forall k :: 0 <= k < i ==> !RuleMatches(e, rules[k], text)
  {
    if text == [] || rules == [] then None
    else
      var init, last := rules[..|rules| - 1], rules[|rules| - 1];
      var before := FirstMatch(e, init, text);
      assert rules == init + [last];
      if before.Some? then before
      else if RuleMatches(e, last, text) then Some(last)
      else None
  }

  method Scan(e: Engine, rules: seq<Rule>, text: string) returns (res: Option<Rule>)
    ensures res == FirstMatch(e, rules, text)
  {
    if |text| == 0 {
      return None;
    }
    for i := 0 to |rules|
      invariant forall k :: 0 <= k < i ==> !RuleMatches(e, rules[k], text)
    {
      var hit := TestRule(e, rules[i], text);
      if hit {
        return Some(rules[i]);
      }
    }
    return None;
  }

  // ---- Map iteration ----

  type Defs = map<string, Regex>

  /** The order in which a `range` over a map visits its keys. */
  type Order = Defs -> seq<string>

  ghost predicate Enumerates(names: seq<string>, defs: Defs) {
    && (forall n :: n in names <==> n in defs)
    && (forall i, j :: 0 <= i < j < |names| ==> names[i] != names[j])
  }

  ghost predicate ValidOrder(o: Order) {
    forall d: Defs :: Enumerates(o(d), d)
  }

  /** A source line with the iteration order the runtime would pick while handling it. */
  datatype Line = Line(text: string, order: Order)

  /** Does a lower-cased condition line mention the name, with or without its `$`? */
  predicate Mentions(lower: string, name: string) {
    var clean := Lower(DropPrefix(name, '$'));
    Contains(lower, "$" + clean) || Contains(lower, clean)
  }

  /** None picks every string, Some(lower) the mentioned ones. */
  predicate Picks(defs: Defs, mention: Option<string>, name: string) {
    name in defs && (mention.Some? ==> Mentions(mention.value, name))
  }

  function Gather(defs: Defs, mention: Option<string>, names: seq<string>): seq<Regex> {
    if names == [] then []
    else
      var n := names[|names| - 1];
      Gather(defs, mention, names[..|names| - 1]) + (if Picks(defs, mention, n) then [defs[n]] else [])
  }

  lemma {:induction false} GatherIs(defs: Defs, mention: Option<string>, names: seq<string>, re: Regex)
    ensures re in Gather(defs, mention, names) <==> exists n :: n in names && Picks(defs, mention, n) && re == defs[n]
  {
    if names != [] {
      var init, last := names[..|names| - 1], names[|names| - 1];
      assert names == init + [last];
      GatherIs(defs, mention, init, re);
    }
  }

  /** Visits the map and collects the picked patterns. */
  method Collect(defs: Defs, mention: Option<string>, names: seq<string>) returns (res: seq<Regex>)
    ensures res == Gather(defs, mention, names)
  {
    res := [];
    for i := 0 to |names|
      invariant res == Gather(defs, mention, names[..i])
    {
      assert names[..i + 1][..i] == names[..i];
      var name := names[i];
      if Picks(defs, mention, name) {
        res := res + [defs[name]];
      }
    }
    assert names[..|names|] == names;
  }

  // ---- Count conditions ----

  predicate AllDigits(s: string) {
    s != [] && forall i :: 0 <= i < |s| ==> '0' <= s[i] <= '9'
  }

  /** `strconv.Atoi` on 64-bit platforms. */
  function Atoi(s: string): Option<int> {
    var digits := if s != [] && (s[0] == '+' || s[0] == '-') then s[1..] else s;
    if !AllDigits(digits) then None
    else
      var v: int := if s[0] == '-' then -DigitsValue(digits) else DigitsValue(digits);
      if -0x8000_0000_0000_0000 <= v < 0x8000_0000_0000_0000 then Some(v) else None
  }

  function FirstHint(defs: Defs, hint: string, names: seq<string>): Option<string> {
    if names == [] then None
    else if names[0] in defs && Contains(Lower(names[0]), hint) then Some(names[0])
    else FirstHint(defs, hint, names[1..])
  }

  function ApplyCount(lower: string, defs: Defs, names: seq<string>, r: Rule): Rule {
    var parts := Fields(lower);
    if |parts| < 3 || Atoi(parts[2]).None? then r
    else
      match FirstHint(defs, DropPrefix(parts[0], '#'), names)
      case None => r
      case Some(n) => if n in defs then r.(count := Some(CountTest(defs[n], Atoi(parts[2]).value))) else r
  }

  method ApplyCountCondition(lower: string, defs: Defs, names: seq<string>, r: Rule) returns (res: Rule)
    ensures res == ApplyCount(lower, defs, names, r)
  {
    var parts := Fields(lower);
    if |parts| < 3 || Atoi(parts[2]).None? {
      return r;
    }
    var hint := DropPrefix(parts[0], '#');
    var rest := names;
    while rest != []
      invariant FirstHint(defs, hint, rest) == FirstHint(defs, hint, names)
      decreases |rest|
    {
      if rest[0] in defs && Contains(Lower(rest[0]), hint) {
        return r.(count := Some(CountTest(defs[rest[0]], Atoi(parts[2]).value)));
      }
      rest := rest[1..];
    }
    return r;
  }

  // ---- The parser ----

  datatype Section = NoSection | Meta | Strings | Condition

  /** Crashed is the index-out-of-range panic on a definition with nothing after its `=`. */
  datatype Parser =
    | Parser(rules: seq<Rule>, current: Option<Rule>, defs: Defs, section: Section)
    | Crashed

  const INIT: Parser := Parser([], None, map[], NoSection)

  predicate Skipped(t: string) {
    HasPrefix(t, "//") || HasPrefix(t, "/*") || t == ""
  }

  function ExtractMeta(t: string): string {
    var i := IndexOf(t, '=');
    if i < |t| then TrimQuotes(TrimSpace(t[i + 1..])) else ""
  }

  function NewRule(name: string, ns: string): Rule {
    Rule(name, ns, "HIGH", "", [], None)
  }

  function MetaLine(t: string, r: Rule): Rule {
    if HasPrefix(t, "severity") then r.(severity := ExtractMeta(t))
    else if HasPrefix(t, "description") then r.(description := ExtractMeta(t))
    else r
  }

  function StringLine(e: Engine, t: string, st: Parser): Parser
    requires st.Parser?
  {
    if !HasPrefix(t, "$") then st
    else
      var i := IndexOf(t, '=');
      if i == |t| then st
      else
        var raw := TrimSpace(t[i + 1..]);
        if Fields(raw) == [] then Crashed
        else
          match CompileString(e, raw)
          case None => st
          case Some(re) => st.(defs := st.defs[TrimSpace(t[..i]) := re])
  }

  function ConditionLine(t: string, names: seq<string>, defs: Defs, r: Rule): Rule {
    var lower := Lower(t);
    if Contains(lower, "any of") || Contains(lower, "any of them") then
      r.(anyPatterns := r.anyPatterns + Gather(defs, None, names))
    else if HasPrefix(lower, "#") then ApplyCount(lower, defs, names, r)
    else r.(anyPatterns := r.anyPatterns + Gather(defs, Some(lower), names))
  }

  /** A rule none of whose conditions named a string falls back to all of them. */
  function Closed(r: Rule, defs: Defs, names: seq<string>): Rule {
    if r.anyPatterns == [] && r.count.None? then r.(anyPatterns := Gather(defs, None, names)) else r
  }

  function Step(e: Engine, ns: string, st: Parser, line: Line): Parser {
    var t := TrimSpace(line.text);
    if st.Crashed? || Skipped(t) then st
    else if HasPrefix(t, "rule ") then
      var parts := Fields(t);
      if |parts| >= 2 then Parser(st.rules, Some(NewRule(parts[1], ns)), map[], NoSection) else st
    else if st.current.None? then st
    else if t == "meta:" then st.(section := Meta)
    else if t == "strings:" then st.(section := Strings)
    else if t == "condition:" then st.(section := Condition)
    else if t == "}" then
      var r := st.current.value;
      Parser(
        if r.name != "" then st.rules + [Closed(r, st.defs, line.order(st.defs))] else st.rules,
        None, st.defs, NoSection)
    else
      match st.section
      case NoSection => st
      case Meta => st.(current := Some(MetaLine(t, st.current.value)))
      case Strings => StringLine(e, t, st)
      case Condition =>
        st.(current := Some(ConditionLine(t, line.order(st.defs), st.defs, st.current.value)))
  }

  function Run(e: Engine, ns: string, st: Parser, lines: seq<Line>): Parser {
    if lines == [] then st
    else Step(e, ns, Run(e, ns, st, lines[..|lines| - 1]), lines[|lines| - 1])
  }

  method HandleCondition(t: string, names: seq<string>, defs: Defs, r: Rule) returns (res: Rule)
    ensures res == ConditionLine(t, names, defs, r)
  {
    var lower := Lower(t);
    if Contains(lower, "any of") || Contains(lower, "any of them") {
      var all := Collect(defs, None, names);
      res := r.(anyPatterns := r.anyPatterns + all);
    } else if HasPrefix(lower, "#") {
      res := ApplyCountCondition(lower, defs, names, r);
    } else {
      var named := Collect(defs, Some(lower), names);
      res := r.(anyPatterns := r.anyPatterns + named);
    }
  }

  method CloseRule(names: seq<string>, defs: Defs, r: Rule) returns (res: Rule)
    ensures res == Closed(r, defs, names)
  {
    res := r;
    if |r.anyPatterns| == 0 && r.count.None? {
      var all := Collect(defs, None, names);
      res := r.(anyPatterns := all);
    }
  }

  /** `parseYARFile` on the lines of one file; None is the panic. */
  method ParseYarFile(e: Engine, ns: string, lines: seq<Line>) returns (res: Option<seq<Rule>>)
    ensures var end := Run(e, ns, INIT, lines);
            res == if end.Crashed? then None else Some(end.rules)
  {
    var rules: seq<Rule> := [];
    var current: Option<Rule> := None;
    var strDefs: Defs := map[];
    var section := NoSection;
    var i := 0;
    while i < |lines|
      invariant 0 <= i <= |lines|
      invariant Run(e, ns, INIT, lines[..i]) == Parser(rules, current, strDefs, section)
    {
      assert lines[..i + 1][..i] == lines[..i];
      ghost var st := Parser(rules, current, strDefs, section);
      assert Run(e, ns, INIT, lines[..i + 1]) == Step(e, ns, st, lines[i]);
      var line := TrimSpace(lines[i].text);
      var names := lines[i].order(strDefs);
      i := i + 1;
      if Skipped(line) {
        continue;
      }
      if HasPrefix(line, "rule ") {
        var parts := Fields(line);
        if |parts| >= 2 {
          current := Some(NewRule(parts[1], ns));
          strDefs := map[];
          section := NoSection;
        }
        continue;
      }
      if current.None? {
        continue;
      }
      var r := current.value;
      if line == "meta:" {
        section := Meta;
      } else if line == "strings:" {
        section := Strings;
      } else if line == "condition:" {
        section := Condition;
      } else if line == "}" {
        if r.name != "" {
          r := CloseRule(names, strDefs, r);
          rules := rules + [r];
        }
        current := None;
        section := NoSection;
      } else if section == Meta {
        current := Some(MetaLine(line, r));
      } else if section == Strings {
        var idx := IndexOf(line, '=');
        if HasPrefix(line, "$") && idx < |line| {
          var varName := TrimSpace(line[..idx]);
          var rawPat := TrimSpace(line[idx + 1..]);
          if Fields(rawPat) == [] {
            CrashedStays(e, ns, INIT, lines, i);
            return None;
          }
          var re := CompileString(e, rawPat);
          if re.Some? {
            strDefs := strDefs[varName := re.value];
          }
        }
      } else if section == Condition {
        r := HandleCondition(line, names, strDefs, r);
        current := Some(r);
      }
    }
    assert lines[..|lines|] == lines;
    return Some(rules);
  }

  lemma {:induction false} CrashedStays(e: Engine, ns: string, st: Parser, lines: seq<Line>, i: nat)
    requires i <= |lines| && Run(e, ns, st, lines[..i]).Crashed?
    ensures Run(e, ns, st, lines).Crashed?
    decreases |lines|
  {
    if i == |lines| {
      assert lines[..i] == lines;
    } else {
      var init := lines[..|lines| - 1];
      assert init[..i] == lines[..i];
      CrashedStays(e, ns, st, init, i);
    }
  }

  // ---- The engine ----

  /** One .yar file; an unreadable one is skipped. */
  datatype RuleFile = RuleFile(ns: string, lines: seq<Line>, readable: bool)

  /** The rules of all files in order; None when some file makes the parser panic. */
  function LoadAll(e: Engine, files: seq<RuleFile>): Option<seq<Rule>> {
    if files == [] then Some([])
    else
      var f := files[|files| - 1];
      match LoadAll(e, files[..|files| - 1])
      case None => None
      case Some(rules) =>
        if !f.readable then Some(rules)
        else
          match Run(e, f.ns, INIT, f.lines)
          case Crashed => None
          case Parser(more, _, _, _) => Some(rules + more)
  }

  lemma {:induction false} LoadFails(e: Engine, files: seq<RuleFile>, i: nat)
    requires i <= |files| && LoadAll(e, files[..i]).None?
    ensures LoadAll(e, files).None?
    decreases |files|
  {
    if i == |files| {
      assert files[..i] == files;
    } else {
      assert files[..|files| - 1][..i] == files[..i];
      LoadFails(e, files[..|files| - 1], i);
    }
  }

  class YaraEngine {
    const e: Engine
    var rules: seq<Rule>

    constructor (e: Engine)
      ensures this.e == e && rules == []
    {
      this.e := e;
      rules := [];
    }

    /** Replaces the rules by those of the files, all at once or not at all. */
    method Load(files: seq<RuleFile>) returns (ok: bool)
      modifies this
      ensures ok <==> LoadAll(e, files).Some?
      ensures rules == if ok then LoadAll(e, files).value else old(rules)
    {
      var loaded: seq<Rule> := [];
      var i := 0;
      while i < |files|
        invariant 0 <= i <= |files| && rules == old(rules)
        invariant LoadAll(e, files[..i]) == Some(loaded)
      {
        assert files[..i + 1][..i] == files[..i];
        var f := files[i];
        i := i + 1;
        if f.readable {
          var parsed := ParseYarFile(e, f.ns, f.lines);
          if parsed.None? {
            LoadFails(e, files, i);
            return false;
          }
          loaded := loaded + parsed.value;
        }
      }
      assert files[..|files|] == files;
      rules := loaded;
      return true;
    }

    method ScanData(text: string) returns (res: Option<Rule>)
      ensures res == FirstMatch(e, rules, text)
    {
      res := Scan(e, rules, text);
    }
  }
}
