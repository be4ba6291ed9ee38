/** The compiled form of a rule against its source meaning, for every layout of the rule and
    every file around it. */
module YaraSoundness {
  import opened Bytes
  import opened Text
  import opened YaraCompiler
  import opened YaraSource

  // ---- The parts of a rule in a file ----

  /** Lines of a rule, in order; comments and blank lines may stand among `defs` and `conds`. */
  datatype Layout = Layout(
    header: Line, pre: seq<Line>, stringsLine: Line, defs: seq<Line>,
    conditionLine: Line, conds: seq<Line>, close: Line)

  function Lines(lay: Layout): seq<Line> {
    [lay.header] + lay.pre + [lay.stringsLine] + lay.defs + [lay.conditionLine] + lay.conds + [lay.close]
  }

  function Trimmed(l: Line): string {
    TrimSpace(l.text)
  }

  /** A line before the strings section: metadata, a lone brace, a comment. */
  predicate Quiet(l: Line) {
    var t := Trimmed(l);
    !HasPrefix(t, "rule ") && t != "strings:" && t != "condition:" && t != "}"
  }

  ghost predicate DefLine(exact: bool, strings: map<string, Str>, l: Line) {
    Skipped(Trimmed(l)) || exists n :: n in strings && Defines(exact, Trimmed(l), n, strings[n])
  }

  ghost predicate DefinedIn(exact: bool, strings: map<string, Str>, lines: seq<Line>, n: string) {
    n in strings && exists l :: l in lines && !Skipped(Trimmed(l)) && Defines(exact, Trimmed(l), n, strings[n])
  }

  ghost predicate AllDefined(exact: bool, strings: map<string, Str>, lines: seq<Line>) {
    forall n {:trigger DefinedIn(exact, strings, lines, n)} :: n in strings ==> DefinedIn(exact, strings, lines, n)
  }

  /** Any condition line except a count condition. */
  predicate FreeLine(l: Line) {
    var t := Trimmed(l);
    Skipped(t) ||
    (!HasPrefix(t, "rule ") && t !in {"meta:", "strings:", "condition:", "}"} && !HasPrefix(Lower(t), "#"))
  }

  /** The line makes the parser pick string n. */
  predicate Points(l: Line, n: string) {
    var t := Trimmed(l);
    !Skipped(t) && (Contains(Lower(t), "any of") || Mentions(Lower(t), n))
  }

  ghost predicate PointedIn(lines: seq<Line>, n: string) {
    exists l :: l in lines && Points(l, n)
  }

  ghost predicate Orders(lines: seq<Line>) {
    forall l :: l in lines ==> ValidOrder(l.order)
  }

  /** `lay` defines `strings`, in any order and with any indentation; the condition is left open. */
  ghost predicate Framed(exact: bool, strings: map<string, Str>, lay: Layout) {
    && HasPrefix(Trimmed(lay.header), "rule ")
    && (forall l :: l in lay.pre ==> Quiet(l))
    && Trimmed(lay.stringsLine) == "strings:"
    && (forall l :: l in lay.defs ==> DefLine(exact, strings, l))
    && AllDefined(exact, strings, lay.defs)
    && Trimmed(lay.conditionLine) == "condition:"
    && Trimmed(lay.close) == "}"
    && Orders(Lines(lay))
  }

  /** The same under any condition without count conditions. */
  ghost predicate FreeLayout(exact: bool, strings: map<string, Str>, lay: Layout) {
    Framed(exact, strings, lay) && forall l :: l in lay.conds ==> FreeLine(l)
  }

  // ---- What a rule compiles to ----

  ghost function Compiled(e: Engine, strings: map<string, Str>): set<string> {
    set n | n in strings && Compiles(e, strings[n])
  }

  ghost function Named(e: Engine, strings: map<string, Str>, conds: seq<Line>): set<string> {
    set n | n in Compiled(e, strings) && PointedIn(conds, n)
  }

  /** The strings whose disjunction the compiled rule is: those the condition points at, of
      those that compile; all of the latter when there are none. */
  ghost function Picked(e: Engine, strings: map<string, Str>, conds: seq<Line>): set<string> {
    if Named(e, strings, conds) == {} then Compiled(e, strings) else Named(e, strings, conds)
  }

  /** The rule matches where a string of ps holds; with `exact`, only there. */
  ghost predicate Means(e: Engine, exact: bool, strings: map<string, Str>, ps: set<string>, r: Rule) {
    forall text ::
      && (HeldIn(e, strings, text) * ps != {} ==> RuleMatches(e, r, text))
      && (exact && RuleMatches(e, r, text) ==> HeldIn(e, strings, text) * ps != {})
  }

  // ---- Runs over segments ----

  lemma {:induction false} RunConcat(e: Engine, ns: string, st: Parser, a: seq<Line>, b: seq<Line>)
    ensures Run(e, ns, st, a + b) == Run(e, ns, Run(e, ns, st, a), b)
    decreases |b|
  {
    if b == [] {
      assert a + b == a;
    } else {
      var b' := b[..|b| - 1];
      assert (a + b)[..|a + b| - 1] == a + b';
      RunConcat(e, ns, st, a, b');
    }
  }

  lemma RunOne(e: Engine, ns: string, st: Parser, l: Line)
    ensures Run(e, ns, st, [l]) == Step(e, ns, st, l)
  {
    assert [l][..0] == [];
    assert Run(e, ns, st, []) == st;
  }

  lemma {:induction false} FieldsNonEmpty(s: string)
    requires s != [] && !IsSpace(s[|s| - 1])
    ensures Fields(s) != []
    decreases |s|
  {
    if IsSpace(s[0]) {
      assert s[1..] != [] by { assert |s| > 1; }
      FieldsNonEmpty(s[1..]);
    }
  }

  /** A trimmed header line always carries a name, so the length test never fails. */
  lemma HeaderNames(t: string)
    requires HasPrefix(t, "rule ") && !IsSpace(t[|t| - 1])
    ensures |Fields(t)| >= 2 && Fields(t)[1] != "" && !Skipped(t)
  {
    var rest := t[4..];
    assert t[..5] == "rule ";
    assert t == "rule" + rest by { assert t[..4] == t[..5][..4]; }
    assert rest[0] == t[4] == t[..5][4] == ' ';
    WordOfJoin("rule", rest);
    FieldsNonEmpty(rest);
    assert t[0] == t[..5][0] == 'r';
    assert Word(t) == "rule";
    assert Fields(t) == ["rule"] + Fields(t[4..]);
    assert Fields(t)[1] in Fields(t);
    assert |t| >= 2 ==> t[..2][0] == 'r';
  }

  // ---- Invariants of the five segments ----

  /** A rule that has gathered nothing yet. */
  predicate Young(r: Rule) {
    r.name != "" && r.anyPatterns == [] && r.count.None?
  }

  ghost predicate InHead(st: Parser, rules: seq<Rule>) {
    && st.Parser? && st.rules == rules && st.current.Some? && Young(st.current.value)
    && st.defs == map[] && (st.section.NoSection? || st.section.Meta?)
  }

  ghost predicate DefsFaithful(e: Engine, exact: bool, strings: map<string, Str>, defs: Defs) {
    forall n :: n in defs ==> n in strings && Compiles(e, strings[n]) && Faithful(e, exact, defs[n], strings[n])
  }

  ghost predicate InStrings(e: Engine, exact: bool, strings: map<string, Str>, st: Parser, rules: seq<Rule>) {
    && st.Parser? && st.rules == rules && st.current.Some? && Young(st.current.value)
    && st.section.Strings? && DefsFaithful(e, exact, strings, st.defs)
  }

  /** The patterns gathered so far are those of the strings pointed at so far. */
  ghost predicate InCondition(defs: Defs, st: Parser, rules: seq<Rule>, lines: seq<Line>) {
    && st.Parser? && st.rules == rules && st.current.Some? && st.section.Condition? && st.defs == defs
    && st.current.value.name != "" && st.current.value.count.None?
    && forall re :: re in st.current.value.anyPatterns <==> Gathers(defs, lines, re)
  }

  ghost predicate Gathers(defs: Defs, lines: seq<Line>, re: Regex) {
    exists n :: n in defs && PointedIn(lines, n) && re == defs[n]
  }

  lemma HeadStep(e: Engine, ns: string, st: Parser, l: Line)
    requires st.Parser? && HasPrefix(Trimmed(l), "rule ")
    ensures InHead(Step(e, ns, st, l), st.rules) && |Fields(Trimmed(l))| >= 2
    ensures Step(e, ns, st, l) == Parser(st.rules, Some(NewRule(Fields(Trimmed(l))[1], ns)), map[], NoSection)
  {
    TrimSpaceShape(l.text);
    HeaderNames(Trimmed(l));
  }

  lemma {:induction false} PreRun(e: Engine, ns: string, st: Parser, rules: seq<Rule>, pre: seq<Line>)
    requires InHead(st, rules) && forall l :: l in pre ==> Quiet(l)
    ensures InHead(Run(e, ns, st, pre), rules)
    decreases |pre|
  {
    if pre != [] {
      PreRun(e, ns, st, rules, pre[..|pre| - 1]);
      assert Quiet(pre[|pre| - 1]);
    }
  }

  lemma StringsStep(e: Engine, ns: string, st: Parser, l: Line)
    requires st.Parser? && st.current.Some? && st.section.Strings?
    requires Trimmed(l) != [] && Trimmed(l)[0] == '$'
    ensures Step(e, ns, st, l) == StringLine(e, Trimmed(l), st)
  {
    DollarFirst(Trimmed(l));
  }

  /** A definition line adds one faithful pattern, or none when the string does not compile, and
      changes nothing else. */
  lemma DefStep(e: Engine, exact: bool, ns: string, st: Parser, l: Line, n: string, s: Str) returns (next: Parser)
    requires st.Parser? && st.current.Some? && st.section.Strings?
    requires Defines(exact, Trimmed(l), n, s)
    ensures next == Step(e, ns, st, l) && next.Parser? && next == st.(defs := next.defs)
    ensures Compiles(e, s) ==>
              n in next.defs && Faithful(e, exact, next.defs[n], s) && next.defs == st.defs[n := next.defs[n]]
    ensures !Compiles(e, s) ==> next.defs == st.defs
  {
    DefinitionLine(e, exact, Trimmed(l), n, s, st);
    StringsStep(e, ns, st, l);
    next := Step(e, ns, st, l);
    if Compiles(e, s) {
      var re :| Faithful(e, exact, re, s) && StringLine(e, Trimmed(l), st) == st.(defs := st.defs[n := re]);
      assert next.defs[n] == re;
    }
  }

  lemma SkippedStep(e: Engine, ns: string, st: Parser, l: Line)
    requires Skipped(Trimmed(l))
    ensures Step(e, ns, st, l) == st
  {
  }

  lemma RunSnoc(e: Engine, ns: string, st: Parser, lines: seq<Line>, l: Line) returns (mid: Parser, next: Parser)
    ensures mid == Run(e, ns, st, lines) && next == Run(e, ns, st, lines + [l]) && next == Step(e, ns, mid, l)
  {
    mid, next := Run(e, ns, st, lines), Run(e, ns, st, lines + [l]);
    assert (lines + [l])[..|lines|] == lines;
  }

  /** After the definition lines: each compiling string defined so far has a faithful pattern. */
  ghost predicate AfterDefs(
      e: Engine, exact: bool, strings: map<string, Str>, st: Parser, rules: seq<Rule>, lines: seq<Line>) {
    && InStrings(e, exact, strings, st, rules)
    && forall n :: DefinedIn(exact, strings, lines, n) && Compiles(e, strings[n]) ==> n in st.defs
  }

  lemma DefinedInSnoc(exact: bool, strings: map<string, Str>, lines: seq<Line>, l: Line, n: string)
    requires DefinedIn(exact, strings, lines + [l], n)
    ensures DefinedIn(exact, strings, lines, n) || (!Skipped(Trimmed(l)) && Defines(exact, Trimmed(l), n, strings[n]))
  {
  }

  lemma {:induction false} InStringsStep(
      e: Engine, exact: bool, strings: map<string, Str>, ns: string, mid: Parser, rules: seq<Rule>, l: Line)
    requires InStrings(e, exact, strings, mid, rules) && DefLine(exact, strings, l)
    ensures var next := Step(e, ns, mid, l);
            InStrings(e, exact, strings, next, rules) && mid.defs.Keys <= next.defs.Keys
  {
    if Skipped(Trimmed(l)) {
      SkippedStep(e, ns, mid, l);
    } else {
      var n :| n in strings && Defines(exact, Trimmed(l), n, strings[n]);
      var next := DefStep(e, exact, ns, mid, l, n, strings[n]);
    }
  }

  lemma {:induction false} AfterDefsSnoc(
      e: Engine, exact: bool, strings: map<string, Str>, ns: string, mid: Parser, next: Parser,
      rules: seq<Rule>, lines: seq<Line>, l: Line)
    requires AfterDefs(e, exact, strings, mid, rules, lines) && DefLine(exact, strings, l)
    requires next == Step(e, ns, mid, l)
    ensures AfterDefs(e, exact, strings, next, rules, lines + [l])
  {
    InStringsStep(e, exact, strings, ns, mid, rules, l);
    forall m | DefinedIn(exact, strings, lines + [l], m) && Compiles(e, strings[m]) ensures m in next.defs {
      DefinedInSnoc(exact, strings, lines, l, m);
      if !DefinedIn(exact, strings, lines, m) {
        var same := DefStep(e, exact, ns, mid, l, m, strings[m]);
      }
    }
  }

  lemma {:induction false} DefsRun(
      e: Engine, exact: bool, strings: map<string, Str>, ns: string, st: Parser, rules: seq<Rule>,
      lines: seq<Line>)
    requires InStrings(e, exact, strings, st, rules) && forall l :: l in lines ==> DefLine(exact, strings, l)
    ensures AfterDefs(e, exact, strings, Run(e, ns, st, lines), rules, lines)
    decreases |lines|
  {
    if lines != [] {
      var init, l := lines[..|lines| - 1], lines[|lines| - 1];
      assert lines == init + [l];
      DefsRun(e, exact, strings, ns, st, rules, init);
      var mid, next := RunSnoc(e, ns, st, init, l);
      AfterDefsSnoc(e, exact, strings, ns, mid, next, rules, init, l);
    }
  }

  lemma CondStepShape(e: Engine, ns: string, st: Parser, l: Line)
    requires st.Parser? && st.current.Some? && st.section.Condition?
    requires !Skipped(Trimmed(l)) && FreeLine(l)
    ensures var r, names, lower := st.current.value, l.order(st.defs), Lower(Trimmed(l));
            var got := Gather(st.defs, if Contains(lower, "any of") then None else Some(lower), names);
            Step(e, ns, st, l) == st.(current := Some(r.(anyPatterns := r.anyPatterns + got)))
  {
    var lower, r, names := Lower(Trimmed(l)), st.current.value, l.order(st.defs);
    AnyOfThem(lower);
    assert Step(e, ns, st, l) == st.(current := Some(ConditionLine(Trimmed(l), names, st.defs, r)));
  }

  lemma AnyOfThem(lower: string)
    ensures Contains(lower, "any of them") ==> Contains(lower, "any of")
  {
    if Contains(lower, "any of them") {
      ContainsSlice("any of them", 0, "any of");
      ContainsTrans(lower, "any of them", "any of");
    }
  }

  /** What one line gathers. */
  lemma LineGathers(defs: Defs, l: Line, re: Regex)
    requires !Skipped(Trimmed(l)) && ValidOrder(l.order)
    ensures var lower := Lower(Trimmed(l));
            re in Gather(defs, if Contains(lower, "any of") then None else Some(lower), l.order(defs))
            <==> exists n :: n in defs && Points(l, n) && re == defs[n]
  {
    var lower := Lower(Trimmed(l));
    assert Enumerates(l.order(defs), defs);
    GatherIs(defs, if Contains(lower, "any of") then None else Some(lower), l.order(defs), re);
  }

  lemma PointedSnoc(lines: seq<Line>, l: Line, n: string)
    ensures PointedIn(lines + [l], n) <==> PointedIn(lines, n) || Points(l, n)
  {
    if PointedIn(lines, n) {
      var k :| k in lines && Points(k, n);
      assert k in lines + [l];
    }
    assert l in lines + [l];
  }

  lemma GathersSnoc(defs: Defs, lines: seq<Line>, l: Line, re: Regex)
    ensures Gathers(defs, lines + [l], re) <==>
            Gathers(defs, lines, re) || exists n :: n in defs && Points(l, n) && re == defs[n]
  {
    forall n ensures PointedIn(lines + [l], n) <==> PointedIn(lines, n) || Points(l, n) {
      PointedSnoc(lines, l, n);
    }
  }

  lemma CondStep(
      e: Engine, ns: string, defs: Defs, mid: Parser, next: Parser, rules: seq<Rule>, lines: seq<Line>,
      l: Line)
    requires InCondition(defs, mid, rules, lines) && FreeLine(l) && ValidOrder(l.order)
    requires next == Step(e, ns, mid, l)
    ensures InCondition(defs, next, rules, lines + [l])
  {
    forall re ensures Gathers(defs, lines + [l], re) <==>
                      Gathers(defs, lines, re) || exists n :: n in defs && Points(l, n) && re == defs[n]
    {
      GathersSnoc(defs, lines, l, re);
    }
    if Skipped(Trimmed(l)) {
      SkippedStep(e, ns, mid, l);
    } else {
      CondStepShape(e, ns, mid, l);
      forall re ensures re in next.current.value.anyPatterns <==> Gathers(defs, lines + [l], re) {
        LineGathers(defs, l, re);
      }
    }
  }

  lemma {:induction false} CondsRun(e: Engine, ns: string, defs: Defs, st: Parser, rules: seq<Rule>, lines: seq<Line>)
    requires InCondition(defs, st, rules, [])
    requires forall l :: l in lines ==> FreeLine(l) && ValidOrder(l.order)
    ensures InCondition(defs, Run(e, ns, st, lines), rules, lines)
    decreases |lines|
  {
    if lines != [] {
      var init, l := lines[..|lines| - 1], lines[|lines| - 1];
      assert lines == init + [l];
      CondsRun(e, ns, defs, st, rules, init);
      var mid, next := RunSnoc(e, ns, st, init, l);
      CondStep(e, ns, defs, mid, next, rules, init, l);
    }
  }

  // ---- A whole rule ----

  lemma Keyword(t: string)
    requires t in {"strings:", "condition:", "}"}
    ensures !Skipped(t) && !HasPrefix(t, "rule ")
  {
    assert |t| >= 2 ==> t[..2][0] == t[0];
    assert |t| >= 5 ==> t[..5][0] == t[0];
  }

  lemma SectionStep(e: Engine, ns: string, st: Parser, l: Line)
    requires st.Parser? && st.current.Some? && Trimmed(l) in {"strings:", "condition:"}
    ensures Step(e, ns, st, l) == st.(section := if Trimmed(l) == "strings:" then Strings else Condition)
  {
    Keyword(Trimmed(l));
  }

  lemma CloseStep(e: Engine, ns: string, st: Parser, l: Line)
    requires st.Parser? && st.current.Some? && Trimmed(l) == "}" && st.current.value.name != ""
    ensures Step(e, ns, st, l) ==
            Parser(st.rules + [Closed(st.current.value, st.defs, l.order(st.defs))], None, st.defs, NoSection)
  {
    Keyword(Trimmed(l));
  }

  lemma {:induction false} RunThen(e: Engine, ns: string, st: Parser, a: seq<Line>, l: Line, b: seq<Line>)
    ensures Run(e, ns, st, a + [l] + b) == Run(e, ns, Step(e, ns, Run(e, ns, st, a), l), b)
  {
    RunConcat(e, ns, st, a + [l], b);
    RunConcat(e, ns, st, a, [l]);
    RunOne(e, ns, Run(e, ns, st, a), l);
  }

  lemma RunLayout(e: Engine, ns: string, st: Parser, lay: Layout)
    ensures var s2 := Run(e, ns, Step(e, ns, st, lay.header), lay.pre);
            var s4 := Run(e, ns, Step(e, ns, s2, lay.stringsLine), lay.defs);
            var s6 := Run(e, ns, Step(e, ns, s4, lay.conditionLine), lay.conds);
            Run(e, ns, st, Lines(lay)) == Step(e, ns, s6, lay.close)
  {
    var a := [lay.header] + lay.pre;
    var b := a + [lay.stringsLine] + lay.defs;
    var c := b + [lay.conditionLine] + lay.conds;
    assert [] + [lay.header] + lay.pre == a;
    assert Lines(lay) == c + [lay.close] + [];
    assert Run(e, ns, st, []) == st;
    RunThen(e, ns, st, [], lay.header, lay.pre);
    RunThen(e, ns, st, a, lay.stringsLine, lay.defs);
    RunThen(e, ns, st, b, lay.conditionLine, lay.conds);
    RunThen(e, ns, st, c, lay.close, []);
    var s6 := Run(e, ns, st, c);
    assert Run(e, ns, Step(e, ns, s6, lay.close), []) == Step(e, ns, s6, lay.close);
  }

  lemma ReachStrings(
      e: Engine, exact: bool, ns: string, st: Parser, strings: map<string, Str>, lay: Layout) returns (s3: Parser)
    requires st.Parser? && Framed(exact, strings, lay)
    ensures s3 == Step(e, ns, Run(e, ns, Step(e, ns, st, lay.header), lay.pre), lay.stringsLine)
    ensures InStrings(e, exact, strings, s3, st.rules)
  {
    HeadStep(e, ns, st, lay.header);
    var s1 := Step(e, ns, st, lay.header);
    PreRun(e, ns, s1, st.rules, lay.pre);
    var s2 := Run(e, ns, s1, lay.pre);
    SectionStep(e, ns, s2, lay.stringsLine);
    s3 := s2.(section := Strings);
  }

  lemma DefsAreCompiled(
      e: Engine, exact: bool, strings: map<string, Str>, st: Parser, rules: seq<Rule>, lines: seq<Line>)
    requires AfterDefs(e, exact, strings, st, rules, lines)
    requires AllDefined(exact, strings, lines)
    ensures st.defs.Keys == Compiled(e, strings)
  {
    forall n | n in Compiled(e, strings) ensures n in st.defs { assert DefinedIn(exact, strings, lines, n); }
  }

  lemma ReachCondition(
      e: Engine, exact: bool, ns: string, s3: Parser, rules: seq<Rule>, strings: map<string, Str>,
      lay: Layout) returns (s5: Parser)
    requires InStrings(e, exact, strings, s3, rules) && Framed(exact, strings, lay)
    ensures s5 == Step(e, ns, Run(e, ns, s3, lay.defs), lay.conditionLine)
    ensures s5.Parser? && InCondition(s5.defs, s5, rules, []) && Young(s5.current.value)
    ensures DefsFaithful(e, exact, strings, s5.defs) && s5.defs.Keys == Compiled(e, strings)
  {
    DefsRun(e, exact, strings, ns, s3, rules, lay.defs);
    var s4 := Run(e, ns, s3, lay.defs);
    DefsAreCompiled(e, exact, strings, s4, rules, lay.defs);
    SectionStep(e, ns, s4, lay.conditionLine);
    s5 := s4.(section := Condition);
  }

  /** In front of the condition: nothing gathered, and a faithful pattern for each string that
      compiles. */
  ghost predicate AtCondition(e: Engine, exact: bool, strings: map<string, Str>, rules: seq<Rule>, s: Parser) {
    && s.Parser? && InCondition(s.defs, s, rules, []) && Young(s.current.value)
    && DefsFaithful(e, exact, strings, s.defs) && s.defs.Keys == Compiled(e, strings)
  }

  lemma {:induction false} BeforeConditions(
      e: Engine, exact: bool, ns: string, st: Parser, strings: map<string, Str>, lay: Layout) returns (s5: Parser)
    requires st.Parser? && Framed(exact, strings, lay)
    ensures AtCondition(e, exact, strings, st.rules, s5)
    ensures Run(e, ns, st, Lines(lay)) == Step(e, ns, Run(e, ns, s5, lay.conds), lay.close)
  {
    RunLayout(e, ns, st, lay);
    var s3 := ReachStrings(e, exact, ns, st, strings, lay);
    s5 := ReachCondition(e, exact, ns, s3, st.rules, strings, lay);
  }

  /** From any state, the parser reaches the closing line with what the conditions gathered. */
  lemma ReachClose(
      e: Engine, exact: bool, ns: string, st: Parser, strings: map<string, Str>, lay: Layout) returns (s6: Parser)
    requires st.Parser? && FreeLayout(exact, strings, lay)
    ensures Run(e, ns, st, Lines(lay)) == Step(e, ns, s6, lay.close)
    ensures s6.Parser? && InCondition(s6.defs, s6, st.rules, lay.conds)
    ensures DefsFaithful(e, exact, strings, s6.defs) && s6.defs.Keys == Compiled(e, strings)
  {
    var s5 := BeforeConditions(e, exact, ns, st, strings, lay);
    forall l | l in lay.conds ensures ValidOrder(l.order) { assert l in Lines(lay); }
    CondsRun(e, ns, s5.defs, s5, st.rules, lay.conds);
    s6 := Run(e, ns, s5, lay.conds);
  }

  /** The finished rule has the patterns of the picked strings. */
  ghost predicate Finished(defs: Defs, ps: set<string>, r: Rule) {
    && r.count.None? && ps <= defs.Keys
    && forall re :: re in r.anyPatterns <==> exists n :: n in ps && n in defs && re == defs[n]
  }

  lemma GathersNothing(defs: Defs, r: Rule, lines: seq<Line>)
    requires forall re :: re in r.anyPatterns <==> Gathers(defs, lines, re)
    ensures r.anyPatterns == [] <==> forall n :: n in defs ==> !PointedIn(lines, n)
  {
    if r.anyPatterns != [] {
      assert Gathers(defs, lines, r.anyPatterns[0]);
    }
    forall n | n in defs && PointedIn(lines, n) ensures r.anyPatterns != [] {
      assert Gathers(defs, lines, defs[n]);
    }
  }

  lemma CloseFinishes(
      e: Engine, strings: map<string, Str>, st: Parser, rules: seq<Rule>, conds: seq<Line>,
      names: seq<string>)
    requires st.Parser? && InCondition(st.defs, st, rules, conds) && Enumerates(names, st.defs)
    requires st.defs.Keys == Compiled(e, strings)
    ensures Finished(st.defs, Picked(e, strings, conds), Closed(st.current.value, st.defs, names))
  {
    var defs, r, ps := st.defs, st.current.value, Picked(e, strings, conds);
    var c := Closed(r, defs, names);
    GathersNothing(defs, r, conds);
    forall re ensures re in c.anyPatterns <==> exists n :: n in ps && n in defs && re == defs[n] {
      if r.anyPatterns == [] {
        assert Named(e, strings, conds) == {};
        GatherIs(defs, None, names, re);
      } else {
        assert Gathers(defs, conds, r.anyPatterns[0]);
        var n :| n in defs && PointedIn(conds, n) && r.anyPatterns[0] == defs[n];
        assert n in Named(e, strings, conds);
        assert re in r.anyPatterns <==> Gathers(defs, conds, re);
      }
    }
  }

  lemma FinishedMeans(e: Engine, exact: bool, strings: map<string, Str>, defs: Defs, ps: set<string>, r: Rule)
    requires DefsFaithful(e, exact, strings, defs) && Finished(defs, ps, r)
    ensures Means(e, exact, strings, ps, r)
    ensures ps == {} ==> forall text :: !RuleMatches(e, r, text)
  {
    forall text
      ensures HeldIn(e, strings, text) * ps != {} ==> RuleMatches(e, r, text)
      ensures exact && RuleMatches(e, r, text) ==> HeldIn(e, strings, text) * ps != {}
    {
      if HeldIn(e, strings, text) * ps != {} {
        var n :| n in HeldIn(e, strings, text) * ps;
        assert Covers(e, defs[n], strings[n]);
      }
      if exact && RuleMatches(e, r, text) {
        var re :| re in r.anyPatterns && YaraCompiler.Matches(e, re, text);
        var n :| n in ps && n in defs && re == defs[n];
        assert Same(e, defs[n], strings[n]);
        assert n in HeldIn(e, strings, text) * ps;
      }
    }
  }

  /** What any laid-out rule compiles to, whatever its condition: from any parser state exactly
      one rule is added, the disjunction of the picked strings; it never matches when no string
      compiles. */
  lemma {:induction false} CompilesTo(
      e: Engine, exact: bool, ns: string, st: Parser, strings: map<string, Str>, lay: Layout) returns (r: Rule)
    requires st.Parser? && FreeLayout(exact, strings, lay)
    ensures var end := Run(e, ns, st, Lines(lay));
            end.Parser? && end.rules == st.rules + [r] && end.current.None?
    ensures Means(e, exact, strings, Picked(e, strings, lay.conds), r)
    ensures Compiled(e, strings) == {} ==> forall text :: !RuleMatches(e, r, text)
  {
    var s6 := ReachClose(e, exact, ns, st, strings, lay);
    CloseStep(e, ns, s6, lay.close);
    assert ValidOrder(lay.close.order) by { assert lay.close in Lines(lay); }
    var names := lay.close.order(s6.defs);
    assert Enumerates(names, s6.defs);
    CloseFinishes(e, strings, s6, st.rules, lay.conds, names);
    r := Closed(s6.current.value, s6.defs, names);
    FinishedMeans(e, exact, strings, s6.defs, Picked(e, strings, lay.conds), r);
  }

  // ---- Against the source condition ----

  /** Every string the condition refers to is pointed at by some line. */
  ghost predicate Writes(c: Cond, conds: seq<Line>) {
    forall n :: n in Refs(c) ==> PointedIn(conds, n)
  }

  /** Where strings that do not compile cannot satisfy the condition on their own, a rule that
      points at what it refers to matches wherever its condition holds. */
  lemma {:induction false} WrittenIsSound(e: Engine, src: SourceRule, conds: seq<Line>, r: Rule, text: string)
    requires Writes(src.cond, conds) && Means(e, false, src.strings, Picked(e, src.strings, conds), r)
    requires !Truth(src.cond, Refs(src.cond) - Compiled(e, src.strings))
    requires CondHolds(e, src.strings, src.cond, text)
    ensures RuleMatches(e, r, text)
  {
    var c, k, ps := src.cond, Compiled(e, src.strings), Picked(e, src.strings, conds);
    assert forall n :: n in Refs(c) && n in k ==> n in Named(e, src.strings, conds);
    if Truth(c, Refs(c) - ps) {
      TruthGrows(c, Refs(c) - ps, Refs(c) - k);
    }
    NeverMissesIff(c, ps);
  }

  /** Any condition over the strings, `any of` and `all of` included, that points at what it
      refers to: the compiled rule matches wherever the condition holds. */
  lemma {:induction false} WrittenRuleCompiles(
      e: Engine, ns: string, st: Parser, src: SourceRule, lay: Layout) returns (r: Rule)
    requires st.Parser? && FreeLayout(false, src.strings, lay) && Writes(src.cond, lay.conds)
    requires !Truth(src.cond, Refs(src.cond) - Compiled(e, src.strings))
    ensures var end := Run(e, ns, st, Lines(lay));
            end.Parser? && end.rules == st.rules + [r] && end.current.None?
    ensures forall text :: CondHolds(e, src.strings, src.cond, text) ==> RuleMatches(e, r, text)
  {
    r := CompilesTo(e, false, ns, st, src.strings, lay);
    forall text | CondHolds(e, src.strings, src.cond, text) ensures RuleMatches(e, r, text) {
      WrittenIsSound(e, src, lay.conds, r, text);
    }
  }

  /** A line with `any of` anywhere, or a condition without any lines, picks every string. */
  lemma AnyOfPicksAll(e: Engine, strings: map<string, Str>, conds: seq<Line>)
    requires (forall l :: l in conds ==> Skipped(Trimmed(l)))
             || exists l :: l in conds && !Skipped(Trimmed(l)) && Contains(Lower(Trimmed(l)), "any of")
    ensures Picked(e, strings, conds) == Compiled(e, strings)
  {
    if l :| l in conds && !Skipped(Trimmed(l)) && Contains(Lower(Trimmed(l)), "any of") {
      assert forall n :: n in Compiled(e, strings) ==> Points(l, n);
      assert Named(e, strings, conds) == Compiled(e, strings);
    } else {
      assert Named(e, strings, conds) == {};
    }
  }

  // ---- Conditions of names, `and`, `or` and parentheses, token by token ----

  function LineTokens(l: Line): seq<Token> {
    if Skipped(Trimmed(l)) || Lex(Trimmed(l)).None? then [] else Lex(Trimmed(l)).value
  }

  function AllTokens(lines: seq<Line>): seq<Token> {
    if lines == [] then [] else AllTokens(lines[..|lines| - 1]) + LineTokens(lines[|lines| - 1])
  }

  /** `lay` is a way to write `src`, with any line breaks inside the condition; with `exact`, no
      string that the condition leaves out is mentioned by accident. */
  ghost predicate LaidOut(exact: bool, src: SourceRule, lay: Layout) {
    && Framed(exact, src.strings, lay)
    && Simple(src.cond) && Refs(src.cond) <= src.strings.Keys
    && (forall l :: l in lay.conds ==> Skipped(Trimmed(l)) || Lex(Trimmed(l)).Some?)
    && AllTokens(lay.conds) == Tokens(src.cond)
    && (exact ==> forall n :: n in src.strings && PointedIn(lay.conds, n) ==> n in Refs(src.cond))
  }

  lemma NotSpecial(t: string)
    requires t != [] && t[0] in {'(', ')', '$', 'a', 'o'}
    ensures !HasPrefix(t, "rule ") && t !in {"meta:", "strings:", "condition:", "}"}
    ensures !HasPrefix(Lower(t), "#")
  {
    assert |t| >= 5 ==> t[..5][0] == t[0];
    assert Lower(t)[0] == LowerChar(t[0]);
    assert Lower(t)[..1][0] == Lower(t)[0] != '#';
  }

  /** A line of tokens is never taken for anything but a condition. */
  lemma {:induction false} TokenLineIsFree(l: Line)
    requires Skipped(Trimmed(l)) || Lex(Trimmed(l)).Some?
    ensures FreeLine(l)
  {
    var t := Trimmed(l);
    if !Skipped(t) {
      TrimSpaceShape(l.text);
      LexFirst(t);
      NotSpecial(t);
    }
  }

  /** A line that holds a name mentions it. */
  lemma TokenMentions(t: string, n: string)
    requires Lex(t).Some? && Name(n) in Lex(t).value
    ensures Mentions(Lower(t), n)
  {
    LexMentions(t, n);
    ContainsSlice(n, 1, n[1..]);
    ContainsTrans(t, n, n[1..]);
    ContainsLower(t, n[1..]);
  }

  lemma {:induction false} TokenIsPointed(lines: seq<Line>, n: string)
    requires Name(n) in AllTokens(lines)
    ensures PointedIn(lines, n)
    decreases |lines|
  {
    var init, l := lines[..|lines| - 1], lines[|lines| - 1];
    assert lines == init + [l];
    if Name(n) in LineTokens(l) {
      TokenMentions(Trimmed(l), n);
    } else {
      TokenIsPointed(init, n);
    }
    PointedSnoc(init, l, n);
  }

  lemma {:induction false} TokensAreFree(exact: bool, src: SourceRule, lay: Layout)
    requires LaidOut(exact, src, lay)
    ensures FreeLayout(exact, src.strings, lay)
  {
    forall l | l in lay.conds ensures FreeLine(l) {
      TokenLineIsFree(l);
    }
  }

  lemma {:induction false} TokensAreWritten(exact: bool, src: SourceRule, lay: Layout)
    requires LaidOut(exact, src, lay)
    ensures Writes(src.cond, lay.conds)
  {
    forall n | n in Refs(src.cond) ensures PointedIn(lay.conds, n) {
      RefsAreTokens(src.cond, n);
      TokenIsPointed(lay.conds, n);
    }
  }

  /** The referenced strings that compile; when there are none, all that compile. */
  ghost function Kept(e: Engine, src: SourceRule): set<string> {
    var k := Compiled(e, src.strings);
    if Refs(src.cond) * k == {} then k else Refs(src.cond) * k
  }

  lemma {:induction false} PickedIsKept(e: Engine, src: SourceRule, lay: Layout)
    requires LaidOut(true, src, lay)
    ensures Picked(e, src.strings, lay.conds) == Kept(e, src)
  {
    TokensAreWritten(true, src, lay);
    assert Named(e, src.strings, lay.conds) == Refs(src.cond) * Compiled(e, src.strings);
  }

  /** Parsing a laid-out rule from any state appends exactly one rule. It matches wherever the
      source condition holds, unless strings that do not compile can satisfy the condition on
      their own; and when every definition is plain and nothing is mentioned by accident, it is
      exactly the disjunction of the kept strings. */
  lemma {:induction false} RuleCompiles(
      e: Engine, exact: bool, ns: string, st: Parser, src: SourceRule, lay: Layout) returns (r: Rule)
    requires st.Parser? && LaidOut(exact, src, lay)
    ensures var end := Run(e, ns, st, Lines(lay));
            end.Parser? && end.rules == st.rules + [r] && end.current.None?
    ensures !Truth(src.cond, Refs(src.cond) - Compiled(e, src.strings)) ==>
              forall text :: CondHolds(e, src.strings, src.cond, text) ==> RuleMatches(e, r, text)
    ensures exact ==> Means(e, true, src.strings, Kept(e, src), r)
    ensures Compiled(e, src.strings) == {} ==> forall text :: !RuleMatches(e, r, text)
  {
    TokensAreFree(exact, src, lay);
    r := CompilesTo(e, exact, ns, st, src.strings, lay);
    TokensAreWritten(exact, src, lay);
    if !Truth(src.cond, Refs(src.cond) - Compiled(e, src.strings)) {
      forall text | CondHolds(e, src.strings, src.cond, text) ensures RuleMatches(e, r, text) {
        WrittenIsSound(e, src, lay.conds, r, text);
      }
    }
    if exact { PickedIsKept(e, src, lay); }
  }

  /** With every string compiling the condition for soundness always holds. */
  lemma AllCompileIsEnough(e: Engine, src: SourceRule)
    requires Refs(src.cond) <= Compiled(e, src.strings)
    ensures !Truth(src.cond, Refs(src.cond) - Compiled(e, src.strings))
    ensures Refs(src.cond) != {} ==> Kept(e, src) == Refs(src.cond)
  {
    assert Refs(src.cond) - Compiled(e, src.strings) == {};
    assert Refs(src.cond) * Compiled(e, src.strings) == Refs(src.cond);
    NothingIsNotEnough(src.cond);
  }

  /** Where exactly the strings that do not compile hold, and they satisfy the condition, the
      compiled rule misses it. */
  lemma BrokenStringsMiss(e: Engine, src: SourceRule, r: Rule, text: string)
    requires Means(e, true, src.strings, Kept(e, src), r)
    requires Truth(src.cond, Refs(src.cond) - Compiled(e, src.strings))
    requires HeldIn(e, src.strings, text) == Refs(src.cond) - Compiled(e, src.strings)
    ensures CondHolds(e, src.strings, src.cond, text) && !RuleMatches(e, r, text)
  {
    assert HeldIn(e, src.strings, text) * Kept(e, src) == {};
  }

  /** When all strings compile, the rule and its source agree on a text exactly when the strings
      that hold there satisfy the condition or are none of its own. */
  lemma AgreesOnIff(e: Engine, src: SourceRule, r: Rule, text: string)
    requires Means(e, true, src.strings, Refs(src.cond), r)
    ensures (RuleMatches(e, r, text) <==> CondHolds(e, src.strings, src.cond, text)) <==>
            (HeldIn(e, src.strings, text) * Refs(src.cond) == {} || CondHolds(e, src.strings, src.cond, text))
  {
    var held := HeldIn(e, src.strings, text);
    if Truth(src.cond, held) && held * Refs(src.cond) == {} {
      TruthIsLocal(src.cond, held, {});
      NothingIsNotEnough(src.cond);
    }
  }

  /** The rule is its source on every text when each referenced string is enough by itself ... */
  lemma SinglesAreExact(e: Engine, src: SourceRule, r: Rule, text: string)
    requires Means(e, true, src.strings, Refs(src.cond), r)
    requires forall n :: n in Refs(src.cond) ==> Truth(src.cond, {n})
    ensures RuleMatches(e, r, text) <==> CondHolds(e, src.strings, src.cond, text)
  {
    ExactIff(src.cond);
    assert Truth(src.cond, HeldIn(e, src.strings, text)) <==> HeldIn(e, src.strings, text) * Refs(src.cond) != {};
  }

  /** ... and otherwise over-reports every text on which only an insufficient one holds. */
  lemma SingleOverreports(e: Engine, src: SourceRule, r: Rule, text: string, n: string)
    requires Means(e, true, src.strings, Refs(src.cond), r)
    requires n in Refs(src.cond) && !Truth(src.cond, {n}) && HeldIn(e, src.strings, text) == {n}
    ensures RuleMatches(e, r, text) && !CondHolds(e, src.strings, src.cond, text)
  {
    assert n in HeldIn(e, src.strings, text) * Refs(src.cond);
  }

  /** For a condition of `or`s alone the compiled form is the source meaning. */
  lemma OrRulesAreExact(e: Engine, src: SourceRule, r: Rule, text: string)
    requires OrOnly(src.cond) && Means(e, true, src.strings, Refs(src.cond), r)
    ensures RuleMatches(e, r, text) <==> CondHolds(e, src.strings, src.cond, text)
  {
    forall n | n in Refs(src.cond) ensures Truth(src.cond, {n}) {
      OrOnlyNeedsJustOne(src.cond, n);
    }
    SinglesAreExact(e, src, r, text);
  }

  // ---- Whole files ----

  lemma {:induction false} RulesGrow(e: Engine, ns: string, st: Parser, lines: seq<Line>)
    requires Run(e, ns, st, lines).Parser?
    ensures st.Parser? && st.rules <= Run(e, ns, st, lines).rules
    decreases |lines|
  {
    if lines != [] {
      assert Run(e, ns, st, lines[..|lines| - 1]).Parser?;
      RulesGrow(e, ns, st, lines[..|lines| - 1]);
    }
  }

  lemma MatchIsFound(e: Engine, rules: seq<Rule>, r: Rule, text: string)
    requires r in rules && RuleMatches(e, r, text) && text != []
    ensures FirstMatch(e, rules, text).Some?
  {
    var k :| 0 <= k < |rules| && rules[k] == r;
  }

  lemma FoundIsMatch(e: Engine, rules: seq<Rule>, text: string) returns (r: Rule)
    requires FirstMatch(e, rules, text).Some?
    ensures r in rules && RuleMatches(e, r, text)
  {
    r := FirstMatch(e, rules, text).value;
  }

  /** A rule laid out anywhere in a file: a scan with the file's rules reports a match on all data
      on which the rule's condition holds, whatever the rest of the file contains. */
  lemma {:induction false} FileScanSound(
      e: Engine, ns: string, before: seq<Line>, src: SourceRule, lay: Layout, after: seq<Line>)
    requires FreeLayout(false, src.strings, lay) && Writes(src.cond, lay.conds)
    requires !Truth(src.cond, Refs(src.cond) - Compiled(e, src.strings))
    requires Run(e, ns, INIT, before + Lines(lay) + after).Parser?
    ensures forall text :: text != [] && CondHolds(e, src.strings, src.cond, text) ==>
              FirstMatch(e, Run(e, ns, INIT, before + Lines(lay) + after).rules, text).Some?
  {
    RunConcat(e, ns, INIT, before + Lines(lay), after);
    RunConcat(e, ns, INIT, before, Lines(lay));
    var s1 := Run(e, ns, INIT, before);
    var s2 := Run(e, ns, s1, Lines(lay));
    RulesGrow(e, ns, s2, after);
    RulesGrow(e, ns, s1, Lines(lay));
    var r := WrittenRuleCompiles(e, ns, s1, src, lay);
    var rules := Run(e, ns, s2, after).rules;
    assert rules[|s1.rules|] == s2.rules[|s1.rules|] == r;
    forall text | text != [] && CondHolds(e, src.strings, src.cond, text) ensures FirstMatch(e, rules, text).Some? {
      MatchIsFound(e, rules, r, text);
    }
  }

  lemma {:induction false} LoadKeeps(e: Engine, files: seq<RuleFile>, f: RuleFile, r: Rule)
    requires LoadAll(e, files).Some? && f in files && f.readable
    requires Run(e, f.ns, INIT, f.lines).Parser? && r in Run(e, f.ns, INIT, f.lines).rules
    ensures r in LoadAll(e, files).value
    decreases |files|
  {
    var init, last := files[..|files| - 1], files[|files| - 1];
    assert files == init + [last];
    if f != last {
      LoadKeeps(e, init, f, r);
    }
  }

  /** A load succeeds only if every readable file parses. */
  lemma {:induction false} LoadedParses(e: Engine, files: seq<RuleFile>, f: RuleFile)
    requires LoadAll(e, files).Some? && f in files && f.readable
    ensures Run(e, f.ns, INIT, f.lines).Parser?
    decreases |files|
  {
    var init, last := files[..|files| - 1], files[|files| - 1];
    assert files == init + [last];
    if f != last { LoadedParses(e, init, f); }
  }

  /** The same for an engine that has loaded a directory with such a file in it. */
  lemma {:induction false} EngineScanSound(
      e: Engine, files: seq<RuleFile>, ns: string, before: seq<Line>, src: SourceRule, lay: Layout,
      after: seq<Line>)
    requires LoadAll(e, files).Some? && RuleFile(ns, before + Lines(lay) + after, true) in files
    requires FreeLayout(false, src.strings, lay) && Writes(src.cond, lay.conds)
    requires !Truth(src.cond, Refs(src.cond) - Compiled(e, src.strings))
    ensures forall text :: text != [] && CondHolds(e, src.strings, src.cond, text) ==>
              FirstMatch(e, LoadAll(e, files).value, text).Some?
  {
    var f := RuleFile(ns, before + Lines(lay) + after, true);
    LoadedParses(e, files, f);
    FileScanSound(e, ns, before, src, lay, after);
    forall text | text != [] && CondHolds(e, src.strings, src.cond, text)
      ensures FirstMatch(e, LoadAll(e, files).value, text).Some?
    {
      var r := FoundIsMatch(e, Run(e, ns, INIT, f.lines).rules, text);
      LoadKeeps(e, files, f, r);
      MatchIsFound(e, LoadAll(e, files).value, r, text);
    }
  }

  // ---- No rule uses another rule's strings ----

  /** Equal but for the rules collected before. */
  ghost predicate SameButRules(s: Parser, base: seq<Rule>, t: Parser, other: seq<Rule>) {
    if s.Crashed? || t.Crashed? then s == t
    else
      && base <= s.rules && t.rules == other + s.rules[|base|..]
      && s.current == t.current && s.defs == t.defs && s.section == t.section
  }

  lemma SameButRulesClose(e: Engine, ns: string, s: Parser, base: seq<Rule>, t: Parser, other: seq<Rule>, l: Line)
    requires SameButRules(s, base, t, other) && s.Parser? && t.Parser? && s.current.Some? && Trimmed(l) == "}"
    ensures SameButRules(Step(e, ns, s, l), base, Step(e, ns, t, l), other)
  {
    Keyword(Trimmed(l));
    var r := s.current.value;
    if r.name != "" {
      var c := Closed(r, s.defs, l.order(s.defs));
      assert (s.rules + [c])[|base|..] == s.rules[|base|..] + [c];
      Associate(other, s.rules[|base|..], [c]);
    }
  }

  lemma SameButRulesStep(e: Engine, ns: string, s: Parser, base: seq<Rule>, t: Parser, other: seq<Rule>, l: Line)
    requires SameButRules(s, base, t, other)
    ensures SameButRules(Step(e, ns, s, l), base, Step(e, ns, t, l), other)
  {
    if s.Parser? && t.Parser? && s.current.Some? && Trimmed(l) == "}" {
      SameButRulesClose(e, ns, s, base, t, other, l);
    }
  }

  lemma {:induction false} SameButRulesRun(
      e: Engine, ns: string, s: Parser, base: seq<Rule>, t: Parser, other: seq<Rule>, lines: seq<Line>)
    requires SameButRules(s, base, t, other)
    ensures SameButRules(Run(e, ns, s, lines), base, Run(e, ns, t, lines), other)
    decreases |lines|
  {
    if lines != [] {
      var init, l := lines[..|lines| - 1], lines[|lines| - 1];
      SameButRulesRun(e, ns, s, base, t, other, init);
      SameButRulesStep(e, ns, Run(e, ns, s, init), base, Run(e, ns, t, init), other, l);
    }
  }

  /** From a header line on, what is added to the rules depends on those lines alone: nothing
      that came before leaks into a rule. */
  lemma RulesAreIndependent(e: Engine, ns: string, s: Parser, t: Parser, header: Line, lines: seq<Line>)
    requires s.Parser? && t.Parser? && HasPrefix(Trimmed(header), "rule ")
    ensures SameButRules(Run(e, ns, s, [header] + lines), s.rules, Run(e, ns, t, [header] + lines), t.rules)
  {
    HeadStep(e, ns, s, header);
    HeadStep(e, ns, t, header);
    RunConcat(e, ns, s, [header], lines);
    RunConcat(e, ns, t, [header], lines);
    RunOne(e, ns, s, header);
    RunOne(e, ns, t, header);
    SameButRulesRun(e, ns, Step(e, ns, s, header), s.rules, Step(e, ns, t, header), t.rules, lines);
  }
}
