/** What a reported rule is called and what its metadata says; which lines and files count. */
module YaraReport {
  import opened Bytes
  import opened Text
  import opened YaraCompiler
  import opened YaraSource
  import opened YaraSoundness

  // ---- Lines that do not count, names that are mentioned ----

  /** Blank lines and lines that begin as a comment never change anything. */
  lemma {:induction false} CommentsAreIgnored(e: Engine, ns: string, st: Parser, l: Line)
    requires Trimmed(l) == "" || HasPrefix(Trimmed(l), "//") || HasPrefix(Trimmed(l), "/*")
    ensures Step(e, ns, st, l) == st
  {
  }

  /** Before the first header and between rules no line but a header changes anything. */
  lemma {:induction false} OutsideIsIgnored(e: Engine, ns: string, st: Parser, l: Line)
    requires st.Parser? && st.current.None? && !HasPrefix(Trimmed(l), "rule ")
    ensures Step(e, ns, st, l) == st
  {
  }

  /** In the strings section, lines that do not define a `$name` change nothing, and a definition
      with nothing behind its sign stops the parser. */
  lemma {:induction false} StringsSection(e: Engine, ns: string, st: Parser, l: Line)
    requires st.Parser? && st.current.Some? && st.section.Strings? && Inner(l)
    ensures var t := Trimmed(l);
            && (!HasPrefix(t, "$") || '=' !in t ==> Step(e, ns, st, l) == st)
            && (HasPrefix(t, "$") && '=' in t && TrimSpace(t[IndexOf(t, '=') + 1..]) == "" ==>
                  Step(e, ns, st, l).Crashed?)
  {
    var t := Trimmed(l);
    if '=' !in t { IndexOfNone(t, '='); }
    if '=' in t { FirstIsThere(t, '='); }
    if HasPrefix(t, "$") {
      assert t[0] == t[..1][0] == '$';
      DollarFirst(t);
    }
  }

  lemma {:induction false} FirstIsThere(s: string, c: char)
    requires c in s
    ensures IndexOf(s, c) < |s|
  {
    if s[0] != c {
      assert s == [s[0]] + s[1..];
      FirstIsThere(s[1..], c);
    }
  }

  /** A definition ignores case when `nocase` stands in it behind a blank or a tab. */
  lemma {:induction false} NocaseIff(raw: string)
    ensures HasNocase(raw) <==> Contains(raw, " nocase") || Contains(raw, "\tnocase")
  {
  }

  /** A name is mentioned when its text, without the dollar sign and in lower case, stands in the
      line; the other test of the source adds nothing. */
  lemma {:induction false} MentionsIff(lower: string, name: string)
    ensures Mentions(lower, name) <==> Contains(lower, Lower(DropPrefix(name, '$')))
  {
    var clean := Lower(DropPrefix(name, '$'));
    if Contains(lower, "$" + clean) {
      assert ("$" + clean)[1..] == clean;
      ContainsSlice("$" + clean, 1, clean);
      ContainsTrans(lower, "$" + clean, clean);
    }
  }

  // ---- Files ----

  /** Rules come in the order of the files, unreadable ones left out. */
  lemma {:induction false} LoadInOrder(e: Engine, a: seq<RuleFile>, f: RuleFile, b: seq<RuleFile>)
    requires LoadAll(e, a + [f] + b).Some?
    ensures LoadAll(e, a).Some? && LoadAll(e, b).Some?
    ensures f.readable ==> Run(e, f.ns, INIT, f.lines).Parser?
    ensures LoadAll(e, a + [f] + b).value ==
            LoadAll(e, a).value + (if f.readable then Run(e, f.ns, INIT, f.lines).rules else [])
            + LoadAll(e, b).value
    decreases |b|
  {
    var all := a + [f] + b;
    if b == [] {
      assert all == a + [f];
      assert all[..|all| - 1] == a;
    } else {
      var b', g := b[..|b| - 1], b[|b| - 1];
      assert all[..|all| - 1] == a + [f] + b' && all[|all| - 1] == g;
      LoadInOrder(e, a, f, b');
    }
  }

  // ---- Metadata ----

  /** `key = "value"`, or with single quotes, blanks around. */
  lemma {:induction false} MetaText(key: string, g1: string, g2: string, value: string, quote: char)
    requires '=' !in key + g1 && Blank(g2) && (quote == '"' || quote == '\'')
    requires value != [] && !IsQuote(value[0]) && !IsQuote(value[|value| - 1])
    ensures ExtractMeta(key + g1 + ['='] + (g2 + ([quote] + value + [quote]))) == value
  {
    var left, body := key + g1, [quote] + value + [quote];
    var t := left + ['='] + (g2 + body);
    IndexOfJoin(left, '=', g2 + body);
    assert t[|left| + 1..] == g2 + body;
    assert body[0] == quote && body[|body| - 1] == quote;
    TrimBefore(g2, body);
    TrimQuotesOfPlain(value, quote);
  }

  lemma {:induction false} MetaWithoutSign(t: string)
    requires '=' !in t
    ensures ExtractMeta(t) == ""
  {
    IndexOfNone(t, '=');
  }

  /** What the last metadata line that begins with the key says. */
  function LastMeta(lines: seq<Line>, key: string): Option<string> {
    if lines == [] then None
    else
      var t := Trimmed(lines[|lines| - 1]);
      if !Skipped(t) && HasPrefix(t, key) then Some(ExtractMeta(t)) else LastMeta(lines[..|lines| - 1], key)
  }

  function OrDefault(v: Option<string>, otherwise: string): string {
    if v.Some? then v.value else otherwise
  }

  /** A metadata line, or any other line that is no keyword. */
  predicate Inner(l: Line) {
    var t := Trimmed(l);
    Skipped(t) || (!HasPrefix(t, "rule ") && t !in {"meta:", "strings:", "condition:", "}"})
  }

  ghost predicate Titled(st: Parser, name: string, ns: string, severity: string, description: string) {
    && st.Parser? && st.current.Some?
    && st.current.value.name == name && st.current.value.namespace == ns
    && st.current.value.severity == severity && st.current.value.description == description
  }

  /** Metadata lines set severity and description, the last one of each kind. */
  lemma {:induction false} MetaRun(e: Engine, ns: string, st: Parser, lines: seq<Line>, name: string)
    requires Titled(st, name, ns, "HIGH", "") && st.section.Meta? && forall l :: l in lines ==> Inner(l)
    ensures Titled(Run(e, ns, st, lines), name, ns,
                   OrDefault(LastMeta(lines, "severity"), "HIGH"), OrDefault(LastMeta(lines, "description"), ""))
    ensures Run(e, ns, st, lines).section.Meta?
    decreases |lines|
  {
    if lines != [] {
      var init, l := lines[..|lines| - 1], lines[|lines| - 1];
      assert lines == init + [l];
      MetaRun(e, ns, st, init, name);
      var mid, next := RunSnoc(e, ns, st, init, l);
      MetaStep(e, ns, mid, l);
      KeysDiffer(Trimmed(l));
    }
  }

  lemma {:induction false} MetaStep(e: Engine, ns: string, st: Parser, l: Line)
    requires st.Parser? && st.current.Some? && st.section.Meta? && Inner(l)
    ensures var t := Trimmed(l);
            Step(e, ns, st, l) ==
            if Skipped(t) then st else st.(current := Some(MetaLine(t, st.current.value)))
  {
  }

  lemma {:induction false} KeysDiffer(t: string)
    ensures !(HasPrefix(t, "severity") && HasPrefix(t, "description"))
  {
    assert HasPrefix(t, "severity") ==> t[0] == 's' by {
      if HasPrefix(t, "severity") { assert t[0] == t[..8][0]; }
    }
    assert HasPrefix(t, "description") ==> t[0] == 'd' by {
      if HasPrefix(t, "description") { assert t[0] == t[..11][0]; }
    }
  }

  /** Other lines leave name and metadata alone. */
  lemma {:induction false} TitleStep(
      e: Engine, ns: string, st: Parser, l: Line, name: string, severity: string, description: string)
    requires Titled(st, name, ns, severity, description) && !st.section.Meta?
    requires Skipped(Trimmed(l)) || (!HasPrefix(Trimmed(l), "rule ") && Trimmed(l) !in {"meta:", "}"})
    ensures var next := Step(e, ns, st, l);
            next.Crashed? || (Titled(next, name, ns, severity, description) && !next.section.Meta?)
  {
  }

  lemma {:induction false} TitleRun(
      e: Engine, ns: string, st: Parser, lines: seq<Line>, name: string, severity: string, description: string)
    requires Titled(st, name, ns, severity, description) && !st.section.Meta?
    requires forall l :: l in lines ==>
               Skipped(Trimmed(l)) || (!HasPrefix(Trimmed(l), "rule ") && Trimmed(l) !in {"meta:", "}"})
    ensures var end := Run(e, ns, st, lines);
            end.Crashed? || (Titled(end, name, ns, severity, description) && !end.section.Meta?)
    decreases |lines|
  {
    if lines != [] {
      var init, l := lines[..|lines| - 1], lines[|lines| - 1];
      assert lines == init + [l];
      TitleRun(e, ns, st, init, name, severity, description);
      var mid, next := RunSnoc(e, ns, st, init, l);
      if mid.Parser? { TitleStep(e, ns, mid, l, name, severity, description); }
    }
  }

  /** The lines before the strings: some without effect, the metadata keyword, the metadata. */
  ghost predicate Headed(pre: seq<Line>, before: seq<Line>, keyword: Line, meta: seq<Line>) {
    && pre == before + [keyword] + meta && Trimmed(keyword) == "meta:"
    && (forall l :: l in before ==> Inner(l)) && (forall l :: l in meta ==> Inner(l))
  }

  lemma {:induction false} HeadTitle(
      e: Engine, ns: string, st: Parser, header: Line, pre: seq<Line>,
      before: seq<Line>, keyword: Line, meta: seq<Line>)
    requires st.Parser? && HasPrefix(Trimmed(header), "rule ") && Headed(pre, before, keyword, meta)
    ensures |Fields(Trimmed(header))| >= 2
    ensures Titled(Run(e, ns, Step(e, ns, st, header), pre), Fields(Trimmed(header))[1], ns,
                   OrDefault(LastMeta(meta, "severity"), "HIGH"), OrDefault(LastMeta(meta, "description"), ""))
  {
    HeadStep(e, ns, st, header);
    var name, s1 := Fields(Trimmed(header))[1], Step(e, ns, st, header);
    RunConcat(e, ns, s1, before + [keyword], meta);
    RunConcat(e, ns, s1, before, [keyword]);
    IgnoredRun(e, ns, s1, before);
    RunOne(e, ns, s1, keyword);
    MetaKeyword(e, ns, s1, keyword);
    MetaRun(e, ns, s1.(section := Meta), meta, name);
  }

  lemma {:induction false} MetaKeyword(e: Engine, ns: string, st: Parser, l: Line)
    requires st.Parser? && st.current.Some? && Trimmed(l) == "meta:"
    ensures Step(e, ns, st, l) == st.(section := Meta)
  {
    var t := Trimmed(l);
    assert t[..2][0] == 'm' && t[..5][0] == 'm';
  }

  lemma {:induction false} IgnoredRun(e: Engine, ns: string, st: Parser, lines: seq<Line>)
    requires st.Parser? && st.section.NoSection? && forall l :: l in lines ==> Inner(l)
    ensures Run(e, ns, st, lines) == st
    decreases |lines|
  {
    if lines != [] {
      var init, l := lines[..|lines| - 1], lines[|lines| - 1];
      assert lines == init + [l];
      IgnoredRun(e, ns, st, init);
      var mid, next := RunSnoc(e, ns, st, init, l);
      IgnoredStep(e, ns, st, l);
    }
  }

  lemma {:induction false} IgnoredStep(e: Engine, ns: string, st: Parser, l: Line)
    requires st.Parser? && st.section.NoSection? && Inner(l)
    ensures Step(e, ns, st, l) == st
  {
  }

  lemma {:induction false} RunCrashed(e: Engine, ns: string, lines: seq<Line>)
    ensures Run(e, ns, Crashed, lines) == Crashed
    decreases |lines|
  {
    if lines != [] { RunCrashed(e, ns, lines[..|lines| - 1]); }
  }

  lemma {:induction false} DefLineIsPlain(exact: bool, strings: map<string, Str>, l: Line)
    requires DefLine(exact, strings, l) && !Skipped(Trimmed(l))
    ensures !HasPrefix(Trimmed(l), "rule ") && Trimmed(l) !in {"meta:", "}"}
  {
    var n :| n in strings && Defines(exact, Trimmed(l), n, strings[n]);
    var g1, g2, tail :| DefinesWith(exact, Trimmed(l), n, strings[n], g1, g2, tail);
    RawEnds(Trimmed(l), n, strings[n], g1, g2, tail);
    DollarFirst(Trimmed(l));
  }

  /** From the strings on, to the end of the rule. */
  lemma {:induction false} BodyKeepsTitle(
      e: Engine, exact: bool, ns: string, s3: Parser, strings: map<string, Str>, lay: Layout,
      name: string, severity: string, description: string)
    requires FreeLayout(exact, strings, lay) && Titled(s3, name, ns, severity, description) && !s3.section.Meta?
    ensures var s6 := Run(e, ns, Step(e, ns, Run(e, ns, s3, lay.defs), lay.conditionLine), lay.conds);
            s6.Crashed? || Titled(s6, name, ns, severity, description)
  {
    forall l | l in lay.defs && !Skipped(Trimmed(l))
      ensures !HasPrefix(Trimmed(l), "rule ") && Trimmed(l) !in {"meta:", "}"}
    {
      DefLineIsPlain(exact, strings, l);
    }
    TitleRun(e, ns, s3, lay.defs, name, severity, description);
    var s4 := Run(e, ns, s3, lay.defs);
    var s5 := Step(e, ns, s4, lay.conditionLine);
    if s4.Parser? {
      ConditionIsNoRule(Trimmed(lay.conditionLine));
      TitleStep(e, ns, s4, lay.conditionLine, name, severity, description);
    }
    if s5.Parser? {
      TitleRun(e, ns, s5, lay.conds, name, severity, description);
    } else {
      RunCrashed(e, ns, lay.conds);
    }
  }

  lemma {:induction false} ConditionIsNoRule(t: string)
    requires t in {"condition:", "strings:"}
    ensures !HasPrefix(t, "rule ") && t !in {"meta:", "}"} && !Skipped(t)
  {
    Keyword(t);
    assert t[0] != 'm' && t[0] != '}';
  }

  /** The closing line adds a rule with the title it has got. */
  lemma {:induction false} CloseTitled(
      e: Engine, ns: string, s6: Parser, close: Line, name: string, severity: string, description: string)
    requires Titled(s6, name, ns, severity, description) && name != "" && Trimmed(close) == "}"
    ensures var end := Step(e, ns, s6, close);
            && end.Parser? && |end.rules| == |s6.rules| + 1
            && var r := end.rules[|s6.rules|];
               r.name == name && r.namespace == ns && r.severity == severity && r.description == description
  {
    CloseStep(e, ns, s6, close);
  }

  ghost predicate TitledRule(r: Rule, name: string, ns: string, meta: seq<Line>) {
    && r.name == name && r.namespace == ns
    && r.severity == OrDefault(LastMeta(meta, "severity"), "HIGH")
    && r.description == OrDefault(LastMeta(meta, "description"), "")
  }

  /** The compiled rule has the header's name, its file's namespace, and the last severity and
      description of its metadata; HIGH and nothing where there are none. */
  lemma {:induction false} RuleIsTitled(
      e: Engine, exact: bool, ns: string, st: Parser, strings: map<string, Str>, lay: Layout,
      before: seq<Line>, keyword: Line, meta: seq<Line>)
    requires st.Parser? && FreeLayout(exact, strings, lay) && Headed(lay.pre, before, keyword, meta)
    ensures var end := Run(e, ns, st, Lines(lay));
            && end.Parser? && |end.rules| == |st.rules| + 1 && |Fields(Trimmed(lay.header))| >= 2
            && TitledRule(end.rules[|st.rules|], Fields(Trimmed(lay.header))[1], ns, meta)
  {
    var rule := CompilesTo(e, exact, ns, st, strings, lay);
    HeadTitle(e, ns, st, lay.header, lay.pre, before, keyword, meta);
    var name := Fields(Trimmed(lay.header))[1];
    HeaderIsNamed(lay.header);
    var severity := OrDefault(LastMeta(meta, "severity"), "HIGH");
    var description := OrDefault(LastMeta(meta, "description"), "");
    var s2 := Run(e, ns, Step(e, ns, st, lay.header), lay.pre);
    SectionStep(e, ns, s2, lay.stringsLine);
    var s3 := s2.(section := Strings);
    BodyKeepsTitle(e, exact, ns, s3, strings, lay, name, severity, description);
    RunLayout(e, ns, st, lay);
    var s6 := Run(e, ns, Step(e, ns, Run(e, ns, s3, lay.defs), lay.conditionLine), lay.conds);
    CloseTitled(e, ns, s6, lay.close, name, severity, description);
  }

  lemma {:induction false} HeaderIsNamed(l: Line)
    requires HasPrefix(Trimmed(l), "rule ")
    ensures |Fields(Trimmed(l))| >= 2 && Fields(Trimmed(l))[1] != ""
  {
    TrimSpaceShape(l.text);
    HeaderNames(Trimmed(l));
  }
}
