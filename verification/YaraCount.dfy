/** Count conditions: `#name op n` on a line of its own. */
module YaraCount {
  import opened Bytes
  import opened Text
  import opened YaraCompiler
  import opened YaraSource
  import opened YaraSoundness
  import opened YaraOrder

  // ---- Meaning ----

  /** How often the string occurs in a text. */
  function CountOf(e: Engine, s: Str, text: string): nat {
    e.occurrences(PatternOf(s), text)
  }

  datatype Operator = AtLeastOp | MoreOp | EqualOp | LessOp | AtMostOp | DifferOp

  function Written(op: Operator): string {
    match op
    case AtLeastOp => ">="
    case MoreOp => ">"
    case EqualOp => "=="
    case LessOp => "<"
    case AtMostOp => "<="
    case DifferOp => "!="
  }

  predicate Compare(op: Operator, count: int, n: int) {
    match op
    case AtLeastOp => count >= n
    case MoreOp => count > n
    case EqualOp => count == n
    case LessOp => count < n
    case AtMostOp => count <= n
    case DifferOp => count != n
  }

  /** `#name op n` holds on a text. */
  predicate CountHolds(e: Engine, strings: map<string, Str>, name: string, op: Operator, n: nat, text: string)
    requires name in strings
  {
    Compare(op, CountOf(e, strings[name], text), n)
  }

  // ---- Layout ----

  ghost predicate Gap(g: string) {
    g != "" && Blank(g)
  }

  /** `#name op n`, blanks between, and anything after a blank behind. */
  ghost predicate CountText(t: string, name: string, op: Operator, n: nat, g1: string, g2: string, tail: string) {
    && NameOk(name) && Gap(g1) && Gap(g2) && (tail == "" || IsSpace(tail[0]))
    && t == ['#'] + name[1..] + g1 + (Written(op) + g2 + (Digits(n) + tail))
  }

  ghost predicate CountLine(l: Line, name: string, op: Operator, n: nat) {
    && !Contains(Lower(Trimmed(l)), "any of")
    && exists g1, g2, tail :: CountText(Trimmed(l), name, op, n, g1, g2, tail)
  }

  /** The condition is this one line, comments and blank lines aside. */
  ghost predicate CountConds(conds: seq<Line>, i: nat, name: string, op: Operator, n: nat) {
    && i < |conds| && CountLine(conds[i], name, op, n)
    && forall k :: 0 <= k < |conds| && k != i ==> Skipped(Trimmed(conds[k]))
  }

  /** Of the strings that compile, only this one has the name in its own. */
  ghost predicate Unambiguous(e: Engine, strings: map<string, Str>, name: string) {
    forall m :: m in Compiled(e, strings) && Contains(Lower(m), Lower(DropPrefix(name, '$'))) ==> m == name
  }

  // ---- Reading the line ----

  lemma {:induction false} LowerJoin(a: string, b: string)
    ensures Lower(a + b) == Lower(a) + Lower(b)
  {
  }

  lemma {:induction false} LowerSame(s: string)
    requires forall c :: c in s ==> !('A' <= c <= 'Z')
    ensures Lower(s) == s
  {
    assert forall i :: 0 <= i < |s| ==> s[i] in s;
  }

  lemma {:induction false} LowerBlank(g: string)
    requires Gap(g)
    ensures Gap(Lower(g)) && Lower(g) == g
  {
    assert forall i :: 0 <= i < |g| ==> g[i] in g;
    LowerSame(g);
  }

  lemma {:induction false} FieldsStep(w: string, g: string, rest: string)
    requires w != "" && (forall c :: c in w ==> !IsSpace(c)) && Gap(g)
    ensures Fields(w + g + rest) == [w] + Fields(rest)
  {
    var all := w + g + rest;
    assert all == w + (g + rest) && (g + rest)[0] == g[0] && g[0] in g;
    assert all[0] == w[0] && w[0] in w;
    WordOfJoin(w, g + rest);
    assert all[|w|..] == g + rest;
    FieldsSkip(g, rest);
  }

  lemma {:induction false} FieldsSkip(g: string, rest: string)
    requires Blank(g)
    ensures Fields(g + rest) == Fields(rest)
    decreases |g|
  {
    if g == "" {
      assert g + rest == rest;
    } else {
      assert (g + rest)[0] == g[0] && g[0] in g && (g + rest)[1..] == g[1..] + rest;
      assert forall c :: c in g[1..] ==> c in g;
      FieldsSkip(g[1..], rest);
    }
  }

  lemma {:induction false} FieldsLast(w: string, tail: string)
    requires w != "" && (forall c :: c in w ==> !IsSpace(c)) && (tail == "" || IsSpace(tail[0]))
    ensures |Fields(w + tail)| >= 1 && Fields(w + tail)[0] == w
  {
    assert (w + tail)[0] == w[0] && w[0] in w;
    WordOfJoin(w, tail);
  }

  lemma {:induction false} LowerOfCount(
      t: string, name: string, op: Operator, n: nat, g1: string, g2: string, tail: string)
    requires CountText(t, name, op, n, g1, g2, tail)
    ensures Lower(t) == ['#'] + Lower(name[1..]) + g1 + (Written(op) + g2 + (Digits(n) + Lower(tail)))
  {
    var w, o, d := ['#'] + name[1..], Written(op), Digits(n);
    LowerBlank(g1);
    LowerBlank(g2);
    DigitsRoundTrip(n);
    LowerSame(o);
    LowerSame(d);
    LowerJoin(['#'], name[1..]);
    LowerSame(['#']);
    LowerJoin(d, tail);
    LowerJoin(o, g2);
    LowerJoin(o + g2, d + tail);
    LowerJoin(w, g1);
    LowerJoin(w + g1, o + g2 + (d + tail));
  }

  /** The three fields the parser reads. */
  lemma {:induction false} CountFields(
      t: string, name: string, op: Operator, n: nat, g1: string, g2: string, tail: string)
    requires CountText(t, name, op, n, g1, g2, tail)
    ensures var parts := Fields(Lower(t));
            && |parts| >= 3 && parts[0] == ['#'] + Lower(name[1..]) && parts[1] == Written(op) && parts[2] == Digits(n)
  {
    LowerOfCount(t, name, op, n, g1, g2, tail);
    DigitsRoundTrip(n);
    NoSpaceInName(name);
    LowerTail(tail);
    ThreeFields(['#'] + Lower(name[1..]), g1, Written(op), g2, Digits(n), Lower(tail));
  }

  lemma {:induction false} LowerTail(tail: string)
    requires tail == "" || IsSpace(tail[0])
    ensures Lower(tail) == "" || IsSpace(Lower(tail)[0])
  {
  }

  lemma {:induction false} ThreeFields(w: string, g1: string, o: string, g2: string, d: string, tail: string)
    requires w != "" && o != "" && d != "" && Gap(g1) && Gap(g2) && (tail == "" || IsSpace(tail[0]))
    requires (forall c :: c in w ==> !IsSpace(c)) && (forall c :: c in o ==> !IsSpace(c))
    requires forall c :: c in d ==> !IsSpace(c)
    ensures var parts := Fields(w + g1 + (o + g2 + (d + tail)));
            |parts| >= 3 && parts[0] == w && parts[1] == o && parts[2] == d
  {
    FieldsStep(w, g1, o + g2 + (d + tail));
    FieldsStep(o, g2, d + tail);
    FieldsLast(d, tail);
  }

  lemma {:induction false} NoSpaceInName(name: string)
    requires NameOk(name)
    ensures forall c :: c in ['#'] + Lower(name[1..]) ==> !IsSpace(c)
  {
    var id := name[1..];
    forall i | 0 <= i < |id| ensures !IsSpace(Lower(id)[i]) {
      assert id[i] in id && Lower(id)[i] == LowerChar(id[i]);
    }
  }

  lemma {:induction false} AtoiOfDigits(n: nat)
    requires n < 0x8000_0000_0000_0000
    ensures Atoi(Digits(n)) == Some(n)
  {
    DigitsRoundTrip(n);
    var d := Digits(n);
    assert d[0] in d;
    assert forall i :: 0 <= i < |d| ==> d[i] in d;
  }

  /** Signed numbers are read as such. */
  lemma {:induction false} AtoiReads(n: nat)
    requires n < 0x8000_0000_0000_0000
    ensures Atoi(['-'] + Digits(n)).Some? && Atoi(['-'] + Digits(n)).value + n == 0
    ensures Atoi(['+'] + Digits(n)) == Some(n)
  {
    DigitsRoundTrip(n);
    var d := Digits(n);
    assert forall i :: 0 <= i < |d| ==> d[i] in d;
    assert (['-'] + d)[1..] == d && (['+'] + d)[1..] == d;
  }

  /** Numbers beyond 64 bits are refused, and so is what is no number. */
  lemma {:induction false} AtoiTooLarge(n: nat)
    requires n >= 0x8000_0000_0000_0000
    ensures Atoi(Digits(n)) == None
  {
    DigitsRoundTrip(n);
    var d := Digits(n);
    assert d[0] in d;
  }

  lemma {:induction false} AtoiRefuses(s: string, i: nat)
    requires s == "" || (0 < i < |s| && !('0' <= s[i] <= '9'))
    ensures Atoi(s) == None
  {
    if s != "" { assert s[1..][i - 1] == s[i]; }
  }

  // ---- One count line ----

  lemma {:induction false} CountLineIsFree(l: Line, name: string, op: Operator, n: nat)
    requires CountLine(l, name, op, n)
    ensures var t := Trimmed(l);
            && !Skipped(t) && !HasPrefix(t, "rule ") && t !in {"meta:", "strings:", "condition:", "}"}
            && HasPrefix(Lower(t), "#")
  {
    var t := Trimmed(l);
    var g1, g2, tail :| CountText(t, name, op, n, g1, g2, tail);
    assert t[0] == '#' && |t| > 1;
    assert |t| >= 2 ==> t[..2][0] == '#';
    assert |t| >= 5 ==> t[..5][0] == '#';
    assert Lower(t)[0] == '#';
    assert Lower(t)[..1] == "#";
  }

  lemma {:induction false} AnyOfThemToo(lower: string)
    requires !Contains(lower, "any of")
    ensures !Contains(lower, "any of them")
  {
    AnyOfThem(lower);
  }

  lemma FreeLineStep(e: Engine, ns: string, st: Parser, l: Line)
    requires st.Parser? && st.current.Some? && st.section.Condition?
    requires var t := Trimmed(l);
             !Skipped(t) && !HasPrefix(t, "rule ") && t !in {"meta:", "strings:", "condition:", "}"}
    ensures var r, t := st.current.value, Trimmed(l);
            Step(e, ns, st, l) == st.(current := Some(ConditionLine(t, l.order(st.defs), st.defs, r)))
  {
  }

  lemma HashLine(t: string, names: seq<string>, defs: Defs, r: Rule)
    requires HasPrefix(Lower(t), "#") && !Contains(Lower(t), "any of")
    ensures ConditionLine(t, names, defs, r) == ApplyCount(Lower(t), defs, names, r)
  {
    AnyOfThemToo(Lower(t));
  }

  lemma {:induction false} CountStep(e: Engine, ns: string, st: Parser, l: Line, name: string, op: Operator, n: nat)
    requires st.Parser? && st.current.Some? && st.section.Condition? && CountLine(l, name, op, n)
    ensures var r, lower := st.current.value, Lower(Trimmed(l));
            Step(e, ns, st, l) == st.(current := Some(ApplyCount(lower, st.defs, l.order(st.defs), r)))
  {
    CountLineIsFree(l, name, op, n);
    FreeLineStep(e, ns, st, l);
    HashLine(Trimmed(l), l.order(st.defs), st.defs, st.current.value);
  }

  /** When only `name` fits the hint, its pattern and the number are what the rule tests. */
  lemma {:induction false} CountApplies(
      t: string, defs: Defs, names: seq<string>, r: Rule, name: string, op: Operator, n: nat,
      g1: string, g2: string, tail: string)
    requires CountText(t, name, op, n, g1, g2, tail) && n < 0x8000_0000_0000_0000
    requires Enumerates(names, defs) && name in defs
    requires forall m :: m in defs && Contains(Lower(m), Lower(name[1..])) ==> m == name
    ensures ApplyCount(Lower(t), defs, names, r) == r.(count := Some(CountTest(defs[name], n)))
  {
    CountFields(t, name, op, n, g1, g2, tail);
    AtoiOfDigits(n);
    var hint := Lower(name[1..]);
    assert DropPrefix(['#'] + hint, '#') == hint;
    FirstHintIs(defs, hint, names);
    NameFitsHint(name);
  }

  lemma {:induction false} NameFitsHint(name: string)
    requires NameOk(name)
    ensures Contains(Lower(name), Lower(name[1..]))
  {
    assert Lower(name)[1..] == Lower(name[1..]);
    ContainsSlice(Lower(name), 1, Lower(name[1..]));
  }

  /** When no name fits it, the line does nothing. */
  lemma {:induction false} CountMissing(
      t: string, defs: Defs, names: seq<string>, r: Rule, name: string, op: Operator, n: nat,
      g1: string, g2: string, tail: string)
    requires CountText(t, name, op, n, g1, g2, tail)
    requires Enumerates(names, defs) && forall m :: m in defs ==> !Contains(Lower(m), Lower(name[1..]))
    ensures ApplyCount(Lower(t), defs, names, r) == r
  {
    CountFields(t, name, op, n, g1, g2, tail);
    var hint := Lower(name[1..]);
    assert DropPrefix(['#'] + hint, '#') == hint;
    FirstHintIs(defs, hint, names);
  }

  // ---- A whole rule ----

  lemma {:induction false} SkippedRun(e: Engine, ns: string, st: Parser, lines: seq<Line>)
    requires forall l :: l in lines ==> Skipped(Trimmed(l))
    ensures Run(e, ns, st, lines) == st
    decreases |lines|
  {
    if lines != [] {
      var init, l := lines[..|lines| - 1], lines[|lines| - 1];
      assert lines == init + [l];
      SkippedRun(e, ns, st, init);
      SkippedStep(e, ns, st, l);
    }
  }

  /** Of a condition that is one line, that line decides. */
  lemma {:induction false} OneLineRun(e: Engine, ns: string, st: Parser, conds: seq<Line>, i: nat)
    requires i < |conds| && forall k :: 0 <= k < |conds| && k != i ==> Skipped(Trimmed(conds[k]))
    ensures Run(e, ns, st, conds) == Step(e, ns, st, conds[i])
  {
    var a, b := conds[..i], conds[i + 1..];
    assert conds == a + [conds[i]] + b;
    assert forall l :: l in a ==> Skipped(Trimmed(l));
    assert forall l :: l in b ==> Skipped(Trimmed(l));
    RunConcat(e, ns, st, a + [conds[i]], b);
    RunConcat(e, ns, st, a, [conds[i]]);
    SkippedRun(e, ns, st, a);
    RunOne(e, ns, st, conds[i]);
    SkippedRun(e, ns, Step(e, ns, st, conds[i]), b);
  }

  /** The state in front of the condition, and the rest of the rule as one line and its end. */
  lemma {:induction false} ReachCount(
      e: Engine, ns: string, st: Parser, strings: map<string, Str>, lay: Layout, i: nat,
      name: string, op: Operator, n: nat) returns (s5: Parser)
    requires st.Parser? && Framed(true, strings, lay) && CountConds(lay.conds, i, name, op, n)
    ensures AtCondition(e, true, strings, st.rules, s5)
    ensures Run(e, ns, st, Lines(lay)) == Step(e, ns, Step(e, ns, s5, lay.conds[i]), lay.close)
  {
    s5 := BeforeConditions(e, true, ns, st, strings, lay);
    OneLineRun(e, ns, s5, lay.conds, i);
  }

  lemma {:induction false} StartsEmpty(e: Engine, strings: map<string, Str>, rules: seq<Rule>, s5: Parser)
    requires AtCondition(e, true, strings, rules, s5)
    ensures s5.Parser? && s5.rules == rules && s5.current.Some? && s5.section.Condition?
    ensures Young(s5.current.value) && s5.defs.Keys == Compiled(e, strings)
    ensures forall m :: m in s5.defs ==> m in strings && s5.defs[m] == PatternOf(strings[m])
  {
  }

  /** What the count line and the end of the rule make of the state. */
  lemma {:induction false} CountEnds(
      e: Engine, ns: string, s5: Parser, l: Line, close: Line, name: string, op: Operator, n: nat) returns (r: Rule)
    requires s5.Parser? && s5.current.Some? && s5.section.Condition? && Young(s5.current.value)
    requires CountLine(l, name, op, n) && Trimmed(close) == "}"
    ensures r == ApplyCount(Lower(Trimmed(l)), s5.defs, l.order(s5.defs), s5.current.value)
    ensures r.name != "" ==>
              Step(e, ns, Step(e, ns, s5, l), close) ==
              Parser(s5.rules + [Closed(r, s5.defs, close.order(s5.defs))], None, s5.defs, NoSection)
  {
    CountStep(e, ns, s5, l, name, op, n);
    r := ApplyCount(Lower(Trimmed(l)), s5.defs, l.order(s5.defs), s5.current.value);
    if r.name != "" { CloseStep(e, ns, s5.(current := Some(r)), close); }
  }

  /** A count rule matches exactly where its string occurs at least n times, whatever operator is
      written: the parser does not read it. */
  lemma {:induction false} CountRuleCompiles(
      e: Engine, ns: string, st: Parser, strings: map<string, Str>, lay: Layout, i: nat,
      name: string, op: Operator, n: nat) returns (r: Rule)
    requires st.Parser? && Framed(true, strings, lay) && CountConds(lay.conds, i, name, op, n)
    requires name in Compiled(e, strings) && Unambiguous(e, strings, name) && n < 0x8000_0000_0000_0000
    ensures var end := Run(e, ns, st, Lines(lay));
            end.Parser? && end.rules == st.rules + [r] && end.current.None?
    ensures forall text :: RuleMatches(e, r, text) <==> CountOf(e, strings[name], text) >= n
  {
    var s5 := ReachCount(e, ns, st, strings, lay, i, name, op, n);
    StartsEmpty(e, strings, st.rules, s5);
    ConditionOrder(lay, i, s5.defs);
    r := CountEnds(e, ns, s5, lay.conds[i], lay.close, name, op, n);
    CountApplied(lay.conds[i], s5.defs, s5.current.value, name, op, n);
  }

  lemma {:induction false} CountApplied(l: Line, defs: Defs, r: Rule, name: string, op: Operator, n: nat)
    requires CountLine(l, name, op, n) && n < 0x8000_0000_0000_0000
    requires Enumerates(l.order(defs), defs) && name in defs
    requires forall m :: m in defs && Contains(Lower(m), Lower(DropPrefix(name, '$'))) ==> m == name
    ensures ApplyCount(Lower(Trimmed(l)), defs, l.order(defs), r) == r.(count := Some(CountTest(defs[name], n)))
  {
    var g1, g2, tail :| CountText(Trimmed(l), name, op, n, g1, g2, tail);
    assert DropPrefix(name, '$') == name[1..];
    CountApplies(Trimmed(l), defs, l.order(defs), r, name, op, n, g1, g2, tail);
  }

  lemma {:induction false} CountSkipped(l: Line, defs: Defs, r: Rule, name: string, op: Operator, n: nat)
    requires CountLine(l, name, op, n) && Enumerates(l.order(defs), defs)
    requires forall m :: m in defs ==> !Contains(Lower(m), Lower(DropPrefix(name, '$')))
    ensures ApplyCount(Lower(Trimmed(l)), defs, l.order(defs), r) == r
  {
    var g1, g2, tail :| CountText(Trimmed(l), name, op, n, g1, g2, tail);
    assert DropPrefix(name, '$') == name[1..];
    CountMissing(Trimmed(l), defs, l.order(defs), r, name, op, n, g1, g2, tail);
  }

  lemma {:induction false} ConditionOrder(lay: Layout, i: nat, defs: Defs)
    requires Orders(Lines(lay)) && i < |lay.conds|
    ensures Enumerates(lay.conds[i].order(defs), defs) && Enumerates(lay.close.order(defs), defs)
  {
    assert lay.conds[i] in Lines(lay) && lay.close in Lines(lay);
  }

  /** For `>=` that is what the source says; for the other operators rule and source agree on a
      text exactly under these conditions. */
  lemma {:induction false} OperatorIff(
      e: Engine, strings: map<string, Str>, name: string, op: Operator, n: nat, r: Rule, text: string)
    requires name in strings && (RuleMatches(e, r, text) <==> CountOf(e, strings[name], text) >= n)
    ensures var count := CountOf(e, strings[name], text);
            (RuleMatches(e, r, text) <==> CountHolds(e, strings, name, op, n, text)) <==>
            match op
            case AtLeastOp => true
            case MoreOp => count != n
            case EqualOp => count <= n
            case LessOp => false
            case AtMostOp => count == n
            case DifferOp => count > n
  {
  }

  /** When no string that compiles has the name in its own, the rule falls back to all strings. */
  lemma {:induction false} CountFallsBack(
      e: Engine, ns: string, st: Parser, strings: map<string, Str>, lay: Layout, i: nat,
      name: string, op: Operator, n: nat) returns (r: Rule)
    requires st.Parser? && Framed(true, strings, lay) && CountConds(lay.conds, i, name, op, n)
    requires forall m :: m in Compiled(e, strings) ==> !Contains(Lower(m), Lower(DropPrefix(name, '$')))
    ensures var end := Run(e, ns, st, Lines(lay));
            end.Parser? && end.rules == st.rules + [r] && end.current.None?
    ensures Means(e, true, strings, Compiled(e, strings), r)
  {
    var s5 := ReachCount(e, ns, st, strings, lay, i, name, op, n);
    StartsEmpty(e, strings, st.rules, s5);
    ConditionOrder(lay, i, s5.defs);
    var young := CountEnds(e, ns, s5, lay.conds[i], lay.close, name, op, n);
    CountSkipped(lay.conds[i], s5.defs, s5.current.value, name, op, n);
    var names := lay.close.order(s5.defs);
    r := Closed(young, s5.defs, names);
    AllGathered(s5.defs, names);
    FinishedMeans(e, true, strings, s5.defs, Compiled(e, strings), r);
  }

  lemma {:induction false} AllGathered(defs: Defs, names: seq<string>)
    requires Enumerates(names, defs)
    ensures forall re :: re in Gather(defs, None, names) <==> exists n :: n in defs.Keys && n in defs && re == defs[n]
  {
    forall re ensures re in Gather(defs, None, names) <==> exists n :: n in defs.Keys && n in defs && re == defs[n] {
      GatherIs(defs, None, names, re);
    }
  }

  // ---- What a scan reports ----

  /** The only rule of a file is a count rule: a scan reports it exactly on the non-empty data in
      which its string occurs at least n times. */
  lemma {:induction false} CountScanIff(
      e: Engine, ns: string, before: seq<Line>, strings: map<string, Str>, lay: Layout, after: seq<Line>, i: nat,
      name: string, op: Operator, n: nat)
    requires Framed(true, strings, lay) && CountConds(lay.conds, i, name, op, n)
    requires name in Compiled(e, strings) && Unambiguous(e, strings, name) && n < 0x8000_0000_0000_0000
    requires Run(e, ns, INIT, before + Lines(lay) + after).Parser?
    requires |Run(e, ns, INIT, before + Lines(lay) + after).rules| == 1
    ensures forall text :: FirstMatch(e, Run(e, ns, INIT, before + Lines(lay) + after).rules, text).Some? <==>
              text != [] && CountOf(e, strings[name], text) >= n
  {
    var r := CountRuleIsThere(e, ns, before, strings, lay, after, i, name, op, n);
    LoneRule(e, Run(e, ns, INIT, before + Lines(lay) + after).rules, r);
  }

  lemma {:induction false} LoneRule(e: Engine, rules: seq<Rule>, r: Rule)
    requires |rules| == 1 && r in rules
    ensures forall text :: FirstMatch(e, rules, text).Some? <==> text != [] && RuleMatches(e, r, text)
  {
    assert rules[0] == r;
  }

  /** In any file: the rule is among its rules, with the count as its match. */
  lemma {:induction false} CountRuleIsThere(
      e: Engine, ns: string, before: seq<Line>, strings: map<string, Str>, lay: Layout, after: seq<Line>, i: nat,
      name: string, op: Operator, n: nat) returns (r: Rule)
    requires Framed(true, strings, lay) && CountConds(lay.conds, i, name, op, n)
    requires name in Compiled(e, strings) && Unambiguous(e, strings, name) && n < 0x8000_0000_0000_0000
    requires Run(e, ns, INIT, before + Lines(lay) + after).Parser?
    ensures r in Run(e, ns, INIT, before + Lines(lay) + after).rules
    ensures forall text :: RuleMatches(e, r, text) <==> CountOf(e, strings[name], text) >= n
  {
    RunConcat(e, ns, INIT, before + Lines(lay), after);
    RunConcat(e, ns, INIT, before, Lines(lay));
    var s1 := Run(e, ns, INIT, before);
    var s2 := Run(e, ns, s1, Lines(lay));
    RulesGrow(e, ns, s2, after);
    RulesGrow(e, ns, s1, Lines(lay));
    r := CountRuleCompiles(e, ns, s1, strings, lay, i, name, op, n);
    var rules := Run(e, ns, s2, after).rules;
    assert rules[|s1.rules|] == s2.rules[|s1.rules|] == r;
  }

  /** The line of the shipped bulk-address rule. */
  lemma {:induction false} BulkLine(l: Line)
    requires Trimmed(l) == "#email >= 10" && !Contains(Lower(Trimmed(l)), "any of")
    ensures CountLine(l, "$email", AtLeastOp, 10)
  {
    Ten();
    assert "$email"[1..] == "email" && NameOk("$email");
    assert CountText(Trimmed(l), "$email", AtLeastOp, 10, " ", " ", "") by {
      assert ['#'] + "email" + " " + (">=" + " " + ("10" + "")) == "#email >= 10";
    }
  }

  lemma {:induction false} Ten()
    ensures Digits(10) == "10"
  {
    assert Digits(10) == Digits(1) + [Digit(0)];
  }
}
