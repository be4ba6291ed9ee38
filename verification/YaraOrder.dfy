/** Map iteration order: where it cannot be observed in the compiled rules, and where it can. */
module YaraOrder {
  import opened Bytes
  import opened Text
  import opened YaraCompiler

  ghost predicate SamePatterns(a: seq<Regex>, b: seq<Regex>) {
    forall re :: re in a <==> re in b
  }

  /** Equal but for the order and repetition of the patterns. */
  ghost predicate SimRule(r: Rule, s: Rule) {
    r == s.(anyPatterns := r.anyPatterns) && SamePatterns(r.anyPatterns, s.anyPatterns)
  }

  ghost predicate SimRules(a: seq<Rule>, b: seq<Rule>) {
    |a| == |b| && forall i :: 0 <= i < |a| ==> SimRule(a[i], b[i])
  }

  ghost predicate SimState(s: Parser, t: Parser) {
    if s.Crashed? || t.Crashed? then s == t
    else
      && SimRules(s.rules, t.rules)
      && s.defs == t.defs && s.section == t.section
      && (s.current.Some? <==> t.current.Some?)
      && (s.current.Some? ==> SimRule(s.current.value, t.current.value))
  }

  ghost predicate SameTexts(a: seq<Line>, b: seq<Line>) {
    && |a| == |b|
    && forall i :: 0 <= i < |a| ==> a[i].text == b[i].text && ValidOrder(a[i].order) && ValidOrder(b[i].order)
  }

  /** Every name the count condition's hint fits stands for the same pattern. */
  ghost predicate HintClear(defs: Defs, hint: string) {
    forall m, n :: m in defs && n in defs && Contains(Lower(m), hint) && Contains(Lower(n), hint) ==> defs[m] == defs[n]
  }

  predicate IsCount(lower: string) {
    var parts := Fields(lower);
    |parts| >= 3 && Atoi(parts[2]).Some?
  }

  function HintOf(lower: string): string
    requires IsCount(lower)
  {
    DropPrefix(Fields(lower)[0], '#')
  }

  /** A count condition on this line, if any, has a clear hint. */
  ghost predicate CountClear(st: Parser, l: Line) {
    var lower := Lower(TrimSpace(l.text));
    st.Parser? && st.section.Condition? && HasPrefix(lower, "#") && IsCount(lower) ==> HintClear(st.defs, HintOf(lower))
  }

  lemma GatherOrder(defs: Defs, mention: Option<string>, a: seq<string>, b: seq<string>)
    requires Enumerates(a, defs) && Enumerates(b, defs)
    ensures SamePatterns(Gather(defs, mention, a), Gather(defs, mention, b))
  {
    forall re ensures re in Gather(defs, mention, a) <==> re in Gather(defs, mention, b) {
      GatherIs(defs, mention, a, re);
      GatherIs(defs, mention, b, re);
    }
  }

  lemma {:induction false} FirstHintIs(defs: Defs, hint: string, names: seq<string>)
    ensures FirstHint(defs, hint, names).Some? ==>
            var n := FirstHint(defs, hint, names).value; n in defs && n in names && Contains(Lower(n), hint)
    ensures FirstHint(defs, hint, names).None? ==> forall n :: n in names && n in defs ==> !Contains(Lower(n), hint)
  {
    if names != [] {
      FirstHintIs(defs, hint, names[1..]);
      assert names == [names[0]] + names[1..];
    }
  }

  lemma CountOrder(lower: string, defs: Defs, a: seq<string>, b: seq<string>, r: Rule, s: Rule)
    requires Enumerates(a, defs) && Enumerates(b, defs) && SimRule(r, s)
    requires IsCount(lower) ==> HintClear(defs, HintOf(lower))
    ensures SimRule(ApplyCount(lower, defs, a, r), ApplyCount(lower, defs, b, s))
  {
    if IsCount(lower) {
      FirstHintIs(defs, HintOf(lower), a);
      FirstHintIs(defs, HintOf(lower), b);
    }
  }

  lemma SameClosed(r: Rule, s: Rule, defs: Defs, a: seq<string>, b: seq<string>)
    requires SimRule(r, s) && Enumerates(a, defs) && Enumerates(b, defs)
    ensures SimRule(Closed(r, defs, a), Closed(s, defs, b))
  {
    GatherOrder(defs, None, a, b);
    assert r.anyPatterns != [] ==> r.anyPatterns[0] in s.anyPatterns;
    assert s.anyPatterns != [] ==> s.anyPatterns[0] in r.anyPatterns;
  }

  lemma SameCondition(x: string, r: Rule, s: Rule, defs: Defs, a: seq<string>, b: seq<string>)
    requires SimRule(r, s) && Enumerates(a, defs) && Enumerates(b, defs)
    requires HasPrefix(Lower(x), "#") && IsCount(Lower(x)) ==> HintClear(defs, HintOf(Lower(x)))
    ensures SimRule(ConditionLine(x, a, defs, r), ConditionLine(x, b, defs, s))
  {
    GatherOrder(defs, None, a, b);
    GatherOrder(defs, Some(Lower(x)), a, b);
    if HasPrefix(Lower(x), "#") {
      CountOrder(Lower(x), defs, a, b, r, s);
    }
  }

  lemma SimRulesSnoc(a: seq<Rule>, b: seq<Rule>, r: Rule, s: Rule)
    requires SimRules(a, b) && SimRule(r, s)
    ensures SimRules(a + [r], b + [s])
  {
  }

  lemma SameClose(e: Engine, ns: string, s: Parser, t: Parser, k: Line, l: Line)
    requires SimState(s, t) && s.Parser? && s.current.Some?
    requires TrimSpace(k.text) == "}" == TrimSpace(l.text) && ValidOrder(k.order) && ValidOrder(l.order)
    ensures SimState(Step(e, ns, s, k), Step(e, ns, t, l))
  {
    var r1, r2 := s.current.value, t.current.value;
    assert Enumerates(k.order(s.defs), s.defs) && Enumerates(l.order(s.defs), s.defs);
    SameClosed(r1, r2, s.defs, k.order(s.defs), l.order(s.defs));
    SimRulesSnoc(s.rules, t.rules, Closed(r1, s.defs, k.order(s.defs)), Closed(r2, s.defs, l.order(s.defs)));
  }

  lemma SameStrings(e: Engine, x: string, s: Parser, t: Parser)
    requires SimState(s, t) && s.Parser?
    ensures SimState(StringLine(e, x, s), StringLine(e, x, t))
  {
  }

  lemma SameConditionStep(s: Parser, t: Parser, k: Line, l: Line)
    requires SimState(s, t) && s.Parser? && s.current.Some? && s.section.Condition? && CountClear(s, k)
    requires k.text == l.text && ValidOrder(k.order) && ValidOrder(l.order)
    ensures var x := TrimSpace(k.text);
            SimRule(ConditionLine(x, k.order(s.defs), s.defs, s.current.value),
                    ConditionLine(x, l.order(t.defs), t.defs, t.current.value))
  {
    assert Enumerates(k.order(s.defs), s.defs) && Enumerates(l.order(s.defs), s.defs);
    SameCondition(TrimSpace(k.text), s.current.value, t.current.value, s.defs, k.order(s.defs), l.order(s.defs));
  }

  /** Inside a rule, on a line that is neither a keyword nor a header. */
  lemma SameInner(e: Engine, ns: string, s: Parser, t: Parser, k: Line, l: Line)
    requires SimState(s, t) && s.Parser? && s.current.Some? && CountClear(s, k) && InnerLine(TrimSpace(k.text))
    requires k.text == l.text && ValidOrder(k.order) && ValidOrder(l.order)
    ensures SimState(Step(e, ns, s, k), Step(e, ns, t, l))
  {
    match s.section
    case NoSection =>
    case Meta =>
    case Strings => SameStrings(e, TrimSpace(k.text), s, t);
    case Condition => SameConditionStep(s, t, k, l);
  }

  predicate InnerLine(x: string) {
    !Skipped(x) && !HasPrefix(x, "rule ") && x !in {"meta:", "strings:", "condition:", "}"}
  }

  /** The lines the section does not see. */
  lemma SameOuter(e: Engine, ns: string, s: Parser, t: Parser, k: Line, l: Line)
    requires SimState(s, t) && k.text == l.text
    requires s.Crashed? || s.current.None? || (!InnerLine(TrimSpace(k.text)) && TrimSpace(k.text) != "}")
    ensures SimState(Step(e, ns, s, k), Step(e, ns, t, l))
  {
  }

  lemma SameStep(e: Engine, ns: string, s: Parser, t: Parser, k: Line, l: Line)
    requires SimState(s, t) && CountClear(s, k)
    requires k.text == l.text && ValidOrder(k.order) && ValidOrder(l.order)
    ensures SimState(Step(e, ns, s, k), Step(e, ns, t, l))
  {
    if s.Crashed? || s.current.None? {
      SameOuter(e, ns, s, t, k, l);
    } else if TrimSpace(k.text) == "}" {
      SameClose(e, ns, s, t, k, l);
    } else if InnerLine(TrimSpace(k.text)) {
      SameInner(e, ns, s, t, k, l);
    } else {
      SameOuter(e, ns, s, t, k, l);
    }
  }

  /** Every count condition met on the way has a clear hint. */
  ghost predicate AllClear(e: Engine, ns: string, lines: seq<Line>) {
    forall i :: 0 <= i < |lines| ==> CountClear(Run(e, ns, INIT, lines[..i]), lines[i])
  }

  lemma {:induction false} SameRun(e: Engine, ns: string, a: seq<Line>, b: seq<Line>)
    requires SameTexts(a, b) && AllClear(e, ns, a)
    ensures SimState(Run(e, ns, INIT, a), Run(e, ns, INIT, b))
    decreases |a|
  {
    if a != [] {
      var n := |a| - 1;
      var a', b' := a[..n], b[..n];
      forall i | 0 <= i < n ensures CountClear(Run(e, ns, INIT, a'[..i]), a'[i]) {
        assert a'[..i] == a[..i];
      }
      SameRun(e, ns, a', b');
      assert CountClear(Run(e, ns, INIT, a[..n]), a[n]);
      SameStep(e, ns, Run(e, ns, INIT, a'), Run(e, ns, INIT, b'), a[n], b[n]);
    }
  }

  /** Parsing the same text under two iteration orders gives rules that match the same texts,
      as long as count conditions have clear hints. */
  lemma {:induction false} OrderDoesNotMatter(e: Engine, ns: string, a: seq<Line>, b: seq<Line>, text: string)
    requires SameTexts(a, b) && AllClear(e, ns, a)
    ensures var s, t := Run(e, ns, INIT, a), Run(e, ns, INIT, b);
            && (s.Crashed? <==> t.Crashed?)
            && (s.Parser? ==>
                  && |s.rules| == |t.rules|
                  && forall i :: 0 <= i < |s.rules| ==>
                       && s.rules[i].name == t.rules[i].name
                       && (RuleMatches(e, s.rules[i], text) <==> RuleMatches(e, t.rules[i], text)))
  {
    SameRun(e, ns, a, b);
    var s, t := Run(e, ns, INIT, a), Run(e, ns, INIT, b);
    if s.Parser? {
      forall i | 0 <= i < |s.rules|
        ensures s.rules[i].name == t.rules[i].name
        ensures RuleMatches(e, s.rules[i], text) <==> RuleMatches(e, t.rules[i], text)
      {
        assert SimRule(s.rules[i], t.rules[i]);
      }
    }
  }

  // ---- Where the order shows ----

  ghost function SomeOrder(keys: set<string>): (names: seq<string>)
    ensures forall n :: n in names <==> n in keys
    ensures forall i, j :: 0 <= i < j < |names| ==> names[i] != names[j]
  {
    if keys == {} then []
    else
      var n :| n in keys;
      [n] + SomeOrder(keys - {n})
  }

  ghost function OrderFrom(defs: Defs, n: string): (names: seq<string>)
    requires n in defs
    ensures Enumerates(names, defs) && names[0] == n
  {
    [n] + SomeOrder(defs.Keys - {n})
  }

  ghost predicate SameCount(lower: string, defs: Defs, r: Rule, a: seq<string>, b: seq<string>) {
    Enumerates(a, defs) && Enumerates(b, defs) ==> ApplyCount(lower, defs, a, r) == ApplyCount(lower, defs, b, r)
  }

  /** The first name visited decides, when the hint fits it. */
  lemma FirstDecides(lower: string, defs: Defs, r: Rule, names: seq<string>)
    requires IsCount(lower) && names != [] && names[0] in defs && Contains(Lower(names[0]), HintOf(lower))
    ensures ApplyCount(lower, defs, names, r).count.Some?
    ensures ApplyCount(lower, defs, names, r).count.value.re == defs[names[0]]
  {
  }

  /** A count condition compiles to the same test under every iteration order exactly when all
      the names its hint fits stand for one pattern. */
  lemma CountOrderIff(lower: string, defs: Defs, r: Rule)
    requires IsCount(lower)
    ensures (forall a, b :: SameCount(lower, defs, r, a, b)) <==> HintClear(defs, HintOf(lower))
  {
    var hint := HintOf(lower);
    if HintClear(defs, hint) {
      forall a, b ensures SameCount(lower, defs, r, a, b) {
        FirstHintIs(defs, hint, a);
        FirstHintIs(defs, hint, b);
      }
    } else {
      var m, n :| m in defs && n in defs && Contains(Lower(m), hint) && Contains(Lower(n), hint) && defs[m] != defs[n];
      FirstDecides(lower, defs, r, OrderFrom(defs, m));
      FirstDecides(lower, defs, r, OrderFrom(defs, n));
      assert !SameCount(lower, defs, r, OrderFrom(defs, m), OrderFrom(defs, n));
    }
  }
}
