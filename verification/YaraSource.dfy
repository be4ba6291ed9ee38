/** What a YARA rule means, how it may be laid out in a file, and how its strings compile. */
module YaraSource {
  import opened Bytes
  import opened Text
  import opened YaraCompiler

  // ---- Meaning ----

  /** A `$name = "content"` or `$name = /source/` definition with the modifiers that matter. */
  datatype Str =
    | Quoted(content: string, nocase: bool, fullword: bool)
    | Expr(source: string, nocase: bool)

  type pos = k: int | 1 <= k witness 1

  /** `AtLeast(1, names)` is `any of`, `AtLeast(|names|, names)` is `all of`. */
  datatype Cond =
    | Ref(name: string)
    | And(left: Cond, right: Cond)
    | Or(left: Cond, right: Cond)
    | Paren(inner: Cond)
    | AtLeast(k: pos, names: set<string>)

  datatype SourceRule = SourceRule(strings: map<string, Str>, cond: Cond)

  predicate IsWordChar(c: char) {
    'a' <= c <= 'z' || 'A' <= c <= 'Z' || '0' <= c <= '9' || c == '_'
  }

  /** Not glued to a word character on either side. */
  predicate Delimited(text: string, i: nat, n: nat)
    requires i + n <= |text|
  {
    && (i > 0 ==> !IsWordChar(text[i - 1]))
    && (i + n < |text| ==> !IsWordChar(text[i + n]))
  }

  predicate OccursAt(s: Str, text: string, i: nat)
    requires s.Quoted?
  {
    var n := |s.content|;
    && i + n <= |text|
    && (if s.nocase then Lower(text[i..i + n]) == Lower(s.content) else text[i..i + n] == s.content)
    && (s.fullword ==> Delimited(text, i, n))
  }

  ghost predicate StrHolds(e: Engine, s: Str, text: string) {
    match s
    case Quoted(_, _, _) => exists i: nat :: OccursAt(s, text, i)
    case Expr(src, nocase) => e.matches(src, nocase, text)
  }

  /** The strings that hold on a text. */
  ghost function HeldIn(e: Engine, strings: map<string, Str>, text: string): set<string> {
    set n | n in strings && StrHolds(e, strings[n], text)
  }

  /** The condition when exactly the strings in `held` hold. */
  predicate Truth(c: Cond, held: set<string>) {
    match c
    case Ref(n) => n in held
    case And(l, r) => Truth(l, held) && Truth(r, held)
    case Or(l, r) => Truth(l, held) || Truth(r, held)
    case Paren(i) => Truth(i, held)
    case AtLeast(k, names) => |names * held| >= k
  }

  ghost predicate CondHolds(e: Engine, strings: map<string, Str>, c: Cond, text: string) {
    Truth(c, HeldIn(e, strings, text))
  }

  function Refs(c: Cond): set<string> {
    match c
    case Ref(n) => {n}
    case And(l, r) => Refs(l) + Refs(r)
    case Or(l, r) => Refs(l) + Refs(r)
    case Paren(i) => Refs(i)
    case AtLeast(_, names) => names
  }

  // ---- Which pattern sets stand for a condition ----

  lemma SubsetSize(a: set<string>, b: set<string>)
    requires a <= b
    ensures |a| <= |b|
  {
    assert b == a + (b - a);
  }

  /** There is no negation: more strings never hurt. */
  lemma {:induction false} TruthGrows(c: Cond, few: set<string>, more: set<string>)
    requires few <= more && Truth(c, few)
    ensures Truth(c, more)
  {
    match c
    case Ref(_) =>
    case And(l, r) => TruthGrows(l, few, more); TruthGrows(r, few, more);
    case Or(l, r) => if Truth(l, few) { TruthGrows(l, few, more); } else { TruthGrows(r, few, more); }
    case Paren(i) => TruthGrows(i, few, more);
    case AtLeast(_, names) => SubsetSize(names * few, names * more);
  }

  /** Only the strings a condition refers to count. */
  lemma {:induction false} TruthIsLocal(c: Cond, held: set<string>, here: set<string>)
    requires Truth(c, held) && held * Refs(c) <= here
    ensures Truth(c, here)
  {
    match c
    case Ref(_) =>
    case And(l, r) => TruthIsLocal(l, held, here); TruthIsLocal(r, held, here);
    case Or(l, r) => if Truth(l, held) { TruthIsLocal(l, held, here); } else { TruthIsLocal(r, held, here); }
    case Paren(i) => TruthIsLocal(i, held, here);
    case AtLeast(_, names) =>
      assert names * held <= names * here;
      SubsetSize(names * held, names * here);
  }

  /** A condition without negation needs at least one of its strings. */
  lemma {:induction false} NothingIsNotEnough(c: Cond)
    ensures !Truth(c, {})
  {
    match c
    case Ref(_) =>
    case And(l, _) => NothingIsNotEnough(l);
    case Or(l, r) => NothingIsNotEnough(l); NothingIsNotEnough(r);
    case Paren(i) => NothingIsNotEnough(i);
    case AtLeast(_, names) => assert names * {} == {};
  }

  /** "Some string of ps holds" never misses the condition exactly when the other strings it
      refers to are not enough for it. */
  lemma NeverMissesIff(c: Cond, ps: set<string>)
    ensures (forall held: set<string> :: Truth(c, held) ==> held * ps != {}) <==> !Truth(c, Refs(c) - ps)
  {
    assert (Refs(c) - ps) * ps == {};
    forall held: set<string> | Truth(c, held) && held * ps == {} ensures Truth(c, Refs(c) - ps) {
      assert forall n :: n in held && n in ps ==> n in held * ps;
      TruthIsLocal(c, held, Refs(c) - ps);
    }
  }

  /** It never holds without the condition exactly when each string of ps is enough by itself. */
  lemma NeverOverreportsIff(c: Cond, ps: set<string>)
    ensures (forall held: set<string> :: held * ps != {} ==> Truth(c, held)) <==> forall n :: n in ps ==> Truth(c, {n})
  {
    forall n | n in ps ensures {n} * ps != {} { assert n in {n} * ps; }
    if forall n :: n in ps ==> Truth(c, {n}) {
      forall held: set<string> | held * ps != {} ensures Truth(c, held) {
        var n :| n in held * ps;
        TruthGrows(c, {n}, held);
      }
    }
  }

  /** The disjunction of a condition's strings is the condition exactly when each of them is
      enough by itself. */
  lemma ExactIff(c: Cond)
    ensures (forall held: set<string> :: Truth(c, held) <==> held * Refs(c) != {})
            <==> forall n :: n in Refs(c) ==> Truth(c, {n})
  {
    NeverOverreportsIff(c, Refs(c));
    NeverMissesIff(c, Refs(c));
    NothingIsNotEnough(c);
    assert Refs(c) - Refs(c) == {};
  }

  predicate OrOnly(c: Cond) {
    match c
    case Ref(_) => true
    case And(_, _) => false
    case Or(l, r) => OrOnly(l) && OrOnly(r)
    case Paren(i) => OrOnly(i)
    case AtLeast(k, _) => k == 1
  }

  lemma {:induction false} OrOnlyNeedsJustOne(c: Cond, n: string)
    requires OrOnly(c) && n in Refs(c)
    ensures Truth(c, {n})
  {
    match c
    case Ref(_) =>
    case And(_, _) =>
    case Or(l, r) => if n in Refs(l) { OrOnlyNeedsJustOne(l, n); } else { OrOnlyNeedsJustOne(r, n); }
    case Paren(i) => OrOnlyNeedsJustOne(i, n);
    case AtLeast(_, names) => assert names * {n} == {n};
  }

  // ---- Tokens of a condition ----

  datatype Token = Name(name: string) | AndWord | OrWord | Open | Close

  /** Built from names, `and`, `or` and parentheses. */
  predicate Simple(c: Cond) {
    match c
    case Ref(_) => true
    case And(l, r) => Simple(l) && Simple(r)
    case Or(l, r) => Simple(l) && Simple(r)
    case Paren(i) => Simple(i)
    case AtLeast(_, _) => false
  }

  function Tokens(c: Cond): seq<Token>
    requires Simple(c)
  {
    match c
    case Ref(n) => [Name(n)]
    case And(l, r) => Tokens(l) + [AndWord] + Tokens(r)
    case Or(l, r) => Tokens(l) + [OrWord] + Tokens(r)
    case Paren(i) => [Open] + Tokens(i) + [Close]
  }

  lemma {:induction false} RefsAreTokens(c: Cond, n: string)
    requires Simple(c)
    ensures n in Refs(c) <==> Name(n) in Tokens(c)
  {
    match c
    case Ref(_) =>
    case And(l, r) => RefsAreTokens(l, n); RefsAreTokens(r, n);
    case Or(l, r) => RefsAreTokens(l, n); RefsAreTokens(r, n);
    case Paren(i) => RefsAreTokens(i, n);
  }

  /** The run of word characters at the start of s. */
  function WordRun(s: string): (w: string)
    ensures |w| <= |s| && s[..|w|] == w
  {
    if s == [] || !IsWordChar(s[0]) then [] else [s[0]] + WordRun(s[1..])
  }

  /** The tokens of one line; None when something else is on it. */
  function Lex(s: string): Option<seq<Token>>
    decreases |s|
  {
    if s == [] then Some([])
    else if IsSpace(s[0]) then Lex(s[1..])
    else if s[0] == '(' then Cons(Open, Lex(s[1..]))
    else if s[0] == ')' then Cons(Close, Lex(s[1..]))
    else if s[0] == '$' then
      var w := WordRun(s[1..]);
      if w == [] then None else Cons(Name(['$'] + w), Lex(s[1 + |w|..]))
    else
      var w := WordRun(s);
      if w == "and" then Cons(AndWord, Lex(s[|w|..]))
      else if w == "or" then Cons(OrWord, Lex(s[|w|..]))
      else None
  }

  function Cons(t: Token, rest: Option<seq<Token>>): Option<seq<Token>> {
    match rest case None => None case Some(ts) => Some([t] + ts)
  }

  /** A name among a line's tokens stands in the line. */
  lemma {:induction false} LexMentions(s: string, n: string)
    requires Lex(s).Some? && Name(n) in Lex(s).value
    ensures Contains(s, n) && |n| > 1 && n[0] == '$'
    decreases |s|
  {
    if IsSpace(s[0]) || s[0] == '(' || s[0] == ')' {
      LexMentions(s[1..], n);
      ContainsDrop(s, 1, n);
    } else if s[0] == '$' {
      var w := WordRun(s[1..]);
      if n == ['$'] + w {
        assert s[..1 + |w|] == ['$'] + s[1..][..|w|];
      } else {
        LexMentions(s[1 + |w|..], n);
        ContainsDrop(s, 1 + |w|, n);
      }
    } else {
      var w := WordRun(s);
      LexMentions(s[|w|..], n);
      ContainsDrop(s, |w|, n);
    }
  }

  /** A line of tokens cannot be taken for a keyword, a comment or a count condition. */
  lemma LexFirst(t: string)
    requires t != [] && !IsSpace(t[0]) && Lex(t).Some?
    ensures t[0] in {'(', ')', '$', 'a', 'o'}
  {
    var w := WordRun(t);
    assert w != [] ==> w[0] == t[..|w|][0] == t[0];
  }

  // ---- Layout of a rule ----

  /** The text before a comment. */
  function BeforeComment(t: string): string {
    if t == [] || HasPrefix(t, "//") || HasPrefix(t, "/*") then [] else [t[0]] + BeforeComment(t[1..])
  }

  /** Changes which bytes a string stands for. */
  predicate Recodes(modifier: string) {
    modifier == "wide" || HasPrefix(modifier, "xor") || HasPrefix(modifier, "base64")
  }

  /** The modifiers say what s is: nocase and fullword as in s, and none that recodes. */
  predicate ModifiersOk(s: Str, modifiers: seq<string>) {
    && (s.nocase <==> "nocase" in modifiers)
    && ("fullword" in modifiers <==> s.Quoted? && s.fullword)
    && forall m :: m in modifiers ==> !Recodes(m)
  }

  /** What may follow the body of a definition: modifiers and a comment, set off by a blank. A
      nocase modifier is written as a word after a blank. */
  ghost predicate TailOk(s: Str, tail: string) {
    && (tail == "" || IsSpace(tail[0]))
    && ModifiersOk(s, Fields(BeforeComment(tail)))
    && (s.nocase ==> HasNocase(tail))
    && (s.Expr? && HasNocase(tail) ==> s.nocase)
  }

  ghost predicate BodyOk(s: Str) {
    match s
    case Quoted(content, _, _) => forall c :: c in content ==> c != '"' && c != '\\'
    case Expr(src, _) => forall c :: c in src ==> !IsSpace(c)
  }

  /** The regex library accepts it; it refuses lookaheads, for example. */
  predicate Compiles(e: Engine, s: Str) {
    s.Expr? ==> e.compiles(s.source, s.nocase)
  }

  function Body(s: Str): string {
    match s
    case Quoted(content, _, _) => "\"" + content + "\""
    case Expr(src, _) => "/" + src + "/"
  }

  ghost predicate NameOk(n: string) {
    |n| > 1 && n[0] == '$' && forall c :: c in n[1..] ==> IsWordChar(c)
  }

  ghost predicate Blank(gap: string) {
    forall c :: c in gap ==> IsSpace(c)
  }

  /** A definition the compiler keeps as it is: no spaces or quotes inside, no fullword, and no
      stray nocase in a comment. */
  ghost predicate Plain(s: Str, tail: string) {
    match s
    case Quoted(content, nocase, fullword) =>
      && !fullword
      && content != [] && (forall c :: c in content ==> !IsSpace(c) && !IsQuote(c))
      && (HasNocase(tail) ==> nocase)
    case Expr(_, _) => true
  }

  /** The trimmed line t defines name n as s; with `exact`, plainly. */
  ghost predicate Defines(exact: bool, t: string, n: string, s: Str) {
    exists gap1, gap2, tail :: DefinesWith(exact, t, n, s, gap1, gap2, tail)
  }

  ghost predicate DefinesWith(
    exact: bool, t: string, n: string, s: Str, gap1: string, gap2: string, tail: string)
  {
    && NameOk(n) && BodyOk(s) && TailOk(s, tail) && Blank(gap1) && Blank(gap2)
    && (exact ==> Plain(s, tail))
    && TrimSpace(t) == t
    && t == n + gap1 + ['='] + (gap2 + (Body(s) + tail))
  }

  // ---- Strings compile to something at least as permissive ----

  ghost predicate Covers(e: Engine, re: Regex, s: Str) {
    forall text :: StrHolds(e, s, text) ==> Matches(e, re, text)
  }

  ghost predicate Same(e: Engine, re: Regex, s: Str) {
    forall text :: StrHolds(e, s, text) <==> Matches(e, re, text)
  }

  /** The pattern a string stands for. */
  function PatternOf(s: Str): Regex {
    match s
    case Quoted(content, nocase, _) => Literal(content, nocase)
    case Expr(src, nocase) => Expression(src, nocase)
  }

  ghost predicate Faithful(e: Engine, exact: bool, re: Regex, s: Str) {
    Covers(e, re, s) && (exact ==> re == PatternOf(s) && Same(e, re, s))
  }

  lemma OccursContains(s: Str, text: string, i: nat)
    requires s.Quoted? && OccursAt(s, text, i)
    ensures Contains(Lower(text), Lower(s.content))
    ensures !s.nocase ==> Contains(text, s.content)
  {
    var n := |s.content|;
    if s.nocase {
      assert Lower(text)[i..i + n] == Lower(text[i..i + n]);
      ContainsSlice(Lower(text), i, Lower(s.content));
    } else {
      ContainsSlice(text, i, s.content);
      ContainsLower(text, s.content);
    }
  }

  /** A literal made from part of the content, at least as case-insensitive, covers it. */
  lemma PartCovers(e: Engine, s: Str, part: string, nocase: bool)
    requires s.Quoted? && Contains(s.content, part) && (s.nocase ==> nocase)
    ensures Covers(e, Literal(part, nocase), s)
  {
    forall text | StrHolds(e, s, text) ensures Matches(e, Literal(part, nocase), text) {
      var i: nat :| OccursAt(s, text, i);
      OccursContains(s, text, i);
      if nocase {
        ContainsLower(s.content, part);
        ContainsTrans(Lower(text), Lower(s.content), Lower(part));
      } else {
        ContainsTrans(text, s.content, part);
      }
    }
  }

  lemma FirstField(raw: string)
    requires raw != [] && !IsSpace(raw[0])
    ensures Fields(raw) != [] && Fields(raw)[0] == Word(raw)
  {
  }

  lemma {:induction false} WordOfJoin(a: string, b: string)
    requires forall c :: c in a ==> !IsSpace(c)
    requires b == [] || IsSpace(b[0])
    ensures Word(a + b) == a
  {
    if a == [] {
      assert a + b == b;
    } else {
      assert a[0] in a && (a + b)[1..] == a[1..] + b;
      WordOfJoin(a[1..], b);
    }
  }

  lemma NocaseOfTail(body: string, tail: string)
    requires HasNocase(tail)
    ensures HasNocase(body + tail)
  {
    var w := if Contains(tail, " nocase") then " nocase" else "\tnocase";
    ContainsJoin(body, tail, "");
    assert body + tail + "" == body + tail;
    ContainsTrans(body + tail, tail, w);
  }

  /** Whatever the first field of a quoted definition is, trimming its quotes leaves part of
      the content. */
  /** The first word ends with the closing quote at the latest. */
  lemma {:induction false} QuotedWord(content: string, tail: string)
    requires tail == "" || IsSpace(tail[0])
    ensures var raw := "\"" + content + "\"" + tail;
            0 < |Word(raw)| <= |content| + 2 && Word(raw) == raw[..|Word(raw)|]
  {
    var raw := "\"" + content + "\"" + tail;
    var token, n := Word(raw), |content|;
    assert raw[0] == '"';
    assert tail != "" ==> raw[n + 2] == tail[0];
    assert forall k :: 0 <= k < |token| ==> token[k] == raw[k] && token[k] in token;
  }

  lemma QuotedAt(content: string, tail: string, raw: string)
    requires raw == "\"" + content + "\"" + tail
    ensures |raw| >= |content| + 2 && raw[0] == '"' == raw[|content| + 1] && raw[1..|content| + 1] == content
  {
    assert raw == ['"'] + content + ['"'] + tail;
  }

  lemma QuotedToken(content: string, tail: string)
    requires forall c :: c in content ==> c != '"'
    requires tail == "" || IsSpace(tail[0])
    ensures var token := Word("\"" + content + "\"" + tail);
            token != [] && token[0] == '"' && Contains(content, TrimQuotes(token))
  {
    var raw := "\"" + content + "\"" + tail;
    QuotedWord(content, tail);
    QuotedAt(content, tail, raw);
    QuotedSlice(content, Word(raw), raw);
  }

  lemma SliceOfSlice(s: string, a: nat, b: nat, i: nat, j: nat)
    requires a <= i <= j <= b <= |s|
    ensures s[a..b][i - a..j - a] == s[i..j]
  {
    forall k | 0 <= k < j - i ensures s[a..b][i - a..j - a][k] == s[i..j][k] {
      assert s[a..b][i - a + k] == s[i + k];
    }
  }

  /** Trimming cuts a slice out, without the quotes the text begins and ends with. */
  lemma TrimQuotesSlice(s: string) returns (i: nat, j: nat)
    requires s != []
    ensures i <= j <= |s| && TrimQuotes(s) == s[i..j]
    ensures i < j && IsQuote(s[0]) ==> 0 < i
    ensures i < j && IsQuote(s[|s| - 1]) ==> j < |s|
  {
    var left := TrimQuotesLeft(s);
    TrimQuotesLeftShape(s);
    TrimQuotesRightShape(left);
    i := |s| - |left|;
    j := i + |TrimQuotes(s)|;
    assert left[..|TrimQuotes(s)|] == s[i..j];
  }

  /** A slice of the token that leaves out the quotes is a slice of the content. */
  lemma InnerSlice(content: string, token: string, raw: string, i: nat, j: nat)
    requires |content| + 1 <= |raw| && raw[1..|content| + 1] == content
    requires |token| <= |raw| && token == raw[..|token|]
    requires 1 <= i <= j <= |token| && j <= |content| + 1
    ensures Contains(content, token[i..j])
  {
    SliceOfSlice(raw, 0, |token|, i, j);
    SliceOfSlice(raw, 1, |content| + 1, i, j);
    ContainsSlice(content, i - 1, token[i..j]);
  }

  lemma QuotedSlice(content: string, token: string, raw: string)
    requires |content| + 2 <= |raw| && raw[0] == '"' == raw[|content| + 1] && raw[1..|content| + 1] == content
    requires 0 < |token| <= |content| + 2 && token == raw[..|token|]
    ensures Contains(content, TrimQuotes(token))
  {
    var i, j := TrimQuotesSlice(token);
    if i < j {
      assert token[0] == raw[0];
      assert token[|token| - 1] == raw[|token| - 1];
      InnerSlice(content, token, raw, i, j);
    }
  }

  lemma CompileQuoted(e: Engine, s: Str, tail: string)
    requires s.Quoted? && BodyOk(s) && TailOk(s, tail)
    ensures var raw := Body(s) + tail;
            Fields(raw) != [] && CompileString(e, raw).Some? && Covers(e, CompileString(e, raw).value, s)
  {
    var raw := Body(s) + tail;
    assert raw == "\"" + s.content + "\"" + tail;
    FirstField(raw);
    QuotedToken(s.content, tail);
    var token := Word(raw);
    if s.nocase { NocaseOfTail(Body(s), tail); }
    assert CompileString(e, raw) == Some(Literal(TrimQuotes(token), HasNocase(raw)));
    PartCovers(e, s, TrimQuotes(token), HasNocase(raw));
  }

  lemma SliceOfTail(body: string, tail: string, i: nat, j: nat)
    requires |body| <= i <= j <= |body| + |tail|
    ensures (body + tail)[i..j] == tail[i - |body|..j - |body|]
  {
  }

  /** A word that starts with a space cannot begin inside a body without spaces. */
  lemma SpacedWordInTail(body: string, tail: string, w: string)
    requires forall c :: c in body ==> !IsSpace(c)
    requires w != [] && IsSpace(w[0]) && Contains(body + tail, w)
    ensures Contains(tail, w)
  {
    var i := ContainsWhere(body + tail, w);
    assert (body + tail)[i] == w[0] by { assert (body + tail)[i..i + |w|][0] == w[0]; }
    assert i >= |body| by { assert forall k :: 0 <= k < |body| ==> body[k] in body; }
    SliceOfTail(body, tail, i, i + |w|);
    ContainsSlice(tail, i - |body|, w);
  }

  lemma NocaseInTail(body: string, tail: string)
    requires forall c :: c in body ==> !IsSpace(c)
    ensures HasNocase(body + tail) <==> HasNocase(tail)
  {
    if HasNocase(tail) { NocaseOfTail(body, tail); }
    if Contains(body + tail, " nocase") { SpacedWordInTail(body, tail, " nocase"); }
    if Contains(body + tail, "\tnocase") { SpacedWordInTail(body, tail, "\tnocase"); }
  }

  lemma {:induction false} TrimQuotesRightOfPlain(s: string, q: string)
    requires s == [] || !IsQuote(s[|s| - 1])
    requires forall c :: c in q ==> IsQuote(c)
    ensures TrimQuotesRight(s + q) == s
  {
    if q == [] {
      assert s + q == s;
    } else {
      var all := s + q;
      assert all[|all| - 1] == q[|q| - 1] && q[|q| - 1] in q;
      assert all[..|all| - 1] == s + q[..|q| - 1];
      TrimQuotesRightOfPlain(s, q[..|q| - 1]);
    }
  }

  lemma TrimQuotesOfPlain(c: string, quote: char)
    requires IsQuote(quote) && c != [] && !IsQuote(c[0]) && !IsQuote(c[|c| - 1])
    ensures TrimQuotes([quote] + c + [quote]) == c
  {
    var body, rest := [quote] + c + [quote], c + [quote];
    assert body[0] == quote && body[1..] == rest && rest[0] == c[0];
    assert TrimQuotesLeft(rest) == rest;
    assert TrimQuotesLeft(body) == rest;
    TrimQuotesRightOfPlain(c, [quote]);
  }

  lemma CompilePlainQuoted(e: Engine, s: Str, tail: string)
    requires s.Quoted? && BodyOk(s) && TailOk(s, tail) && Plain(s, tail)
    ensures CompileString(e, Body(s) + tail) == Some(Literal(s.content, s.nocase))
  {
    var raw, body, c := Body(s) + tail, Body(s), s.content;
    assert body == ['"'] + c + ['"'];
    assert forall x :: x in body ==> !IsSpace(x);
    FirstField(raw);
    WordOfJoin(body, tail);
    NocaseInTail(body, tail);
    assert c[0] in c && c[|c| - 1] in c;
    TrimQuotesOfPlain(c, '"');
    assert !HasPrefix(body, "/") by { assert body[0] == '"'; }
  }

  lemma LiteralOccurs(s: Str, text: string)
    requires s.Quoted? && !s.fullword
    requires if s.nocase then Contains(Lower(text), Lower(s.content)) else Contains(text, s.content)
    ensures exists i: nat :: OccursAt(s, text, i)
  {
    var n := |s.content|;
    if s.nocase {
      var i := ContainsWhere(Lower(text), Lower(s.content));
      assert Lower(text)[i..i + n] == Lower(text[i..i + n]);
      assert OccursAt(s, text, i);
    } else {
      var i := ContainsWhere(text, s.content);
      assert OccursAt(s, text, i);
    }
  }

  lemma LiteralIsSame(e: Engine, s: Str)
    requires s.Quoted? && !s.fullword
    ensures Same(e, Literal(s.content, s.nocase), s)
  {
    forall text
      ensures StrHolds(e, s, text) <==> Matches(e, Literal(s.content, s.nocase), text)
    {
      if StrHolds(e, s, text) {
        var i: nat :| OccursAt(s, text, i);
        OccursContains(s, text, i);
      }
      if Matches(e, Literal(s.content, s.nocase), text) {
        LiteralOccurs(s, text);
      }
    }
  }

  lemma CompileExpr(e: Engine, s: Str, tail: string)
    requires s.Expr? && BodyOk(s) && TailOk(s, tail)
    ensures var raw := Body(s) + tail;
            && Fields(raw) != []
            && CompileString(e, raw) == if Compiles(e, s) then Some(Expression(s.source, s.nocase)) else None
  {
    var raw, body := Body(s) + tail, Body(s);
    assert body == ['/'] + s.source + ['/'];
    assert forall x :: x in body ==> !IsSpace(x);
    FirstField(raw);
    WordOfJoin(body, tail);
    NocaseInTail(body, tail);
    assert HasPrefix(body, "/") by { assert body[..1] == "/"; }
    assert body[|body| - 1] == '/';
    assert body[1..|body| - 1] == s.source;
  }

  /** Every definition the regex library accepts compiles to something that matches wherever the
      source string does, a plain one to exactly the source string; the others leave nothing. */
  lemma CompileFaithful(e: Engine, exact: bool, s: Str, tail: string)
    requires BodyOk(s) && TailOk(s, tail) && (exact ==> Plain(s, tail))
    ensures var raw := Body(s) + tail;
            && Fields(raw) != []
            && (CompileString(e, raw).Some? <==> Compiles(e, s))
            && (Compiles(e, s) ==> Faithful(e, exact, CompileString(e, raw).value, s))
  {
    if s.Expr? {
      CompileExpr(e, s, tail);
    } else {
      CompileQuoted(e, s, tail);
      if exact {
        CompilePlainQuoted(e, s, tail);
        LiteralIsSame(e, s);
      }
    }
  }

  lemma BodyFirst(s: Str)
    ensures Body(s) != [] && !IsSpace(Body(s)[0])
  {
  }

  lemma TrimAfter(s: string, gap: string)
    requires Blank(gap) && s != [] && !IsSpace(s[0]) && !IsSpace(s[|s| - 1])
    ensures TrimSpace(s + gap) == s
  {
    assert [] + s + gap == s + gap;
    TrimSpaceFinds([], s, gap);
  }

  lemma TrimBefore(gap: string, s: string)
    requires Blank(gap) && s != [] && !IsSpace(s[0]) && !IsSpace(s[|s| - 1])
    ensures TrimSpace(gap + s) == s
  {
    assert gap + s + [] == gap + s;
    TrimSpaceFinds(gap, s, []);
  }

  lemma NameChars(n: string, gap: string)
    requires NameOk(n) && Blank(gap)
    ensures '=' !in n + gap && !IsSpace(n[0]) && !IsSpace(n[|n| - 1])
  {
    assert n == [n[0]] + n[1..];
    assert n[|n| - 1] in n[1..];
    assert forall c :: c in gap ==> IsSpace(c);
    assert forall c :: c in n[1..] ==> IsWordChar(c);
  }

  /** A definition line as the parser takes it apart. */
  lemma DefinitionParts(t: string, n: string, gap1: string, gap2: string, raw: string)
    requires NameOk(n) && Blank(gap1) && Blank(gap2)
    requires raw != [] && !IsSpace(raw[0]) && !IsSpace(raw[|raw| - 1])
    requires t == n + gap1 + ['='] + (gap2 + raw)
    ensures var i := IndexOf(t, '=');
            i < |t| && TrimSpace(t[..i]) == n && TrimSpace(t[i + 1..]) == raw
  {
    var left, right := n + gap1, gap2 + raw;
    NameChars(n, gap1);
    IndexOfJoin(left, '=', right);
    assert t[..|left|] == left && t[|left| + 1..] == right;
    TrimAfter(n, gap1);
    TrimBefore(gap2, raw);
  }

  lemma DollarFirst(t: string)
    requires t != [] && t[0] == '$'
    ensures HasPrefix(t, "$") && !HasPrefix(t, "rule ") && !Skipped(t)
  {
    assert t[..1] == "$";
    assert |t| >= 5 ==> t[..5][0] == '$';
    assert |t| >= 2 ==> t[..2][0] == '$';
  }

  lemma StringLineIs(e: Engine, t: string, st: Parser, n: string, raw: string)
    requires st.Parser? && HasPrefix(t, "$")
    requires IndexOf(t, '=') < |t| && TrimSpace(t[..IndexOf(t, '=')]) == n && TrimSpace(t[IndexOf(t, '=') + 1..]) == raw
    requires Fields(raw) != []
    ensures StringLine(e, t, st) == match CompileString(e, raw)
                                    case Some(re) => st.(defs := st.defs[n := re])
                                    case None => st
  {
  }

  lemma RawEnds(t: string, n: string, s: Str, gap1: string, gap2: string, tail: string)
    requires NameOk(n) && TrimSpace(t) == t
    requires t == n + gap1 + ['='] + (gap2 + (Body(s) + tail))
    ensures t[0] == '$'
    ensures var raw := Body(s) + tail; raw != [] && !IsSpace(raw[0]) && !IsSpace(raw[|raw| - 1])
  {
    var raw := Body(s) + tail;
    BodyFirst(s);
    TrimSpaceShape(t);
    assert raw[|raw| - 1] == t[|t| - 1];
  }

  lemma DefinitionLine(e: Engine, exact: bool, t: string, n: string, s: Str, st: Parser)
    requires Defines(exact, t, n, s) && st.Parser?
    ensures Compiles(e, s) ==>
              exists re :: Faithful(e, exact, re, s) && StringLine(e, t, st) == st.(defs := st.defs[n := re])
    ensures !Compiles(e, s) ==> StringLine(e, t, st) == st
    ensures t != [] && t[0] == '$'
  {
    var gap1, gap2, tail :| DefinesWith(exact, t, n, s, gap1, gap2, tail);
    var raw := Body(s) + tail;
    RawEnds(t, n, s, gap1, gap2, tail);
    DefinitionParts(t, n, gap1, gap2, raw);
    CompileFaithful(e, exact, s, tail);
    DollarFirst(t);
    StringLineIs(e, t, st, n, raw);
  }
}
