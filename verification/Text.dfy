/** The string operations the agent uses, on ASCII text. */
module Text {

  predicate IsSpace(c: char) {
    c == ' ' || c == '\t' || c == '\n' || c == '\r' || c == (11 as char) || c == (12 as char)
  }

  function LowerChar(c: char): char {
    if 'A' <= c <= 'Z' then ((c as int) + 32) as char else c
  }

  function Lower(s: string): (t: string)
    ensures |t| == |s| && forall i :: 0 <= i < |s| ==> t[i] == LowerChar(s[i])
  {
    seq(|s|, i requires 0 <= i < |s| => LowerChar(s[i]))
  }

  predicate HasPrefix(s: string, p: string) {
    |p| <= |s| && s[..|p|] == p
  }

  predicate Contains(s: string, t: string) {
    HasPrefix(s, t) || (s != [] && Contains(s[1..], t))
  }

  /** The blanks of ASCII text, and its capitals. */
  lemma {:induction false} AsciiIs(c: char)
    ensures IsSpace(c) <==> (c as int) in {9, 10, 11, 12, 13, 32}
    ensures LowerChar(c) == (if 65 <= (c as int) <= 90 then ((c as int) + 32) as char else c)
  {
  }

  function TrimLeft(s: string): string {
    if s != [] && IsSpace(s[0]) then TrimLeft(s[1..]) else s
  }

  function TrimRight(s: string): string {
    if s != [] && IsSpace(s[|s| - 1]) then TrimRight(s[..|s| - 1]) else s
  }

  function TrimSpace(s: string): string {
    TrimRight(TrimLeft(s))
  }

  /** The characters before the first space. */
  function Word(s: string): (w: string)
    ensures w <= s && forall c :: c in w ==> !IsSpace(c)
    ensures |w| < |s| ==> IsSpace(s[|w|])
  {
    if s == [] || IsSpace(s[0]) then [] else [s[0]] + Word(s[1..])
  }

  /** `strings.Fields`. */
  function Fields(s: string): (fs: seq<string>)
    ensures forall f :: f in fs ==> f != []
    decreases |s|
  {
    if s == [] then []
    else if IsSpace(s[0]) then Fields(s[1..])
    else
      var w := Word(s);
      assert w != [] by { assert s[0] == s[..1][0]; }
      [w] + Fields(s[|w|..])
  }

  /** The number a string of decimal digits stands for. */
  function DigitsValue(s: string): int {
    if s == [] then 0 else 10 * DigitsValue(s[..|s| - 1]) + (s[|s| - 1] as int - '0' as int)
  }

  // ---- Decimal numbers ----

  function Digit(d: nat): (c: char)
    requires d < 10
    ensures '0' <= c <= '9' && (c as int) - ('0' as int) == d
  {
    ((('0' as int) + d) as char)
  }

  function Digits(n: nat): string {
    if n < 10 then [Digit(n)] else Digits(n / 10) + [Digit(n % 10)]
  }

  lemma {:induction false} DigitsRoundTrip(n: nat)
    ensures DigitsValue(Digits(n)) == n
    ensures Digits(n) != [] && forall c :: c in Digits(n) ==> '0' <= c <= '9'
  {
    if n < 10 {
      assert [Digit(n)][..0] == [];
    } else {
      DigitsRoundTrip(n / 10);
      var s := Digits(n / 10) + [Digit(n % 10)];
      assert s[..|s| - 1] == Digits(n / 10);
    }
  }

  /** `strings.TrimPrefix` for a one-character prefix. */
  function DropPrefix(s: string, c: char): string {
    if s != [] && s[0] == c then s[1..] else s
  }

  predicate IsQuote(c: char) {
    c == '"' || c == '\''
  }

  function TrimQuotesLeft(s: string): string {
    if s != [] && IsQuote(s[0]) then TrimQuotesLeft(s[1..]) else s
  }

  function TrimQuotesRight(s: string): string {
    if s != [] && IsQuote(s[|s| - 1]) then TrimQuotesRight(s[..|s| - 1]) else s
  }

  function TrimQuotes(s: string): string {
    TrimQuotesRight(TrimQuotesLeft(s))
  }

  /** Index of the first c, or |s|. */
  function IndexOf(s: string, c: char): (i: nat)
    ensures i <= |s| && c !in s[..i]
    ensures i < |s| ==> s[i] == c
  {
    if s == [] || s[0] == c then 0
    else
      var i := 1 + IndexOf(s[1..], c);
      assert s[..i] == [s[0]] + s[1..][..i - 1];
      i
  }

  /** Index of the last c, or -1. */
  function LastIndexOf(s: string, c: char): (i: int)
    ensures -1 <= i < |s|
    ensures 0 <= i ==> s[i] == c
    ensures forall k :: i < k < |s| ==> s[k] != c
  {
    if s == [] then -1
    else if s[|s| - 1] == c then |s| - 1
    else LastIndexOf(s[..|s| - 1], c)
  }

  // ---- Containment ----

  lemma {:induction false} ContainsAt(s: string, i: nat, t: string)
    requires i <= |s| && HasPrefix(s[i..], t)
    ensures Contains(s, t)
  {
    if i == 0 {
      assert s[0..] == s;
    } else {
      assert s[i..] == s[1..][i - 1..];
      ContainsAt(s[1..], i - 1, t);
    }
  }

  lemma {:induction false} ContainsWhere(s: string, t: string) returns (i: nat)
    requires Contains(s, t)
    ensures i + |t| <= |s| && s[i..i + |t|] == t
  {
    if HasPrefix(s, t) {
      i := 0;
    } else {
      i := ContainsWhere(s[1..], t);
      assert s[1..][i..i + |t|] == s[i + 1..i + 1 + |t|];
      i := i + 1;
    }
  }

  lemma ContainsSlice(s: string, i: nat, t: string)
    requires i + |t| <= |s| && s[i..i + |t|] == t
    ensures Contains(s, t)
  {
    assert s[i..][..|t|] == s[i..i + |t|];
    ContainsAt(s, i, t);
  }

  lemma ContainsDrop(s: string, k: nat, t: string)
    requires k <= |s| && Contains(s[k..], t)
    ensures Contains(s, t)
  {
    var i := ContainsWhere(s[k..], t);
    assert s[k..][i..i + |t|] == s[k + i..k + i + |t|];
    ContainsSlice(s, k + i, t);
  }

  lemma ContainsTrans(s: string, t: string, u: string)
    requires Contains(s, t) && Contains(t, u)
    ensures Contains(s, u)
  {
    var i := ContainsWhere(s, t);
    var j := ContainsWhere(t, u);
    forall k | 0 <= k < |u| ensures s[i + j..i + j + |u|][k] == u[k] {
      assert t[j..j + |u|][k] == u[k] && s[i..i + |t|][j + k] == t[j + k];
    }
    ContainsSlice(s, i + j, u);
  }

  lemma ContainsLower(s: string, t: string)
    requires Contains(s, t)
    ensures Contains(Lower(s), Lower(t))
  {
    var i := ContainsWhere(s, t);
    assert Lower(s)[i..i + |t|] == Lower(t) by {
      forall k | 0 <= k < |t| ensures Lower(s)[i..i + |t|][k] == Lower(t)[k] {
        assert s[i..i + |t|][k] == t[k];
      }
    }
    ContainsSlice(Lower(s), i, Lower(t));
  }

  lemma ContainsJoin(a: string, t: string, b: string)
    ensures Contains(a + t + b, t)
  {
    var s := a + t + b;
    assert s[|a|..|a| + |t|] == t;
    ContainsSlice(s, |a|, t);
  }

  // ---- Trimming ----

  lemma {:induction false} TrimLeftShape(s: string)
    ensures TrimLeft(s) == [] || !IsSpace(TrimLeft(s)[0])
    ensures |TrimLeft(s)| <= |s| && TrimLeft(s) == s[|s| - |TrimLeft(s)|..]
  {
    if s != [] && IsSpace(s[0]) { TrimLeftShape(s[1..]); }
  }

  lemma {:induction false} TrimRightShape(s: string)
    ensures TrimRight(s) == [] || !IsSpace(TrimRight(s)[|TrimRight(s)| - 1])
    ensures TrimRight(s) <= s
  {
    if s != [] && IsSpace(s[|s| - 1]) { TrimRightShape(s[..|s| - 1]); }
  }

  lemma TrimSpaceShape(s: string)
    ensures var t := TrimSpace(s);
            t == [] || (!IsSpace(t[0]) && !IsSpace(t[|t| - 1]))
  {
    TrimLeftShape(s);
    TrimRightShape(TrimLeft(s));
  }

  lemma {:induction false} TrimLeftGap(gap: string, s: string)
    requires forall c :: c in gap ==> IsSpace(c)
    requires s != [] && !IsSpace(s[0])
    ensures TrimLeft(gap + s) == s
  {
    if gap == [] {
      assert gap + s == s;
    } else {
      assert (gap + s)[0] == gap[0] && gap[0] in gap;
      assert (gap + s)[1..] == gap[1..] + s;
      TrimLeftGap(gap[1..], s);
    }
  }

  lemma {:induction false} TrimRightGap(s: string, gap: string)
    requires forall c :: c in gap ==> IsSpace(c)
    requires s != [] && !IsSpace(s[|s| - 1])
    ensures TrimRight(s + gap) == s
  {
    if gap == [] {
      assert s + gap == s;
    } else {
      var all := s + gap;
      assert all[|all| - 1] == gap[|gap| - 1] && gap[|gap| - 1] in gap;
      assert all[..|all| - 1] == s + gap[..|gap| - 1];
      TrimRightGap(s, gap[..|gap| - 1]);
    }
  }

  /** Text between spaces is what trimming finds. */
  lemma TrimSpaceFinds(before: string, s: string, after: string)
    requires forall c :: c in before ==> IsSpace(c)
    requires forall c :: c in after ==> IsSpace(c)
    requires s != [] && !IsSpace(s[0]) && !IsSpace(s[|s| - 1])
    ensures TrimSpace(before + s + after) == s
  {
    assert before + s + after == before + (s + after);
    TrimLeftGap(before, s + after);
    TrimRightGap(s, after);
  }

  lemma {:induction false} TrimQuotesLeftShape(s: string)
    ensures |TrimQuotesLeft(s)| <= |s| && TrimQuotesLeft(s) == s[|s| - |TrimQuotesLeft(s)|..]
    ensures s != [] && IsQuote(s[0]) ==> |TrimQuotesLeft(s)| < |s|
  {
    if s != [] && IsQuote(s[0]) { TrimQuotesLeftShape(s[1..]); }
  }

  lemma {:induction false} TrimQuotesRightShape(s: string)
    ensures TrimQuotesRight(s) <= s
    ensures s != [] && IsQuote(s[|s| - 1]) ==> |TrimQuotesRight(s)| < |s|
  {
    if s != [] && IsQuote(s[|s| - 1]) { TrimQuotesRightShape(s[..|s| - 1]); }
  }

  lemma {:induction false} IndexOfNone(s: string, c: char)
    requires c !in s
    ensures IndexOf(s, c) == |s|
  {
    if s != [] {
      assert s[0] in s && forall x :: x in s[1..] ==> x in s;
      IndexOfNone(s[1..], c);
    }
  }

  lemma IndexOfJoin(a: string, c: char, b: string)
    requires c !in a
    ensures IndexOf(a + [c] + b, c) == |a|
  {
    var s := a + [c] + b;
    var i := IndexOf(s, c);
    assert s[|a|] == c;
    assert forall k :: 0 <= k < |a| ==> s[k] == a[k] && a[k] in a;
    assert forall k :: 0 <= k < i ==> s[k] == s[..i][k] && s[k] in s[..i];
  }
}
