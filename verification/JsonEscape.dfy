/** The C modules' JSON string escaping into a fixed buffer, with truncation. */
module JsonEscape {
  import opened Bytes

  const QUOTE: byte := 34
  const BACKSLASH: byte := 92

  // ---- What one source byte becomes ----

  function EscapeByte(c: byte): bytes {
    if c == QUOTE then [BACKSLASH, QUOTE]
    else if c == BACKSLASH then [BACKSLASH, BACKSLASH]
    else if c == 10 then [BACKSLASH, 110]
    else if c == 13 then [BACKSLASH, 114]
    else if c == 9 then [BACKSLASH, 116]
    else if c >= 32 then [c]
    else []
  }

  function Escape(s: bytes): bytes {
    if s == [] then [] else EscapeByte(s[0]) + Escape(s[1..])
  }

  lemma {:induction false} EscapeSnoc(s: bytes, c: byte)
    ensures Escape(s + [c]) == Escape(s) + EscapeByte(c)
  {
    if s == [] {
      assert s + [c] == [c] && [c][1..] == [];
    } else {
      assert (s + [c])[1..] == s[1..] + [c];
      EscapeSnoc(s[1..], c);
    }
  }

  // ---- JSON string bodies (RFC 8259, section 7) ----

  /** The byte a two-character escape stands for. */
  function Unescaped(c: byte): Option<byte> {
    if c == QUOTE || c == BACKSLASH || c == 47 then Some(c)
    else if c == 98 then Some(8)
    else if c == 102 then Some(12)
    else if c == 110 then Some(10)
    else if c == 114 then Some(13)
    else if c == 116 then Some(9)
    else None
  }

  /** Reads a string body; None when it holds a bare quote, a control byte, an unknown escape
      or a dangling backslash. */
  function Unescape(s: bytes): Option<bytes> {
    if s == [] then Some([])
    else if s[0] == BACKSLASH then
      if |s| == 1 || Unescaped(s[1]).None? then None
      else
        match Unescape(s[2..]) case None => None case Some(t) => Some([Unescaped(s[1]).value] + t)
    else if s[0] == QUOTE || s[0] < 32 then None
    else match Unescape(s[1..]) case None => None case Some(t) => Some([s[0]] + t)
  }

  /** All bytes survive but the control bytes other than tab, line feed and carriage return. */
  predicate Survives(c: byte) {
    c >= 32 || c in {9, 10, 13}
  }

  function Kept(s: bytes): bytes {
    if s == [] then [] else (if Survives(s[0]) then [s[0]] else []) + Kept(s[1..])
  }

  lemma {:induction false} UnescapeStep(c: byte, rest: bytes)
    ensures var kept: bytes := if Survives(c) then [c] else [];
            Unescape(EscapeByte(c) + rest) == match Unescape(rest) case None => None case Some(t) => Some(kept + t)
  {
    var e := EscapeByte(c);
    var all := e + rest;
    assert all[|e|..] == rest;
    if e == [] {
      assert all == rest;
      assert Unescape(rest).Some? ==> [] + Unescape(rest).value == Unescape(rest).value;
    } else if |e| == 2 {
      assert all[0] == BACKSLASH && all[1] == e[1] && Unescaped(e[1]) == Some(c);
    } else {
      assert all[0] == c;
    }
  }

  /** Text without quotes, backslashes and control bytes is written as it is. */
  lemma {:induction false} PlainIsUnchanged(s: bytes)
    requires forall c :: c in s ==> c >= 32 && c != QUOTE && c != BACKSLASH
    ensures Escape(s) == s
  {
    if s != [] {
      assert s == [s[0]] + s[1..] && s[0] in s && forall c :: c in s[1..] ==> c in s;
      PlainIsUnchanged(s[1..]);
    }
  }

  /** Any escaped text is a well-formed string body and reads back as the source without its
      dropped control bytes. */
  lemma {:induction false} EscapeReadsBack(s: bytes)
    ensures Unescape(Escape(s)) == Some(Kept(s))
  {
    if s != [] {
      EscapeReadsBack(s[1..]);
      UnescapeStep(s[0], Escape(s[1..]));
    }
  }

  // ---- Truncation ----

  /** `taken` source bytes were read before the output reached the limit, and no more. */
  ghost predicate Taken(src: bytes, limit: nat, taken: nat) {
    && taken <= |src|
    && (taken < |src| ==> |Escape(src[..taken])| >= limit)
    && (forall k :: 0 <= k < taken ==> |Escape(src[..k])| < limit)
  }

  /** The taken prefix is unique: the output is a function of source and buffer size. */
  lemma TakenUnique(src: bytes, limit: nat, m: nat, n: nat)
    requires Taken(src, limit, m) && Taken(src, limit, n)
    ensures m == n
  {
  }

  /** What a call leaves in the buffer, the old contents beyond the terminator included. */
  ghost predicate Written(src: bytes, before: bytes, after: bytes, dstsz: nat, taken: nat, outlen: nat) {
    && 2 <= dstsz <= |before| == |after|
    && Taken(src, dstsz - 2, taken)
    && outlen == |Escape(src[..taken])| < dstsz
    && after == Escape(src[..taken]) + [0] + before[outlen + 1..]
  }

  /** Reading the buffer up to its NUL gives back the taken prefix without control bytes. */
  lemma WrittenReadsBack(src: bytes, before: bytes, after: bytes, dstsz: nat, taken: nat, outlen: nat)
    requires Written(src, before, after, dstsz, taken, outlen)
    ensures after[outlen] == 0 && Unescape(after[..outlen]) == Some(Kept(src[..taken]))
    ensures taken == |src| || outlen >= dstsz - 2
  {
    EscapeReadsBack(src[..taken]);
    assert after[..outlen] == Escape(src[..taken]);
  }

  // ---- The nginx module's routine ----

  method AissEscapeJsonStr(src: Option<bytes>, dst: array<byte>, dstsz: nat) returns (outlen: nat, ghost taken: nat)
    requires 2 <= dstsz <= dst.Length
    modifies dst
    ensures Written(if src.Some? then src.value else [], old(dst[..]), dst[..], dstsz, taken, outlen)
  {
    taken := 0;
    if src.None? || |src.value| == 0 {
      dst[0] := 0;
      return 0, 0;
    }
    ghost var orig: bytes, out: bytes := dst[..], [];
    taken, outlen, out := EscapeAll(src.value, dst, dstsz);
    Terminate(dst, outlen, out, orig);
    ProgressEnds(src.value, orig, dst[..], dstsz, taken, out);
  }

  method EscapeAll(data: bytes, dst: array<byte>, dstsz: nat) returns (i: nat, j: nat, ghost out: bytes)
    requires 2 <= dstsz <= dst.Length
    modifies dst
    ensures Progress(data, dstsz - 2, i, out) && (i == |data| || j >= dstsz - 2)
    ensures j == |out| < dstsz && dst[..] == out + old(dst[..])[j..]
  {
    ghost var orig: bytes := dst[..];
    i, j, out := 0, 0, [];
    while i < |data| && j < dstsz - 2
      invariant Progress(data, dstsz - 2, i, out)
      invariant j == |out| < dstsz && dst[..] == out + orig[j..]
      decreases |data| - i
    {
      j, out := EscapeOne(data[i], data, i, dst, j, dstsz, out, orig);
      i := i + 1;
    }
  }

  /** The loop invariant of both routines. */
  ghost predicate Progress(src: bytes, limit: nat, taken: nat, out: bytes) {
    && taken <= |src|
    && out == Escape(src[..taken])
    && (forall k :: 0 <= k < taken ==> |Escape(src[..k])| < limit)
  }

  lemma ProgressStep(src: bytes, limit: nat, taken: nat, out: bytes)
    requires Progress(src, limit, taken, out) && taken < |src| && |out| < limit
    ensures Progress(src, limit, taken + 1, out + EscapeByte(src[taken]))
  {
    assert src[..taken + 1] == src[..taken] + [src[taken]];
    EscapeSnoc(src[..taken], src[taken]);
  }

  /** The loop is over and the terminator written. */
  lemma ProgressEnds(src: bytes, before: bytes, after: bytes, dstsz: nat, taken: nat, out: bytes)
    requires 2 <= dstsz <= |before| && |out| < dstsz
    requires Progress(src, dstsz - 2, taken, out) && (taken == |src| || |out| >= dstsz - 2)
    requires after == out + [0] + before[|out| + 1..]
    ensures Written(src, before, after, dstsz, taken, |out|)
  {
  }

  /** The switch both routines share: `out` is written so far, the rest is still `orig`. */
  method Emit(c: byte, dst: array<byte>, j: nat, dstsz: nat, ghost out: bytes, ghost orig: bytes) returns (next: nat)
    requires j < dstsz - 2 && dstsz <= dst.Length == |orig|
    requires j == |out| && dst[..] == out + orig[j..]
    modifies dst
    ensures next == |out + EscapeByte(c)|
    ensures dst[..] == out + EscapeByte(c) + orig[next..]
  {
    next := j;
    if c == QUOTE || c == BACKSLASH || c == 10 || c == 13 || c == 9 {
      if j + 2 < dstsz {
        dst[j] := BACKSLASH;
        dst[j + 1] := if c == 10 then 110 else if c == 13 then 114 else if c == 9 then 116 else c;
        next := j + 2;
      }
    } else if c >= 32 {
      dst[j] := c;
      next := j + 1;
    }
  }

  /** One turn of either loop, on source byte number `taken`. */
  method EscapeOne(
      c: byte, ghost src: bytes, ghost taken: nat, dst: array<byte>, j: nat, dstsz: nat, ghost out: bytes,
      ghost orig: bytes)
      returns (next: nat, ghost more: bytes)
    requires j < dstsz - 2 && dstsz <= dst.Length == |orig|
    requires j == |out| && dst[..] == out + orig[j..]
    requires Progress(src, dstsz - 2, taken, out) && taken < |src| && c == src[taken]
    modifies dst
    ensures Progress(src, dstsz - 2, taken + 1, more)
    ensures next == |more| < dstsz && dst[..] == more + orig[next..]
  {
    ProgressStep(src, dstsz - 2, taken, out);
    next := Emit(c, dst, j, dstsz, out, orig);
    more := out + EscapeByte(c);
  }

  method Terminate(dst: array<byte>, j: nat, ghost out: bytes, ghost orig: bytes)
    requires j < dst.Length == |orig|
    requires j == |out| && dst[..] == out + orig[j..]
    modifies dst
    ensures dst[..] == out + [0] + orig[j + 1..]
  {
    dst[j] := 0;
  }

  // ---- The Apache module's routine, on NUL-terminated text ----

  function CString(memory: bytes): (s: bytes)
    ensures |s| <= |memory| && s == memory[..|s|] && 0 !in s
    ensures 0 in memory ==> |s| < |memory| && memory[|s|] == 0
  {
    if memory == [] || memory[0] == 0 then [] else [memory[0]] + CString(memory[1..])
  }

  method AissEscapeJson(
      memory: Option<bytes>, dst: array<byte>, dstsz: nat) returns (ghost taken: nat, ghost outlen: nat)
    requires 2 <= dstsz <= dst.Length
    requires memory.Some? ==> 0 in memory.value
    modifies dst
    ensures Written(if memory.Some? then CString(memory.value) else [], old(dst[..]), dst[..], dstsz, taken, outlen)
  {
    taken, outlen := 0, 0;
    if memory.None? {
      dst[0] := 0;
      return;
    }
    taken, outlen := EscapeText(memory.value, CString(memory.value), dst, dstsz);
  }

  /** The loop and the terminator; s is the text before the first NUL. */
  method EscapeText(
      text: bytes, ghost s: bytes, dst: array<byte>, dstsz: nat) returns (ghost taken: nat, ghost outlen: nat)
    requires 2 <= dstsz <= dst.Length
    requires |s| < |text| && text[|s|] == 0
    requires forall k :: 0 <= k < |s| ==> s[k] == text[k] != 0
    modifies dst
    ensures Written(s, old(dst[..]), dst[..], dstsz, taken, outlen)
  {
    ghost var orig: bytes := dst[..];
    var p, j, out := EscapeUntilNul(text, s, dst, dstsz);
    Terminate(dst, j, out, orig);
    ProgressEnds(s, orig, dst[..], dstsz, p, out);
    taken, outlen := p, j;
  }

  method EscapeUntilNul(
      text: bytes, ghost s: bytes, dst: array<byte>, dstsz: nat) returns (p: nat, j: nat, ghost out: bytes)
    requires 2 <= dstsz <= dst.Length
    requires |s| < |text| && text[|s|] == 0
    requires forall k :: 0 <= k < |s| ==> s[k] == text[k] != 0
    modifies dst
    ensures Progress(s, dstsz - 2, p, out) && (p == |s| || j >= dstsz - 2)
    ensures j == |out| < dstsz && dst[..] == out + old(dst[..])[j..]
  {
    ghost var orig: bytes := dst[..];
    p, j, out := 0, 0, [];
    while text[p] != 0 && j < dstsz - 2
      invariant p <= |s| && Progress(s, dstsz - 2, p, out)
      invariant j == |out| < dstsz && dst[..] == out + orig[j..]
      decreases |s| - p
    {
      assert p < |s|;
      j, out := EscapeOne(text[p], s, p, dst, j, dstsz, out, orig);
      p := p + 1;
    }
  }
}
