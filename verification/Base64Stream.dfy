/** Chunk-wise decoding of a Base64 stream (RFC 4648, section 4). */
module Base64Stream {
  import opened Bytes

  const PAD: byte := 61

  // ---- The alphabet ----

  /** The 6-bit value of an alphabet byte, or 64 for any other byte. */
  function Sextet(c: byte): (v: nat)
    ensures v <= 64
  {
    if 65 <= c <= 90 then c - 65            // A-Z
    else if 97 <= c <= 122 then c - 97 + 26 // a-z
    else if 48 <= c <= 57 then c - 48 + 52  // 0-9
    else if c == 43 then 62                 // +
    else if c == 47 then 63                 // /
    else 64
  }

  function Letter(v: nat): (c: byte)
    requires v < 64
    ensures Sextet(c) == v && c != PAD && !IsSpace(c)
  {
    if v < 26 then v + 65
    else if v < 52 then v - 26 + 97
    else if v < 62 then v - 52 + 48
    else if v == 62 then 43
    else 47
  }

  /** The alphabet in full: A-Z, a-z, 0-9, plus and slash. */
  lemma {:induction false} AlphabetIs(v: nat)
    requires v < 64
    ensures v < 26 ==> Letter(v) == ('A' as int) + v
    ensures 26 <= v < 52 ==> Letter(v) == ('a' as int) + (v - 26)
    ensures 52 <= v < 62 ==> Letter(v) == ('0' as int) + (v - 52)
    ensures v == 62 ==> Letter(v) == '+' as int
    ensures v == 63 ==> Letter(v) == '/' as int
  {
  }

  // ---- Encoding, with or without trailing padding ----

  function Encode(b: bytes, padded: bool): bytes {
    if b == [] then []
    else if |b| == 1 then
      [Letter(b[0] / 4), Letter(b[0] % 4 * 16)] + (if padded then [PAD, PAD] else [])
    else if |b| == 2 then
      [Letter(b[0] / 4), Letter(b[0] % 4 * 16 + b[1] / 16), Letter(b[1] % 16 * 4)]
      + (if padded then [PAD] else [])
    else
      Group(b[0], b[1], b[2]) + Encode(b[3..], padded)
  }

  function Group(x: byte, y: byte, z: byte): (g: bytes)
    ensures |g| == 4
  {
    [Letter(x / 4), Letter(x % 4 * 16 + y / 16), Letter(y % 16 * 4 + z / 64), Letter(z % 64)]
  }

  /** Test vectors of RFC 4648, section 10, for f, fo and foo. */
  lemma {:induction false} Vectors()
    ensures Encode([102], true) == [90, 103, 61, 61] && Encode([102], false) == [90, 103]
    ensures Encode([102, 111], true) == [90, 109, 56, 61]
    ensures Encode([102, 111, 111], true) == [90, 109, 57, 118]
  {
    var foo: bytes := [102, 111, 111];
    assert foo[3..] == [];
  }

  // ---- base64.b64decode, which skips foreign bytes and stops at complete padding ----

  datatype Decoder = Decoder(quad: nat, left: nat, pads: nat, out: bytes, done: bool)

  ghost predicate DecoderOk(d: Decoder) {
    && d.quad < 4
    && d.left < (match d.quad case 0 => 1 case 1 => 64 case 2 => 16 case _ => 4)
  }

  function Feed(d: Decoder, c: byte): (e: Decoder)
    requires DecoderOk(d)
    ensures DecoderOk(e)
  {
    if d.done then d
    else if c == PAD then
      if d.quad >= 2 then d.(pads := d.pads + 1, done := d.quad + d.pads + 1 >= 4) else d
    else
      var v := Sextet(c);
      if v >= 64 then d
      else
        match d.quad
        case 0 => d.(quad := 1, left := v, pads := 0)
        case 1 => d.(quad := 2, left := v % 16, pads := 0, out := d.out + [d.left * 4 + v / 16])
        case 2 => d.(quad := 3, left := v % 4, pads := 0, out := d.out + [d.left * 16 + v / 4])
        case _ => d.(quad := 0, left := 0, pads := 0, out := d.out + [d.left * 64 + v])
  }

  function Run(d: Decoder, s: bytes): (e: Decoder)
    requires DecoderOk(d)
    ensures DecoderOk(e)
    decreases |s|
  {
    if s == [] then d else Run(Feed(d, s[0]), s[1..])
  }

  function Begin(out: bytes): Decoder {
    Decoder(0, 0, 0, out, false)
  }

  /** None is the exception for an incomplete last group. */
  function Finish(d: Decoder): Option<bytes> {
    if d.done || d.quad == 0 then Some(d.out) else None
  }

  function B64Decode(s: bytes): Option<bytes> {
    Finish(Run(Begin([]), s))
  }

  // ---- stream_decode_chunks ----

  predicate IsSpace(c: byte) {
    c == 32 || 9 <= c <= 13
  }

  function Clean(data: bytes): bytes {
    if data == [] then []
    else (if IsSpace(data[0]) then [] else [data[0]]) + Clean(data[1..])
  }

  /** data is text with any whitespace (blank, tab, line feed, vertical tab, form feed, carriage
      return) put anywhere into it. */
  ghost predicate Wraps(data: bytes, text: bytes)
    decreases |data|
  {
    if data == [] then text == []
    else
      || (data[0] in {9, 10, 11, 12, 13, 32} && Wraps(data[1..], text))
      || (text != [] && data[0] == text[0] && Wraps(data[1..], text[1..]))
  }

  lemma {:induction false} CleanUnwraps(data: bytes, text: bytes)
    requires Wraps(data, text) && forall c :: c in text ==> !IsSpace(c)
    ensures Clean(data) == text
    decreases |data|
  {
    if data != [] {
      var c, rest: bytes := data[0], data[1..];
      if c in {9, 10, 11, 12, 13, 32} && Wraps(rest, text) {
        CleanUnwraps(rest, text);
        assert [] + text == text;
      } else {
        assert text[0] in text && forall x :: x in text[1..] ==> x in text;
        CleanUnwraps(rest, text[1..]);
        assert [text[0]] + text[1..] == text;
      }
    }
  }

  lemma {:induction false} EncodingHasNoSpace(b: bytes, padded: bool)
    ensures forall c :: c in Encode(b, padded) ==> !IsSpace(c)
    decreases |b|
  {
    if |b| > 2 {
      EncodingHasNoSpace(b[3..], padded);
      var g: bytes := Group(b[0], b[1], b[2]);
      assert forall c :: c in g ==> !IsSpace(c);
    }
  }

  function Pads(n: nat): (p: bytes)
    ensures forall c :: c in p ==> c == PAD
  {
    match n % 4 case 0 => [] case 1 => [PAD, PAD, PAD] case 2 => [PAD, PAD] case _ => [PAD]
  }

  /** The chunks produced from cleaned input, `step` characters at a time; a chunk that does
      not decode is skipped. */
  function Chunks(dec: bytes -> Option<bytes>, clean: bytes, step: nat): seq<bytes>
    requires step > 0
    decreases |clean|
  {
    if clean == [] then []
    else
      var n := if |clean| < step then |clean| else step;
      Piece(dec, clean[..n] + Pads(n)) + Chunks(dec, clean[n..], step)
  }

  /** What one padded chunk contributes: nothing when it does not decode. */
  function Piece(dec: bytes -> Option<bytes>, chunk: bytes): seq<bytes> {
    match dec(chunk) case Some(raw) => [raw] case None => []
  }

  ghost function Concat(cs: seq<bytes>): bytes {
    if cs == [] then [] else cs[0] + Concat(cs[1..])
  }

  /** ZeroStep is the ValueError of `range(0, n, 0)`. */
  datatype StreamResult = Yielded(chunks: seq<bytes>) | ZeroStep

  /** Whatever the cleaned input is an encoding of, the chunks add up to it. */
  ghost predicate GivesBack(clean: bytes, chunks: seq<bytes>) {
    forall b, padded :: clean == Encode(b, padded) ==> Concat(chunks) == b
  }

  /** Whatever the input is a wrapped encoding of, the chunks add up to it. */
  ghost predicate DecodesWrapped(data: bytes, chunks: seq<bytes>) {
    forall b, padded :: Wraps(data, Encode(b, padded)) ==> Concat(chunks) == b
  }

  lemma {:induction false} CleanThenGiveBack(data: bytes, chunks: seq<bytes>)
    requires GivesBack(Clean(data), chunks)
    ensures DecodesWrapped(data, chunks)
  {
    forall b, padded | Wraps(data, Encode(b, padded)) ensures Concat(chunks) == b {
      EncodingHasNoSpace(b, padded);
      CleanUnwraps(data, Encode(b, padded));
    }
  }

  method StreamDecodeChunks(data: bytes, chunkSize: int) returns (res: StreamResult)
    ensures res.ZeroStep? <==> 0 <= chunkSize < 3
    ensures chunkSize < 0 ==> res == Yielded([])
    ensures chunkSize >= 3 ==> res == Yielded(Chunks(B64Decode, Clean(data), chunkSize / 3 * 4))
    ensures chunkSize >= 3 ==> forall c :: c in res.chunks ==> |c| <= chunkSize
    ensures chunkSize >= 3 ==> DecodesWrapped(data, res.chunks)
  {
    var clean := Clean(data);
    var step := chunkSize / 3 * 4;
    if step == 0 {
      return ZeroStep;
    }
    if step < 0 {
      return Yielded([]); // a range that counts down from 0 is empty
    }
    var chunks := DecodeAll(clean, chunkSize, step);
    CleanThenGiveBack(data, chunks);
    return Yielded(chunks);
  }

  method DecodeAll(clean: bytes, chunkSize: int, step: nat) returns (chunks: seq<bytes>)
    requires chunkSize >= 3 && step == chunkSize / 3 * 4
    ensures chunks == Chunks(B64Decode, clean, step)
    ensures (forall c :: c in chunks ==> |c| <= chunkSize) && GivesBack(clean, chunks)
  {
    chunks := DecodeLoop(B64Decode, clean, step);
    ghost var m: nat := chunkSize / 3;
    assert step == 4 * m && 3 * m <= chunkSize;
    StreamFacts(clean, m);
  }

  /** The generator's loop; `rest` is the input from the loop index on. */
  method DecodeLoop(dec: bytes -> Option<bytes>, clean: bytes, step: nat) returns (chunks: seq<bytes>)
    requires step > 0
    ensures chunks == Chunks(dec, clean, step)
  {
    chunks := [];
    var rest: bytes := clean;
    while rest != []
      invariant chunks + Chunks(dec, rest, step) == Chunks(dec, clean, step)
      decreases |rest|
    {
      ghost var before: seq<bytes>, todo: seq<bytes> := chunks, Chunks(dec, rest, step);
      var n := if |rest| < step then |rest| else step;
      var chunk: bytes := rest[..n];
      rest := rest[n..];
      PadsCount(n);
      chunk := chunk + seq((0 - n) % 4, _ => PAD);
      match dec(chunk) {
        case Some(raw) => chunks := chunks + [raw];
        case None =>
      }
      assert chunks == before + Piece(dec, chunk);
      assert todo == Piece(dec, chunk) + Chunks(dec, rest, step);
      Associate(before, Piece(dec, chunk), Chunks(dec, rest, step));
    }
  }

  lemma {:induction false} StreamFacts(clean: bytes, m: nat)
    requires m > 0
    ensures forall c :: c in Chunks(B64Decode, clean, 4 * m) ==> |c| <= 3 * m
    ensures GivesBack(clean, Chunks(B64Decode, clean, 4 * m))
  {
    ChunkLengths(clean, m);
    forall b, padded | clean == Encode(b, padded) ensures Concat(Chunks(B64Decode, clean, 4 * m)) == b {
      ChunkedRoundTrip(b, padded, m);
    }
  }

  lemma PadsCount(n: nat)
    ensures Pads(n) == seq((0 - n) % 4, _ => PAD)
    ensures Pads(n + 4) == Pads(n)
  {
  }

  /** Bytes outside the alphabet are skipped, and a single character at the end is an error. */
  lemma {:induction false} ForeignIsSkipped(d: Decoder, c: byte)
    requires DecoderOk(d) && Sextet(c) == 64 && c != PAD
    ensures Feed(d, c) == d
  {
  }

  /** Nothing is read behind complete padding. */
  lemma {:induction false} PaddingEnds(d: Decoder, s: bytes)
    requires DecoderOk(d) && d.done
    ensures Run(d, s) == d
    decreases |s|
  {
    if s != [] { PaddingEnds(d, s[1..]); }
  }

  lemma {:induction false} LoneCharacterFails(v: nat)
    requires v < 64
    ensures B64Decode([Letter(v)] + Pads(1)) == None
  {
    var s: bytes := [Letter(v), PAD, PAD, PAD];
    assert [Letter(v)] + Pads(1) == s;
    var d := Decoder(1, v, 0, [], false);
    assert s[1..] == [PAD, PAD, PAD] && s[1..][1..] == [PAD, PAD] && s[1..][1..][1..] == [PAD];
    assert [PAD][1..] == [];
    assert Run(d, []) == d;
    assert Run(d, [PAD]) == d;
    assert Run(d, [PAD, PAD]) == d;
    assert Run(d, [PAD, PAD, PAD]) == d;
    assert Run(Begin([]), s) == d;
  }

  // ---- Round trip ----

  lemma RunCons(d: Decoder, c: byte, rest: bytes)
    requires DecoderOk(d)
    ensures Run(d, [c] + rest) == Run(Feed(d, c), rest)
  {
    assert ([c] + rest)[1..] == rest;
  }

  /** The first two characters of a group give its first byte. */
  lemma FeedTwo(out: bytes, x: byte, high: nat)
    requires high < 16
    ensures var d := Feed(Feed(Begin(out), Letter(x / 4)), Letter(x % 4 * 16 + high));
            d == Decoder(2, high, 0, out + [x], false)
  {
    assert x / 4 * 4 + x % 4 == x;
  }

  /** The third character completes the second byte. */
  lemma FeedThird(out: bytes, y: byte, high: nat)
    requires high < 4
    ensures Feed(Decoder(2, y / 16, 0, out, false), Letter(y % 16 * 4 + high)) == Decoder(3, high, 0, out + [y], false)
  {
    assert y / 16 * 16 + y % 16 == y;
  }

  /** The fourth character completes the third byte. */
  lemma FeedFourth(out: bytes, z: byte)
    ensures Feed(Decoder(3, z / 64, 0, out, false), Letter(z % 64)) == Begin(out + [z])
  {
    assert z / 64 * 64 + z % 64 == z;
  }

  lemma RunFour(d: Decoder, g: bytes, rest: bytes)
    requires DecoderOk(d) && |g| == 4
    ensures Run(d, g + rest) == Run(Feed(Feed(Feed(Feed(d, g[0]), g[1]), g[2]), g[3]), rest)
  {
    var r3: bytes := [g[3]] + rest;
    var r2: bytes := [g[2]] + r3;
    var r1: bytes := [g[1]] + r2;
    assert g + rest == [g[0]] + r1;
    RunCons(d, g[0], r1);
    RunCons(Feed(d, g[0]), g[1], r2);
    RunCons(Feed(Feed(d, g[0]), g[1]), g[2], r3);
    RunCons(Feed(Feed(Feed(d, g[0]), g[1]), g[2]), g[3], rest);
  }

  lemma GroupDecodes(out: bytes, x: byte, y: byte, z: byte, rest: bytes)
    ensures Run(Begin(out), Group(x, y, z) + rest) == Run(Begin(out + [x, y, z]), rest)
  {
    var g: bytes, o1: bytes := Group(x, y, z), out + [x];
    var o2: bytes := o1 + [y];
    RunFour(Begin(out), g, rest);
    FeedTwo(out, x, y / 16);
    assert Feed(Feed(Begin(out), g[0]), g[1]) == Decoder(2, y / 16, 0, o1, false);
    FeedThird(o1, y, z / 64);
    assert Feed(Decoder(2, y / 16, 0, o1, false), g[2]) == Decoder(3, z / 64, 0, o2, false);
    FeedFourth(o2, z);
    assert o2 + [z] == out + [x, y, z];
  }

  lemma OneByteDecodes(out: bytes, x: byte)
    ensures Finish(Run(Begin(out), Encode([x], true))) == Some(out + [x])
  {
    var c1, c2 := Letter(x / 4), Letter(x % 4 * 16);
    assert Encode([x], true) == [c1] + ([c2] + ([PAD] + ([PAD] + [])));
    FeedTwo(out, x, 0);
    var d2 := Decoder(2, 0, 0, out + [x], false);
    RunCons(Begin(out), c1, [c2] + ([PAD] + ([PAD] + [])));
    RunCons(Feed(Begin(out), c1), c2, [PAD] + ([PAD] + []));
    RunCons(d2, PAD, [PAD] + []);
    RunCons(Feed(d2, PAD), PAD, []);
  }

  lemma TwoBytesDecode(out: bytes, x: byte, y: byte)
    ensures Finish(Run(Begin(out), Encode([x, y], true))) == Some(out + [x, y])
  {
    var c1, c2, c3 := Letter(x / 4), Letter(x % 4 * 16 + y / 16), Letter(y % 16 * 4);
    assert Encode([x, y], true) == [c1] + ([c2] + ([c3] + ([PAD] + [])));
    FeedTwo(out, x, y / 16);
    FeedThird(out + [x], y, 0);
    var d2, d3 := Decoder(2, y / 16, 0, out + [x], false), Decoder(3, 0, 0, out + [x] + [y], false);
    RunCons(Begin(out), c1, [c2] + ([c3] + ([PAD] + [])));
    RunCons(Feed(Begin(out), c1), c2, [c3] + ([PAD] + []));
    RunCons(d2, c3, [PAD] + []);
    RunCons(d3, PAD, []);
    assert out + [x] + [y] == out + [x, y];
  }

  /** The decoder undoes the encoder. */
  lemma {:induction false} RoundTrip(out: bytes, b: bytes)
    ensures Finish(Run(Begin(out), Encode(b, true))) == Some(out + b)
    decreases |b|
  {
    if |b| < 3 {
      ShortRoundTrip(out, b);
    } else {
      var g: bytes, rest: bytes := [b[0], b[1], b[2]], b[3..];
      assert b == g + rest;
      GroupDecodes(out, b[0], b[1], b[2], Encode(rest, true));
      RoundTrip(out + g, rest);
      Associate(out, g, rest);
    }
  }

  lemma {:induction false} ShortRoundTrip(out: bytes, b: bytes)
    requires |b| < 3
    ensures Finish(Run(Begin(out), Encode(b, true))) == Some(out + b)
  {
    if b == [] {
      assert out + b == out;
    } else if |b| == 1 {
      assert b == [b[0]];
      OneByteDecodes(out, b[0]);
    } else {
      assert b == [b[0], b[1]];
      TwoBytesDecode(out, b[0], b[1]);
    }
  }

  function EncodedLength(n: nat, padded: bool): nat {
    n / 3 * 4 + (if n % 3 == 0 then 0 else if padded then 4 else n % 3 + 1)
  }

  lemma {:induction false} EncodeLength(b: bytes, padded: bool)
    ensures |Encode(b, padded)| == EncodedLength(|b|, padded)
    decreases |b|
  {
    if |b| > 2 {
      EncodeLength(b[3..], padded);
      assert |b| / 3 == (|b| - 3) / 3 + 1;
    }
  }

  /** Padding a stripped encoding restores the padded one. */
  lemma {:induction false} EncodePads(b: bytes, padded: bool)
    ensures Encode(b, padded) + Pads(|Encode(b, padded)|) == Encode(b, true)
    decreases |b|
  {
    if |b| > 2 {
      EncodePads(b[3..], padded);
      var e := Encode(b[3..], padded);
      PadsCount(|e|);
      Associate(Group(b[0], b[1], b[2]), e, Pads(|e|));
    }
  }

  lemma EncodeGroup(g: bytes, rest: bytes, padded: bool)
    requires |g| == 3
    ensures Encode(g + rest, padded) == Group(g[0], g[1], g[2]) + Encode(rest, padded)
  {
    assert (g + rest)[3..] == rest;
  }

  /** Cutting the bytes after whole groups is cutting the encoding. */
  lemma {:induction false} EncodeSplit(first: bytes, rest: bytes, padded: bool)
    requires |first| % 3 == 0
    ensures Encode(first + rest, padded) == Encode(first, padded) + Encode(rest, padded)
    decreases |first|
  {
    if first == [] {
      assert [] + rest == rest;
      assert [] + Encode(rest, padded) == Encode(rest, padded);
    } else {
      var g: bytes, more: bytes := first[..3], first[3..];
      assert first == g + more;
      EncodeSplit(more, rest, padded);
      Associate(g, more, rest);
      EncodeGroup(g, more + rest, padded);
      EncodeGroup(g, more, padded);
      Associate(Group(g[0], g[1], g[2]), Encode(more, padded), Encode(rest, padded));
    }
  }

  lemma DecodeChunk(b: bytes, padded: bool)
    ensures var e := Encode(b, padded);
            B64Decode(e + Pads(|e|)) == Some(b)
  {
    EncodePads(b, padded);
    RoundTrip([], b);
    assert [] + b == b;
  }

  /** A last chunk that fits. */
  lemma LastChunk(b: bytes, padded: bool, step: nat)
    requires b != [] && |Encode(b, padded)| <= step
    ensures Chunks(B64Decode, Encode(b, padded), step) == [b]
  {
    var e := Encode(b, padded);
    EncodeLength(b, padded);
    DecodeChunk(b, padded);
    assert e[..|e|] == e && e[|e|..] == [];
  }

  /** A chunk of full groups with more to come. */
  lemma FullChunk(first: bytes, padded: bool, rest: bytes, step: nat)
    requires |Encode(first, padded)| == step > 0
    ensures Chunks(B64Decode, Encode(first, padded) + rest, step) == [first] + Chunks(B64Decode, rest, step)
  {
    var e := Encode(first, padded);
    var all := e + rest;
    DecodeChunk(first, padded);
    assert all[..step] == e && all[step..] == rest;
  }

  lemma ConcatCons(c: bytes, cs: seq<bytes>)
    ensures Concat([c] + cs) == c + Concat(cs)
  {
    assert ([c] + cs)[1..] == cs;
  }

  lemma LengthFits(n: nat, padded: bool, m: nat)
    ensures n <= 3 * m ==> EncodedLength(n, padded) <= 4 * m
    ensures n == 3 * m ==> EncodedLength(n, padded) == 4 * m
  {
  }

  lemma FullLength(first: bytes, padded: bool, m: nat)
    requires |first| == 3 * m
    ensures |Encode(first, padded)| == 4 * m
  {
    EncodeLength(first, padded);
    LengthFits(3 * m, padded, m);
  }

  lemma GlueChunk(first: bytes, rest: bytes, padded: bool, m: nat)
    requires m > 0 && |first| == 3 * m
    requires Concat(Chunks(B64Decode, Encode(rest, padded), 4 * m)) == rest
    ensures Concat(Chunks(B64Decode, Encode(first + rest, padded), 4 * m)) == first + rest
  {
    var e: bytes := Encode(rest, padded);
    var more: seq<bytes> := Chunks(B64Decode, e, 4 * m);
    EncodeSplit(first, rest, padded);
    FullLength(first, padded, m);
    FullChunk(first, padded, e, 4 * m);
    ConcatCons(first, more);
  }

  lemma OnlyChunk(b: bytes, padded: bool, m: nat)
    requires b != [] && |b| <= 3 * m
    ensures Concat(Chunks(B64Decode, Encode(b, padded), 4 * m)) == b
  {
    EncodeLength(b, padded);
    LengthFits(|b|, padded, m);
    LastChunk(b, padded, 4 * m);
    ConcatCons(b, []);
    assert [b] + [] == [b];
  }

  /** Decoding 4m characters at a time and gluing the pieces gives back the bytes, for every
      chunk size, with padding kept or stripped. */
  lemma {:induction false} ChunkedRoundTrip(b: bytes, padded: bool, m: nat)
    requires m > 0
    ensures Concat(Chunks(B64Decode, Encode(b, padded), 4 * m)) == b
    decreases |b|
  {
    if b == [] {
    } else if |b| <= 3 * m {
      OnlyChunk(b, padded, m);
    } else {
      var first: bytes, rest: bytes := b[..3 * m], b[3 * m..];
      assert first + rest == b;
      ChunkedRoundTrip(rest, padded, m);
      GlueChunk(first, rest, padded, m);
    }
  }

  // ---- Size of a chunk, for input of any kind ----

  /** Alphabet bytes in s. */
  ghost function Letters(s: bytes): nat {
    if s == [] then 0 else (if Sextet(s[0]) < 64 then 1 else 0) + Letters(s[1..])
  }

  lemma {:induction false} OutputSize(d: Decoder, s: bytes)
    requires DecoderOk(d)
    ensures 4 * |Run(d, s).out| <=
            4 * |d.out| + 3 * Letters(s) + (match d.quad case 0 => 0 case 1 => 3 case 2 => 2 case _ => 1)
    decreases |s|
  {
    if s != [] {
      OutputSize(Feed(d, s[0]), s[1..]);
    }
  }

  lemma {:induction false} NoLetters(s: bytes)
    requires forall c :: c in s ==> c == PAD
    ensures Letters(s) == 0
  {
    if s != [] {
      assert s[0] in s && forall c :: c in s[1..] ==> c in s;
      NoLetters(s[1..]);
    }
  }

  lemma {:induction false} LettersBound(s: bytes, n: nat)
    ensures Letters(s + Pads(n)) <= |s|
  {
    if s == [] {
      assert s + Pads(n) == Pads(n);
      NoLetters(Pads(n));
    } else {
      assert (s + Pads(n))[1..] == s[1..] + Pads(n);
      LettersBound(s[1..], n);
    }
  }

  /** No chunk exceeds 3m bytes, whatever the input. */
  lemma {:induction false} ChunkLengths(clean: bytes, m: nat)
    requires m > 0
    ensures forall c :: c in Chunks(B64Decode, clean, 4 * m) ==> |c| <= 3 * m
    decreases |clean|
  {
    if clean != [] {
      var n := if |clean| < 4 * m then |clean| else 4 * m;
      ChunkLengths(clean[n..], m);
      var chunk := clean[..n] + Pads(n);
      OutputSize(Begin([]), chunk);
      LettersBound(clean[..n], n);
    }
  }
}
