/**
 Base64url without padding, section 5 of RFC 4648, as the source computes it. The decoder's
 accumulator is a 32-bit int that overflows; only its low bits are ever used.
 */
module Base64Url {
  import opened Prelude

  // ----- the alphabet -----

  function Char64(i: nat): Byte
    requires i < 64
  {
    if i < 26 then ('A' as int + i) as char
    else if i < 52 then ('a' as int + i - 26) as char
    else if i < 62 then ('0' as int + i - 52) as char
    else if i == 62 then '-'
    else '_'
  }

  /** The decoder's value of a character, -1 if it is skipped; it also accepts + and /. */
  function Val(c: Byte): int {
    if 'A' <= c <= 'Z' then c as int - 'A' as int
    else if 'a' <= c <= 'z' then c as int - 'a' as int + 26
    else if '0' <= c <= '9' then c as int - '0' as int + 52
    else if c == '-' || c == '+' then 62
    else if c == '_' || c == '/' then 63
    else -1
  }

  /** A character of the url-safe alphabet. */
  predicate UrlSafe(c: Byte) { Val(c) >= 0 && c != '+' && c != '/' }

  lemma CharOfVal(c: Byte)
    requires UrlSafe(c)
    ensures 0 <= Val(c) < 64 && Char64(Val(c)) == c
  {
  }

  lemma ValOfChar(i: nat)
    requires i < 64
    ensures Val(Char64(i)) == i && UrlSafe(Char64(i))
  {
  }

  // ----- encoding -----

  /** Three bytes in the low 24 bits of a word; absent bytes are zero. */
  function Word24(b0: Byte, b1: Byte, b2: Byte): nat {
    b0 as int * 0x1_0000 + b1 as int * 0x100 + b2 as int
  }

  function Sextet(b: nat, shift: nat): Byte
    requires shift <= 3
  {
    Char64(if shift == 3 then b / 0x4_0000 % 64
           else if shift == 2 then b / 0x1000 % 64
           else if shift == 1 then b / 0x40 % 64
           else b % 64)
  }

  function Encode(d: Bytes): Bytes
    decreases |d|
  {
    if |d| == 0 then []
    else if |d| == 1 then
      var b := Word24(d[0], '\0', '\0');
      [Sextet(b, 3), Sextet(b, 2)]
    else if |d| == 2 then
      var b := Word24(d[0], d[1], '\0');
      [Sextet(b, 3), Sextet(b, 2), Sextet(b, 1)]
    else
      var b := Word24(d[0], d[1], d[2]);
      [Sextet(b, 3), Sextet(b, 2), Sextet(b, 1), Sextet(b, 0)] + Encode(d[3..])
  }

  /** base64url_encode. */
  method EncodeBytes(data: Bytes) returns (out: Bytes)
    ensures out == Encode(data)
  {
    hide Sextet, Encode;
    EncodeNothing();
    out := [];
    var i := 0;
    ghost var rest := data;
    while i < |data|
      invariant 0 <= i && rest == (if i <= |data| then data[i..] else [])
      invariant Encode(data) == out + Encode(rest)
      decreases |data| - i
    {
      var b := data[i] as int * 0x1_0000;
      if i + 1 < |data| { b := b + data[i + 1] as int * 0x100; }
      if i + 2 < |data| { b := b + data[i + 2] as int; }
      assert b == Word24(rest[0], if |rest| > 1 then rest[1] else '\0', if |rest| > 2 then rest[2] else '\0');
      ghost var tail := EncodeGroup(out, rest, b);
      out := out + [Sextet(b, 3)];
      out := out + [Sextet(b, 2)];
      if i + 1 < |data| { out := out + [Sextet(b, 1)]; }
      if i + 2 < |data| { out := out + [Sextet(b, 0)]; }
      i := i + 3;
      assert tail == if i <= |data| then data[i..] else [];
      rest := tail;
    }
  }

  lemma EncodeNothing()
    ensures Encode([]) == []
  {
  }

  /** What one iteration of the encoder appends, and what is left for the others. */
  lemma EncodeGroup(out: Bytes, d: Bytes, b: nat) returns (tail: Bytes)
    requires d != []
    requires b == Word24(d[0], if |d| > 1 then d[1] else '\0', if |d| > 2 then d[2] else '\0')
    ensures tail == if |d| > 3 then d[3..] else []
    ensures out + Encode(d) ==
            (if |d| == 1 then out + [Sextet(b, 3)] + [Sextet(b, 2)]
             else if |d| == 2 then out + [Sextet(b, 3)] + [Sextet(b, 2)] + [Sextet(b, 1)]
             else out + [Sextet(b, 3)] + [Sextet(b, 2)] + [Sextet(b, 1)] + [Sextet(b, 0)]) + Encode(tail)
  {
    hide Sextet, Word24;
    tail := if |d| > 3 then d[3..] else [];
    EncodeNothing();
    if |d| == 3 { assert d[3..] == []; }
    else if |d| == 2 {
      assert [Sextet(b, 3), Sextet(b, 2), Sextet(b, 1)] == [Sextet(b, 3)] + [Sextet(b, 2)] + [Sextet(b, 1)];
    }
  }

  // ----- decoding -----

  const WORD: int := 0x1_0000_0000
  const HALF: int := 0x8000_0000

  /** A 32-bit pattern as a signed integer. */
  function Signed32(x: int): int {
    var w := x % WORD;
    if w < HALF then w else w - WORD
  }

  /** The accumulator after one more sextet: shifted left by six, overflow discarded. */
  function Accumulate(buf: int, v: int): int { Signed32(buf * 64 + v) }

  /** An arithmetic shift to the right. */
  function Shr(x: int, bits: nat): int {
    if bits == 0 then x else Shr(x, bits - 1) / 2
  }

  /** The low eight bits after the shift. */
  function ByteAt(buf: int, bits: nat): Byte { (Shr(buf, bits) % 256) as char }

  function DecodeFrom(s: Bytes, buf: int, bits: nat): Bytes {
    if s == [] then []
    else if Val(s[0]) < 0 then DecodeFrom(s[1..], buf, bits)
    else
      var buf' := Accumulate(buf, Val(s[0]));
      if bits + 6 >= 8 then [ByteAt(buf', bits - 2)] + DecodeFrom(s[1..], buf', bits - 2)
      else DecodeFrom(s[1..], buf', bits + 6)
  }

  function Decode(s: Bytes): Bytes { DecodeFrom(s, 0, 0) }

  /** base64url_decode. */
  method DecodeBytes(input: Bytes) returns (out: Bytes)
    ensures out == Decode(input)
  {
    out := [];
    var buf, bits := 0, 0;
    for i := 0 to |input|
      invariant bits >= 0 && Decode(input) == out + DecodeFrom(input[i..], buf, bits)
    {
      assert input[i..][1..] == input[i + 1..];
      var v := Val(input[i]);
      if v < 0 { continue; }
      buf := Accumulate(buf, v);
      bits := bits + 6;
      if bits >= 8 {
        bits := bits - 8;
        out := out + [ByteAt(buf, bits)];
      }
    }
  }

  // ----- only the low bits of the accumulator matter -----

  /** The accumulators agree on their pending bits. */
  predicate Agree(a: int, b: int, bits: nat) {
    || bits == 0
    || (bits == 2 && a % 4 == b % 4)
    || (bits == 4 && a % 16 == b % 16)
    || (bits == 6 && a % 64 == b % 64)
  }

  lemma Shifts(x: int)
    ensures Shr(x, 0) == x && Shr(x, 2) == x / 4 && Shr(x, 4) == x / 16
  {
    assert Shr(x, 1) == x / 2;
    assert Shr(x, 2) == x / 4;
    assert Shr(x, 3) == x / 8;
  }

  /** Signed32 keeps residues modulo 2^16. */
  lemma Signed32Residue(x: int)
    ensures Signed32(x) % 0x1_0000 == x % 0x1_0000
  {
    var k := if x % WORD < HALF then x / WORD else x / WORD + 1;
    assert Signed32(x) == x - WORD * k;
  }

  lemma AccumulateMod(a: int, v: int)
    ensures var x, y := Accumulate(a, v), a * 64 + v;
            x % 64 == y % 64 && x % 256 == y % 256 && x % 1024 == y % 1024 && x % 4096 == y % 4096
  {
    Signed32Residue(a * 64 + v);
    Reduce(Accumulate(a, v), a * 64 + v);
  }

  lemma Accumulated(a: int, v: int, r: int)
    ensures a % 4 == r % 4 ==> Accumulate(a, v) % 256 == (r * 64 + v) % 256
    ensures a % 16 == r % 16 ==> Accumulate(a, v) % 1024 == (r * 64 + v) % 1024
    ensures a % 64 == r % 64 ==> Accumulate(a, v) % 4096 == (r * 64 + v) % 4096
    ensures Accumulate(a, v) % 64 == v % 64
  {
    hide Accumulate;
    AccumulateMod(a, v);
    assert (a * 64 + v) % 64 == v % 64 by { Modulo64(a * 64 + v, v, a); }
    if a % 4 == r % 4 { Scale4(a, r, v); }
    if a % 16 == r % 16 { Scale16(a, r, v); }
    if a % 64 == r % 64 { Scale64(a, r, v); }
  }

  lemma Reduce(x: int, y: int)
    requires x % 0x1_0000 == y % 0x1_0000
    ensures x % 64 == y % 64 && x % 256 == y % 256
    ensures x % 1024 == y % 1024 && x % 4096 == y % 4096
  {
    var k := x / 0x1_0000 - y / 0x1_0000;
    assert x == y + 0x1_0000 * k;
    Modulo64(x, y, 1024 * k);
    Modulo256(x, y, 256 * k);
    Modulo1024(x, y, 64 * k);
    Modulo4096(x, y, 16 * k);
  }

  lemma Modulo4(x: int, y: int, k: int)
    requires x == y + 4 * k
    ensures x % 4 == y % 4
  {
  }

  lemma Modulo16(x: int, y: int, k: int)
    requires x == y + 16 * k
    ensures x % 16 == y % 16
  {
  }

  lemma Modulo64(x: int, y: int, k: int)
    requires x == y + 64 * k
    ensures x % 64 == y % 64
  {
  }

  lemma Modulo256(x: int, y: int, k: int)
    requires x == y + 256 * k
    ensures x % 256 == y % 256
  {
  }

  lemma Modulo1024(x: int, y: int, k: int)
    requires x == y + 1024 * k
    ensures x % 1024 == y % 1024
  {
  }

  lemma Modulo4096(x: int, y: int, k: int)
    requires x == y + 4096 * k
    ensures x % 4096 == y % 4096
  {
  }

  lemma Scale4(a: int, r: int, v: int)
    requires a % 4 == r % 4
    ensures (a * 64 + v) % 256 == (r * 64 + v) % 256
  {
    Modulo256(a * 64 + v, r * 64 + v, a / 4 - r / 4);
  }

  lemma Scale16(a: int, r: int, v: int)
    requires a % 16 == r % 16
    ensures (a * 64 + v) % 1024 == (r * 64 + v) % 1024
  {
    Modulo1024(a * 64 + v, r * 64 + v, a / 16 - r / 16);
  }

  lemma Scale64(a: int, r: int, v: int)
    requires a % 64 == r % 64
    ensures (a * 64 + v) % 4096 == (r * 64 + v) % 4096
  {
    Modulo4096(a * 64 + v, r * 64 + v, a / 64 - r / 64);
  }

  lemma Quarter(x: int)
    ensures x / 4 % 256 == x % 1024 / 4
  {
    var q, r := x / 1024, x % 1024;
    assert x == 4 * (256 * q) + r;
    assert x / 4 == 256 * q + r / 4;
  }

  lemma Sixteenth(x: int)
    ensures x / 16 % 256 == x % 4096 / 16
  {
    var q, r := x / 4096, x % 4096;
    assert x == 16 * (256 * q) + r;
    assert x / 16 == 256 * q + r / 16;
  }

  lemma Emitted(x: int)
    ensures ByteAt(x, 0) as int == x % 256
    ensures ByteAt(x, 2) as int == x % 1024 / 4
    ensures ByteAt(x, 4) as int == x % 4096 / 16
  {
    Shifts(x);
    Quarter(x);
    Sixteenth(x);
  }

  lemma Narrow(x: int, y: int)
    ensures x % 1024 == y % 1024 ==> x % 4 == y % 4
    ensures x % 4096 == y % 4096 ==> x % 16 == y % 16
  {
    if x % 1024 == y % 1024 { Modulo4(x, y, 256 * (x / 1024 - y / 1024)); }
    if x % 4096 == y % 4096 { Modulo16(x, y, 256 * (x / 4096 - y / 4096)); }
  }

  lemma AccumulateAgrees(a: int, b: int, bits: nat, v: int)
    requires Agree(a, b, bits)
    ensures var a', b' := Accumulate(a, v), Accumulate(b, v);
            if bits == 0 then Agree(a', b', 6)
            else Agree(a', b', bits - 2) && ByteAt(a', bits - 2) == ByteAt(b', bits - 2)
  {
    Accumulated(a, v, b);
    Accumulated(b, v, b);
    var a', b' := Accumulate(a, v), Accumulate(b, v);
    Emitted(a');
    Emitted(b');
    Narrow(a', b');
  }

  /** Two accumulators that agree on their pending bits decode alike: what overflowed, or was
      already emitted, never shows. */
  lemma {:induction false} HighBitsIrrelevant(s: Bytes, a: int, b: int, bits: nat)
    requires Agree(a, b, bits)
    ensures DecodeFrom(s, a, bits) == DecodeFrom(s, b, bits)
    decreases |s|
  {
    if s != [] {
      if Val(s[0]) < 0 { HighBitsIrrelevant(s[1..], a, b, bits); }
      else {
        var v := Val(s[0]);
        AccumulateAgrees(a, b, bits, v);
        hide Accumulate, ByteAt, Val;
        HighBitsIrrelevant(s[1..], Accumulate(a, v), Accumulate(b, v), if bits == 0 then 6 else bits - 2);
      }
    }
  }

  // ----- groups -----

  lemma First(v0: int, v1: int)
    requires 0 <= v0 < 64 && 0 <= v1 < 64
    ensures (v0 * 64 + v1) % 4096 / 16 == v0 * 4 + v1 / 16 < 256
  {
  }

  lemma Second(v1: int, v2: int)
    requires 0 <= v1 < 64 && 0 <= v2 < 64
    ensures (v1 * 64 + v2) % 1024 / 4 == v1 % 16 * 16 + v2 / 4 < 256
  {
    Modulo1024(v1 * 64 + v2, v1 % 16 * 64 + v2, v1 / 16);
    SecondLow(v1 % 16, v2);
  }

  lemma SecondLow(r: int, v2: int)
    requires 0 <= r < 16 && 0 <= v2 < 64
    ensures (r * 64 + v2) % 1024 / 4 == r * 16 + v2 / 4 < 256
  {
  }

  lemma Third(v2: int, v3: int)
    requires 0 <= v2 < 64 && 0 <= v3 < 64
    ensures (v2 * 64 + v3) % 256 == v2 % 4 * 64 + v3 < 256
  {
  }

  /** Two, three and four characters decode to one, two and three bytes; after four the decoder is
      back where it started. */
  lemma DecodeStart(c0: Byte, c1: Byte, rest: Bytes) returns (buf: int)
    requires Val(c0) >= 0 && Val(c1) >= 0
    ensures buf % 4096 == (Val(c0) * 64 + Val(c1)) % 4096
    ensures Decode([c0, c1] + rest)
            == [(Val(c0) * 4 + Val(c1) / 16) as char] + DecodeFrom(rest, buf, 4)
  {
    var v0, v1 := Val(c0), Val(c1);
    var s := [c0, c1] + rest;
    assert s[1..] == [c1] + rest && ([c1] + rest)[1..] == rest;
    var a := Accumulate(0, v0);
    buf := Accumulate(a, v1);
    Accumulated(0, v0, 0);
    Accumulated(a, v1, v0);
    Emitted(buf);
    First(v0, v1);
    hide Accumulate, ByteAt, Val;
    assert DecodeFrom([c1] + rest, a, 6) == [ByteAt(buf, 4)] + DecodeFrom(rest, buf, 4);
  }

  lemma DecodeMiddle(buf: int, c1: Byte, c2: Byte, rest: Bytes) returns (buf': int)
    requires Val(c1) >= 0 && Val(c2) >= 0 && buf % 16 == Val(c1) % 16
    ensures buf' % 1024 == (Val(c1) * 64 + Val(c2)) % 1024
    ensures DecodeFrom([c2] + rest, buf, 4)
            == [(Val(c1) % 16 * 16 + Val(c2) / 4) as char] + DecodeFrom(rest, buf', 2)
  {
    assert ([c2] + rest)[1..] == rest;
    buf' := Accumulate(buf, Val(c2));
    Accumulated(buf, Val(c2), Val(c1));
    Emitted(buf');
    Second(Val(c1), Val(c2));
    hide Accumulate, ByteAt, Val;
  }

  lemma DecodeEnd(buf: int, c2: Byte, c3: Byte, rest: Bytes)
    requires Val(c2) >= 0 && Val(c3) >= 0 && buf % 4 == Val(c2) % 4
    ensures DecodeFrom([c3] + rest, buf, 2)
            == [(Val(c2) % 4 * 64 + Val(c3)) as char] + Decode(rest)
  {
    assert ([c3] + rest)[1..] == rest;
    var buf' := Accumulate(buf, Val(c3));
    Accumulated(buf, Val(c3), Val(c2));
    Emitted(buf');
    Third(Val(c2), Val(c3));
    hide Accumulate, ByteAt, Val;
    HighBitsIrrelevant(rest, buf', 0, 0);
  }

  lemma LowFour(x: int, v: int, w: int)
    requires x % 4096 == (v * 64 + w) % 4096
    ensures x % 16 == w % 16
  {
    Modulo16(x, w, 4 * v + 256 * (x / 4096 - (v * 64 + w) / 4096));
  }

  lemma LowTwo(x: int, v: int, w: int)
    requires x % 1024 == (v * 64 + w) % 1024
    ensures x % 4 == w % 4
  {
    Modulo4(x, w, 16 * v + 256 * (x / 1024 - (v * 64 + w) / 1024));
  }

  lemma DecodePair(c0: Byte, c1: Byte)
    requires Val(c0) >= 0 && Val(c1) >= 0
    ensures Decode([c0, c1]) == [(Val(c0) * 4 + Val(c1) / 16) as char]
  {
    assert [c0, c1] + [] == [c0, c1];
    var buf := DecodeStart(c0, c1, []);
  }

  lemma DecodeTriple(c0: Byte, c1: Byte, c2: Byte)
    requires Val(c0) >= 0 && Val(c1) >= 0 && Val(c2) >= 0
    ensures Decode([c0, c1, c2])
            == [(Val(c0) * 4 + Val(c1) / 16) as char, (Val(c1) % 16 * 16 + Val(c2) / 4) as char]
  {
    assert [c0, c1] + [c2] == [c0, c1, c2] && [c2] + [] == [c2];
    var buf := DecodeStart(c0, c1, [c2]);
    LowFour(buf, Val(c0), Val(c1));
    var buf' := DecodeMiddle(buf, c1, c2, []);
  }

  lemma DecodeQuad(c0: Byte, c1: Byte, c2: Byte, c3: Byte, rest: Bytes)
    requires Val(c0) >= 0 && Val(c1) >= 0 && Val(c2) >= 0 && Val(c3) >= 0
    ensures Decode([c0, c1, c2, c3] + rest)
            == [(Val(c0) * 4 + Val(c1) / 16) as char, (Val(c1) % 16 * 16 + Val(c2) / 4) as char,
                (Val(c2) % 4 * 64 + Val(c3)) as char] + Decode(rest)
  {
    assert [c0, c1] + ([c2] + ([c3] + rest)) == [c0, c1, c2, c3] + rest;
    var buf := DecodeStart(c0, c1, [c2] + ([c3] + rest));
    LowFour(buf, Val(c0), Val(c1));
    var buf' := DecodeMiddle(buf, c1, c2, [c3] + rest);
    LowTwo(buf', Val(c1), Val(c2));
    DecodeEnd(buf', c2, c3, rest);
  }

  // ----- one group of bytes and its characters -----

  lemma SextetsOf(b0: Byte, b1: Byte, b2: Byte)
    ensures var b := Word24(b0, b1, b2);
            && Sextet(b, 3) == Char64(b0 as int / 4)
            && Sextet(b, 2) == Char64(b0 as int % 4 * 16 + b1 as int / 16)
            && Sextet(b, 1) == Char64(b1 as int % 16 * 4 + b2 as int / 64)
            && Sextet(b, 0) == Char64(b2 as int % 64)
  {
    hide Char64;
    var x, y, z := b0 as int, b1 as int, b2 as int;
    SplitWord(x, y, z);
  }

  lemma SplitWord(x: int, y: int, z: int)
    requires 0 <= x < 256 && 0 <= y < 256 && 0 <= z < 256
    ensures var b := x * 0x1_0000 + y * 0x100 + z;
            && b / 0x4_0000 % 64 == x / 4
            && b / 0x1000 % 64 == x % 4 * 16 + y / 16
            && b / 0x40 % 64 == y % 16 * 4 + z / 64
            && b % 64 == z % 64
  {
    SplitHigh(x, y, z);
    SplitMiddle(x, y, z);
    SplitLow(x, y, z);
  }

  lemma SplitHigh(x: int, y: int, z: int)
    requires 0 <= x < 256 && 0 <= y < 256 && 0 <= z < 256
    ensures (x * 0x1_0000 + y * 0x100 + z) / 0x4_0000 % 64 == x / 4
  {
  }

  lemma SplitMiddle(x: int, y: int, z: int)
    requires 0 <= x < 256 && 0 <= y < 256 && 0 <= z < 256
    ensures (x * 0x1_0000 + y * 0x100 + z) / 0x1000 % 64 == x % 4 * 16 + y / 16
  {
    assert (x * 0x1_0000 + y * 0x100 + z) / 0x1000 == x * 16 + y / 16;
  }

  lemma SplitLow(x: int, y: int, z: int)
    requires 0 <= x < 256 && 0 <= y < 256 && 0 <= z < 256
    ensures var b := x * 0x1_0000 + y * 0x100 + z; b / 0x40 % 64 == y % 16 * 4 + z / 64 && b % 64 == z % 64
  {
    var high := x * 1024 + y * 4 + z / 64;
    Shifted(high, z % 64);
    assert x * 0x1_0000 + y * 0x100 + z == high * 64 + z % 64;
    Modulo64(high, y % 16 * 4 + z / 64, x * 16 + y / 16);
  }

  lemma Shifted(high: int, low: int)
    requires 0 <= low < 64
    ensures (high * 64 + low) / 0x40 == high && (high * 64 + low) % 64 == low
  {
  }

  /** The values of the characters that stand for three bytes. */
  lemma GroupValues(b0: Byte, b1: Byte, b2: Byte)
    ensures var b := Word24(b0, b1, b2);
            && Val(Sextet(b, 3)) == b0 as int / 4
            && Val(Sextet(b, 2)) == b0 as int % 4 * 16 + b1 as int / 16
            && Val(Sextet(b, 1)) == b1 as int % 16 * 4 + b2 as int / 64
            && Val(Sextet(b, 0)) == b2 as int % 64
            && UrlSafe(Sextet(b, 3)) && UrlSafe(Sextet(b, 2)) && UrlSafe(Sextet(b, 1)) && UrlSafe(Sextet(b, 0))
  {
    SextetsOf(b0, b1, b2);
    ValOfChar(b0 as int / 4);
    ValOfChar(b0 as int % 4 * 16 + b1 as int / 16);
    ValOfChar(b1 as int % 16 * 4 + b2 as int / 64);
    ValOfChar(b2 as int % 64);
  }

  /** Reassembling three bytes from their four sextets. */
  lemma Reassemble(x: int, y: int, z: int)
    requires 0 <= x < 256 && 0 <= y < 256 && 0 <= z < 256
    ensures x / 4 * 4 + (x % 4 * 16 + y / 16) / 16 == x
    ensures (x % 4 * 16 + y / 16) % 16 * 16 + (y % 16 * 4 + z / 64) / 4 == y
    ensures (y % 16 * 4 + z / 64) % 4 * 64 + z % 64 == z
  {
  }

  // ----- decode after encode -----

  lemma RoundTripOne(b0: Byte)
    ensures Decode(Encode([b0])) == [b0]
  {
    GroupValues(b0, '\0', '\0');
    Reassemble(b0 as int, 0, 0);
    var b := Word24(b0, '\0', '\0');
    hide Val, Sextet, Decode, Word24;
    DecodePair(Sextet(b, 3), Sextet(b, 2));
  }

  lemma RoundTripTwo(b0: Byte, b1: Byte)
    ensures Decode(Encode([b0, b1])) == [b0, b1]
  {
    GroupValues(b0, b1, '\0');
    Reassemble(b0 as int, b1 as int, 0);
    var b := Word24(b0, b1, '\0');
    hide Val, Sextet, Decode, Word24;
    DecodeTriple(Sextet(b, 3), Sextet(b, 2), Sextet(b, 1));
  }

  lemma EncodeThree(b0: Byte, b1: Byte, b2: Byte, rest: Bytes)
    ensures var b := Word24(b0, b1, b2);
            Encode([b0, b1, b2] + rest)
            == [Sextet(b, 3), Sextet(b, 2), Sextet(b, 1), Sextet(b, 0)] + Encode(rest)
  {
    hide Sextet, Word24;
    assert ([b0, b1, b2] + rest)[3..] == rest;
  }

  lemma RoundTripThree(b0: Byte, b1: Byte, b2: Byte, rest: Bytes)
    ensures Decode(Encode([b0, b1, b2] + rest)) == [b0, b1, b2] + Decode(Encode(rest))
  {
    GroupValues(b0, b1, b2);
    Reassemble(b0 as int, b1 as int, b2 as int);
    EncodeThree(b0, b1, b2, rest);
    var b := Word24(b0, b1, b2);
    hide Val, Sextet, Decode, Word24, Encode;
    var c0, c1, c2, c3 := Sextet(b, 3), Sextet(b, 2), Sextet(b, 1), Sextet(b, 0);
    assert Val(c0) * 4 + Val(c1) / 16 == b0 as int;
    assert Val(c1) % 16 * 16 + Val(c2) / 4 == b1 as int;
    assert Val(c2) % 4 * 64 + Val(c3) == b2 as int;
    DecodeQuad(c0, c1, c2, c3, Encode(rest));
  }

  /** Decoding undoes encoding, for every byte sequence. */
  lemma {:induction false} RoundTrip(d: Bytes)
    ensures Decode(Encode(d)) == d
    decreases |d|
  {
    hide Encode, Decode;
    if |d| == 0 { EncodeNothing(); DecodeNothing(); }
    else if |d| == 1 { RoundTripOne(d[0]); assert d == [d[0]]; }
    else if |d| == 2 { RoundTripTwo(d[0], d[1]); assert d == [d[0], d[1]]; }
    else {
      RoundTrip(d[3..]);
      RoundTripThree(d[0], d[1], d[2], d[3..]);
      assert d == [d[0], d[1], d[2]] + d[3..];
    }
  }

  lemma DecodeNothing()
    ensures Decode([]) == []
  {
  }

  // ----- encode after decode -----

  /** Only the url-safe alphabet, a length an encoder can produce, and zero trailing bits
      (section 3.5 of RFC 4648). */
  ghost predicate Canonical(s: Bytes) {
    && (forall k :: 0 <= k < |s| ==> UrlSafe(s[k]))
    && |s| % 4 != 1
    && (|s| % 4 == 2 ==> Val(s[|s| - 1]) % 16 == 0)
    && (|s| % 4 == 3 ==> Val(s[|s| - 1]) % 4 == 0)
  }

  lemma CanonicalTail(s: Bytes)
    requires |s| >= 4
    ensures Canonical(s) <==> Canonical(s[4..]) && UrlSafe(s[0]) && UrlSafe(s[1]) && UrlSafe(s[2]) && UrlSafe(s[3])
  {
    hide UrlSafe, Val;
    var t := s[4..];
    assert |t| % 4 == |s| % 4;
    assert t != [] ==> t[|t| - 1] == s[|s| - 1];
    if Canonical(t) && UrlSafe(s[0]) && UrlSafe(s[1]) && UrlSafe(s[2]) && UrlSafe(s[3]) {
      forall k | 0 <= k < |s| ensures UrlSafe(s[k]) {
        if k >= 4 { assert s[k] == t[k - 4]; }
      }
    }
  }

  lemma CanonicalOne(b0: Byte)
    ensures Canonical(Encode([b0])) && |Encode([b0])| == 2
  {
    GroupValues(b0, '\0', '\0');
    var b := Word24(b0, '\0', '\0');
    var s := [Sextet(b, 3), Sextet(b, 2)];
    assert Encode([b0]) == s;
    hide UrlSafe, Val, Sextet, Encode, Word24;
    assert Val(s[1]) == b0 as int % 4 * 16;
    NoRemainder(b0 as int % 4);
    assert Canonical(s);
  }

  lemma NoRemainder(m: int)
    ensures m * 16 % 16 == 0 && m * 4 % 4 == 0
  {
  }

  lemma CanonicalTwo(b0: Byte, b1: Byte)
    ensures Canonical(Encode([b0, b1])) && |Encode([b0, b1])| == 3
  {
    GroupValues(b0, b1, '\0');
    var b := Word24(b0, b1, '\0');
    var s := [Sextet(b, 3), Sextet(b, 2), Sextet(b, 1)];
    assert Encode([b0, b1]) == s;
    hide UrlSafe, Val, Sextet, Encode, Word24;
    assert Val(s[2]) == b1 as int % 16 * 4;
    NoRemainder(b1 as int % 16);
    assert Canonical(s);
  }

  lemma CanonicalThree(b0: Byte, b1: Byte, b2: Byte, rest: Bytes)
    requires Canonical(Encode(rest))
    ensures Canonical(Encode([b0, b1, b2] + rest)) && |Encode([b0, b1, b2] + rest)| == 4 + |Encode(rest)|
  {
    GroupValues(b0, b1, b2);
    EncodeThree(b0, b1, b2, rest);
    hide UrlSafe, Val, Sextet, Encode, Canonical, Word24;
    CanonicalTail(Encode([b0, b1, b2] + rest));
    assert Encode([b0, b1, b2] + rest)[4..] == Encode(rest);
  }

  /** Everything the encoder emits is canonical; its length is the least that holds the bits. */
  lemma {:induction false} EncodeIsCanonical(d: Bytes)
    ensures Canonical(Encode(d)) && |Encode(d)| == (4 * |d| + 2) / 3
    decreases |d|
  {
    if |d| == 1 { CanonicalOne(d[0]); assert d == [d[0]]; }
    else if |d| == 2 { CanonicalTwo(d[0], d[1]); assert d == [d[0], d[1]]; }
    else if |d| > 2 {
      hide Encode, Canonical;
      EncodeIsCanonical(d[3..]);
      CanonicalThree(d[0], d[1], d[2], d[3..]);
      assert d == [d[0], d[1], d[2]] + d[3..];
    }
  }

  lemma CombinePair(v0: int, v1: int)
    requires 0 <= v0 < 64 && 0 <= v1 < 64
    ensures var x := v0 * 4 + v1 / 16;
            0 <= x < 256 && x / 4 == v0 && (v1 % 16 == 0 ==> x % 4 * 16 + 0 / 16 == v1)
  {
  }

  lemma CombineTriple(v0: int, v1: int, v2: int)
    requires 0 <= v0 < 64 && 0 <= v1 < 64 && 0 <= v2 < 64
    ensures var x, y := v0 * 4 + v1 / 16, v1 % 16 * 16 + v2 / 4;
            && 0 <= x < 256 && x / 4 == v0
            && 0 <= y < 256 && x % 4 * 16 + y / 16 == v1
            && (v2 % 4 == 0 ==> y % 16 * 4 + 0 / 64 == v2)
  {
  }

  lemma CombineQuad(v1: int, v2: int, v3: int)
    requires 0 <= v1 < 64 && 0 <= v2 < 64 && 0 <= v3 < 64
    ensures var y, z := v1 % 16 * 16 + v2 / 4, v2 % 4 * 64 + v3;
            && 0 <= z < 256 && y % 16 * 4 + z / 64 == v2 && z % 64 == v3
  {
  }

  /** A canonical text is what its decoding encodes to. */
  lemma {:induction false} CanonicalRoundTrip(s: Bytes)
    requires Canonical(s)
    ensures Encode(Decode(s)) == s
    decreases |s|
  {
    if |s| == 2 { CanonicalPair(s[0], s[1]); assert s == [s[0], s[1]]; }
    else if |s| == 3 { CanonicalTriple(s[0], s[1], s[2]); assert s == [s[0], s[1], s[2]]; }
    else if |s| >= 4 {
      CanonicalTail(s);
      CanonicalRoundTrip(s[4..]);
      CanonicalQuad(s[0], s[1], s[2], s[3], s[4..]);
      assert s == [s[0], s[1], s[2], s[3]] + s[4..];
    }
  }

  lemma CanonicalPair(c0: Byte, c1: Byte)
    requires UrlSafe(c0) && UrlSafe(c1) && Val(c1) % 16 == 0
    ensures Encode(Decode([c0, c1])) == [c0, c1]
  {
    CharOfVal(c0);
    CharOfVal(c1);
    DecodePair(c0, c1);
    CombinePair(Val(c0), Val(c1));
    hide Val, Sextet, Char64, Decode, Word24;
    var x := (Val(c0) * 4 + Val(c1) / 16) as char;
    SextetsOf(x, '\0', '\0');
    assert Char64(x as int / 4) == c0 && Char64(x as int % 4 * 16 + '\0' as int / 16) == c1;
  }

  lemma CanonicalTriple(c0: Byte, c1: Byte, c2: Byte)
    requires UrlSafe(c0) && UrlSafe(c1) && UrlSafe(c2) && Val(c2) % 4 == 0
    ensures Encode(Decode([c0, c1, c2])) == [c0, c1, c2]
  {
    CharOfVal(c0);
    CharOfVal(c1);
    CharOfVal(c2);
    DecodeTriple(c0, c1, c2);
    var v0, v1, v2 := Val(c0), Val(c1), Val(c2);
    CombineTriple(v0, v1, v2);
    hide Val, Sextet, Char64, Decode, Word24, UrlSafe;
    var x, y := (v0 * 4 + v1 / 16) as char, (v1 % 16 * 16 + v2 / 4) as char;
    SextetsOf(x, y, '\0');
    assert Char64(x as int / 4) == c0 && Char64(x as int % 4 * 16 + y as int / 16) == c1;
    assert Char64(y as int % 16 * 4 + '\0' as int / 64) == c2;
  }

  lemma CanonicalQuad(c0: Byte, c1: Byte, c2: Byte, c3: Byte, rest: Bytes)
    requires UrlSafe(c0) && UrlSafe(c1) && UrlSafe(c2) && UrlSafe(c3)
    ensures Encode(Decode([c0, c1, c2, c3] + rest)) == [c0, c1, c2, c3] + Encode(Decode(rest))
  {
    CharOfVal(c0);
    CharOfVal(c1);
    CharOfVal(c2);
    CharOfVal(c3);
    DecodeQuad(c0, c1, c2, c3, rest);
    var v0, v1, v2, v3 := Val(c0), Val(c1), Val(c2), Val(c3);
    CombineTriple(v0, v1, v2);
    CombineQuad(v1, v2, v3);
    hide Val, Sextet, Char64, Decode, UrlSafe;
    var x, y, z := (v0 * 4 + v1 / 16) as char, (v1 % 16 * 16 + v2 / 4) as char, (v2 % 4 * 64 + v3) as char;
    SextetsOf(x, y, z);
    assert ([x, y, z] + Decode(rest))[3..] == Decode(rest);
  }

  /** Encoding undoes decoding exactly on the canonical texts. */
  lemma EncodeDecodeIffCanonical(s: Bytes)
    ensures Encode(Decode(s)) == s <==> Canonical(s)
  {
    if Encode(Decode(s)) == s { EncodeIsCanonical(Decode(s)); }
    if Canonical(s) { CanonicalRoundTrip(s); }
  }

  // ----- what the text means: one big-endian number -----

  /** The bytes as digits to the base 256, after what was read already. */
  ghost function Number256(acc: int, d: Bytes): int
    decreases |d|
  {
    if d == [] then acc else Number256(acc * 256 + d[0] as int, d[1..])
  }

  /** The characters as digits to the base 64. */
  ghost function Number64(acc: int, s: Bytes): int
    decreases |s|
  {
    if s == [] then acc else Number64(acc * 64 + Val(s[0]), s[1..])
  }

  lemma Number256Three(acc: int, b0: Byte, b1: Byte, b2: Byte, rest: Bytes)
    ensures Number256(acc, [b0, b1, b2] + rest)
            == Number256(acc * 0x100_0000 + Word24(b0, b1, b2), rest)
  {
    var s0, s1, s2 := [b0, b1, b2] + rest, [b1, b2] + rest, [b2] + rest;
    assert s0[1..] == s1 && s1[1..] == s2 && s2[1..] == rest;
    assert Number256(acc, s0) == Number256(acc * 256 + b0 as int, s1);
  }

  lemma Number64Four(acc: int, c0: Byte, c1: Byte, c2: Byte, c3: Byte, rest: Bytes)
    ensures Number64(acc, [c0, c1, c2, c3] + rest)
            == Number64(acc * 0x100_0000 + Val(c0) * 0x4_0000 + Val(c1) * 0x1000 + Val(c2) * 0x40 + Val(c3), rest)
  {
    hide Val;
    var s0, s1, s2, s3 := [c0, c1, c2, c3] + rest, [c1, c2, c3] + rest, [c2, c3] + rest, [c3] + rest;
    assert s0[1..] == s1 && s1[1..] == s2 && s2[1..] == s3 && s3[1..] == rest;
    assert Number64(acc, s0) == Number64(acc * 64 + Val(c0), s1);
    assert Number64(acc, s0) == Number64((acc * 64 + Val(c0)) * 64 + Val(c1), s2);
  }

  lemma SumOfSextets(x: int, y: int, z: int)
    requires 0 <= x < 256 && 0 <= y < 256 && 0 <= z < 256
    ensures x / 4 * 0x4_0000 + (x % 4 * 16 + y / 16) * 0x1000 + (y % 16 * 4 + z / 64) * 0x40 + z % 64
            == x * 0x1_0000 + y * 0x100 + z
  {
  }

  lemma NumberOne(acc: int, b0: Byte)
    ensures Number64(acc, Encode([b0])) == Number256(acc, [b0]) * 16
  {
    GroupValues(b0, '\0', '\0');
    var b := Word24(b0, '\0', '\0');
    var c0, c1 := Sextet(b, 3), Sextet(b, 2);
    assert Encode([b0]) == [c0, c1] && [c0, c1][1..] == [c1];
    hide Val, Sextet, Encode;
    LastDigits(acc * 64 + Val(c0), c1);
    LastDigits(acc, b0);
    ShortSums(b0 as int, 0);
  }

  lemma LastDigits(acc: int, c: Byte)
    ensures Number64(acc, [c]) == acc * 64 + Val(c)
    ensures Number256(acc, [c]) == acc * 256 + c as int
  {
    hide Val;
    assert [c][1..] == [];
  }

  lemma EncodeTwo(b0: Byte, b1: Byte)
    ensures var b := Word24(b0, b1, '\0'); Encode([b0, b1]) == [Sextet(b, 3), Sextet(b, 2), Sextet(b, 1)]
  {
    hide Sextet, Word24;
  }

  lemma NumberTwo(acc: int, b0: Byte, b1: Byte)
    ensures Number64(acc, Encode([b0, b1])) == Number256(acc, [b0, b1]) * 4
  {
    hide Val, Sextet, Encode, Word24;
    GroupValues(b0, b1, '\0');
    EncodeTwo(b0, b1);
    var b := Word24(b0, b1, '\0');
    var c0, c1, c2 := Sextet(b, 3), Sextet(b, 2), Sextet(b, 1);
    assert [c0, c1, c2][1..] == [c1, c2] && [c1, c2][1..] == [c2];
    assert Number64(acc, [c0, c1, c2]) == Number64(acc * 64 + Val(c0), [c1, c2]);
    LastDigits((acc * 64 + Val(c0)) * 64 + Val(c1), c2);
    assert [b0, b1][1..] == [b1];
    LastDigits(acc * 256 + b0 as int, b1);
    ShortSums(b0 as int, b1 as int);
  }

  lemma ShortSums(x: int, y: int)
    requires 0 <= x < 256 && 0 <= y < 256
    ensures x / 4 * 0x1000 + (x % 4 * 16 + y / 16) * 0x40 + y % 16 * 4 == x * 0x400 + y * 4
  {
  }

  lemma NumberThree(acc: int, b0: Byte, b1: Byte, b2: Byte, rest: Bytes)
    ensures Number64(acc, Encode([b0, b1, b2] + rest))
            == Number64(acc * 0x100_0000 + Word24(b0, b1, b2), Encode(rest))
  {
    var b := Word24(b0, b1, b2);
    GroupValues(b0, b1, b2);
    EncodeThree(b0, b1, b2, rest);
    SumOfSextets(b0 as int, b1 as int, b2 as int);
    hide Val, Sextet, Encode, Number64;
    Number64Four(acc, Sextet(b, 3), Sextet(b, 2), Sextet(b, 1), Sextet(b, 0), Encode(rest));
  }

  /** The bits that fill up the last character, as a factor. */
  ghost function Filling(n: nat): int { if n % 3 == 0 then 1 else if n % 3 == 1 then 16 else 4 }

  /** The text denotes the same number as the bytes, shifted left by the bits that fill up the
      last character. */
  lemma {:induction false} EncodePreservesNumber(acc: int, d: Bytes)
    ensures Number64(acc, Encode(d)) == Number256(acc, d) * Filling(|d|)
    decreases |d|
  {
    if |d| == 1 { NumberOne(acc, d[0]); assert d == [d[0]]; }
    else if |d| == 2 { NumberTwo(acc, d[0], d[1]); assert d == [d[0], d[1]]; }
    else if |d| > 2 {
      assert Filling(|d|) == Filling(|d[3..]|);
      hide Encode, Number64, Number256, Word24, Filling;
      EncodePreservesNumber(acc * 0x100_0000 + Word24(d[0], d[1], d[2]), d[3..]);
      NumberThree(acc, d[0], d[1], d[2], d[3..]);
      Number256Three(acc, d[0], d[1], d[2], d[3..]);
      assert d == [d[0], d[1], d[2]] + d[3..];
    }
  }

  // ----- the alphabet, letter by letter -----

  const CAPITALS: Bytes := "ABCDEFGHIJKLMNOPQRSTUVWXYZ"
  const SMALL: Bytes := "abcdefghijklmnopqrstuvwxyz"
  const DIGITS: Bytes := "0123456789"

  lemma CapitalsInOrder(i: nat)
    requires i < 26
    ensures CAPITALS[i] as int == 'A' as int + i
  {
  }

  lemma SmallInOrder(i: nat)
    requires i < 26
    ensures SMALL[i] as int == 'a' as int + i
  {
  }

  lemma DigitsInOrder(i: nat)
    requires i < 10
    ensures DIGITS[i] as int == '0' as int + i
  {
  }

  /** The 64 characters of section 5 of RFC 4648, in order. */
  lemma AlphabetIs(i: nat)
    requires i < 64
    ensures Char64(i) == (CAPITALS + SMALL + DIGITS + "-_")[i]
  {
    var text := CAPITALS + SMALL + DIGITS + "-_";
    if i < 26 { CapitalsInOrder(i); assert text[i] == CAPITALS[i]; }
    else if i < 52 { SmallInOrder(i - 26); assert text[i] == SMALL[i - 26]; }
    else if i < 62 { DigitsInOrder(i - 52); assert text[i] == DIGITS[i - 52]; }
    else { assert text[i] == "-_"[i - 62]; }
  }

  /** The decoder takes + and / for - and _, and skips every character that is in neither alphabet. */
  lemma {:induction false} DecoderAccepts(a: Bytes, c: Byte, b: Bytes, buf: int, bits: nat)
    ensures c == '+' ==> DecodeFrom(a + [c] + b, buf, bits) == DecodeFrom(a + ['-'] + b, buf, bits)
    ensures c == '/' ==> DecodeFrom(a + [c] + b, buf, bits) == DecodeFrom(a + ['_'] + b, buf, bits)
    ensures (forall i :: 0 <= i < 64 ==> c != Char64(i)) && c != '+' && c != '/' ==>
              DecodeFrom(a + [c] + b, buf, bits) == DecodeFrom(a + b, buf, bits)
    decreases |a|
  {
    hide Accumulate, ByteAt;
    if a == [] {
      assert [] + [c] + b == [c] + b && [] + b == b;
      assert ([c] + b)[1..] == b;
      assert ([] + ['-'] + b) == ['-'] + b && (['-'] + b)[1..] == b;
      assert ([] + ['_'] + b) == ['_'] + b && (['_'] + b)[1..] == b;
      if Val(c) >= 0 && c != '+' && c != '/' { CharOfVal(c); }
    } else {
      assert (a + [c] + b)[1..] == a[1..] + [c] + b && (a + b)[1..] == a[1..] + b;
      assert (a + ['-'] + b)[1..] == a[1..] + ['-'] + b && (a + ['_'] + b)[1..] == a[1..] + ['_'] + b;
      if Val(a[0]) < 0 { DecoderAccepts(a[1..], c, b, buf, bits); }
      else {
        var next := Accumulate(buf, Val(a[0]));
        DecoderAccepts(a[1..], c, b, next, if bits + 6 >= 8 then bits - 2 else bits + 6);
      }
    }
  }
}
