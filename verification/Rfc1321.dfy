/** The MD5 message-digest algorithm as RFC 1321 defines it on a whole message
    (sections 3.1 to 3.5).  The rounds are written as one indexed loop, the four
    auxiliary functions as truth tables applied to every bit position, and rotation
    as arithmetic, so that nothing here repeats the text of the implementation. */
module Rfc1321 {
  import opened Bits
  import opened LittleEndian

  /* The four-word buffer (A, B, C, D) of section 3.3. */
  datatype Regs = Regs(a: word, b: word, c: word, d: word)

  const INITIAL: Regs := Regs(0x67452301, 0xefcdab89, 0x98badcfe, 0x10325476)

  function Add(x: nat, y: nat): word {
    (x + y) % U32
  }

  /* Circular left shift of a 32-bit word: the top s bits reappear at the bottom. */
  function RotL(x: word, s: nat): word
    requires 0 < s < 32
  {
    RotBound(x, s);
    x % Pow2(32 - s) * Pow2(s) + x / Pow2(32 - s)
  }

  lemma RotBound(x: word, s: nat)
    requires 0 < s < 32
    ensures 0 <= x % Pow2(32 - s) * Pow2(s) + x / Pow2(32 - s) < U32
  {
    hide Pow2;
    Pow2Add(32 - s, s);
    Pow2Of32();
    SplitBound(x, Pow2(32 - s), Pow2(s));
  }

  lemma Pow2Of32()
    ensures Pow2(32) == U32
  {
    Pow2Values();
  }

  // ----- Section 3.4: the auxiliary functions, bit by bit -----

  type TruthTable = (bool, bool, bool) -> bool

  predicate Choose(x: bool, y: bool, z: bool) { if x then y else z }
  predicate ChooseLast(x: bool, y: bool, z: bool) { if z then x else y }
  predicate Parity(x: bool, y: bool, z: bool) { (x != y) != z }
  predicate OrNot(x: bool, y: bool, z: bool) { y != (x || !z) }

  /* Applies a truth table to the k low bit positions of three values. */
  function Bitwise(f: TruthTable, x: nat, y: nat, z: nat, k: nat): (r: nat)
    ensures r < Pow2(k)
  {
    if k == 0 then 0
    else 2 * Bitwise(f, x / 2, y / 2, z / 2, k - 1) + (if f(x % 2 == 1, y % 2 == 1, z % 2 == 1) then 1 else 0)
  }

  function Table(round: nat): TruthTable
    requires round < 4
  {
    if round == 0 then Choose else if round == 1 then ChooseLast else if round == 2 then Parity else OrNot
  }

  function Mix(round: nat, x: word, y: word, z: word): word
    requires round < 4
  {
    Pow2Values();
    Bitwise(Table(round), x, y, z, 32)
  }

  // ----- Section 3.4: message index, shift amount and sine table of step i of a round -----

  function Index(round: nat, i: nat): (k: nat)
    requires round < 4 && i < 16
    ensures k < 16
  {
    if round == 0 then i
    else if round == 1 then (5 * i + 1) % 16
    else if round == 2 then (3 * i + 5) % 16
    else 7 * i % 16
  }

  function Shift(round: nat, i: nat): (s: nat)
    requires round < 4
    ensures 0 < s < 32
  {
    var j := i % 4;
    if round == 0 then (if j == 0 then 7 else if j == 1 then 12 else if j == 2 then 17 else 22)
    else if round == 1 then (if j == 0 then 5 else if j == 1 then 9 else if j == 2 then 14 else 20)
    else if round == 2 then (if j == 0 then 4 else if j == 1 then 11 else if j == 2 then 16 else 23)
    else (if j == 0 then 6 else if j == 1 then 10 else if j == 2 then 15 else 21)
  }

  const SINES0: seq<word> := [
    0xd76aa478, 0xe8c7b756, 0x242070db, 0xc1bdceee, 0xf57c0faf, 0x4787c62a, 0xa8304613, 0xfd469501,
    0x698098d8, 0x8b44f7af, 0xffff5bb1, 0x895cd7be, 0x6b901122, 0xfd987193, 0xa679438e, 0x49b40821
  ]
  const SINES1: seq<word> := [
    0xf61e2562, 0xc040b340, 0x265e5a51, 0xe9b6c7aa, 0xd62f105d, 0x02441453, 0xd8a1e681, 0xe7d3fbc8,
    0x21e1cde6, 0xc33707d6, 0xf4d50d87, 0x455a14ed, 0xa9e3e905, 0xfcefa3f8, 0x676f02d9, 0x8d2a4c8a
  ]
  const SINES2: seq<word> := [
    0xfffa3942, 0x8771f681, 0x6d9d6122, 0xfde5380c, 0xa4beea44, 0x4bdecfa9, 0xf6bb4b60, 0xbebfbc70,
    0x289b7ec6, 0xeaa127fa, 0xd4ef3085, 0x04881d05, 0xd9d4d039, 0xe6db99e5, 0x1fa27cf8, 0xc4ac5665
  ]
  const SINES3: seq<word> := [
    0xf4292244, 0x432aff97, 0xab9423a7, 0xfc93a039, 0x655b59c3, 0x8f0ccc92, 0xffeff47d, 0x85845dd1,
    0x6fa87e4f, 0xfe2ce6e0, 0xa3014314, 0x4e0811a1, 0xf7537e82, 0xbd3af235, 0x2ad7d2bb, 0xeb86d391
  ]

  function Sine(round: nat, i: nat): word
    requires round < 4 && i < 16
  {
    if round == 0 then SINES0[i] else if round == 1 then SINES1[i] else if round == 2 then SINES2[i] else SINES3[i]
  }

  // ----- Section 3.4: processing one 16-word block -----

  /* The operation of one step: b + ((a + mix(b,c,d) + x + t) <<< s). */
  function Operation(round: nat, a: word, b: word, c: word, d: word, x: word, s: nat, t: word): word
    requires round < 4 && 0 < s < 32
  {
    Add(RotL(Add(Add(Add(a, Mix(round, b, c, d)), x), t), s), b)
  }

  /* One step, after which the registers rotate by one place. */
  function Step(round: nat, i: nat, r: Regs, x: seq<word>): Regs
    requires round < 4 && i < 16 && |x| == 16
  {
    Regs(r.d, Operation(round, r.a, r.b, r.c, r.d, x[Index(round, i)], Shift(round, i), Sine(round, i)), r.b, r.c)
  }

  /* The first n steps of a round. */
  function Steps(round: nat, n: nat, r: Regs, x: seq<word>): Regs
    requires round < 4 && n <= 16 && |x| == 16
    decreases n
  {
    if n == 0 then r else Step(round, n - 1, Steps(round, n - 1, r, x), x)
  }

  /* A whole round: one step per word of the block. */
  function Round(round: nat, r: Regs, x: seq<word>): Regs
    requires round < 4 && |x| == 16
  {
    Steps(round, |x|, r, x)
  }

  function FourRounds(r: Regs, x: seq<word>): Regs
    requires |x| == 16
  {
    Round(3, Round(2, Round(1, Round(0, r, x), x), x), x)
  }

  function Compress(h: Regs, block: seq<byte>): Regs
    requires |block| == 64
  {
    var r := FourRounds(h, Words(block));
    Regs(Add(h.a, r.a), Add(h.b, r.b), Add(h.c, r.c), Add(h.d, r.d))
  }

  /* Processes every complete 64-byte block of m, in order. */
  function Chain(h: Regs, m: seq<byte>): Regs
    decreases |m|
  {
    if |m| < 64 then h else Chain(Compress(h, m[..64]), m[64..])
  }

  // ----- Sections 3.1, 3.2 and 3.5: padding, length and output -----

  function Zeros(n: nat): seq<byte> {
    seq(n, _ => 0)
  }

  /* The low 64 bits of a bit count, low-order word first. */
  function LengthBytes(bits: nat): (b: seq<byte>)
    ensures |b| == 8
  {
    Bytes([bits % U32, bits / U32 % U32])
  }

  function Padding(length: nat): (p: seq<byte>)
    ensures 1 <= |p| <= 64 && (length + |p|) % 64 == 56
  {
    [0x80] + Zeros((55 - length) % 64)
  }

  function Pad(m: seq<byte>): (p: seq<byte>)
    ensures |p| % 64 == 0
  {
    hide *;
    var p := Padding(|m|);
    assert (|m| + |p| + 8) % 64 == 0;
    var q := m + p + LengthBytes(8 * |m|);
    assert |q| == |m| + |p| + 8;
    q
  }

  function Output(h: Regs): (b: seq<byte>)
    ensures |b| == 16
  {
    Bytes([h.a, h.b, h.c, h.d])
  }

  function Digest(m: seq<byte>): (b: seq<byte>)
    ensures |b| == 16
  {
    Output(Chain(INITIAL, Pad(m)))
  }

  // ----- Properties of the definition -----

  /** Blocks may be absorbed in several goes, as long as each but the last ends on a block boundary. */
  lemma {:induction false} ChainAppend(h: Regs, m: seq<byte>, n: seq<byte>)
    requires |m| % 64 == 0
    ensures Chain(h, m + n) == Chain(Chain(h, m), n)
    decreases |m|
  {
    hide Compress;
    if |m| == 0 {
      assert m + n == n;
    } else {
      assert (m + n)[..64] == m[..64] && (m + n)[64..] == m[64..] + n;
      ChainAppend(Compress(h, m[..64]), m[64..], n);
    }
  }

  /** Padding adds 9 to 72 bytes, so that closing a message takes one or two more blocks and leaves no tail. */
  lemma PadBlocks(m: seq<byte>)
    ensures 9 <= |Pad(m)| - |m| <= 72 && |Pad(m)| % 64 == 0
    ensures |Pad(m)| / 64 == |m| / 64 + (if |m| % 64 < 56 then 1 else 2)
  {
    hide Padding, LengthBytes;
    var p := Padding(|m|);
    assert |Pad(m)| == |m| + |p| + 8;
  }

  /** Padding loses nothing: below 2^61 bytes, two messages with the same padding are equal. */
  lemma PadInjective(m: seq<byte>, n: seq<byte>)
    requires 8 * |m| < U64 && 8 * |n| < U64
    requires Pad(m) == Pad(n)
    ensures m == n
  {
    var p := Pad(m);
    assert p[|p| - 8..] == LengthBytes(8 * |m|) && p[|p| - 8..] == LengthBytes(8 * |n|);
    LengthBytesInjective(8 * |m|, 8 * |n|);
    assert m == p[..|m|] && n == p[..|n|];
  }

  lemma LengthBytesInjective(i: nat, j: nat)
    requires i < U64 && j < U64
    requires LengthBytes(i) == LengthBytes(j)
    ensures i == j
  {
    hide Words, Bytes;
    var x, y := [i % U32, i / U32 % U32], [j % U32, j / U32 % U32];
    WordsOfBytes(x);
    WordsOfBytes(y);
    assert x[0] == y[0] && x[1] == y[1];
    TwoWords(i);
    TwoWords(j);
  }

  lemma TwoWords(i: nat)
    requires i < U64
    ensures i == U32 * (i / U32 % U32) + i % U32
  {
    assert i / U32 < U32;
  }

  /** A digest determines the final buffer. */
  lemma OutputInjective(g: Regs, h: Regs)
    requires Output(g) == Output(h)
    ensures g == h
  {
    var x, y := [g.a, g.b, g.c, g.d], [h.a, h.b, h.c, h.d];
    WordsOfBytes(x);
    WordsOfBytes(y);
    assert x[0] == y[0] && x[1] == y[1] && x[2] == y[2] && x[3] == y[3];
  }

  /** Every round reads each of the sixteen words, so each of them once. */
  lemma IndexCovers(round: nat, k: nat)
    requires round < 4 && k < 16
    ensures exists i :: 0 <= i < 16 && Index(round, i) == k
  {
    if round == 0 {
      assert Index(0, k) == k;
    } else if round == 1 {
      var i, q := (13 * k + 3) % 16, (13 * k + 3) / 16;
      DivModUnique(5 * i + 1, 16, 4 * k + 1 - 5 * q, k);
      assert Index(1, i) == k;
    } else if round == 2 {
      var i, q := (11 * k + 9) % 16, (11 * k + 9) / 16;
      DivModUnique(3 * i + 5, 16, 2 * k + 2 - 3 * q, k);
      assert Index(2, i) == k;
    } else {
      var i, q := 7 * k % 16, 7 * k / 16;
      DivModUnique(7 * i, 16, 3 * k - 7 * q, k);
      assert Index(3, i) == k;
    }
  }

  // ----- The byte layout, told in numbers -----

  /** The message, one byte 128, zeros, and the bit count modulo 2^64 in eight bytes, low-order byte first. */
  lemma PadLayout(m: seq<byte>)
    ensures var p := Pad(m);
            && |m| + 9 <= |p| && p[..|m|] == m && p[|m|] == 128
            && (forall i :: |m| < i < |p| - 8 ==> p[i] == 0)
            && Number(p, |p| - 8, 8) == 8 * |m| % 0x1_0000_0000_0000_0000
  {
    var p, n, bits := Pad(m), |Pad(m)| - 8, 8 * |m|;
    var ws: seq<word> := [bits % U32, bits / U32 % U32];
    assert p[n..] == Bytes(ws);
    hide Bytes, Number, Pad;
    NumberIn(p, n, 8);
    BytesNumber(ws, 0);
    BytesNumber(ws, 1);
    NumberSplit(Bytes(ws), 0, 4, 4);
    assert Pow256(4) == U32;
    LowWords(bits);
  }

  lemma LowWords(bits: nat)
    ensures bits % U32 + U32 * (bits / U32 % U32) == bits % U64
  {
    var q := bits / U32;
    assert q == U32 * (q / U32) + q % U32;
    DivModUnique(bits, U64, q / U32, bits % U32 + U32 * (q % U32));
  }

  /* A number at the end of a text is that of the end alone. */
  lemma {:induction false} NumberIn(b: seq<byte>, lo: nat, n: nat)
    requires lo + n == |b|
    ensures Number(b, lo, n) == Number(b[lo..], 0, n)
    decreases n
  {
    NumberShift(b, lo, 0, n);
  }

  lemma {:induction false} NumberShift(b: seq<byte>, lo: nat, i: nat, n: nat)
    requires lo + i + n <= |b|
    ensures Number(b, lo + i, n) == Number(b[lo..], i, n)
    decreases n
  {
    if n == 0 {
    } else {
      NumberShift(b, lo, i + 1, n - 1);
    }
  }

  /** The sixteen bytes put out are the four words in order, low-order byte first. */
  lemma OutputLayout(h: Regs)
    ensures var b := Output(h);
            Number(b, 0, 4) == h.a && Number(b, 4, 4) == h.b && Number(b, 8, 4) == h.c && Number(b, 12, 4) == h.d
  {
    hide Bytes, Number;
    var ws := [h.a, h.b, h.c, h.d];
    BytesNumber(ws, 0);
    BytesNumber(ws, 1);
    BytesNumber(ws, 2);
    BytesNumber(ws, 3);
  }

  /** The initial words, written as bytes, count up from 01 by 22 and from fe down again. */
  lemma InitialLayout()
    ensures var b := Output(INITIAL);
            forall i :: 0 <= i < 8 ==> b[i] == 0x01 + 0x22 * i && b[8 + i] == 0xfe - 0x22 * i
  {
    var w: seq<word> := [INITIAL.a, INITIAL.b, INITIAL.c, INITIAL.d];
    CountUp();
    CountDown();
    hide Bytes, WordBytes, WordOf;
    FourBytes(w, 0, [0x01, 0x23, 0x45, 0x67]);
    FourBytes(w, 1, [0x89, 0xab, 0xcd, 0xef]);
    FourBytes(w, 2, [0xfe, 0xdc, 0xba, 0x98]);
    FourBytes(w, 3, [0x76, 0x54, 0x32, 0x10]);
  }

  lemma CountUp()
    ensures WordOf([0x01, 0x23, 0x45, 0x67]) == INITIAL.a && WordOf([0x89, 0xab, 0xcd, 0xef]) == INITIAL.b
  {
  }

  lemma CountDown()
    ensures WordOf([0xfe, 0xdc, 0xba, 0x98]) == INITIAL.c && WordOf([0x76, 0x54, 0x32, 0x10]) == INITIAL.d
  {
  }

  lemma FourBytes(ws: seq<word>, j: nat, four: seq<byte>)
    requires j < |ws| && |four| == 4 && WordOf(four) == ws[j]
    ensures var b := Bytes(ws);
            b[4 * j] == four[0] && b[4 * j + 1] == four[1] && b[4 * j + 2] == four[2] && b[4 * j + 3] == four[3]
  {
    hide Bytes, WordBytes, WordOf;
    BytesAt(ws, j);
    Digits(ws[j], four);
    Digits(ws[j], WordBytes(ws[j]));
    assert Bytes(ws)[4 * j..4 * j + 4] == four;
    FourAt(Bytes(ws), 4 * j, four);
  }

  lemma FourAt(b: seq<byte>, k: nat, four: seq<byte>)
    requires k + 4 <= |b| && b[k..k + 4] == four
    ensures b[k] == four[0] && b[k + 1] == four[1] && b[k + 2] == four[2] && b[k + 3] == four[3]
  {
    var s := b[k..k + 4];
    assert s[0] == b[k] && s[1] == b[k + 1] && s[2] == b[k + 2] && s[3] == b[k + 3];
  }
}
