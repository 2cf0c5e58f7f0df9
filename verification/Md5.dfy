/** The streaming MD5 context: 64-byte carry-over buffer, two-word bit counter,
    unrolled transform, and padding performed by calling Update on itself. */
module Md5 {
  import opened Bits
  import opened Common
  import opened LittleEndian
  import opened Rfc1321

  const BLOCK_SIZE: nat := 64

  // ----- The basic functions -----

  /* ~x on 32 bits */
  function Not(x: word): word { U32 - 1 - x }

  function F(x: word, y: word, z: word): nat { Or(And(x, y), And(Not(x), z)) }
  function G(x: word, y: word, z: word): nat { Or(And(x, z), And(y, Not(z))) }
  function H(x: word, y: word, z: word): nat { Xor(Xor(x, y), z) }
  function I(x: word, y: word, z: word): nat { Xor(y, Or(x, Not(z))) }

  function RotateLeft(x: word, n: nat): nat
    requires 0 < n < 32
  {
    Or(Shl(x, n) % U32, Shr(x, 32 - n))
  }

  lemma {:induction false} ChooseDigits(x: nat, y: nat, z: nat, k: nat)
    requires x < Pow2(k) && y < Pow2(k) && z < Pow2(k)
    ensures Or(And(x, y), And(Pow2(k) - 1 - x, z)) == Bitwise(Choose, x, y, z, k)
  {
    if k == 0 {
    } else {
      var n := Pow2(k) - 1 - x;
      assert n / 2 == Pow2(k - 1) - 1 - x / 2 && n % 2 != x % 2;
      ChooseDigits(x / 2, y / 2, z / 2, k - 1);
      AndDigit(x, y);
      AndDigit(n, z);
      OrDigit(And(x, y), And(n, z));
    }
  }

  lemma {:induction false} ChooseLastDigits(x: nat, y: nat, z: nat, k: nat)
    requires x < Pow2(k) && y < Pow2(k) && z < Pow2(k)
    ensures Or(And(x, z), And(y, Pow2(k) - 1 - z)) == Bitwise(ChooseLast, x, y, z, k)
  {
    if k == 0 {
    } else {
      var n := Pow2(k) - 1 - z;
      assert n / 2 == Pow2(k - 1) - 1 - z / 2 && n % 2 != z % 2;
      ChooseLastDigits(x / 2, y / 2, z / 2, k - 1);
      AndDigit(x, z);
      AndDigit(y, n);
      OrDigit(And(x, z), And(y, n));
    }
  }

  lemma {:induction false} ParityDigits(x: nat, y: nat, z: nat, k: nat)
    requires x < Pow2(k) && y < Pow2(k) && z < Pow2(k)
    ensures Xor(Xor(x, y), z) == Bitwise(Parity, x, y, z, k)
  {
    if k == 0 {
    } else {
      ParityDigits(x / 2, y / 2, z / 2, k - 1);
      XorDigit(x, y);
      XorDigit(Xor(x, y), z);
    }
  }

  lemma {:induction false} OrNotDigits(x: nat, y: nat, z: nat, k: nat)
    requires x < Pow2(k) && y < Pow2(k) && z < Pow2(k)
    ensures Xor(y, Or(x, Pow2(k) - 1 - z)) == Bitwise(OrNot, x, y, z, k)
  {
    if k == 0 {
    } else {
      var n := Pow2(k) - 1 - z;
      assert n / 2 == Pow2(k - 1) - 1 - z / 2 && n % 2 != z % 2;
      OrNotDigits(x / 2, y / 2, z / 2, k - 1);
      OrDigit(x, n);
      XorDigit(y, Or(x, n));
    }
  }

  /** The four basic functions compute the truth tables of RFC 1321 in every bit position. */
  lemma BasicFunctionsAreRfc(x: word, y: word, z: word)
    ensures F(x, y, z) == Mix(0, x, y, z)
    ensures G(x, y, z) == Mix(1, x, y, z)
    ensures H(x, y, z) == Mix(2, x, y, z)
    ensures I(x, y, z) == Mix(3, x, y, z)
  {
    Pow2Values();
    ChooseDigits(x, y, z, 32);
    ChooseLastDigits(x, y, z, 32);
    ParityDigits(x, y, z, 32);
    OrNotDigits(x, y, z, 32);
  }

  /** Shifting both ways and or-ing is a circular shift. */
  lemma RotateLeftIsRfc(x: word, n: nat)
    requires 0 < n < 32
    ensures RotateLeft(x, n) == RotL(x, n)
  {
    hide Pow2, Or;
    Pow2Add(32 - n, n);
    Pow2Values();
    SplitBound(x, Pow2(32 - n), Pow2(n));
    ShiftTruncate(x, Pow2(32 - n), Pow2(n));
    OrDisjoint(x % Pow2(32 - n), x / Pow2(32 - n), n);
  }
  // ----- One step, and the sixteen steps of each round -----

  lemma AddMany(a: word, m: word, x: word, t: word)
    ensures (a + m + x + t) % U32 == Add(Add(Add(a, m), x), t)
  {
    AddModulo(a + m, x);
    AddModulo(a + m + x, t);
  }

  lemma AddModulo(x: nat, y: nat)
    ensures (x % U32 + y) % U32 == (x + y) % U32
  {
    assert x == U32 * (x / U32) + x % U32;
  }

  method FF(a: word, b: word, c: word, d: word, x: word, s: nat, ac: word) returns (a': word)
    requires 0 < s < 32
    ensures a' == Operation(0, a, b, c, d, x, s, ac)
  {
    hide F, Mix, RotateLeft, RotL;
    BasicFunctionsAreRfc(b, c, d);
    AddMany(a, F(b, c, d), x, ac);
    RotateLeftIsRfc((a + F(b, c, d) + x + ac) % U32, s);
    a' := (RotateLeft((a + F(b, c, d) + x + ac) % U32, s) + b) % U32;
  }

  method GG(a: word, b: word, c: word, d: word, x: word, s: nat, ac: word) returns (a': word)
    requires 0 < s < 32
    ensures a' == Operation(1, a, b, c, d, x, s, ac)
  {
    hide G, Mix, RotateLeft, RotL;
    BasicFunctionsAreRfc(b, c, d);
    AddMany(a, G(b, c, d), x, ac);
    RotateLeftIsRfc((a + G(b, c, d) + x + ac) % U32, s);
    a' := (RotateLeft((a + G(b, c, d) + x + ac) % U32, s) + b) % U32;
  }

  method HH(a: word, b: word, c: word, d: word, x: word, s: nat, ac: word) returns (a': word)
    requires 0 < s < 32
    ensures a' == Operation(2, a, b, c, d, x, s, ac)
  {
    hide H, Mix, RotateLeft, RotL;
    BasicFunctionsAreRfc(b, c, d);
    AddMany(a, H(b, c, d), x, ac);
    RotateLeftIsRfc((a + H(b, c, d) + x + ac) % U32, s);
    a' := (RotateLeft((a + H(b, c, d) + x + ac) % U32, s) + b) % U32;
  }

  method II(a: word, b: word, c: word, d: word, x: word, s: nat, ac: word) returns (a': word)
    requires 0 < s < 32
    ensures a' == Operation(3, a, b, c, d, x, s, ac)
  {
    hide I, Mix, RotateLeft, RotL;
    BasicFunctionsAreRfc(b, c, d);
    AddMany(a, I(b, c, d), x, ac);
    RotateLeftIsRfc((a + I(b, c, d) + x + ac) % U32, s);
    a' := (RotateLeft((a + I(b, c, d) + x + ac) % U32, s) + b) % U32;
  }

  method Round1(r: Regs, x: seq<word>) returns (r': Regs)
    requires |x| == 16
    ensures r' == Round(0, r, x)
  {
    hide Operation;
    var a, b, c, d := r.a, r.b, r.c, r.d;
    a := FF(a, b, c, d, x[0], 7, 0xd76aa478);
    d := FF(d, a, b, c, x[1], 12, 0xe8c7b756);
    c := FF(c, d, a, b, x[2], 17, 0x242070db);
    b := FF(b, c, d, a, x[3], 22, 0xc1bdceee);
    assert Steps(0, 4, r, x) == Regs(a, b, c, d);
    a := FF(a, b, c, d, x[4], 7, 0xf57c0faf);
    d := FF(d, a, b, c, x[5], 12, 0x4787c62a);
    c := FF(c, d, a, b, x[6], 17, 0xa8304613);
    b := FF(b, c, d, a, x[7], 22, 0xfd469501);
    assert Steps(0, 8, r, x) == Regs(a, b, c, d);
    a := FF(a, b, c, d, x[8], 7, 0x698098d8);
    d := FF(d, a, b, c, x[9], 12, 0x8b44f7af);
    c := FF(c, d, a, b, x[10], 17, 0xffff5bb1);
    b := FF(b, c, d, a, x[11], 22, 0x895cd7be);
    assert Steps(0, 12, r, x) == Regs(a, b, c, d);
    a := FF(a, b, c, d, x[12], 7, 0x6b901122);
    d := FF(d, a, b, c, x[13], 12, 0xfd987193);
    c := FF(c, d, a, b, x[14], 17, 0xa679438e);
    b := FF(b, c, d, a, x[15], 22, 0x49b40821);
    assert Steps(0, 16, r, x) == Regs(a, b, c, d);
    r' := Regs(a, b, c, d);
  }

  method Round2(r: Regs, x: seq<word>) returns (r': Regs)
    requires |x| == 16
    ensures r' == Round(1, r, x)
  {
    hide Operation;
    var a, b, c, d := r.a, r.b, r.c, r.d;
    a := GG(a, b, c, d, x[1], 5, 0xf61e2562);
    d := GG(d, a, b, c, x[6], 9, 0xc040b340);
    c := GG(c, d, a, b, x[11], 14, 0x265e5a51);
    b := GG(b, c, d, a, x[0], 20, 0xe9b6c7aa);
    assert Steps(1, 4, r, x) == Regs(a, b, c, d);
    a := GG(a, b, c, d, x[5], 5, 0xd62f105d);
    d := GG(d, a, b, c, x[10], 9, 0x2441453);
    c := GG(c, d, a, b, x[15], 14, 0xd8a1e681);
    b := GG(b, c, d, a, x[4], 20, 0xe7d3fbc8);
    assert Steps(1, 8, r, x) == Regs(a, b, c, d);
    a := GG(a, b, c, d, x[9], 5, 0x21e1cde6);
    d := GG(d, a, b, c, x[14], 9, 0xc33707d6);
    c := GG(c, d, a, b, x[3], 14, 0xf4d50d87);
    b := GG(b, c, d, a, x[8], 20, 0x455a14ed);
    assert Steps(1, 12, r, x) == Regs(a, b, c, d);
    a := GG(a, b, c, d, x[13], 5, 0xa9e3e905);
    d := GG(d, a, b, c, x[2], 9, 0xfcefa3f8);
    c := GG(c, d, a, b, x[7], 14, 0x676f02d9);
    b := GG(b, c, d, a, x[12], 20, 0x8d2a4c8a);
    assert Steps(1, 16, r, x) == Regs(a, b, c, d);
    r' := Regs(a, b, c, d);
  }

  method Round3(r: Regs, x: seq<word>) returns (r': Regs)
    requires |x| == 16
    ensures r' == Round(2, r, x)
  {
    hide Operation;
    var a, b, c, d := r.a, r.b, r.c, r.d;
    a := HH(a, b, c, d, x[5], 4, 0xfffa3942);
    d := HH(d, a, b, c, x[8], 11, 0x8771f681);
    c := HH(c, d, a, b, x[11], 16, 0x6d9d6122);
    b := HH(b, c, d, a, x[14], 23, 0xfde5380c);
    assert Steps(2, 4, r, x) == Regs(a, b, c, d);
    a := HH(a, b, c, d, x[1], 4, 0xa4beea44);
    d := HH(d, a, b, c, x[4], 11, 0x4bdecfa9);
    c := HH(c, d, a, b, x[7], 16, 0xf6bb4b60);
    b := HH(b, c, d, a, x[10], 23, 0xbebfbc70);
    assert Steps(2, 8, r, x) == Regs(a, b, c, d);
    a := HH(a, b, c, d, x[13], 4, 0x289b7ec6);
    d := HH(d, a, b, c, x[0], 11, 0xeaa127fa);
    c := HH(c, d, a, b, x[3], 16, 0xd4ef3085);
    b := HH(b, c, d, a, x[6], 23, 0x4881d05);
    assert Steps(2, 12, r, x) == Regs(a, b, c, d);
    a := HH(a, b, c, d, x[9], 4, 0xd9d4d039);
    d := HH(d, a, b, c, x[12], 11, 0xe6db99e5);
    c := HH(c, d, a, b, x[15], 16, 0x1fa27cf8);
    b := HH(b, c, d, a, x[2], 23, 0xc4ac5665);
    assert Steps(2, 16, r, x) == Regs(a, b, c, d);
    r' := Regs(a, b, c, d);
  }

  method Round4(r: Regs, x: seq<word>) returns (r': Regs)
    requires |x| == 16
    ensures r' == Round(3, r, x)
  {
    hide Operation;
    var a, b, c, d := r.a, r.b, r.c, r.d;
    a := II(a, b, c, d, x[0], 6, 0xf4292244);
    d := II(d, a, b, c, x[7], 10, 0x432aff97);
    c := II(c, d, a, b, x[14], 15, 0xab9423a7);
    b := II(b, c, d, a, x[5], 21, 0xfc93a039);
    assert Steps(3, 4, r, x) == Regs(a, b, c, d);
    a := II(a, b, c, d, x[12], 6, 0x655b59c3);
    d := II(d, a, b, c, x[3], 10, 0x8f0ccc92);
    c := II(c, d, a, b, x[10], 15, 0xffeff47d);
    b := II(b, c, d, a, x[1], 21, 0x85845dd1);
    assert Steps(3, 8, r, x) == Regs(a, b, c, d);
    a := II(a, b, c, d, x[8], 6, 0x6fa87e4f);
    d := II(d, a, b, c, x[15], 10, 0xfe2ce6e0);
    c := II(c, d, a, b, x[6], 15, 0xa3014314);
    b := II(b, c, d, a, x[13], 21, 0x4e0811a1);
    assert Steps(3, 12, r, x) == Regs(a, b, c, d);
    a := II(a, b, c, d, x[4], 6, 0xf7537e82);
    d := II(d, a, b, c, x[11], 10, 0xbd3af235);
    c := II(c, d, a, b, x[2], 15, 0x2ad7d2bb);
    b := II(b, c, d, a, x[9], 21, 0xeb86d391);
    assert Steps(3, 16, r, x) == Regs(a, b, c, d);
    r' := Regs(a, b, c, d);
  }

  // ----- The two-word bit counter and the block loop -----

  /* The counter holds 8 * bytes on 64 bits. */
  predicate Counts(c0: word, c1: word, bytes: nat) {
    c0 + U32 * c1 == 8 * bytes % U64
  }

  /** Adding a chunk with the manual carry keeps the counter equal to the bit count modulo 2^64,
      and its low word alone yields the byte count modulo the block size. */
  lemma CounterStep(bytes: nat, length: nat, c0: word, c1: word, n0: word, n1: word)
    requires Counts(c0, c1, bytes) && length < U32
    requires n0 == (c0 + 8 * length % U32) % U32
    requires n1 == (c1 + (if n0 < 8 * length % U32 then 1 else 0) + length / 0x2000_0000) % U32
    ensures Counts(n0, n1, bytes + length)
    ensures c0 / 8 % 64 == bytes % 64
  {
    var lo, hi := 8 * length % U32, length / 0x2000_0000;
    assert 8 * length == U32 * hi + lo;
    var carry := if n0 < lo then 1 else 0;
    assert c0 + lo == U32 * carry + n0;
    var sum := c1 + carry + hi;
    var q, r := 8 * bytes / U64, 8 * bytes % U64;
    assert 8 * (bytes + length) == U64 * q + (n0 + U32 * sum);
    assert n0 + U32 * sum == U64 * (sum / U32) + (n0 + U32 * n1);
    DivModUnique(8 * (bytes + length), U64, q + sum / U32, n0 + U32 * n1);
    CounterIndex(bytes, c0, c1);
  }

  lemma CounterIndex(bytes: nat, c0: word, c1: word)
    requires Counts(c0, c1, bytes)
    ensures c0 / 8 % 64 == bytes % 64
  {
    var q := 8 * bytes / U64;
    var high := 0x80_0000 * c1 + 0x80_0000_0000_0000 * q;
    assert 8 * bytes == U64 * q + U32 * c1 + c0;
    DivModUnique(c0, 8, bytes - 64 * high, 0);
    DivModUnique(bytes, 64, high + c0 / 8 / 64, c0 / 8 % 64);
  }

  lemma CounterBytes(count: seq<word>, bytes: nat)
    requires |count| == 2 && Counts(count[0], count[1], bytes)
    ensures Bytes(count) == LengthBytes(8 * bytes)
  {
    hide Bytes;
    var q := 8 * bytes / U64;
    assert 8 * bytes == U32 * (count[1] + U32 * q) + count[0];
    assert 8 * bytes / U32 == count[1] + U32 * q;
    assert count == [8 * bytes % U32, 8 * bytes / U32 % U32];
  }

  lemma PaddingSlice(padding: seq<byte>, bytes: nat, padLen: nat)
    requires padding == [0x80] + Zeros(63)
    requires padLen == if bytes % 64 < 56 then 56 - bytes % 64 else 120 - bytes % 64
    ensures padLen <= 64 && padding[..padLen] == Padding(bytes)
  {
    assert (55 - bytes) % 64 == padLen - 1 by {
      DivModUnique(55 - bytes, 64, (if bytes % 64 < 56 then 0 else -1) - bytes / 64, padLen - 1);
    }
  }

  // ----- A message is its whole blocks followed by a tail -----

  function Whole(m: seq<byte>): seq<byte> { m[..|m| - |m| % 64] }
  function Tail(m: seq<byte>): (t: seq<byte>)
    ensures |t| == |m| % 64
  {
    m[|m| - |m| % 64..]
  }

  lemma SplitAt(m: seq<byte>, k: nat)
    requires k <= |m| < k + 64 && k % 64 == 0
    ensures Whole(m) == m[..k] && Tail(m) == m[k..]
  {
    assert |m| % 64 == |m| - k;
  }

  lemma WholeOfBlocks(m: seq<byte>)
    requires |m| % 64 == 0
    ensures Whole(m) == m
  {
  }

  lemma ChainShort(h: Regs, m: seq<byte>)
    requires |m| < 64
    ensures Chain(h, m) == h
  {
    hide Compress;
  }

  lemma NothingAbsorbed(h: Regs, m: seq<byte>)
    requires |m| == 0
    ensures Chain(h, Whole(m)) == h && Tail(m) == [] && Counts(0, 0, |m|)
  {
    hide Chain;
    ChainShort(h, Whole(m));
  }

  lemma WholeFacts(m: seq<byte>, n: seq<byte>)
    ensures |Whole(m)| % 64 == 0 && m == Whole(m) + Tail(m)
    ensures |Tail(m)| + |n| < 64 ==> Whole(m + n) == Whole(m) && Tail(m + n) == Tail(m) + n
  {
    var w := |m| - |m| % 64;
    assert w % 64 == 0;
    if |Tail(m)| + |n| < 64 {
      SplitAt(m + n, w);
      assert (m + n)[..w] == m[..w] && (m + n)[w..] == m[w..] + n;
    }
  }

  /** `i + blocksize` is computed on 32 bits.  At the position where no whole block is left the
      guard of the block loop is false, as intended, exactly for the lengths accepted here. */
  predicate Fits(index: nat, length: nat)
    requires index < 64
  {
    length < U32 - 64 + (64 - index) % 64
  }

  /* The guard of the block loop at position i. */
  predicate Guard(length: nat, i: nat) {
    (i + 64) % U32 <= length
  }

  lemma LoopStopsIff(index: nat, length: nat, i: nat)
    requires index < 64 && length < U32
    requires (index + i) % 64 == 0 && i <= length < i + 64
    ensures Fits(index, length) <==> !Guard(length, i)
  {
    var r, m := (64 - index) % 64, (index + i) / 64;
    var q := if index == 0 then m else m - 1;
    assert i == 64 * q + r;
  }

  /* Where the loop is before its k-th turn, counted from zero; it starts behind the bytes that filled the buffer. */
  function Position(index: nat, k: nat): int {
    64 - index + 64 * k
  }

  /* The k-th turn takes place: the guard held before it and before all earlier ones.  Up to a position past the
     end of the chunk, which is below 2^32, the position itself does not wrap. */
  ghost predicate Turn(index: nat, length: nat, k: nat)
    requires index < 64
  {
    forall j: nat :: j <= k ==> Guard(length, Position(index, j))
  }

  /** The loop never transforms bytes past the end of the chunk if and only if the chunk is within the bound:
      beyond it the loop does reach the position where no whole block is left, and goes on. */
  lemma LoopInBoundsIff(index: nat, length: nat)
    requires index < 64 && 64 - index <= length < U32
    ensures (forall k: nat :: Turn(index, length, k) ==> Position(index, k) + 64 <= length) <==> Fits(index, length)
  {
    hide Fits;
    var last := (length - (64 - index)) / 64;
    var i := Position(index, last);
    assert (index + i) % 64 == 0 && i <= length < i + 64;
    LoopStopsIff(index, length, i);
    if Fits(index, length) {
      forall k: nat | Turn(index, length, k)
        ensures Position(index, k) + 64 <= length
      {
        EarlierTurn(index, length, k, last);
      }
    } else {
      forall j: nat | j <= last ensures Guard(length, Position(index, j)) {
        if j < last {
          GuardBefore(index, length, j, last);
        }
      }
      assert Turn(index, length, last) && i + 64 > length;
    }
  }

  lemma EarlierTurn(index: nat, length: nat, k: nat, last: nat)
    requires index < 64 && Turn(index, length, k) && !Guard(length, Position(index, last))
    ensures k < last
  {
  }

  lemma GuardBefore(index: nat, length: nat, j: nat, last: nat)
    requires index < 64 && j < last && Position(index, last) <= length < U32
    ensures Guard(length, Position(index, j))
  {
  }

  lemma BlockGuard(index: nat, length: nat, i: nat)
    requires index < 64 && Fits(index, length) && length < U32
    requires (index + i) % 64 == 0 && i <= length
    ensures i + 64 < U32
  {
    var r, m := (64 - index) % 64, (index + i) / 64;
    var q := if index == 0 then m else m - 1;
    assert i == 64 * q + r;
  }

  lemma ChainBlock(h: Regs, m: seq<byte>, block: seq<byte>)
    requires |m| % 64 == 0 && |block| == 64
    ensures Chain(h, m + block) == Compress(Chain(h, m), block)
  {
    hide Compress;
    ChainAppend(h, m, block);
    assert block[..64] == block && block[64..] == [];
    assert Chain(Chain(h, m), block) == Chain(Compress(Chain(h, m), block), []);
  }

  // ----- Copying and converting between bytes and words -----

  method CopyInto(output: array<byte>, at: nat, input: seq<byte>)
    requires at + |input| <= output.Length
    modifies output
    ensures output[..] == old(output[..at]) + input + old(output[at + |input|..])
  {
    forall k | 0 <= k < |input| { output[at + k] := input[k]; }
  }

  method Decode(output: array<word>, input: seq<byte>, length: nat)
    requires length == |input| == 4 * output.Length
    modifies output
    ensures output[..] == Words(input)
  {
    hide Or, Shl, WordOf;
    var i, j := 0, 0;
    while j < length
      invariant 0 <= i <= output.Length && j == 4 * i
      invariant output[..i] == Words(input)[..i]
    {
      var quad := input[j..j + 4];
      ByteOrs(quad);
      assert Words(input)[i] == WordOf(quad);
      output[i] := Or(Or(Or(quad[0], Shl(quad[1], 8)), Shl(quad[2], 16)), Shl(quad[3], 24));
      i, j := i + 1, j + 4;
    }
  }

  method Encode(output: array<byte>, input: seq<word>, length: nat)
    requires length == output.Length == 4 * |input|
    modifies output
    ensures output[..] == Bytes(input)
  {
    hide And, Shr, WordBytes;
    var i, j := 0, 0;
    while j < length
      invariant 0 <= i <= |input| && j == 4 * i
      invariant output[..j] == Bytes(input[..i])
    {
      ByteMasks(input[i]);
      output[j] := And(input[i], 0xff);
      output[j + 1] := And(Shr(input[i], 8), 0xff);
      output[j + 2] := And(Shr(input[i], 16), 0xff);
      output[j + 3] := And(Shr(input[i], 24), 0xff);
      assert output[j..j + 4] == WordBytes(input[i]);
      assert input[..i + 1][..i] == input[..i];
      i, j := i + 1, j + 4;
    }
    assert input[..i] == input;
  }

  // ----- Hexadecimal output -----

  function HexDigit(n: nat): char
    requires n < 16
  {
    if n < 10 then '0' + n as char else 'a' + (n - 10) as char
  }

  function Hex(b: seq<byte>): (s: string)
    ensures |s| == 2 * |b|
  {
    if |b| == 0 then "" else Hex(b[..|b| - 1]) + [HexDigit(b[|b| - 1] / 16), HexDigit(b[|b| - 1] % 16)]
  }

  /** The hexadecimal text determines the bytes. */
  lemma {:induction false} HexInjective(a: seq<byte>, b: seq<byte>)
    requires Hex(a) == Hex(b)
    ensures a == b
  {
    if |a| == 0 {
    } else {
      var n := |a| - 1;
      var s, t := Hex(a), Hex(b);
      assert s[..2 * n] == Hex(a[..n]) && t[..2 * n] == Hex(b[..n]);
      assert s[2 * n] == t[2 * n] && s[2 * n + 1] == t[2 * n + 1];
      HexInjective(a[..n], b[..n]);
      assert a[n] == b[n];
      assert a == a[..n] + [a[n]] && b == b[..n] + [b[n]];
    }
  }

  /* Where a character first stands in a text. */
  function Place(c: char, text: string): nat {
    if |text| == 0 || text[0] == c then 0 else 1 + Place(c, text[1..])
  }

  /* s writes every byte of b as two digits, the high-order one first. */
  predicate Spells(s: string, b: seq<byte>) {
    && |s| == 2 * |b| && (forall i :: 0 <= i < |s| ==> s[i] in "0123456789abcdef")
    && forall i :: 0 <= i < |b| ==>
         16 * Place(s[2 * i], "0123456789abcdef") + Place(s[2 * i + 1], "0123456789abcdef") == b[i]
  }

  lemma {:induction false} HexSpells(b: seq<byte>)
    ensures Spells(Hex(b), b)
  {
    if |b| == 0 {
    } else {
      var n := |b| - 1;
      var x: nat := b[n];
      HexSpells(b[..n]);
      DigitPlace(x / 16);
      DigitPlace(x % 16);
      assert b == b[..n] + [b[n]];
      SpellsSnoc(Hex(b[..n]), b[..n], HexDigit(x / 16), HexDigit(x % 16), b[n]);
    }
  }

  lemma SpellsSnoc(s: string, b: seq<byte>, hi: char, lo: char, x: byte)
    requires Spells(s, b) && hi in "0123456789abcdef" && lo in "0123456789abcdef"
    requires 16 * Place(hi, "0123456789abcdef") + Place(lo, "0123456789abcdef") == x
    ensures Spells(s + [hi, lo], b + [x])
  {
    hide Place;
    var t := s + [hi, lo];
    forall i | 0 <= i < |t| ensures t[i] in "0123456789abcdef" {
      if i < |s| { assert t[i] == s[i]; }
    }
    forall i | 0 <= i < |b| + 1
      ensures 16 * Place(t[2 * i], "0123456789abcdef") + Place(t[2 * i + 1], "0123456789abcdef") == (b + [x])[i]
    {
      if i < |b| { assert t[2 * i] == s[2 * i] && t[2 * i + 1] == s[2 * i + 1]; }
    }
  }

  lemma DigitPlace(n: nat)
    requires n < 16
    ensures HexDigit(n) in "0123456789abcdef" && Place(HexDigit(n), "0123456789abcdef") == n
  {
    var text := "0123456789abcdef";
    assert HexDigit(n) == text[n];
    PlaceOf(text, n);
  }

  lemma {:induction false} PlaceOf(text: string, n: nat)
    requires n < |text| && forall i, j :: 0 <= i < j < |text| ==> text[i] != text[j]
    ensures Place(text[n], text) == n
  {
    if n == 0 {
    } else {
      assert text[0] != text[n];
      PlaceOf(text[1..], n - 1);
    }
  }

  // ----- The context -----

  /* The part of a text that is left when its length is taken on 32 bits. */
  function Truncated(text: seq<byte>): (t: seq<byte>)
    ensures |t| < U32
  {
    text[..|text| % U32]
  }

  class Context {
    var finalized: bool
    const buffer: array<byte>  // bytes that did not fill a block yet
    const count: array<word>   // number of bits, low word first
    const state: array<word>
    const digest: array<byte>

    ghost var start: Regs      // chaining value from which msg was absorbed
    ghost var msg: seq<byte>   // all bytes absorbed since then

    ghost predicate Valid()
      reads this, buffer, count, state, digest
    {
      && buffer.Length == 64 && count.Length == 2 && state.Length == 4 && digest.Length == 16
      && buffer != digest && count != state
      && Counts(count[0], count[1], |msg|)
      && buffer[..|msg| % 64] == Tail(msg)
      && State() == Chain(start, Whole(msg))
      && (!finalized ==> start == INITIAL)
    }

    function State(): Regs
      requires state.Length == 4
      reads state
    {
      Regs(state[0], state[1], state[2], state[3])
    }

    constructor ()
      ensures Valid() && !finalized && msg == []
      ensures fresh(buffer) && fresh(count) && fresh(state) && fresh(digest)
      ensures digest[..] == Zeros(16)
    {
      finalized := false;
      buffer := new byte[64](_ => 0);
      count := new word[2](_ => 0);
      state := new word[] [0x67452301, 0xefcdab89, 0x98badcfe, 0x10325476];
      digest := new byte[16](_ => 0);
      start, msg := INITIAL, [];
    }

    /* The shortcut constructor: the length of the text is truncated to 32 bits on the way to Update. */
    constructor FromText(text: seq<byte>)
      requires Fits(0, |Truncated(text)|)
      ensures Valid() && finalized
      ensures fresh(buffer) && fresh(count) && fresh(state) && fresh(digest)
      ensures digest[..] == Digest(Truncated(text))
    {
      finalized := false;
      buffer := new byte[64](_ => 0);
      count := new word[2](_ => 0);
      state := new word[] [0x67452301, 0xefcdab89, 0x98badcfe, 0x10325476];
      digest := new byte[16](_ => 0);
      start, msg := INITIAL, [];
      new;
      var chunk := Truncated(text);
      assert [] + chunk == chunk;
      assert Valid();
      hide *;
      Update(chunk);
      Finalize();
    }

    method Transform(block: seq<byte>)
      requires state.Length == 4 && |block| == 64
      modifies state
      ensures State() == Compress(old(State()), block)
    {
      hide Round;
      var x := new word[16];
      Decode(x, block, 64);
      assert x[..] == Words(block);
      var a, b, c, d := state[0], state[1], state[2], state[3];
      var r := Round1(Regs(a, b, c, d), x[..]);
      r := Round2(r, x[..]);
      r := Round3(r, x[..]);
      r := Round4(r, x[..]);
      state[0] := (state[0] + r.a) % U32;
      state[1] := (state[1] + r.b) % U32;
      state[2] := (state[2] + r.c) % U32;
      state[3] := (state[3] + r.d) % U32;
      forall k | 0 <= k < 16 { x[k] := 0; }
    }

    /* The counter update at the head of Update. */
    method CountBits(ghost bytes: nat, length: nat)
      requires count.Length == 2 && length < U32
      requires Counts(count[0], count[1], bytes)
      modifies count
      ensures Counts(count[0], count[1], bytes + length)
      ensures old(count[0]) / 8 % 64 == bytes % 64
    {
      Pow2Values();
      var bits := Shl(length, 3) % U32;
      ghost var c0: nat, c1: nat := count[0], count[1];
      count[0] := (count[0] + bits) % U32;
      if count[0] < bits {
        count[1] := (count[1] + 1) % U32;
        AddModulo(c1 + 1, Shr(length, 29));
      }
      count[1] := (count[1] + Shr(length, 29)) % U32;
      CounterStep(bytes, length, c0, c1, count[0], count[1]);
    }

    /* The part of Update that completes the buffered block and then transforms whole blocks of the
       chunk in place; i is where the unprocessed rest of the chunk begins. */
    method AbsorbBlocks(input: seq<byte>, index: nat) returns (i: nat)
      requires buffer.Length == 64 && state.Length == 4
      requires index == |msg| % 64 && 64 - index <= |input| < U32 && Fits(index, |input|)
      requires buffer[..index] == Tail(msg) && State() == Chain(start, Whole(msg))
      modifies buffer, state
      ensures i <= |input| && Tail(msg + input) == input[i..]
      ensures State() == Chain(start, Whole(msg + input))
    {
      hide Compress, Chain, Whole, Tail;
      var length, firstPart := |input|, 64 - index;
      ghost var n, all := |msg|, msg + input;
      WholeFacts(msg, input);
      CopyInto(buffer, index, input[..firstPart]);
      ghost var block := buffer[..];
      assert all[..n + firstPart] == Whole(msg) + block;
      ChainBlock(start, Whole(msg), block);
      Transform(buffer[..]);

      i := firstPart;
      BlockGuard(index, length, i);
      while (i + BLOCK_SIZE) % U32 <= length
        invariant firstPart <= i <= length && (index + i) % 64 == 0 && (n + i) % 64 == 0
        invariant i + 64 < U32
        invariant State() == Chain(start, all[..n + i])
        decreases length - i
      {
        assert all[..n + (i + 64)] == all[..n + i] + input[i..i + 64];
        ChainBlock(start, all[..n + i], input[i..i + 64]);
        Transform(input[i..i + BLOCK_SIZE]);
        i := i + BLOCK_SIZE;
        BlockGuard(index, length, i);
      }
      SplitAt(all, n + i);
      assert all[n + i..] == input[i..];
    }

    method Update(input: seq<byte>)
      requires Valid() && |input| < U32 && Fits(|msg| % 64, |input|)
      modifies this`msg, buffer, count, state
      ensures Valid() && msg == old(msg) + input
      ensures start == old(start) && finalized == old(finalized) && digest[..] == old(digest[..])
    {
      hide Compress, Chain, Whole, Tail, Counts, Fits;
      var length := |input|;
      CounterIndex(|msg|, count[0], count[1]);
      var index := count[0] / 8 % BLOCK_SIZE;
      CountBits(|msg|, length);
      WholeFacts(msg, input);

      var i := 0;
      if length >= 64 - index {
        i := AbsorbBlocks(input, index);
        index := 0;
      }
      assert Tail(msg + input) == buffer[..index] + input[i..];
      CopyInto(buffer, index, input[i..]);
      msg := msg + input;
    }

    /* The part of Finalize that pads: Update is applied to a slice of the padding block and to the
       bit count taken before padding. */
    method AbsorbPadding()
      requires Valid()
      modifies this`msg, buffer, count, state
      ensures Valid() && msg == Pad(old(msg))
      ensures start == old(start) && finalized == old(finalized) && digest[..] == old(digest[..])
    {
      hide Compress, Chain, LengthBytes, Counts, Whole, Tail;
      var padding: seq<byte> := [0x80] + seq(63, _ => 0);
      var bits := new byte[8];
      Encode(bits, count[..], 8);
      CounterBytes(count[..], |msg|);
      var suffix := bits[..];

      var index := count[0] / 8 % 64;
      CounterIndex(|msg|, count[0], count[1]);
      var padLen := if index < 56 then 56 - index else 120 - index;
      PaddingSlice(padding, |msg|, padLen);
      Update(padding[..padLen]);
      Update(suffix);
    }

    method Clear()
      requires buffer.Length == 64 && count.Length == 2
      modifies buffer, count
      ensures buffer[..] == Zeros(64) && count[..] == Zeros(2)
    {
      forall k | 0 <= k < 64 { buffer[k] := 0; }
      forall k | 0 <= k < 2 { count[k] := 0; }
    }

    method Finalize()
      requires Valid()
      modifies this, buffer, count, state, digest
      ensures Valid() && finalized
      ensures !old(finalized) ==> digest[..] == Digest(old(msg)) && msg == []
      ensures !old(finalized) ==> buffer[..] == Zeros(64) && count[..] == Zeros(2)
      ensures old(finalized) ==> digest[..] == old(digest[..]) && buffer[..] == old(buffer[..])
      ensures old(finalized) ==> count[..] == old(count[..]) && state[..] == old(state[..]) && msg == old(msg)
    {
      hide Compress, Pad, Bytes, Chain, Whole, Tail, Counts;
      if !finalized {
        AbsorbPadding();
        WholeOfBlocks(msg);
        ghost var last := state[..];
        assert last == [state[0], state[1], state[2], state[3]];
        Encode(digest, state[..], 16);
        Clear();
        assert count[0] == count[..][0] && count[1] == count[..][1];
        finalized := true;
        start, msg := State(), [];
        NothingAbsorbed(start, msg);
      }
    }

    method HexDigest() returns (s: string)
      requires Valid()
      ensures s == if finalized then Hex(digest[..]) else ""
      ensures finalized ==> |s| == 32 && Spells(s, digest[..])
    {
      if !finalized {
        return "";
      }
      s := "";
      for i := 0 to 16
        invariant s == Hex(digest[..i])
      {
        assert digest[..i + 1][..i] == digest[..i];
        s := s + [HexDigit(digest[i] / 16), HexDigit(digest[i] % 16)];
      }
      assert digest[..16] == digest[..];
      HexSpells(digest[..]);
    }
  }

  // ----- Whole runs -----

  datatype Call = Feed(chunk: seq<byte>) | Finish

  predicate Finishes(calls: seq<Call>) {
    Finish in calls
  }

  /* The bytes fed before the first Finish. */
  function Absorbed(calls: seq<Call>): seq<byte> {
    if |calls| == 0 then []
    else
      var before, last := calls[..|calls| - 1], calls[|calls| - 1];
      Absorbed(before) + (if last.Feed? && !Finishes(before) then last.chunk else [])
  }

  /* How many bytes the context has absorbed since it was created or first finished. */
  function Since(calls: seq<Call>): nat {
    if |calls| == 0 then 0
    else
      var before := calls[..|calls| - 1];
      match calls[|calls| - 1]
      case Feed(chunk) => Since(before) + |chunk|
      case Finish => if Finishes(before) then Since(before) else 0
  }

  /* In every call to Update the block loop stops where it should. */
  predicate Admissible(calls: seq<Call>) {
    |calls| > 0 ==>
      var before, last := calls[..|calls| - 1], calls[|calls| - 1];
      Admissible(before) && (last.Feed? ==> |last.chunk| < U32 && Fits(Since(before) % 64, |last.chunk|))
  }

  lemma {:induction false} AdmissiblePrefix(calls: seq<Call>, k: nat)
    requires Admissible(calls) && k <= |calls|
    ensures Admissible(calls[..k])
  {
    if k == |calls| {
      assert calls[..k] == calls;
    } else {
      var before := calls[..|calls| - 1];
      AdmissiblePrefix(before, k);
      assert before[..k] == calls[..k];
    }
  }

  lemma LastCall(before: seq<Call>, last: Call)
    ensures var now := before + [last];
            && (Finishes(now) <==> Finishes(before) || last == Finish)
            && Since(now) == (if last.Feed? then Since(before) + |last.chunk|
                              else if Finishes(before) then Since(before) else 0)
            && Absorbed(now) == Absorbed(before) + (if last.Feed? && !Finishes(before) then last.chunk else [])
            && (Admissible(now) && last.Feed? ==> |last.chunk| < U32 && Fits(Since(before) % 64, |last.chunk|))
  {
    hide Fits, Finishes;
    var now := before + [last];
    assert now[..|now| - 1] == before && now[|now| - 1] == last;
    FinishesAppend(before, last);
  }

  lemma FinishesAppend(before: seq<Call>, last: Call)
    ensures Finishes(before + [last]) <==> Finishes(before) || last == Finish
  {
  }

  /* One more call of a run. */
  lemma RunStep(calls: seq<Call>, k: nat)
    requires Admissible(calls) && k < |calls|
    ensures var before, now := calls[..k], calls[..k + 1];
            match calls[k]
            case Feed(chunk) =>
              && |chunk| < U32 && Fits(Since(before) % 64, |chunk|)
              && Since(now) == Since(before) + |chunk| && (Finishes(now) <==> Finishes(before))
              && Absorbed(now) == (if Finishes(before) then Absorbed(before) else Absorbed(before) + chunk)
            case Finish =>
              && Since(now) == (if Finishes(before) then Since(before) else 0)
              && Finishes(now) && Absorbed(now) == Absorbed(before)
  {
    hide Fits, Since, Absorbed, Finishes, Admissible;
    AdmissiblePrefix(calls, k + 1);
    assert calls[..k + 1] == calls[..k] + [calls[k]];
    LastCall(calls[..k], calls[k]);
    assert Absorbed(calls[..k]) + [] == Absorbed(calls[..k]);
  }

  lemma NoCalls()
    ensures Since([]) == 0 && Absorbed([]) == [] && !Finishes([])
  {
  }

  /** Whatever is called on a fresh context, in whatever order, the digest it reports is the RFC 1321
      digest of the bytes fed before the first Finalize, and there is none until Finalize is called. */
  method Drive(calls: seq<Call>) returns (s: string)
    requires Admissible(calls)
    ensures s == if Finishes(calls) then Hex(Digest(Absorbed(calls))) else ""
    ensures Finishes(calls) ==> |s| == 32 && Spells(s, Digest(Absorbed(calls)))
  {
    hide Spells, Digest, Fits, Absorbed, Since, Finishes, Admissible, Hex, Context.Valid;
    var ctx := new Context();
    NoCalls();
    for k := 0 to |calls|
      invariant ctx.Valid() && fresh(ctx) && fresh(ctx.buffer) && fresh(ctx.count)
      invariant fresh(ctx.state) && fresh(ctx.digest)
      invariant ctx.finalized <==> Finishes(calls[..k])
      invariant |ctx.msg| == Since(calls[..k])
      invariant !ctx.finalized ==> ctx.msg == Absorbed(calls[..k])
      invariant ctx.finalized ==> ctx.digest[..] == Digest(Absorbed(calls[..k]))
    {
      RunStep(calls, k);
      match calls[k] {
        case Feed(chunk) => ctx.Update(chunk);
        case Finish => ctx.Finalize();
      }
    }
    assert calls[..|calls|] == calls;
    s := ctx.HexDigest();
  }

  /** Once a run has finished, no further call changes what it reports. */
  lemma {:induction false} SettledAfterFinish(calls: seq<Call>, more: seq<Call>)
    requires Finishes(calls)
    ensures Finishes(calls + more) && Absorbed(calls + more) == Absorbed(calls)
  {
    if |more| == 0 {
      assert calls + more == calls;
    } else {
      var n := |more| - 1;
      SettledAfterFinish(calls, more[..n]);
      assert (calls + more)[..|calls| + n] == calls + more[..n];
    }
  }

  function Feeds(chunks: seq<seq<byte>>): seq<Call> {
    seq(|chunks|, i requires 0 <= i < |chunks| => Feed(chunks[i]))
  }

  /** Feeding a message in any chunking and then finishing absorbs exactly the message. */
  lemma {:induction false} ChunkingAbsorbsAll(chunks: seq<seq<byte>>)
    ensures !Finishes(Feeds(chunks)) && Absorbed(Feeds(chunks)) == Flatten(chunks)
    ensures Absorbed(Feeds(chunks) + [Finish]) == Flatten(chunks)
  {
    var calls := Feeds(chunks);
    if |chunks| == 0 {
    } else {
      var n := |chunks| - 1;
      ChunkingAbsorbsAll(chunks[..n]);
      assert calls[..n] == Feeds(chunks[..n]);
      assert chunks == chunks[..n] + [chunks[n]];
      FlattenAppend(chunks[..n], [chunks[n]]);
      FlattenOne(chunks[n]);
    }
    assert (calls + [Finish])[..|calls|] == calls;
  }
}
