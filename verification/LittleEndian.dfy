/** Little-endian layout of 16- and 32-bit words: the low-order byte comes first. */
module LittleEndian {
  import opened Bits

  function HalfOf(b: seq<byte>): (h: nat)
    requires |b| == 2
    ensures h < 0x1_0000
  {
    var lo: nat, hi: nat := b[0], b[1];
    lo + 0x100 * hi
  }

  function HalfBytes(h: nat): (b: seq<byte>)
    requires h < 0x1_0000
    ensures |b| == 2 && HalfOf(b) == h
  {
    [h % 0x100, h / 0x100]
  }

  function WordOf(b: seq<byte>): word
    requires |b| == 4
  {
    HalfOf(b[..2]) + 0x1_0000 * HalfOf(b[2..])
  }

  function WordBytes(w: word): (b: seq<byte>)
    ensures |b| == 4 && WordOf(b) == w
  {
    var lo, hi := HalfBytes(w % 0x1_0000), HalfBytes(w / 0x1_0000);
    assert (lo + hi)[..2] == lo && (lo + hi)[2..] == hi;
    lo + hi
  }

  /** The words of a byte string, four bytes each. */
  function Words(b: seq<byte>): (ws: seq<word>)
    ensures |ws| == |b| / 4
    ensures forall i :: 0 <= i < |ws| ==> ws[i] == WordOf(b[4 * i..4 * i + 4])
  {
    seq(|b| / 4, i requires 0 <= i < |b| / 4 => WordOf(b[4 * i..4 * i + 4]))
  }

  /** The bytes of a list of words, in order. */
  function Bytes(ws: seq<word>): (b: seq<byte>)
    ensures |b| == 4 * |ws|
  {
    if |ws| == 0 then [] else Bytes(ws[..|ws| - 1]) + WordBytes(ws[|ws| - 1])
  }

  lemma {:induction false} BytesAt(ws: seq<word>, i: nat)
    requires i < |ws|
    ensures Bytes(ws)[4 * i..4 * i + 4] == WordBytes(ws[i])
  {
    if i == |ws| - 1 {
    } else {
      BytesAt(ws[..|ws| - 1], i);
      assert Bytes(ws)[4 * i..4 * i + 4] == Bytes(ws[..|ws| - 1])[4 * i..4 * i + 4];
    }
  }

  lemma WordsOfBytes(ws: seq<word>)
    ensures Words(Bytes(ws)) == ws
  {
    forall i | 0 <= i < |ws|
      ensures Words(Bytes(ws))[i] == ws[i]
    {
      BytesAt(ws, i);
    }
  }

  lemma Digits(w: word, b: seq<byte>)
    requires |b| == 4 && w == WordOf(b)
    ensures b[0] == w % 0x100 && b[1] == w / 0x100 % 0x100
    ensures b[2] == w / 0x1_0000 % 0x100 && b[3] == w / 0x100_0000 % 0x100
  {
    var b0: nat, b1: nat, b2: nat, b3: nat := b[0], b[1], b[2], b[3];
    assert w == b0 + 0x100 * b1 + 0x1_0000 * (b2 + 0x100 * b3);
    DivModUnique(w, 0x100, b1 + 0x100 * (b2 + 0x100 * b3), b0);
    DivModUnique(b1 + 0x100 * (b2 + 0x100 * b3), 0x100, b2 + 0x100 * b3, b1);
    DivModUnique(w, 0x1_0000, b2 + 0x100 * b3, b0 + 0x100 * b1);
    DivModUnique(b2 + 0x100 * b3, 0x100, b3, b2);
    DivModUnique(w, 0x100_0000, b3, b0 + 0x100 * b1 + 0x1_0000 * b2);
  }

  /** The four bytes picked out of a word by shifting and masking. */
  lemma ByteMasks(w: word)
    ensures And(w, 0xff) < 0x100 && And(Shr(w, 8), 0xff) < 0x100
    ensures And(Shr(w, 16), 0xff) < 0x100 && And(Shr(w, 24), 0xff) < 0x100
    ensures WordBytes(w) == [And(w, 0xff), And(Shr(w, 8), 0xff), And(Shr(w, 16), 0xff), And(Shr(w, 24), 0xff)]
  {
    Pow2Values();
    AndMask(w, 8);
    AndMask(Shr(w, 8), 8);
    AndMask(Shr(w, 16), 8);
    AndMask(Shr(w, 24), 8);
    Digits(w, WordBytes(w));
  }

  /** The word assembled out of four bytes by shifting and or-ing. */
  lemma ByteOrs(b: seq<byte>)
    requires |b| == 4
    ensures WordOf(b) == Or(Or(Or(b[0], Shl(b[1], 8)), Shl(b[2], 16)), Shl(b[3], 24))
  {
    Pow2Values();
    var b0: nat, b1: nat, b2: nat, b3: nat := b[0], b[1], b[2], b[3];
    OrDisjoint(b1, b0, 8);
    OrDisjoint(b2, b0 + 0x100 * b1, 16);
    OrDisjoint(b3, b0 + 0x100 * b1 + 0x1_0000 * b2, 24);
  }

  /* The number that bytes lo .. lo + n - 1 of b stand for, the low-order byte first. */
  function Number(b: seq<byte>, lo: nat, n: nat): nat
    requires lo + n <= |b|
    decreases n
  {
    if n == 0 then 0
    else
      var low: nat := b[lo];
      low + 256 * Number(b, lo + 1, n - 1)
  }

  lemma PairNumber(b: seq<byte>, lo: nat)
    requires lo + 2 <= |b|
    ensures HalfOf(b[lo..lo + 2]) == Number(b, lo, 2)
  {
    assert Number(b, lo + 2, 0) == 0;
  }

  lemma WordNumber(b: seq<byte>, lo: nat)
    requires lo + 4 <= |b|
    ensures WordOf(b[lo..lo + 4]) == Number(b, lo, 4)
  {
    PairNumber(b, lo);
    PairNumber(b, lo + 2);
    assert b[lo..lo + 4][..2] == b[lo..lo + 2] && b[lo..lo + 4][2..] == b[lo + 2..lo + 4];
    NumberSplit(b, lo, 2, 2);
  }

  lemma {:induction false} NumberSplit(b: seq<byte>, lo: nat, m: nat, n: nat)
    requires lo + m + n <= |b|
    ensures Number(b, lo, m + n) == Number(b, lo, m) + Pow256(m) * Number(b, lo + m, n)
    decreases m
  {
    if m == 0 {
    } else {
      NumberSplit(b, lo + 1, m - 1, n);
      var low: nat := b[lo];
      assert Number(b, lo, m + n) == low + 256 * Number(b, lo + 1, m - 1 + n);
      assert Number(b, lo, m) == low + 256 * Number(b, lo + 1, m - 1);
      Carry(low, Number(b, lo + 1, m - 1), Pow256(m - 1), Number(b, lo + m, n));
    }
  }

  lemma Carry(low: nat, x: nat, p: nat, q: nat)
    ensures low + 256 * (x + p * q) == (low + 256 * x) + (256 * p) * q
  {
  }

  function Pow256(n: nat): nat {
    if n == 0 then 1 else 256 * Pow256(n - 1)
  }

  /** Behind the bytes of a list of words, the numbers they were made of can be read. */
  lemma BytesNumber(ws: seq<word>, i: nat)
    requires i < |ws|
    ensures Number(Bytes(ws), 4 * i, 4) == ws[i]
  {
    hide WordBytes, WordOf, Bytes, Number;
    BytesAt(ws, i);
    WordNumber(Bytes(ws), 4 * i);
  }
}
