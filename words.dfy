/** Machine words of the cipher: 16-bit unsigned words (Uint16), bytes (Uint8),
    the wrapping addition and bitwise exclusive-or that the C code applies to them,
    and the little-endian view of a byte buffer as a word buffer (the program
    refuses to run on a big-endian host, so memcpy between the two always has
    this meaning). */
module Words {

  type Word = x: int | 0 <= x < 0x10000
  type Byte = x: int | 0 <= x < 0x100

  /** Sum of two words stored back into a Uint16: wraps modulo 2^16. */
  function Add16(a: Word, b: Word): Word
  {
    (a + b) % 0x10000
  }

  function Pow2(m: nat): nat
  {
    if m == 0 then 1 else 2 * Pow2(m - 1)
  }

  /** Bitwise exclusive-or of two naturals, one bit at a time from the low end. */
  function Xor(a: nat, b: nat): nat
    decreases a + b
  {
    if a == 0 && b == 0 then 0 else 2 * Xor(a / 2, b / 2) + (a + b) % 2
  }

  /** The `^` operator on Uint16 operands. */
  function XorW(a: Word, b: Word): (r: Word)
  {
    Pow2Of16();
    XorBelow(a, b, 16);
    Xor(a, b)
  }

  lemma Pow2Of16()
    ensures Pow2(16) == 0x10000
  {
    assert Pow2(4) == 16;
    assert Pow2(8) == 256;
    assert Pow2(12) == 4096;
  }

  /** Exclusive-or never sets a bit above the highest bit of its operands. */
  lemma {:induction false} XorBelow(a: nat, b: nat, m: nat)
    requires a < Pow2(m) && b < Pow2(m)
    ensures Xor(a, b) < Pow2(m)
    decreases m
  {
    if a != 0 || b != 0 {
      XorBelow(a / 2, b / 2, m - 1);
    }
  }

  lemma XorSplit(a: nat, b: nat)
    ensures Xor(a, b) / 2 == Xor(a / 2, b / 2)
    ensures Xor(a, b) % 2 == (a + b) % 2
  {
  }

  lemma SameHalves(u: nat, v: nat)
    requires u / 2 == v / 2 && u % 2 == v % 2
    ensures u == v
  {
  }

  lemma ParitySum(x: nat, y: nat, a: nat, b: nat, t: nat)
    requires x % 2 == (a + t) % 2 && y % 2 == (b + t) % 2
    ensures (x + y) % 2 == (a + b) % 2
  {
  }

  lemma {:induction false} XorCommutes(a: nat, b: nat)
    ensures Xor(a, b) == Xor(b, a)
    decreases a + b
  {
    if a + b != 0 {
      XorCommutes(a / 2, b / 2);
      XorSplit(a, b);
      XorSplit(b, a);
      SameHalves(Xor(a, b), Xor(b, a));
    }
  }

  /** Exclusive-or with the same mask twice restores the value. */
  lemma {:induction false} XorInvolution(a: nat, t: nat)
    ensures Xor(Xor(a, t), t) == a
    decreases a + t
  {
    if a + t != 0 {
      var x := Xor(a, t);
      XorSplit(a, t);
      XorSplit(x, t);
      XorInvolution(a / 2, t / 2);
      ParitySum(x, t, a, 0, t);
      SameHalves(Xor(x, t), a);
    }
  }

  /** Masking two values with the same mask leaves their exclusive-or unchanged. */
  lemma {:induction false} XorCancel(a: nat, b: nat, t: nat)
    ensures Xor(Xor(a, t), Xor(b, t)) == Xor(a, b)
    decreases a + b + t
  {
    if a + b + t != 0 {
      var x, y := Xor(a, t), Xor(b, t);
      XorSplit(a, t);
      XorSplit(b, t);
      XorSplit(x, y);
      XorSplit(a, b);
      XorCancel(a / 2, b / 2, t / 2);
      ParitySum(x, y, a, b, t);
      SameHalves(Xor(x, y), Xor(a, b));
    }
  }

  /** Two consecutive bytes of a buffer read as one little-endian Uint16. */
  function WordOf(lo: Byte, hi: Byte): Word
  {
    lo + 0x100 * hi
  }

  /** memcpy of an even number of bytes into a Uint16 buffer. */
  function BytesToWords(b: seq<Byte>): (w: seq<Word>)
    requires |b| % 2 == 0
    ensures |w| == |b| / 2
    ensures forall j :: 0 <= j < |w| ==> w[j] == WordOf(b[2 * j], b[2 * j + 1])
  {
    seq(|b| / 2, j requires 0 <= j < |b| / 2 => WordOf(b[2 * j], b[2 * j + 1]))
  }

  /** memcpy of a Uint16 buffer into a byte buffer: word j lands in bytes
      2j (low half) and 2j + 1 (high half). */
  function WordsToBytes(w: seq<Word>): (b: seq<Byte>)
    ensures |b| == 2 * |w|
    ensures forall j :: 0 <= j < |w| ==> b[2 * j] == w[j] % 0x100 && b[2 * j + 1] == w[j] / 0x100
  {
    seq(2 * |w|, i requires 0 <= i < 2 * |w| => if i % 2 == 0 then w[i / 2] % 0x100 else w[i / 2] / 0x100)
  }

  lemma SplitWord(x: Word)
    ensures WordOf(x % 0x100, x / 0x100) == x
  {
  }

  lemma JoinBytes(lo: Byte, hi: Byte)
    ensures WordOf(lo, hi) % 0x100 == lo && WordOf(lo, hi) / 0x100 == hi
  {
  }

  /** Copying words out to bytes and back loses nothing. */
  lemma WordsBytesWords(w: seq<Word>)
    ensures BytesToWords(WordsToBytes(w)) == w
  {
    var b := WordsToBytes(w);
    var w' := BytesToWords(b);
    forall j | 0 <= j < |w|
      ensures w'[j] == w[j]
    {
      SplitWord(w[j]);
    }
    assert w' == w;
  }

  /** The bytes of whole words have even length, so reading back
      |b| / 2 words reads all of them, and gives the words back. */
  lemma WholeWords(w: seq<Word>)
    ensures var b := WordsToBytes(w); b[..|b| / 2 * 2] == b && BytesToWords(b) == w
  {
    var b := WordsToBytes(w);
    assert |b| / 2 * 2 == |b|;
    WordsBytesWords(w);
  }

  /** Copying bytes in to words and back loses nothing. */
  lemma BytesWordsBytes(b: seq<Byte>)
    requires |b| % 2 == 0
    ensures WordsToBytes(BytesToWords(b)) == b
  {
    var w := BytesToWords(b);
    var b' := WordsToBytes(w);
    forall j | 0 <= j < |w|
      ensures b'[2 * j] == b[2 * j] && b'[2 * j + 1] == b[2 * j + 1]
    {
      JoinBytes(b[2 * j], b[2 * j + 1]);
    }
    forall i | 0 <= i < |b|
      ensures b'[i] == b[i]
    {
      var j := i / 2;
      assert i == 2 * j || i == 2 * j + 1;
    }
  }
}
