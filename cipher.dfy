/** One IDEA block: four Uint16 words. A round (MakeRound) mixes the block
    with six partial keys; the final transformation (MakeTransfo) with four.
    Encrypting a block runs eight rounds with rows 0..7 of a key table and
    the final transformation with row 8; decrypting does the same with the
    inverted table. The decryption theorem: for any encryption table F and
    any table I that SetMainKey's inversion rules make from it,
    Cipher(I, Cipher(F, b)) == b. */
module BlockCipher {
  import opened Words
  import opened ModArith
  import opened KeySchedule

  type Block = b: seq<Word> | |b| == 4 witness [0, 0, 0, 0]

  /** MakeRound on values, statement by statement. */
  function Round(x: Block, k: seq<Word>): Block
    requires |k| == 6
  {
    var a1 := Mul(x[0], k[0]);
    var a2 := Add16(x[2], k[2]);
    var a3 := Add16(x[1], k[1]);
    var a4 := Mul(x[3], k[3]);
    var a5 := Mul(k[4], XorW(a1, a2));
    var a6 := Mul(k[5], Add16(a5, XorW(a3, a4)));
    var a5' := Add16(a5, a6);
    [XorW(a1, a6), XorW(a6, a2), XorW(a3, a5'), XorW(a5', a4)]
  }

  /** MakeTransfo on values. */
  function Transfo(x: Block, k: seq<Word>): Block
    requires |k| >= 4
  {
    [Mul(k[0], x[0]), Add16(x[2], k[1]), Add16(x[1], k[2]), Mul(k[3], x[3])]
  }

  /** The first half of a round: the key words are mixed in, and the two
      middle words change places. */
  function KeyLayer(x: Block, k: seq<Word>): Block
    requires |k| == 6
  {
    [Mul(x[0], k[0]), Add16(x[2], k[2]), Add16(x[1], k[1]), Mul(x[3], k[3])]
  }

  /** The second half of a round: the multiply-add structure keyed by slots
      4 and 5, whose two outputs are xored into the block. */
  function Mix(y: Block, k: seq<Word>): Block
    requires |k| == 6
  {
    var a5 := Mul(k[4], XorW(y[0], y[1]));
    var a6 := Mul(k[5], Add16(a5, XorW(y[2], y[3])));
    var a5' := Add16(a5, a6);
    [XorW(y[0], a6), XorW(a6, y[1]), XorW(y[2], a5'), XorW(a5', y[3])]
  }

  /** A round is the key layer followed by the mixing layer. */
  lemma RoundSplits(x: Block, k: seq<Word>)
    requires |k| == 6
    ensures Round(x, k) == Mix(KeyLayer(x, k), k)
  {
  }

  /** The mixing layer undoes itself under any key row with the same slots
      4 and 5: the xor of each pair of outputs equals that of the inputs, so
      the second pass recomputes the same masks and xors them out again. */
  lemma MixInvolution(y: Block, k: seq<Word>, k': seq<Word>)
    requires |k| == 6 && |k'| == 6
    requires k'[4] == k[4] && k'[5] == k[5]
    ensures Mix(Mix(y, k), k') == y
  {
    var z := Mix(y, k);
    var a5 := Mul(k[4], XorW(y[0], y[1]));
    var a6 := Mul(k[5], Add16(a5, XorW(y[2], y[3])));
    var a5' := Add16(a5, a6);
    XorCommutes(a6, y[1]);
    XorCancel(y[0], y[1], a6);
    XorCommutes(a5', y[3]);
    XorCancel(y[2], y[3], a5');
    assert XorW(z[0], z[1]) == XorW(y[0], y[1]);
    assert XorW(z[2], z[3]) == XorW(y[2], y[3]);
    XorInvolution(y[0], a6);
    XorInvolution(y[1], a6);
    XorCommutes(a6, Xor(y[1], a6));
    XorInvolution(y[2], a5');
    XorInvolution(y[3], a5');
    XorCommutes(a5', Xor(y[3], a5'));
  }

  /** Number of MakeRound applications before MakeTransfo. */
  const NumRounds: nat := 8

  /** The state after the first n rounds under table S. */
  function Rounds(S: Table, n: nat, x: Block): Block
    requires n <= NumRounds
  {
    if n == 0 then x else Round(Rounds(S, n - 1, x), S[n - 1])
  }

  /** Encrypt and Decrypt on values: eight rounds, then the final
      transformation with row 8. */
  function Cipher(S: Table, x: Block): Block
  {
    Transfo(Rounds(S, NumRounds, x), S[8])
  }

  /** Decrypting starts by undoing the final transformation (row 0 of the
      inverted table holds the inverses of row 8, without the swap). */
  lemma UndoTransfo(F: Table, I: Table, y: Block)
    requires InverseSchedule(F, I)
    ensures KeyLayer(Transfo(y, F[8]), I[0]) == y
  {
    assert InvCell(F, 8, 0, I[0][SlotDest(8, 0)]);
    assert InvCell(F, 8, 1, I[0][SlotDest(8, 1)]);
    assert InvCell(F, 8, 2, I[0][SlotDest(8, 2)]);
    assert InvCell(F, 8, 3, I[0][SlotDest(8, 3)]);
    MulCommutes(F[8][0], y[0]);
    MulCancel(y[0], F[8][0], I[0][0]);
    MulCommutes(F[8][3], y[3]);
    MulCancel(y[3], F[8][3], I[0][3]);
    AddCancel(y[1], F[8][2]);
    AddCancel(y[2], F[8][1]);
  }

  /** Row 8 - m of the inverted table undoes the key layer of round m,
      1 <= m <= 7, the additive keys being stored swapped. */
  lemma UndoKeyLayer(F: Table, I: Table, m: nat, x: Block)
    requires InverseSchedule(F, I)
    requires 1 <= m <= 7
    ensures KeyLayer(KeyLayer(x, F[m]), I[8 - m]) == x
  {
    assert InvCell(F, m, 0, I[8 - m][SlotDest(m, 0)]);
    assert InvCell(F, m, 1, I[8 - m][SlotDest(m, 1)]);
    assert InvCell(F, m, 2, I[8 - m][SlotDest(m, 2)]);
    assert InvCell(F, m, 3, I[8 - m][SlotDest(m, 3)]);
    MulCancel(x[0], F[m][0], I[8 - m][0]);
    MulCancel(x[3], F[m][3], I[8 - m][3]);
    AddCancel(x[1], F[m][1]);
    AddCancel(x[2], F[m][2]);
  }

  /** The final transformation of decryption undoes the key layer of
      encryption round 0. */
  lemma UndoFirstKeyLayer(F: Table, I: Table, x: Block)
    requires InverseSchedule(F, I)
    ensures Transfo(KeyLayer(x, F[0]), I[8]) == x
  {
    assert InvCell(F, 0, 0, I[8][SlotDest(0, 0)]);
    assert InvCell(F, 0, 1, I[8][SlotDest(0, 1)]);
    assert InvCell(F, 0, 2, I[8][SlotDest(0, 2)]);
    assert InvCell(F, 0, 3, I[8][SlotDest(0, 3)]);
    MulCommutes(I[8][0], Mul(x[0], F[0][0]));
    MulCancel(x[0], F[0][0], I[8][0]);
    MulCommutes(I[8][3], Mul(x[3], F[0][3]));
    MulCancel(x[3], F[0][3], I[8][3]);
    AddCancel(x[1], F[0][1]);
    AddCancel(x[2], F[0][2]);
  }

  /** Row 8 - m of the inverted table carries slots 4 and 5 of encryption
      round m - 1. */
  lemma MixKeysMatch(F: Table, I: Table, m: nat)
    requires InverseSchedule(F, I)
    requires 1 <= m <= 8
    ensures I[8 - m][4] == F[m - 1][4] && I[8 - m][5] == F[m - 1][5]
  {
    assert InvCell(F, m, 4, I[8 - m][SlotDest(m, 4)]);
    assert InvCell(F, m, 5, I[8 - m][SlotDest(m, 5)]);
  }

  /** After j decryption rounds the state is encryption state 8 - j with
      only the key layer of round 8 - j applied. */
  lemma {:induction false} DecryptRounds(F: Table, I: Table, x: Block, j: nat)
    requires InverseSchedule(F, I)
    requires 1 <= j <= 8
    ensures Rounds(I, j, Cipher(F, x)) == KeyLayer(Rounds(F, 8 - j, x), F[8 - j])
  {
    var m := 9 - j;
    var prev := Rounds(F, m - 1, x);
    MixKeysMatch(F, I, m);
    RoundSplits(prev, F[m - 1]);
    MixInvolution(KeyLayer(prev, F[m - 1]), F[m - 1], I[j - 1]);
    RoundSplits(Rounds(I, j - 1, Cipher(F, x)), I[j - 1]);
    if j == 1 {
      UndoTransfo(F, I, Rounds(F, 8, x));
    } else {
      DecryptRounds(F, I, x, j - 1);
      UndoKeyLayer(F, I, m, Rounds(F, m, x));
    }
  }

  /** Decrypting with an inverted table undoes encrypting with the table it
      was made from. */
  lemma DecryptEncrypt(F: Table, I: Table, x: Block)
    requires InverseSchedule(F, I)
    ensures Cipher(I, Cipher(F, x)) == x
  {
    DecryptRounds(F, I, x, 8);
    UndoFirstKeyLayer(F, I, x);
  }

  /** MakeRound: reads all four input words before writing any output, so
      `in` and `out` may be the same buffer (Encrypt passes its temporary
      block as both). */
  method MakeRound(inp: array<Word>, out: array<Word>, keys: seq<Word>)
    requires inp.Length == 4 && out.Length == 4 && |keys| == 6
    modifies out
    ensures out[..] == Round(old(inp[..]), keys)
  {
    var a1 := Mul(inp[0], keys[0]);
    var a2 := Add16(inp[2], keys[2]);
    var a3 := Add16(inp[1], keys[1]);
    var a4 := Mul(inp[3], keys[3]);
    var a5 := Mul(keys[4], XorW(a1, a2));
    var a6 := Mul(keys[5], Add16(a5, XorW(a3, a4)));
    a5 := Add16(a5, a6);
    out[0] := XorW(a1, a6);
    out[1] := XorW(a6, a2);
    out[2] := XorW(a3, a5);
    out[3] := XorW(a5, a4);
  }

  /** MakeTransfo: writes out[1] before reading in[1], so it computes the
      transformation only when the two buffers differ (Encrypt and Decrypt
      always pass a temporary block as `in`). */
  method MakeTransfo(inp: array<Word>, out: array<Word>, keys: seq<Word>)
    requires inp.Length == 4 && out.Length == 4 && |keys| >= 4
    modifies out
    ensures inp != out ==> out[..] == Transfo(old(inp[..]), keys)
  {
    out[0] := Mul(keys[0], inp[0]);
    out[1] := Add16(inp[2], keys[1]);
    out[2] := Add16(inp[1], keys[2]);
    out[3] := Mul(keys[3], inp[3]);
  }
}
