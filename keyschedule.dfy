/** The IDEA key schedule: the 128-bit user key, held as eight Uint16 words
    with the most significant word first, is cut into consecutive 16-bit
    subkeys; after every eight subkeys the whole key is rotated left by 25
    bits (ShiftKey). The subkeys fill all 54 slots of nine rows of six;
    the cipher uses 52 of them (the last row only four). The decryption
    subkeys are the inverses of the encryption subkeys, taken in reverse
    round order. */
module KeySchedule {
  import opened Words
  import opened Arith
  import opened ModArith

  type Key = w: seq<Word> | |w| == 8 witness [0, 0, 0, 0, 0, 0, 0, 0]

  /** A table of partial keys: nine rows (eight rounds and the final
      transformation) of six words. */
  type Table = t: seq<seq<Word>> | |t| == 9 && forall r :: 0 <= r < 9 ==> |t[r]| == 6
    witness seq(9, r => seq(6, i => 0))

  const Two103: int := 0x80_0000_0000_0000_0000_0000_0000
  const Two128: int := 0x1_0000_0000_0000_0000_0000_0000_0000_0000

  /** The key as one 128-bit number. */
  function Reg(w: Key): (v: int)
    ensures 0 <= v < Two128
  {
    Reg8(w[0], w[1], w[2], w[3], w[4], w[5], w[6], w[7])
  }

  function Reg8(w0: int, w1: int, w2: int, w3: int, w4: int, w5: int, w6: int, w7: int): int
  {
    w0 * 0x1_0000_0000_0000_0000_0000_0000_0000
    + w1 * 0x1_0000_0000_0000_0000_0000_0000
    + w2 * 0x1_0000_0000_0000_0000_0000
    + w3 * 0x1_0000_0000_0000_0000
    + w4 * 0x1_0000_0000_0000
    + w5 * 0x1_0000_0000
    + w6 * 0x1_0000
    + w7
  }

  /** Rotation of a 128-bit number left by 25 bits. */
  function RotL25(v: int): (r: int)
    requires 0 <= v < Two128
    ensures 0 <= r < Two128
  {
    (v % Two103) * 0x200_0000 + v / Two103
  }

  /** `(x << 9) + hi` stored into a Uint16: the low 7 bits of x become the
      top of the word and hi, a 9-bit value, its bottom. */
  function ShiftIn(x: Word, hi: int): Word
    requires 0 <= hi < 512
  {
    ((x as int) * 512 + hi) % 0x10000
  }

  lemma ShiftInBits(x: Word, hi: int)
    requires 0 <= hi < 512
    ensures ShiftIn(x, hi) == (x % 128) * 512 + hi
  {
    DivModUnique((x as int) * 512 + hi, 0x10000, x / 128, (x % 128) * 512 + hi);
  }

  /** The first loop of ShiftKey: the words move up by one place. */
  function RotateWords(w: Key): Key
  {
    w[1..] + [w[0]]
  }

  /** The second loop of ShiftKey: every word is shifted left by 9 bits and
      takes the top 9 bits of the next word, the last one those of the first. */
  function ShiftBits(r: Key): Key
  {
    [ShiftIn(r[0], r[1] / 128), ShiftIn(r[1], r[2] / 128), ShiftIn(r[2], r[3] / 128), ShiftIn(r[3], r[4] / 128),
     ShiftIn(r[4], r[5] / 128), ShiftIn(r[5], r[6] / 128), ShiftIn(r[6], r[7] / 128), ShiftIn(r[7], r[0] / 128)]
  }

  /** The key words ShiftKey leaves behind. */
  function ShiftedWords(w: Key): Key
  {
    ShiftBits(RotateWords(w))
  }

  lemma ShiftedWordsAt(w: Key)
    ensures ShiftedWords(w) ==
      [ShiftIn(w[1], w[2] / 128), ShiftIn(w[2], w[3] / 128), ShiftIn(w[3], w[4] / 128), ShiftIn(w[4], w[5] / 128),
       ShiftIn(w[5], w[6] / 128), ShiftIn(w[6], w[7] / 128), ShiftIn(w[7], w[0] / 128), ShiftIn(w[0], w[1] / 128)]
  {
    var r := RotateWords(w);
    assert r == [w[1], w[2], w[3], w[4], w[5], w[6], w[7], w[0]];
  }

  /** ShiftKey rotates the 128-bit key left by 25 bits. */
  lemma ShiftRotates(w: Key)
    ensures Reg(ShiftedWords(w)) == RotL25(Reg(w))
  {
    var h0, h1, h2, h3, h4, h5, h6, h7 := w[0] / 128, w[1] / 128, w[2] / 128, w[3] / 128, w[4] / 128, w[5] / 128, w[6] / 128, w[7] / 128;
    var l0, l1, l2, l3, l4, l5, l6, l7 := w[0] % 128, w[1] % 128, w[2] % 128, w[3] % 128, w[4] % 128, w[5] % 128, w[6] % 128, w[7] % 128;
    ShiftedWordsAt(w);
    ShiftInBits(w[1], h2);
    ShiftInBits(w[2], h3);
    ShiftInBits(w[3], h4);
    ShiftInBits(w[4], h5);
    ShiftInBits(w[5], h6);
    ShiftInBits(w[6], h7);
    ShiftInBits(w[7], h0);
    ShiftInBits(w[0], h1);
    assert Reg(w) == Reg8(h0 * 128 + l0, h1 * 128 + l1, h2 * 128 + l2, h3 * 128 + l3,
                          h4 * 128 + l4, h5 * 128 + l5, h6 * 128 + l6, h7 * 128 + l7);
    RotateSplit(h0, h1, h2, h3, h4, h5, h6, h7, l0, l1, l2, l3, l4, l5, l6, l7);
  }

  /** The rotation on a key whose words are split into a high 9-bit part h
      and a low 7-bit part l. */
  lemma RotateSplit(h0: int, h1: int, h2: int, h3: int, h4: int, h5: int, h6: int, h7: int,
                    l0: int, l1: int, l2: int, l3: int, l4: int, l5: int, l6: int, l7: int)
    requires 0 <= h0 < 512 && 0 <= h1 < 512 && 0 <= h2 < 512 && 0 <= h3 < 512
    requires 0 <= h4 < 512 && 0 <= h5 < 512 && 0 <= h6 < 512 && 0 <= h7 < 512
    requires 0 <= l0 < 128 && 0 <= l1 < 128 && 0 <= l2 < 128 && 0 <= l3 < 128
    requires 0 <= l4 < 128 && 0 <= l5 < 128 && 0 <= l6 < 128 && 0 <= l7 < 128
    ensures var v := Reg8(h0 * 128 + l0, h1 * 128 + l1, h2 * 128 + l2, h3 * 128 + l3,
                          h4 * 128 + l4, h5 * 128 + l5, h6 * 128 + l6, h7 * 128 + l7);
            0 <= v < Two128 &&
            RotL25(v) == Reg8(l1 * 512 + h2, l2 * 512 + h3, l3 * 512 + h4, l4 * 512 + h5,
                              l5 * 512 + h6, l6 * 512 + h7, l7 * 512 + h0, l0 * 512 + h1)
  {
    var v := Reg8(h0 * 128 + l0, h1 * 128 + l1, h2 * 128 + l2, h3 * 128 + l3,
                  h4 * 128 + l4, h5 * 128 + l5, h6 * 128 + l6, h7 * 128 + l7);
    var q := (h0 * 128 + l0) * 512 + h1;
    var rest := Reg8(0, l1, h2 * 128 + l2, h3 * 128 + l3, h4 * 128 + l4, h5 * 128 + l5, h6 * 128 + l6, h7 * 128 + l7);
    assert v == q * Two103 + rest;
    DivModUnique(v, Two103, q, rest);
  }

  /** The key words after s rotations. */
  function RotatedWords(key: Key, s: nat): Key
  {
    if s == 0 then key else ShiftedWords(RotatedWords(key, s - 1))
  }

  /** Partial key number n of the encryption schedule: word n % 8 of the key
      rotated n / 8 times. */
  function ForwardSubkey(key: Key, n: nat): Word
  {
    RotatedWords(key, n / 8)[n % 8]
  }

  /** The encryption table SetMainKey fills: slot i of round r is partial key
      6 * r + i. */
  function ForwardTable(key: Key): (t: Table)
    ensures forall r, i :: 0 <= r < 9 && 0 <= i < 6 ==> t[r][i] == ForwardSubkey(key, 6 * r + i)
  {
    seq(9, r requires 0 <= r < 9 => ForwardRow(key, r))
  }

  function ForwardRow(key: Key, r: nat): (row: seq<Word>)
    ensures |row| == 6
  {
    seq<Word>(6, i requires 0 <= i < 6 => ForwardSubkey(key, 6 * r + i))
  }

  /** The first eight partial keys are the user key itself, the next eight
      the key rotated left by 25 bits. */
  lemma FirstSubkeys(key: Key, n: nat)
    requires n < 16
    ensures n < 8 ==> ForwardSubkey(key, n) == key[n]
    ensures 8 <= n ==> ForwardSubkey(key, n) == ShiftedWords(key)[n - 8]
  {
    if 8 <= n {
      assert n / 8 == 1 && n % 8 == n - 8;
      assert RotatedWords(key, 1) == ShiftedWords(key);
    }
  }

  /** Column of the decryption table row 8 - r that receives the inverse of
      slot i of encryption round r: the two additive keys swap places in the
      inner rounds 1..7. */
  function SlotDest(r: int, i: int): (j: int)
    requires 0 <= i < 6
    ensures 0 <= j < 6
    ensures (j == 1 || j == 2) <==> (i == 1 || i == 2)
  {
    if (i == 1 || i == 2) && 1 <= r <= 7 then 3 - i else i
  }

  /** What SetMainKey stores for slot i of encryption round r: the
      multiplicative inverse for slots 0 and 3, the additive inverse for
      slots 1 and 2, and for slots 4 and 5 the same slot of the previous
      encryption round. Slots 4 and 5 of round 0 are never written. */
  predicate InvCell(F: Table, r: int, i: int, x: Word)
    requires 0 <= r < 9 && 0 <= i < 6
  {
    if i == 0 || i == 3 then Mul(F[r][i], x) == 1
    else if i == 1 || i == 2 then x == AddInv(F[r][i])
    else r == 0 || x == F[r - 1][i]
  }

  /** I is a decryption table for the encryption table F. */
  predicate InverseSchedule(F: Table, I: Table)
  {
    forall r, i :: 0 <= r < 9 && 0 <= i < 6 ==> InvCell(F, r, i, I[8 - r][SlotDest(r, i)])
  }

  lemma LastWord(rot: Key, mid: seq<Word>)
    requires |mid| == 8
    requires forall j :: 0 <= j < 7 ==> mid[j] == ShiftIn(rot[j], rot[j + 1] / 128)
    ensures mid[7 := ShiftIn(rot[7], rot[0] / 128)] == ShiftBits(rot)
  {
  }

  /** ShiftKey, in place on the eight key words: a rotation by one word,
      then a shift left by 9 bits across the words. */
  method ShiftKey(a: array<Word>)
    requires a.Length == 8
    modifies a
    ensures a[..] == ShiftedWords(old(a[..]))
  {
    RotateKey(a);
    ShiftKeyBits(a);
  }

  /** ShiftKey's first loop: every word moves down one place and the first
      goes last. */
  method RotateKey(a: array<Word>)
    requires a.Length == 8
    modifies a
    ensures a[..] == RotateWords(old(a[..]))
  {
    ghost var w := a[..];
    var pKey := a[0];
    var i := 0;
    while i < 7
      invariant 0 <= i <= 7
      invariant forall j :: 0 <= j < i ==> a[j] == w[j + 1]
      invariant forall j :: i <= j < 8 ==> a[j] == w[j]
    {
      a[i] := a[i + 1];
      i := i + 1;
    }
    a[7] := pKey;
  }

  /** ShiftKey's second loop and last store: every word shifts left by 9
      bits and takes the top 9 bits of the next, the last word those the
      first word had before it was overwritten. */
  method ShiftKeyBits(a: array<Word>)
    requires a.Length == 8
    modifies a
    ensures a[..] == ShiftBits(old(a[..]))
  {
    ghost var rot := a[..];
    var pKey := a[0] / 128;
    var i := 0;
    while i < 7
      invariant 0 <= i <= 7
      invariant forall j :: 0 <= j < i ==> a[j] == ShiftIn(rot[j], rot[j + 1] / 128)
      invariant a[i..] == rot[i..]
      invariant pKey == rot[0] / 128
    {
      a[i] := ShiftIn(a[i], a[i + 1] / 128);
      i := i + 1;
    }
    ghost var mid := a[..];
    a[7] := ShiftIn(a[7], pKey);
    assert a[..] == mid[7 := ShiftIn(rot[7], rot[0] / 128)];
    LastWord(rot, mid);
  }
}
