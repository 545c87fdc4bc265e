/** The two static key tables of the cipher, mainPartialKeys and
    mainPartialInvertedKeys, as one object: SetMainKey fills both from a
    user key, Encrypt and Decrypt read them. */
module IdeaTables {
  import opened Words
  import opened ModArith
  import opened KeySchedule
  import opened BlockCipher
  import opened Arith

  /** Row r of a key table as the pointer GetPartialKeys returns sees it. */
  function Row(t: array2<Word>, r: nat): (row: seq<Word>)
    reads t
    requires t.Length0 == 9 && t.Length1 == 6 && r < 9
    ensures |row| == 6 && forall i :: 0 <= i < 6 ==> row[i] == t[r, i]
  {
    seq(6, i requires 0 <= i < 6 reads t => t[r, i])
  }

  /** A whole key table as a value. */
  function Rows(t: array2<Word>): (T: Table)
    reads t
    requires t.Length0 == 9 && t.Length1 == 6
    ensures forall r, i :: 0 <= r < 9 && 0 <= i < 6 ==> T[r][i] == t[r, i]
  {
    seq(9, r requires 0 <= r < 9 reads t => Row(t, r))
  }

  class KeyTables {
    var fwd: array2<Word>
    var inv: array2<Word>
    /** The user key the tables were last set from. */
    ghost var key: Key

    ghost predicate Valid()
      reads this, fwd, inv
    {
      fwd.Length0 == 9 && fwd.Length1 == 6 && inv.Length0 == 9 && inv.Length1 == 6 && fwd != inv &&
      Rows(fwd) == ForwardTable(key) &&
      InverseSchedule(ForwardTable(key), Rows(inv))
    }

    /** The tables before any SetMainKey: all zero, which are exactly the
        tables of the all-zero key. */
    constructor ()
      ensures Valid() && key == ZeroKey()
      ensures fresh(fwd) && fresh(inv)
    {
      fwd := new Word[9, 6]((r, i) => 0);
      inv := new Word[9, 6]((r, i) => 0);
      key := ZeroKey();
      new;
      ZeroKeyTables();
      ZeroRows(fwd);
      ZeroRows(inv);
    }

    /** SetMainKey: walks the 52 used slots in order, taking each partial key
        from a local copy of the user key that ShiftKey rotates after every
        eighth one, and stores its inverse into the mirrored slot of the
        inverted table. Slots 4 and 5 of the inverted table's last row are
        never written. */
    method SetMainKey(partialKeys0: Key)
      requires Valid()
      modifies this, fwd, inv
      ensures Valid() && key == partialKeys0
      ensures fwd == old(fwd) && inv == old(inv)
      ensures inv[8, 4] == old(inv[8, 4]) && inv[8, 5] == old(inv[8, 5])
    {
      key := partialKeys0;
      FillTables(fwd, inv, partialKeys0);
    }

    /** Encrypt: enciphers the 4-word block inp into out with the encryption
        table; inp and out may be the same buffer. */
    method Encrypt(inp: array<Word>, out: array<Word>)
      requires Valid() && inp.Length == 4 && out.Length == 4
      modifies out
      ensures out[..] == Cipher(ForwardTable(key), old(inp[..]))
    {
      RunCipher(fwd, inp, out);
    }

    /** Decrypt: the same walk over the inverted table, which undoes Encrypt
        under the same key. */
    method Decrypt(inp: array<Word>, out: array<Word>)
      requires Valid() && inp.Length == 4 && out.Length == 4
      modifies out
      ensures out[..] == Cipher(Rows(inv), old(inp[..]))
      ensures forall x: Block :: Cipher(ForwardTable(key), x) == old(inp[..]) ==> out[..] == x
    {
      RunCipher(inv, inp, out);
      forall x: Block | Cipher(ForwardTable(key), x) == old(inp[..])
        ensures out[..] == x
      {
        DecryptEncrypt(ForwardTable(key), Rows(inv), x);
      }
    }
  }

  /** The common body of Encrypt and Decrypt: copy the block, run MakeRound
      in place with rows 0..7 of table t, then MakeTransfo with row 8. */
  method RunCipher(t: array2<Word>, inp: array<Word>, out: array<Word>)
    requires t.Length0 == 9 && t.Length1 == 6 && inp.Length == 4 && out.Length == 4
    modifies out
    ensures out[..] == Cipher(Rows(t), old(inp[..]))
  {
    ghost var x: Block := inp[..];
    var tmp := new Word[4](j requires 0 <= j < 4 reads inp => inp[j]);
    assert tmp[..] == Rounds(Rows(t), 0, x);
    var i := 0;
    while i < 8
      invariant 0 <= i <= 8 && tmp[..] == Rounds(Rows(t), i, x)
    {
      MakeRound(tmp, tmp, Row(t, i));
      i := i + 1;
    }
    MakeTransfo(tmp, out, Row(t, i));
  }

  /** The body of SetMainKey on the two tables: the outer loop over the nine
      rows, with partialKeys the local copy of the user key and k the index
      of the next partial key in it. */
  method FillTables(fwd: array2<Word>, inv: array2<Word>, partialKeys0: Key)
    requires fwd.Length0 == 9 && fwd.Length1 == 6 && inv.Length0 == 9 && inv.Length1 == 6 && fwd != inv
    modifies fwd, inv
    ensures Rows(fwd) == ForwardTable(partialKeys0)
    ensures InverseSchedule(ForwardTable(partialKeys0), Rows(inv))
    ensures inv[8, 4] == old(inv[8, 4]) && inv[8, 5] == old(inv[8, 5])
  {
    ghost var F := ForwardTable(partialKeys0);
    var partialKeys := new Word[8](j requires 0 <= j < 8 => partialKeys0[j]);
    assert partialKeys[..] == RotatedWords(partialKeys0, 0);
    var k := 0;
    ghost var s := 0;
    var r := 0;
    while r < 9
      invariant 0 <= r <= 9
      invariant 8 * s + k == 6 * r && 0 <= k <= 8 && (r > 0 ==> k > 0)
      invariant partialKeys[..] == RotatedWords(partialKeys0, s)
      invariant FwdFilled(fwd, F, r, 0) && InvFilled(inv, F, r, 0)
      invariant inv[8, 4] == old(inv[8, 4]) && inv[8, 5] == old(inv[8, 5])
    {
      ghost var cur := RotatedWords(partialKeys0, s);
      ghost var nxt := RotatedWords(partialKeys0, s + 1);
      RowKeys(partialKeys0, F, r, s, k);
      var k' := FillRow(fwd, inv, partialKeys, F, r, k, cur, nxt);
      ghost var s' := if k + 6 > 8 then s + 1 else s;
      assert partialKeys[..] == RotatedWords(partialKeys0, s') && 8 * s' + k' == 6 * (r + 1);
      s, k := s', k';
      NextRow(fwd, inv, F, r);
      r := r + 1;
    }
    FilledAll(fwd, inv, F);
  }

  /** The partial key SetMainKey takes for slot j of a row it enters with
      counter k0, while the local key is cur and rotates to nxt. */
  function RowSlot(cur: Key, nxt: Key, k0: int, j: int): Word
    requires 0 <= k0 <= 8 && 0 <= j < 6
  {
    if k0 + j < 8 then cur[k0 + j] else nxt[k0 + j - 8]
  }

  /** SetMainKey's inner loop over the six slots of row r: before each
      partial key past the first whose index k is a multiple of 8, ShiftKey
      rotates the local key by 25 bits. The counter k never exceeds 8, so a
      row sees at most one rotation. */
  method FillRow(fwd: array2<Word>, inv: array2<Word>, partialKeys: array<Word>,
                 ghost F: Table, r: int, k0: int, ghost cur: Key, ghost nxt: Key) returns (k: int)
    requires fwd.Length0 == 9 && fwd.Length1 == 6 && inv.Length0 == 9 && inv.Length1 == 6 && fwd != inv
    requires partialKeys.Length == 8 && partialKeys[..] == cur && nxt == ShiftedWords(cur)
    requires 0 <= r < 9 && 0 <= k0 <= 8 && (r > 0 ==> k0 > 0)
    requires forall j :: 0 <= j < 6 ==> F[r][j] == RowSlot(cur, nxt, k0, j)
    requires FwdFilled(fwd, F, r, 0) && InvFilled(inv, F, r, 0)
    modifies fwd, inv, partialKeys
    ensures if k0 + 6 <= 8 then k == k0 + 6 && partialKeys[..] == cur
            else k == k0 + 6 - 8 && partialKeys[..] == nxt
    ensures FwdFilled(fwd, F, r, 6) && InvFilled(inv, F, r, 6)
    ensures inv[8, 4] == old(inv[8, 4]) && inv[8, 5] == old(inv[8, 5])
  {
    k := k0;
    var i := 0;
    while i < 6
      invariant 0 <= i <= 6
      invariant if k0 + i <= 8 then k == k0 + i && partialKeys[..] == cur
                else k == k0 + i - 8 && partialKeys[..] == nxt
      invariant k0 + i > 0 ==> k > 0
      invariant FwdFilled(fwd, F, r, i) && InvFilled(inv, F, r, i)
      invariant inv[8, 4] == old(inv[8, 4]) && inv[8, 5] == old(inv[8, 5])
    {
      var x;
      k, x := NextPartialKey(partialKeys, k, cur, nxt, k0, i);
      StoreForward(fwd, F, r, i, x);
      StoreInverse(fwd, inv, F, r, i, x);
      i := i + 1;
    }
  }

  /** One slot of SetMainKey's inner loop before the stores: rotate the
      local key when the counter k has used up all eight words, then take
      word k and advance the counter. */
  method NextPartialKey(partialKeys: array<Word>, k: int, ghost cur: Key, ghost nxt: Key, ghost k0: int,
                        ghost i: int) returns (k': int, x: Word)
    requires partialKeys.Length == 8 && nxt == ShiftedWords(cur) && 0 <= k0 <= 8 && 0 <= i < 6
    requires if k0 + i <= 8 then k == k0 + i && partialKeys[..] == cur
             else k == k0 + i - 8 && partialKeys[..] == nxt
    requires k0 + i > 0 ==> k > 0
    modifies partialKeys
    ensures x == RowSlot(cur, nxt, k0, i)
    ensures if k0 + i + 1 <= 8 then k' == k0 + i + 1 && partialKeys[..] == cur
            else k' == k0 + i + 1 - 8 && partialKeys[..] == nxt
  {
    k' := k;
    if k' % 8 == 0 && k' > 0 {
      ShiftKey(partialKeys);
      k' := 0;
    }
    assert if k0 + i < 8 then k' == k0 + i && partialKeys[..] == cur
           else k' == k0 + i - 8 && partialKeys[..] == nxt;
    x := partialKeys[k'];
    k' := k' + 1;
  }

  /** The six partial keys of row r, entered with counter k and the key
      rotated s times, are RowSlot of that rotation and the next. */
  lemma RowKeys(key: Key, F: Table, r: int, s: nat, k: int)
    requires F == ForwardTable(key)
    requires 0 <= r < 9 && 8 * s + k == 6 * r && 0 <= k <= 8
    ensures forall j :: 0 <= j < 6 ==>
      F[r][j] == RowSlot(RotatedWords(key, s), RotatedWords(key, s + 1), k, j)
  {
    forall j | 0 <= j < 6
      ensures F[r][j] == RowSlot(RotatedWords(key, s), RotatedWords(key, s + 1), k, j)
    {
      RowSlotKey(key, r, s, k, j);
    }
  }

  /** One slot of RowKeys. */
  lemma RowSlotKey(key: Key, r: int, s: nat, k: int, j: int)
    requires 0 <= r < 9 && 8 * s + k == 6 * r && 0 <= k <= 8 && 0 <= j < 6
    ensures ForwardTable(key)[r][j] == RowSlot(RotatedWords(key, s), RotatedWords(key, s + 1), k, j)
  {
    if k + j < 8 {
      SlotKey(key, r, j, s, k + j);
    } else {
      SlotKey(key, r, j, s + 1, k + j - 8);
    }
  }

  /** Word k of the key rotated s times is partial key 6 * r + i when
      8 * s + k == 6 * r + i: the counter k of SetMainKey tracks n % 8. */
  lemma SlotKey(key: Key, r: int, i: int, s: nat, k: int)
    requires 0 <= r < 9 && 0 <= i < 6 && 8 * s + k == 6 * r + i && 0 <= k < 8
    ensures ForwardTable(key)[r][i] == RotatedWords(key, s)[k]
  {
    SubkeyAt(key, 6 * r + i, s, k);
  }

  /** Partial key n is word k of the key rotated s times when n == 8 * s + k. */
  lemma SubkeyAt(key: Key, n: nat, s: nat, k: int)
    requires n == 8 * s + k && 0 <= k < 8
    ensures ForwardSubkey(key, n) == RotatedWords(key, s)[k]
  {
    DivModUnique(n, 8, s, k);
  }

  /** The slots of the encryption table before slot i of row r hold the
      partial keys of F. */
  ghost predicate FwdFilled(fwd: array2<Word>, F: Table, r: int, i: int)
    reads fwd
    requires fwd.Length0 == 9 && fwd.Length1 == 6
  {
    forall r', i' :: 0 <= r' < 9 && 0 <= i' < 6 && (r' < r || (r' == r && i' < i)) ==>
      fwd[r', i'] == F[r'][i']
  }

  /** The slots of the inverted table that SetMainKey fills from the partial
      keys before slot i of row r hold their inverses. */
  ghost predicate InvFilled(inv: array2<Word>, F: Table, r: int, i: int)
    reads inv
    requires inv.Length0 == 9 && inv.Length1 == 6
  {
    forall r', i' :: 0 <= r' < 9 && 0 <= i' < 6 && (r' < r || (r' == r && i' < i)) ==>
      InvCell(F, r', i', inv[8 - r', SlotDest(r', i')])
  }

  /** SetMainKey's store into the encryption table. */
  method StoreForward(fwd: array2<Word>, ghost F: Table, r: int, i: int, x: Word)
    requires fwd.Length0 == 9 && fwd.Length1 == 6
    requires 0 <= r < 9 && 0 <= i < 6 && x == F[r][i]
    requires FwdFilled(fwd, F, r, i)
    modifies fwd
    ensures FwdFilled(fwd, F, r, i + 1)
    ensures fwd[r, i] == x
  {
    fwd[r, i] := x;
  }

  /** SetMainKey's store into the inverted table, following its branches:
      ModuloMultInv for slots 0 and 3, ModuloAddInv for slots 1 and 2 (which
      swap places except in the first and last rows), and for slots 4 and 5
      of every row but the first a copy of the previous row's slot. */
  method StoreInverse(fwd: array2<Word>, inv: array2<Word>, ghost F: Table, r: int, i: int, x: Word)
    requires fwd.Length0 == 9 && fwd.Length1 == 6 && inv.Length0 == 9 && inv.Length1 == 6 && fwd != inv
    requires 0 <= r < 9 && 0 <= i < 6 && x == F[r][i]
    requires FwdFilled(fwd, F, r, i) && InvFilled(inv, F, r, i)
    modifies inv
    ensures InvFilled(inv, F, r, i + 1)
    ensures inv[8, 4] == old(inv[8, 4]) && inv[8, 5] == old(inv[8, 5])
  {
    if i == 2 || i == 1 {
      if r >= 1 && r <= 7 {
        inv[8 - r, if i == 2 then 1 else 2] := AddInv(x);
      } else {
        inv[8 - r, i] := AddInv(x);
      }
    } else if i == 4 || i == 5 {
      if r > 0 {
        inv[8 - r, i] := fwd[r - 1, i];
      }
    } else {
      var y := MulInv(x);
      inv[8 - r, i] := y;
    }
    assert InvCell(F, r, i, inv[8 - r, SlotDest(r, i)]);
  }

  lemma NextRow(fwd: array2<Word>, inv: array2<Word>, F: Table, r: int)
    requires fwd.Length0 == 9 && fwd.Length1 == 6 && inv.Length0 == 9 && inv.Length1 == 6
    requires FwdFilled(fwd, F, r, 6) && InvFilled(inv, F, r, 6)
    ensures FwdFilled(fwd, F, r + 1, 0) && InvFilled(inv, F, r + 1, 0)
  {
  }

  lemma FilledAll(fwd: array2<Word>, inv: array2<Word>, F: Table)
    requires fwd.Length0 == 9 && fwd.Length1 == 6 && inv.Length0 == 9 && inv.Length1 == 6
    requires FwdFilled(fwd, F, 9, 0) && InvFilled(inv, F, 9, 0)
    ensures Rows(fwd) == F && InverseSchedule(F, Rows(inv))
  {
    var T := Rows(fwd);
    forall r | 0 <= r < 9
      ensures T[r] == F[r]
    {
      assert forall i :: 0 <= i < 6 ==> T[r][i] == F[r][i];
    }
  }

  lemma ZeroRows(t: array2<Word>)
    requires t.Length0 == 9 && t.Length1 == 6
    requires forall r, i :: 0 <= r < 9 && 0 <= i < 6 ==> t[r, i] == 0
    ensures Rows(t) == ForwardTable(ZeroKey())
  {
    ZeroKeyTables();
    var T, Z := Rows(t), ForwardTable(ZeroKey());
    forall r | 0 <= r < 9
      ensures T[r] == Z[r]
    {
      assert forall i :: 0 <= i < 6 ==> T[r][i] == Z[r][i];
    }
  }

  function ZeroKey(): Key
  {
    [0, 0, 0, 0, 0, 0, 0, 0]
  }

  /** The all-zero key rotates to itself, so every partial key is 0, and a
      zero table is its own inversion (the inverse of 0 is 0 for both
      ModuloMult and ModuloAddInv). */
  lemma ZeroKeyTables()
    ensures forall r, i :: 0 <= r < 9 && 0 <= i < 6 ==> ForwardTable(ZeroKey())[r][i] == 0
    ensures InverseSchedule(ForwardTable(ZeroKey()), ForwardTable(ZeroKey()))
  {
    forall s: nat | s <= 6
      ensures RotatedWords(ZeroKey(), s) == ZeroKey()
    {
      ZeroRotations(s);
    }
  }

  lemma ZeroShift()
    ensures ShiftedWords(ZeroKey()) == ZeroKey()
  {
    ShiftedWordsAt(ZeroKey());
  }

  lemma {:induction false} ZeroRotations(s: nat)
    ensures RotatedWords(ZeroKey(), s) == ZeroKey()
  {
    if s > 0 {
      ZeroRotations(s - 1);
      ZeroShift();
    }
  }
}
