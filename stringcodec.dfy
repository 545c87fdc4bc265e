/** EncryptString and DecryptString: a file name travels as its 8-word MD5
    digest followed by its bytes, cut into 8-byte chunks (the last one
    zero-padded), each chunk enciphered as one block. */
module StringCodec {
  import opened Arith
  import opened Words
  import opened KeySchedule
  import opened BlockCipher
  import opened IdeaTables

  datatype Option<T> = None | Some(value: T)

  /** An MD5 digest as the 8 little-endian words ComputeMD5 stores. */
  type Digest = d: seq<Word> | |d| == 8 witness [0, 0, 0, 0, 0, 0, 0, 0]

  /** A C string's contents: no NUL before the terminator. */
  predicate NoNul(s: seq<Byte>)
  {
    forall j :: 0 <= j < |s| ==> s[j] != 0
  }

  function Min(a: int, b: int): int
  {
    if a <= b then a else b
  }

  /** Number of 8-byte chunks of a string of len bytes. */
  function NumChunks(len: nat): nat
  {
    (len + 7) / 8
  }

  /** The bytes EncryptString copies into part for offset i: up to 8 bytes,
      fewer at the end of the string. */
  function Chunk(s: seq<Byte>, i: nat): (c: seq<Byte>)
    ensures |c| <= 8
  {
    s[Min(i, |s|)..Min(i + 8, |s|)]
  }

  function Zeros(n: nat): (z: seq<Byte>)
    ensures |z| == n && forall j :: 0 <= j < n ==> z[j] == 0
  {
    seq<Byte>(n, _ => 0)
  }

  /** A chunk as the block part holds: missing bytes stay zero. */
  function ChunkBlock(c: seq<Byte>): Block
    requires |c| <= 8
  {
    BytesToWords(c + Zeros(8 - |c|))
  }

  /** The words EncryptString writes after the digest: word p belongs to
      chunk p / 4. */
  function EncipherChunks(E: Block -> Block, s: seq<Byte>): (w: seq<Word>)
    ensures |w| == 4 * NumChunks(|s|)
    decreases |s|
  {
    if |s| == 0 then [] else E(ChunkBlock(Chunk(s, 0))) + EncipherChunks(E, s[Min(8, |s|)..])
  }

  /** The whole buffer EncryptString fills for s under encryption table F. */
  function EncodedString(E: Block -> Block, md5: seq<Byte> -> Digest, s: seq<Byte>): (w: seq<Word>)
    ensures |w| == 8 + 4 * NumChunks(|s|) && w[..8] == md5(s)
  {
    md5(s) + EncipherChunks(E, s)
  }

  /** Block k of a word sequence. */
  function BlockAt(ws: seq<Word>, k: nat): Block
    requires 4 * k + 4 <= |ws|
  {
    ws[4 * k..4 * k + 4]
  }

  /** The bytes DecryptString writes before its terminator: each 4-word
      block deciphered, as 8 little-endian bytes (DecryptString only gets
      here with whole blocks). */
  function DecipherBytes(D: Block -> Block, ws: seq<Word>): (b: seq<Byte>)
    ensures |b| == 8 * (|ws| / 4)
  {
    if |ws| < 4 then [] else WordsToBytes(D(BlockAt(ws, 0))) + DecipherBytes(D, ws[4..])
  }

  /** What strlen sees: the bytes before the first NUL. */
  function CString(b: seq<Byte>): (s: seq<Byte>)
    ensures |s| <= |b| && s == b[..|s|] && NoNul(s)
    ensures |s| < |b| ==> b[|s|] == 0
  {
    if |b| == 0 || b[0] == 0 then [] else [b[0]] + CString(b[1..])
  }

  /** DecryptString on values: the length check, the deciphering, the NUL
      truncation and the digest comparison. */
  function DecodeString(D: Block -> Block, md5: seq<Byte> -> Digest, ws: seq<Word>): (r: Option<seq<Byte>>)
    ensures r.Some? ==> 8 < |ws| && |ws| % 4 == 0 && NoNul(r.value) && md5(r.value) == ws[..8]
  {
    if |ws| <= 8 || |ws| % 4 != 0 then None
    else
      var name := CString(DecipherBytes(D, ws[8..]) + [0]);
      if md5(name) == ws[..8] then Some(name) else None
  }

  /** D is the block function that Encrypt or Decrypt computes with key
      table S. The trigger keeps the rounds folded until a Cipher term
      about S shows up. */
  ghost predicate Computes(D: Block -> Block, S: Table)
  {
    forall x: Block {:trigger Cipher(S, x)} :: D(x) == Cipher(S, x)
  }

  /** The block function of a table. */
  function EncFn(S: Table): (D: Block -> Block)
    ensures Computes(D, S)
  {
    x => Cipher(S, x)
  }

  /** memcpy of src into dst at offset o: only those |src| cells change. */
  method Store<T>(dst: array<T>, o: nat, src: seq<T>)
    requires o + |src| <= dst.Length
    modifies dst
    ensures dst[..o] == old(dst[..o]) && dst[o..o + |src|] == src
    ensures dst[o + |src|..] == old(dst[o + |src|..])
  {
    forall p | o <= p < o + |src| {
      dst[p] := src[p - o];
    }
  }

  /** Encrypt or Decrypt on one block: the walk over key table t (the
      forward table for Encrypt, the inverted one for Decrypt), seen through
      its block function C. */
  method CipherBlock(t: array2<Word>, ghost C: Block -> Block, part: array<Word>, block: array<Word>)
    requires t.Length0 == 9 && t.Length1 == 6 && Computes(C, Rows(t))
    requires part.Length == 4 && block.Length == 4
    modifies block
    ensures block[..] == C(old(part[..]))
  {
    RunCipher(t, part, block);
  }

  /** Enciphering one more whole chunk appends its block. */
  lemma {:induction false} EncipherSnoc(E: Block -> Block, s: seq<Byte>, c: seq<Byte>, j: nat)
    requires |s| == 8 * j && 0 < |c| <= 8
    ensures EncipherChunks(E, s + c) == EncipherChunks(E, s) + E(ChunkBlock(c))
  {
    if j == 0 {
      assert s + c == c;
      assert Chunk(c, 0) == c;
      assert c[Min(8, |c|)..] == [];
    } else {
      assert Chunk(s + c, 0) == Chunk(s, 0);
      assert (s + c)[Min(8, |s + c|)..] == s[Min(8, |s|)..] + c;
      EncipherSnoc(E, s[Min(8, |s|)..], c, j - 1);
    }
  }

  /** Deciphering one more block appends its 8 bytes. */
  lemma {:induction false} DecipherSnoc(D: Block -> Block, u: seq<Word>, b: Block, c: nat)
    requires |u| == 4 * c
    ensures DecipherBytes(D, u + b) == DecipherBytes(D, u) + WordsToBytes(D(b))
  {
    if c == 0 {
      assert u + b == b;
      assert BlockAt(b, 0) == b;
      assert b[4..] == [];
    } else {
      assert BlockAt(u + b, 0) == BlockAt(u, 0);
      assert (u + b)[4..] == u[4..] + b;
      DecipherSnoc(D, u[4..], b, c - 1);
    }
  }

  /** The prefix of the first k + 1 blocks deciphers to that of the first k
      blocks followed by block k. */
  lemma DecipherStep(D: Block -> Block, ws: seq<Word>, k: nat)
    requires 4 * k + 4 <= |ws|
    ensures DecipherBytes(D, ws[..4 * k + 4]) == DecipherBytes(D, ws[..4 * k]) + WordsToBytes(D(BlockAt(ws, k)))
  {
    assert ws[..4 * k + 4] == ws[..4 * k] + BlockAt(ws, k);
    DecipherSnoc(D, ws[..4 * k], BlockAt(ws, k), k);
  }

  /** The first k + 1 chunks of s encipher to the first k followed by chunk k. */
  lemma EncipherStep(E: Block -> Block, s: seq<Byte>, k: nat)
    requires 8 * k < |s|
    ensures EncipherChunks(E, s[..Min(8 * k + 8, |s|)]) == EncipherChunks(E, s[..8 * k]) + E(ChunkBlock(Chunk(s, 8 * k)))
  {
    assert s[..Min(8 * k + 8, |s|)] == s[..8 * k] + Chunk(s, 8 * k);
    EncipherSnoc(E, s[..8 * k], Chunk(s, 8 * k), k);
  }

  /** EncryptString: stores the digest, then (unless md5Only) enciphers the
      string chunk by chunk behind it. The caller's buffer must hold the
      whole encoding; nothing after it is touched. */
  method EncryptString(tables: KeyTables, ghost E: Block -> Block, str: seq<Byte>, md5: seq<Byte> -> Digest, md5Only: bool,
                       out: array<Word>)
    requires tables.Valid() && Computes(E, ForwardTable(tables.key)) && NoNul(str)
    requires out.Length >= 8 && (!md5Only ==> out.Length >= 8 + 4 * NumChunks(|str|))
    modifies out
    ensures out[..8] == md5(str)
    ensures md5Only ==> out[8..] == old(out[8..])
    ensures !md5Only ==> out[..8 + 4 * NumChunks(|str|)] == EncodedString(E, md5, str)
    ensures !md5Only ==> out[8 + 4 * NumChunks(|str|)..] == old(out[8 + 4 * NumChunks(|str|)..])
  {
    var digest := md5(str);
    Store(out, 0, digest);
    if md5Only {
      return;
    }
    EncipherInto(tables.fwd, E, str, out);
    assert out[..8] == out[..8 + 4 * NumChunks(|str|)][..8];
  }

  /** The loop of EncryptString: chunk i / 8 of str, zero-padded and
      enciphered, goes to words 8 + i / 2 .. 8 + i / 2 + 3 of out. */
  method EncipherInto(t: array2<Word>, ghost E: Block -> Block, str: seq<Byte>, out: array<Word>)
    requires t.Length0 == 9 && t.Length1 == 6 && Computes(E, Rows(t))
    requires out.Length >= 8 + 4 * NumChunks(|str|)
    modifies out
    ensures out[..8 + 4 * NumChunks(|str|)] == old(out[..8]) + EncipherChunks(E, str)
    ensures out[8 + 4 * NumChunks(|str|)..] == old(out[8 + 4 * NumChunks(|str|)..])
  {
    ghost var nc := NumChunks(|str|);
    assert 8 * nc <= |str| + 7 < 8 * nc + 8;
    var i := 0;
    ghost var k := 0;
    while i < |str|
      invariant i == 8 * k && 8 * k < |str| + 8
      invariant out[..8 + 4 * k] == old(out[..8]) + EncipherChunks(E, str[..Min(i, |str|)])
      invariant forall j :: 8 + 4 * k <= j < out.Length ==> out[j] == old(out[j])
    {
      assert Min(i, |str|) == 8 * k;
      EncipherNext(t, E, str, out, i, k, old(out[..8]));
      i := i + 8;
      k := k + 1;
    }
    assert k == nc && str[..Min(i, |str|)] == str;
    assert out[8 + 4 * nc..] == old(out[8 + 4 * nc..]);
  }

  /** One pass of EncryptString's loop, stated on the encoded prefix: after
      it the words behind the head h encode one more chunk of str. */
  method EncipherNext(t: array2<Word>, ghost E: Block -> Block, str: seq<Byte>, out: array<Word>, i: nat, ghost k: nat,
                      ghost h: seq<Word>)
    requires t.Length0 == 9 && t.Length1 == 6 && Computes(E, Rows(t))
    requires i == 8 * k < |str| && |h| == 8 && 8 + 4 * k + 4 <= out.Length
    requires out[..8 + 4 * k] == h + EncipherChunks(E, str[..8 * k])
    modifies out
    ensures out[..8 + 4 * k + 4] == h + EncipherChunks(E, str[..Min(8 * k + 8, |str|)])
    ensures forall j :: 8 + 4 * k + 4 <= j < out.Length ==> out[j] == old(out[j])
  {
    var o := 8 + i / 2;
    assert o == 8 + 4 * k;
    EncryptPart(t, E, Chunk(str, i), out, o);
    var done, next := EncipherChunks(E, str[..8 * k]), E(ChunkBlock(Chunk(str, 8 * k)));
    Joined(out[..], o, h + done, next);
    EncipherStep(E, str, k);
    assert (h + done) + next == h + (done + next);
  }

  /** One pass of EncryptString's loop: the chunk c, zero-padded to a block
      in part, is enciphered into words o .. o + 3 of out. */
  method EncryptPart(t: array2<Word>, ghost E: Block -> Block, c: seq<Byte>, out: array<Word>, o: nat)
    requires t.Length0 == 9 && t.Length1 == 6 && Computes(E, Rows(t))
    requires |c| <= 8 && o + 4 <= out.Length
    modifies out
    ensures out[..o] == old(out[..o]) && out[o..o + 4] == E(ChunkBlock(c))
    ensures out[o + 4..] == old(out[o + 4..])
  {
    var chunk := ChunkBlock(c);
    var part := new Word[4](j requires 0 <= j < 4 => chunk[j]);
    assert part[..] == chunk;
    var block := new Word[4];
    CipherBlock(t, E, part, block);
    Store(out, o, block[..]);
  }

  /** DecryptString: fails without writing when n is at most 8 or not a
      multiple of 4; otherwise deciphers the blocks after the digest into
      out, terminates them with a NUL (leaving the bytes after it alone)
      and succeeds iff the digest of the resulting C string is the stored
      one. */
  method DecryptString(tables: KeyTables, ghost D: Block -> Block, str: array<Word>, n: int, md5: seq<Byte> -> Digest,
                       out: array<Byte>)
    returns (ok: bool)
    requires tables.Valid() && Computes(D, Rows(tables.inv)) && 0 <= n <= str.Length
    requires n > 8 && n % 4 == 0 ==> out.Length > 2 * (n - 8)
    modifies out
    ensures ok <==> DecodeString(D, md5, str[..n]).Some?
    ensures n > 8 && (n - 8) % 4 == 0 ==> out[..2 * (n - 8) + 1] == DecipherBytes(D, str[8..n]) + [0]
    ensures ok ==> CString(out[..]) == DecodeString(D, md5, str[..n]).value
    ensures n <= 8 || n % 4 != 0 ==> out[..] == old(out[..])
    ensures n > 8 && n % 4 == 0 ==> out[2 * (n - 8) + 1..] == old(out[2 * (n - 8) + 1..])
  {
    if n <= 8 || n % 4 != 0 {
      return false;
    }
    ghost var m := n / 4 - 2;
    DivModUnique(n - 8, 4, m, 0);
    var md5_0 := str[..8];
    DecipherInto(tables.inv, D, str, n, m, out);
    ghost var ws := str[8..n];
    out[2 * (n - 8)] := 0;
    assert out[2 * (n - 8) + 1..] == old(out[2 * (n - 8) + 1..]);
    assert out[..2 * (n - 8) + 1] == DecipherBytes(D, ws) + [0];
    var name := CString(out[..]);
    CStringPrefix(out[..], 2 * (n - 8) + 1);
    assert str[..n][8..] == ws && str[..n][..8] == md5_0;
    ok := SameDigest(md5(name), md5_0);
  }

  /** The final loop of DecryptString: the two digests agree word by word. */
  method SameDigest(md5: Digest, md5_0: Digest) returns (eq: bool)
    ensures eq <==> md5 == md5_0
  {
    var i := 0;
    while i < 8
      invariant 0 <= i <= 8 && forall j :: 0 <= j < i ==> md5[j] == md5_0[j]
    {
      if md5[i] != md5_0[i] {
        return false;
      }
      i := i + 1;
    }
    return true;
  }

  /** The loop of DecryptString: block (i - 8) / 4 of the words after the
      digest is deciphered into bytes 2 (i - 8) .. 2 (i - 8) + 7 of out. */
  method DecipherInto(t: array2<Word>, ghost D: Block -> Block, str: array<Word>, n: int, ghost m: nat, out: array<Byte>)
    requires t.Length0 == 9 && t.Length1 == 6 && Computes(D, Rows(t))
    requires n == 8 + 4 * m && n <= str.Length && 2 * (n - 8) <= out.Length
    modifies out
    ensures out[..2 * (n - 8)] == DecipherBytes(D, str[8..n])
    ensures out[2 * (n - 8)..] == old(out[2 * (n - 8)..])
  {
    ghost var ws := str[8..n];
    var i := 8;
    ghost var k := 0;
    while i < n
      invariant i == 8 + 4 * k && 0 <= k <= m && str[8..n] == ws
      invariant out[..8 * k] == DecipherBytes(D, ws[..4 * k])
      invariant forall j :: 8 * k <= j < out.Length ==> out[j] == old(out[j])
    {
      BlockInPlace(str[..], n, k);
      DecipherNext(t, D, str, i, out, ws, k);
      i := i + 4;
      k := k + 1;
    }
    assert ws[..4 * k] == ws;
    assert out[2 * (n - 8)..] == old(out[2 * (n - 8)..]);
  }

  /** Block k of the words after the digest sits at word 8 + 4k. */
  lemma BlockInPlace(a: seq<Word>, n: int, k: nat)
    requires 8 + 4 * k + 4 <= n <= |a|
    ensures a[8 + 4 * k..8 + 4 * k + 4] == BlockAt(a[8..n], k)
  {
    var b := a[8..n];
    forall j | 0 <= j < 4
      ensures a[8 + 4 * k + j] == BlockAt(b, k)[j]
    {
      assert b[4 * k + j] == a[8 + 4 * k + j];
    }
  }

  /** One pass of DecryptString's loop, stated on the deciphered prefix:
      after it out holds the bytes of one more block of ws. */
  method DecipherNext(t: array2<Word>, ghost D: Block -> Block, str: array<Word>, i: nat, out: array<Byte>,
                      ghost ws: seq<Word>, ghost k: nat)
    requires t.Length0 == 9 && t.Length1 == 6 && Computes(D, Rows(t))
    requires i == 8 + 4 * k && 4 * k + 4 <= |ws| && i + 4 <= str.Length && 8 * k + 8 <= out.Length
    requires str[i..i + 4] == BlockAt(ws, k)
    requires out[..8 * k] == DecipherBytes(D, ws[..4 * k])
    modifies out
    ensures out[..8 * k + 8] == DecipherBytes(D, ws[..4 * k + 4])
    ensures forall j :: 8 * k + 8 <= j < out.Length ==> out[j] == old(out[j])
  {
    var o := (i - 8) * 2;
    assert o == 8 * k;
    DecryptPart(t, D, str, i, out, o);
    Joined(out[..], o, DecipherBytes(D, ws[..4 * k]), WordsToBytes(D(BlockAt(ws, k))));
    DecipherStep(D, ws, k);
  }

  /** A buffer holding x up to o and y from o on holds x + y up to o + |y|. */
  lemma Joined<T>(a: seq<T>, o: nat, x: seq<T>, y: seq<T>)
    requires o + |y| <= |a| && a[..o] == x && a[o..o + |y|] == y
    ensures a[..o + |y|] == x + y
  {
    assert a[..o + |y|] == a[..o] + a[o..o + |y|];
  }

  /** One pass of DecryptString's loop: words i .. i + 3 of str are
      deciphered into bytes o .. o + 7 of out. */
  method DecryptPart(t: array2<Word>, ghost D: Block -> Block, str: array<Word>, i: nat, out: array<Byte>, o: nat)
    requires t.Length0 == 9 && t.Length1 == 6 && Computes(D, Rows(t))
    requires i + 4 <= str.Length && o + 8 <= out.Length
    modifies out
    ensures out[..o] == old(out[..o]) && out[o..o + 8] == WordsToBytes(D(str[i..i + 4]))
    ensures out[o + 8..] == old(out[o + 8..])
  {
    var part := new Word[4](j requires 0 <= j < 4 reads str => str[i + j]);
    assert part[..] == str[i..i + 4];
    var block := new Word[4];
    CipherBlock(t, D, part, block);
    Store(out, o, WordsToBytes(block[..]));
  }

  /** strlen stops at the first NUL, so bytes after a NUL do not matter. */
  lemma {:induction false} CStringPrefix(b: seq<Byte>, m: nat)
    requires 0 < m <= |b| && b[m - 1] == 0
    ensures CString(b) == CString(b[..m])
  {
    if b[0] != 0 {
      CStringPrefix(b[1..], m - 1);
      assert b[..m][1..] == b[1..][..m - 1];
    }
  }
}
