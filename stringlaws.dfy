/** What EncryptString and DecryptString promise together: a name that
    went through EncryptString under a key comes back from DecryptString
    under the same key, and the empty name never does. */
module StringLaws {
  import opened Words
  import opened KeySchedule
  import opened BlockCipher
  import opened StringCodec

  /** The bytes the deciphered blocks carry: the string, then the zero
      padding of its last chunk. */
  lemma {:induction false} DecipherEncipher(E: Block -> Block, D: Block -> Block, s: seq<Byte>)
    requires forall x :: D(E(x)) == x
    ensures DecipherBytes(D, EncipherChunks(E, s)) == s + Zeros(8 * NumChunks(|s|) - |s|)
    decreases |s|
  {
    if |s| > 0 {
      var c := Chunk(s, 0);
      var rest := s[Min(8, |s|)..];
      DecipherFirstChunk(E, D, s);
      DecipherEncipher(E, D, rest);
      if |s| <= 8 {
        assert c == s && rest == [] && NumChunks(|s|) == 1;
      } else {
        PadStep(s, c, rest);
      }
    }
  }

  /** The first enciphered block deciphers to the first chunk and its
      padding. */
  lemma DecipherFirstChunk(E: Block -> Block, D: Block -> Block, s: seq<Byte>)
    requires (forall x :: D(E(x)) == x) && |s| > 0
    ensures DecipherBytes(D, EncipherChunks(E, s))
         == (Chunk(s, 0) + Zeros(8 - |Chunk(s, 0)|)) + DecipherBytes(D, EncipherChunks(E, s[Min(8, |s|)..]))
  {
    var c := Chunk(s, 0);
    var w := EncipherChunks(E, s);
    var head := E(ChunkBlock(c));
    assert BlockAt(w, 0) == head && w[4..] == EncipherChunks(E, s[Min(8, |s|)..]);
    BytesWordsBytes(c + Zeros(8 - |c|));
  }

  /** A whole leading chunk carries no padding of its own. */
  lemma PadStep(s: seq<Byte>, c: seq<Byte>, rest: seq<Byte>)
    requires |c| == 8 && s == c + rest
    ensures (c + Zeros(8 - |c|)) + (rest + Zeros(8 * NumChunks(|rest|) - |rest|)) == s + Zeros(8 * NumChunks(|s|) - |s|)
  {
    assert NumChunks(|s|) == NumChunks(|rest|) + 1;
    assert Zeros(8 - |c|) == [];
  }

  /** strlen of a NUL-free string followed by a NUL and anything. */
  lemma CStringOf(s: seq<Byte>, b: seq<Byte>)
    requires NoNul(s) && |s| < |b| && b[..|s|] == s && b[|s|] == 0
    ensures CString(b) == s
  {
    forall j | 0 <= j < |s|
      ensures b[j] != 0
    {
      assert b[j] == b[..|s|][j];
    }
  }

  /** Block functions computed with a table and its inverted table undo
      each other. */
  lemma TablesInvert(F: Table, I: Table, E: Block -> Block, D: Block -> Block)
    requires InverseSchedule(F, I) && Computes(E, F) && Computes(D, I)
    ensures forall x :: D(E(x)) == x
  {
    forall x
      ensures D(E(x)) == x
    {
      DecryptEncrypt(F, I, x);
    }
  }

  /** The round trip of a file name: decoding under a block function that
      undoes the encoding one returns exactly the name, except for the empty
      name, which the length check rejects. */
  lemma StringRoundTrip(E: Block -> Block, D: Block -> Block, md5: seq<Byte> -> Digest, s: seq<Byte>)
    requires (forall x :: D(E(x)) == x) && NoNul(s)
    ensures DecodeString(D, md5, EncodedString(E, md5, s)) == if |s| == 0 then None else Some(s)
  {
    var ws := EncodedString(E, md5, s);
    if |s| > 0 {
      var nc := NumChunks(|s|);
      assert nc >= 1;
      assert |ws| > 8 && |ws| % 4 == 0;
      assert ws[8..] == EncipherChunks(E, s);
      DecipherEncipher(E, D, s);
      var z := Zeros(8 * nc - |s|);
      assert (s + z + [0])[..|s|] == s;
      CStringOf(s, s + z + [0]);
    }
  }
}
