/** The file format of EncryptFile, DecryptFile and DecryptFileName, over
    the bytes of the files rather than file handles: a 51-byte header (the
    key's SHA-256 tag, the MD5 of the plain file, the padding count, the
    length of the encoded name), the encoded name, then the file's 8-byte
    blocks enciphered one by one. */
module Envelope {
  import opened Arith
  import opened Words
  import opened KeySchedule
  import opened BlockCipher
  import opened StringCodec
  import opened StringLaws
  import opened Paths

  /** Bytes of the key tag at the head of every encrypted file. */
  const TagLen: nat := 32

  /** Tag, MD5 checksum (16 bytes), padding count (1) and name length (2). */
  const HeaderLen: nat := 51

  /** What a file operation leaves behind: nothing (it returned 0 and the
      output, if created, was removed) or an output file with these bytes
      (it returned 1). */
  datatype FileResult = Failed | Written(contents: seq<Byte>)

  /** The header fields, as DecryptFile and DecryptFileName read them. */
  datatype Header = Header(tag: seq<Byte>, checksum: seq<Byte>, padding: Byte, nameLen: Word)

  /** The bytes EncryptFile appends to the last block: the fewest that make
      the size a multiple of 8. */
  function Padding(size: nat): (p: nat)
    ensures p < 8 && (size + p) % 8 == 0
  {
    (8 - size % 8) % 8
  }

  /** Encrypt or Decrypt applied to an 8-byte buffer read as 4 words. */
  function OnBytes(C: Block -> Block, b: seq<Byte>): (r: seq<Byte>)
    requires |b| == 8
    ensures |r| == 8
  {
    WordsToBytes(C(BytesToWords(b)))
  }

  /** Deciphering the bytes of an enciphered buffer gives the buffer back. */
  lemma OnBytesInverse(E: Block -> Block, D: Block -> Block, b: seq<Byte>)
    requires (forall x :: D(E(x)) == x) && |b| == 8
    ensures OnBytes(D, OnBytes(E, b)) == b
  {
    WordsBytesWords(E(BytesToWords(b)));
    BytesWordsBytes(b);
  }

  /** The buffer d after memset(d, 0, sizeof d). */
  function Cleared(d: seq<Byte>): (z: seq<Byte>)
    ensures |z| == |d| && forall j :: 0 <= j < |d| ==> z[j] == 0
  {
    seq(|d|, j => 0)
  }

  lemma ClearedAlike(a: seq<Byte>, b: seq<Byte>)
    requires |a| == |b|
    ensures Cleared(a) == Cleared(b)
  {
  }

  /** The blocks EncryptFile writes for file contents f, when the buffer
      data holds what the previous read left there: each read overwrites
      the first n <= 8 bytes and keeps the rest, and after each write the
      buffer is cleared. So the bytes after a short first read are whatever
      the buffer held (it is never initialised), later ones zero. */
  function EncipherFile(E: Block -> Block, f: seq<Byte>, data: seq<Byte>): (c: seq<Byte>)
    requires |data| == 8
    decreases |f|
  {
    if |f| == 0 then []
    else
      var n := Min(8, |f|);
      OnBytes(E, f[..n] + data[n..]) + EncipherFile(E, f[n..], Cleared(data))
  }

  /** One 8-byte block per started 8 bytes of f. */
  lemma {:induction false} EncipherFileLength(E: Block -> Block, f: seq<Byte>, data: seq<Byte>, k: nat)
    requires |data| == 8 && 8 * k - 8 < |f| <= 8 * k
    ensures |EncipherFile(E, f, data)| == 8 * k
    decreases |f|
  {
    if |f| > 0 {
      EncipherFileLength(E, f[Min(8, |f|)..], Cleared(data), k - 1);
    }
  }

  /** The read-encrypt-write loop of EncryptFile; junk is the initial
      content of the uninitialised buffer and rest what fread has still to
      deliver. */
  method EncryptBlocks(E: Block -> Block, f: seq<Byte>, junk: seq<Byte>) returns (c: seq<Byte>)
    requires |junk| == 8
    ensures c == EncipherFile(E, f, junk)
  {
    var data := junk;
    var rest := f;
    c := [];
    while |rest| > 0
      invariant |data| == 8
      invariant c + EncipherFile(E, rest, data) == EncipherFile(E, f, junk)
      decreases |rest|
    {
      var n := Min(8, |rest|);
      var block := OnBytes(E, rest[..n] + data[n..]);
      EncipherStep(E, rest, data, c, n, block);
      c := c + block;
      ClearedAlike(block, data);
      data := Cleared(block);
      rest := rest[n..];
    }
    assert c + [] == c;
  }
  /** One turn of EncryptBlocks' loop: the bytes written so far followed by
      the encipherment of what is left do not change. */
  lemma EncipherStep(E: Block -> Block, rest: seq<Byte>, data: seq<Byte>, c: seq<Byte>, n: nat, block: seq<Byte>)
    requires |data| == 8 && |rest| > 0 && n == Min(8, |rest|)
    requires block == OnBytes(E, rest[..n] + data[n..])
    ensures c + EncipherFile(E, rest, data) == (c + block) + EncipherFile(E, rest[n..], Cleared(data))
  {
    var tail := EncipherFile(E, rest[n..], Cleared(data));
    assert EncipherFile(E, rest, data) == block + tail;
    assert (c + block) + tail == c + (block + tail);
  }


  /** The length field: l = 16 + (strlen(p) + 7) / 8 * 8, the byte size of
      the encoded name. */
  function NameLength(len: nat): nat
  {
    16 + 8 * NumChunks(len)
  }

  /** EncryptFile from inPath to outPath with key tag keySha: refuses
      identical names, then writes the header, the name encoded by
      EncryptString and the enciphered blocks. */
  function EncryptFile(E: Block -> Block, md5: seq<Byte> -> Digest, keySha: seq<Byte>, inPath: seq<Byte>,
                       outPath: seq<Byte>, f: seq<Byte>, junk: seq<Byte>): (r: FileResult)
    requires |keySha| == TagLen && |junk| == 8 && NoNul(inPath)
    requires NameLength(|FileName(inPath)|) < 0x10000
  {
    if inPath == outPath then Failed
    else
      var name := FileName(inPath);
      Written(keySha + WordsToBytes(md5(f)) + [Padding(|f|)] + WordsToBytes([NameLength(|name|)])
              + WordsToBytes(EncodedString(E, md5, name)) + EncipherFile(E, f, junk))
  }

  /** The fixed part of the header, or None when the file is too short for
      it. */
  function ReadHeader(file: seq<Byte>): (h: Option<Header>)
    ensures h.Some? <==> |file| >= HeaderLen
    ensures h.Some? ==> h.value.tag == file[..TagLen]
  {
    if |file| < HeaderLen then None
    else Some(Header(file[..TagLen], file[TagLen..48], file[48], WordOf(file[49], file[50])))
  }

  /** nbBlocks: the number of 8-byte reads after a name of c bytes. When the
      file ends before the name does, the C subtraction wraps instead, but
      then no block is read and the value is never compared. */
  function BlockCount(fileLen: nat, c: nat): int
  {
    (fileLen - (HeaderLen + c) + 7) / 8
  }

  /** The byte count of DecryptFile's write as the C code computes it: n,
      less the padding on block nbBlocks, in size_t arithmetic. */
  function WriteCountAsWritten(n: nat, last: bool, padding: Byte): nat
    requires n <= 8
  {
    if last then (n - padding) % 0x1_0000_0000_0000_0000 else n
  }

  /** The write count never goes past the n bytes just deciphered: a
      padding larger than n writes nothing. */
  function WriteCount(n: nat, last: bool, padding: Byte): (l: nat)
    requires n <= 8
    ensures l <= n
    ensures l == WriteCountAsWritten(n, last, padding) || (last && padding > n)
  {
    if last && padding > n then 0 else if last then n - padding else n
  }

  /** With the padding EncryptFile writes (at most 7) and whole 8-byte
      blocks, the two counts agree. */
  lemma WriteCountsAgree(n: nat, last: bool, padding: Byte)
    requires padding <= n <= 8
    ensures WriteCount(n, last, padding) == WriteCountAsWritten(n, last, padding) <= n
  {
  }

  /** A 59-byte file with the right tag, no name, one block and a padding
      byte of 9: the header checks pass, the one block is block nbBlocks,
      and the C count wraps to 2^64 - 1, so fwrite is asked for that many
      bytes of an 8-byte buffer. */
  lemma PaddingOverrun(keySha: seq<Byte>, block: seq<Byte>)
    requires |keySha| == TagLen && |block| == 8
    ensures var file := keySha + Zeros(16) + [9, 0, 0] + block;
      |file| == 59
      && ReadHeader(file) == Some(Header(keySha, Zeros(16), 9, 0))
      && BlockCount(|file|, 0) == 1
      && WriteCountAsWritten(8, 1 == BlockCount(|file|, 0), 9) == 0xFFFF_FFFF_FFFF_FFFF
      && WriteCount(8, 1 == BlockCount(|file|, 0), 9) == 0
  {
    var file := keySha + Zeros(16) + [9, 0, 0] + block;
    assert file[..TagLen] == keySha && file[TagLen..48] == Zeros(16);
    assert file[48] == 9 && file[49] == 0 && file[50] == 0;
  }

  /** The blocks DecryptFile writes for body (the bytes after the name),
      i being the 1-based number of the next read and data what the buffer
      holds: a short read keeps the tail of the previous block. */
  function DecipherFile(D: Block -> Block, body: seq<Byte>, i: nat, nbBlocks: int, padding: Byte,
                        data: seq<Byte>): (out: seq<Byte>)
    requires |data| == 8
    decreases |body|
  {
    if |body| == 0 then []
    else
      var n := Min(8, |body|);
      var block := OnBytes(D, body[..n] + data[n..]);
      block[..WriteCount(n, i == nbBlocks, padding)] + DecipherFile(D, body[n..], i + 1, nbBlocks, padding, block)
  }

  /** The read-decrypt-write loop of DecryptFile, i counting the reads
      from 1 and rest being what fread has still to deliver. */
  method DecryptBlocks(D: Block -> Block, body: seq<Byte>, nbBlocks: int, padding: Byte, junk: seq<Byte>)
    returns (out: seq<Byte>)
    requires |junk| == 8
    ensures out == DecipherFile(D, body, 1, nbBlocks, padding, junk)
  {
    var data := junk;
    var rest := body;
    var i := 1;
    out := [];
    while |rest| > 0
      invariant |data| == 8
      invariant out + DecipherFile(D, rest, i, nbBlocks, padding, data) == DecipherFile(D, body, 1, nbBlocks, padding, junk)
      decreases |rest|
    {
      var n := Min(8, |rest|);
      var block := OnBytes(D, rest[..n] + data[n..]);
      var l := WriteCount(n, i == nbBlocks, padding);
      DecipherStep(D, rest, i, nbBlocks, padding, data, out, n, block, l);
      out := out + block[..l];
      data := block;
      rest := rest[n..];
      i := i + 1;
    }
    assert out + [] == out;
  }
  /** One turn of DecryptBlocks' loop: the bytes written so far followed
      by what is left to decipher do not change. */
  lemma DecipherStep(D: Block -> Block, rest: seq<Byte>, i: nat, nbBlocks: int, padding: Byte, data: seq<Byte>,
                     out: seq<Byte>, n: nat, block: seq<Byte>, l: nat)
    requires |data| == 8 && |rest| > 0 && n == Min(8, |rest|)
    requires block == OnBytes(D, rest[..n] + data[n..]) && l == WriteCount(n, i == nbBlocks, padding)
    ensures |block| == 8 && l <= 8
    ensures out + DecipherFile(D, rest, i, nbBlocks, padding, data)
         == (out + block[..l]) + DecipherFile(D, rest[n..], i + 1, nbBlocks, padding, block)
  {
    var tail := DecipherFile(D, rest[n..], i + 1, nbBlocks, padding, block);
    assert DecipherFile(D, rest, i, nbBlocks, padding, data) == block[..l] + tail;
    assert (out + block[..l]) + tail == out + (block[..l] + tail);
  }


  /** A file longer than one block has the padding of its tail and one
      block more. */
  lemma PaddingPastBlock(m: nat)
    requires m > 8
    ensures Padding(m - 8) == Padding(m) && NumChunks(m - 8) == NumChunks(m) - 1
  {
    DivModUnique(m, 8, m / 8, m % 8);
    DivModUnique(m - 8, 8, m / 8 - 1, m % 8);
    DivModUnique(m - 1, 8, (m - 1) / 8, (m - 1) % 8);
    DivModUnique(m - 9, 8, (m - 1) / 8 - 1, (m - 1) % 8);
  }

  /** A file of one block or less: the padding fills that block. */
  lemma PaddingLastBlock(m: nat)
    requires 0 < m <= 8
    ensures NumChunks(m) == 1 && Padding(m) == 8 - m
  {
  }

  /** DecryptFile's loop undoes EncryptFile's: deciphering the blocks of g,
      with nbBlocks counting the reads from i on and the padding EncryptFile
      wrote, gives g back, whatever either buffer held at the start. */
  lemma {:induction false} DecipherEncipherFile(E: Block -> Block, D: Block -> Block, g: seq<Byte>, data: seq<Byte>,
                                                prev: seq<Byte>, i: nat, nbBlocks: int)
    requires (forall x :: D(E(x)) == x) && |data| == 8 && |prev| == 8
    requires nbBlocks == i - 1 + NumChunks(|g|)
    ensures DecipherFile(D, EncipherFile(E, g, data), i, nbBlocks, Padding(|g|), prev) == g
    decreases |g|
  {
    if |g| > 8 {
      var plain := g[..8] + data[8..];
      var p := Padding(|g|);
      var tail := g[8..];
      PaddingPastBlock(|g|);
      assert |tail| == |g| - 8 && Padding(|tail|) == p;
      DecipherFirstBlock(E, D, g, data, prev, i, nbBlocks, p);
      assert WriteCount(8, i == nbBlocks, p) == 8;
      DecipherEncipherFile(E, D, tail, Cleared(data), plain, i + 1, nbBlocks);
      assert plain[..8] == g[..8];
      assert g == g[..8] + tail;
    } else if |g| > 0 {
      LastBlockBack(E, D, g, data, prev, i, nbBlocks);
    }
  }

  /** The last buffer: its padding bytes are dropped again. */
  lemma LastBlockBack(E: Block -> Block, D: Block -> Block, g: seq<Byte>, data: seq<Byte>,
                      prev: seq<Byte>, i: nat, nbBlocks: int)
    requires (forall x :: D(E(x)) == x) && |data| == 8 && |prev| == 8
    requires 0 < |g| <= 8 && nbBlocks == i - 1 + NumChunks(|g|)
    ensures DecipherFile(D, EncipherFile(E, g, data), i, nbBlocks, Padding(|g|), prev) == g
  {
    var plain := g + data[|g|..];
    var p := Padding(|g|);
    PaddingLastBlock(|g|);
    DecipherFirstBlock(E, D, g, data, prev, i, nbBlocks, p);
    assert WriteCount(8, i == nbBlocks, p) == |g|;
    assert g[|g|..] == [];
    assert g[..|g|] == g;
    assert plain[..|g|] == g;
  }


  /** The first read of DecryptFile's loop over what EncryptFile wrote
      gives back the first buffer EncryptFile enciphered. */
  lemma DecipherFirstBlock(E: Block -> Block, D: Block -> Block, g: seq<Byte>, data: seq<Byte>, prev: seq<Byte>,
                           i: nat, nbBlocks: int, padding: Byte)
    requires (forall x :: D(E(x)) == x) && |data| == 8 && |prev| == 8 && |g| > 0
    ensures var n := Min(8, |g|);
      var plain := g[..n] + data[n..];
      DecipherFile(D, EncipherFile(E, g, data), i, nbBlocks, padding, prev)
      == plain[..WriteCount(8, i == nbBlocks, padding)]
         + DecipherFile(D, EncipherFile(E, g[n..], Cleared(data)), i + 1, nbBlocks, padding, plain)
  {
    var n := Min(8, |g|);
    var plain := g[..n] + data[n..];
    var block := OnBytes(E, plain);
    var tail := EncipherFile(E, g[n..], Cleared(data));
    var c := EncipherFile(E, g, data);
    assert c == block + tail;
    OnBytesInverse(E, D, plain);
    assert c[..8] + prev[8..] == block && c[8..] == tail;
  }

  /** DecryptFile from inPath to outPath with key tag keySha0. It refuses
      identical names, a file too short for the header and a wrong tag,
      all before deciphering anything. It then deciphers the blocks after
      the name. If the checksum of the result cannot be computed, the user
      decides (keep); otherwise the result survives only if its MD5 is the
      one in the header. */
  function DecryptFile(D: Block -> Block, md5: seq<Byte> -> Digest, keySha0: seq<Byte>, inPath: seq<Byte>,
                       outPath: seq<Byte>, file: seq<Byte>, junk: seq<Byte>, computed: bool, keep: bool)
    : (r: FileResult)
    requires |keySha0| == TagLen && |junk| == 8
    ensures r.Written? ==> inPath != outPath && |file| >= HeaderLen && file[..TagLen] == keySha0
    ensures r.Written? && computed ==> md5(r.contents) == BytesToWords(file[TagLen..48])
    ensures r.Written? && !computed ==> keep
  {
    if inPath == outPath then Failed
    else match ReadHeader(file)
      case None => Failed
      case Some(h) =>
        if h.tag != keySha0 then Failed
        else DecryptBody(D, md5, file, h, junk, computed, keep)
  }

  /** DecryptFile past the header checks: decipher the blocks after the
      name (none when the file ends inside the name) and decide on the
      result. */
  function DecryptBody(D: Block -> Block, md5: seq<Byte> -> Digest, file: seq<Byte>, h: Header, junk: seq<Byte>,
                       computed: bool, keep: bool): FileResult
    requires |junk| == 8 && |h.checksum| % 2 == 0
  {
    var out := DecipherFile(D, After(file, h.nameLen), 1, BlockCount(|file|, h.nameLen), h.padding, junk);
    Verdict(md5, out, h.checksum, computed, keep)
  }

  /** What fread delivers after the header and a name of c bytes: nothing
      when the file ends before the name does. */
  function After(file: seq<Byte>, c: nat): (body: seq<Byte>)
    ensures HeaderLen + c <= |file| ==> body == file[HeaderLen + c..]
    ensures HeaderLen + c > |file| ==> body == []
  {
    if HeaderLen + c <= |file| then file[HeaderLen + c..] else []
  }

  /** The end of DecryptFile: without a checksum of the output the user
      decides whether to keep it; with one, it is kept exactly when it
      matches the checksum in the header. */
  function Verdict(md5: seq<Byte> -> Digest, out: seq<Byte>, checksum: seq<Byte>, computed: bool, keep: bool)
    : (r: FileResult)
    requires |checksum| % 2 == 0
  {
    if !computed then (if keep then Written(out) else Failed)
    else if md5(out) == BytesToWords(checksum) then Written(out)
    else Failed
  }

  /** What DecryptFileName reports: -1 (not a readable encrypted file, or a
      wrong key), 0 (the name does not decode) or 1 with the output path. */
  datatype NameResult = Invalid | Unreadable | Named(path: seq<Byte>)

  /** The byte count DecryptFileName asks malloc for, l + 1 + i - 16, an
      int for a name of l bytes and a directory part of i bytes. A negative
      count becomes a huge size_t, which malloc refuses. */
  function NameBufferSize(l: nat, dirLen: nat): int
  {
    l + 1 + dirLen - 16
  }

  /** DecryptFileName: reads the header and the encoded name, checks the
      tag, allocates the output name (failing when the size is negative),
      and puts the name DecryptString recovers (from the l / 2 words of the
      l name bytes) in the directory of inPath. */
  function DecryptFileName(D: Block -> Block, md5: seq<Byte> -> Digest, keySha0: seq<Byte>, inPath: seq<Byte>,
                           file: seq<Byte>): (r: NameResult)
    requires |keySha0| == TagLen
    ensures r != Invalid <==>
      |file| >= HeaderLen && file[..TagLen] == keySha0
      && 0 < WordOf(file[49], file[50]) && HeaderLen + WordOf(file[49], file[50]) <= |file|
      && NameBufferSize(WordOf(file[49], file[50]), |Dir(inPath)|) >= 0
    ensures r.Named? ==> exists name :: r.path == Dir(inPath) + name && NoNul(name)
  {
    match ReadHeader(file)
    case None => Invalid
    case Some(h) =>
      if h.nameLen == 0 || |file| < HeaderLen + h.nameLen || h.tag != keySha0 then Invalid
      else if NameBufferSize(h.nameLen, |Dir(inPath)|) < 0 then Invalid
      else
        InDirectory(inPath, DecodeString(D, md5, BytesToWords(EvenPart(file[HeaderLen..HeaderLen + h.nameLen]))))
  }

  /** The bytes of the l / 2 whole words in a buffer of l bytes: an odd
      last byte is not read. */
  function EvenPart(b: seq<Byte>): (e: seq<Byte>)
    ensures |e| % 2 == 0 && |b| - 1 <= |e| <= |b| && e == b[..|e|]
  {
    b[..|b| / 2 * 2]
  }

  /** The answer for a decoded name: 0 when it did not decode, otherwise
      the name in the directory of inPath. */
  function InDirectory(inPath: seq<Byte>, decoded: Option<seq<Byte>>): (r: NameResult)
    requires decoded.Some? ==> NoNul(decoded.value)
    ensures r != Invalid
    ensures r.Named? <==> decoded.Some?
    ensures r.Named? ==> r.path == Dir(inPath) + decoded.value
  {
    match decoded
    case None => Unreadable
    case Some(name) => Named(Dir(inPath) + name)
  }

  /** Where the fields of an encrypted file sit: tag, checksum, padding
      byte, the two bytes of the name length, the name, then the blocks. */
  lemma Layout(tag: seq<Byte>, sum: seq<Byte>, pad: Byte, len: seq<Byte>, name: seq<Byte>, body: seq<Byte>)
    requires |tag| == TagLen && |sum| == 16 && |len| == 2
    ensures var file := tag + sum + [pad] + len + name + body;
      |file| == HeaderLen + |name| + |body|
      && file[..TagLen] == tag && file[TagLen..48] == sum && file[48] == pad
      && file[49] == len[0] && file[50] == len[1]
      && file[HeaderLen..HeaderLen + |name|] == name && file[HeaderLen + |name|..] == body
  {
    var file := tag + sum + [pad] + len + name + body;
    var head := tag + sum + [pad] + len;
    assert file == head + (name + body);
    assert |head| == HeaderLen;
    assert file[..TagLen] == head[..TagLen] == tag;
    assert file[TagLen..48] == head[TagLen..48] == sum;
  }

  /** The header EncryptFile writes reads back as its fields: the key tag,
      the MD5 of the contents, the padding and the length of the name, and
      the name and the blocks follow it. */
  lemma ReadBack(E: Block -> Block, md5: seq<Byte> -> Digest, keySha: seq<Byte>, inPath: seq<Byte>,
                 outPath: seq<Byte>, f: seq<Byte>, junk: seq<Byte>)
    requires |keySha| == TagLen && |junk| == 8 && NoNul(inPath)
    requires NameLength(|FileName(inPath)|) < 0x10000 && inPath != outPath
    ensures var file := EncryptFile(E, md5, keySha, inPath, outPath, f, junk).contents;
      var name := FileName(inPath);
      var l := NameLength(|name|);
      ReadHeader(file) == Some(Header(keySha, WordsToBytes(md5(f)), Padding(|f|), l))
      && HeaderLen + l <= |file|
      && file[HeaderLen..HeaderLen + l] == WordsToBytes(EncodedString(E, md5, name))
      && file[HeaderLen + l..] == EncipherFile(E, f, junk)
  {
    var name := FileName(inPath);
    var l := NameLength(|name|);
    var len := WordsToBytes([l]);
    assert len == [l % 0x100, l / 0x100];
    SplitWord(l);
    Layout(keySha, WordsToBytes(md5(f)), Padding(|f|), len, WordsToBytes(EncodedString(E, md5, name)),
           EncipherFile(E, f, junk));
  }

  /** nbBlocks, as DecryptFile computes it from the size of a file
      EncryptFile wrote, is the number of blocks EncryptFile enciphered. */
  lemma BlockCountBack(E: Block -> Block, f: seq<Byte>, junk: seq<Byte>, l: nat, fileLen: nat)
    requires |junk| == 8 && fileLen == HeaderLen + l + |EncipherFile(E, f, junk)|
    ensures BlockCount(fileLen, l) == NumChunks(|f|)
  {
    var k := NumChunks(|f|);
    DivModUnique(|f| + 7, 8, k, (|f| + 7) % 8);
    EncipherFileLength(E, f, junk, k);
    DivModUnique(8 * k + 7, 8, k, 7);
  }

  /** The headline property of the file format: with a decryption that
      undoes the encryption and the same key tag, DecryptFile gives back the
      contents EncryptFile enciphered. It keeps them when the checksum can be
      computed (it then matches) and otherwise when the user says so. */
  lemma FileRoundTrip(E: Block -> Block, D: Block -> Block, md5: seq<Byte> -> Digest, keySha: seq<Byte>,
                      inPath: seq<Byte>, encPath: seq<Byte>, outPath: seq<Byte>, f: seq<Byte>,
                      junk: seq<Byte>, junk2: seq<Byte>, computed: bool, keep: bool)
    requires forall x :: D(E(x)) == x
    requires |keySha| == TagLen && |junk| == 8 && |junk2| == 8 && NoNul(inPath)
    requires NameLength(|FileName(inPath)|) < 0x10000
    requires inPath != encPath && encPath != outPath
    ensures EncryptFile(E, md5, keySha, inPath, encPath, f, junk).Written?
    ensures DecryptFile(D, md5, keySha, encPath, outPath, EncryptFile(E, md5, keySha, inPath, encPath, f, junk).contents,
                        junk2, computed, keep)
         == if computed || keep then Written(f) else Failed
  {
    ReadBack(E, md5, keySha, inPath, encPath, f, junk);
    DecryptWellFormed(E, D, md5, keySha, encPath, outPath, EncryptFile(E, md5, keySha, inPath, encPath, f, junk).contents,
                      NameLength(|FileName(inPath)|), f, junk, junk2, computed, keep);
  }

  /** DecryptFile on any file laid out as EncryptFile lays out f. */
  lemma DecryptWellFormed(E: Block -> Block, D: Block -> Block, md5: seq<Byte> -> Digest, keySha: seq<Byte>,
                          encPath: seq<Byte>, outPath: seq<Byte>, file: seq<Byte>, l: Word, f: seq<Byte>,
                          junk: seq<Byte>, junk2: seq<Byte>, computed: bool, keep: bool)
    requires forall x :: D(E(x)) == x
    requires |keySha| == TagLen && |junk| == 8 && |junk2| == 8 && encPath != outPath
    requires ReadHeader(file) == Some(Header(keySha, WordsToBytes(md5(f)), Padding(|f|), l))
    requires HeaderLen + l <= |file| && file[HeaderLen + l..] == EncipherFile(E, f, junk)
    ensures DecryptFile(D, md5, keySha, encPath, outPath, file, junk2, computed, keep)
         == if computed || keep then Written(f) else Failed
  {
    var h := Header(keySha, WordsToBytes(md5(f)), Padding(|f|), l);
    PastHeader(D, md5, keySha, encPath, outPath, file, h, junk2, computed, keep);
    DecipherBodyBack(E, D, file, l, f, junk, junk2);
    BodyOf(D, md5, file, h, junk2, computed, keep, f);
    WordsBytesWords(md5(f));
    VerdictOnMatch(md5, f, h.checksum, computed, keep);
  }

  /** DecryptBody, when the blocks after the name decipher to out. */
  lemma BodyOf(D: Block -> Block, md5: seq<Byte> -> Digest, file: seq<Byte>, h: Header, junk: seq<Byte>,
               computed: bool, keep: bool, out: seq<Byte>)
    requires |junk| == 8 && |h.checksum| % 2 == 0
    requires DecipherFile(D, After(file, h.nameLen), 1, BlockCount(|file|, h.nameLen), h.padding, junk) == out
    ensures DecryptBody(D, md5, file, h, junk, computed, keep) == Verdict(md5, out, h.checksum, computed, keep)
  {
  }

  /** When the checksum matches, the output survives unless there was no
      checksum to compare and the user declined. */
  lemma VerdictOnMatch(md5: seq<Byte> -> Digest, out: seq<Byte>, checksum: seq<Byte>, computed: bool, keep: bool)
    requires |checksum| % 2 == 0 && md5(out) == BytesToWords(checksum)
    ensures Verdict(md5, out, checksum, computed, keep) == if computed || keep then Written(out) else Failed
  {
  }

  /** Past the header checks, DecryptFile's answer is DecryptBody's. */
  lemma PastHeader(D: Block -> Block, md5: seq<Byte> -> Digest, keySha: seq<Byte>, inPath: seq<Byte>,
                   outPath: seq<Byte>, file: seq<Byte>, h: Header, junk: seq<Byte>, computed: bool, keep: bool)
    requires |keySha| == TagLen && |junk| == 8 && inPath != outPath && h.tag == keySha
    requires ReadHeader(file) == Some(h)
    ensures |h.checksum| == 16
    ensures DecryptFile(D, md5, keySha, inPath, outPath, file, junk, computed, keep)
         == DecryptBody(D, md5, file, h, junk, computed, keep)
  {
  }

  /** The blocks after the name decipher back to the contents. */
  lemma DecipherBodyBack(E: Block -> Block, D: Block -> Block, file: seq<Byte>, l: nat, f: seq<Byte>,
                         junk: seq<Byte>, junk2: seq<Byte>)
    requires forall x :: D(E(x)) == x
    requires |junk| == 8 && |junk2| == 8
    requires HeaderLen + l <= |file| && file[HeaderLen + l..] == EncipherFile(E, f, junk)
    ensures DecipherFile(D, After(file, l), 1, BlockCount(|file|, l), Padding(|f|), junk2) == f
  {
    assert |file| == HeaderLen + l + |EncipherFile(E, f, junk)|;
    BlockCountBack(E, f, junk, l, |file|);
    DecipherEncipherFile(E, D, f, junk, junk2, 1, NumChunks(|f|));
  }

  /** With another key tag, DecryptFile refuses an encrypted file before
      deciphering anything. */
  lemma WrongKeyRejected(E: Block -> Block, D: Block -> Block, md5: seq<Byte> -> Digest, keySha: seq<Byte>,
                         keySha0: seq<Byte>, inPath: seq<Byte>, encPath: seq<Byte>, outPath: seq<Byte>,
                         f: seq<Byte>, junk: seq<Byte>, junk2: seq<Byte>, computed: bool, keep: bool)
    requires |keySha| == TagLen && |keySha0| == TagLen && keySha0 != keySha
    requires |junk| == 8 && |junk2| == 8 && NoNul(inPath)
    requires NameLength(|FileName(inPath)|) < 0x10000 && inPath != encPath
    ensures DecryptFile(D, md5, keySha0, encPath, outPath, EncryptFile(E, md5, keySha, inPath, encPath, f, junk).contents,
                        junk2, computed, keep) == Failed
    ensures DecryptFileName(D, md5, keySha0, encPath, EncryptFile(E, md5, keySha, inPath, encPath, f, junk).contents)
         == Invalid
  {
    ReadBack(E, md5, keySha, inPath, encPath, f, junk);
  }

  /** DecryptFileName recovers the file name EncryptFile stored, in the
      directory of the encrypted file; an empty name does not decode. */
  lemma NameRoundTrip(E: Block -> Block, D: Block -> Block, md5: seq<Byte> -> Digest, keySha: seq<Byte>,
                      inPath: seq<Byte>, encPath: seq<Byte>, f: seq<Byte>, junk: seq<Byte>)
    requires forall x :: D(E(x)) == x
    requires |keySha| == TagLen && |junk| == 8 && NoNul(inPath)
    requires NameLength(|FileName(inPath)|) < 0x10000 && inPath != encPath
    ensures var name := FileName(inPath);
      DecryptFileName(D, md5, keySha, encPath, EncryptFile(E, md5, keySha, inPath, encPath, f, junk).contents)
      == if |name| == 0 then Unreadable else Named(Dir(encPath) + name)
  {
    var name := FileName(inPath);
    var file := EncryptFile(E, md5, keySha, inPath, encPath, f, junk).contents;
    ReadBack(E, md5, keySha, inPath, encPath, f, junk);
    FileNameNoNul(inPath);
    NameWellFormed(E, D, md5, keySha, encPath, file, Header(keySha, WordsToBytes(md5(f)), Padding(|f|), NameLength(|name|)),
                   name);
  }

  /** A C string's file name is a C string. */
  lemma FileNameNoNul(p: seq<Byte>)
    requires NoNul(p)
    ensures NoNul(FileName(p))
  {
    var name := FileName(p);
    forall j | 0 <= j < |name|
      ensures name[j] != 0
    {
      assert name[j] == p[NameStart(p) + j];
    }
  }

  /** DecryptFileName on any file whose header and name are laid out as
      EncryptFile lays out name. */
  lemma NameWellFormed(E: Block -> Block, D: Block -> Block, md5: seq<Byte> -> Digest, keySha: seq<Byte>,
                       encPath: seq<Byte>, file: seq<Byte>, h: Header, name: seq<Byte>)
    requires forall x :: D(E(x)) == x
    requires |keySha| == TagLen && NoNul(name) && h.tag == keySha
    requires ReadHeader(file) == Some(h) && HeaderLen + h.nameLen <= |file|
    requires file[HeaderLen..HeaderLen + h.nameLen] == WordsToBytes(EncodedString(E, md5, name))
    ensures DecryptFileName(D, md5, keySha, encPath, file)
         == if |name| == 0 then Unreadable else Named(Dir(encPath) + name)
  {
    var w := EncodedString(E, md5, name);
    var stored := file[HeaderLen..HeaderLen + h.nameLen];
    StoredWords(stored, w);
    assert h.nameLen == |stored|;
    StoredName(D, md5, keySha, encPath, file, h, w);
    StringRoundTrip(E, D, md5, name);
  }

  /** The words DecryptFileName reads back from the stored name bytes are
      the words that were stored. */
  lemma StoredWords(stored: seq<Byte>, ws: seq<Word>)
    requires stored == WordsToBytes(ws)
    ensures |stored| == 2 * |ws| && BytesToWords(EvenPart(stored)) == ws
  {
    WholeWords(ws);
  }

  /** Past the header checks, DecryptFileName's answer is the decoding of
      the stored words ws. */
  lemma StoredName(D: Block -> Block, md5: seq<Byte> -> Digest, keySha: seq<Byte>, encPath: seq<Byte>,
                   file: seq<Byte>, h: Header, ws: seq<Word>)
    requires |keySha| == TagLen && h.tag == keySha && h.nameLen > 0
    requires NameBufferSize(h.nameLen, |Dir(encPath)|) >= 0
    requires ReadHeader(file) == Some(h) && HeaderLen + h.nameLen <= |file|
    requires BytesToWords(EvenPart(file[HeaderLen..HeaderLen + h.nameLen])) == ws
    ensures DecryptFileName(D, md5, keySha, encPath, file) == InDirectory(encPath, DecodeString(D, md5, ws))
  {
  }
}
