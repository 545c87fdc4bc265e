/** The path helpers of main.c: GetFileNameFromAddr and the names main gives
    to the files it writes. Paths are C strings, so they are byte sequences
    without a NUL. */
module Paths {
  import opened Arith
  import opened Words
  import opened StringCodec

  const Slash: Byte := '/' as int
  const Backslash: Byte := '\\' as int
  const Dot: Byte := '.' as int

  /** The extension main appends to every encrypted file. */
  const CrptExt: seq<Byte> := ['.' as int, 'c' as int, 'r' as int, 'p' as int, 't' as int]

  /** The prefix main gives a decrypted file whose name it cannot recover. */
  const DcptPrefix: seq<Byte> := ['~' as int, 'D' as int, 'C' as int, 'P' as int, 'T' as int, '-' as int]

  predicate IsSeparator(b: Byte)
  {
    b == Slash || b == Backslash
  }

  /** A single path component: no separator anywhere. */
  predicate NoSeparator(s: seq<Byte>)
  {
    forall j :: 0 <= j < |s| ==> !IsSeparator(s[j])
  }

  lemma NoSeparatorConcat(a: seq<Byte>, b: seq<Byte>)
    requires NoSeparator(a) && NoSeparator(b)
    ensures NoSeparator(a + b)
  {
    forall j | |a| <= j < |a + b|
      ensures !IsSeparator((a + b)[j])
    {
      assert (a + b)[j] == b[j - |a|];
    }
  }

  /** strrchr: the index of the last c in p, or -1 when p holds none. */
  function LastIndexOf(p: seq<Byte>, c: Byte): (i: int)
    ensures -1 <= i < |p|
    ensures i >= 0 ==> p[i] == c
    ensures forall j :: i < j < |p| ==> p[j] != c
  {
    if |p| == 0 then -1
    else if p[|p| - 1] == c then |p| - 1
    else LastIndexOf(p[..|p| - 1], c)
  }

  function Max(a: int, b: int): int
  {
    if a >= b then a else b
  }

  /** Where GetFileNameFromAddr's result starts: just after the later of
      the last '/' and the last '\', or 0 when p holds neither. So no
      separator follows it, and a separator precedes it unless it is 0. */
  function NameStart(p: seq<Byte>): (i: nat)
    ensures i <= |p|
    ensures forall j :: i <= j < |p| ==> !IsSeparator(p[j])
    ensures i > 0 ==> IsSeparator(p[i - 1])
  {
    Max(LastIndexOf(p, Slash), LastIndexOf(p, Backslash)) + 1
  }

  /** GetFileNameFromAddr. */
  function FileName(p: seq<Byte>): seq<Byte>
  {
    p[NameStart(p)..]
  }

  /** The part of p that GetFileNameFromAddr skips: the directory, with its
      trailing separator. */
  function Dir(p: seq<Byte>): seq<Byte>
  {
    p[..NameStart(p)]
  }

  /** A path is its directory followed by its file name; the file name
      holds no separator and the directory, unless empty, ends in one. */
  lemma DirAndName(p: seq<Byte>)
    ensures Dir(p) + FileName(p) == p
    ensures NoSeparator(FileName(p))
    ensures |Dir(p)| == 0 || IsSeparator(Dir(p)[|Dir(p)| - 1])
  {
    var i := NameStart(p);
    forall j | 0 <= j < |FileName(p)|
      ensures !IsSeparator(FileName(p)[j])
    {
      assert FileName(p)[j] == p[i + j];
    }
  }

  /** A path made of a file name only is its own file name. */
  lemma NoSeparatorName(p: seq<Byte>)
    requires NoSeparator(p)
    ensures FileName(p) == p && Dir(p) == []
  {
    NoneFound(p, Slash);
    NoneFound(p, Backslash);
  }

  lemma {:induction false} NoneFound(p: seq<Byte>, c: Byte)
    requires forall j :: 0 <= j < |p| ==> p[j] != c
    ensures LastIndexOf(p, c) == -1
  {
    if |p| > 0 {
      NoneFound(p[..|p| - 1], c);
    }
  }

  /** GetFileNameFromAddr applied to its own result changes nothing. */
  lemma FileNameIdempotent(p: seq<Byte>)
    ensures FileName(FileName(p)) == FileName(p)
  {
    DirAndName(p);
    NoSeparatorName(FileName(p));
  }

  /** A directory followed by a separator-free name splits back into the
      two. */
  lemma SplitPath(d: seq<Byte>, name: seq<Byte>)
    requires |d| == 0 || IsSeparator(d[|d| - 1])
    requires NoSeparator(name)
    ensures FileName(d + name) == name && Dir(d + name) == d
  {
    LastIndexPastName(d, name, Slash);
    LastIndexPastName(d, name, Backslash);
  }

  /** strrchr skips a tail that does not hold the byte it looks for. */
  lemma {:induction false} LastIndexPastName(d: seq<Byte>, name: seq<Byte>, c: Byte)
    requires NoSeparator(name) && IsSeparator(c)
    ensures LastIndexOf(d + name, c) == LastIndexOf(d, c)
  {
    if |name| > 0 {
      var name' := name[..|name| - 1];
      assert (d + name)[..|d + name| - 1] == d + name';
      LastIndexPastName(d, name', c);
    } else {
      assert d + name == d;
    }
  }

  /** One lowercase hexadecimal digit, as printf's %x writes it. */
  function HexDigit(v: nat): (c: Byte)
    requires v < 16
    ensures IsHexDigit(c) && DigitValue(c) == v
  {
    if v < 10 then '0' as int + v else 'a' as int + (v - 10)
  }

  predicate IsHexDigit(c: Byte)
  {
    '0' as int <= c <= '9' as int || 'a' as int <= c <= 'f' as int
  }

  /** The value of a lowercase hexadecimal digit. */
  function DigitValue(c: Byte): (v: nat)
    ensures v < 16
  {
    if '0' as int <= c <= '9' as int then c - '0' as int
    else if 'a' as int <= c <= 'f' as int then c - 'a' as int + 10
    else 0
  }

  /** %04x of one word: its four base-16 digits, most significant first. */
  function HexWord(w: Word): (h: seq<Byte>)
    ensures |h| == 4
  {
    [HexDigit(w / 0x1000), HexDigit(w / 0x100 % 16), HexDigit(w / 0x10 % 16), HexDigit(w % 16)]
  }

  /** The four digits HexWord prints add back up to the word. */
  lemma WordDigits(w: Word)
    ensures w / 0x1000 < 16
    ensures w == w / 0x1000 * 0x1000 + w / 0x100 % 16 * 0x100 + w / 0x10 % 16 * 0x10 + w % 16
  {
    var q1 := w / 16;
    var q2 := q1 / 16;
    DivModUnique(w, 0x100, q2, q1 % 16 * 16 + w % 16);
    DivModUnique(w, 0x1000, q2 / 16, q2 % 16 * 0x100 + q1 % 16 * 16 + w % 16);
  }

  /** The 8 words of an MD5 digest printed with %04x one after the other. */
  function HexDigest(d: seq<Word>): (h: seq<Byte>)
    ensures |h| == 4 * |d|
  {
    if |d| == 0 then [] else HexWord(d[0]) + HexDigest(d[1..])
  }

  /** Reading the hexadecimal text back, four digits per word. */
  function ParseHex(h: seq<Byte>): (d: seq<Word>)
    requires |h| % 4 == 0
    ensures |d| == |h| / 4
  {
    if |h| == 0 then []
    else
      [DigitValue(h[0]) * 0x1000 + DigitValue(h[1]) * 0x100 + DigitValue(h[2]) * 0x10 + DigitValue(h[3])]
      + ParseHex(h[4..])
  }

  /** The printed digest names the digest: reading it back gives the words,
      so two different digests never give the same file name. */
  lemma {:induction false} HexDigestParses(d: seq<Word>)
    ensures ParseHex(HexDigest(d)) == d
  {
    if |d| > 0 {
      var h := HexDigest(d);
      WordDigits(d[0]);
      assert h[..4] == HexWord(d[0]) && h[4..] == HexDigest(d[1..]);
      HexDigestParses(d[1..]);
    }
  }

  /** Every byte of the printed digest is a hexadecimal digit, in
      particular neither a separator nor a NUL. */
  lemma {:induction false} HexDigestDigits(d: seq<Word>)
    ensures forall j :: 0 <= j < |HexDigest(d)| ==> IsHexDigit(HexDigest(d)[j])
  {
    if |d| > 0 {
      HexDigestDigits(d[1..]);
      var h := HexDigest(d);
      forall j | 4 <= j < |h|
        ensures IsHexDigit(h[j])
      {
        assert h[j] == HexDigest(d[1..])[j - 4];
      }
    }
  }

  /** The output path of an encryption: with name encryption, the directory
      of the input followed by the MD5 of the whole input path in hex;
      without it, the input path itself; ".crpt" appended either way. */
  function EncryptedPath(path: seq<Byte>, encryptName: bool, md5: seq<Byte> -> Digest): seq<Byte>
  {
    if encryptName then Dir(path) + (HexDigest(md5(path)) + CrptExt) else path + CrptExt
  }

  /** With name encryption the output stays in the input's directory, and
      its file name is the printed digest with the extension. */
  lemma EncryptedNameInSameDir(path: seq<Byte>, md5: seq<Byte> -> Digest)
    ensures Dir(EncryptedPath(path, true, md5)) == Dir(path)
    ensures FileName(EncryptedPath(path, true, md5)) == HexDigest(md5(path)) + CrptExt
  {
    var name := HexDigest(md5(path)) + CrptExt;
    HexDigestDigits(md5(path));
    assert NoSeparator(HexDigest(md5(path)));
    NoSeparatorConcat(HexDigest(md5(path)), CrptExt);
    DirAndName(path);
    SplitPath(Dir(path), name);
  }

  /** Appending ".crpt" keeps a path in its directory. */
  lemma ExtensionKeepsDir(path: seq<Byte>)
    ensures Dir(path + CrptExt) == Dir(path)
  {
    DirAndName(path);
    assert NoSeparator(CrptExt);
    NoSeparatorConcat(FileName(path), CrptExt);
    assert Dir(path) + (FileName(path) + CrptExt) == path + CrptExt;
    SplitPath(Dir(path), FileName(path) + CrptExt);
  }

  /** The output path of a decryption whose file name could not be
      recovered: the path without its ".crpt" when the last '.' starts
      exactly that extension; otherwise "~DCPT-" before the file name, in the
      same directory. */
  function FallbackPath(path: seq<Byte>): (out: seq<Byte>)
  {
    var d := LastIndexOf(path, Dot);
    if d >= 0 && path[d..] == CrptExt then path[..d]
    else Dir(path) + (DcptPrefix + FileName(path))
  }

  /** Stripping the extension undoes appending it. */
  lemma FallbackStripsExtension(path: seq<Byte>)
    ensures FallbackPath(path + CrptExt) == path
  {
    var p := path + CrptExt;
    assert p[|path|] == Dot;
    assert forall j :: |path| < j < |p| ==> p[j] != Dot;
    assert LastIndexOf(p, Dot) == |path|;
    assert p[|path|..] == CrptExt;
  }

  /** A path ending in anything but ".crpt" keeps its directory, and its
      file name gets the "~DCPT-" prefix. */
  lemma FallbackPrefixesName(path: seq<Byte>)
    requires |path| < |CrptExt| || path[|path| - |CrptExt|..] != CrptExt
    ensures FallbackPath(path) == Dir(path) + (DcptPrefix + FileName(path))
    ensures Dir(FallbackPath(path)) == Dir(path)
    ensures FileName(FallbackPath(path)) == DcptPrefix + FileName(path)
  {
    var d := LastIndexOf(path, Dot);
    if d >= 0 && path[d..] == CrptExt {
      assert false;
    }
    DirAndName(path);
    var name := DcptPrefix + FileName(path);
    NoSeparatorConcat(DcptPrefix, FileName(path));
    SplitPath(Dir(path), name);
  }
}
