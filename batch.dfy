/** The processing loop of main: for each listed file, the output path,
    the overwrite policy the user builds up by answering prompts, and the
    count of failures reported at the end. The file operations themselves
    (EncryptFile, DecryptFile, DecryptFileName, remove) are seen through
    what they report. */
module Batch {
  import opened Words
  import opened BlockCipher
  import opened StringCodec
  import opened Paths
  import opened Envelope

  /** Encryption (with or without name encryption) or decryption. */
  datatype Mode = Encrypting(encryptName: bool) | Decrypting

  /** autoOverwrite: 0 asks before replacing a file, 1 replaces silently,
      -1 skips silently. */
  datatype Policy = Ask | Always | Never

  /** The keys accepted at the overwrite prompt: 'n', 'N', 'y', 'Y'. */
  datatype Answer = No | NoToAll | Yes | YesToAll

  /** One listed file, with what the outside world reports about it: the
      answer of DecryptFileName (decryption only), the key the user would
      type if asked to overwrite, the result of EncryptFile / DecryptFile,
      and whether remove succeeds. */
  datatype Item = Item(path: seq<Byte>, name: NameResult, answer: Answer, ok: bool, removable: bool)

  /** The state the loop carries from file to file: the policy, nbFails,
      the regular files that exist, and every output path an operation was
      started on while a file of that name existed. */
  datatype Tally = Tally(policy: Policy, nbFails: nat, present: set<seq<Byte>>, overwritten: seq<seq<Byte>>)

  /** The state before the first file. */
  function Start(present: set<seq<Byte>>): (t: Tally)
    ensures t.policy == Ask && t.nbFails == 0 && t.present == present && t.overwritten == []
  {
    Tally(Ask, 0, present, [])
  }

  /** The output path of one file, or None when DecryptFileName reports -1
      and the file is skipped as a failure. */
  function OutputPath(mode: Mode, md5: seq<Byte> -> Digest, it: Item): (out: Option<seq<Byte>>)
    ensures out.None? <==> mode.Decrypting? && it.name.Invalid?
    ensures mode.Encrypting? ==> out == Some(EncryptedPath(it.path, mode.encryptName, md5))
    ensures mode.Decrypting? && it.name.Named? ==> out == Some(it.name.path)
  {
    match mode
    case Encrypting(encryptName) => Some(EncryptedPath(it.path, encryptName, md5))
    case Decrypting =>
      match it.name
      case Invalid => None
      case Unreadable => Some(FallbackPath(it.path))
      case Named(p) => Some(p)
  }

  /** Runs EncryptFile / DecryptFile on a file whose output is out: a
      failure adds one to nbFails; a success leaves out in place and, with
      autoDelete, removes the input when remove succeeds. */
  function Proceed(autoDelete: bool, t: Tally, it: Item, out: seq<Byte>): (r: Tally)
    ensures r.policy == t.policy
    ensures r.nbFails == t.nbFails + (if it.ok then 0 else 1)
    ensures r.overwritten == if out in t.present then t.overwritten + [out] else t.overwritten
    ensures it.ok && out != it.path ==> out in r.present
  {
    var t1 := if out in t.present then t.(overwritten := t.overwritten + [out]) else t;
    if !it.ok then t1.(nbFails := t1.nbFails + 1)
    else if autoDelete && it.removable then t1.(present := (t1.present + {out}) - {it.path})
    else t1.(present := t1.present + {out})
  }

  /** One turn of the loop. */
  function Step(mode: Mode, md5: seq<Byte> -> Digest, autoDelete: bool, t: Tally, it: Item): Tally
  {
    match OutputPath(mode, md5, it)
    case None => t.(nbFails := t.nbFails + 1)
    case Some(out) =>
      if t.policy != Always && out in t.present then
        if t.policy == Never then t
        else
          match it.answer
          case No => t
          case NoToAll => t.(policy := Never)
          case Yes => Proceed(autoDelete, t, it, out)
          case YesToAll => Proceed(autoDelete, t.(policy := Always), it, out)
      else Proceed(autoDelete, t, it, out)
  }

  /** The loop over the listed files, one turn per file in order. */
  function Run(mode: Mode, md5: seq<Byte> -> Digest, autoDelete: bool, t: Tally, items: seq<Item>): Tally
    decreases |items|
  {
    if |items| == 0 then t else Run(mode, md5, autoDelete, Step(mode, md5, autoDelete, t, items[0]), items[1..])
  }

  /** The loop of main, with its variables autoOverwrite, nbFails and the
      state of the file system. */
  method ProcessAll(mode: Mode, md5: seq<Byte> -> Digest, autoDelete: bool, items: seq<Item>,
                    files: set<seq<Byte>>)
    returns (policy: Policy, nbFails: nat, present: set<seq<Byte>>, overwritten: seq<seq<Byte>>)
    ensures Tally(policy, nbFails, present, overwritten) == Run(mode, md5, autoDelete, Start(files), items)
    ensures nbFails <= |items|
  {
    policy, nbFails, present, overwritten := Ask, 0, files, [];
    var rest := items;
    while |rest| > 0
      invariant Run(mode, md5, autoDelete, Tally(policy, nbFails, present, overwritten), rest)
             == Run(mode, md5, autoDelete, Start(files), items)
      invariant nbFails + |rest| <= |items|
      decreases |rest|
    {
      var it := rest[0];
      var t := Tally(policy, nbFails, present, overwritten);
      assert Run(mode, md5, autoDelete, t, rest) == Run(mode, md5, autoDelete, Step(mode, md5, autoDelete, t, it), rest[1..]);
      rest := rest[1..];
      var out := OutputPath(mode, md5, it);
      if out.None? {
        nbFails := nbFails + 1;
      } else {
        var go := true;
        if policy != Always && out.value in present {
          if policy == Never || it.answer == No {
            go := false;
          } else if it.answer == NoToAll {
            policy, go := Never, false;
          } else if it.answer == YesToAll {
            policy := Always;
          }
        }
        if go {
          if out.value in present {
            overwritten := overwritten + [out.value];
          }
          if !it.ok {
            nbFails := nbFails + 1;
          } else if autoDelete && it.removable {
            present := (present + {out.value}) - {it.path};
          } else {
            present := present + {out.value};
          }
        }
      }
      assert Tally(policy, nbFails, present, overwritten) == Step(mode, md5, autoDelete, t, it);
    }
  }

  /** Each file adds at most one failure: at most count failures in all, so
      the "processed" count main prints is never negative. */
  lemma {:induction false} FailsBounded(mode: Mode, md5: seq<Byte> -> Digest, autoDelete: bool, t: Tally,
                                        items: seq<Item>)
    ensures t.nbFails <= Run(mode, md5, autoDelete, t, items).nbFails <= t.nbFails + |items|
    decreases |items|
  {
    if |items| > 0 {
      FailsBounded(mode, md5, autoDelete, Step(mode, md5, autoDelete, t, items[0]), items[1..]);
    }
  }

  /** The names DecryptFileName rejects (-1) in a list. */
  function Rejected(items: seq<Item>): (n: nat)
    ensures n <= |items|
    decreases |items|
  {
    if |items| == 0 then 0 else (if items[0].name.Invalid? then 1 else 0) + Rejected(items[1..])
  }

  /** When decrypting, every file whose name DecryptFileName rejects is
      counted as a failure. */
  lemma {:induction false} RejectedAreFailures(md5: seq<Byte> -> Digest, autoDelete: bool, t: Tally,
                                               items: seq<Item>)
    ensures Run(Decrypting, md5, autoDelete, t, items).nbFails >= t.nbFails + Rejected(items)
    decreases |items|
  {
    if |items| > 0 {
      RejectedAreFailures(md5, autoDelete, Step(Decrypting, md5, autoDelete, t, items[0]), items[1..]);
    }
  }

  /** When every operation succeeds and no name is rejected, nothing is
      counted as a failure, skipped files included. */
  lemma {:induction false} NoFailures(mode: Mode, md5: seq<Byte> -> Digest, autoDelete: bool, t: Tally,
                                      items: seq<Item>)
    requires forall i :: 0 <= i < |items| ==> items[i].ok && (mode.Decrypting? ==> !items[i].name.Invalid?)
    ensures Run(mode, md5, autoDelete, t, items).nbFails == t.nbFails
    decreases |items|
  {
    if |items| > 0 {
      NoFailures(mode, md5, autoDelete, Step(mode, md5, autoDelete, t, items[0]), items[1..]);
    }
  }

  /** Once the user has answered 'Y' or 'N', the prompt never comes back:
      the policy stays what it is. */
  lemma {:induction false} PolicySettled(mode: Mode, md5: seq<Byte> -> Digest, autoDelete: bool, t: Tally,
                                         items: seq<Item>)
    requires t.policy != Ask
    ensures Run(mode, md5, autoDelete, t, items).policy == t.policy
    decreases |items|
  {
    if |items| > 0 {
      PolicySettled(mode, md5, autoDelete, Step(mode, md5, autoDelete, t, items[0]), items[1..]);
    }
  }

  /** Without 'always' and without a 'y' or 'Y' from the user, no existing
      file is ever replaced. */
  lemma {:induction false} NoConsentNoOverwrite(mode: Mode, md5: seq<Byte> -> Digest, autoDelete: bool, t: Tally,
                                                items: seq<Item>)
    requires t.policy != Always
    requires forall i :: 0 <= i < |items| ==> items[i].answer != Yes && items[i].answer != YesToAll
    ensures Run(mode, md5, autoDelete, t, items).overwritten == t.overwritten
    decreases |items|
  {
    if |items| > 0 {
      NoConsentNoOverwrite(mode, md5, autoDelete, Step(mode, md5, autoDelete, t, items[0]), items[1..]);
    }
  }

  /** After 'N', whatever the user would answer, no existing file is
      replaced. */
  lemma {:induction false} NeverOverwrites(mode: Mode, md5: seq<Byte> -> Digest, autoDelete: bool, t: Tally,
                                           items: seq<Item>)
    requires t.policy == Never
    ensures Run(mode, md5, autoDelete, t, items).overwritten == t.overwritten
    decreases |items|
  {
    if |items| > 0 {
      NeverOverwrites(mode, md5, autoDelete, Step(mode, md5, autoDelete, t, items[0]), items[1..]);
    }
  }

  /** With 'always', every output goes ahead: a file fails only when its
      operation fails or its name is rejected. */
  lemma AlwaysProceeds(mode: Mode, md5: seq<Byte> -> Digest, autoDelete: bool, t: Tally, it: Item)
    requires t.policy == Always
    ensures var r := Step(mode, md5, autoDelete, t, it);
      r.policy == Always
      && r.nbFails == t.nbFails + (if (mode.Decrypting? && it.name.Invalid?) || !it.ok then 1 else 0)
  {
  }

  /** An output path that is not the input: encryption without name
      encryption appends ".crpt", and the fallback of an unreadable name
      either drops that extension or adds the "~DCPT-" prefix. So
      EncryptFile / DecryptFile never refuse these for identical names. */
  lemma OutputIsNotInput(mode: Mode, md5: seq<Byte> -> Digest, it: Item)
    requires mode == Encrypting(false) || (mode.Decrypting? && it.name.Unreadable?)
    ensures OutputPath(mode, md5, it).Some? && OutputPath(mode, md5, it).value != it.path
  {
    var p := it.path;
    if mode.Decrypting? {
      var d := LastIndexOf(p, Dot);
      if d >= 0 && p[d..] == CrptExt {
        assert |FallbackPath(p)| < |p|;
      } else {
        DirAndName(p);
        assert |FallbackPath(p)| == |p| + |DcptPrefix|;
      }
    }
  }

  /** Decrypting what encryption without name encryption wrote, with the
      name unreadable, restores the original path. */
  lemma FallbackRestoresPath(md5: seq<Byte> -> Digest, it: Item, original: seq<Byte>)
    requires it.path == EncryptedPath(original, false, md5) && it.name.Unreadable?
    ensures OutputPath(Decrypting, md5, it) == Some(original)
  {
    FallbackStripsExtension(original);
  }

  /** Encrypting a file (its name encrypted or not) and decrypting the
      result's name puts the output back at the input's path. */
  lemma PathRoundTrip(E: Block -> Block, D: Block -> Block, md5: seq<Byte> -> Digest, keySha: seq<Byte>,
                      inPath: seq<Byte>, encryptName: bool, f: seq<Byte>, junk: seq<Byte>)
    requires forall x :: D(E(x)) == x
    requires |keySha| == TagLen && |junk| == 8 && NoNul(inPath) && |FileName(inPath)| > 0
    requires NameLength(|FileName(inPath)|) < 0x10000
    requires EncryptedPath(inPath, encryptName, md5) != inPath
    ensures var encPath := EncryptedPath(inPath, encryptName, md5);
      var r := EncryptFile(E, md5, keySha, inPath, encPath, f, junk);
      r.Written? && DecryptFileName(D, md5, keySha, encPath, r.contents) == Named(inPath)
  {
    var encPath := EncryptedPath(inPath, encryptName, md5);
    NameRoundTrip(E, D, md5, keySha, inPath, encPath, f, junk);
    if encryptName {
      EncryptedNameInSameDir(inPath, md5);
    } else {
      ExtensionKeepsDir(inPath);
    }
    DirAndName(inPath);
  }
}
