# IDEA file encryption — a Dafny model

This project models the core of a small C program that encrypts files with
the IDEA block cipher (64-bit blocks, 128-bit key, 16-bit words).

- `idea.c` holds the cipher and the file format.
  - The cipher itself: multiplication modulo 2^16 + 1 and its inverse, the
    key schedule `SetMainKey`/`ShiftKey`, the round functions
    `MakeRound`/`MakeTransfo`, and `Encrypt`/`Decrypt` of one block.
  - `EncryptString`/`DecryptString`, which encode a file name as its MD5
    followed by its enciphered 8-byte chunks.
  - The file format of `EncryptFile`, `DecryptFile` and `DecryptFileName`.
    A file starts with a 51-byte header: a 32-byte key tag, the MD5 of the
    plain file, a padding byte and the length of the encoded name. The
    encoded name follows, then the file's enciphered blocks.
- `main.c` holds the processing loop: the output path of each file, the
  overwrite policy built from the user's answers, and the count of failures.

The two static key tables and the functions that update them are the class
`IdeaTables.KeyTables`. It has two `array2<Word>` fields and a ghost `key`.
Its invariant says the tables are the forward schedule of `key` and its
inverse. `MakeRound`, `MakeTransfo` and `ShiftKey` work on arrays, as in
C; `MakeRound` and `ShiftKey` work in place, and `MakeTransfo` writes into a
separate output array. `ModuloMultInv` is a method with the Euclidean loop. The string
codecs, the file block loops and the main loop are methods whose results
are tied to recursive specification functions. The file operations are
functions over the bytes of the files.

Modules, in dependency order:

- `Arith`
- `Words`: 16-bit words, bytes, xor, little-endian packing.
- `Prime65537`: 65537 is prime.
- `ModArith`
- `KeySchedule`
- `BlockCipher`
- `IdeaTables`
- `StringCodec`
- `StringLaws`
- `Paths`
- `Envelope`
- `Batch`

Headline results:

- `BlockCipher.DecryptEncrypt`: deciphering with the inverted table undoes
  enciphering, for every key.
- `IdeaTables.KeyTables.Decrypt` carries that result onto the arrays.
- `StringLaws.StringRoundTrip`: the string codec round-trips.
- `Envelope.FileRoundTrip` and `Envelope.NameRoundTrip`: decrypting a file
  written by `EncryptFile` with the same key restores its contents and its
  name.
- `Batch.PathRoundTrip`: the main loop's decryption path returns the
  original path.

## Model

| member | source | states |
|---|---|---|
| ModArith.MulSem | idea.c:542-560 | ModuloMult's four branches compute (a·b mod 65537) mod 2^16, where the word 0 stands for 2^16 |
| ModArith.MulValue | idea.c:542-560 | in that representation, the product's value is exactly the product of the values modulo 65537 |
| ModArith.MulCommutes | idea.c:542-560 | ModuloMult is commutative |
| ModArith.MulAssoc | idea.c:542-560 | ModuloMult is associative |
| ModArith.MulOne | idea.c:542-560 | 1 is the neutral element of ModuloMult |
| ModArith.MulCancel | idea.c:542-560 | multiplying by k and then by an inverse of k gives back the operand |
| ModArith.MulInverseUnique | idea.c:562-589 | a word has at most one multiplicative inverse |
| ModArith.MulInv | idea.c:562-589 | ModuloMultInv's Euclidean loop returns the inverse: ModuloMult(x, y) == 1 for every x, including 0 (inverse 0, standing for 2^16) and 1 |
| ModArith.EuclidStep | idea.c:575-586 | one turn of the loop keeps the Bezout invariant r2·\|v1\| + r1·\|v2\| = 65537 and the alternating signs, and keeps v within a signed 32-bit range and k within a Uint16 |
| ModArith.AddInv | idea.c:591-594 | ModuloAddInv(x) added to x is 0 modulo 2^16 |
| ModArith.AddInvInvolution | idea.c:591-594 | the additive inverse of the additive inverse is the word itself |
| ModArith.AddInvUnique | idea.c:591-594 | the additive inverse is the only word that cancels x |
| ModArith.AddCancel | idea.c:591-594 | adding k and then its additive inverse gives back the operand |
| KeySchedule.ShiftKey | idea.c:492-505 | after the call the 8-word key array holds ShiftedWords of its old contents |
| KeySchedule.RotateKey | idea.c:494-499 | the first loop rotates the array left by one word |
| KeySchedule.ShiftKeyBits | idea.c:501-504 | the second loop moves each word's low 7 bits up and takes the next word's high 9 bits |
| KeySchedule.ShiftRotates | idea.c:492-505 | read as a 128-bit big-endian register, ShiftKey is a left rotation by 25 bits |
| KeySchedule.FirstSubkeys | idea.c:462-472 | the first 8 subkeys are the user key, and the next 8 are the key after one ShiftKey |
| BlockCipher.RoundSplits | idea.c:518-532 | a round is the key layer (two multiplications, two additions) followed by the MA mix |
| BlockCipher.MixInvolution | idea.c:524-531 | applying the mix twice with the same keys 4 and 5 gives back the block |
| BlockCipher.UndoTransfo | idea.c:534-540 | the output transformation is undone by the key layer of the first inverted row |
| BlockCipher.UndoKeyLayer | idea.c:473-486 | a middle round's key layer is undone by the inverted row 8 - r, with keys 1 and 2 swapped |
| BlockCipher.DecryptRounds | idea.c:443-454 | j inverted rounds applied to a ciphertext give the state after 8 - j forward rounds, with its key layer applied |
| BlockCipher.DecryptEncrypt | idea.c:430-454 | whenever I is the inverse schedule of F, Decrypt with I undoes Encrypt with F on every block |
| BlockCipher.MakeRound | idea.c:518-532 | the output array holds Round of the input block and the six keys; the input may be the output array |
| BlockCipher.MakeTransfo | idea.c:534-540 | the output array holds the output transformation of the input block |
| IdeaTables.KeyTables.constructor | idea.c:25-26 | the zero-initialised tables are those of the all-zero key, so the invariant holds from the start |
| IdeaTables.KeyTables.SetMainKey | idea.c:457-490 | afterwards the forward table is the schedule of the new key and the inverted table is its inverse, in the same arrays; slots 4 and 5 of the inverted table's last row keep their old values |
| IdeaTables.FillTables | idea.c:463-489 | the two nested loops fill all 54 forward slots with the key schedule and the inverted slots with their inverses |
| IdeaTables.RowKeys | idea.c:467-472 | row r of the schedule is read from the key after s shifts starting at word k, where 8s + k = 6r, and wraps to the next shift |
| IdeaTables.NextPartialKey | idea.c:467-472 | shifting the partial keys when k reaches 8 and reading word k yields the scheduled subkey |
| IdeaTables.RunCipher | idea.c:430-441 | eight in-place rounds and the transformation compute Cipher of the table's rows |
| IdeaTables.KeyTables.Encrypt | idea.c:430-441 | out holds the encryption of the input block under the current key; in and out may be the same array |
| IdeaTables.KeyTables.Decrypt | idea.c:443-454 | out holds the decryption of the input block, and that is x for every block x whose encryption under the current key is the input |
| StringCodec.EncryptString | idea.c:87-108 | the first 8 words are the MD5 of the string; md5Only leaves the rest of out untouched; otherwise the following words are the string's 8-byte chunks, zero-padded and enciphered, and the words after the encoding are untouched |
| StringCodec.EncipherInto | idea.c:100-105 | the loop leaves exactly the enciphered chunks after the 8 digest words, and nothing after them changes |
| StringCodec.DecryptString | idea.c:110-147 | succeeds exactly when n > 8, n is a multiple of 4 and the MD5 of the recovered C string matches the stored digest; otherwise out is untouched; when n passes the check, out holds the deciphered bytes and a NUL, the bytes after the NUL are untouched, and on success its C string is the decoded string |
| StringCodec.DecipherInto | idea.c:124-129 | the loop writes the deciphered bytes of words 8..n in order and nothing after them |
| StringCodec.SameDigest | idea.c:137-144 | the word-by-word comparison succeeds exactly when the two digests are equal |
| StringCodec.DecodeString | idea.c:110-147 | a decoded string has no NUL, comes from more than 8 words in groups of 4, and has the stored MD5 |
| StringCodec.CString | idea.c:131-132 | strlen: the longest NUL-free prefix, ended by a NUL when shorter than the buffer |
| StringLaws.DecipherEncipher | idea.c:100-105 | deciphering the enciphered chunks gives the string followed by its zero padding |
| StringLaws.TablesInvert | idea.c:430-454 | block functions that compute a table and its inverse are inverse functions |
| StringLaws.StringRoundTrip | idea.c:87-147 | DecryptString of EncryptString's output gives back any NUL-free non-empty string, and rejects the encoding of the empty string |
| Paths.LastIndexOf | main.c:372-373 | strrchr: the index of the last occurrence, or -1 when there is none |
| Paths.NameStart | main.c:370-376 | GetFileNameFromAddr points past the last '/' or '\\', so no separator follows it |
| Paths.DirAndName | main.c:370-376 | a path is its directory part followed by its file name, the name has no separator, and the directory part is empty or ends with one |
| Paths.FileNameIdempotent | main.c:370-376 | taking the file name of a file name changes nothing |
| Paths.SplitPath | main.c:370-376 | splitting a directory (ending with a separator) joined to a separator-free name gives back both |
| Paths.HexDigestParses | main.c:170-171 | the eight %04x fields of the printed digest read back as the digest |
| Paths.EncryptedNameInSameDir | main.c:164-172 | with name encryption the output stays in the input's directory, named by the hex MD5 of the path with ".crpt" |
| Paths.ExtensionKeepsDir | main.c:173-174 | appending ".crpt" keeps the directory |
| Paths.FallbackStripsExtension | main.c:187-189 | a name ending in ".crpt" that does not decode is decrypted to the path without the extension |
| Paths.FallbackPrefixesName | main.c:190-195 | otherwise the output is "~DCPT-" before the file name, in the same directory |
| Envelope.Padding | idea.c:171-172 | the padding byte is below 8 and brings the file size to a multiple of 8 |
| Envelope.OnBytesInverse | idea.c:219 | deciphering an enciphered 8-byte buffer gives it back |
| Envelope.EncipherFileLength | idea.c:217-228 | the enciphered body has 8 bytes per started block of the input |
| Envelope.EncryptBlocks | idea.c:217-228 | the read-encrypt-write loop writes EncipherFile of the input: each read, completed by the buffer's previous bytes, enciphered, and the buffer cleared after each write |
| Envelope.ReadHeader | idea.c:277-287 | the header is read exactly when the file has at least 51 bytes, and its tag is the first 32 |
| Envelope.WriteCount | idea.c:305-307 | the bytes written for a block never exceed the bytes read, and are the C count whenever that does not wrap |
| Envelope.WriteCountsAgree | idea.c:305-307 | with a padding of at most the bytes read, the corrected count and the C count are equal |
| Envelope.PaddingOverrun | idea.c:299-307 | a 59-byte file with the right tag and a padding byte of 9 passes the header checks, its one block is block nbBlocks, and the C count wraps to 2^64 - 1 |
| Envelope.DecryptBlocks | idea.c:302-315 | the read-decrypt-write loop writes DecipherFile of the body: block i loses the padding when i equals nbBlocks |
| Envelope.DecipherStep | idea.c:302-315 | one turn of the loop emits the deciphered block cut to the write count and continues with that block as the buffer |
| Envelope.DecipherEncipherFile | idea.c:217-228 | deciphering EncryptFile's blocks, with the padding EncryptFile wrote and the right nbBlocks, gives back the plain bytes whatever the buffers held |
| Envelope.DecryptFile | idea.c:243-350 | an output survives only if the names differ, the header was read and the tag matches; then its MD5 is the header's checksum, or the user chose to keep an unchecked file |
| Envelope.DecryptFileName | idea.c:352-428 | not -1 exactly when the header and a non-empty name were read, the tag matches, and the size l + 1 + i - 16 asked of malloc for the output name is not negative; a returned path is the input's directory followed by a NUL-free name |
| Envelope.EvenPart | idea.c:422 | DecryptString reads the l / 2 whole words of the l name bytes, so an odd last byte is dropped |
| Envelope.InDirectory | idea.c:411-422 | 0 exactly when the name does not decode; otherwise the decoded name placed in the input's directory |
| Envelope.ReadBack | idea.c:188-228 | reading back EncryptFile's output gives its tag, the input's MD5, the padding and l, then the encoded name and the enciphered body |
| Envelope.BlockCountBack | idea.c:299 | nbBlocks computed from the file size equals the number of blocks EncryptFile wrote |
| Envelope.FileRoundTrip | idea.c:149-350 | DecryptFile of EncryptFile's output with the same key restores the plain file, unless the checksum could not be computed and the user declines to keep it |
| Envelope.DecryptWellFormed | idea.c:243-350 | any file with the right header and body decrypts to the plain bytes, whatever junk the buffers held |
| Envelope.WrongKeyRejected | idea.c:288-297 | with a different key tag, DecryptFile fails and DecryptFileName returns -1 |
| Envelope.NameRoundTrip | idea.c:196-208 | DecryptFileName of an encrypted file returns its original file name in the encrypted file's directory, or 0 for an empty name |
| Envelope.NameWellFormed | idea.c:411-422 | any file with a matching header and a well-encoded name yields that name |
| Batch.OutputPath | main.c:162-202 | there is no output path exactly when decrypting and DecryptFileName returned -1; encryption uses the encrypted path; a decoded name is used as given |
| Batch.Proceed | main.c:222-226 | a failed operation adds one to nbFails; a successful one leaves its output in place; the policy is unchanged |
| Batch.ProcessAll | main.c:158-227 | the loop's final policy, nbFails, files and overwritten outputs are those of Run over the listed files, and nbFails never exceeds the number of files |
| Batch.FailsBounded | main.c:179-224 | each file adds at most one failure |
| Batch.RejectedAreFailures | main.c:179-184 | every file whose name decryption returns -1 is counted as a failure |
| Batch.NoFailures | main.c:222-224 | when every operation succeeds and no name is rejected, nbFails stays the same |
| Batch.PolicySettled | main.c:205-220 | once the answer was 'Y' or 'N', the policy never changes again |
| Batch.NoConsentNoOverwrite | main.c:205-220 | with no 'y' or 'Y' answer and the policy not set to always, no existing file is overwritten |
| Batch.NeverOverwrites | main.c:205-208 | after an 'N' answer, no existing file is ever overwritten |
| Batch.AlwaysProceeds | main.c:205-224 | after a 'Y' answer, every file is processed without asking, and counts as a failure only when rejected or when the operation fails |
| Batch.OutputIsNotInput | main.c:173-197 | the ".crpt" output and the fallback decryption output differ from the input path |
| Batch.FallbackRestoresPath | main.c:185-189 | a file encrypted without name encryption whose name does not decode is decrypted back to its original path |
| Batch.PathRoundTrip | main.c:164-202 | with or without name encryption, the path recovered at decryption is the original path |

## Left out

- File handles, `fopen`/`fread`/`fwrite`/`remove` and errno are not modelled. A file is the sequence of its bytes, and the result of an operation is `Failed` or `Written(contents)`. I/O errors and running out of memory are not modelled.
- The read buffer's initial contents are a parameter (`junk`). The C code leaves `data` uninitialised before the first read, and the round-trip lemmas hold for any value.
- MD5 and SHA-256 are parameters (`md5`, the key tag `keySha`). They come from code that is not part of this model.
- `ComputeMD5` failing inside `EncryptString`/`DecryptString` is not modelled, since `md5` is a total function. The checksum of the decrypted file is modelled as the flag `computed`. When it is false, the user's answer is the flag `keep`.
- The console is not modelled. The overwrite prompt's answer is a field of each `Item`, and `EnterChar`, `getch`, the progress messages and the timing statistics are left out.
- `ListDirectory`, `CheckDirOrFile`, the argument parsing and the password prompt of main.c are not part of this model. The set of existing regular files is a parameter.
- `MAX_PATH` truncation by `strncpy`/`snprintf` in main.c is not modelled. Paths are unbounded.
- Byte order is fixed to little-endian. The C code writes Uint16 arrays with `fwrite` in the machine's order.
- The `INCLUDE_USELESS` helpers of idea.c are not modelled. They are compiled out.
- Envelope.EncryptFile: requires the name length l (16 plus the name rounded up to 8) to fit in 16 bits. The C code stores l in a Uint16, and a longer name would wrap it and write an unreadable header.
- Envelope.DecryptBlocks and Envelope.DecryptFile: use the corrected write count `WriteCount`, so they differ from idea.c:305-307 whenever the padding byte exceeds the bytes of the last read (see "## Findings").
- Envelope.DecryptFileName: a malloc size of exactly 0 (l + i = 15) is implementation-defined; the model follows an allocator that returns a usable pointer. For a name length below 15 the buffer is smaller than the directory part, and the `strncpy` at idea.c:421 writes past it; that memory corruption is not modelled, and DecryptString then rejects the name, so the result is 0.
- Envelope.DecryptFile: the output is opened (and truncated) before the header is checked, so a failing decryption destroys an existing output file. That is not modelled; the result is `Failed` and nothing else.
- Batch.Proceed: a failed operation leaves the set of existing files unchanged. EncryptFile and DecryptFile actually remove an output they had already created.
- Batch.OutputPath: the `else` branch at main.c:193-194 is not modelled. GetFileNameFromAddr never returns NULL, so that branch cannot run.
- ModArith.Mul: takes `x1 * x2` as the exact product. In C the two Uint16 operands are promoted to `int`, so a product above 2^31 - 1 is signed overflow. Common compilers wrap it to the same 32 bits that the `Uint32` receives.
- BlockCipher.MakeTransfo: says nothing when the input and output are the same array. Encrypt and Decrypt always pass distinct arrays.

## Findings

| source | as written | input that shows it | evidently intended | confidence | as-written member | corrected member |
|---|---|---|---|---|---|---|
| idea.c:305-307 | `l = n; if (i == nbBlocks) l -= padding;` in `size_t`: a padding byte larger than the bytes just read wraps l to nearly 2^64, and `fwrite` is asked to write that many bytes from the 8-byte buffer `data` | a 59-byte file: the right 32-byte key tag, 16 checksum bytes, padding byte 9, name length 0, then one 8-byte block; nbBlocks is 1 and the first read returns 8 bytes | a padding larger than the bytes read writes nothing from that block (or rejects the file) | not executed | Envelope.PaddingOverrun | Envelope.WriteCount |
