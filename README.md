# K9A container decoder

CoffinDiskMark reads game assets stored as K9A containers. A container is laid out as
`[E] [E bytes of extension] [L] [ciphertext...]`. E and L are one byte each. The decoder
works in three steps:

- It takes the file's base name (no directory, no extension) and upper-cases it.
- It folds that name into a 32-bit starting mask, one step `m = (m << 1) ^ c` per character.
- It runs a ciphertext-feedback XOR over the first L payload bytes, or over all of them when L
  is 0. Each output byte is the ciphertext byte XOR the low byte of the mask. The mask then
  steps on that ciphertext byte.

A path that does not end in ".k9a" gets the one-byte array `{0}`. Callers treat any result of
length 1 as a failure.

The model covers `GetFileExtension`, `Mask` and `DecryptFile` in `CoffinDiskMark/Program.cs`.
It also covers the callers' rule that a result of length 1 means failure.

- `common.dfy` (`Base`, `CSharpInt`): bytes are `bv8` and the C# `int` mask is `bv32`. So `<<`
  drops the bits shifted past bit 31, exactly as unchecked C# does. The cast
  `(byte)((b ^ m) % 256)` is written out with C#'s truncating remainder and an unchecked
  narrowing. The exceptions of the unchecked indexing become `Result` values.
- `rolling.dfy` (`Rolling`): the feedback step, and the fold of it over a sequence, shared by
  the mask and the cipher. It proves that after 32 steps the starting mask is forgotten.
- `paths.dfy` (`PathText`): file name, extension removal, upper-casing and the ".k9a" suffix
  test.
- `mask.dfy` (`NameMask`): `Mask`, a loop proved equal to the fold `MaskOf`, with lemmas on
  what the mask depends on.
- `cipher.dfy` (`Cipher`): the transform as a recursive fold, `Transform`. Each output byte has
  a closed form. An inverse, `Encrypt`, is proved to round-trip both ways.
- `container.dfy` (`Container`): `GetFileExtension`. `DecryptOutcome` is the value or fault
  that `DecryptFile` produces. `Pack` lays out a container, and the decoder is proved
  against it.
- `decrypt_file.dfy` (`Decoder`): `DecryptFile` on arrays. It copies the payload into a new
  array, then transforms that array in place through a second name for it. It is proved to
  return exactly `DecryptOutcome`.
- `callers.dfy` (`Callers`): one file through a decrypting entry point, plus the finding below.

Some concrete consequences of the code that the model proves:

- Mask 65 and ciphertext byte 0x10 give plaintext 0x51, and the next mask is
  `(65 << 1) ^ 0x10 = 130 ^ 16 = 146` (`Cipher.FirstStepExample`).
- The one-byte buffer [5] makes `GetFileExtension` throw `ArgumentOutOfRangeException` and
  `DecryptFile` throw `IndexOutOfRangeException` (`Container.ShortHeaderFaults`).
- A path without the ".k9a" suffix gets `{0}`, which the callers report as a failure
  (`Callers.OtherPathsReportedAsFailures`).
- With L = 0 every payload byte is transformed, but a byte whose key byte is 0 comes out
  unchanged (`Container.DecodedLayout`).

## Model

| member | source | states |
|---|---|---|
| CSharpInt.WidenByte | CoffinDiskMark/Program.cs:326-327 | the value of a `byte` operand promoted to `int`: the byte zero-extended to 32 bits |
| CSharpInt.CharCode | CoffinDiskMark/Program.cs:297 | the value of a `char` operand promoted to `int`: its code zero-extended to 32 bits |
| CSharpInt.Rem256 | CoffinDiskMark/Program.cs:326 | C#'s `x % 256`: it has the low byte of `x`, lies in 0..255 for non-negative `x` and in -255..0 for negative `x` (truncation toward zero) |
| CSharpInt.NarrowToByte | CoffinDiskMark/Program.cs:326 | the value of the unchecked cast `(byte)x`: the low 8 bits of the pattern |
| CSharpInt.CastOfRemainderIsLowByte | CoffinDiskMark/Program.cs:326 | `(byte)(x % 256)` with C#'s truncating remainder is the low 8 bits of `x` for every 32-bit `x`, negative ones included |
| Rolling.Feedback | CoffinDiskMark/Program.cs:297 | the value of one step, `(m << 1) ^ x` on the 32-bit pattern with the bits past bit 31 dropped; the same step is line 327 |
| Rolling.Feed | CoffinDiskMark/Program.cs:295-298 | the value of the step folded left from `m` over `xs`, first element first |
| Rolling.FeedConcat | CoffinDiskMark/Program.cs:295-298 | folding the step `(m << 1) ^ x` over `xs + ys` is folding over `xs`, then over `ys` from the result |
| Rolling.StepDifference | CoffinDiskMark/Program.cs:327 | one step on the same input shifts the XOR difference of two masks left by one bit |
| Rolling.Spread16 | CoffinDiskMark/Program.cs:327 | after 16 steps on the same inputs two masks differ by their starting difference shifted left 16 bits |
| Rolling.FeedForgetsStart | CoffinDiskMark/Program.cs:327 | after 32 steps the mask no longer depends on its starting value: every starting bit has been shifted out |
| PathText.FileName | CoffinDiskMark/Program.cs:294 | the file name is a separator-free suffix of the path, preceded by a separator whenever it is shorter than the path |
| PathText.WithoutExtension | CoffinDiskMark/Program.cs:294 | the stem is the prefix before the last '.', with no '.' after it, or the whole name when there is no '.' |
| PathText.ToUpper | CoffinDiskMark/Program.cs:294 | upper-casing keeps the length, leaves no lower-case letter, and leaves every other character where it is |
| PathText.ToUpperIdempotent | CoffinDiskMark/Program.cs:294 | upper-casing an upper-cased text changes nothing |
| PathText.UpperChar | CoffinDiskMark/Program.cs:294 | an upper-cased character is never a lower-case letter, and it is a separator exactly when the original is |
| PathText.FileNameWithoutExtension | CoffinDiskMark/Program.cs:294 | the value of `Path.GetFileNameWithoutExtension`: the extension removed from the file name |
| PathText.HasK9aSuffix | CoffinDiskMark/Program.cs:303 | the value of `url.EndsWith(".k9a")`: the path has at least four characters and its last four are ".k9a" |
| PathText.FileNameAfterDirectory | CoffinDiskMark/Program.cs:294 | the file name of `dir + sep + name` is `name`, whatever the directory |
| PathText.FileNameOfBareName | CoffinDiskMark/Program.cs:294 | a name without separators is its own file name |
| PathText.WithoutExtensionDropsExtension | CoffinDiskMark/Program.cs:294 | removing the extension of `stem + "." + ext` gives `stem` for any `ext` without a '.', even when `stem` holds dots of its own |
| PathText.FileNameOfUpper | CoffinDiskMark/Program.cs:294 | upper-casing commutes with taking the file name |
| PathText.WithoutExtensionOfUpper | CoffinDiskMark/Program.cs:294 | upper-casing commutes with removing the extension |
| PathText.FileNameWithoutExtensionOfUpper | CoffinDiskMark/Program.cs:294 | upper-casing commutes with taking the base name |
| NameMask.Codes | CoffinDiskMark/Program.cs:295-297 | the value: `CharCode` of each character in order, the `int` operands of `^` at line 297 |
| NameMask.MaskName | CoffinDiskMark/Program.cs:294 | the value of `Path.GetFileNameWithoutExtension(url).ToUpper()` |
| NameMask.MaskNameIsUpperBaseName | CoffinDiskMark/Program.cs:294 | the masked text is no longer than the path, has no separator and no lower-case letter |
| NameMask.MaskOf | CoffinDiskMark/Program.cs:291-300 | the value of `Mask(url)`: the step folded from 0 over the codes of the masked text |
| NameMask.Mask | CoffinDiskMark/Program.cs:291-300 | the loop returns `MaskOf(url)`, the fold of `(m << 1) ^ c` from 0 over the upper-cased base name |
| NameMask.MaskOfShortNames | CoffinDiskMark/Program.cs:293-299 | an empty base name gives mask 0; a one-character name gives that character's code |
| NameMask.MaskNameOfBareName | CoffinDiskMark/Program.cs:294 | the text folded for a bare name `stem + "." + ext` is the upper-cased `stem`, dots in the stem included |
| NameMask.MaskNameOfPath | CoffinDiskMark/Program.cs:294 | the text folded for `dir + sep + stem + "." + ext` is the upper-cased `stem`, dots in the stem included |
| NameMask.MaskIgnoresDirectoryAndExtension | CoffinDiskMark/Program.cs:294-299 | two paths with the same stem have the same mask, whatever their directories and extensions; so does the bare name; it is the fold over the upper-cased stem |
| NameMask.MaskIgnoresCase | CoffinDiskMark/Program.cs:294 | paths equal once upper-cased have equal masks |
| NameMask.MaskUsesLast32Chars | CoffinDiskMark/Program.cs:297 | only the last 32 characters of a name reach the mask |
| NameMask.MaskOfOneLetterName | CoffinDiskMark/Program.cs:293-299 | a one-letter base name under any directory and extension gives that letter's upper-case code |
| NameMask.MaskOfOneLetterBareName | CoffinDiskMark/Program.cs:293-299 | a one-letter bare name with any extension gives that letter's upper-case code |
| NameMask.LetterACode | CoffinDiskMark/Program.cs:291-300 | the paths "a.k9a" and "A.k9a" both have the mask 65 |
| Cipher.DecryptByte | CoffinDiskMark/Program.cs:326 | the literal `(byte)((c ^ m) % 256)` is `c` XOR the low byte of `m` |
| Cipher.Transform | CoffinDiskMark/Program.cs:316-328 | the transform keeps the length and leaves every byte from index n on unchanged |
| Cipher.KeyAtStep | CoffinDiskMark/Program.cs:327 | the key for byte i + 1 is one feedback step from the key for byte i, on ciphertext byte i |
| Cipher.TransformAt | CoffinDiskMark/Program.cs:323-328 | output byte i < n is ciphertext byte i XOR the low byte of the mask folded from the starting mask over the ciphertext bytes before i |
| Cipher.TransformMeaning | CoffinDiskMark/Program.cs:316-328 | the whole output: bytes before n decrypted under their rolling keys, bytes from n on copied |
| Cipher.TransformStep | CoffinDiskMark/Program.cs:325-327 | extending the transform by one byte changes only that byte, to its decryption |
| Cipher.UnmaskTwice | CoffinDiskMark/Program.cs:326 | XOR with the same key byte undoes itself |
| Cipher.TransformEncrypt | CoffinDiskMark/Program.cs:323-328 | decrypting the encryption of any plaintext under the same mask and span gives the plaintext |
| Cipher.EncryptTransform | CoffinDiskMark/Program.cs:323-328 | encrypting the decryption of any ciphertext gives the ciphertext back |
| Cipher.TransformInjective | CoffinDiskMark/Program.cs:323-328 | two ciphertexts with the same decryption under the same mask are equal |
| Cipher.TransformForgetsMaskAfter32 | CoffinDiskMark/Program.cs:314 | from index 32 on, output bytes do not depend on the starting mask |
| Cipher.FirstStepExample | CoffinDiskMark/Program.cs:323-327 | mask 65 and ciphertext byte 0x10 give plaintext 0x51, and the next mask is 146 |
| Container.AsciiChar | CoffinDiskMark/Program.cs:289 | ASCII decoding of a byte always gives an ASCII character: the byte's own character below 0x80 and '?' from 0x80 on |
| Container.AsciiString | CoffinDiskMark/Program.cs:289 | ASCII decoding keeps the length, yields only ASCII characters, and keeps the code of every byte below 0x80 |
| Container.GetFileExtension | CoffinDiskMark/Program.cs:286-290 | succeeds exactly when byte 0 exists and `1 + E` bytes are present; the text has E characters, the ASCII reading of bytes 1..E; an empty buffer throws `IndexOutOfRange` and a short one `ArgumentOutOfRange` |
| Container.SpanLength | CoffinDiskMark/Program.cs:316-319 | the value: the whole payload length when the declared length L is 0, otherwise L |
| Container.DecodeContainer | CoffinDiskMark/Program.cs:310-330 | every fault is an index fault; a decoding has `length - 2 - E` bytes, one per payload byte |
| Container.DecryptOutcome | CoffinDiskMark/Program.cs:301-331 | only a ".k9a" path can fault, always with an index fault; its decoding has `length - 2 - E` bytes; other paths get `{0}` |
| Container.DecodeWithHeader | CoffinDiskMark/Program.cs:310-330 | with the header present, the result is the transform of the payload at `2 + E` over span n, or an index fault when n exceeds the payload |
| Container.OtherPathsGetSentinel | CoffinDiskMark/Program.cs:303-308 | a path without ".k9a" gets exactly `{0}` for any data, including empty data |
| Container.DecodeFaults | CoffinDiskMark/Program.cs:310-325 | decoding faults exactly when the data is empty, shorter than `2 + E`, or declares more bytes than the payload holds; the fault is an index fault |
| Container.DecodedLayout | CoffinDiskMark/Program.cs:310-330 | the output has `length - 2 - E` bytes; L = 0 covers all of them; the bytes before the span are rolling-XOR decryptions, and the bytes after it are the input bytes at `2 + E + i` |
| Container.Pack | CoffinDiskMark/Program.cs:310-313 | a packed container has E at byte 0, L at byte `1 + E` and the payload from `2 + E` |
| Container.ExtensionOfPacked | CoffinDiskMark/Program.cs:286-290 | the extension read back from a packed container is its extension bytes as ASCII |
| Container.DecodePacked | CoffinDiskMark/Program.cs:310-330 | decoding a packed encryption gives the plaintext back for every span the payload can hold |
| Container.ShortHeaderFaults | CoffinDiskMark/Program.cs:288-311 | the one-byte buffer [5] makes `GetFileExtension` throw `ArgumentOutOfRange` and decoding throw `IndexOutOfRange`; [0] also faults |
| Container.OneByteExample | CoffinDiskMark/Program.cs:310-330 | the container [0, 1, 0x10] under mask 65 decodes to [0x51] |
| Decoder.CopyFrom | CoffinDiskMark/Program.cs:313 | after the copy the new array holds the source bytes from the given offset |
| Decoder.DecryptInPlace | CoffinDiskMark/Program.cs:321-328 | the in-place loop succeeds exactly when the span fits in the buffer, and then leaves the transform of the old contents; each byte is read before it is overwritten |
| Decoder.DecryptFile | CoffinDiskMark/Program.cs:301-331 | returns a fresh array holding exactly `DecryptOutcome(data, url)`, or the same fault |
| Callers.ProcessFile | CoffinDiskMark/Program.cs:89-96 | a file is never skipped; it crashes exactly when reading the extension or decoding throws; it is reported as a failure exactly when both succeed and the decoding is one byte long |
| Callers.WrittenMeansDecoded | CoffinDiskMark/Program.cs:89-96 | a file is written exactly when its extension reads, its path ends in ".k9a", it decodes and the decoding is not one byte long; what is written is that extension and decoding |
| Callers.OtherPathsReportedAsFailures | CoffinDiskMark/Program.cs:89-95 | a non-".k9a" path with a readable extension is reported as a failure; an empty file throws first, at the extension read |
| Callers.OneBytePayloadReportedAsFailure | CoffinDiskMark/Program.cs:93 | the valid container [0, 1, 0x10] at a ".k9a" path with mask 65 decodes to [0x51], yet is reported as a failure |
| Callers.DecryptTyped | CoffinDiskMark/Program.cs:303-308 | the typed decoder answers "not a .k9a file" exactly for paths without the suffix |
| Callers.TypedWritesEveryDecodedContainer | CoffinDiskMark/Program.cs:93 | with the typed answer, a file is written exactly when it decodes, whatever the length; other paths are skipped; nothing is reported as a failure |
| Callers.LengthTestCollapses | CoffinDiskMark/Program.cs:93 | the as-written verdict is the typed one with skips and one-byte decodings both read as failures |
| Callers.OneBytePayloadWrittenWhenTyped | CoffinDiskMark/Program.cs:93 | the typed entry point writes [0x51], with an empty extension, for that container |
| Callers.OneByteContainerAtLetterA | CoffinDiskMark/Program.cs:93 | the container [0, 1, 0x10] saved as "a.k9a" is reported as failed as written, and written as [0x51] by the typed entry point |

## Left out

- Concurrency: `Parallel.ForEachAsync`, `Task.WhenAll` and the `Interlocked` counters. Files are independent, so one file at a time is modelled.
- The benchmark loop: it is driven by a `Stopwatch` and reports MB/s in floating point. Like the decrypt modes, it writes its outputs.
- `Main`, argument parsing, `CheckGameDirectory`, `DecryptionFailure` and every console message: these are console and file-system I/O with no logic.
- File reads and writes, and the output path (`Path.Combine`, `GetRelativePath`, `ChangeExtension`, `Directory.CreateDirectory`). `Callers.ProcessFile` yields the extension and the bytes that would be written.
- Directory enumeration (`Directory.GetFiles` with "*.k9a") and the unused `GetFiles` wrapper.
- Exception handling: `Callers.ProcessFile` records only the kind of exception. The directory modes catch it per file; the single-file mode lets it end the run.
- Decoder.DecryptInPlace: when it fails it says nothing about the partly transformed buffer. The source throws there and the buffer is discarded.
- PathText.FileName: the separators are the Windows ones, '/' and '\\'; on other platforms .NET treats only '/' as one. The volume separator ':' is not modelled.
- PathText.ToUpper: upper-cases only ASCII letters. Culture-specific casing (for example the Turkish dotted i) is not modelled.
- PathText.HasK9aSuffix: compares ordinally. The source's `EndsWith(string)` is culture-sensitive.
- NameMask.Mask: a C# `char` is a UTF-16 code unit, while a Dafny `char` is a Unicode scalar value. Names with characters outside the Basic Multilingual Plane are not modelled.

## Findings

| source | as written | input that shows it | evidently intended | confidence | as-written member | corrected member |
|---|---|---|---|---|---|---|
| CoffinDiskMark/Program.cs:93 | Any decoding of length 1 is reported as a failure. The same test is at lines 177 and 253. The "not a .k9a file" answer `{0}` and a genuine one-byte plaintext look alike. | The container [0, 1, 0x10] stored as "a.k9a" decodes to [0x51] but is reported as failed. | Tell a skipped path apart from a decoding, and write every decoded container. | medium, not executed | Callers.OneByteContainerAtLetterA | Callers.TypedWritesEveryDecodedContainer |
