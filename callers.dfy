/** What the three decrypting entry points do with one input file: read the extension from
    the header, decode the file, and treat a one-byte result as a failure. */
module Callers {
  import opened Base
  import opened PathText
  import opened NameMask
  import opened Cipher
  import opened Container

  /** The fate of one file. `Skipped` is only produced by the typed decoder below. */
  datatype FileReport =
    | Crashed(fault: Fault)                         // an exception, caught and reported for this file
    | ReportedFailure                               // `DecryptionFailure(f)`: the result had length 1
    | Skipped                                       // not a ".k9a" path, told apart from a failure
    | Written(extension: string, bytes: seq<byte>)  // saved under the extension from the header

  /** One file through a decrypting entry point, as written: the extension is read first,
      then the file is decoded, and a result of length 1 is taken to be the "not a .k9a
      file" answer. */
  function ProcessFile(data: seq<byte>, path: string): (r: FileReport)
    ensures !r.Skipped?
    ensures r.Crashed? <==> GetFileExtension(data).Err? || DecryptOutcome(data, path).Err?
    ensures r == ReportedFailure <==>
      GetFileExtension(data).Ok? && DecryptOutcome(data, path).Ok? && |DecryptOutcome(data, path).value| == 1
  {
    match GetFileExtension(data)
    case Err(f) => Crashed(f)
    case Ok(extension) =>
      match DecryptOutcome(data, path)
      case Err(f) => Crashed(f)
      case Ok(bytes) => if |bytes| == 1 then ReportedFailure else Written(extension, bytes)
  }

  /** A file is written exactly when its header names an extension, its path ends in ".k9a",
      it decodes, and the decoding is not one byte long; what is written is the decoding. */
  lemma WrittenMeansDecoded(data: seq<byte>, path: string)
    ensures ProcessFile(data, path).Written? <==>
      && GetFileExtension(data).Ok?
      && HasK9aSuffix(path)
      && DecryptOutcome(data, path).Ok?
      && |DecryptOutcome(data, path).value| != 1
    ensures ProcessFile(data, path).Written? ==>
      && ProcessFile(data, path).extension == GetFileExtension(data).value
      && ProcessFile(data, path).bytes == DecryptOutcome(data, path).value
  {
  }

  /** A path without the ".k9a" suffix is never written: with a readable extension it is
      reported as a failure; an empty file throws first, when its extension is read. */
  lemma OtherPathsReportedAsFailures(data: seq<byte>, path: string)
    requires !HasK9aSuffix(path)
    ensures GetFileExtension(data).Ok? ==> ProcessFile(data, path) == ReportedFailure
    ensures |data| == 0 ==> ProcessFile(data, path) == Crashed(IndexOutOfRange)
  {
    OtherPathsGetSentinel(data, path);
  }

  /** A genuine ".k9a" container whose decoding is one byte long is reported as a failure:
      the container [0, 1, 0x10] under "a.k9a" decodes to [0x51], yet is not written. */
  lemma OneBytePayloadReportedAsFailure(path: string)
    requires HasK9aSuffix(path) && MaskOf(path) == 65
    ensures DecryptOutcome([0, 1, 0x10], path) == Ok([0x51])
    ensures ProcessFile([0, 1, 0x10], path) == ReportedFailure
  {
    OneByteExample();
  }

  /** The decoder's answer with "not a .k9a file" as a case of its own, rather than the
      one-byte array {0} that a real decoding can equal. */
  datatype Decoding = NotK9a | Plain(bytes: seq<byte>)

  function DecryptTyped(data: seq<byte>, url: string): (r: Result<Decoding>)
    ensures r == Ok(NotK9a) <==> !HasK9aSuffix(url)
  {
    if !HasK9aSuffix(url) then Ok(NotK9a)
    else
      match DecodeContainer(data, MaskOf(url))
      case Err(f) => Err(f)
      case Ok(bytes) => Ok(Plain(bytes))
  }

  /** One file through an entry point that tests the typed answer instead of the length. */
  function ProcessFileTyped(data: seq<byte>, path: string): FileReport
  {
    match GetFileExtension(data)
    case Err(f) => Crashed(f)
    case Ok(extension) =>
      match DecryptTyped(data, path)
      case Err(f) => Crashed(f)
      case Ok(NotK9a) => Skipped
      case Ok(Plain(bytes)) => Written(extension, bytes)
  }

  /** With the typed answer every decodable ".k9a" container is written, whatever its
      length, and every other path with a readable extension is skipped, never failed. */
  lemma TypedWritesEveryDecodedContainer(data: seq<byte>, path: string)
    ensures ProcessFileTyped(data, path).Written? <==>
      GetFileExtension(data).Ok? && HasK9aSuffix(path) && DecryptOutcome(data, path).Ok?
    ensures ProcessFileTyped(data, path).Written? ==>
      && ProcessFileTyped(data, path).extension == GetFileExtension(data).value
      && ProcessFileTyped(data, path).bytes == DecryptOutcome(data, path).value
    ensures GetFileExtension(data).Ok? && !HasK9aSuffix(path) ==> ProcessFileTyped(data, path) == Skipped
    ensures ProcessFileTyped(data, path) != ReportedFailure
  {
  }

  /** How the length test reads a typed report: a skip and a one-byte decoding both look
      like a failure. */
  function AsLengthTest(report: FileReport): FileReport
  {
    match report
    case Skipped => ReportedFailure
    case Written(extension, bytes) => if |bytes| == 1 then ReportedFailure else report
    case _ => report
  }

  /** The as-written entry point is the typed one seen through the length test, so the two
      differ exactly on skipped paths and on one-byte decodings. */
  lemma LengthTestCollapses(data: seq<byte>, path: string)
    ensures ProcessFile(data, path) == AsLengthTest(ProcessFileTyped(data, path))
  {
    if HasK9aSuffix(path) {
      assert DecryptOutcome(data, path) == DecodeContainer(data, MaskOf(path));
    } else {
      OtherPathsGetSentinel(data, path);
    }
  }

  /** The typed entry point writes the container that the as-written one reports as failed. */
  lemma OneBytePayloadWrittenWhenTyped(path: string)
    requires HasK9aSuffix(path) && MaskOf(path) == 65
    ensures ProcessFileTyped([0, 1, 0x10], path) == Written([], [0x51])
  {
    var data: seq<byte> := [0, 1, 0x10];
    OneByteExample();
    assert DecryptTyped(data, path) == Ok(Plain([0x51]));
    assert AsciiString(data[1..1]) == [];
    assert GetFileExtension(data) == Ok([]);
  }

  /** The two entry points on one concrete file: the container [0, 1, 0x10] saved as
      "a.k9a" is reported as failed as written, and written as [0x51] when typed. */
  lemma OneByteContainerAtLetterA()
    ensures HasK9aSuffix("a.k9a")
    ensures ProcessFile([0, 1, 0x10], "a.k9a") == ReportedFailure
    ensures ProcessFileTyped([0, 1, 0x10], "a.k9a") == Written([], [0x51])
  {
    var path := "a.k9a";
    assert path[|path| - 4..] == ".k9a";
    LetterACode();
    OneBytePayloadReportedAsFailure(path);
    OneBytePayloadWrittenWhenTyped(path);
  }
}
