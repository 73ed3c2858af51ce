/** The K9A container: `[E] [E extension bytes] [L] [ciphertext...]`, and what decoding one
    container yields. */
module Container {
  import opened Base
  import opened PathText
  import opened NameMask
  import opened Cipher

  /** `Encoding.ASCII` decoding of one byte: codes above 0x7F become '?'. */
  function AsciiChar(b: byte): (c: char)
    ensures c as int < 0x80
    ensures b < 0x80 ==> c as int == b as int
    ensures b >= 0x80 ==> c == '?'
  {
    if b < 0x80 then (b as int) as char else '?'
  }

  /** `Encoding.ASCII.GetString`: the text is as long as the bytes and is pure ASCII; bytes
      below 0x80 keep their code. */
  function AsciiString(bs: seq<byte>): (s: string)
    ensures |s| == |bs|
    ensures forall i :: 0 <= i < |s| ==> s[i] as int < 0x80
    ensures forall i :: 0 <= i < |bs| && bs[i] < 0x80 ==> s[i] as int == bs[i] as int
  {
    seq(|bs|, i requires 0 <= i < |bs| => AsciiChar(bs[i]))
  }

  /** The source's `GetFileExtension`: byte 0 is the length E, bytes 1..E the text. Reading
      byte 0 of an empty buffer, or E bytes that are not there, throws. */
  function GetFileExtension(data: seq<byte>): (r: Result<string>)
    ensures r.Ok? <==> |data| > 0 && 1 + data[0] as int <= |data|
    ensures |data| == 0 ==> r == Err(IndexOutOfRange)
    ensures |data| > 0 && 1 + data[0] as int > |data| ==> r == Err(ArgumentOutOfRange)
    ensures r.Ok? ==> |r.value| == data[0] as int
    ensures r.Ok? ==> forall i :: 0 <= i < |r.value| ==> r.value[i] == AsciiChar(data[1 + i])
  {
    if |data| == 0 then Err(IndexOutOfRange)
    else
      var headerLength := data[0] as int;
      if 1 + headerLength > |data| then Err(ArgumentOutOfRange)
      else Ok(AsciiString(data[1..1 + headerLength]))
  }

  /** How many payload bytes the loop runs over: the declared length L, or the whole
      payload when L is 0. */
  function SpanLength(declared: byte, payloadLength: nat): nat
  {
    if declared == 0 then payloadLength else declared as int
  }

  /** The source's `DecryptFile` past its suffix test, once the mask is known: the header
      is read without bounds checks and the payload from offset 2 + E is run through the
      transform. Every failed read is an index fault. */
  function DecodeContainer(data: seq<byte>, mask: bv32): (r: Result<seq<byte>>)
    ensures r.Err? ==> r.fault == IndexOutOfRange
    ensures r.Ok? ==> |data| > 0 && |r.value| == |data| - 2 - data[0] as int
  {
    if |data| == 0 then Err(IndexOutOfRange)
    else
      var e := data[0] as int;
      if |data| < 2 + e then Err(IndexOutOfRange)
      else
        var payload := data[2 + e..];
        var n := SpanLength(data[1 + e], |payload|);
        if n > |payload| then Err(IndexOutOfRange)
        else Ok(Transform(payload, n, mask))
  }

  /** What the source's `DecryptFile(data, url)` returns, or the exception it throws. A path
      without the ".k9a" suffix gets the one-byte array {0} and no byte of `data` is read;
      any other is decoded under the mask of the path's name. */
  function DecryptOutcome(data: seq<byte>, url: string): (r: Result<seq<byte>>)
    ensures !HasK9aSuffix(url) ==> r == Ok([0])
    ensures r.Err? ==> HasK9aSuffix(url) && r.fault == IndexOutOfRange
    ensures r.Ok? && HasK9aSuffix(url) ==> |data| > 0 && |r.value| == |data| - 2 - data[0] as int
  {
    if !HasK9aSuffix(url) then Ok([0]) else DecodeContainer(data, MaskOf(url))
  }

  /** A container whose header is present: the payload is transformed over its declared
      span, or the span runs past its end. */
  lemma DecodeWithHeader(data: seq<byte>, mask: bv32, e: nat, payload: seq<byte>, n: nat)
    requires |data| > 0 && e == data[0] as int && |data| >= 2 + e
    requires payload == data[2 + e..]
    requires n == SpanLength(data[1 + e], |payload|)
    ensures n > |payload| ==> DecodeContainer(data, mask) == Err(IndexOutOfRange)
    ensures n <= |payload| ==> DecodeContainer(data, mask) == Ok(Transform(payload, n, mask))
  {
  }

  /** A path without the ".k9a" suffix gets exactly {0}, whatever the data, even none. */
  lemma OtherPathsGetSentinel(data: seq<byte>, url: string)
    requires !HasK9aSuffix(url)
    ensures DecryptOutcome(data, url) == Ok([0])
  {
  }

  /** Decoding throws exactly when the buffer is empty, shorter than the header 2 + E, or
      declares more bytes than the payload has; it is always an index fault. */
  lemma DecodeFaults(data: seq<byte>, mask: bv32)
    ensures DecodeContainer(data, mask).Err? <==>
      || |data| == 0
      || |data| < 2 + data[0] as int
      || SpanLength(data[1 + data[0] as int], |data| - 2 - data[0] as int) > |data| - 2 - data[0] as int
    ensures DecodeContainer(data, mask).Err? ==> DecodeContainer(data, mask).fault == IndexOutOfRange
  {
  }

  /** A decoded container: the output is as long as the payload at offset 2 + E; its first
      n bytes (n = L, or the whole payload when L = 0) are the payload bytes XOR the rolling
      mask started from `mask`; every later byte is the payload byte as is. */
  lemma DecodedLayout(data: seq<byte>, mask: bv32, out: seq<byte>, e: nat)
    requires DecodeContainer(data, mask) == Ok(out)
    requires |data| > 0 && e == data[0] as int
    ensures 2 + e <= |data|
    ensures |out| == |data| - 2 - e
    ensures var n := SpanLength(data[1 + e], |out|);
      && (data[1 + e] == 0 ==> n == |out|)
      && (forall i :: 0 <= i < n ==>
            out[i] == Unmask(data[2 + e + i], KeyAt(mask, data[2 + e..], i)))
      && (forall i :: n <= i < |out| ==> out[i] == data[2 + e + i])
  {
    var payload := data[2 + e..];
    var n := SpanLength(data[1 + e], |payload|);
    DecodeWithHeader(data, mask, e, payload, n);
    TransformMeaning(payload, n, mask);
    forall i | n <= i < |out| ensures out[i] == data[2 + e + i] {
      assert payload[i] == data[2 + e + i];
    }
  }

  /** Lays out a container: E, the E extension bytes, L, then the payload;
      `extensionLength` is the byte E. */
  function Pack(extensionLength: byte, extension: seq<byte>, declared: byte, payload: seq<byte>): (data: seq<byte>)
    requires |extension| == extensionLength as int
    ensures |data| == 2 + |extension| + |payload|
    ensures data[0] as int == |extension| && data[1 + |extension|] == declared
    ensures data[2 + |extension|..] == payload
  {
    [extensionLength] + extension + [declared] + payload
  }

  /** The extension of a packed container is its extension bytes, read as ASCII. */
  lemma ExtensionOfPacked(extensionLength: byte, extension: seq<byte>, declared: byte, payload: seq<byte>)
    requires |extension| == extensionLength as int
    ensures GetFileExtension(Pack(extensionLength, extension, declared, payload)) == Ok(AsciiString(extension))
  {
    var data := Pack(extensionLength, extension, declared, payload);
    assert data == [extensionLength] + extension + ([declared] + payload);
    assert data[1..1 + |extension|] == extension;
  }

  /** Packing the encryption of a plaintext and decoding it under the same mask gives the
      plaintext back, for every declared length the payload can satisfy. */
  lemma DecodePacked(extensionLength: byte, extension: seq<byte>, declared: byte, plain: seq<byte>, mask: bv32)
    requires |extension| == extensionLength as int
    requires SpanLength(declared, |plain|) <= |plain|
    ensures var n := SpanLength(declared, |plain|);
      DecodeContainer(Pack(extensionLength, extension, declared, Encrypt(plain, n, mask)), mask) == Ok(plain)
  {
    var n := SpanLength(declared, |plain|);
    var data := Pack(extensionLength, extension, declared, Encrypt(plain, n, mask));
    DecodeWithHeader(data, mask, |extension|, Encrypt(plain, n, mask), n);
    TransformEncrypt(plain, n, mask);
  }

  /** A header that declares a five-byte extension in a one-byte buffer is a fault, not a
      read past the end; so is a lone extension length. */
  lemma ShortHeaderFaults(mask: bv32)
    ensures DecodeContainer([5], mask) == Err(IndexOutOfRange)
    ensures GetFileExtension([5]) == Err(ArgumentOutOfRange)
    ensures DecodeContainer([0], mask) == Err(IndexOutOfRange)
  {
  }

  /** A worked container: no extension, L = 1 and the ciphertext byte 0x10 under the mask
      65 (that of "a.k9a") decode to the single byte 0x51. */
  lemma OneByteExample()
    ensures DecodeContainer([0, 1, 0x10], 65) == Ok([0x51])
  {
    var data: seq<byte> := [0, 1, 0x10];
    assert data[2..] == [0x10];
    FirstStepExample();
  }
}
