/** The source's `DecryptFile` as the array algorithm it is. */
module Decoder {
  import opened Base
  import opened CSharpInt
  import opened Rolling
  import opened PathText
  import opened NameMask
  import opened Cipher
  import opened Container

  /** `Array.Copy(source, sourceIndex, destination, 0, destination.Length)`. */
  method CopyFrom(source: array<byte>, sourceIndex: nat, destination: array<byte>)
    requires sourceIndex + destination.Length <= source.Length && source != destination
    modifies destination
    ensures destination[..] == source[sourceIndex..sourceIndex + destination.Length]
  {
    forall k | 0 <= k < destination.Length {
      destination[k] := source[sourceIndex + k];
    }
  }

  /** The source's decryption loop over its payload array `buffer`: it runs `count` times,
      reading byte `i` and overwriting it with its decryption under the rolling mask. It
      fails, having transformed the bytes before it, when `count` passes the end of the
      buffer; otherwise the buffer ends as the transform of its old contents. */
  method DecryptInPlace(buffer: array<byte>, count: nat, mask: bv32) returns (ok: bool)
    modifies buffer
    ensures ok <==> count <= buffer.Length
    ensures ok ==> buffer[..] == Transform(old(buffer[..]), count, mask)
  {
    ghost var payload := buffer[..];
    assert payload == Transform(payload, 0, mask);
    var newMask := mask;
    var i := 0;
    while i < count
      invariant 0 <= i <= count && i <= |payload|
      invariant newMask == KeyAt(mask, payload, i)
      invariant buffer[..] == Transform(payload, i, mask)
    {
      if i == buffer.Length {
        // `buffer[i]` is past the end: the declared length exceeds the payload.
        return false;
      }
      var encryptedByte := buffer[i];
      assert encryptedByte == Transform(payload, i, mask)[i..][0] == payload[i];
      TransformStep(payload, i, mask);
      KeyAtStep(mask, payload, i);
      buffer[i] := DecryptByte(encryptedByte, newMask);
      newMask := Feedback(newMask, WidenByte(encryptedByte));  // `newMask << 1 ^ encryptedByte`
      i := i + 1;
    }
    return true;
  }

  /** Decodes one container read from `url`. Header reads are unchecked in the source, so a
      read past the end is an `IndexOutOfRange` fault here; the payload is copied into a new
      array and then transformed in place, through a second name for that same array. The
      result is what `DecryptOutcome` says, in a fresh array. */
  method DecryptFile(data: array<byte>, url: string) returns (r: Result<array<byte>>)
    ensures r.Ok? <==> DecryptOutcome(old(data[..]), url).Ok?
    ensures r.Ok? ==> fresh(r.value) && r.value[..] == DecryptOutcome(old(data[..]), url).value
    ensures r.Err? ==> r.fault == DecryptOutcome(old(data[..]), url).fault
  {
    ghost var input := data[..];
    if !HasK9aSuffix(url) {
      var empty := new byte[1];
      empty[0] := 0;
      assert empty[..] == [0];
      OtherPathsGetSentinel(input, url);
      return Ok(empty);
    }
    if data.Length == 0 {
      return Err(IndexOutOfRange);
    }
    var headerLength := data[0] as int;
    if 1 + headerLength >= data.Length {
      return Err(IndexOutOfRange);
    }
    var dataLength := data[1 + headerLength] as int;
    ByteValueIsZero(data[1 + headerLength]);
    var encryptedData := new byte[data.Length - 2 - headerLength];
    CopyFrom(data, 2 + headerLength, encryptedData);
    ghost var payload := encryptedData[..];
    assert payload == input[2 + headerLength..];
    var newMask := Mask(url);
    if dataLength == 0 {
      dataLength := encryptedData.Length;
    }
    DecodeWithHeader(input, MaskOf(url), headerLength, payload, dataLength);
    var decryptedData := encryptedData;
    var ok := DecryptInPlace(decryptedData, dataLength, newMask);
    if !ok {
      return Err(IndexOutOfRange);
    }
    assert decryptedData[..] == Transform(payload, dataLength, MaskOf(url));
    return Ok(decryptedData);
  }
}
