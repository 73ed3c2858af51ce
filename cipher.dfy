/** The rolling ciphertext-feedback XOR that `DecryptFile` runs over a container's payload. */
module Cipher {
  import opened Base
  import opened CSharpInt
  import opened Rolling

  /** One output byte, as line 326 writes it: `(byte)((encryptedByte ^ newMask) % 256)`.
      Whatever the sign of the 32-bit XOR, this is the ciphertext byte XOR the mask's low byte. */
  function DecryptByte(c: byte, mask: bv32): (p: byte)
    ensures p == Unmask(c, mask)
  {
    CastOfRemainderIsLowByte(WidenByte(c) ^ mask);
    NarrowToByte(Rem256(WidenByte(c) ^ mask))
  }

  /** The ciphertext byte XOR the low byte of the mask. */
  function Unmask(c: byte, mask: bv32): byte
  {
    c ^ NarrowToByte(mask)
  }

  /** Bytes as the `int` operands of the feedback step. */
  function Widen(bs: seq<byte>): seq<bv32>
  {
    seq(|bs|, i requires 0 <= i < |bs| => WidenByte(bs[i]))
  }

  /** The mask in effect when byte `i` is decrypted: the starting mask with the ciphertext
      bytes before `i` fed back into it. */
  function KeyAt(mask: bv32, c: seq<byte>, i: nat): bv32
    requires i <= |c|
  {
    Feed(mask, Widen(c[..i]))
  }

  /** The transform as a fold: decrypt the first `n` bytes, carrying the mask from byte to
      byte and feeding back each CIPHERTEXT byte; the bytes from `n` on pass through. */
  function Transform(c: seq<byte>, n: nat, mask: bv32): (p: seq<byte>)
    requires n <= |c|
    ensures |p| == |c| && p[n..] == c[n..]
    decreases n
  {
    if n == 0 then c
    else [Unmask(c[0], mask)] + Transform(c[1..], n - 1, Feedback(mask, WidenByte(c[0])))
  }

  /** The inverse transform, as the tool that wrote the containers must have computed it:
      the feedback takes the ciphertext byte it has just produced. */
  function Encrypt(p: seq<byte>, n: nat, mask: bv32): (c: seq<byte>)
    requires n <= |p|
    ensures |c| == |p| && c[n..] == p[n..]
    decreases n
  {
    if n == 0 then p
    else
      var c0 := Unmask(p[0], mask);
      [c0] + Encrypt(p[1..], n - 1, Feedback(mask, WidenByte(c0)))
  }

  /** One more ciphertext byte moves the key one feedback step on. */
  lemma KeyAtStep(mask: bv32, c: seq<byte>, i: nat)
    requires i < |c|
    ensures KeyAt(mask, c, i + 1) == Feedback(KeyAt(mask, c, i), WidenByte(c[i]))
  {
    var ws := Widen(c[..i + 1]);
    assert ws[..i] == Widen(c[..i]);
  }

  /** The key for byte `i` of `c` is the key for byte `i - 1` of `c[1..]`, started one step
      on. */
  lemma KeyAtTail(mask: bv32, c: seq<byte>, i: nat)
    requires 0 < i <= |c|
    ensures KeyAt(mask, c, i) == KeyAt(Feedback(mask, WidenByte(c[0])), c[1..], i - 1)
  {
    assert Widen(c[..i]) == [WidenByte(c[0])] + Widen(c[1..][..i - 1]);
    FeedCons(mask, WidenByte(c[0]), Widen(c[1..][..i - 1]));
  }

  /** Byte `i < n` of the output is ciphertext byte `i` decrypted under the mask that the
      ciphertext bytes before it have produced. */
  lemma {:induction false} TransformAt(c: seq<byte>, n: nat, mask: bv32, i: nat)
    requires i < n <= |c|
    ensures Transform(c, n, mask)[i] == Unmask(c[i], KeyAt(mask, c, i))
    decreases n
  {
    if i == 0 {
      assert c[..0] == [];
    } else {
      var next := Feedback(mask, WidenByte(c[0]));
      TransformAt(c[1..], n - 1, next, i - 1);
      KeyAtTail(mask, c, i);
    }
  }

  /** The whole output: the first `n` bytes decrypted under their rolling masks, the rest
      copied through unchanged. */
  lemma TransformMeaning(c: seq<byte>, n: nat, mask: bv32)
    requires n <= |c|
    ensures |Transform(c, n, mask)| == |c|
    ensures forall i :: 0 <= i < n ==> Transform(c, n, mask)[i] == Unmask(c[i], KeyAt(mask, c, i))
    ensures forall i :: n <= i < |c| ==> Transform(c, n, mask)[i] == c[i]
  {
    forall i | 0 <= i < n
      ensures Transform(c, n, mask)[i] == Unmask(c[i], KeyAt(mask, c, i))
    {
      TransformAt(c, n, mask, i);
    }
    var p := Transform(c, n, mask);
    forall i | n <= i < |c| ensures p[i] == c[i] {
      assert p[n..][i - n] == c[n..][i - n];
    }
  }

  /** Running the transform over one more byte changes that byte alone, to the byte
      decrypted under its rolling mask. */
  lemma TransformStep(c: seq<byte>, n: nat, mask: bv32)
    requires n < |c|
    ensures Transform(c, n + 1, mask) == Transform(c, n, mask)[n := Unmask(c[n], KeyAt(mask, c, n))]
  {
    TransformMeaning(c, n, mask);
    TransformMeaning(c, n + 1, mask);
  }

  /** The keystream byte cancels itself: XOR is its own inverse. */
  lemma UnmaskTwice(c: byte, mask: bv32)
    ensures Unmask(Unmask(c, mask), mask) == c
  {
  }

  /** One step of `TransformEncrypt`: the first byte comes back, the rest recurses. */
  lemma TransformEncryptStep(p: seq<byte>, n: nat, mask: bv32)
    requires 0 < n <= |p|
    ensures var next := Feedback(mask, WidenByte(Unmask(p[0], mask)));
      Transform(Encrypt(p, n, mask), n, mask) == [p[0]] + Transform(Encrypt(p[1..], n - 1, next), n - 1, next)
  {
    var next := Feedback(mask, WidenByte(Unmask(p[0], mask)));
    var rest := Encrypt(p[1..], n - 1, next);
    var c := Encrypt(p, n, mask);
    assert c == [Unmask(p[0], mask)] + rest;
    assert c[1..] == rest;
    UnmaskTwice(p[0], mask);
  }

  /** Decrypting what `Encrypt` produced gives the plaintext back. */
  lemma {:induction false} TransformEncrypt(p: seq<byte>, n: nat, mask: bv32)
    requires n <= |p|
    ensures Transform(Encrypt(p, n, mask), n, mask) == p
    decreases n
  {
    if n > 0 {
      TransformEncryptStep(p, n, mask);
      TransformEncrypt(p[1..], n - 1, Feedback(mask, WidenByte(Unmask(p[0], mask))));
      assert p == [p[0]] + p[1..];
    }
  }

  /** One step of `EncryptTransform`: the first byte comes back, the rest recurses. */
  lemma EncryptTransformStep(c: seq<byte>, n: nat, mask: bv32)
    requires 0 < n <= |c|
    ensures var next := Feedback(mask, WidenByte(c[0]));
      Encrypt(Transform(c, n, mask), n, mask) == [c[0]] + Encrypt(Transform(c[1..], n - 1, next), n - 1, next)
  {
    var next := Feedback(mask, WidenByte(c[0]));
    var rest := Transform(c[1..], n - 1, next);
    var p := Transform(c, n, mask);
    assert p == [Unmask(c[0], mask)] + rest;
    assert p[1..] == rest;
    UnmaskTwice(c[0], mask);
  }

  /** Encrypting the decrypted bytes gives the ciphertext back. */
  lemma {:induction false} EncryptTransform(c: seq<byte>, n: nat, mask: bv32)
    requires n <= |c|
    ensures Encrypt(Transform(c, n, mask), n, mask) == c
    decreases n
  {
    if n > 0 {
      EncryptTransformStep(c, n, mask);
      EncryptTransform(c[1..], n - 1, Feedback(mask, WidenByte(c[0])));
      assert c == [c[0]] + c[1..];
    }
  }

  /** Different ciphertexts never decrypt to the same bytes under the same mask. */
  lemma TransformInjective(c: seq<byte>, d: seq<byte>, n: nat, mask: bv32)
    requires n <= |c| && n <= |d|
    requires Transform(c, n, mask) == Transform(d, n, mask)
    ensures c == d
  {
    EncryptTransform(c, n, mask);
    EncryptTransform(d, n, mask);
  }

  /** The cipher resynchronises: from byte 32 on, every bit of the starting mask has been
      shifted out, so those bytes decrypt the same whatever mask the file name gave. */
  lemma TransformForgetsMaskAfter32(c: seq<byte>, n: nat, mask: bv32, other: bv32, i: nat)
    requires 32 <= i < |c| && n <= |c|
    ensures Transform(c, n, mask)[i] == Transform(c, n, other)[i]
  {
    TransformMeaning(c, n, mask);
    TransformMeaning(c, n, other);
    if i < n {
      FeedForgetsStart(mask, other, Widen(c[..i]));
    }
  }

  /** A worked step: under the mask 65, the ciphertext byte 0x10 decrypts to 0x51 and moves
      the mask to (65 << 1) ^ 0x10 = 130 ^ 16 = 146. */
  lemma FirstStepExample()
    ensures Transform([0x10], 1, 65) == [0x51]
    ensures Feedback(65, WidenByte(0x10)) == 146
  {
    assert Unmask(0x10, 65) == 0x51;
  }
}
