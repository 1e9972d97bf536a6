/** The CFB8 mode of operation (section 6.3 of NIST SP 800-38A) over an arbitrary block function.

    The block cipher is a parameter: `block(register)` stands for the first byte of the
    encrypted shift register. Nothing is assumed about it. */
module Cfb8 {
  import opened Bytes

  type BlockFunction = seq<byte> -> byte

  type Register = r: seq<byte> | |r| > 0 witness [0]

  function Shift(register: Register, cipherByte: byte): (r: Register)
    ensures |r| == |register|
  {
    register[1..] + [cipherByte]
  }

  /** The register after the given ciphertext has passed through it. */
  function RegisterAfter(register: Register, cipher: seq<byte>): (r: Register)
    ensures |r| == |register|
    decreases |cipher|
  {
    if cipher == [] then register else RegisterAfter(Shift(register, cipher[0]), cipher[1..])
  }

  function Encrypt(block: BlockFunction, register: Register, plain: seq<byte>): (cipher: seq<byte>)
    ensures |cipher| == |plain|
    decreases |plain|
  {
    if plain == [] then []
    else
      var c := Xor(plain[0], block(register));
      [c] + Encrypt(block, Shift(register, c), plain[1..])
  }

  function Decrypt(block: BlockFunction, register: Register, cipher: seq<byte>): (plain: seq<byte>)
    ensures |plain| == |cipher|
    decreases |cipher|
  {
    if cipher == [] then []
    else
      [Xor(cipher[0], block(register))] + Decrypt(block, Shift(register, cipher[0]), cipher[1..])
  }

  // ---------------------------------------------------------------- the feedback

  /** The register holds the last bytes of the initial register followed by the ciphertext. */
  lemma {:induction false} RegisterIsWindow(iv: Register, cipher: seq<byte>)
    ensures RegisterAfter(iv, cipher) == (iv + cipher)[|cipher|..]
    decreases |cipher|
  {
    if cipher == [] {
      assert iv + cipher == iv;
    } else {
      var next := iv[1..] + [cipher[0]];
      RegisterIsWindow(next, cipher[1..]);
      assert next + cipher[1..] == (iv + cipher)[1..];
    }
  }

  /** Every byte is combined with the block function of the bytes before it: of the ciphertext, and
      at the start of the initial register. */
  lemma {:induction false} EncryptAt(block: BlockFunction, iv: Register, plain: seq<byte>, i: nat)
    requires i < |plain|
    ensures var c := Encrypt(block, iv, plain);
            c[i] == Xor(plain[i], block((iv + c)[i..i + |iv|]))
    decreases |plain|
  {
    var c := Encrypt(block, iv, plain);
    var next := iv[1..] + [c[0]];
    if i == 0 {
      assert (iv + c)[..|iv|] == iv;
    } else {
      EncryptAt(block, next, plain[1..], i - 1);
      assert next + c[1..] == (iv + c)[1..];
      assert (iv + c)[1..][i - 1..i - 1 + |iv|] == (iv + c)[i..i + |iv|];
    }
  }

  lemma {:induction false} DecryptAtWindow(block: BlockFunction, iv: Register, cipher: seq<byte>, i: nat)
    requires i < |cipher|
    ensures Decrypt(block, iv, cipher)[i] == Xor(cipher[i], block((iv + cipher)[i..i + |iv|]))
    decreases |cipher|
  {
    var next := iv[1..] + [cipher[0]];
    if i == 0 {
      assert (iv + cipher)[..|iv|] == iv;
    } else {
      DecryptAtWindow(block, next, cipher[1..], i - 1);
      assert next + cipher[1..] == (iv + cipher)[1..];
      assert (iv + cipher)[1..][i - 1..i - 1 + |iv|] == (iv + cipher)[i..i + |iv|];
    }
  }

  // ---------------------------------------------------------------- in pieces

  lemma {:induction false} RegisterAfterAppend(register: Register, a: seq<byte>, b: seq<byte>)
    ensures RegisterAfter(register, a + b) == RegisterAfter(RegisterAfter(register, a), b)
    decreases |a|
  {
    if a == [] {
      assert a + b == b;
    } else {
      assert (a + b)[1..] == a[1..] + b;
      RegisterAfterAppend(Shift(register, a[0]), a[1..], b);
    }
  }

  /** Encrypting in two calls is encrypting in one, with the register carried over. */
  lemma {:induction false} EncryptAppend(block: BlockFunction, register: Register, a: seq<byte>, b: seq<byte>)
    ensures Encrypt(block, register, a + b)
         == Encrypt(block, register, a)
          + Encrypt(block, RegisterAfter(register, Encrypt(block, register, a)), b)
    decreases |a|
  {
    if a == [] {
      assert a + b == b;
    } else {
      assert (a + b)[1..] == a[1..] + b;
      var c := Xor(a[0], block(register));
      var rest := Encrypt(block, Shift(register, c), a[1..]);
      assert ([c] + rest)[1..] == rest;
      EncryptAppend(block, Shift(register, c), a[1..], b);
    }
  }

  lemma {:induction false} DecryptAppend(block: BlockFunction, register: Register, a: seq<byte>, b: seq<byte>)
    ensures Decrypt(block, register, a + b)
         == Decrypt(block, register, a) + Decrypt(block, RegisterAfter(register, a), b)
    decreases |a|
  {
    if a == [] {
      assert a + b == b;
    } else {
      assert (a + b)[1..] == a[1..] + b;
      DecryptAppend(block, Shift(register, a[0]), a[1..], b);
    }
  }

  /** Decryption undoes encryption for any block function, any key and any length. */
  lemma {:induction false} DecryptEncrypt(block: BlockFunction, register: Register, plain: seq<byte>)
    ensures Decrypt(block, register, Encrypt(block, register, plain)) == plain
    decreases |plain|
  {
    if plain != [] {
      var c := Xor(plain[0], block(register));
      var rest := Encrypt(block, Shift(register, c), plain[1..]);
      assert ([c] + rest)[1..] == rest;
      XorInvolutive(plain[0], block(register));
      DecryptEncrypt(block, Shift(register, c), plain[1..]);
    }
  }

  /** A prefix of the plaintext encrypts to a prefix of the ciphertext. */
  lemma {:induction false} EncryptPrefix(block: BlockFunction, register: Register, plain: seq<byte>, n: nat)
    requires n <= |plain|
    ensures Encrypt(block, register, plain)[..n] == Encrypt(block, register, plain[..n])
  {
    assert plain == plain[..n] + plain[n..];
    EncryptAppend(block, register, plain[..n], plain[n..]);
  }

  lemma {:induction false} EncryptOne(block: BlockFunction, register: Register, b: byte)
    ensures Encrypt(block, register, [b]) == [Xor(b, block(register))]
    ensures RegisterAfter(register, Encrypt(block, register, [b]))
         == Shift(register, Xor(b, block(register)))
  {
    var c := Xor(b, block(register));
    assert Encrypt(block, register, [b]) == [c] + Encrypt(block, Shift(register, c), []);
    assert RegisterAfter(register, [c]) == RegisterAfter(Shift(register, c), [c][1..]);
  }
}
