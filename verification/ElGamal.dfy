/** ElGamal with the library's own padding: the message block is multiplied by the shared key modulo p. */
module ElGamal {
  import opened Modular
  import opened Octets

  datatype DecodingResult = Invalid | Decoded(length: nat)

  /** A modulus of fewer than three octets leaves no room for the length octet: the size computations
      of the source then wrap around. */
  predicate Modulus(p: int) {
    p > 1 && ByteCount(p) >= 3
  }

  function MaxPlaintextLength(p: int, cipherTextLength: nat): nat
    requires Modulus(p)
  {
    var len := ByteCount(p);
    if cipherTextLength != len then 0 else if len - 3 < 255 then len - 3 else 255
  }

  function CiphertextLength(p: int, plainTextLength: nat): nat
    requires Modulus(p)
  {
    var len := ByteCount(p);
    if plainTextLength <= MaxPlaintextLength(p, len) then len else 0
  }

  /** Random octets, the message, and its length in the last octet. */
  function Block(pad: seq<byte>, plainText: seq<byte>): seq<byte>
    requires |plainText| < 256
  {
    pad + plainText + [|plainText|]
  }

  predicate PadFits(p: int, pad: seq<byte>, plainText: seq<byte>) {
    && Modulus(p) && |plainText| <= MaxPlaintextLength(p, ByteCount(p))
    && |pad| + |plainText| == ByteCount(p) - 2
  }

  function Encrypted(p: int, key: seq<byte>, pad: seq<byte>, plainText: seq<byte>): seq<byte>
    requires PadFits(p, pad, plainText)
  {
    Encode((Value(key) * Value(Block(pad, plainText))) % p, ByteCount(p))
  }

  datatype Message = NoMessage | Message(octets: seq<byte>)

  function Decrypted(p: int, key: seq<byte>, cipherText: seq<byte>): Message
    requires Modulus(p)
  {
    if |cipherText| != ByteCount(p) then NoMessage
    else
      var m := (Value(cipherText) * InverseMod(Value(key), p)) % p;
      if m % 256 > MaxPlaintextLength(p, ByteCount(p)) then NoMessage
      else Message(Encode(m / 256, m % 256))
  }

  method SymmetricEncrypt(p: int, pad: seq<byte>, key: seq<byte>, plainText: seq<byte>, cipherText: array<byte>)
    requires PadFits(p, pad, plainText) && cipherText.Length == CiphertextLength(p, |plainText|)
    modifies cipherText
    ensures cipherText[..] == Encrypted(p, key, pad, plainText)
  {
    var modulusLen := ByteCount(p);
    var block := new byte[modulusLen - 1];
    Put(block, 0, pad);
    Put(block, modulusLen - 2 - |plainText|, plainText);
    block[modulusLen - 2] := |plainText|;
    assert block[..modulusLen - 2] == pad + plainText;
    assert block[..] == Block(pad, plainText);
    Put(cipherText, 0, Encode((Value(key) * Value(block[..])) % p, modulusLen));
    assert cipherText[..] == cipherText[0..modulusLen];
  }

  method SymmetricDecrypt(p: int, key: seq<byte>, cipherText: seq<byte>, plainText: array<byte>)
    returns (r: DecodingResult)
    requires Modulus(p) && plainText.Length >= 1 && plainText.Length >= MaxPlaintextLength(p, ByteCount(p))
    modifies plainText
    ensures match Decrypted(p, key, cipherText)
            case NoMessage => r == Invalid
            case Message(octets) =>
              r == Decoded(|octets|) && |octets| <= plainText.Length && plainText[..|octets|] == octets
  {
    var modulusLen := ByteCount(p);
    if |cipherText| != modulusLen {
      return Invalid;
    }
    var m := (Value(cipherText) * InverseMod(Value(key), p)) % p;
    plainText[0] := m % 256;
    var plainTextLength := plainText[0];
    if plainTextLength > MaxPlaintextLength(p, modulusLen) {
      return Invalid;
    }
    m := m / 256;
    Put(plainText, 0, Encode(m, plainTextLength));
    r := Decoded(plainTextLength);
  }

  /** Multiplying by the key and then by its inverse gives the number back. */
  lemma KeyCancels(key: int, b: nat, p: int)
    requires IsPrime(p) && key % p != 0 && b < p
    ensures (((key * b) % p) * InverseMod(key, p)) % p == b
  {
    var inv := InverseMod(key, p);
    InverseModPrime(key, p);
    ModCong(key * b, p);
    CongMul((key * b) % p, key * b, inv, inv, p);
    assert (key * b) * inv == (key * inv) * b;
    QuotientUnique(1, p, 0, 1);
    CongMul(key * inv, 1, b, b, p);
    QuotientUnique(b, p, 0, b);
  }

  lemma EncodeTail(pad: seq<byte>, plainText: seq<byte>)
    ensures Encode(Value(pad + plainText), |plainText|) == plainText
  {
    var n := |plainText|;
    ValueOfConcat(pad, plainText);
    EncodeLowOf(Value(pad + plainText), Value(plainText), Value(pad), n);
    EncodeOfValue(plainText);
  }

  lemma EncodeLowOf(x: nat, low: nat, high: nat, n: nat)
    requires x == high * Pow256(n) + low
    ensures Encode(x, n) == Encode(low, n)
  {
    EncodeLow(low, high, n);
  }

  lemma ValueOfLast(s: seq<byte>, last: byte)
    ensures Value(s + [last]) / 256 == Value(s) && Value(s + [last]) % 256 == last
  {
    assert (s + [last])[..|s|] == s;
  }

  lemma BelowModulus(p: int, block: seq<byte>)
    requires p > 0 && |block| == ByteCount(p) - 1
    ensures Value(block) < p
  {
    ValueBound(block);
    ByteCountFits(p);
  }

  /** The block is smaller than the modulus, ends in the length and has the message before it. */
  lemma BlockLayout(p: int, pad: seq<byte>, plainText: seq<byte>)
    requires PadFits(p, pad, plainText)
    ensures var m := Value(Block(pad, plainText));
            m < p && m % 256 == |plainText| && Encode(m / 256, |plainText|) == plainText
  {
    BelowModulus(p, Block(pad, plainText));
    ValueOfLast(pad + plainText, |plainText|);
    EncodeTail(pad, plainText);
  }

  /** For every message up to the maximum length, every pad and every key that is not 0 modulo p. */
  lemma DecryptInvertsEncrypt(p: int, key: seq<byte>, pad: seq<byte>, plainText: seq<byte>)
    requires IsPrime(p) && PadFits(p, pad, plainText) && Value(key) % p != 0
    ensures Decrypted(p, key, Encrypted(p, key, pad, plainText)) == Message(plainText)
  {
    var m := Value(Block(pad, plainText));
    BlockLayout(p, pad, plainText);
    var c := (Value(key) * m) % p;
    FitsWhenBelow(c, p);
    ValueOfEncode(c, ByteCount(p));
    KeyCancels(Value(key), m, p);
  }

  lemma ZeroTimes(k: int, b: int, p: int)
    requires p > 0 && k % p == 0
    ensures (k * b) % p == 0
  {
    CongMul(k, 0, b, b, p);
    QuotientUnique(0, p, 0, 0);
  }

  /** A key that is 0 modulo p loses the message: whatever was sent, the empty message comes out. */
  lemma ZeroKeyLosesMessage(p: int, key: seq<byte>, pad: seq<byte>, plainText: seq<byte>)
    requires IsPrime(p) && PadFits(p, pad, plainText) && Value(key) % p == 0
    ensures Decrypted(p, key, Encrypted(p, key, pad, plainText)) == Message([])
  {
    var b := Value(Block(pad, plainText));
    ZeroTimes(Value(key), b, p);
    ByteCountFits(p);
    ValueOfEncode(0, ByteCount(p));
  }

  /** The exact condition, for every message of at most 255 octets that is three octets shorter than the modulus:
      the round trip holds unless the key vanishes and there was a message to lose. */
  lemma RoundTripExactlyWhen(p: int, key: seq<byte>, pad: seq<byte>, plainText: seq<byte>)
    requires IsPrime(p) && |plainText| <= 255 && |plainText| + 3 <= ByteCount(p)
    requires |pad| + |plainText| == ByteCount(p) - 2
    ensures Decrypted(p, key, Encrypted(p, key, pad, plainText)) == Message(plainText) <==>
            Value(key) % p != 0 || plainText == []
  {
    if Value(key) % p != 0 {
      DecryptInvertsEncrypt(p, key, pad, plainText);
    } else {
      ZeroKeyLosesMessage(p, key, pad, plainText);
    }
  }

  /** Refused are exactly ciphertexts of another length than the modulus and blocks whose last octet claims a message
      that has no room. */
  lemma RefusesExactlyWhen(p: int, key: seq<byte>, cipherText: seq<byte>)
    requires Modulus(p)
    ensures Decrypted(p, key, cipherText) == NoMessage <==>
            || |cipherText| != ByteCount(p)
            || (Value(cipherText) * InverseMod(Value(key), p)) % p % 256 + 3 > ByteCount(p)
  {
  }
}
