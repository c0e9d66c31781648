/** X_RSA_OAEP: encrypting and decrypting texts of any length block by block. */
module RsaChunks {
  import opened Basics
  import opened Octets

  const PLAIN_BLOCK := 86
  const CIPHER_BLOCK := 256

  /** One block through RSA-OAEP and hexadecimal, with a random seed; none stands for an exception. The code
      is not part of this model. */
  datatype Cipher = Cipher(encrypt: (seq<byte>, nat) -> Option<string>, decrypt: string -> Option<seq<byte>>) {
    /** Blocks of up to 86 octets become 256 characters, and come back. */
    ghost predicate Works() {
      forall p, seed :: |p| <= 86 ==>
        match encrypt(p, seed)
        case None => false
        case Some(c) => |c| == 256 && decrypt(c) == Some(p)
    }
  }

  function Behind<T>(before: seq<T>, rest: Option<seq<T>>): Option<seq<T>> {
    match rest case None => None case Some(r) => Some(before + r)
  }

  /** The ciphertext of `p`, whose first block uses random seed number `k`; none if a block fails. */
  function Encrypted(cipher: Cipher, random: nat -> nat, p: seq<byte>, k: nat): Option<string>
    decreases p
  {
    if p == [] then Some("")
    else
      var n := if |p| > PLAIN_BLOCK then PLAIN_BLOCK else |p|;
      match cipher.encrypt(p[..n], random(k))
      case None => None
      case Some(c) => Behind(c, Encrypted(cipher, random, p[n..], k + 1))
  }

  /** The plaintext of all whole blocks; none if one fails. */
  function Decrypted(cipher: Cipher, c: string): Option<seq<byte>>
    decreases |c|
  {
    if |c| < CIPHER_BLOCK then Some([])
    else
      match cipher.decrypt(c[..CIPHER_BLOCK])
      case None => None
      case Some(p) => Behind(p, Decrypted(cipher, c[CIPHER_BLOCK..]))
  }

  lemma BehindBehind<T>(a: seq<T>, b: seq<T>, rest: Option<seq<T>>)
    ensures Behind(a, Behind(b, rest)) == Behind(a + b, rest)
  {
    if rest.Some? {
      assert a + (b + rest.value) == a + b + rest.value;
    }
  }

  lemma BehindNothing<T>(rest: Option<seq<T>>)
    ensures Behind([], rest) == rest
  {
    if rest.Some? {
      assert [] + rest.value == rest.value;
    }
  }

  method Encrypt(cipher: Cipher, random: nat -> nat, plaintext: seq<byte>) returns (ok: bool, ciphertext: string)
    ensures match Encrypted(cipher, random, plaintext, 0)
            case None => !ok && ciphertext == ""
            case Some(c) => ok && ciphertext == c
  {
    ciphertext := "";
    var tmp := plaintext;
    var calls := 0;
    BehindNothing(Encrypted(cipher, random, plaintext, 0));
    while |tmp| > PLAIN_BLOCK
      invariant Encrypted(cipher, random, plaintext, 0) == Behind(ciphertext, Encrypted(cipher, random, tmp, calls))
    {
      var inblock := tmp[..PLAIN_BLOCK];
      tmp := tmp[PLAIN_BLOCK..];
      var outblock := cipher.encrypt(inblock, random(calls));
      if outblock.None? {
        return false, "";
      }
      BehindBehind(ciphertext, outblock.value, Encrypted(cipher, random, tmp, calls + 1));
      ciphertext := ciphertext + outblock.value;
      calls := calls + 1;
    }
    if |tmp| > 0 {
      assert tmp[..|tmp|] == tmp && tmp[|tmp|..] == [];
      var outblock := cipher.encrypt(tmp, random(calls));
      if outblock.None? {
        return false, "";
      }
      BehindBehind(ciphertext, outblock.value, Some(""));
      ciphertext := ciphertext + outblock.value;
      assert Encrypted(cipher, random, tmp, calls) == Behind(outblock.value, Some(""));
    }
    assert ciphertext + "" == ciphertext;
    ok := true;
  }

  method Decrypt(cipher: Cipher, ciphertext: string) returns (ok: bool, plaintext: seq<byte>)
    ensures match Decrypted(cipher, ciphertext)
            case None => !ok && plaintext == []
            case Some(p) => ok && plaintext == p
  {
    plaintext := [];
    var tmp := ciphertext;
    BehindNothing(Decrypted(cipher, ciphertext));
    while |tmp| >= CIPHER_BLOCK
      invariant Decrypted(cipher, ciphertext) == Behind(plaintext, Decrypted(cipher, tmp))
    {
      var inblock := tmp[..CIPHER_BLOCK];
      tmp := tmp[CIPHER_BLOCK..];
      var outblock := cipher.decrypt(inblock);
      if outblock.None? {
        return false, [];
      }
      BehindBehind(plaintext, outblock.value, Decrypted(cipher, tmp));
      plaintext := plaintext + outblock.value;
    }
    assert plaintext + [] == plaintext;
    ok := true;
  }

  /** Encryption never fails and gives 256 characters for every 86 octets begun; decryption gives the text back,
      and an incomplete block behind it changes nothing. */
  lemma {:induction false} RoundTrip(cipher: Cipher, random: nat -> nat, p: seq<byte>, k: nat, tail: string)
    requires cipher.Works() && |tail| < CIPHER_BLOCK
    ensures match Encrypted(cipher, random, p, k)
            case None => false
            case Some(c) => |c| == 256 * ((|p| + 85) / 86) && Decrypted(cipher, c + tail) == Some(p)
    decreases p
  {
    if p == [] {
      assert "" + tail == tail;
    } else {
      var n := if |p| > PLAIN_BLOCK then PLAIN_BLOCK else |p|;
      var c := cipher.encrypt(p[..n], random(k)).value;
      RoundTrip(cipher, random, p[n..], k + 1, tail);
      var rest := Encrypted(cipher, random, p[n..], k + 1).value;
      BlockReturns(cipher, c, rest, tail, p[..n], p[n..]);
      OneBlockMore(|p|, n);
      assert p == p[..n] + p[n..];
    }
  }

  lemma BlockReturns(cipher: Cipher, c: string, rest: string, tail: string, block: seq<byte>, q: seq<byte>)
    requires |c| == CIPHER_BLOCK && cipher.decrypt(c) == Some(block) && Decrypted(cipher, rest + tail) == Some(q)
    ensures Decrypted(cipher, c + rest + tail) == Some(block + q)
  {
    var all := c + rest + tail;
    assert all[..CIPHER_BLOCK] == c && all[CIPHER_BLOCK..] == rest + tail;
  }

  lemma OneBlockMore(length: nat, n: nat)
    requires length > 0 && n == if length > PLAIN_BLOCK then PLAIN_BLOCK else length
    ensures (length + 85) / 86 == 1 + (length - n + 85) / 86
  {
  }

  // ---------------------------------------------------------------- blocks that fail

  /** Decryption succeeds exactly if every whole block does. */
  lemma {:induction false} DecryptsExactlyWhen(cipher: Cipher, c: string)
    ensures Decrypted(cipher, c).Some? <==>
              forall i: nat :: 256 * i + 256 <= |c| ==> cipher.decrypt(CipherBlock(c, i)).Some?
    decreases |c|
  {
    if |c| >= 256 {
      DecryptsExactlyWhen(cipher, c[256..]);
      assert CipherBlock(c, 0) == c[..256];
      forall i: nat | 256 * i + 256 <= |c| - 256
        ensures CipherBlock(c[256..], i) == CipherBlock(c, i + 1)
      {
      }
      if Decrypted(cipher, c).Some? {
        forall i: nat | 256 * i + 256 <= |c|
          ensures cipher.decrypt(CipherBlock(c, i)).Some?
        {
          if i > 0 {
            assert CipherBlock(c[256..], i - 1) == CipherBlock(c, i);
          }
        }
      }
    }
  }

  function CipherBlock(c: string, i: nat): string {
    if 256 * i + 256 <= |c| then c[256 * i..256 * i + 256] else ""
  }

  function PlainBlock(p: seq<byte>, i: nat): seq<byte> {
    if |p| <= 86 * i then [] else if |p| <= 86 * i + 86 then p[86 * i..] else p[86 * i..86 * i + 86]
  }

  lemma PlainNext(p: seq<byte>, n: nat, i: nat)
    requires p != [] && n == if |p| > 86 then 86 else |p|
    ensures PlainBlock(p, 0) == p[..n] && PlainBlock(p[n..], i) == PlainBlock(p, i + 1)
    ensures 86 * i < |p[n..]| <==> 86 * (i + 1) < |p|
  {
  }

  /** Every block goes through, the last one often shorter. */
  ghost predicate AllPass(cipher: Cipher, random: nat -> nat, p: seq<byte>, k: nat) {
    forall i: nat, j: nat :: 86 * i < |p| && j == k + i ==> cipher.encrypt(PlainBlock(p, i), random(j)).Some?
  }

  lemma AllPassNext(cipher: Cipher, random: nat -> nat, p: seq<byte>, k: nat, n: nat)
    requires p != [] && n == if |p| > 86 then 86 else |p|
    ensures AllPass(cipher, random, p, k) <==>
            cipher.encrypt(p[..n], random(k)).Some? && AllPass(cipher, random, p[n..], k + 1)
  {
    PlainNext(p, n, 0);
    if AllPass(cipher, random, p, k) {
      forall i: nat, j: nat | 86 * i < |p[n..]| && j == k + 1 + i
        ensures cipher.encrypt(PlainBlock(p[n..], i), random(j)).Some?
      {
        PlainNext(p, n, i);
      }
    }
    if cipher.encrypt(p[..n], random(k)).Some? && AllPass(cipher, random, p[n..], k + 1) {
      forall i: nat, j: nat | 86 * i < |p| && j == k + i
        ensures cipher.encrypt(PlainBlock(p, i), random(j)).Some?
      {
        if i > 0 {
          PlainNext(p, n, i - 1);
        }
      }
    }
  }

  /** Encryption succeeds exactly if every block does. */
  lemma {:induction false} EncryptsExactlyWhen(cipher: Cipher, random: nat -> nat, p: seq<byte>, k: nat)
    ensures Encrypted(cipher, random, p, k).Some? <==> AllPass(cipher, random, p, k)
    decreases |p|
  {
    if p != [] {
      var n := if |p| > 86 then 86 else |p|;
      EncryptsExactlyWhen(cipher, random, p[n..], k + 1);
      AllPassNext(cipher, random, p, k, n);
    }
  }

  /** The ciphertexts stand in the order of the blocks, each with its own random seed. */
  lemma {:induction false} BlocksInOrder(cipher: Cipher, random: nat -> nat, p: seq<byte>, k: nat, i: nat, j: nat,
                                         c: string)
    requires cipher.Works() && 86 * i < |p| && j == k + i && Encrypted(cipher, random, p, k) == Some(c)
    ensures cipher.encrypt(PlainBlock(p, i), random(j)) == Some(CipherBlock(c, i))
    decreases i
  {
    var n := if |p| > 86 then 86 else |p|;
    var first, rest := OneBlock(cipher, random, p, k, n, c);
    if i == 0 {
      FirstInPlace(cipher, p, n, random(j), first, rest);
    } else {
      BlocksInOrder(cipher, random, p[n..], k + 1, i - 1, j, rest);
      NextInPlace(cipher, p, n, random(j), first, rest, i);
    }
  }

  lemma FirstInPlace(cipher: Cipher, p: seq<byte>, n: nat, seed: nat, first: string, rest: string)
    requires p != [] && n == (if |p| > 86 then 86 else |p|) && |first| == 256
    requires cipher.encrypt(p[..n], seed) == Some(first)
    ensures cipher.encrypt(PlainBlock(p, 0), seed) == Some(CipherBlock(first + rest, 0))
  {
    PlainNext(p, n, 0);
    FirstBlock(first, rest);
  }

  lemma NextInPlace(cipher: Cipher, p: seq<byte>, n: nat, seed: nat, first: string, rest: string, i: nat)
    requires p != [] && n == (if |p| > 86 then 86 else |p|) && |first| == 256 && i > 0
    requires cipher.encrypt(PlainBlock(p[n..], i - 1), seed) == Some(CipherBlock(rest, i - 1))
    ensures cipher.encrypt(PlainBlock(p, i), seed) == Some(CipherBlock(first + rest, i))
  {
    PlainNext(p, n, i - 1);
    ShiftedBlock(first, rest, i);
  }

  lemma OneBlock(cipher: Cipher, random: nat -> nat, p: seq<byte>, k: nat, n: nat, c: string)
    returns (first: string, rest: string)
    requires cipher.Works() && p != [] && n == if |p| > 86 then 86 else |p|
    requires Encrypted(cipher, random, p, k) == Some(c)
    ensures c == first + rest && cipher.encrypt(p[..n], random(k)) == Some(first) && |first| == 256
    ensures Encrypted(cipher, random, p[n..], k + 1) == Some(rest)
    ensures |rest| == 256 * ((|p| - n + 85) / 86)
  {
    first := cipher.encrypt(p[..n], random(k)).value;
    RoundTrip(cipher, random, p[n..], k + 1, "");
    rest := Encrypted(cipher, random, p[n..], k + 1).value;
  }

  lemma FirstBlock(c: string, rest: string)
    requires |c| == 256
    ensures CipherBlock(c + rest, 0) == c
  {
  }

  lemma ShiftedBlock(c: string, rest: string, i: nat)
    requires |c| == 256 && i > 0
    ensures CipherBlock(c + rest, i) == CipherBlock(rest, i - 1)
  {
  }
}
