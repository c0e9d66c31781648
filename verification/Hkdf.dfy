/** HKDF: key derivation by repeated keyed hashing, against section 2 of RFC 5869. */
module Hkdf {
  import opened Basics
  import opened Octets

  datatype Outcome = InvalidArgument | Derived(length: nat)

  /** A keyed hash and its digest size; its code is not part of this model. */
  datatype Mac = Mac(digest: (seq<byte>, seq<byte>) -> seq<byte>, size: nat) {
    ghost predicate Sized() {
      size > 0 && forall k, m :: |digest(k, m)| == size
    }
  }

  // ---------------------------------------------------------------- the reference

  function Prk(mac: Mac, secret: seq<byte>, salt: Option<seq<byte>>): seq<byte> {
    mac.digest(match salt case None => Encode(0, mac.size) case Some(s) => s, secret)
  }

  /** T(i) of section 2.3; T(0) is empty. */
  function T(mac: Mac, prk: seq<byte>, info: seq<byte>, i: nat): (t: seq<byte>)
    requires i < 256
    decreases i
  {
    if i == 0 then [] else mac.digest(prk, T(mac, prk, info, i - 1) + info + [i])
  }

  /** T(1) | T(2) | ... | T(n) */
  function Blocks(mac: Mac, prk: seq<byte>, info: seq<byte>, n: nat): seq<byte>
    requires n < 256
    decreases n
  {
    if n == 0 then [] else Blocks(mac, prk, info, n - 1) + T(mac, prk, info, n)
  }

  lemma {:induction false} BlocksSize(mac: Mac, prk: seq<byte>, info: seq<byte>, n: nat)
    requires mac.Sized() && n < 256
    ensures |Blocks(mac, prk, info, n)| == n * mac.size
    decreases n
  {
    if n > 0 {
      BlocksSize(mac, prk, info, n - 1);
    }
  }

  lemma {:induction false} BlocksGrow(mac: Mac, prk: seq<byte>, info: seq<byte>, m: nat, n: nat)
    requires m <= n < 256
    ensures Blocks(mac, prk, info, m) <= Blocks(mac, prk, info, n)
    decreases n
  {
    if m < n {
      BlocksGrow(mac, prk, info, m, n - 1);
    }
  }

  /** The least number of blocks that covers a length. */
  function Rounds(size: nat, length: nat): nat
    requires size > 0
  {
    if length <= size then (if length == 0 then 0 else 1) else 1 + Rounds(size, length - size)
  }

  lemma {:induction false} RoundsLeast(size: nat, length: nat, n: nat)
    requires size > 0
    ensures length <= Rounds(size, length) * size
    ensures length <= n * size ==> Rounds(size, length) <= n
  {
    if length > size {
      RoundsLeast(size, length - size, if n > 0 then n - 1 else 0);
      assert n > 0 ==> (n - 1) * size == n * size - size;
    } else if length <= n * size && n == 0 {
      assert length == 0;
    }
  }

  /** The output of section 2.3: the first `length` octets of as many blocks as it takes. */
  ghost function Okm(mac: Mac, prk: seq<byte>, info: seq<byte>, length: nat): (okm: seq<byte>)
    requires mac.Sized() && length <= 255 * mac.size
    ensures |okm| == length
  {
    var n := Rounds(mac.size, length);
    RoundsLeast(mac.size, length, 255);
    BlocksSize(mac, prk, info, n);
    Blocks(mac, prk, info, n)[..length]
  }

  /** Any number of blocks that covers the length gives the same octets. */
  lemma OkmOfBlocks(mac: Mac, prk: seq<byte>, info: seq<byte>, length: nat, n: nat)
    requires mac.Sized() && length <= 255 * mac.size && n < 256 && length <= n * mac.size
    ensures |Blocks(mac, prk, info, n)| == n * mac.size
    ensures Okm(mac, prk, info, length) == Blocks(mac, prk, info, n)[..length]
  {
    var least := Rounds(mac.size, length);
    RoundsLeast(mac.size, length, n);
    BlocksSize(mac, prk, info, n);
    BlocksSize(mac, prk, info, least);
    BlocksGrow(mac, prk, info, least, n);
  }

  /** Shorter outputs are prefixes of longer ones. */
  lemma OkmPrefix(mac: Mac, prk: seq<byte>, info: seq<byte>, length: nat, longer: nat)
    requires mac.Sized() && length <= longer <= 255 * mac.size
    ensures Okm(mac, prk, info, length) == Okm(mac, prk, info, longer)[..length]
  {
    var n := Rounds(mac.size, longer);
    RoundsLeast(mac.size, longer, 255);
    OkmOfBlocks(mac, prk, info, length, n);
  }

  lemma {:induction false} BlockAt(mac: Mac, prk: seq<byte>, info: seq<byte>, n: nat, j: nat, lo: nat)
    requires mac.Sized() && j < n < 256 && lo == j * mac.size
    ensures lo + mac.size <= |Blocks(mac, prk, info, n)|
    ensures Blocks(mac, prk, info, n)[lo..lo + mac.size] == T(mac, prk, info, j + 1)
    decreases n
  {
    var before, t := Blocks(mac, prk, info, n - 1), T(mac, prk, info, n);
    BlocksSize(mac, prk, info, n - 1);
    assert Blocks(mac, prk, info, n) == before + t && |t| == mac.size;
    if j < n - 1 {
      BlockAt(mac, prk, info, n - 1, j, lo);
      InFront(before, t, lo, lo + mac.size);
    } else {
      Behind(before, t);
    }
  }

  lemma InFront<X>(a: seq<X>, b: seq<X>, lo: nat, hi: nat)
    requires lo <= hi <= |a|
    ensures (a + b)[lo..hi] == a[lo..hi]
  {
  }

  lemma Behind<X>(a: seq<X>, b: seq<X>)
    ensures (a + b)[|a|..|a| + |b|] == b
  {
  }

  /** The octets of T(j + 1) in the output, as far as it goes. */
  lemma OkmAt(mac: Mac, prk: seq<byte>, info: seq<byte>, length: nat, j: nat, lo: nat, hi: nat)
    requires mac.Sized() && lo == j * mac.size && lo < hi <= length <= 255 * mac.size && hi <= lo + mac.size
    ensures j < 255 && |T(mac, prk, info, j + 1)| == mac.size
    ensures Okm(mac, prk, info, length)[lo..hi] == T(mac, prk, info, j + 1)[..hi - lo]
  {
    LessBlocks(j, 255, mac.size, length);
    RoundsLeast(mac.size, length, 255);
    var n := Rounds(mac.size, length);
    OkmOfBlocks(mac, prk, info, length, n);
    LessBlocks(j, n, mac.size, length);
    BlockAt(mac, prk, info, n, j, lo);
    SliceOf(Blocks(mac, prk, info, n), length, lo, hi, mac.size);
  }

  lemma LessBlocks(j: nat, n: nat, size: nat, length: nat)
    requires j * size < length <= n * size
    ensures j < n
  {
    TimesGrow(n, j, size);
  }

  lemma TimesGrow(n: nat, j: nat, size: nat)
    ensures n <= j ==> n * size <= j * size
  {
    if n <= j {
      assert j * size == n * size + (j - n) * size;
    }
  }

  lemma SliceOf<X>(s: seq<X>, length: nat, lo: nat, hi: nat, size: nat)
    requires lo <= hi <= length <= |s| && hi <= lo + size <= |s|
    ensures s[..length][lo..hi] == s[lo..lo + size][..hi - lo]
  {
  }

  /** RFC 5869 on the octets of the output themselves: each block of them is the keyed hash of the block before, the
      info and a counter, under the keyed hash of the secret with the salt, or with zeros if there is none. */
  lemma OutputIsChained(mac: Mac, secret: seq<byte>, salt: Option<seq<byte>>, info: seq<byte>, length: nat,
                        saltOctets: seq<byte>, j: nat, lo: nat, hi: nat, before: nat)
    requires mac.Sized() && length <= 255 * mac.size && lo == j * mac.size
    requires lo < hi <= length && hi == (if lo + mac.size < length then lo + mac.size else length)
    requires before == if j == 0 then 0 else lo - mac.size
    requires match salt
             case Some(s) => saltOctets == s
             case None => |saltOctets| == mac.size && forall k :: 0 <= k < |saltOctets| ==> saltOctets[k] == 0
    ensures j < 255 && before <= lo
    ensures var okm := Okm(mac, Prk(mac, secret, salt), info, length);
            okm[lo..hi] == mac.digest(mac.digest(saltOctets, secret), okm[before..lo] + info + [j + 1])[..hi - lo]
  {
    var prk := Prk(mac, secret, salt);
    Extracts(mac, secret, salt);
    assert salt.None? ==> saltOctets == seq(mac.size, _ => 0);
    OkmAt(mac, prk, info, length, j, lo, hi);
    if j > 0 {
      OneBlockOn(mac.size, j);
      OkmAt(mac, prk, info, length, j - 1, before, lo);
      All(T(mac, prk, info, j));
    }
  }

  lemma All<X>(s: seq<X>)
    ensures s[..|s|] == s
  {
  }

  /** The salt is the key and the secret the message; no salt is as many zeros as a digest has octets. */
  lemma Extracts(mac: Mac, secret: seq<byte>, salt: Option<seq<byte>>)
    ensures salt.Some? ==> Prk(mac, secret, salt) == mac.digest(salt.value, secret)
    ensures salt.None? ==> Prk(mac, secret, salt) == mac.digest(seq(mac.size, _ => 0), secret)
  {
    ZerosEncoded(seq(mac.size, _ => 0));
  }

  lemma {:induction false} ZerosEncoded(s: seq<byte>)
    requires forall k :: 0 <= k < |s| ==> s[k] == 0
    ensures s == Encode(0, |s|)
  {
    if s != [] {
      ZerosEncoded(s[..|s| - 1]);
    }
  }

  // ---------------------------------------------------------------- the code

  /** A keyed hash object: messages are fed piece by piece, and a digest starts a new message. */
  class Hmac {
    const mac: Mac
    var key: seq<byte>
    var pending: seq<byte>

    constructor (mac: Mac)
      ensures this.mac == mac && pending == []
    {
      this.mac, key, pending := mac, [], [];
    }

    method SetKey(k: seq<byte>)
      modifies this
      ensures key == k && pending == []
    {
      key, pending := k, [];
    }

    method Update(input: seq<byte>)
      modifies this`pending
      ensures pending == old(pending) + input
    {
      pending := pending + input;
    }

    method CalculateDigest(input: seq<byte>) returns (digest: seq<byte>)
      modifies this`pending
      ensures digest == mac.digest(key, old(pending) + input) && pending == []
    {
      digest := mac.digest(key, pending + input);
      pending := [];
    }
  }

  method DeriveKey(mac: Mac, derived: array<byte>, secret: seq<byte>, salt: Option<seq<byte>>, info: seq<byte>)
    returns (r: Outcome)
    requires mac.Sized()
    modifies derived
    ensures r == if derived.Length > 255 * mac.size then InvalidArgument else Derived(derived.Length)
    ensures derived[..] == if r.InvalidArgument? then old(derived[..])
                           else Okm(mac, Prk(mac, secret, salt), info, derived.Length)
  {
    if derived.Length > 255 * mac.size {
      return InvalidArgument;
    }
    var hmac := new Hmac(mac);
    hmac.SetKey(match salt case None => Encode(0, mac.size) case Some(s) => s);
    assert hmac.pending + secret == secret;
    var prk := hmac.CalculateDigest(secret);
    hmac.SetKey(prk);
    Expand(mac, hmac, derived, info);
    r := Derived(derived.Length);
  }

  /** `okm` is the output so far, with `left` octets missing. */
  ghost predicate Yielded(mac: Mac, prk: seq<byte>, info: seq<byte>, block: nat, left: nat, length: nat, okm: seq<byte>)
    requires mac.Sized()
  {
    && |okm| + left == length <= 255 * mac.size && block < 256 && (left > 0 ==> |okm| == block * mac.size)
    && okm == Okm(mac, prk, info, |okm|)
  }

  lemma YieldedNext(mac: Mac, prk: seq<byte>, info: seq<byte>, block: nat, left: nat, length: nat, okm: seq<byte>)
    requires mac.Sized() && left > 0 && Yielded(mac, prk, info, block, left, length, okm)
    ensures block < 255 && |T(mac, prk, info, block + 1)| == mac.size
    ensures var n := if left < mac.size then left else mac.size;
            Yielded(mac, prk, info, block + 1, left - n, length, okm + T(mac, prk, info, block + 1)[..n])
  {
    Counted(mac, block, |okm|);
    NextSegment(mac, prk, info, block + 1, |okm|, if left < mac.size then left else mac.size);
  }

  /** The loop of DeriveKey. The counter is one octet and never wraps round. */
  method Expand(mac: Mac, hmac: Hmac, derived: array<byte>, info: seq<byte>)
    requires mac.Sized() && hmac.mac == mac && hmac.pending == [] && derived.Length <= 255 * mac.size
    modifies derived, hmac`pending
    ensures derived[..] == Okm(mac, hmac.key, info, derived.Length)
  {
    var block: nat, done: nat, derivedLen: nat := 0, 0, derived.Length;
    var buffer: seq<byte> := [];
    ghost var okm: seq<byte>, key := [], hmac.key;
    while derivedLen > 0
      invariant done == |okm| && hmac.pending == [] && hmac.key == key && buffer == T(mac, key, info, block)
      invariant Yielded(mac, key, info, block, derivedLen, derived.Length, okm)
      invariant derived[..done] == okm
    {
      YieldedNext(mac, key, info, block, derivedLen, derived.Length, okm);
      block, buffer := Round(mac, hmac, info, block, buffer);
      var segmentLen := if derivedLen < mac.size then derivedLen else mac.size;
      Put(derived, done, buffer[..segmentLen]);
      okm := okm + buffer[..segmentLen];
      done := done + segmentLen;
      derivedLen := derivedLen - segmentLen;
    }
    assert derived[..done] == derived[..];
  }

  method Round(mac: Mac, hmac: Hmac, info: seq<byte>, block: nat, buffer: seq<byte>)
    returns (next: nat, digest: seq<byte>)
    requires hmac.mac == mac && block < 255 && buffer == T(mac, hmac.key, info, block) && hmac.pending == []
    modifies hmac`pending
    ensures next == block + 1 && digest == T(mac, hmac.key, info, next) && hmac.pending == []
  {
    if block > 0 {
      hmac.Update(buffer);
    }
    next := (block + 1) % 256;
    if |info| > 0 {
      hmac.Update(info);
    }
    assert hmac.pending == buffer + info;
    digest := hmac.CalculateDigest([next]);
  }

  /** While octets are missing, fewer than 255 blocks have been made. */
  lemma Counted(mac: Mac, block: nat, done: nat)
    requires mac.size > 0 && done == block * mac.size && done < 255 * mac.size
    ensures block < 255
  {
    Product(255, block, mac.size);
  }

  lemma Product(m: nat, n: nat, size: nat)
    ensures m <= n ==> m * size <= n * size
  {
  }

  lemma NextSegment(mac: Mac, prk: seq<byte>, info: seq<byte>, block: nat, done: nat, segmentLen: nat)
    requires mac.Sized() && 0 < block < 256 && done == (block - 1) * mac.size && segmentLen <= mac.size
    requires done + segmentLen <= 255 * mac.size
    ensures |T(mac, prk, info, block)| == mac.size && done + mac.size == block * mac.size
    ensures Okm(mac, prk, info, done + segmentLen) == Okm(mac, prk, info, done) + T(mac, prk, info, block)[..segmentLen]
  {
    var before, t := Blocks(mac, prk, info, block - 1), T(mac, prk, info, block);
    OneBlockOn(mac.size, block);
    OkmOfBlocks(mac, prk, info, done, block - 1);
    OkmOfBlocks(mac, prk, info, done + segmentLen, block);
    assert Blocks(mac, prk, info, block) == before + t;
    CutBehind(before, t, segmentLen);
  }

  lemma OneBlockOn(size: nat, block: nat)
    requires block > 0
    ensures (block - 1) * size + size == block * size
  {
  }

  lemma CutBehind<T>(before: seq<T>, t: seq<T>, n: nat)
    requires n <= |t|
    ensures before[..|before|] == before && (before + t)[..|before| + n] == before + t[..n]
  {
  }
}
