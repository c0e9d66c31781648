/** Hashed and fully hashed MQV over the integers modulo a prime. The two classes of the library have
    the same shape and differ in the operands they hash. */
module KeyAgreement {
  import opened Modular
  import opened Octets
  import opened GfpSignatures

  datatype Role = Server | Client
  datatype Variant = Hmqv | Fhmqv

  /** The underlying hash function: any function with digests of one positive size. */
  datatype HashFunction = HashFunction(digest: seq<byte> -> seq<byte>, size: nat) {
    ghost predicate Valid() {
      size > 0 && forall m :: |digest(m)| == size
    }

    /** The first `n` octets of H(m), H(H(m)), H(H(H(m))) and so on. */
    ghost function Stretch(m: seq<byte>, n: nat): (s: seq<byte>)
      requires Valid()
      ensures |s| == n
      decreases n
    {
      if n <= size then digest(m)[..n] else digest(m) + Stretch(digest(m), n - size)
    }
  }

  /** What both parties know; `accepts` stands for ValidateElement at a given level. */
  datatype Params = Params(group: Group, hash: HashFunction, accepts: (int, nat) -> bool, variant: Variant) {
    ghost predicate Valid() {
      group.HasOrder() && hash.Valid()
    }

    function StaticPrivateKeyLength(): nat
      requires group.q > 0
    {
      ByteCount(group.q)
    }

    function StaticPublicKeyLength(): nat
      requires group.p > 0
    {
      ByteCount(group.p)
    }

    function EncodeElement(e: nat): seq<byte>
      requires group.p > 0
    {
      Encode(e, StaticPublicKeyLength())
    }

    // ---- the keys of an honest party

    function PrivateKey(x: nat): seq<byte>
      requires group.q > 0
    {
      Encode(x, StaticPrivateKeyLength())
    }

    function PublicKey(x: nat): seq<byte>
      requires group.p > 1
    {
      EncodeElement(group.ExponentiateBase(x))
    }

    function EphemeralPrivateKey(x: nat): seq<byte>
      requires group.p > 1 && group.q > 0
    {
      PrivateKey(x) + PublicKey(x)
    }

    // ---- what is hashed, for the ephemeral keys X, Y and the static keys A, B

    function InputD(X: seq<byte>, Y: seq<byte>, A: seq<byte>, B: seq<byte>): seq<byte> {
      match variant
      case Hmqv => X + B
      case Fhmqv => X + Y + A + B
    }

    function InputE(X: seq<byte>, Y: seq<byte>, A: seq<byte>, B: seq<byte>): seq<byte> {
      match variant
      case Hmqv => Y + A
      case Fhmqv => Y + X + A + B
    }

    function InputKey(sigma: nat, X: seq<byte>, Y: seq<byte>, A: seq<byte>, B: seq<byte>): seq<byte> {
      match variant
      case Hmqv => EncodeMin(sigma)
      case Fhmqv => EncodeMin(sigma) + X + Y + A + B
    }

    /** Half the size of the subgroup order, in octets. */
    function HalfLength(): nat
      requires group.q > 0
    {
      ((BitCount(group.q) + 1) / 2 + 7) / 8
    }

    ghost function D(X: seq<byte>, Y: seq<byte>, A: seq<byte>, B: seq<byte>): nat
      requires Valid()
    {
      Value(hash.Stretch(InputD(X, Y, A, B), HalfLength()))
    }

    ghost function E(X: seq<byte>, Y: seq<byte>, A: seq<byte>, B: seq<byte>): nat
      requires Valid()
    {
      Value(hash.Stretch(InputE(X, Y, A, B), HalfLength()))
    }

    /** The agreed value that belongs to a shared group element. */
    ghost function Agreed(sigma: nat, X: seq<byte>, Y: seq<byte>, A: seq<byte>, B: seq<byte>): seq<byte>
      requires Valid()
    {
      hash.Stretch(InputKey(sigma, X, Y, A, B), StaticPublicKeyLength())
    }
  }

  /** The digest of the digest and so on, `j` times over, of the digest of the message. */
  ghost function Iterated(hash: HashFunction, m: seq<byte>, j: nat): (h: seq<byte>)
    requires hash.Valid()
    ensures |h| == hash.size
  {
    if j == 0 then hash.digest(m) else hash.digest(Iterated(hash, m, j - 1))
  }

  lemma {:induction false} IteratedFirst(hash: HashFunction, m: seq<byte>, j: nat)
    requires hash.Valid() && j > 0
    ensures Iterated(hash, m, j) == Iterated(hash, hash.digest(m), j - 1)
  {
    if j > 1 {
      IteratedFirst(hash, m, j - 1);
    }
  }

  /** Those are the blocks of the stretched hash, the last one as far as it goes. */
  lemma {:induction false} StretchAt(hash: HashFunction, m: seq<byte>, n: nat, j: nat, lo: nat, hi: nat)
    requires hash.Valid() && lo == j * hash.size && lo < hi <= n && hi <= lo + hash.size
    ensures hash.Stretch(m, n)[lo..hi] == Iterated(hash, m, j)[..hi - lo]
    decreases j
  {
    if j > 0 {
      var h := hash.digest(m);
      OneLess(j, hash.size);
      StretchAt(hash, h, n - hash.size, j - 1, lo - hash.size, hi - hash.size);
      IteratedFirst(hash, m, j);
      Behind(h, hash.Stretch(h, n - hash.size), lo, hi);
    }
  }

  lemma OneLess(j: nat, size: nat)
    requires j > 0
    ensures j * size == (j - 1) * size + size && (j - 1) * size >= 0
  {
  }

  lemma Behind<T>(a: seq<T>, b: seq<T>, lo: nat, hi: nat)
    requires |a| <= lo <= hi <= |a| + |b|
    ensures (a + b)[lo..hi] == b[lo - |a|..hi - |a|]
  {
  }

  function BitCount(v: nat): nat {
    if v == 0 then 0 else 1 + BitCount(v / 2)
  }

  /** Between two powers of two. */
  lemma {:induction false} BitCountFits(v: nat)
    ensures v < Pow(2, BitCount(v)) && (v > 0 ==> Pow(2, BitCount(v) - 1) <= v)
  {
    if v > 0 {
      BitCountFits(v / 2);
    }
  }

  // ---------------------------------------------------------------- the algebra

  /** (X * A^d)^s with the reductions the code makes. */
  function Combine(p: int, X: nat, A: nat, d: nat, s: nat): nat
    requires p > 1
  {
    Pow((X * (Pow(A, d) % p)) % p, s) % p
  }

  /** (x + d*a) * (y + e*b) */
  function Exponent(x: nat, d: nat, a: nat, y: nat, e: nat, b: nat): nat {
    Multiply(d, a);
    Multiply(e, b);
    Multiply(x + d * a, y + e * b);
    (x + d * a) * (y + e * b)
  }

  lemma ExponentSwap(x: nat, d: nat, a: nat, y: nat, e: nat, b: nat)
    ensures Exponent(x, d, a, y, e, b) == Exponent(y, e, b, x, d, a)
  {
    Commute(x + d * a, y + e * b);
  }

  lemma Commute(u: int, v: int)
    ensures u * v == v * u
  {
  }

  /** One party's element, from its own private exponents and the other's public elements: with
      X = g^x and A = g^a it is g^((x + d*a) * (y + e*b)). */
  lemma CombineIsPower(gr: Group, x: nat, a: nat, d: nat, y: nat, b: nat, e: nat)
    requires gr.HasOrder()
    ensures Combine(gr.p, gr.ExponentiateBase(x), gr.ExponentiateBase(a), d, (y + e * b) % gr.q) ==
            gr.ExponentiateBase(Exponent(x, d, a, y, e, b))
  {
    var p, q, g := gr.p, gr.q, gr.g;
    var u, v := x + d * a, y + e * b;
    assert 0 <= a * d && 0 <= d * a && 0 <= e * b;
    var s := v % q;
    // X * A^d == g^u
    PowerOfPower(gr, a, d);
    ModCong(Pow(g, x), p);
    var t := (gr.ExponentiateBase(x) * (Pow(gr.ExponentiateBase(a), d) % p)) % p;
    CongMul(gr.ExponentiateBase(x), Pow(g, x), Pow(gr.ExponentiateBase(a), d) % p, Pow(g, a * d), p);
    ModCong(gr.ExponentiateBase(x) * (Pow(gr.ExponentiateBase(a), d) % p), p);
    PowAdd(g, x, a * d);
    assert Cong(t, Pow(g, u), p);
    // and its s-th power
    PowCong(t, Pow(g, u), s, p);
    Multiply(u, s);
    PowTimes(g, u, s);
    Multiply(u, v);
    ModCong(v, q);
    CongMul(u, u, s, v, q);
    PowExponentCong(g, u * s, u * v, q, p);
  }

  lemma Multiply(a: nat, b: nat)
    ensures 0 <= a * b
  {
  }

  lemma PowerOfPower(gr: Group, a: nat, d: nat)
    requires gr.HasOrder() && 0 <= a * d
    ensures Cong(Pow(gr.ExponentiateBase(a), d) % gr.p, Pow(gr.g, a * d), gr.p)
  {
    ModCong(Pow(gr.g, a), gr.p);
    PowCong(gr.ExponentiateBase(a), Pow(gr.g, a), d, gr.p);
    PowTimes(gr.g, a, d);
    ModCong(Pow(gr.ExponentiateBase(a), d), gr.p);
  }

  // ---------------------------------------------------------------- one party's computation

  /** The shared group element a party computes from its private exponents and the public keys. */
  ghost function Sigma(params: Params, role: Role, own: nat, ownEphemeral: nat,
                       X: seq<byte>, Y: seq<byte>, A: seq<byte>, B: seq<byte>): nat
    requires params.Valid()
  {
    var gr := params.group;
    var d, e := params.D(X, Y, A, B), params.E(X, Y, A, B);
    match role
    case Server => Combine(gr.p, Value(X), Value(A), d, (ownEphemeral + e * own) % gr.q)
    case Client => Combine(gr.p, Value(Y), Value(B), e, (ownEphemeral + d * own) % gr.q)
  }

  /** What a party derives from the octet strings it holds. */
  ghost function Derived(params: Params, role: Role, staticPrivate: seq<byte>, ephemeralPrivate: seq<byte>,
                         staticOther: seq<byte>, ephemeralOther: seq<byte>): seq<byte>
    requires params.Valid() && |ephemeralPrivate| >= params.StaticPrivateKeyLength()
  {
    var n := params.StaticPrivateKeyLength();
    var own, ownEphemeral := Value(staticPrivate), Value(ephemeralPrivate[..n]);
    var ownPublic, ownEphemeralPublic := params.PublicKey(own), ephemeralPrivate[n..];
    match role
    case Server =>
      var X, Y, A, B := ephemeralOther, ownEphemeralPublic, staticOther, ownPublic;
      params.Agreed(Sigma(params, role, own, ownEphemeral, X, Y, A, B), X, Y, A, B)
    case Client =>
      var X, Y, A, B := ownEphemeralPublic, ephemeralOther, ownPublic, staticOther;
      params.Agreed(Sigma(params, role, own, ownEphemeral, X, Y, A, B), X, Y, A, B)
  }

  /** The checks a party makes on the other's public keys. */
  predicate Validates(params: Params, staticOther: seq<byte>, ephemeralOther: seq<byte>, validateStatic: bool) {
    && params.accepts(Value(staticOther), if validateStatic then 3 else 1)
    && params.accepts(Value(ephemeralOther), 3)
  }

  class MqvDomain {
    const params: Params
    const role: Role

    constructor (params: Params, clientRole: bool)
      ensures this.params == params && role == if clientRole then Client else Server
    {
      this.params := params;
      role := if clientRole then Client else Server;
    }

    /** `x` is the random exponent drawn from [1, GetMaxExponent()]. */
    method GenerateStaticPrivateKey(x: nat, privateKey: array<byte>)
      requires params.Valid() && privateKey.Length == params.StaticPrivateKeyLength()
      modifies privateKey
      ensures privateKey[..] == params.PrivateKey(x)
    {
      Put(privateKey, 0, Encode(x, params.StaticPrivateKeyLength()));
      assert privateKey[..] == privateKey[0..privateKey.Length];
    }

    method GenerateStaticPublicKey(privateKey: seq<byte>, publicKey: array<byte>)
      requires params.Valid() && publicKey.Length == params.StaticPublicKeyLength()
      modifies publicKey
      ensures publicKey[..] == params.PublicKey(Value(privateKey))
    {
      var x := Value(privateKey);
      var y := params.group.ExponentiateBase(x);
      Put(publicKey, 0, params.EncodeElement(y));
      assert publicKey[..] == publicKey[0..publicKey.Length];
    }

    method GenerateEphemeralPrivateKey(x: nat, privateKey: array<byte>)
      requires params.Valid()
      requires privateKey.Length == params.StaticPrivateKeyLength() + params.StaticPublicKeyLength()
      modifies privateKey
      ensures privateKey[..] == params.EphemeralPrivateKey(x)
    {
      var n := params.StaticPrivateKeyLength();
      Put(privateKey, 0, Encode(x, n));
      var y := params.group.ExponentiateBase(x);
      Put(privateKey, n, params.EncodeElement(y));
      assert privateKey[..] == privateKey[0..n] + privateKey[n..privateKey.Length];
    }

    method GenerateEphemeralPublicKey(privateKey: seq<byte>, publicKey: array<byte>)
      requires params.Valid() && publicKey.Length == params.StaticPublicKeyLength()
      requires |privateKey| == params.StaticPrivateKeyLength() + params.StaticPublicKeyLength()
      modifies publicKey
      ensures publicKey[..] == privateKey[params.StaticPrivateKeyLength()..]
    {
      Put(publicKey, 0, privateKey[params.StaticPrivateKeyLength()..]);
      assert publicKey[..] == publicKey[0..publicKey.Length];
    }

    method Agree(agreedValue: array<byte>, staticPrivate: seq<byte>, ephemeralPrivate: seq<byte>,
                 staticOther: seq<byte>, ephemeralOther: seq<byte>, validateStatic: bool) returns (ok: bool)
      requires params.Valid() && agreedValue.Length == params.StaticPublicKeyLength()
      requires |ephemeralPrivate| == params.StaticPrivateKeyLength() + params.StaticPublicKeyLength()
      modifies agreedValue
      ensures ok <==> Validates(params, staticOther, ephemeralOther, validateStatic)
      ensures agreedValue[..] ==
              if ok then Derived(params, role, staticPrivate, ephemeralPrivate, staticOther, ephemeralOther)
              else old(agreedValue[..])
    {
      var n := params.StaticPrivateKeyLength();
      var own := Value(staticPrivate);
      var tt := params.EncodeElement(params.group.ExponentiateBase(own));
      var XX, YY, AA, BB;
      if role == Server {
        XX, YY, AA, BB := ephemeralOther, ephemeralPrivate[n..], staticOther, tt;
      } else {
        XX, YY, AA, BB := ephemeralPrivate[n..], ephemeralOther, tt, staticOther;
      }
      var VV1 := Value(staticOther);
      if !params.accepts(VV1, if validateStatic then 3 else 1) {
        return false;
      }
      var VV2 := Value(ephemeralOther);
      if !params.accepts(VV2, 3) {
        return false;
      }
      var sigma := SharedElement(own, Value(ephemeralPrivate[..n]), XX, YY, AA, BB);
      Hash(params.InputKey(sigma, XX, YY, AA, BB), agreedValue);
      ok := true;
    }

    /** The part of Agree that computes the shared group element. */
    method SharedElement(own: nat, ownEphemeral: nat, XX: seq<byte>, YY: seq<byte>, AA: seq<byte>, BB: seq<byte>)
      returns (sigma: nat)
      requires params.Valid()
      ensures sigma == Sigma(params, role, own, ownEphemeral, XX, YY, AA, BB)
    {
      var d := HashValue(params.InputD(XX, YY, AA, BB), params.HalfLength());
      var e := HashValue(params.InputE(XX, YY, AA, BB), params.HalfLength());
      if role == Server {
        sigma := Combined(XX, AA, d, ownEphemeral, e, own);
      } else {
        sigma := Combined(YY, BB, e, ownEphemeral, d, own);
      }
    }

    /** The other party's two elements raised to one's own two exponents. */
    method Combined(ephemeral: seq<byte>, longTerm: seq<byte>, weight: nat, ownEphemeral: nat, ownWeight: nat, own: nat)
      returns (sigma: nat)
      requires params.Valid()
      ensures sigma == Combine(params.group.p, Value(ephemeral), Value(longTerm), weight,
                               (ownEphemeral + ownWeight * own) % params.group.q)
    {
      var p, q := params.group.p, params.group.q;
      Multiply(ownWeight, own);
      var s := (ownEphemeral + ownWeight * own) % q;
      var t1 := Pow(Value(longTerm), weight) % p;
      var t2 := (Value(ephemeral) * t1) % p;
      sigma := Pow(t2, s) % p;
    }

    /** The number that the first `n` octets of the stretched hash stand for. */
    method HashValue(message: seq<byte>, n: nat) returns (v: nat)
      requires params.hash.Valid()
      ensures v == Value(params.hash.Stretch(message, n))
    {
      var digest := new byte[n];
      Hash(message, digest);
      v := Value(digest[..]);
    }

    /** Fills `digest` from the hash of `message`, block after block. */
    method Hash(message: seq<byte>, digest: array<byte>)
      requires params.hash.Valid()
      modifies digest
      ensures digest[..] == params.hash.Stretch(message, digest.Length)
    {
      var idx, req := 0, digest.Length;
      var h, blk;
      ghost var filled;
      h, blk, filled := HashFirst(message, digest);
      req := req - blk;
      while req != 0
        invariant 0 <= idx && 0 <= req && 0 <= blk && idx + blk == |filled| && (req != 0 ==> blk == params.hash.size)
        invariant Progress(digest, message, filled, h, req)
        decreases req
      {
        idx := idx + params.hash.size;
        h, blk, filled := HashNext(message, digest, idx, req, filled, h);
        req := req - blk;
      }
      assert digest[..] == digest[..digest.Length];
    }

    /** `filled` is written, `req` octets are missing, and `h` is the latest digest. */
    ghost predicate Progress(a: array<byte>, message: seq<byte>, filled: seq<byte>, h: seq<byte>, req: nat)
      reads a
      requires params.hash.Valid()
    {
      && |filled| + req == a.Length && Holds(a, |filled|, filled)
      && (req != 0 ==> EndsWith(filled, h)) && Filled(message, filled, h, req)
    }

    method HashFirst(message: seq<byte>, digest: array<byte>) returns (h: seq<byte>, blk: nat, ghost filled: seq<byte>)
      requires params.hash.Valid()
      modifies digest
      ensures blk == (if digest.Length < params.hash.size then digest.Length else params.hash.size) == |filled|
      ensures Progress(digest, message, filled, h, digest.Length - blk)
    {
      blk := if digest.Length < params.hash.size then digest.Length else params.hash.size;
      h := params.hash.digest(message);
      var first := h[..blk];
      filled := first;
      FilledFirst(message, digest.Length);
      WholeBlock(h, blk);
      Put(digest, 0, first);
      assert Holds(digest, blk, filled) by {
        assert digest[..blk] == digest[0..blk];
      }
    }

    lemma WholeBlock(h: seq<byte>, blk: nat)
      requires |h| == params.hash.size && blk <= |h|
      ensures blk == |h| ==> EndsWith(h[..blk], h)
    {
      assert blk == |h| ==> h[..blk] == h;
    }

    method HashNext(message: seq<byte>, digest: array<byte>, idx: nat, req: nat,
                    ghost before: seq<byte>, last: seq<byte>)
      returns (h: seq<byte>, blk: nat, ghost filled: seq<byte>)
      requires params.hash.Valid() && req > 0 && idx == |before| && Progress(digest, message, before, last, req)
      modifies digest
      ensures blk == (if req < params.hash.size then req else params.hash.size) && |filled| == idx + blk
      ensures Progress(digest, message, filled, h, req - blk)
    {
      FilledStep(message, before, last, req);
      blk := if req < params.hash.size then req else params.hash.size;
      h := HashBlock(digest, idx, blk, before, last);
      filled := before + h[..blk];
    }

    ghost predicate Holds(a: array<byte>, n: nat, s: seq<byte>)
      reads a
    {
      n <= a.Length && a[..n] == s
    }

    ghost predicate EndsWith(s: seq<byte>, block: seq<byte>) {
      |block| <= |s| && s[|s| - |block|..] == block && |block| == params.hash.size
    }

    /** Hashes the block before position `idx` and writes `blk` octets of the result there. */
    method HashBlock(digest: array<byte>, idx: nat, blk: nat, ghost filled: seq<byte>, ghost last: seq<byte>)
      returns (h: seq<byte>)
      requires params.hash.Valid() && blk <= params.hash.size <= idx && idx + blk <= digest.Length
      requires Holds(digest, idx, filled) && EndsWith(filled, last)
      modifies digest
      ensures h == params.hash.digest(last)
      ensures Holds(digest, idx + blk, filled + h[..blk])
      ensures blk == params.hash.size ==> EndsWith(filled + h[..blk], h)
    {
      assert digest[idx - params.hash.size..idx] == digest[..idx][idx - params.hash.size..];
      h := params.hash.digest(digest[idx - params.hash.size..idx]);
      Put(digest, idx, h[..blk]);
      assert blk == params.hash.size ==> h[..blk] == h;
    }

    /** `filled` is the stretched hash up to the last `req` octets; `h` is the latest digest. */
    ghost predicate Filled(message: seq<byte>, filled: seq<byte>, h: seq<byte>, req: nat)
      requires params.hash.Valid()
    {
      params.hash.Stretch(message, |filled| + req) ==
      if req == 0 then filled else filled + params.hash.Stretch(h, req)
    }

    lemma FilledFirst(message: seq<byte>, n: nat)
      requires params.hash.Valid()
      ensures var blk := if n < params.hash.size then n else params.hash.size;
              var h := params.hash.digest(message);
              Filled(message, h[..blk], h, n - blk)
    {
      if n >= params.hash.size {
        assert params.hash.digest(message)[..params.hash.size] == params.hash.digest(message);
      }
    }

    lemma FilledStep(message: seq<byte>, filled: seq<byte>, h: seq<byte>, req: nat)
      requires params.hash.Valid() && req > 0 && Filled(message, filled, h, req)
      ensures var blk := if req < params.hash.size then req else params.hash.size;
              var next := params.hash.digest(h);
              Filled(message, filled + next[..blk], next, req - blk)
    {
      var next := params.hash.digest(h);
      if req > params.hash.size {
        var tail := params.hash.Stretch(next, req - params.hash.size);
        assert next[..params.hash.size] == next;
        assert filled + next + tail == filled + (next + tail);
      }
    }
  }

  // ---------------------------------------------------------------- two honest parties

  lemma PublicKeyValue(params: Params, x: nat)
    requires params.Valid()
    ensures Publishes(params, params.PublicKey(x), x)
  {
    var e := params.group.ExponentiateBase(x);
    FitsWhenBelow(e, params.group.p);
    ValueOfEncode(e, params.StaticPublicKeyLength());
  }

  lemma PrivateKeyValue(params: Params, x: nat)
    requires params.Valid() && x < params.group.q
    ensures Value(params.PrivateKey(x)) == x
    ensures params.EphemeralPrivateKey(x)[..params.StaticPrivateKeyLength()] == params.PrivateKey(x)
    ensures params.EphemeralPrivateKey(x)[params.StaticPrivateKeyLength()..] == params.PublicKey(x)
  {
    FitsWhenBelow(x, params.group.q);
    ValueOfEncode(x, params.StaticPrivateKeyLength());
  }

  /** The octets that belong to g^((x + d*a) * (y + e*b)), which only the public keys and one party's
      private exponents lead to. */
  ghost function Common(params: Params, a: nat, x: nat, b: nat, y: nat): seq<byte>
    requires params.Valid()
  {
    var X, Y, A, B := params.PublicKey(x), params.PublicKey(y), params.PublicKey(a), params.PublicKey(b);
    var k := Exponent(x, params.D(X, Y, A, B), a, y, params.E(X, Y, A, B), b);
    params.Agreed(params.group.ExponentiateBase(k), X, Y, A, B)
  }

  /** The public elements with their exponents behind them. */
  ghost predicate Publishes(params: Params, X: seq<byte>, x: nat)
    requires params.Valid()
  {
    Value(X) == params.group.ExponentiateBase(x)
  }

  lemma ServerSigma(params: Params, X: seq<byte>, Y: seq<byte>, A: seq<byte>, B: seq<byte>,
                    a: nat, x: nat, b: nat, y: nat)
    requires params.Valid() && Publishes(params, X, x) && Publishes(params, A, a)
    ensures Sigma(params, Server, b, y, X, Y, A, B) ==
            params.group.ExponentiateBase(Exponent(x, params.D(X, Y, A, B), a, y, params.E(X, Y, A, B), b))
  {
    CombineIsPower(params.group, x, a, params.D(X, Y, A, B), y, b, params.E(X, Y, A, B));
  }

  lemma ClientSigma(params: Params, X: seq<byte>, Y: seq<byte>, A: seq<byte>, B: seq<byte>,
                    a: nat, x: nat, b: nat, y: nat)
    requires params.Valid() && Publishes(params, Y, y) && Publishes(params, B, b)
    ensures Sigma(params, Client, a, x, X, Y, A, B) ==
            params.group.ExponentiateBase(Exponent(x, params.D(X, Y, A, B), a, y, params.E(X, Y, A, B), b))
  {
    var d, e := params.D(X, Y, A, B), params.E(X, Y, A, B);
    CombineIsPower(params.group, y, b, e, x, a, d);
    ExponentSwap(x, d, a, y, e, b);
  }

  /** Client with private exponents (a, x) and server with (b, y), each given the public keys of the
      other, derive the same octets. */
  lemma PartiesAgree(params: Params, a: nat, x: nat, b: nat, y: nat)
    requires params.Valid()
    requires a < params.group.q && x < params.group.q && b < params.group.q && y < params.group.q
    ensures Derived(params, Client, params.PrivateKey(a), params.EphemeralPrivateKey(x),
                    params.PublicKey(b), params.PublicKey(y)) ==
            Derived(params, Server, params.PrivateKey(b), params.EphemeralPrivateKey(y),
                    params.PublicKey(a), params.PublicKey(x)) ==
            Common(params, a, x, b, y)
    ensures IsAgreed(params, a, x, b, y, Common(params, a, x, b, y))
  {
    CommonIsAgreed(params, a, x, b, y);
    PrivateKeyValue(params, a);
    PrivateKeyValue(params, b);
    PrivateKeyValue(params, x);
    PrivateKeyValue(params, y);
    PublicKeyValue(params, a);
    PublicKeyValue(params, b);
    PublicKeyValue(params, x);
    PublicKeyValue(params, y);
    var X, Y, A, B := params.PublicKey(x), params.PublicKey(y), params.PublicKey(a), params.PublicKey(b);
    ServerSigma(params, X, Y, A, B, a, x, b, y);
    ClientSigma(params, X, Y, A, B, a, x, b, y);
  }

  /** What is hashed for d and for e. */
  lemma HashInputs(params: Params, X: seq<byte>, Y: seq<byte>, A: seq<byte>, B: seq<byte>)
    ensures params.InputD(X, Y, A, B) == if params.variant == Hmqv then X + B else X + Y + A + B
    ensures params.InputE(X, Y, A, B) == if params.variant == Hmqv then Y + A else Y + X + A + B
  {
  }

  /** The octets that two parties should agree on, written out: with d and e the stretched hashes of the public keys
      as numbers, those that belong to g^((x + d*a) * (y + e*b)). HMQV's d hashes X and B, its e hashes Y and A. */
  ghost predicate IsAgreed(params: Params, a: nat, x: nat, b: nat, y: nat, s: seq<byte>)
    requires params.Valid()
  {
    var p, g, hash, n := params.group.p, params.group.g, params.hash, ByteCount(params.group.p);
    var X, Y := Encode(Pow(g, x) % p, n), Encode(Pow(g, y) % p, n);
    var A, B := Encode(Pow(g, a) % p, n), Encode(Pow(g, b) % p, n);
    var len := ((BitCount(params.group.q) + 1) / 2 + 7) / 8;
    var d := Value(hash.Stretch(if params.variant == Hmqv then X + B else X + Y + A + B, len));
    var e := Value(hash.Stretch(if params.variant == Hmqv then Y + A else Y + X + A + B, len));
    BelongsTo(params, Pow(g, Exponent(x, d, a, y, e, b)) % p, X, Y, A, B, s)
  }

  /** As many octets as p has of the stretched hash of the shortest octets for the element, behind which FHMQV puts
      the four public keys. */
  ghost predicate BelongsTo(params: Params, sigma: nat, X: seq<byte>, Y: seq<byte>, A: seq<byte>, B: seq<byte>,
                            s: seq<byte>)
    requires params.Valid()
  {
    forall m :: IsShortest(m, sigma) ==>
      s == params.hash.Stretch(if params.variant == Hmqv then m else m + X + Y + A + B, ByteCount(params.group.p))
  }

  lemma AgreedBelongs(params: Params, sigma: nat, X: seq<byte>, Y: seq<byte>, A: seq<byte>, B: seq<byte>)
    requires params.Valid()
    ensures BelongsTo(params, sigma, X, Y, A, B, params.Agreed(sigma, X, Y, A, B))
  {
    EncodeMinIsShortest(sigma);
    forall m | IsShortest(m, sigma)
      ensures m == EncodeMin(sigma)
    {
      ShortestUnique(m, EncodeMin(sigma), sigma);
    }
  }

  lemma CommonIsAgreed(params: Params, a: nat, x: nat, b: nat, y: nat)
    requires params.Valid()
    ensures IsAgreed(params, a, x, b, y, Common(params, a, x, b, y))
  {
    var X, Y, A, B := params.PublicKey(x), params.PublicKey(y), params.PublicKey(a), params.PublicKey(b);
    var k := Exponent(x, params.D(X, Y, A, B), a, y, params.E(X, Y, A, B), b);
    HashInputs(params, X, Y, A, B);
    AgreedBelongs(params, params.group.ExponentiateBase(k), X, Y, A, B);
  }

  /** Equal inputs of the last hash come from equal elements. */
  lemma SameInputSameElement(params: Params, sigma: nat, tau: nat,
                             X: seq<byte>, Y: seq<byte>, A: seq<byte>, B: seq<byte>)
    ensures params.InputKey(sigma, X, Y, A, B) == params.InputKey(tau, X, Y, A, B) <==> sigma == tau
  {
    EncodeMinIsShortest(sigma);
    EncodeMinIsShortest(tau);
    if params.InputKey(sigma, X, Y, A, B) == params.InputKey(tau, X, Y, A, B) {
      if params.variant == Fhmqv {
        var m, n := EncodeMin(sigma), EncodeMin(tau);
        SameFront(m, n, X);
        SameFront(m + X, n + X, Y);
        SameFront(m + X + Y, n + X + Y, A);
        SameFront(m + X + Y + A, n + X + Y + A, B);
      }
    }
  }

  lemma SameFront<T>(m: seq<T>, n: seq<T>, tail: seq<T>)
    ensures m + tail == n + tail ==> m == n
  {
    if m + tail == n + tail {
      assert |m + tail| == |n + tail|;
      assert m == (m + tail)[..|m|] && n == (n + tail)[..|n|];
    }
  }

  /** One party: its role's domain, its private exponents and the public keys it publishes. */
  method MakeParty(params: Params, clientRole: bool, own: nat, ownEphemeral: nat)
    returns (party: MqvDomain, ephemeralPrivate: seq<byte>, staticPublic: seq<byte>, ephemeralPublic: seq<byte>)
    requires params.Valid() && own < params.group.q && ownEphemeral < params.group.q
    ensures party.params == params && party.role == (if clientRole then Client else Server)
    ensures ephemeralPrivate == params.EphemeralPrivateKey(ownEphemeral)
    ensures staticPublic == params.PublicKey(own) && ephemeralPublic == params.PublicKey(ownEphemeral)
  {
    party := new MqvDomain(params, clientRole);
    PrivateKeyValue(params, own);
    PrivateKeyValue(params, ownEphemeral);
    var privateKey := new byte[params.StaticPrivateKeyLength()];
    party.GenerateStaticPrivateKey(own, privateKey);
    var publicKey := new byte[params.StaticPublicKeyLength()];
    party.GenerateStaticPublicKey(privateKey[..], publicKey);
    staticPublic := publicKey[..];
    var ephemeral := new byte[params.StaticPrivateKeyLength() + params.StaticPublicKeyLength()];
    party.GenerateEphemeralPrivateKey(ownEphemeral, ephemeral);
    ephemeralPrivate := ephemeral[..];
    party.GenerateEphemeralPublicKey(ephemeralPrivate, publicKey);
    ephemeralPublic := publicKey[..];
  }

  /** Two parties make their keys, exchange the public ones and agree: each side succeeds exactly if the
      other's elements are valid, and when both do, they hold the same octets. */
  method GenerateThenAgree(params: Params, a: nat, x: nat, b: nat, y: nat, validateStatic: bool)
    returns (okClient: bool, okServer: bool, atClient: array<byte>, atServer: array<byte>)
    requires params.Valid()
    requires a < params.group.q && x < params.group.q && b < params.group.q && y < params.group.q
    ensures var g, p, level := params.group.g, params.group.p, if validateStatic then 3 else 1;
            && (okClient <==> params.accepts(Pow(g, b) % p, level) && params.accepts(Pow(g, y) % p, 3))
            && (okServer <==> params.accepts(Pow(g, a) % p, level) && params.accepts(Pow(g, x) % p, 3))
    ensures okClient && okServer ==> atClient[..] == atServer[..] && IsAgreed(params, a, x, b, y, atServer[..])
  {
    var client, ephemeralX, A, X := MakeParty(params, true, a, x);
    var server, ephemeralY, B, Y := MakeParty(params, false, b, y);
    atClient := new byte[params.StaticPublicKeyLength()];
    atServer := new byte[params.StaticPublicKeyLength()];
    okClient := client.Agree(atClient, params.PrivateKey(a), ephemeralX, B, Y, validateStatic);
    okServer := server.Agree(atServer, params.PrivateKey(b), ephemeralY, A, X, validateStatic);
    PartiesAgree(params, a, x, b, y);
    ValidKeys(params, a, x, validateStatic);
    ValidKeys(params, b, y, validateStatic);
  }

  /** Of the other party's keys the elements themselves are checked. */
  lemma ValidKeys(params: Params, own: nat, ownEphemeral: nat, validateStatic: bool)
    requires params.Valid()
    ensures Validates(params, params.PublicKey(own), params.PublicKey(ownEphemeral), validateStatic) <==>
            && params.accepts(Pow(params.group.g, own) % params.group.p, if validateStatic then 3 else 1)
            && params.accepts(Pow(params.group.g, ownEphemeral) % params.group.p, 3)
  {
    PublicKeyValue(params, own);
    PublicKeyValue(params, ownEphemeral);
  }
}
