/** The two ElGamal-like signature algorithms over the integers modulo a prime. */
module GfpSignatures {
  import opened Modular

  /** Modulus, order of the subgroup and its generator. */
  datatype Group = Group(p: int, q: int, g: int) {
    /** The q-th power of the generator is 1. */
    ghost predicate HasOrder() {
      p > 1 && q > 0 && Cong(Pow(g, q), 1, p)
    }

    ghost predicate Valid() {
      HasOrder() && IsPrime(q)
    }

    function ExponentiateBase(e: nat): int
      requires p > 1
    {
      Pow(g, e) % p
    }

    /** g^u * y^v */
    function CascadeExponentiate(u: nat, y: int, v: nat): int
      requires p > 1
    {
      (Pow(g, u) * Pow(y, v)) % p
    }
  }

  /** A public element stands for its exponent, and exponents count modulo the order. */
  lemma CascadeIsPower(gr: Group, x: nat, u: nat, v: nat, k: nat)
    requires gr.HasOrder() && Cong(u + x * v, k, gr.q)
    ensures gr.CascadeExponentiate(u, gr.ExponentiateBase(x), v) == gr.ExponentiateBase(k)
  {
    var p, g := gr.p, gr.g;
    assert 0 <= x * v;
    ModCong(Pow(g, x), p);
    PowCong(Pow(g, x) % p, Pow(g, x), v, p);
    PowTimes(g, x, v);
    CongMul(Pow(g, u), Pow(g, u), Pow(Pow(g, x) % p, v), Pow(g, x * v), p);
    PowAdd(g, u, x * v);
    PowExponentCong(g, u + x * v, k, gr.q, p);
  }

  // ---------------------------------------------------------------- GDSA

  /** `r` comes in as the nonce's power converted to an integer, and is reduced in place. */
  method GdsaSign(gr: Group, x: nat, k: nat, e: nat, r0: int) returns (r: int, s: int)
    requires gr.Valid() && k % gr.q != 0
    ensures 0 <= r < gr.q && 0 <= s < gr.q && r == r0 % gr.q
    ensures Cong(k * s, x * r + e, gr.q)
  {
    var q := gr.q;
    r := r0;
    r := r % q;
    var kInv := InverseMod(k, q);
    s := (kInv * (x * r + e)) % q;
    InverseModPrime(k, q);
    UndoInverse(k, kInv, x * r + e, q);
  }

  lemma UndoInverse(k: int, kInv: int, m: int, q: int)
    requires q > 1 && (k * kInv) % q == 1
    ensures Cong(k * ((kInv * m) % q), m, q)
  {
    ModCong(kInv * m, q);
    CongMul(k, k, (kInv * m) % q, kInv * m, q);
    assert k * (kInv * m) == (k * kInv) * m;
    QuotientUnique(1, q, 0, 1);
    CongMul(k * kInv, 1, m, m, q);
  }

  predicate GdsaAccepts(gr: Group, y: int, e: nat, r: int, s: int)
    requires gr.p > 1 && gr.q > 1
  {
    && 1 <= r < gr.q && 1 <= s < gr.q
    && var w := InverseMod(s, gr.q);
       r == gr.CascadeExponentiate((e * w) % gr.q, y, (r * w) % gr.q) % gr.q
  }

  method GdsaVerify(gr: Group, y: int, e: nat, r: int, s: int) returns (ok: bool)
    requires gr.Valid()
    ensures ok <==> GdsaAccepts(gr, y, e, r, s)
  {
    var q := gr.q;
    if r >= q || r < 1 || s >= q || s < 1 {
      return false;
    }
    var w := InverseMod(s, q);
    var u1 := (e * w) % q;
    var u2 := (r * w) % q;
    ok := r == gr.CascadeExponentiate(u1, y, u2) % q;
  }

  /** The signature equation: `k` is the nonce behind (r, s). */
  ghost predicate GdsaNonce(gr: Group, x: nat, e: nat, r: int, s: int, k: nat)
    requires gr.p > 1 && gr.q > 1
  {
    k < gr.q && Cong(k * s, x * r + e, gr.q) && r == gr.ExponentiateBase(k) % gr.q
  }

  /** The signature equation has one solution for the nonce. */
  lemma NonceUnique(j: nat, s: int, m: int, q: int)
    requires IsPrime(q) && 1 <= s < q && j < q && Cong(j * s, m, q)
    ensures j == (InverseMod(s, q) * m) % q
  {
    var w := InverseMod(s, q);
    QuotientUnique(s, q, 0, s);
    InverseModPrime(s, q);
    CongMul(w, w, j * s, m, q);
    assert w * (j * s) == (s * w) * j;
    QuotientUnique(1, q, 0, 1);
    CongMul(s * w, 1, j, j, q);
    QuotientUnique(j, q, 0, j);
  }

  /** The verifier works the nonce out of the signature without knowing the key. */
  lemma GdsaRecoversNonce(gr: Group, x: nat, e: nat, r: int, s: int)
    requires gr.Valid() && 1 <= r < gr.q && 1 <= s < gr.q
    ensures var k := (InverseMod(s, gr.q) * (x * r + e)) % gr.q;
            && Cong(k * s, x * r + e, gr.q)
            && (GdsaAccepts(gr, gr.ExponentiateBase(x), e, r, s) <==> r == gr.ExponentiateBase(k) % gr.q)
  {
    var q := gr.q;
    QuotientUnique(s, q, 0, s);
    InverseModPrime(s, q);
    var w, m := InverseMod(s, q), x * r + e;
    var k := (w * m) % q;
    UndoInverse(s, w, m, q);
    assert s * k == k * s;
    ExponentsAddUp(x, e, r, w, q);
    CascadeIsPower(gr, x, (e * w) % q, (r * w) % q, k);
  }

  lemma ExponentsAddUp(x: nat, e: nat, r: nat, w: nat, q: int)
    requires q > 1
    ensures Cong((e * w) % q + x * ((r * w) % q), (w * (x * r + e)) % q, q)
  {
    ModCong(e * w, q);
    ModCong(r * w, q);
    ModCong(w * (x * r + e), q);
    CongMul(x, x, (r * w) % q, r * w, q);
    CongAdd((e * w) % q, e * w, x * ((r * w) % q), x * (r * w), q);
    assert e * w + x * (r * w) == w * (x * r + e);
  }

  /** The verifier accepts exactly the pairs that satisfy the signature equation for some nonce. */
  lemma GdsaAcceptsExactly(gr: Group, x: nat, e: nat, r: int, s: int)
    requires gr.Valid()
    ensures GdsaAccepts(gr, gr.ExponentiateBase(x), e, r, s) <==>
            1 <= r < gr.q && 1 <= s < gr.q && exists k: nat :: GdsaNonce(gr, x, e, r, s, k)
  {
    if 1 <= r < gr.q && 1 <= s < gr.q {
      GdsaRecoversNonce(gr, x, e, r, s);
      var k := (InverseMod(s, gr.q) * (x * r + e)) % gr.q;
      assert GdsaNonce(gr, x, e, r, s, k) <==> r == gr.ExponentiateBase(k) % gr.q;
      forall j: nat | GdsaNonce(gr, x, e, r, s, j)
        ensures j == k
      {
        NonceUnique(j, s, x * r + e, gr.q);
      }
    }
  }

  /** What the signer makes passes unless one of the two numbers came out as zero. */
  method GdsaSignThenVerify(gr: Group, x: nat, k: nat, e: nat) returns (r: int, s: int, ok: bool)
    requires gr.Valid() && 1 <= k < gr.q
    ensures ok <==> r != 0 && s != 0
  {
    QuotientUnique(k, gr.q, 0, k);
    r, s := GdsaSign(gr, x, k, e, gr.ExponentiateBase(k));
    ok := GdsaVerify(gr, gr.ExponentiateBase(x), e, r, s);
    assert GdsaNonce(gr, x, e, r, s, k);
    GdsaAcceptsExactly(gr, x, e, r, s);
  }

  // ---------------------------------------------------------------- NR

  method NrSign(gr: Group, x: nat, k: nat, e: nat, r0: int) returns (r: int, s: int)
    requires gr.Valid()
    ensures 0 <= r < gr.q && 0 <= s < gr.q && Cong(r, r0 + e, gr.q) && Cong(s + x * r, k, gr.q)
  {
    var q := gr.q;
    r := r0;
    r := (r + e) % q;
    s := (k - x * r) % q;
    ModCong(r0 + e, q);
    ModCong(k - x * r, q);
    CongAdd(s, k - x * r, x * r, x * r, q);
  }

  /** The source does not refuse a negative `s`. What its exponentiation then gives is not part of this model
      and comes in as `negative`, a function of the three arguments. */
  predicate NrAccepts(gr: Group, negative: (int, int, nat) -> int, y: int, e: nat, r: int, s: int)
    requires gr.p > 1 && gr.q > 1
  {
    && 1 <= r < gr.q && s < gr.q
    && r == ((if s >= 0 then gr.CascadeExponentiate(s, y, r) else negative(s, y, r)) + e) % gr.q
  }

  method NrVerify(gr: Group, negative: (int, int, nat) -> int, y: int, e: nat, r: int, s: int) returns (ok: bool)
    requires gr.Valid()
    ensures ok <==> NrAccepts(gr, negative, y, e, r, s)
  {
    var q := gr.q;
    if r >= q || r < 1 || s >= q {
      return false;
    }
    var power := if s >= 0 then gr.CascadeExponentiate(s, y, r) else negative(s, y, r);
    ok := r == (power + e) % q;
  }

  ghost predicate NrNonce(gr: Group, x: nat, e: nat, r: int, s: nat, k: nat)
    requires gr.p > 1 && gr.q > 1
  {
    k < gr.q && Cong(s + x * r, k, gr.q) && r == (gr.ExponentiateBase(k) + e) % gr.q
  }

  lemma NrAcceptsExactly(gr: Group, negative: (int, int, nat) -> int, x: nat, e: nat, r: int, s: nat)
    requires gr.Valid()
    ensures NrAccepts(gr, negative, gr.ExponentiateBase(x), e, r, s) <==>
            1 <= r < gr.q && s < gr.q && exists k: nat :: NrNonce(gr, x, e, r, s, k)
  {
    if 1 <= r < gr.q && s < gr.q {
      assert 0 <= x * r;
      var k := (s + x * r) % gr.q;
      ModCong(s + x * r, gr.q);
      CascadeIsPower(gr, x, s, r, k);
      assert NrNonce(gr, x, e, r, s, k) <==> r == (gr.ExponentiateBase(k) + e) % gr.q;
      forall j: nat | NrNonce(gr, x, e, r, s, j)
        ensures j == k
      {
        QuotientUnique(j, gr.q, 0, j);
      }
    }
  }

  method NrSignThenVerify(gr: Group, negative: (int, int, nat) -> int, x: nat, k: nat, e: nat)
    returns (r: int, s: int, ok: bool)
    requires gr.Valid() && 1 <= k < gr.q
    ensures ok <==> r != 0
  {
    r, s := NrSign(gr, x, k, e, gr.ExponentiateBase(k));
    ok := NrVerify(gr, negative, gr.ExponentiateBase(x), e, r, s);
    QuotientUnique(r, gr.q, 0, r);
    assert NrNonce(gr, x, e, r, s, k);
    NrAcceptsExactly(gr, negative, x, e, r, s);
  }
}
