/** Big-endian octet strings, as Encode and Decode of the library's Integer class write and read them. */
module Octets {
  import opened Modular

  type byte = x: int | 0 <= x < 256

  function Pow256(n: nat): (r: nat)
    ensures r > 0
  {
    if n == 0 then 1 else 256 * Pow256(n - 1)
  }

  /** The number an octet string stands for. */
  function Value(s: seq<byte>): nat {
    if s == [] then 0 else Value(s[..|s| - 1]) * 256 + s[|s| - 1]
  }

  /** The `n` low-order octets of `v`. */
  function Encode(v: nat, n: nat): (s: seq<byte>)
    ensures |s| == n
  {
    if n == 0 then [] else Encode(v / 256, n - 1) + [v % 256]
  }

  function ByteCount(v: nat): nat {
    if v == 0 then 0 else 1 + ByteCount(v / 256)
  }

  /** The shortest unsigned encoding; zero takes one octet. */
  function EncodeMin(v: nat): seq<byte> {
    Encode(v, if v == 0 then 1 else ByteCount(v))
  }

  /** Copies `block` into `a` from position `at` on. */
  method Put(a: array<byte>, at: nat, block: seq<byte>)
    requires at + |block| <= a.Length
    modifies a
    ensures a[..at + |block|] == old(a[..at]) + block
    ensures a[at..at + |block|] == block && a[at + |block|..] == old(a[at + |block|..])
  {
    forall i | 0 <= i < |block| {
      a[at + i] := block[i];
    }
  }

  lemma {:induction false} ValueBound(s: seq<byte>)
    ensures Value(s) < Pow256(|s|)
  {
    if s != [] {
      ValueBound(s[..|s| - 1]);
    }
  }

  lemma {:induction false} ValueOfEncode(v: nat, n: nat)
    requires v < Pow256(n)
    ensures Value(Encode(v, n)) == v
  {
    if n > 0 {
      ValueOfEncode(v / 256, n - 1);
      assert Encode(v, n)[..n - 1] == Encode(v / 256, n - 1);
    }
  }

  lemma {:induction false} EncodeOfValue(s: seq<byte>)
    ensures Encode(Value(s), |s|) == s
  {
    if s != [] {
      EncodeOfValue(s[..|s| - 1]);
      assert Value(s) / 256 == Value(s[..|s| - 1]) && Value(s) % 256 == s[|s| - 1];
    }
  }

  lemma {:induction false} ValueOfConcat(a: seq<byte>, b: seq<byte>)
    ensures Value(a + b) == Value(a) * Pow256(|b|) + Value(b)
    decreases b
  {
    if b == [] {
      assert a + b == a;
    } else {
      var c, last := b[..|b| - 1], b[|b| - 1];
      ValueOfConcat(a, c);
      assert (a + b)[..|a + b| - 1] == a + c;
      assert Value(a) * Pow256(|c|) * 256 == Value(a) * Pow256(|b|);
    }
  }

  lemma ShiftLow(v: nat, k: nat, p: nat)
    ensures (v + k * (256 * p)) / 256 == v / 256 + k * p && (v + k * (256 * p)) % 256 == v % 256
  {
    assert k * (256 * p) == (k * p) * 256;
    QuotientUnique(v + k * (256 * p), 256, v / 256 + k * p, v % 256);
  }

  /** Only the low-order octets of a number matter to a short encoding. */
  lemma {:induction false} EncodeLow(v: nat, k: nat, n: nat)
    ensures Encode(v + k * Pow256(n), n) == Encode(v, n)
    decreases n
  {
    if n > 0 {
      ShiftLow(v, k, Pow256(n - 1));
      EncodeLow(v / 256, k, n - 1);
    }
  }

  lemma {:induction false} ByteCountFits(v: nat)
    ensures v < Pow256(ByteCount(v))
    ensures v > 0 ==> Pow256(ByteCount(v) - 1) <= v
  {
    if v > 0 {
      ByteCountFits(v / 256);
    }
  }

  lemma {:induction false} Pow256Mono(m: nat, n: nat)
    requires m <= n
    ensures Pow256(m) <= Pow256(n)
  {
    if m < n {
      Pow256Mono(m, n - 1);
    }
  }

  lemma {:induction false} FitsWhenBelow(v: nat, bound: nat)
    requires v <= bound
    ensures v < Pow256(ByteCount(bound)) && ByteCount(v) <= ByteCount(bound)
    decreases bound
  {
    if bound > 0 {
      FitsWhenBelow(v / 256, bound / 256);
    }
  }

  // ---------------------------------------------------------------- the first octet

  lemma {:induction false} ValueHead(s: seq<byte>)
    requires s != []
    ensures Value(s) == s[0] * Pow256(|s| - 1) + Value(s[1..])
  {
    ValueOfConcat([s[0]], s[1..]);
    assert [s[0]] + s[1..] == s;
    assert [s[0]][..0] == [];
    assert Value([s[0]]) == s[0];
  }

  lemma ValueZeroHead(s: seq<byte>)
    requires s != [] && s[0] == 0
    ensures Value(s) == Value(s[1..])
  {
    ValueHead(s);
  }

  lemma ValueBigHead(s: seq<byte>, n: nat)
    requires |s| > n && s[0] != 0
    ensures Value(s) >= Pow256(n)
  {
    ValueHead(s);
    Pow256Mono(n, |s| - 1);
    AtLeast(s[0], Pow256(|s| - 1));
  }

  lemma AtLeast(b: nat, p: nat)
    requires b > 0
    ensures b * p >= p
  {
  }

  /** The shortest octets for a number, at least one. */
  predicate IsShortest(m: seq<byte>, v: nat) {
    m != [] && Value(m) == v && (|m| > 1 ==> m[0] != 0)
  }

  lemma EncodeMinIsShortest(v: nat)
    ensures IsShortest(EncodeMin(v), v)
  {
    if v == 0 {
      assert EncodeMin(0) == [0];
    } else {
      ByteCountFits(v);
      ValueOfEncode(v, ByteCount(v));
      TopOctet(EncodeMin(v));
    }
  }

  lemma TopOctet(s: seq<byte>)
    requires s != [] && Value(s) >= Pow256(|s| - 1)
    ensures s[0] != 0
  {
    if s[0] == 0 {
      ValueZeroHead(s);
      ValueBound(s[1..]);
    }
  }

  lemma ShortestUnique(m: seq<byte>, n: seq<byte>, v: nat)
    requires IsShortest(m, v) && IsShortest(n, v)
    ensures m == n
  {
    ShortestNotLonger(m, n);
    ShortestNotLonger(n, m);
    EncodeOfValue(m);
    EncodeOfValue(n);
  }

  lemma ShortestNotLonger(m: seq<byte>, n: seq<byte>)
    requires IsShortest(m, Value(n)) && n != []
    ensures |m| <= |n|
  {
    if |m| > |n| {
      ValueBigHead(m, |n|);
      ValueBound(n);
    }
  }
}
