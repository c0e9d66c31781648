/** DER encoding and BER decoding of unsigned integers of any word size. */
module Der {
  import opened Modular
  import opened Octets

  const BOOLEAN: byte := 1

  datatype Length = Indefinite | Definite(length: nat, used: nat)

  /** The encoding of lengths, whose code is not part of this model. */
  datatype LengthCodec = LengthCodec(encode: nat -> seq<byte>, decode: seq<byte> -> Length) {
    ghost predicate Inverts() {
      forall n, rest :: decode(encode(n) + rest) == Definite(n, |encode(n)|)
    }

    /** Decoding looks at the octets it is given and no more. */
    ghost predicate Reads() {
      forall s :: decode(s).Definite? ==> decode(s).used <= |s|
    }
  }

  // ---------------------------------------------------------------- contents octets

  /** Sections 8.3.2 and 8.3.3 of X.690 for a number that is not negative: the leading nine bits are not all
      zero, and the first bit is. */
  predicate IsContent(c: seq<byte>, w: nat) {
    c != [] && c[0] < 128 && Value(c) == w && (|c| > 1 ==> c[0] != 0 || c[1] >= 128)
  }

  /** Number and length determine the octets, and of two lengths that fit the shorter is not minimal. */
  lemma ContentUnique(c: seq<byte>, d: seq<byte>, w: nat)
    requires IsContent(c, w) && IsContent(d, w)
    ensures c == d
  {
    if |c| == |d| {
      EncodeOfValue(c);
      EncodeOfValue(d);
    } else if |c| < |d| {
      LongerIsBigger(c, d);
    } else {
      LongerIsBigger(d, c);
    }
  }

  lemma LongerIsBigger(c: seq<byte>, d: seq<byte>)
    requires c != [] && |c| < |d| && c[0] < 128 && (d[0] != 0 || d[1] >= 128)
    ensures Value(c) < Value(d)
  {
    SmallHead(c);
    if d[0] != 0 {
      ValueBigHead(d, |c|);
      assert Pow256(|c|) == 256 * Pow256(|c| - 1);
    } else {
      SecondHead(d, |c|);
    }
  }

  lemma SmallHead(c: seq<byte>)
    requires c != [] && c[0] < 128
    ensures Value(c) < 128 * Pow256(|c| - 1)
  {
    ValueHead(c);
    ValueBound(c[1..]);
    BelowHalf(c[0], Value(c[1..]), Pow256(|c| - 1));
  }

  lemma SecondHead(d: seq<byte>, n: nat)
    requires 0 < n < |d| && d[0] == 0 && d[1] >= 128
    ensures Value(d) >= 128 * Pow256(n - 1)
  {
    ValueZeroHead(d);
    ValueHead(d[1..]);
    Pow256Mono(n - 1, |d| - 2);
    AboveHalf(d[1], Pow256(n - 1), Pow256(|d| - 2));
  }

  lemma BelowHalf(b: nat, rest: nat, p: nat)
    requires b < 128 && rest < p
    ensures b * p + rest < 128 * p
  {
    assert b * p <= 127 * p;
  }

  lemma AboveHalf(b: nat, p: nat, q: nat)
    requires b >= 128 && p <= q
    ensures b * q >= 128 * p
  {
    assert b * q >= 128 * q;
  }

  lemma {:induction false} EncodeAt(v: nat, n: nat, i: nat)
    requires i < n
    ensures Encode(v, n)[i] == v / Pow256(n - 1 - i) % 256
  {
    if i < n - 1 {
      EncodeAt(v / 256, n - 1, i);
      DivTwice(v, Pow256(n - 2 - i));
    }
  }

  lemma DivTwice(v: nat, p: nat)
    requires p > 0
    ensures v / 256 / p == v / (256 * p)
  {
    var q := v / 256 / p;
    var r, s := v / 256 - p * q, v % 256;
    assert 0 <= r < p;
    assert v == 256 * (p * q + r) + s;
    assert 256 * (p * q) == q * (256 * p);
    QuotientUnique(v, 256 * p, q, 256 * r + s);
  }

  // ---------------------------------------------------------------- octet queues

  class ByteQueue {
    var contents: seq<byte>

    constructor ()
      ensures contents == []
    {
      contents := [];
    }

    method Put(octets: seq<byte>)
      modifies this
      ensures contents == old(contents) + octets
    {
      contents := contents + octets;
    }

    /** Takes up to `n` octets from the front. */
    method Get(n: nat) returns (octets: seq<byte>)
      modifies this
      ensures octets == old(contents)[..if n <= |old(contents)| then n else |old(contents)|]
      ensures contents == old(contents)[|octets|..]
    {
      var m := if n <= |contents| then n else |contents|;
      octets := contents[..m];
      contents := contents[m..];
    }
  }

  // ---------------------------------------------------------------- encoding

  /** What a number turns into under a tag: of a BOOLEAN only its being zero survives. */
  function Carried(asnTag: byte, w: nat): nat {
    if asnTag != BOOLEAN then w else if w == 0 then 0 else 255
  }

  /** The contents octets: minimal, except that a BOOLEAN is one octet. */
  predicate IsEncoded(c: seq<byte>, asnTag: byte, w: nat) {
    if asnTag == BOOLEAN then c == [Carried(asnTag, w)] else IsContent(c, w)
  }

  /** `size` is the number of octets of the word `w`. */
  method DEREncodeUnsigned(codec: LengthCodec, out: ByteQueue, w: nat, size: nat, asnTag: byte)
    returns (written: nat, ghost content: seq<byte>)
    requires size > 0 && w < Pow256(size)
    modifies out
    ensures out.contents == old(out.contents) + [asnTag] + codec.encode(|content|) + content
    ensures written == 1 + |codec.encode(|content|)| + |content|
    ensures IsEncoded(content, asnTag, w) && |content| <= size + 1
  {
    var buf := new byte[size + 1];
    var bc: nat;
    if asnTag == BOOLEAN {
      buf[size] := if w != 0 then 0xff else 0;
      bc := 1;
      assert buf[size..] == [Carried(asnTag, w)];
    } else {
      Fill(buf, w, size);
      EnoughAll(buf[..], w, size);
      bc := Minimal(buf[..], w, size);
    }
    content := buf[size + 1 - bc..];
    out.Put([asnTag]);
    out.Put(codec.encode(bc));
    out.Put(buf[size + 1 - bc..]);
    written := 1 + |codec.encode(bc)| + bc;
  }

  /** A zero octet and the octets of the word. */
  method Fill(buf: array<byte>, w: nat, size: nat)
    requires buf.Length == size + 1
    modifies buf
    ensures buf[..] == [0] + Encode(w, size)
  {
    buf[0] := 0;
    for i := 0 to size
      invariant buf[0] == 0 && forall k :: 0 <= k < i ==> buf[k + 1] == Encode(w, size)[k]
    {
      EncodeAt(w, size, i);
      buf[i + 1] := w / Pow256(size - 1 - i) % 256;
    }
  }

  /** How many of the last octets are needed. */
  method Minimal(buf: seq<byte>, w: nat, size: nat) returns (bc: nat)
    requires Enough(buf, w, size, size)
    ensures 1 <= bc <= size + 1 && IsContent(buf[size + 1 - bc..], w)
  {
    bc := size;
    while bc > 1 && buf[size + 1 - bc] == 0
      invariant Enough(buf, w, size, bc)
    {
      EnoughNext(buf, w, size, bc);
      bc := bc - 1;
    }
    ghost var stripped := bc;
    if buf[size + 1 - bc] >= 0x80 {
      bc := bc + 1;
    }
    EnoughDone(buf, w, size, stripped, bc);
  }

  /** The last `bc` octets hold the number, and a zero stands before them. */
  predicate Enough(buf: seq<byte>, w: nat, size: nat, bc: nat) {
    1 <= bc <= size && |buf| == size + 1 && buf[size - bc] == 0 && Value(buf[size + 1 - bc..]) == w
  }

  lemma EnoughAll(buf: seq<byte>, w: nat, size: nat)
    requires size > 0 && w < Pow256(size) && buf == [0] + Encode(w, size)
    ensures Enough(buf, w, size, size)
  {
    ValueOfEncode(w, size);
    assert buf[1..] == Encode(w, size);
  }

  lemma EnoughNext(buf: seq<byte>, w: nat, size: nat, bc: nat)
    requires Enough(buf, w, size, bc) && bc > 1 && buf[size + 1 - bc] == 0
    ensures Enough(buf, w, size, bc - 1)
  {
    ValueZeroHead(buf[size + 1 - bc..]);
    assert buf[size + 1 - bc..][1..] == buf[size + 2 - bc..];
  }

  lemma EnoughDone(buf: seq<byte>, w: nat, size: nat, bc: nat, n: nat)
    requires Enough(buf, w, size, bc) && (bc == 1 || buf[size + 1 - bc] != 0)
    requires n == if buf[size + 1 - bc] >= 0x80 then bc + 1 else bc
    ensures n <= size + 1 && IsContent(buf[size + 1 - n..], w)
  {
    ValueZeroHead(buf[size - bc..]);
    assert buf[size - bc..][1..] == buf[size + 1 - bc..];
  }

  // ---------------------------------------------------------------- decoding

  datatype Decoding = BERDecodeErr | Decoded(w: nat, rest: seq<byte>)

  /** What decoding comes to: the number the contents octets stand for, if it fits the word and the bounds. */
  function Decode(codec: LengthCodec, octets: seq<byte>, size: nat, asnTag: byte,
                  minValue: nat, maxValue: nat): Decoding {
    if octets == [] || octets[0] != asnTag then BERDecodeErr
    else
      var body := octets[1..];
      match codec.decode(body)
      case Indefinite => BERDecodeErr
      case Definite(length, used) =>
        if used + length > |body| then BERDecodeErr
        else
          var w := Value(body[used..used + length]);
          if w >= Pow256(size) || w < minValue || w > maxValue then BERDecodeErr
          else Decoded(w, body[used + length..])
  }

  /** A tag, a readable definite length, as many octets of contents, and whatever follows. */
  ghost predicate IsRead(codec: LengthCodec, octets: seq<byte>, asnTag: byte, header: seq<byte>, content: seq<byte>,
                         rest: seq<byte>) {
    && octets == [asnTag] + (header + content + rest)
    && codec.decode(header + content + rest) == Definite(|content|, |header|)
  }

  /** Decoding succeeds exactly for such octets whose contents stand for a number that fits the word and the bounds;
      all else is an error. */
  lemma DecodesExactlyWhen(codec: LengthCodec, octets: seq<byte>, size: nat, asnTag: byte, minValue: nat, maxValue: nat,
                           w: nat, rest: seq<byte>)
    requires codec.Reads()
    ensures Decode(codec, octets, size, asnTag, minValue, maxValue) == Decoded(w, rest) <==>
            && w < Pow256(size) && minValue <= w <= maxValue
            && exists header, content :: IsRead(codec, octets, asnTag, header, content, rest) && Value(content) == w
  {
    if Decode(codec, octets, size, asnTag, minValue, maxValue) == Decoded(w, rest) {
      var header, content := DecodedParts(codec, octets, size, asnTag, minValue, maxValue, w, rest);
    }
    if exists header, content :: IsRead(codec, octets, asnTag, header, content, rest) && Value(content) == w {
      var header, content :| IsRead(codec, octets, asnTag, header, content, rest) && Value(content) == w;
      ReadDecodes(codec, octets, size, asnTag, minValue, maxValue, header, content, rest);
    }
  }

  lemma DecodedParts(codec: LengthCodec, octets: seq<byte>, size: nat, asnTag: byte, minValue: nat, maxValue: nat,
                     w: nat, rest: seq<byte>) returns (header: seq<byte>, content: seq<byte>)
    requires codec.Reads() && Decode(codec, octets, size, asnTag, minValue, maxValue) == Decoded(w, rest)
    ensures IsRead(codec, octets, asnTag, header, content, rest) && Value(content) == w
    ensures w < Pow256(size) && minValue <= w <= maxValue
  {
    var body := octets[1..];
    var length, used := codec.decode(body).length, codec.decode(body).used;
    Parts(body, used, length);
    header, content := body[..used], body[used..used + length];
  }

  lemma Parts<T>(body: seq<T>, used: nat, length: nat)
    requires used + length <= |body|
    ensures body == body[..used] + body[used..used + length] + body[used + length..]
  {
  }

  lemma ReadDecodes(codec: LengthCodec, octets: seq<byte>, size: nat, asnTag: byte, minValue: nat, maxValue: nat,
                    header: seq<byte>, content: seq<byte>, rest: seq<byte>)
    requires IsRead(codec, octets, asnTag, header, content, rest)
    ensures Decode(codec, octets, size, asnTag, minValue, maxValue) ==
            var v := Value(content);
            if v < Pow256(size) && minValue <= v <= maxValue then Decoded(v, rest) else BERDecodeErr
  {
    var body := octets[1..];
    assert body == header + content + rest;
    assert body[|header|..|header| + |content|] == content && body[|header| + |content|..] == rest;
  }

  method BERDecodeUnsigned(codec: LengthCodec, input: ByteQueue, size: nat, asnTag: byte, minValue: nat, maxValue: nat)
    returns (ok: bool, w: nat)
    requires codec.Reads()
    modifies input
    ensures match Decode(codec, old(input.contents), size, asnTag, minValue, maxValue)
            case BERDecodeErr => !ok
            case Decoded(v, rest) => ok && w == v && input.contents == rest
  {
    ok, w := false, 0;
    ghost var octets := input.contents;
    var b := input.Get(1);
    if b != [asnTag] {
      assert octets == [] || octets[0] != asnTag;
      return;
    }
    assert input.contents == octets[1..];
    var header := codec.decode(input.contents);
    if header.Indefinite? {
      return;
    }
    var fits;
    fits, w := Content(input, header.used, header.length, size);
    ok := fits && minValue <= w <= maxValue;
  }

  /** The rest of BERDecodeUnsigned, behind the tag. */
  method Content(input: ByteQueue, used: nat, length: nat, size: nat) returns (fits: bool, w: nat)
    requires used <= |input.contents|
    modifies input
    ensures var octets := old(input.contents);
            if used + length > |octets| || Value(octets[used..used + length]) >= Pow256(size) then !fits
            else fits && w == Value(octets[used..used + length]) && input.contents == octets[used + length..]
  {
    w := 0;
    ghost var octets := input.contents;
    var lengthOctets := input.Get(used);
    var bc := length;
    var buf := input.Get(bc);
    if |buf| != bc {
      return false, w;
    }
    assert buf == octets[used..used + bc];
    fits, w := Word(buf, size);
  }

  /** Skips leading zeros as long as there are too many octets; the shifts never lose a bit. */
  method Word(buf: seq<byte>, size: nat) returns (fits: bool, w: nat)
    ensures fits <==> Value(buf) < Pow256(size)
    ensures fits ==> w == Value(buf)
  {
    w := 0;
    var ptr: nat, bc: nat := 0, |buf|;
    assert buf[0..] == buf;
    while bc > size && buf[ptr] == 0
      invariant ptr + bc == |buf| && Value(buf[ptr..]) == Value(buf)
    {
      ValueZeroHead(buf[ptr..]);
      assert buf[ptr..][1..] == buf[ptr + 1..];
      bc := bc - 1;
      ptr := ptr + 1;
    }
    if bc > size {
      ValueBigHead(buf[ptr..], size);
      return false, w;
    }
    ValueBound(buf[ptr..]);
    Pow256Mono(bc, size);
    fits := true;
    w := Shifted(buf, ptr, bc, size);
  }

  method Shifted(buf: seq<byte>, ptr: nat, bc: nat, size: nat) returns (w: nat)
    requires ptr + bc == |buf| && bc <= size
    ensures w == Value(buf[ptr..])
  {
    w := 0;
    ghost var s := buf[ptr..];
    for i := 0 to bc
      invariant w == Value(s[..i])
    {
      ShiftKeeps(s, i, size);
      w := w * 256 % Pow256(size) + buf[ptr + i];
    }
    assert s[..bc] == s;
  }

  lemma ShiftKeeps(s: seq<byte>, i: nat, size: nat)
    requires i < |s| <= size
    ensures Value(s[..i + 1]) == Value(s[..i]) * 256 % Pow256(size) + s[i]
  {
    assert s[..i + 1][..i] == s[..i];
    ValueBound(s[..i]);
    Pow256Mono(i + 1, size);
    Small(Value(s[..i]) * 256, Pow256(size));
  }

  lemma Small(n: nat, m: nat)
    requires n < m
    ensures n % m == n
  {
  }

  // ---------------------------------------------------------------- round trip

  /** Decoding undoes encoding, up to what the tag lets through: exactly the number if the tag is not BOOLEAN,
      and of a BOOLEAN exactly 0 and 255. Numbers out of bounds are refused. */
  lemma RoundTrip(codec: LengthCodec, content: seq<byte>, rest: seq<byte>, asnTag: byte, w: nat, size: nat,
                  minValue: nat, maxValue: nat)
    requires codec.Inverts() && size > 0 && w < Pow256(size) && IsEncoded(content, asnTag, w)
    ensures Decode(codec, [asnTag] + codec.encode(|content|) + content + rest, size, asnTag, minValue, maxValue) ==
            if minValue <= Carried(asnTag, w) <= maxValue then Decoded(Carried(asnTag, w), rest) else BERDecodeErr
    ensures Carried(asnTag, w) == if asnTag == 1 && w > 0 then 255 else w
  {
    var header := codec.encode(|content|);
    var octets := [asnTag] + header + content + rest;
    EncodedReads(codec, octets, asnTag, header, content, rest);
    CarriedValue(content, asnTag, w, size);
    ReadDecodes(codec, octets, size, asnTag, minValue, maxValue, header, content, rest);
  }

  lemma EncodedReads(codec: LengthCodec, octets: seq<byte>, asnTag: byte, header: seq<byte>, content: seq<byte>,
                     rest: seq<byte>)
    requires codec.Inverts() && header == codec.encode(|content|) && octets == [asnTag] + header + content + rest
    ensures IsRead(codec, octets, asnTag, header, content, rest)
  {
    assert header + content + rest == header + (content + rest);
    assert octets == [asnTag] + (header + content + rest);
  }

  lemma CarriedValue(content: seq<byte>, asnTag: byte, w: nat, size: nat)
    requires size > 0 && w < Pow256(size) && IsEncoded(content, asnTag, w)
    ensures Value(content) == Carried(asnTag, w) < Pow256(size)
  {
    if asnTag == BOOLEAN {
      assert content[..0] == [];
      Pow256Mono(1, size);
    }
  }
}
