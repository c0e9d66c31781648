/** Base64: text encoding against section 4 of RFC 4648, and decoding both as the code stands and as it is
    meant. Shifts and masks of disjoint bits are written as divisions, remainders and sums. */
module Base64 {
  import opened Modular
  import opened Octets

  type sextet = x: int | 0 <= x < 64

  // ---------------------------------------------------------------- the reference: 24-bit groups

  /** The octet at `k`; beyond the end, zero bits are added on the right. */
  function Octet(s: seq<byte>, k: nat): byte {
    if k < |s| then s[k] else 0
  }

  function Bits(a: byte, b: byte, c: byte): nat {
    a * 65536 + b * 256 + c
  }

  function Group(s: seq<byte>, g: nat): nat {
    Bits(Octet(s, 3 * g), Octet(s, 3 * g + 1), Octet(s, 3 * g + 2))
  }

  function Groups(s: seq<byte>): nat {
    (|s| + 2) / 3
  }

  function Joined(a: sextet, b: sextet, c: sextet, d: sextet): nat {
    a * 262144 + b * 4096 + c * 64 + d
  }

  predicate InAlphabet(ch: char) {
    '0' <= ch <= '9' || 'A' <= ch <= 'Z' || 'a' <= ch <= 'z' || ch == '+' || ch == '/' || ch == '='
  }

  /** Written: digits 62 and 63 fall through to 0, and the index of the last group is cut to eight bits.
      Intended: neither happens. */
  datatype Form = Written | Intended

  function DigitValue(form: Form, ch: char): sextet {
    if 'A' <= ch <= 'Z' then ch as int - 'A' as int
    else if 'a' <= ch <= 'z' then ch as int - 'a' as int + 26
    else if '0' <= ch <= '9' then ch as int - '0' as int + 52
    else if form.Written? then 0
    else if ch == '+' then 62 else if ch == '/' then 63 else 0
  }

  /** The number four digits stand for, six bits each. */
  function Number(form: Form, t: string): nat
    requires |t| == 4
  {
    Joined(DigitValue(form, t[0]), DigitValue(form, t[1]), DigitValue(form, t[2]), DigitValue(form, t[3]))
  }

  /** Four characters for a group: together they stand for its 24 bits, and '=' takes the place of exactly
      those that carry no input bit. */
  predicate IsGroupText(s: seq<byte>, g: nat, t: string) {
    && |t| == 4 && InAlphabet(t[0]) && InAlphabet(t[1]) && InAlphabet(t[2]) && InAlphabet(t[3])
    && Number(Intended, t) == Group(s, g)
    && t[0] != '=' && t[1] != '='
    && (t[2] == '=' <==> |s| <= 3 * g + 1) && (t[3] == '=' <==> |s| <= 3 * g + 2)
  }

  /** `t` is the text of the first `n` groups. */
  predicate IsTextOf(s: seq<byte>, t: string, n: nat) {
    |t| == 4 * n && (n > 0 ==> IsTextOf(s, t[..4 * n - 4], n - 1) && IsGroupText(s, n - 1, t[4 * n - 4..]))
  }

  /** Section 4 of RFC 4648. */
  predicate IsEncoding(s: seq<byte>, t: string) {
    IsTextOf(s, t, Groups(s))
  }

  // ---------------------------------------------------------------- encoding

  function Digit(v: sextet): char {
    if v < 26 then (v + 65) as char
    else if v < 52 then (v - 26 + 97) as char
    else if v < 62 then (v - 52 + 48) as char
    else if v == 62 then '+' else '/'
  }

  lemma DigitBack(v: sextet)
    ensures DigitValue(Intended, Digit(v)) == v && InAlphabet(Digit(v)) && Digit(v) != '='
  {
  }

  /** The digits in the order of the literal in the source. */
  function Alphabet(): (a: string)
    ensures |a| == 64
  {
    "ABCDEFGHIJKLMNOPQRSTUVWXYZ" + "abcdefghijklmnopqrstuvwxyz" + "0123456789+/"
  }

  lemma DigitsOfAlphabet(v: sextet)
    ensures Digit(v) == Alphabet()[v] && DigitValue(Intended, Alphabet()[v]) == v
  {
    Uppers(v);
    Lowers(v - 26);
    Others(v - 52);
  }

  lemma Uppers(v: int)
    ensures 0 <= v < 26 ==> "ABCDEFGHIJKLMNOPQRSTUVWXYZ"[v] == (v + 65) as char
  {
  }

  lemma Lowers(v: int)
    ensures 0 <= v < 26 ==> "abcdefghijklmnopqrstuvwxyz"[v] == (v + 97) as char
  {
  }

  lemma Others(v: int)
    ensures 0 <= v < 12 ==> "0123456789+/"[v] == if v < 10 then (v + 48) as char else if v == 10 then '+' else '/'
  {
  }

  /** The decoder lets through those digits and '='. */
  lemma AlphabetExact(ch: char)
    ensures InAlphabet(ch) <==> ch == '=' || ch in Alphabet()
  {
    DigitsOfAlphabet(DigitValue(Intended, ch));
    if InAlphabet(ch) && ch != '=' {
      assert Alphabet()[DigitValue(Intended, ch)] == ch;
    }
    if ch in Alphabet() {
      var k :| 0 <= k < 64 && Alphabet()[k] == ch;
      DigitsOfAlphabet(k);
      DigitBack(k);
    }
  }

  /** The shifts of the source cut three octets into the sextets of their 24 bits. */
  lemma SextetsJoin(a: byte, b: byte, c: byte)
    ensures Joined(a / 4, a % 4 * 16 + b / 16, b % 16 * 4 + c / 64, c % 64) == Bits(a, b, c)
  {
  }

  lemma FourDigits(v: sextet, w: sextet, x: sextet, y: sextet)
    ensures Number(Intended, [Digit(v), Digit(w), Digit(x), Digit(y)]) == Joined(v, w, x, y)
    ensures Number(Intended, [Digit(v), Digit(w), Digit(x), '=']) == Joined(v, w, x, 0)
    ensures Number(Intended, [Digit(v), Digit(w), '=', '=']) == Joined(v, w, 0, 0)
  {
    DigitBack(v);
    DigitBack(w);
    DigitBack(x);
    DigitBack(y);
  }

  lemma DigitsAre(s: seq<byte>, g: nat, v: sextet, w: sextet, x: sextet, y: sextet)
    requires g < Groups(s) && Joined(v, w, x, y) == Group(s, g)
    requires (3 * g + 1 >= |s| ==> x == 0) && (3 * g + 2 >= |s| ==> y == 0)
    ensures IsGroupText(s, g, [Digit(v), Digit(w), if 3 * g + 1 < |s| then Digit(x) else '=',
                               if 3 * g + 2 < |s| then Digit(y) else '='])
  {
    FourDigits(v, w, x, y);
    DigitBack(v);
    DigitBack(w);
    DigitBack(x);
    DigitBack(y);
  }

  method GroupDigits(src: seq<byte>, g: nat) returns (digits: string)
    requires 3 * g + 3 <= |src|
    ensures IsGroupText(src, g, digits)
  {
    var a, b, c := src[g * 3], src[g * 3 + 1], src[g * 3 + 2];
    SextetsJoin(a, b, c);
    DigitsAre(src, g, a / 4, a % 4 * 16 + b / 16, b % 16 * 4 + c / 64, c % 64);
    digits := [Digit(a / 4), Digit(a % 4 * 16 + b / 16), Digit(b % 16 * 4 + c / 64), Digit(c % 64)];
  }

  /** The last group, of one, two or three octets. */
  method LastDigits(src: seq<byte>, paddingLen: nat, lastId: nat) returns (digits: string)
    requires paddingLen < 3 && |src| == 3 * lastId + (if paddingLen == 0 then 3 else paddingLen)
    ensures IsGroupText(src, lastId, digits)
  {
    if paddingLen == 0 {
      digits := GroupDigits(src, lastId);
    } else if paddingLen == 1 {
      var a := src[lastId * 3];
      SextetsJoin(a, 0, 0);
      DigitsAre(src, lastId, a / 4, a % 4 * 16, 0, 0);
      digits := [Digit(a / 4), Digit(a % 4 * 16), '=', '='];
    } else {
      var a, b := src[lastId * 3], src[lastId * 3 + 1];
      SextetsJoin(a, b, 0);
      DigitsAre(src, lastId, a / 4, a % 4 * 16 + b / 16, b % 16 * 4, 0);
      digits := [Digit(a / 4), Digit(a % 4 * 16 + b / 16), Digit(b % 16 * 4), '='];
    }
  }

  lemma TextNext(s: seq<byte>, t: string, n: nat, digits: string)
    requires IsTextOf(s, t, n) && IsGroupText(s, n, digits)
    ensures IsTextOf(s, t + digits, n + 1)
  {
    assert (t + digits)[..4 * n] == t && (t + digits)[4 * n..] == digits;
  }

  /** Empty input is excluded: the group count less one wraps round and the first loop leaves the buffers. */
  method Encrypt(src: seq<byte>) returns (dst: array<char>, ghost text: string)
    requires src != []
    ensures fresh(dst) && dst[..] == text + ['\0'] && IsEncoding(src, text)
  {
    var count := |src| / 3;
    var paddingLen := |src| % 3;
    if paddingLen != 0 {
      count := count + 1;
    }
    dst := Cleared(count * 4 + 1, '\0');
    text := EncryptGroups(src, count, paddingLen, dst);
    FilledButOne(dst, text, '\0');
  }

  method EncryptGroups(src: seq<byte>, count: nat, paddingLen: nat, dst: array<char>) returns (ghost text: string)
    requires count == Groups(src) > 0 && paddingLen < 3
    requires |src| == 3 * (count - 1) + (if paddingLen == 0 then 3 else paddingLen)
    requires dst.Length == count * 4 + 1 && Filled(dst, [], '\0')
    modifies dst
    ensures IsEncoding(src, text) && Filled(dst, text, '\0')
  {
    ghost var front := EncryptFront(src, count, dst);
    var digits := LastDigits(src, paddingLen, count - 1);
    text := AppendGroup(dst, src, count - 1, count, front, digits);
  }

  /** The groups before the last. */
  method EncryptFront(src: seq<byte>, count: nat, dst: array<char>) returns (ghost text: string)
    requires 0 < count <= Groups(src) && dst.Length == count * 4 + 1 && Filled(dst, [], '\0')
    modifies dst
    ensures IsTextOf(src, text, count - 1) && Filled(dst, text, '\0')
  {
    text := [];
    for i := 0 to count - 1
      invariant IsTextOf(src, text, i) && Filled(dst, text, '\0')
    {
      var digits := GroupDigits(src, i);
      text := AppendGroup(dst, src, i, i + 1, text, digits);
    }
  }

  method AppendGroup(dst: array<char>, ghost src: seq<byte>, i: nat, ghost n: nat, ghost text: string, digits: string)
    returns (ghost longer: string)
    requires n == i + 1 && IsTextOf(src, text, i) && Filled(dst, text, '\0')
    requires IsGroupText(src, i, digits) && 4 * i + 4 <= dst.Length
    modifies dst
    ensures IsTextOf(src, longer, n) && Filled(dst, longer, '\0')
  {
    TextNext(src, text, i, digits);
    Append(dst, text, i * 4, digits, '\0');
    longer := text + digits;
  }

  // ---------------------------------------------------------------- buffers

  /** A buffer filled from the left with `done` and otherwise holding its initial `x`. */
  ghost predicate Filled<T>(a: array<T>, done: seq<T>, x: T)
    reads a
  {
    |done| <= a.Length && a[..|done|] == done && forall k :: |done| <= k < a.Length ==> a[k] == x
  }

  method Cleared<T>(n: nat, x: T) returns (a: array<T>)
    ensures fresh(a) && a.Length == n && Filled(a, [], x)
  {
    a := new T[n](i => x);
  }

  /** Writes `block` behind what has been `done`. */
  method Append<T>(a: array<T>, ghost done: seq<T>, at: nat, block: seq<T>, ghost x: T)
    requires Filled(a, done, x) && at == |done| && at + |block| <= a.Length
    modifies a
    ensures Filled(a, done + block, x)
  {
    forall i | 0 <= i < |block| {
      a[at + i] := block[i];
    }
  }

  /** Writes `block` once more where it already stands. */
  method Rewrite<T>(a: array<T>, ghost done: seq<T>, at: nat, block: seq<T>, ghost x: T)
    requires Filled(a, done, x) && at + |block| <= |done| && done[at..at + |block|] == block
    modifies a
    ensures Filled(a, done, x)
  {
    forall i | 0 <= i < |block| {
      a[at + i] := block[i];
    }
  }

  lemma FilledButOne<T>(a: array<T>, done: seq<T>, x: T)
    requires Filled(a, done, x) && a.Length == |done| + 1
    ensures a[..] == done + [x]
  {
  }

  // ---------------------------------------------------------------- decoding

  /** The number the four digits of group `g` stand for. */
  function NumberAt(form: Form, text: string, g: nat): nat
    requires 4 * g + 4 <= |text|
  {
    Joined(DigitValue(form, text[4 * g]), DigitValue(form, text[4 * g + 1]),
           DigitValue(form, text[4 * g + 2]), DigitValue(form, text[4 * g + 3]))
  }

  /** `o` holds the octets of the first `n` groups. */
  predicate IsFront(form: Form, text: string, o: seq<byte>, n: nat) {
    |o| == 3 * n && 4 * n <= |text| && forall g: nat :: g < n ==> Group(o, g) == NumberAt(form, text, g)
  }

  function LastId(form: Form, count: nat): (last: nat)
    requires count > 0
    ensures last < count
  {
    if form.Written? then (count - 1) % 256 else count - 1
  }

  /** The '=' counter is a bool, so it never exceeds one. */
  function Equals(text: string): nat {
    if '=' in text then 1 else 0
  }

  predicate WholeGroups(text: string) {
    text != [] && |text| % 4 == 0
  }

  predicate HasGroups(text: string, count: nat) {
    WholeGroups(text) && |text| / 4 == count && |text| == 4 * count && count > 0
  }

  /** What the last group becomes: nothing where its index is cut to that of another group, and two octets
      only where '=' has been counted. */
  predicate IsLast(form: Form, text: string, count: nat, n: nat)
    requires count > 0 && |text| == 4 * count
  {
    LastFrom(LastId(form, count) != count - 1, Equals(text), NumberAt(form, text, count - 1), n)
  }

  predicate LastFrom(cut: bool, equalCount: nat, number: nat, n: nat) {
    if cut then n == 0 else if equalCount == 0 then n == number else n <= number < n + 256
  }

  /** What the output buffer holds: group by group the octets of the digits, and a final zero. */
  predicate IsDecoding(form: Form, text: string, o: seq<byte>)
    requires WholeGroups(text)
  {
    HoldsGroups(form, text, |text| / 4, o)
  }

  predicate HoldsGroups(form: Form, text: string, count: nat, o: seq<byte>)
    requires count > 0 && |text| == 4 * count
  {
    && |o| == 3 * count - Equals(text) + 1 && o[|o| - 1] == 0
    && (forall g: nat :: g < count - 1 ==> Group(o, g) == NumberAt(form, text, g))
    && IsLast(form, text, count, Group(o, count - 1))
  }

  /** Empty text is excluded for the same reason as in Encrypt. */
  method Decrypt(form: Form, text: string) returns (nRet: int, dst: array<byte>)
    requires text != []
    ensures nRet == if |text| % 4 != 0 then -1
                    else if exists k :: 0 <= k < |text| && !InAlphabet(text[k]) then -2 else 0
    ensures nRet == 0 ==> IsDecoding(form, text, dst[..])
  {
    dst := new byte[0];
    if |text| % 4 != 0 {
      return -1, dst;
    }
    for i := 0 to |text|
      invariant forall k :: 0 <= k < i ==> InAlphabet(text[k])
    {
      if !InAlphabet(text[i]) {
        return -2, dst;
      }
    }
    var equalCount := SearchStr(text);
    var src := new byte[|text| - equalCount + 1];
    for i := 0 to |text| - equalCount
      invariant forall k :: 0 <= k < i ==> src[k] == DigitValue(form, text[k])
    {
      src[i] := DigitValue(form, text[i]);
    }
    nRet := 0;
    dst := Fill(form, text, equalCount, src);
  }

  method SearchStr(text: string) returns (equalCount: nat)
    ensures equalCount == Equals(text) == if '=' in text then 1 else 0
  {
    equalCount := 0;
    for i := 0 to |text|
      invariant equalCount == if '=' in text[..i] then 1 else 0
    {
      if text[i] == '=' {
        equalCount := 1;
      }
    }
    assert text[..|text|] == text;
  }

  predicate IsDigits(form: Form, text: string, src: seq<byte>) {
    && |src| == |text| - Equals(text) + 1
    && forall k :: 0 <= k < |text| - Equals(text) ==> src[k] == DigitValue(form, text[k])
  }

  /** The shifts of the source put four sextets together into the octets of their 24 bits. */
  method Shift(a: sextet, b: sextet, c: sextet, d: sextet) returns (x: byte, y: byte, z: byte)
    ensures Bits(x, y, z) == Joined(a, b, c, d)
  {
    x, y, z := a * 4 + b / 16, b % 16 * 16 + c / 4, c % 4 * 64 + d;
  }

  /** Two octets only, whatever the fourth sextet is. */
  method ShiftTwo(a: sextet, b: sextet, c: sextet, ghost d: sextet) returns (x: byte, y: byte)
    ensures Bits(x, y, 0) <= Joined(a, b, c, d) < Bits(x, y, 0) + 256
  {
    x, y := a * 4 + b / 16, b % 16 * 16 + c / 4;
  }

  /** The octets of group `g`, three or two. The last digit of all is not there where '=' has been counted. */
  method GroupOctets(form: Form, text: string, g: nat, src: array<byte>, three: bool) returns (octets: seq<byte>)
    requires 4 * g + 4 <= |text| && IsDigits(form, text, src[..]) && (three ==> 4 * g + 4 < src.Length)
    ensures |octets| == (if three then 3 else 2) && AreOctets(octets, NumberAt(form, text, g))
  {
    ghost var number := NumberAt(form, text, g);
    DigitsAt(form, text, src[..], g, three);
    var a, b, c := src[g * 4], src[g * 4 + 1], src[g * 4 + 2];
    if three {
      var x, y, z := Shift(a, b, c, src[g * 4 + 3]);
      ThreeOctets(x, y, z, number);
      octets := [x, y, z];
    } else {
      var x, y := ShiftTwo(a, b, c, DigitValue(form, text[4 * g + 3]));
      TwoOctets(x, y, number);
      octets := [x, y];
    }
  }

  lemma DigitsAt(form: Form, text: string, src: seq<byte>, g: nat, three: bool)
    requires 4 * g + 4 <= |text| && IsDigits(form, text, src) && (three ==> 4 * g + 4 < |src|)
    ensures g * 4 + 2 < |src| && src[g * 4] < 64 && src[g * 4 + 1] < 64 && src[g * 4 + 2] < 64
    ensures NumberAt(form, text, g) ==
            Joined(src[g * 4], src[g * 4 + 1], src[g * 4 + 2], DigitValue(form, text[4 * g + 3]))
    ensures three ==> src[g * 4 + 3] == DigitValue(form, text[4 * g + 3])
  {
  }

  lemma ThreeOctets(x: byte, y: byte, z: byte, n: nat)
    requires Bits(x, y, z) == n
    ensures AreOctets([x, y, z], n)
  {
  }

  lemma TwoOctets(x: byte, y: byte, n: nat)
    requires Bits(x, y, 0) <= n < Bits(x, y, 0) + 256
    ensures AreOctets([x, y], n)
  {
  }

  predicate AreOctets(octets: seq<byte>, n: nat) {
    if |octets| == 3 then Group(octets, 0) == n else |octets| == 2 && Group(octets, 0) <= n < Group(octets, 0) + 256
  }

  lemma OctetOfConcat(front: seq<byte>, o: seq<byte>, k: nat)
    ensures Octet(front + o, k) == if k < |front| then Octet(front, k) else Octet(o, k - |front|)
  {
  }

  lemma GroupOfConcat(front: seq<byte>, o: seq<byte>, n: nat, g: nat)
    requires |front| == 3 * n && g <= n
    ensures Group(front + o, g) == if g < n then Group(front, g) else Group(o, 0)
  {
    OctetOfConcat(front, o, 3 * g);
    OctetOfConcat(front, o, 3 * g + 1);
    OctetOfConcat(front, o, 3 * g + 2);
  }

  lemma FrontNext(form: Form, text: string, front: seq<byte>, n: nat, o: seq<byte>)
    requires IsFront(form, text, front, n) && 4 * n + 4 <= |text| && |o| == 3 && Group(o, 0) == NumberAt(form, text, n)
    ensures IsFront(form, text, front + o, n + 1)
  {
    GroupsBefore(form, text, front, o, n);
  }

  lemma DecodingOf(form: Form, text: string, count: nat, front: seq<byte>, last: seq<byte>)
    requires count > 0 && |text| == 4 * count && IsFront(form, text, front, count - 1)
    requires |last| == 4 - Equals(text) && last[|last| - 1] == 0 && IsLast(form, text, count, Group(last, 0))
    ensures HoldsGroups(form, text, count, front + last)
  {
    LastOfConcat(front, last);
    GroupsBefore(form, text, front, last, count - 1);
  }

  lemma GroupsBefore(form: Form, text: string, front: seq<byte>, last: seq<byte>, n: nat)
    requires IsFront(form, text, front, n)
    ensures Group(front + last, n) == Group(last, 0)
    ensures forall g: nat :: g < n ==> Group(front + last, g) == NumberAt(form, text, g)
  {
    forall g: nat | g < n
      ensures Group(front + last, g) == NumberAt(form, text, g)
    {
      GroupOfConcat(front, last, n, g);
    }
    GroupOfConcat(front, last, n, n);
  }

  lemma LastOfConcat<T>(a: seq<T>, b: seq<T>)
    ensures |a + b| == |a| + |b|
    ensures |b| > 0 ==> (a + b)[|a + b| - 1] == b[|b| - 1]
  {
  }

  /** The rest of Decrypt, on the digit values: one group of three octets after the other. */
  method Fill(form: Form, text: string, equalCount: nat, src: array<byte>) returns (dst: array<byte>)
    requires WholeGroups(text) && equalCount == Equals(text) && IsDigits(form, text, src[..])
    ensures fresh(dst) && IsDecoding(form, text, dst[..])
  {
    var count := |text| / 4;
    var dstLen := count * 3 - equalCount;
    dst := Cleared(dstLen + 1, 0);
    ghost var front := FillFront(form, text, count, src, dst);
    FillLast(form, text, count, equalCount, src, dst, front);
  }

  method FillFront(form: Form, text: string, count: nat, src: array<byte>, dst: array<byte>)
    returns (ghost front: seq<byte>)
    requires HasGroups(text, count) && IsDigits(form, text, src[..]) && src != dst
    requires dst.Length >= 3 * count - 3 && Filled(dst, [], 0)
    modifies dst
    ensures IsFront(form, text, front, count - 1) && Filled(dst, front, 0)
  {
    front := [];
    for i := 0 to count - 1
      invariant IsFront(form, text, front, i) && Filled(dst, front, 0)
    {
      var octets := GroupOctets(form, text, i, src, true);
      FrontNext(form, text, front, i, octets);
      Append(dst, front, i * 3, octets, 0);
      front := front + octets;
    }
  }

  /** The last group; where its index is cut, an earlier group is written once more instead. */
  method FillLast(form: Form, text: string, count: nat, equalCount: nat, src: array<byte>, dst: array<byte>,
                  ghost front: seq<byte>)
    requires count > 0 && |text| == 4 * count && equalCount == Equals(text)
    requires IsDigits(form, text, src[..]) && src != dst
    requires dst.Length == 3 * count - equalCount + 1 && IsFront(form, text, front, count - 1) && Filled(dst, front, 0)
    modifies dst
    ensures HoldsGroups(form, text, count, dst[..])
  {
    var lastId := LastId(form, count);
    var octets := GroupOctets(form, text, lastId, src, equalCount == 0);
    if lastId == count - 1 {
      Append(dst, front, 3 * lastId, octets, 0);
      FilledButOne(dst, front + octets, 0);
      OctetsLast(form, text, count, front, octets);
    } else {
      SameOctets(octets, front, lastId);
      Rewrite(dst, front, 3 * lastId, octets, 0);
      FilledZeros(dst, front, 4 - equalCount);
      ZerosLast(form, text, count, front);
    }
  }

  lemma OctetsLast(form: Form, text: string, count: nat, front: seq<byte>, octets: seq<byte>)
    requires count > 0 && |text| == 4 * count && IsFront(form, text, front, count - 1)
    requires LastId(form, count) == count - 1
    requires |octets| == 3 - Equals(text) && AreOctets(octets, NumberAt(form, text, count - 1))
    ensures HoldsGroups(form, text, count, front + octets + [0])
  {
    WithZero(octets, Equals(text), NumberAt(form, text, count - 1));
    DecodingOf(form, text, count, front, octets + [0]);
    assert front + octets + [0] == front + (octets + [0]);
  }

  lemma WithZero(octets: seq<byte>, e: nat, number: nat)
    requires e <= 1 && |octets| == 3 - e && AreOctets(octets, number)
    ensures var last := octets + [0];
            |last| == 4 - e && last[|last| - 1] == 0 && LastFrom(false, e, number, Group(last, 0))
  {
    var last := octets + [0];
    assert Octet(last, 0) == octets[0] && Octet(last, 1) == octets[1] && Octet(last, 2) == Octet(octets, 2);
  }

  lemma ZerosLast(form: Form, text: string, count: nat, front: seq<byte>)
    requires count > 0 && |text| == 4 * count && IsFront(form, text, front, count - 1)
    requires LastId(form, count) != count - 1
    ensures HoldsGroups(form, text, count, front + Zeros(4 - Equals(text)))
  {
    DecodingOf(form, text, count, front, Zeros(4 - Equals(text)));
  }

  function Zeros(n: nat): (z: seq<byte>)
    ensures |z| == n && forall k :: 0 <= k < n ==> z[k] == 0
  {
    if n == 0 then [] else Zeros(n - 1) + [0]
  }

  lemma FilledZeros(a: array<byte>, done: seq<byte>, n: nat)
    requires Filled(a, done, 0) && a.Length == |done| + n
    ensures a[..] == done + Zeros(n)
  {
  }

  lemma SameOctets(o: seq<byte>, p: seq<byte>, g: nat)
    requires 3 * g + 3 <= |p| && AreOctets(o, Group(p, g))
    ensures p[3 * g..3 * g + |o|] == o
  {
    SameBits(Octet(o, 0), Octet(o, 1), Octet(o, 2), p[3 * g], p[3 * g + 1], p[3 * g + 2]);
  }

  lemma SameBits(a: byte, b: byte, c: byte, x: byte, y: byte, z: byte)
    ensures Bits(a, b, c) == Bits(x, y, z) ==> a == x && b == y && c == z
    ensures Bits(a, b, 0) <= Bits(x, y, z) < Bits(a, b, 0) + 256 ==> a == x && b == y
  {
  }

  // ---------------------------------------------------------------- round trip

  /** A number has one last digit and one rest. */
  lemma DigitUnique(base: nat, h: nat, l: nat, h': nat, l': nat)
    requires l < base && l' < base
    ensures h * base + l == h' * base + l' <==> h == h' && l == l'
  {
    if h * base + l == h' * base + l' {
      QuotientUnique(h * base + l, base, h, l);
      QuotientUnique(h * base + l, base, h', l');
    }
  }

  lemma BitsUnique(a: byte, b: byte, c: byte, x: byte, y: byte, z: byte)
    ensures Bits(a, b, c) == Bits(x, y, z) <==> a == x && b == y && c == z
  {
    DigitUnique(256, a * 256 + b, c, x * 256 + y, z);
    DigitUnique(256, a, b, x, y);
  }

  lemma JoinedUnique(a: sextet, b: sextet, c: sextet, d: sextet, v: sextet, w: sextet, x: sextet, y: sextet)
    requires Joined(a, b, c, d) == Joined(v, w, x, y)
    ensures a == v && b == w && c == x && d == y
  {
    DigitUnique(64, (a * 64 + b) * 64 + c, d, (v * 64 + w) * 64 + x, y);
    DigitUnique(64, a * 64 + b, c, v * 64 + w, x);
    DigitUnique(64, a, b, v, w);
  }

  lemma ValueUnique(a: char, b: char)
    ensures InAlphabet(a) && InAlphabet(b) && (a == '=' <==> b == '=') ==>
              (DigitValue(Intended, a) == DigitValue(Intended, b) <==> a == b)
  {
  }

  lemma GroupTextUnique(s: seq<byte>, g: nat, t: string, u: string)
    requires IsGroupText(s, g, t) && IsGroupText(s, g, u)
    ensures t == u
  {
    JoinedUnique(DigitValue(Intended, t[0]), DigitValue(Intended, t[1]),
                 DigitValue(Intended, t[2]), DigitValue(Intended, t[3]),
                 DigitValue(Intended, u[0]), DigitValue(Intended, u[1]),
                 DigitValue(Intended, u[2]), DigitValue(Intended, u[3]));
    ValueUnique(t[0], u[0]);
    ValueUnique(t[1], u[1]);
    ValueUnique(t[2], u[2]);
    ValueUnique(t[3], u[3]);
  }

  lemma {:induction false} TextUnique(s: seq<byte>, t: string, u: string, n: nat)
    requires IsTextOf(s, t, n) && IsTextOf(s, u, n)
    ensures t == u
  {
    if n > 0 {
      TextUnique(s, t[..4 * n - 4], u[..4 * n - 4], n - 1);
      GroupTextUnique(s, n - 1, t[4 * n - 4..], u[4 * n - 4..]);
      SameParts(t, u, 4 * n - 4);
    }
  }

  lemma SameParts<T>(t: seq<T>, u: seq<T>, k: nat)
    requires k <= |t| && k <= |u| && t[..k] == u[..k] && t[k..] == u[k..]
    ensures t == u
  {
    assert t == t[..k] + t[k..] && u == u[..k] + u[k..];
  }

  /** The reference leaves no choice: every input has one text, of four characters for each three octets
      begun, in the alphabet and with one or two '=' at the end for a last group that is not full. */
  lemma EncodingIsUnique(s: seq<byte>, t: string, u: string)
    requires IsEncoding(s, t) && IsEncoding(s, u)
    ensures t == u && |t| == 4 * ((|s| + 2) / 3)
  {
    TextUnique(s, t, u, Groups(s));
  }

  lemma {:induction false} TextGroup(s: seq<byte>, t: string, n: nat, g: nat)
    requires IsTextOf(s, t, n) && g < n
    ensures IsGroupText(s, g, t[4 * g..4 * g + 4])
  {
    FourOf(t, n, g);
    if g < n - 1 {
      var front := t[..4 * n - 4];
      TextGroup(s, front, n - 1, g);
      SameGroupText(s, g, front[4 * g..4 * g + 4], t[4 * g..4 * g + 4]);
    } else {
      SameGroupText(s, g, t[4 * n - 4..], t[4 * g..4 * g + 4]);
    }
  }

  lemma FourOf<T>(t: seq<T>, n: nat, g: nat)
    requires g < n && |t| == 4 * n
    ensures g < n - 1 ==> t[..4 * n - 4][4 * g..4 * g + 4] == t[4 * g..4 * g + 4]
    ensures g == n - 1 ==> t[4 * n - 4..] == t[4 * g..4 * g + 4]
  {
  }

  lemma SameGroupText(s: seq<byte>, g: nat, t: string, u: string)
    requires t == u && IsGroupText(s, g, t)
    ensures IsGroupText(s, g, u)
  {
  }

  predicate Plain(ch: char) {
    ch != '+' && ch != '/'
  }

  predicate Lossless(t: string) {
    forall k :: 0 <= k < |t| ==> Plain(t[k])
  }

  predicate PlainGroup(t: string, g: nat)
    requires 4 * g + 4 <= |t|
  {
    Plain(t[4 * g]) && Plain(t[4 * g + 1]) && Plain(t[4 * g + 2]) && Plain(t[4 * g + 3])
  }

  lemma LossyValue(form: Form, ch: char)
    ensures var v, w := DigitValue(form, ch), DigitValue(Intended, ch);
            (v == w || v == 0) && (v == w <==> form.Intended? || Plain(ch)) && (w == 0 ==> Plain(ch))
  {
  }

  lemma JoinedLess(v: sextet, w: sextet, x: sextet, y: sextet, v': sextet, w': sextet, x': sextet, y': sextet)
    requires v' <= v && w' <= w && x' <= x && y' <= y
    ensures Joined(v', w', x', y') <= Joined(v, w, x, y)
  {
  }

  /** Losing digits can only make the number of a group smaller. */
  lemma LossyLess(form: Form, t: string, g: nat)
    requires 4 * g + 4 <= |t|
    ensures NumberAt(form, t, g) <= NumberAt(Intended, t, g)
  {
    var a, b, c, d := t[4 * g], t[4 * g + 1], t[4 * g + 2], t[4 * g + 3];
    JoinedLess(DigitValue(Intended, a), DigitValue(Intended, b), DigitValue(Intended, c), DigitValue(Intended, d),
               DigitValue(form, a), DigitValue(form, b), DigitValue(form, c), DigitValue(form, d));
  }

  lemma LossySame(form: Form, t: string, g: nat)
    requires 4 * g + 4 <= |t|
    ensures NumberAt(form, t, g) == NumberAt(Intended, t, g) <==> form.Intended? || PlainGroup(t, g)
  {
    var a, b, c, d := t[4 * g], t[4 * g + 1], t[4 * g + 2], t[4 * g + 3];
    LossyValue(form, a);
    LossyValue(form, b);
    LossyValue(form, c);
    LossyValue(form, d);
    if NumberAt(form, t, g) == NumberAt(Intended, t, g) {
      JoinedUnique(DigitValue(Intended, a), DigitValue(Intended, b), DigitValue(Intended, c), DigitValue(Intended, d),
                   DigitValue(form, a), DigitValue(form, b), DigitValue(form, c), DigitValue(form, d));
    }
  }

  lemma JoinedZero(v: sextet, w: sextet, x: sextet, y: sextet)
    requires Joined(v, w, x, y) == 0
    ensures v == 0 && w == 0 && x == 0 && y == 0
  {
  }

  lemma ZeroPlain(t: string, g: nat)
    requires 4 * g + 4 <= |t| && NumberAt(Intended, t, g) == 0
    ensures PlainGroup(t, g)
  {
    var a, b, c, d := t[4 * g], t[4 * g + 1], t[4 * g + 2], t[4 * g + 3];
    JoinedZero(DigitValue(Intended, a), DigitValue(Intended, b), DigitValue(Intended, c), DigitValue(Intended, d));
    LossyValue(Intended, a);
    LossyValue(Intended, b);
    LossyValue(Intended, c);
    LossyValue(Intended, d);
  }

  lemma EncodedGroup(s: seq<byte>, t: string, g: nat)
    requires IsEncoding(s, t) && g < Groups(s)
    ensures |t| == 4 * Groups(s) && NumberAt(Intended, t, g) == Group(s, g)
    ensures t[4 * g] != '=' && t[4 * g + 1] != '=' && (t[4 * g + 2] == '=' ==> t[4 * g + 3] == '=')
    ensures t[4 * g + 3] == '=' <==> |s| <= 3 * g + 2
  {
    TextGroup(s, t, Groups(s), g);
  }

  lemma EncodedAlphabet(s: seq<byte>, t: string, g: nat)
    requires IsEncoding(s, t) && g < Groups(s)
    ensures |t| == 4 * Groups(s)
    ensures InAlphabet(t[4 * g]) && InAlphabet(t[4 * g + 1]) && InAlphabet(t[4 * g + 2]) && InAlphabet(t[4 * g + 3])
  {
    TextGroup(s, t, Groups(s), g);
  }

  /** Every encoding passes the checks of Decrypt. */
  lemma EncodingAccepted(s: seq<byte>, t: string)
    requires s != [] && IsEncoding(s, t)
    ensures |t| % 4 == 0 && forall k :: 0 <= k < |t| ==> InAlphabet(t[k])
  {
    GroupsOf(|s|, Groups(s));
    EncodedAlphabet(s, t, 0);
    forall k: nat | k < |t|
      ensures InAlphabet(t[k])
    {
      EncodedAlphabet(s, t, k / 4);
      assert k == 4 * (k / 4) || k == 4 * (k / 4) + 1 || k == 4 * (k / 4) + 2 || k == 4 * (k / 4) + 3;
    }
  }

  lemma GroupsOf(n: nat, m: nat)
    requires n > 0 && m == (n + 2) / 3
    ensures 3 * m - 3 < n <= 3 * m && m > 0 && (4 * m) % 4 == 0 && 4 * m / 4 == m
  {
  }

  /** Of an encoding, '=' is counted just when the last group is not full. */
  lemma EncodedEquals(s: seq<byte>, t: string)
    requires s != [] && IsEncoding(s, t)
    ensures HasGroups(t, Groups(s)) && |s| <= 3 * Groups(s) < |s| + 3
    ensures Equals(t) == if |s| == 3 * Groups(s) then 0 else 1
  {
    GroupsOf(|s|, Groups(s));
    EncodedGroup(s, t, Groups(s) - 1);
    if |s| == 3 * Groups(s) {
      forall k: nat | k < |t|
        ensures t[k] != '='
      {
        EncodedGroup(s, t, k / 4);
        assert k == 4 * (k / 4) || k == 4 * (k / 4) + 1 || k == 4 * (k / 4) + 2 || k == 4 * (k / 4) + 3;
      }
    }
  }

  lemma PlainByGroup(t: string, n: nat)
    requires |t| == 4 * n
    ensures Lossless(t) <==> forall g: nat :: g < n ==> PlainGroup(t, g)
  {
    if forall g: nat :: g < n ==> PlainGroup(t, g) {
      forall k | 0 <= k < |t|
        ensures Plain(t[k])
      {
        assert PlainGroup(t, k / 4);
        assert k == 4 * (k / 4) || k == 4 * (k / 4) + 1 || k == 4 * (k / 4) + 2 || k == 4 * (k / 4) + 3;
      }
    }
  }

  /** `o` is the input followed by nothing but zeros. */
  ghost predicate Restored(s: seq<byte>, o: seq<byte>) {
    |s| < |o| && forall k: nat :: Octet(o, k) == Octet(s, k)
  }

  lemma RestoredByGroup(s: seq<byte>, o: seq<byte>, n: nat)
    requires |s| < |o| && |s| <= 3 * n && |o| <= 3 * n + 1 && o[|o| - 1] == 0
    ensures Restored(s, o) <==> forall g: nat :: g < n ==> Group(o, g) == Group(s, g)
  {
    if forall g: nat :: g < n ==> Group(o, g) == Group(s, g) {
      forall k: nat
        ensures Octet(o, k) == Octet(s, k)
      {
        if k < 3 * n {
          var g := k / 3;
          assert Group(o, g) == Group(s, g);
          BitsUnique(Octet(o, 3 * g), Octet(o, 3 * g + 1), Octet(o, 3 * g + 2),
                     Octet(s, 3 * g), Octet(s, 3 * g + 1), Octet(s, 3 * g + 2));
          assert k == 3 * g || k == 3 * g + 1 || k == 3 * g + 2;
        }
      }
    }
  }

  /** What an encoding of `n` groups gives, without divisions. */
  ghost predicate Encodes(s: seq<byte>, t: string, n: nat) {
    && HasGroups(t, n) && 3 * n - 3 < |s| <= 3 * n && Equals(t) == (if |s| == 3 * n then 0 else 1)
    && forall g: nat :: g < n ==> NumberAt(Intended, t, g) == Group(s, g)
  }

  lemma EncodesOf(s: seq<byte>, t: string)
    requires s != [] && IsEncoding(s, t)
    ensures Encodes(s, t, Groups(s))
  {
    EncodedEquals(s, t);
    forall g: nat | g < Groups(s)
      ensures NumberAt(Intended, t, g) == Group(s, g)
    {
      EncodedGroup(s, t, g);
    }
  }

  /** Whether group `g` of `n` comes back: when no digit of it is lost or, for a group that goes undecoded
      because its index is cut, when it is all zero. */
  predicate Returns(form: Form, s: seq<byte>, t: string, n: nat, g: nat)
    requires 4 * g + 4 <= |t|
  {
    if form.Written? && n > 256 && g + 1 == n then Group(s, g) == 0 else form.Intended? || PlainGroup(t, g)
  }

  lemma GroupReturns(form: Form, s: seq<byte>, t: string, o: seq<byte>, n: nat, g: nat)
    requires Encodes(s, t, n) && HoldsGroups(form, t, n, o) && g < n
    ensures Group(o, g) == Group(s, g) <==> Returns(form, s, t, n, g)
  {
    assert NumberAt(Intended, t, g) == Group(s, g);
    if g < n - 1 {
      assert Group(o, g) == NumberAt(form, t, g);
      ReadIs(form, s, t, g);
    } else {
      LastGroupReturns(form, s, t, o, n, g);
    }
  }

  lemma LastGroupReturns(form: Form, s: seq<byte>, t: string, o: seq<byte>, n: nat, g: nat)
    requires n == g + 1 && |t| == 4 * n && NumberAt(Intended, t, g) == Group(s, g)
    requires |s| <= 3 * n && Equals(t) == (if |s| == 3 * n then 0 else 1)
    requires |o| == 3 * n - Equals(t) + 1 && o[|o| - 1] == 0 && IsLast(form, t, n, Group(o, g))
    ensures Group(o, g) == Group(s, g) <==> Returns(form, s, t, n, g)
  {
    ThirdOctets(s, o, g, Equals(t));
    CutIff(form, n);
    LastReturns(form, s, t, o, n, g, Equals(t));
  }

  /** Where '=' is counted, the last group has no third octet. */
  lemma ThirdOctets(s: seq<byte>, o: seq<byte>, g: nat, e: nat)
    requires |s| <= 3 * g + 3 && e == (if |s| == 3 * g + 3 then 0 else 1)
    requires |o| == 3 * g + 4 - e && o[|o| - 1] == 0
    ensures e == 1 ==> Octet(s, 3 * g + 2) == 0 && Octet(o, 3 * g + 2) == 0
  {
  }

  lemma LastReturns(form: Form, s: seq<byte>, t: string, o: seq<byte>, n: nat, g: nat, e: nat)
    requires n == g + 1 && 4 * g + 4 <= |t| && NumberAt(Intended, t, g) == Group(s, g)
    requires e <= 1 && LastFrom(form.Written? && n > 256, e, NumberAt(form, t, g), Group(o, g))
    requires e == 1 ==> Octet(s, 3 * g + 2) == 0 && Octet(o, 3 * g + 2) == 0
    ensures Group(o, g) == Group(s, g) <==> Returns(form, s, t, n, g)
  {
    if form.Intended? || n <= 256 {
      if e == 1 {
        TwoReturn(form, s, t, o, g);
      } else {
        ReadIs(form, s, t, g);
      }
    }
  }

  /** A last group of two octets. */
  lemma TwoReturn(form: Form, s: seq<byte>, t: string, o: seq<byte>, g: nat)
    requires 4 * g + 4 <= |t| && NumberAt(Intended, t, g) == Group(s, g)
    requires Group(o, g) <= NumberAt(form, t, g) < Group(o, g) + 256
    requires Octet(s, 3 * g + 2) == 0 && Octet(o, 3 * g + 2) == 0
    ensures Group(o, g) == Group(s, g) <==> form.Intended? || PlainGroup(t, g)
  {
    ReadIs(form, s, t, g);
    EvenGroup(o, g);
    EvenGroup(s, g);
    SameMultiple(Group(o, g), Group(s, g), NumberAt(form, t, g));
  }

  /** The digits of a group are read as its number or less, and as less exactly if one is lost. */
  lemma ReadIs(form: Form, s: seq<byte>, t: string, g: nat)
    requires 4 * g + 4 <= |t| && NumberAt(Intended, t, g) == Group(s, g)
    ensures NumberAt(form, t, g) <= Group(s, g)
    ensures NumberAt(form, t, g) == Group(s, g) <==> form.Intended? || PlainGroup(t, g)
  {
    LossyLess(form, t, g);
    LossySame(form, t, g);
  }

  lemma SameMultiple(o: nat, s: nat, read: nat)
    requires o <= read < o + 256 && read <= s && o % 256 == 0 && s % 256 == 0
    ensures o == s <==> read == s
  {
    assert o == 256 * (o / 256) && s == 256 * (s / 256);
  }

  lemma CutIff(form: Form, count: nat)
    requires count > 0
    ensures LastId(form, count) != count - 1 <==> form.Written? && count > 256
  {
  }

  lemma EvenGroup(o: seq<byte>, g: nat)
    requires Octet(o, 3 * g + 2) == 0
    ensures Group(o, g) % 256 == 0
  {
    var p := Octet(o, 3 * g) * 256 + Octet(o, 3 * g + 1);
    assert Group(o, g) == p * 256;
    QuotientUnique(Group(o, g), 256, p, 0);
  }

  lemma AllReturn(form: Form, s: seq<byte>, t: string, n: nat)
    requires n > 0 && |t| == 4 * n && NumberAt(Intended, t, n - 1) == Group(s, n - 1)
    ensures (forall g: nat :: g < n ==> Returns(form, s, t, n, g)) <==>
            form.Intended? || (Lossless(t) && (n <= 256 || Group(s, n - 1) == 0))
  {
    PlainByGroup(t, n);
    if Group(s, n - 1) == 0 {
      ZeroPlain(t, n - 1);
    }
    if forall g: nat :: g < n ==> Returns(form, s, t, n, g) {
      ReturnsArePlain(form, s, t, n);
    }
  }

  lemma ReturnsArePlain(form: Form, s: seq<byte>, t: string, n: nat)
    requires n > 0 && |t| == 4 * n && forall g: nat :: g < n ==> Returns(form, s, t, n, g)
    ensures form.Written? ==> n <= 256 || Group(s, n - 1) == 0
    ensures form.Written? ==>
              forall g: nat :: g < n && (g + 1 < n || Group(s, n - 1) != 0 || n <= 256) ==> PlainGroup(t, g)
  {
    assert Returns(form, s, t, n, n - 1);
    forall g: nat | g < n && form.Written? && (g + 1 < n || Group(s, n - 1) != 0 || n <= 256)
      ensures PlainGroup(t, g)
    {
      assert Returns(form, s, t, n, g);
    }
  }

  lemma RestoredIff(form: Form, s: seq<byte>, t: string, o: seq<byte>, n: nat)
    requires Encodes(s, t, n) && HoldsGroups(form, t, n, o)
    ensures Restored(s, o) <==> forall g: nat :: g < n ==> Returns(form, s, t, n, g)
  {
    RestoredByGroup(s, o, n);
    forall g: nat | g < n
      ensures Group(o, g) == Group(s, g) <==> Returns(form, s, t, n, g)
    {
      GroupReturns(form, s, t, o, n, g);
    }
  }

  /** Decoding an encoding gives the input followed by zeros only: always as intended, but as written
      exactly when the text holds neither '+' nor '/' and there are at most 256 groups or the last is all zero. */
  lemma RoundTrip(form: Form, s: seq<byte>, t: string, o: seq<byte>)
    requires s != [] && IsEncoding(s, t)
    ensures WholeGroups(t)
    ensures IsDecoding(form, t, o) ==>
              (Restored(s, o) <==>
               || form.Intended?
               || (Lossless(t) && (Groups(s) <= 256 || Group(s, Groups(s) - 1) == 0)))
  {
    EncodesOf(s, t);
    if IsDecoding(form, t, o) {
      RestoredIff(form, s, t, o, Groups(s));
      AllReturn(form, s, t, Groups(s));
    }
  }

  /** The buffer holds whole groups, less an octet if '=' is counted, and the final zero; so there is one zero too
      many behind an input of one octet more than whole groups. */
  lemma DecodedLength(form: Form, s: seq<byte>, t: string, o: seq<byte>)
    requires s != [] && IsEncoding(s, t) && WholeGroups(t) && IsDecoding(form, t, o)
    ensures |o| == if |s| == 3 * Groups(s) - 2 then |s| + 2 else |s| + 1
  {
    EncodesOf(s, t);
    LengthOf(form, s, t, o, Groups(s));
  }

  lemma LengthOf(form: Form, s: seq<byte>, t: string, o: seq<byte>, n: nat)
    requires Encodes(s, t, n) && HoldsGroups(form, t, n, o)
    ensures |o| == if |s| == 3 * n - 2 then |s| + 2 else |s| + 1
  {
  }
}
