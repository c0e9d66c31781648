/** The two ways of splitting strings: bounded, at a delimiter; and into separator-free tokens. */
module StringSplit {
  // ---------------------------------------------------------------- bounded split

  /** The first position of `delimiter` from `left` on; the length if there is none. */
  function Find(s: string, delimiter: char, left: nat): (r: nat)
    requires left <= |s|
    ensures left <= r <= |s| && (forall k :: left <= k < r ==> s[k] != delimiter) && (r < |s| ==> s[r] == delimiter)
    decreases |s| - left
  {
    if left == |s| || s[left] == delimiter then left else Find(s, delimiter, left + 1)
  }

  function Joined(pieces: seq<string>, delimiter: char): string
    requires pieces != []
  {
    if |pieces| == 1 then pieces[0] else pieces[0] + [delimiter] + Joined(pieces[1..], delimiter)
  }

  /** A way of splitting `s` into at most `max` pieces: all but the last are free of the delimiter, and the
      last may hold it only if there are `max` pieces. */
  predicate IsSplit(s: string, delimiter: char, max: nat, pieces: seq<string>) {
    && 1 <= |pieces| <= (if max == 0 then 1 else max)
    && Joined(pieces, delimiter) == s
    && (forall i :: 0 <= i < |pieces| - 1 ==> delimiter !in pieces[i])
    && (delimiter in pieces[|pieces| - 1] ==> |pieces| >= max)
  }

  method Split(s: string, delimiter: char, maxSegments: nat) returns (output: seq<string>, n: nat)
    ensures IsSplit(s, delimiter, maxSegments, output)
    ensures n == |output|
  {
    var left := 0;
    n := 1;
    output := [];
    while n < maxSegments
      invariant 1 <= n == |output| + 1 && (n <= maxSegments || n == 1) && left <= |s|
      invariant CutOff(s, delimiter, output, left)
      decreases maxSegments - n
    {
      var right := Find(s, delimiter, left);
      if right == |s| {
        break;
      }
      CutNext(s, delimiter, output, left, right);
      output := output + [s[left..right]];
      left := right + 1;
      n := n + 1;
    }
    Finished(s, delimiter, maxSegments, output, left);
    output := output + [s[left..]];
  }

  /** The pieces cut off so far, up to `left`. */
  predicate CutOff(s: string, delimiter: char, pieces: seq<string>, left: nat)
    requires left <= |s|
  {
    Joined(pieces + [s[left..]], delimiter) == s && forall i :: 0 <= i < |pieces| ==> delimiter !in pieces[i]
  }

  lemma CutNext(s: string, delimiter: char, pieces: seq<string>, left: nat, right: nat)
    requires left <= right < |s| && CutOff(s, delimiter, pieces, left)
    requires s[right] == delimiter && forall k :: left <= k < right ==> s[k] != delimiter
    ensures CutOff(s, delimiter, pieces + [s[left..right]], right + 1)
  {
    var a, b := s[left..right], s[right + 1..];
    JoinedMore(pieces, a, b, delimiter);
    assert a + [delimiter] + b == s[left..];
  }

  lemma Finished(s: string, delimiter: char, max: nat, pieces: seq<string>, left: nat)
    requires left <= |s| && CutOff(s, delimiter, pieces, left) && |pieces| + 1 <= (if max == 0 then 1 else max)
    requires |pieces| + 1 >= max || Find(s, delimiter, left) == |s|
    ensures IsSplit(s, delimiter, max, pieces + [s[left..]])
  {
  }

  lemma {:induction false} JoinedMore(pieces: seq<string>, a: string, b: string, delimiter: char)
    ensures Joined(pieces + [a, b], delimiter) == Joined(pieces + [a + [delimiter] + b], delimiter)
    ensures pieces + [a, b] == pieces + [a] + [b]
  {
    if pieces == [] {
      assert [a, b][1..] == [b];
    } else {
      JoinedMore(pieces[1..], a, b, delimiter);
      assert (pieces + [a, b])[1..] == pieces[1..] + [a, b];
      assert (pieces + [a + [delimiter] + b])[1..] == pieces[1..] + [a + [delimiter] + b];
    }
  }

  /** There is only one such split. */
  lemma {:induction false} SplitIsUnique(s: string, delimiter: char, max: nat, p: seq<string>, q: seq<string>)
    requires IsSplit(s, delimiter, max, p) && IsSplit(s, delimiter, max, q)
    ensures p == q
    decreases |p|
  {
    SameCount(s, delimiter, max, p, q);
    SameCount(s, delimiter, max, q, p);
    if |p| > 1 {
      HeadOfJoined(p, delimiter, s);
      HeadOfJoined(q, delimiter, s);
      var rest := s[|p[0]| + 1..];
      assert IsSplit(rest, delimiter, max - 1, p[1..]);
      assert IsSplit(rest, delimiter, max - 1, q[1..]);
      SplitIsUnique(rest, delimiter, max - 1, p[1..], q[1..]);
      assert p == [p[0]] + p[1..] && q == [q[0]] + q[1..];
    }
  }

  lemma SameCount(s: string, delimiter: char, max: nat, p: seq<string>, q: seq<string>)
    requires IsSplit(s, delimiter, max, p) && IsSplit(s, delimiter, max, q)
    ensures |p| > 1 ==> |q| > 1
  {
    if |p| > 1 {
      HeadOfJoined(p, delimiter, s);
      assert delimiter in s;
    }
  }

  lemma HeadOfJoined(p: seq<string>, delimiter: char, s: string)
    requires |p| > 1 && Joined(p, delimiter) == s && delimiter !in p[0]
    ensures |p[0]| == Find(s, delimiter, 0) < |s| && s[..|p[0]|] == p[0]
    ensures s[|p[0]|] == delimiter && s[|p[0]| + 1..] == Joined(p[1..], delimiter)
  {
    var n, rest := |p[0]|, Joined(p[1..], delimiter);
    assert s == p[0] + [delimiter] + rest;
    assert s[..n] == p[0] && s[n] == delimiter && s[n + 1..] == rest;
    assert forall k :: 0 <= k < n ==> s[k] == p[0][k] && p[0][k] in p[0];
  }

  // ---------------------------------------------------------------- tokens

  /** The end of the stretch from `i` on whose characters are all separators, or all not. */
  function Span(s: string, seps: set<char>, i: nat, inside: bool): (j: nat)
    requires i <= |s|
    ensures i <= j <= |s| && (forall k :: i <= k < j ==> (s[k] in seps) == inside)
    ensures j < |s| ==> (s[j] in seps) != inside
    decreases |s| - i
  {
    if i == |s| || (s[i] in seps) != inside then i else Span(s, seps, i + 1, inside)
  }

  datatype Run = Run(lo: nat, hi: nat)

  /** A stretch without separators that can be extended neither way. */
  predicate IsMaximalRun(s: string, seps: set<char>, r: Run) {
    && r.lo < r.hi <= |s|
    && (forall k :: r.lo <= k < r.hi ==> s[k] !in seps)
    && (r.lo > 0 ==> s[r.lo - 1] in seps) && (r.hi < |s| ==> s[r.hi] in seps)
  }

  function Runs(s: string, seps: set<char>, i: nat): (runs: seq<Run>)
    requires i <= |s|
    ensures forall k :: 0 <= k < |runs| ==> runs[k].lo <= runs[k].hi <= |s|
    decreases |s| - i
  {
    var lo := Span(s, seps, i, true);
    if lo == |s| then []
    else
      var hi := Span(s, seps, lo, false);
      [Run(lo, hi)] + Runs(s, seps, hi)
  }

  /** From a place that does not cut a run, `Runs` lists the maximal runs, all of them, from left to right. */
  lemma {:induction false} RunsAreMaximal(s: string, seps: set<char>, i: nat)
    requires i <= |s| && (0 < i < |s| ==> s[i - 1] in seps || s[i] in seps)
    ensures var runs := Runs(s, seps, i);
            && (forall r :: r in runs <==> r.lo >= i && IsMaximalRun(s, seps, r))
            && (forall k :: 0 <= k < |runs| - 1 ==> runs[k].hi < runs[k + 1].lo)
    decreases |s| - i
  {
    var lo := Span(s, seps, i, true);
    if lo < |s| {
      var hi := Span(s, seps, lo, false);
      assert IsMaximalRun(s, seps, Run(lo, hi));
      RunsAreMaximal(s, seps, hi);
      RunsAhead(s, seps, i, lo, hi, Runs(s, seps, hi));
    } else {
      forall r: Run | r.lo >= i
        ensures !IsMaximalRun(s, seps, r)
      {
        NoRun(s, seps, i, r);
      }
    }
  }

  lemma RunsAhead(s: string, seps: set<char>, i: nat, lo: nat, hi: nat, rest: seq<Run>)
    requires i <= lo && IsMaximalRun(s, seps, Run(lo, hi)) && forall k :: i <= k < lo ==> s[k] in seps
    requires forall r :: r in rest <==> r.lo >= hi && IsMaximalRun(s, seps, r)
    requires forall k :: 0 <= k < |rest| - 1 ==> rest[k].hi < rest[k + 1].lo
    ensures var runs := [Run(lo, hi)] + rest;
            && (forall r :: r in runs <==> r.lo >= i && IsMaximalRun(s, seps, r))
            && (forall k :: 0 <= k < |runs| - 1 ==> runs[k].hi < runs[k + 1].lo)
  {
    forall r: Run | r.lo >= i && IsMaximalRun(s, seps, r)
      ensures r == Run(lo, hi) || r in rest
    {
      OnlyRun(s, seps, i, lo, hi, r);
    }
    if rest != [] {
      assert rest[0] in rest;
      Apart(s, seps, lo, hi, rest[0]);
    }
  }

  lemma Apart(s: string, seps: set<char>, lo: nat, hi: nat, r: Run)
    requires IsMaximalRun(s, seps, Run(lo, hi)) && IsMaximalRun(s, seps, r) && r.lo >= hi
    ensures hi < r.lo
  {
    var first := s[r.lo];
  }

  lemma NoRun(s: string, seps: set<char>, i: nat, r: Run)
    requires r.lo >= i && forall k :: i <= k < |s| ==> s[k] in seps
    ensures !IsMaximalRun(s, seps, r)
  {
    var first := if r.lo < |s| then s[r.lo] else ' ';
  }

  lemma OnlyRun(s: string, seps: set<char>, i: nat, lo: nat, hi: nat, r: Run)
    requires IsMaximalRun(s, seps, r) && IsMaximalRun(s, seps, Run(lo, hi)) && r.lo >= i
    requires forall k :: i <= k < lo ==> s[k] in seps
    ensures r == Run(lo, hi) || r.lo >= hi
  {
    var first, before := s[r.lo], if r.lo > 0 then s[r.lo - 1] else ' ';
    var behind, next := if r.hi < |s| then s[r.hi] else ' ', if hi < |s| then s[hi] else ' ';
  }

  /** strtok, from `i` on. */
  function Tokens(s: string, seps: set<char>, i: nat): (tokens: seq<string>)
    requires i <= |s|
    decreases |s| - i
  {
    var lo := Span(s, seps, i, true);
    if lo == |s| then []
    else
      var hi := Span(s, seps, lo, false);
      [s[lo..hi]] + Tokens(s, seps, hi)
  }

  /** The tokens are the maximal runs. */
  lemma {:induction false} TokensAreRuns(s: string, seps: set<char>, i: nat)
    requires i <= |s|
    ensures var tokens, runs := Tokens(s, seps, i), Runs(s, seps, i);
            |tokens| == |runs| && forall k :: 0 <= k < |runs| ==> tokens[k] == s[runs[k].lo..runs[k].hi]
    decreases |s| - i
  {
    var lo := Span(s, seps, i, true);
    if lo < |s| {
      TokensAreRuns(s, seps, Span(s, seps, lo, false));
    }
  }

  lemma TokensNext(s: string, seps: set<char>, i: nat, before: seq<string>)
    requires i <= |s| && Span(s, seps, i, true) < |s|
    ensures var lo := Span(s, seps, i, true);
            var hi := Span(s, seps, lo, false);
            lo < hi && before + Tokens(s, seps, i) == before + [s[lo..hi]] + Tokens(s, seps, hi)
  {
    var lo := Span(s, seps, i, true);
    var hi := Span(s, seps, lo, false);
    assert Tokens(s, seps, i) == [s[lo..hi]] + Tokens(s, seps, hi);
  }

  function CharsOf(delim: string): set<char> {
    set c | c in delim
  }

  method Tokenize(s: string, delim: string, num: int) returns (output: seq<string>)
    ensures var all := Tokens(s, set c | c in delim, 0);
            output == if delim == "" then [] else if num <= 0 || num >= |all| then all else all[..num]
  {
    output := [];
    if |s| == 0 || |delim| == 0 {
      return;
    }
    var seps := CharsOf(delim);
    var count, at := 0, 0;
    var lo := Span(s, seps, at, true);
    while lo < |s|
      invariant |output| == count && at <= lo <= |s| && lo == Span(s, seps, at, true)
      invariant output + Tokens(s, seps, at) == Tokens(s, seps, 0)
      invariant num <= 0 || count < num
      decreases |s| - lo
    {
      count := count + 1;
      var hi := Span(s, seps, lo, false);
      TokensNext(s, seps, at, output);
      output := output + [s[lo..hi]];
      at := hi;
      lo := Span(s, seps, at, true);
      if count == num {
        return;
      }
    }
  }

  // ---------------------------------------------------------------- tokens put together again

  predicate IsToken(t: string, seps: set<char>) {
    t != "" && forall k :: 0 <= k < |t| ==> t[k] !in seps
  }

  predicate AllTokens(ts: seq<string>, seps: set<char>) {
    ts == [] || (IsToken(ts[0], seps) && AllTokens(ts[1..], seps))
  }

  lemma {:induction false} AreTokens(ts: seq<string>, seps: set<char>)
    requires forall k :: 0 <= k < |ts| ==> IsToken(ts[k], seps)
    ensures AllTokens(ts, seps)
  {
    if ts != [] {
      AreTokens(ts[1..], seps);
    }
  }

  /** Joining tokens with one separator and splitting again gives the same tokens. */
  lemma TokensOfJoined(ts: seq<string>, sep: char, seps: set<char>)
    requires ts != [] && sep in seps && forall k :: 0 <= k < |ts| ==> IsToken(ts[k], seps)
    ensures Tokens(Joined(ts, sep), seps, 0) == ts
  {
    AreTokens(ts, seps);
    TokensFrom(ts, sep, seps, "", Joined(ts, sep));
  }

  lemma {:induction false} TokensFrom(ts: seq<string>, sep: char, seps: set<char>, before: string, s: string)
    requires ts != [] && sep in seps && AllTokens(ts, seps) && s == before + Joined(ts, sep)
    ensures Tokens(s, seps, |before|) == ts
    decreases |ts|
  {
    var t, rest := ts[0], ts[1..];
    if rest == [] {
      LastToken(s, seps, before, t);
    } else {
      HeadToken(t, sep, Joined(rest, sep), seps, before, s);
      TokensFrom(rest, sep, seps, before + t + [sep], s);
    }
    assert ts == [t] + rest;
  }

  lemma HeadToken(t: string, sep: char, rest: string, seps: set<char>, before: string, s: string)
    requires sep in seps && IsToken(t, seps) && s == before + (t + [sep] + rest)
    ensures var done := before + t + [sep];
            s == done + rest && Tokens(s, seps, |before|) == [t] + Tokens(s, seps, |done|)
  {
    HeadAt(t, sep, rest, before, s);
    NextToken(s, seps, |before|, t, |before + t + [sep]|);
  }

  lemma LastToken(s: string, seps: set<char>, before: string, t: string)
    requires IsToken(t, seps) && s == before + t
    ensures Tokens(s, seps, |before|) == [t]
  {
    var i := |before|;
    assert s[i..|s|] == t;
    TokenFirst(s, seps, i, t, |s|);
  }

  lemma NextToken(s: string, seps: set<char>, i: nat, t: string, next: nat)
    requires IsToken(t, seps) && next == i + |t| + 1 <= |s| && s[i..i + |t|] == t && s[i + |t|] in seps
    ensures Tokens(s, seps, i) == [t] + Tokens(s, seps, next)
  {
    TokenFirst(s, seps, i, t, next - 1);
    SkipOne(s, seps, next - 1, next);
  }

  lemma HeadAt(t: string, sep: char, rest: string, before: string, s: string)
    requires s == before + (t + [sep] + rest)
    ensures var i, done := |before|, before + t + [sep];
            && s == done + rest && |done| == i + |t| + 1 <= |s|
            && s[i..i + |t|] == t && s[i + |t|] == sep
  {
  }

  lemma TokenFirst(s: string, seps: set<char>, i: nat, t: string, hi: nat)
    requires IsToken(t, seps) && hi == i + |t| <= |s| && s[i..hi] == t
    requires hi < |s| ==> s[hi] in seps
    ensures Tokens(s, seps, i) == [t] + Tokens(s, seps, hi)
  {
    assert forall k :: i <= k < hi ==> s[k] == t[k - i];
    SpanIs(s, seps, i, hi, false);
    SpanIs(s, seps, i, i, true);
  }

  lemma SkipOne(s: string, seps: set<char>, i: nat, next: nat)
    requires i < |s| && s[i] in seps && next == i + 1
    ensures Tokens(s, seps, i) == Tokens(s, seps, next)
  {
  }

  lemma {:induction false} SpanIs(s: string, seps: set<char>, i: nat, j: nat, inside: bool)
    requires i <= j <= |s| && (forall k :: i <= k < j ==> (s[k] in seps) == inside)
    requires j < |s| ==> (s[j] in seps) != inside
    ensures Span(s, seps, i, inside) == j
    decreases j - i
  {
    if i < j {
      SpanIs(s, seps, i + 1, j, inside);
    }
  }
}
