/**
 The two text helpers of Go's `strings` package that the netutil parsers rely on,
 `TrimSpace` and `Split` (with a one-character separator), together with `Join`, the
 reference against which the result of `Split` is stated.

 Strings are sequences of Unicode scalar values; the byte-level UTF-8 decoding Go
 performs (and its treatment of invalid encodings) is not modelled.
 */
module Strings {

  /** Go's `unicode.IsSpace`: the six ASCII spaces, NEL, NO-BREAK SPACE and the
      other characters with the Unicode White_Space property. */
  predicate IsSpace(c: char) {
    || c == '\t' || c == '\n' || c == '\U{B}' || c == '\U{C}' || c == '\r' || c == ' '
    || c == '\U{85}' || c == '\U{A0}' || c == '\U{1680}'
    || ('\U{2000}' <= c <= '\U{200A}')
    || c == '\U{2028}' || c == '\U{2029}' || c == '\U{202F}' || c == '\U{205F}'
    || c == '\U{3000}'
  }

  predicate AllSpace(s: string) {
    forall i :: 0 <= i < |s| ==> IsSpace(s[i])
  }

  /** Neither end of `s` is white space. */
  predicate Trimmed(s: string) {
    s == [] || (!IsSpace(s[0]) && !IsSpace(s[|s| - 1]))
  }

  /** `s` is `core` with only white space around it. */
  ghost predicate PaddedBy(s: string, core: string) {
    exists lo :: 0 <= lo <= |s| - |core| && s[lo..lo + |core|] == core
                 && AllSpace(s[..lo]) && AllSpace(s[lo + |core|..])
  }

  /** How many white-space characters `s` starts with. */
  function LeadingSpaces(s: string): (n: nat)
    ensures n <= |s|
    ensures forall i :: 0 <= i < n ==> IsSpace(s[i])
    ensures n < |s| ==> !IsSpace(s[n])
  {
    if |s| > 0 && IsSpace(s[0]) then
      var n := 1 + LeadingSpaces(s[1..]);
      assert forall i :: 1 <= i < n ==> s[i] == s[1..][i - 1];
      n
    else
      0
  }

  /** How many white-space characters `s` ends with. */
  function TrailingSpaces(s: string): (n: nat)
    ensures n <= |s|
    ensures forall i :: |s| - n <= i < |s| ==> IsSpace(s[i])
    ensures n < |s| ==> !IsSpace(s[|s| - n - 1])
  {
    if |s| > 0 && IsSpace(s[|s| - 1]) then
      var n := 1 + TrailingSpaces(s[..|s| - 1]);
      assert forall i :: |s| - n <= i < |s| - 1 ==> s[i] == s[..|s| - 1][i];
      n
    else
      0
  }

  /** Go's `strings.TrimSpace`: the longest middle part of `s` that neither starts nor
      ends with white space; empty exactly when `s` is all white space. */
  function TrimSpace(s: string): (r: string)
    ensures Trimmed(r)
    ensures PaddedBy(s, r)
    ensures r == [] <==> AllSpace(s)
  {
    var lo := LeadingSpaces(s);
    var hi := if lo == |s| then lo else |s| - TrailingSpaces(s);
    assert lo < |s| ==> !IsSpace(s[lo]) && lo < hi;
    TrimmedBetween(s, lo, hi);
    s[lo..hi]
  }

  /** The part of `s` between an all-space prefix and an all-space suffix, when it is
      empty or neither starts nor ends with white space, is what trimming promises. */
  lemma TrimmedBetween(s: string, lo: nat, hi: nat)
    requires lo <= hi <= |s|
    requires forall i :: 0 <= i < lo ==> IsSpace(s[i])
    requires forall i :: hi <= i < |s| ==> IsSpace(s[i])
    requires lo < hi ==> !IsSpace(s[lo]) && !IsSpace(s[hi - 1])
    ensures Trimmed(s[lo..hi])
    ensures PaddedBy(s, s[lo..hi])
    ensures s[lo..hi] == [] <==> AllSpace(s)
  {
    var r := s[lo..hi];
    assert s[lo..lo + |r|] == r;
    assert AllSpace(s[..lo]) by {
      assert forall i :: 0 <= i < lo ==> s[..lo][i] == s[i];
    }
    assert AllSpace(s[hi..]) by {
      assert forall i :: 0 <= i < |s| - hi ==> s[hi..][i] == s[hi + i];
    }
    if lo < hi {
      assert r[0] == s[lo] && r[|r| - 1] == s[hi - 1];
    }
  }

  /** Go's `strings.Join` with a one-character separator. */
  function Join(parts: seq<string>, sep: char): string
  {
    if |parts| == 0 then []
    else if |parts| == 1 then parts[0]
    else parts[0] + [sep] + Join(parts[1..], sep)
  }

  /** Go's `strings.Split` with a one-character separator: one piece more than there
      are separators, no piece holds the separator, and joining the pieces gives back
      `s`. Even the empty string splits into one (empty) piece. */
  function Split(s: string, sep: char): (r: seq<string>)
    ensures |r| == multiset(s)[sep] + 1
    ensures forall k :: 0 <= k < |r| ==> sep !in r[k]
    ensures Join(r, sep) == s
  {
    if |s| == 0 then [[]]
    else
      var rest := Split(s[1..], sep);
      if s[0] == sep then
        SplitAtSeparator(s, sep, rest);
        [[]] + rest
      else
        SplitInsidePiece(s, sep, rest);
        [[s[0]] + rest[0]] + rest[1..]
  }

  /** The pieces of `s` when it starts with the separator, from those of `s[1..]`. */
  lemma SplitAtSeparator(s: string, sep: char, rest: seq<string>)
    requires |s| > 0 && s[0] == sep
    requires |rest| == multiset(s[1..])[sep] + 1
    requires forall k :: 0 <= k < |rest| ==> sep !in rest[k]
    requires Join(rest, sep) == s[1..]
    ensures |[[]] + rest| == multiset(s)[sep] + 1
    ensures forall k :: 0 <= k < |[[]] + rest| ==> sep !in ([[]] + rest)[k]
    ensures Join([[]] + rest, sep) == s
  {
    var r := [[]] + rest;
    SplitCountStep(s, sep);
    JoinCons([], rest, sep);
    assert s == [sep] + s[1..];
    assert forall k :: 1 <= k < |r| ==> r[k] == rest[k - 1];
  }

  /** The pieces of `s` when it starts with another character, from those of `s[1..]`. */
  lemma SplitInsidePiece(s: string, sep: char, rest: seq<string>)
    requires |s| > 0 && s[0] != sep
    requires |rest| == multiset(s[1..])[sep] + 1
    requires forall k :: 0 <= k < |rest| ==> sep !in rest[k]
    requires Join(rest, sep) == s[1..]
    ensures var r := [[s[0]] + rest[0]] + rest[1..];
            |r| == multiset(s)[sep] + 1 && (forall k :: 0 <= k < |r| ==> sep !in r[k])
            && Join(r, sep) == s
  {
    var r := [[s[0]] + rest[0]] + rest[1..];
    SplitCountStep(s, sep);
    JoinExtendHead(s[0], rest, sep);
    assert s == [s[0]] + s[1..];
    assert sep !in [s[0]] + rest[0];
    assert forall k :: 1 <= k < |r| ==> r[k] == rest[k];
  }

  lemma SplitCountStep(s: string, sep: char)
    requires |s| > 0
    ensures multiset(s)[sep] == multiset(s[1..])[sep] + (if s[0] == sep then 1 else 0)
  {
    assert s == [s[0]] + s[1..];
    assert multiset(s) == multiset{s[0]} + multiset(s[1..]);
  }

  /** A first piece followed by more pieces is joined to them by one separator. */
  lemma JoinCons(head: string, rest: seq<string>, sep: char)
    requires |rest| > 0
    ensures Join([head] + rest, sep) == head + [sep] + Join(rest, sep)
  {
    assert ([head] + rest)[1..] == rest;
  }

  /** Prefixing the first piece prefixes the joined text. */
  lemma JoinExtendHead(c: char, rest: seq<string>, sep: char)
    requires |rest| > 0
    ensures Join([[c] + rest[0]] + rest[1..], sep) == [c] + Join(rest, sep)
  {
    var parts := [[c] + rest[0]] + rest[1..];
    assert parts[0] == [c] + rest[0] && parts[1..] == rest[1..];
    if |rest| > 1 {
      assert Join(rest, sep) == rest[0] + [sep] + Join(rest[1..], sep);
      assert Join(parts, sep) == ([c] + rest[0]) + [sep] + Join(rest[1..], sep);
    }
  }

  /** Splitting a string that has no separator yields the string itself. */
  lemma {:induction false} SplitNoSeparator(s: string, sep: char)
    requires sep !in s
    ensures Split(s, sep) == [s]
  {
    if |s| > 0 {
      assert sep !in s[1..];
      SplitNoSeparator(s[1..], sep);
    }
  }

  /** A separator-free prefix followed by the separator becomes a piece of its own. */
  lemma {:induction false} SplitAfterPiece(p: string, sep: char, t: string)
    requires sep !in p
    ensures Split(p + [sep] + t, sep) == [p] + Split(t, sep)
  {
    var s := p + [sep] + t;
    if |p| == 0 {
      assert s[0] == sep && s[1..] == t by {
        assert s == [sep] + t;
      }
    } else {
      var u := p[1..] + [sep] + t;
      assert s == [p[0]] + u && p == [p[0]] + p[1..];
      SplitAfterPiece(p[1..], sep, t);
      SplitPieceCons(p[0], u, sep, p[1..], Split(t, sep));
    }
  }

  /** A character other than the separator joins the first piece of what follows. */
  lemma SplitPieceCons(c: char, u: string, sep: char, q: string, tail: seq<string>)
    requires c != sep && Split(u, sep) == [q] + tail
    ensures Split([c] + u, sep) == [[c] + q] + tail
  {
    var s := [c] + u;
    assert s[0] == c && s[1..] == u;
    assert ([q] + tail)[1..] == tail;
  }

  /** `Split` undoes `Join` for separator-free pieces. */
  lemma {:induction false} SplitJoin(parts: seq<string>, sep: char)
    requires |parts| > 0
    requires forall k :: 0 <= k < |parts| ==> sep !in parts[k]
    ensures Split(Join(parts, sep), sep) == parts
  {
    if |parts| == 1 {
      SplitNoSeparator(parts[0], sep);
    } else {
      SplitJoin(parts[1..], sep);
      SplitAfterPiece(parts[0], sep, Join(parts[1..], sep));
      assert [parts[0]] + parts[1..] == parts;
    }
  }

  /** `LeadingSpaces` is the only count with its two properties. */
  lemma LeadingSpacesUnique(s: string, m: nat)
    requires m <= |s|
    requires forall i :: 0 <= i < m ==> IsSpace(s[i])
    requires m < |s| ==> !IsSpace(s[m])
    ensures LeadingSpaces(s) == m
  {
  }

  /** `TrailingSpaces` is the only count with its two properties. */
  lemma TrailingSpacesUnique(s: string, m: nat)
    requires m <= |s|
    requires forall i :: |s| - m <= i < |s| ==> IsSpace(s[i])
    requires m < |s| ==> !IsSpace(s[|s| - m - 1])
    ensures TrailingSpaces(s) == m
  {
  }

  /** `TrimSpace` removes exactly the white space around a trimmed core. */
  lemma TrimSpaceOf(a: string, t: string, b: string)
    requires AllSpace(a) && AllSpace(b) && Trimmed(t)
    ensures TrimSpace(a + t + b) == t
  {
    var s := a + t + b;
    if t == [] {
      assert s == a + b;
      assert AllSpace(s);
    } else {
      assert LeadingSpaces(s) == |a| by {
        assert forall i :: 0 <= i < |a| ==> s[i] == a[i];
        assert s[|a|] == t[0];
        LeadingSpacesUnique(s, |a|);
      }
      assert TrailingSpaces(s) == |b| by {
        assert forall i :: |s| - |b| <= i < |s| ==> s[i] == b[i - |a| - |t|];
        assert s[|s| - |b| - 1] == t[|t| - 1];
        TrailingSpacesUnique(s, |b|);
      }
      assert s[|a|..|a| + |t|] == t;
    }
  }

  lemma Around(s: string, lo: nat, t: string)
    requires lo + |t| <= |s| && s[lo..lo + |t|] == t
    ensures s == s[..lo] + t + s[lo + |t|..]
  {
    assert s[lo..] == t + s[lo + |t|..];
    assert s == s[..lo] + s[lo..];
  }

  /** The reverse of `TrimSpace`'s contract: a trimmed core padded by white space is
      what `TrimSpace` returns, so the padding characterises the result completely. */
  lemma TrimSpaceUnique(s: string, t: string)
    requires Trimmed(t) && PaddedBy(s, t)
    ensures TrimSpace(s) == t
  {
    var lo :| 0 <= lo <= |s| - |t| && s[lo..lo + |t|] == t
              && AllSpace(s[..lo]) && AllSpace(s[lo + |t|..]);
    Around(s, lo, t);
    TrimSpaceOf(s[..lo], t, s[lo + |t|..]);
  }

  /** For a core that neither starts nor ends with white space, trimming yields that
      core exactly when the input is the core padded by white space. */
  lemma TrimSpaceIff(s: string, t: string)
    requires Trimmed(t)
    ensures TrimSpace(s) == t <==> PaddedBy(s, t)
  {
    if PaddedBy(s, t) {
      TrimSpaceUnique(s, t);
    }
  }

  /** Trimming twice is trimming once. */
  lemma TrimSpaceIdempotent(s: string)
    ensures TrimSpace(TrimSpace(s)) == TrimSpace(s)
  {
    var t := TrimSpace(s);
    assert [] + t + [] == t;
    TrimSpaceOf([], t, []);
  }
}
