/**
 * The two Kotlin string operations the core relies on: `trim()` and
 * `contains(other, ignoreCase = true)`, both restricted to ASCII.
 */
module Text {

  /** Kotlin `Char.isWhitespace()` on the ASCII range: space, tab, line
      feed, vertical tab, form feed, carriage return and U+001C..U+001F. */
  predicate IsWhitespace(c: char) {
    c == ' ' || c == '\t' || c == '\n' || c == '\U{000B}' || c == '\U{000C}' || c == '\r'
    || ('\U{001C}' <= c <= '\U{001F}')
  }

  /** Drops the leading whitespace of `s`. */
  function TrimStart(s: string): (r: string)
    ensures |r| <= |s|
    ensures forall i | 0 <= i < |s| - |r| :: IsWhitespace(s[i])
    ensures r == [] || !IsWhitespace(r[0])
  {
    if s == [] || !IsWhitespace(s[0]) then s else TrimStart(s[1..])
  }

  /** Drops the trailing whitespace of `s`. */
  function TrimEnd(s: string): (r: string)
    ensures |r| <= |s|
    ensures forall i | |r| <= i < |s| :: IsWhitespace(s[i])
    ensures r == [] || !IsWhitespace(r[|r| - 1])
  {
    if s == [] || !IsWhitespace(s[|s| - 1]) then s else TrimEnd(s[..|s| - 1])
  }

  /** `r` is the slice of `s` that starts at `a`, and everything cut away on
      either side of it is whitespace. */
  predicate IsTrimmedSlice(s: string, a: nat, r: string) {
    a + |r| <= |s| && r == s[a..a + |r|] &&
    (forall i | 0 <= i < a :: IsWhitespace(s[i])) &&
    (forall i | a + |r| <= i < |s| :: IsWhitespace(s[i]))
  }

  /** Kotlin `String.trim()`: the longest slice of `s` that neither starts nor
      ends with whitespace, with only whitespace cut away on either side. */
  function Trim(s: string): (r: string)
    ensures r == [] <==> forall i | 0 <= i < |s| :: IsWhitespace(s[i])
    ensures r != [] ==> !IsWhitespace(r[0]) && !IsWhitespace(r[|r| - 1])
    ensures exists a: nat :: IsTrimmedSlice(s, a, r)
  {
    TrimOfBlank(s);
    TrimIsSlice(s);
    TrimEnd(TrimStart(s))
  }

  /** What `TrimStart` keeps is a suffix of its argument. */
  lemma {:induction false} TrimStartIsSuffix(s: string)
    ensures TrimStart(s) == s[|s| - |TrimStart(s)|..]
  {
    if s != [] && IsWhitespace(s[0]) {
      TrimStartIsSuffix(s[1..]);
    }
  }

  /** What `TrimEnd` keeps is a prefix of its argument. */
  lemma {:induction false} TrimEndIsPrefix(s: string)
    ensures TrimEnd(s) == s[..|TrimEnd(s)|]
  {
    if s != [] && IsWhitespace(s[|s| - 1]) {
      TrimEndIsPrefix(s[..|s| - 1]);
    }
  }

  lemma TrimOfBlank(s: string)
    ensures TrimEnd(TrimStart(s)) == [] <==> forall i | 0 <= i < |s| :: IsWhitespace(s[i])
  {
    var t := TrimStart(s);
    TrimStartIsSuffix(s);
    if TrimEnd(t) != [] {
      assert t[0] == s[|s| - |t|];
    }
  }

  lemma TrimIsSlice(s: string)
    ensures var r := TrimEnd(TrimStart(s));
      IsTrimmedSlice(s, |s| - |TrimStart(s)|, r) &&
      (r != [] ==> !IsWhitespace(r[0]))
  {
    var t := TrimStart(s);
    TrimStartIsSuffix(s);
    TrimEndIsPrefix(t);
    PrefixOfSuffix(s, |s| - |t|, t, TrimEnd(t));
  }

  /** A prefix `r` of the suffix `t` of `s` starting at `a` is the slice of
      `s` at `a`; what `t` has after `r` is what `s` has after it. */
  lemma PrefixOfSuffix(s: string, a: nat, t: string, r: string)
    requires a <= |s| && t == s[a..] && |r| <= |t| && r == t[..|r|]
    requires forall i | |r| <= i < |t| :: IsWhitespace(t[i])
    ensures a + |r| <= |s| && r == s[a..a + |r|]
    ensures forall i | a + |r| <= i < |s| :: IsWhitespace(s[i])
    ensures r != [] ==> r[0] == t[0]
  {
    forall i | a + |r| <= i < |s|
      ensures IsWhitespace(s[i])
    {
      assert s[i] == t[i - a];
    }
  }

  /** Trimming a trimmed string changes nothing. */
  lemma TrimIdempotent(s: string)
    ensures Trim(Trim(s)) == Trim(s)
  {
  }

  /** ASCII case folding: upper-case letters become lower-case, all other
      characters stay as they are. */
  function ToLowerAscii(c: char): (d: char)
    ensures !('A' <= d <= 'Z')
    ensures ('a' <= c <= 'z' || 'A' <= c <= 'Z') <==> ('a' <= d <= 'z')
  {
    if 'A' <= c <= 'Z' then (c as int + 32) as char else c
  }

  /** Two characters fold together exactly when they are equal or are the
      upper- and lower-case forms of the same ASCII letter. */
  lemma ToLowerAsciiSameFold(c: char, e: char)
    ensures ToLowerAscii(c) == ToLowerAscii(e) <==>
      c == e ||
      ('A' <= c <= 'Z' && e as int == c as int + 32) ||
      ('A' <= e <= 'Z' && c as int == e as int + 32)
  {
  }

  function Lower(s: string): (r: string)
    ensures |r| == |s|
    ensures forall i | 0 <= i < |s| :: r[i] == ToLowerAscii(s[i])
  {
    seq(|s|, i requires 0 <= i < |s| => ToLowerAscii(s[i]))
  }

  /** The `q`-long region of `s` at `i` equals `q` up to case. */
  predicate RegionMatchesIgnoreCase(s: string, i: nat, q: string)
    requires i + |q| <= |s|
  {
    forall k | 0 <= k < |q| :: ToLowerAscii(s[i + k]) == ToLowerAscii(q[k])
  }

  /** Kotlin `s.contains(q, ignoreCase = true)`: `q` occurs somewhere in `s`
      up to case. The empty query occurs at position 0 of every string. */
  predicate ContainsIgnoreCase(s: string, q: string) {
    exists i: nat | i + |q| <= |s| :: RegionMatchesIgnoreCase(s, i, q)
  }

  lemma ContainsEmpty(s: string)
    ensures ContainsIgnoreCase(s, "")
  {
    assert RegionMatchesIgnoreCase(s, 0, "");
  }

  /** A one-character query occurs only where that character, up to case,
      does. */
  lemma NotContainsChar(s: string, c: char)
    requires forall i | 0 <= i < |s| :: ToLowerAscii(s[i]) != ToLowerAscii(c)
    ensures !ContainsIgnoreCase(s, [c])
  {
    forall i: nat | i + 1 <= |s|
      ensures !RegionMatchesIgnoreCase(s, i, [c])
    {
      RegionOfOneChar(s, i, c);
    }
  }

  lemma RegionOfOneChar(s: string, i: nat, c: char)
    requires i + 1 <= |s|
    ensures RegionMatchesIgnoreCase(s, i, [c]) <==> ToLowerAscii(s[i]) == ToLowerAscii(c)
  {
    assert s[i + 0] == s[i] && [c][0] == c;
  }

  /** Ignoring case means that folding either argument to lower case first
      changes nothing. */
  lemma ContainsIgnoreCaseIsCaseBlind(s: string, q: string)
    ensures ContainsIgnoreCase(s, q) <==> ContainsIgnoreCase(Lower(s), Lower(q))
  {
    var ls, lq := Lower(s), Lower(q);
    forall i: nat | i + |q| <= |s|
      ensures RegionMatchesIgnoreCase(s, i, q) <==> RegionMatchesIgnoreCase(ls, i, lq)
    {
      forall k | 0 <= k < |q|
        ensures ToLowerAscii(ls[i + k]) == ToLowerAscii(s[i + k])
        ensures ToLowerAscii(lq[k]) == ToLowerAscii(q[k])
      {
      }
    }
    if ContainsIgnoreCase(ls, lq) {
      var i: nat :| i + |lq| <= |ls| && RegionMatchesIgnoreCase(ls, i, lq);
      assert RegionMatchesIgnoreCase(s, i, q);
    }
  }
}
