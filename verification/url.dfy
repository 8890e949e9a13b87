/**
 * `isValidUrl`: a full match of the regular expression
 *
 *     ^(https?://)([a-zA-Z0-9\-]+\.)+[a-zA-Z]{2,}(/\S*)?$
 *
 * given twice, once as a declarative "there is a split of the string into
 * scheme, dotted labels, top-level domain and path" and once as an
 * executable recogniser, with a proof that the two agree.
 */
module UrlPattern {
  import opened Resources

  /** `[a-zA-Z]` */
  predicate IsAsciiLetter(c: char) {
    'a' <= c <= 'z' || 'A' <= c <= 'Z'
  }

  /** `[a-zA-Z0-9\-]` */
  predicate IsLabelChar(c: char) {
    IsAsciiLetter(c) || '0' <= c <= '9' || c == '-'
  }

  /** The regular-expression class `\s` (space, tab, line feed, vertical tab,
      form feed, carriage return); `\S` is its complement. */
  predicate IsRegexSpace(c: char) {
    c == ' ' || c == '\t' || c == '\n' || c == '\U{000B}' || c == '\U{000C}' || c == '\r'
  }

  // ---------------------------------------------------------------------
  // The pattern, one group at a time

  /** `https?://` */
  predicate IsScheme(p: string) {
    p == "http://" || p == "https://"
  }

  /** `[a-zA-Z0-9\-]+` */
  predicate IsLabel(t: string) {
    |t| > 0 && forall i | 0 <= i < |t| :: IsLabelChar(t[i])
  }

  /** `([a-zA-Z0-9\-]+\.)+`: a label and a dot, then either nothing or more
      of the same. */
  ghost predicate IsDottedLabels(t: string)
    decreases |t|
  {
    exists m: nat | LabelDotAt(t, m) :: m + 1 == |t| || IsDottedLabels(t[m + 1..])
  }

  /** `t` starts with an `m`-character label followed by a dot. */
  predicate LabelDotAt(t: string, m: nat) {
    m < |t| && IsLabel(t[..m]) && t[m] == '.'
  }

  /** `[a-zA-Z]{2,}` */
  predicate IsTld(t: string) {
    |t| >= 2 && forall i | 0 <= i < |t| :: IsAsciiLetter(t[i])
  }

  /** `(/\S*)?` */
  predicate IsPath(t: string) {
    t == [] || (t[0] == '/' && forall i | 1 <= i < |t| :: !IsRegexSpace(t[i]))
  }

  /** `s` splits at `i`, `j`, `k` into scheme, dotted labels, top-level
      domain and path. */
  ghost predicate SplitsAt(s: string, i: nat, j: nat, k: nat) {
    i <= j <= k <= |s| &&
    IsScheme(s[..i]) && IsDottedLabels(s[i..j]) && IsTld(s[j..k]) && IsPath(s[k..])
  }

  /** The whole of `s` matches the pattern. */
  ghost predicate MatchesUrlPattern(s: string) {
    exists i: nat, j: nat, k: nat :: SplitsAt(s, i, j, k)
  }

  // ---------------------------------------------------------------------
  // The recogniser

  /** Length of the `https://` or `http://` prefix of `s`, or 0 when `s`
      starts with neither. */
  function SchemeLength(s: string): (n: nat)
    ensures n == 0 || n == 7 || n == 8
    ensures n > 0 ==> n <= |s| && IsScheme(s[..n])
  {
    if |s| >= 8 && s[..8] == "https://" then 8
    else if |s| >= 7 && s[..7] == "http://" then 7
    else 0
  }

  /** At most one prefix of `s` is a scheme, and `SchemeLength` finds it. */
  lemma SchemeLengthUnique(s: string, i: nat)
    requires i <= |s| && IsScheme(s[..i])
    ensures i == SchemeLength(s)
  {
    if |s| >= 8 && s[..8] == "https://" {
      assert s[4] == s[..8][4] == 's';
      assert s[..i][4] == s[4];
    }
  }

  /** Index of the first `c` in `s`, or `|s|` when `s` has none. */
  function IndexOfOrEnd(s: string, c: char): (k: nat)
    ensures k <= |s|
    ensures forall i | 0 <= i < k :: s[i] != c
    ensures k < |s| ==> s[k] == c
  {
    if s == [] || s[0] == c then 0 else 1 + IndexOfOrEnd(s[1..], c)
  }

  /** Index of the last `c` in `s`, if there is one. */
  function LastIndexOf(s: string, c: char): (r: Option<nat>)
    ensures r.Some? ==> r.value < |s| && s[r.value] == c
    ensures r.Some? ==> forall i | r.value < i < |s| :: s[i] != c
    ensures r.None? ==> forall i | 0 <= i < |s| :: s[i] != c
  {
    if s == [] then None
    else if s[|s| - 1] == c then Some(|s| - 1)
    else LastIndexOf(s[..|s| - 1], c)
  }

  /** Reads `([a-zA-Z0-9\-]+\.)+` from left to right; `run` is the number of
      label characters read since the last dot. */
  function LabelsFrom(t: string, run: nat): bool
    decreases |t|
  {
    if t == [] then false
    else if t[0] == '.' then run > 0 && (|t| == 1 || LabelsFrom(t[1..], 0))
    else IsLabelChar(t[0]) && LabelsFrom(t[1..], run + 1)
  }

  /** `([a-zA-Z0-9\-]+\.)+[a-zA-Z]{2,}` for a host without `/`: the top-level
      domain starts after the last `.`, since it contains none. */
  function HostOk(host: string): bool {
    match LastIndexOf(host, '.')
    case None => false
    case Some(d) => LabelsFrom(host[..d + 1], 0) && IsTld(host[d + 1..])
  }

  /** Everything after the scheme: the path starts at the first `/`, since
      neither the labels nor the top-level domain contain one. */
  function HostAndPathOk(rest: string): bool {
    var k := IndexOfOrEnd(rest, '/');
    HostOk(rest[..k]) && IsPath(rest[k..])
  }

  /** `isValidUrl(url)` */
  function IsValidUrl(url: string): bool {
    var n := SchemeLength(url);
    n > 0 && HostAndPathOk(url[n..])
  }

  // ---------------------------------------------------------------------
  // The recogniser decides the pattern

  /** A dotted-labels run starts with its first label: when `s` begins with
      `x` label characters followed by something else, that label ends at `x`. */
  lemma FirstLabelEndsAt(s: string, x: nat)
    requires x <= |s|
    requires forall i | 0 <= i < x :: IsLabelChar(s[i])
    requires x < |s| ==> !IsLabelChar(s[x])
    ensures IsDottedLabels(s) <==>
      x < |s| && s[x] == '.' && x > 0 && (x + 1 == |s| || IsDottedLabels(s[x + 1..]))
  {
    if IsDottedLabels(s) {
      var m: nat :| LabelDotAt(s, m) && (m + 1 == |s| || IsDottedLabels(s[m + 1..]));
      LabelEndsAt(s, m, x);
    }
    if x < |s| && s[x] == '.' && x > 0 && (x + 1 == |s| || IsDottedLabels(s[x + 1..])) {
      assert IsLabel(s[..x]);
      assert LabelDotAt(s, x);
    }
  }

  /** A label followed by a dot at `m` ends where the run of label
      characters at the start of `s` ends. */
  lemma LabelEndsAt(s: string, m: nat, x: nat)
    requires m < |s| && x <= |s|
    requires IsLabel(s[..m]) && s[m] == '.'
    requires forall i | 0 <= i < x :: IsLabelChar(s[i])
    requires x < |s| ==> !IsLabelChar(s[x])
    ensures m == x
  {
    assert forall i | 0 <= i < m :: s[..m][i] == s[i];
  }

  /** After a label prefix `p`, the scanner accepts `t` exactly when `p + t`
      is a run of dotted labels. */
  lemma {:induction false} LabelsFromCorrect(p: string, t: string)
    requires forall i | 0 <= i < |p| :: IsLabelChar(p[i])
    ensures LabelsFrom(t, |p|) <==> IsDottedLabels(p + t)
    decreases |t|
  {
    var s := p + t;
    if t != [] && IsLabelChar(t[0]) {
      var p' := p + [t[0]];
      LabelsFromCorrect(p', t[1..]);
      assert p' + t[1..] == s;
    } else {
      FirstLabelEndsAt(s, |p|);
      if t != [] && t[0] == '.' {
        LabelsFromCorrect([], t[1..]);
        assert [] + t[1..] == t[1..] == s[|p| + 1..];
      }
    }
  }

  /** A run of dotted labels is made of label characters and dots only and
      ends with a dot. */
  lemma {:induction false} DottedLabelsShape(t: string)
    requires IsDottedLabels(t)
    ensures |t| > 0 && t[|t| - 1] == '.'
    ensures forall i | 0 <= i < |t| :: IsLabelChar(t[i]) || t[i] == '.'
    decreases |t|
  {
    var m: nat :| LabelDotAt(t, m) && (m + 1 == |t| || IsDottedLabels(t[m + 1..]));
    if m + 1 < |t| {
      DottedLabelsShape(t[m + 1..]);
      assert t[|t| - 1] == t[m + 1..][|t| - m - 2];
    }
    forall i | 0 <= i < |t|
      ensures IsLabelChar(t[i]) || t[i] == '.'
    {
      if i < m {
        assert t[i] == t[..m][i];
      } else if i > m {
        assert t[i] == t[m + 1..][i - m - 1];
      }
    }
  }

  lemma SliceOfSlice(s: string, a: nat, b: nat, c: nat, d: nat)
    requires a <= b <= |s| && c <= d <= b - a
    ensures s[a..b][c..d] == s[a + c..a + d]
  {
    assert forall i | 0 <= i < d - c :: s[a..b][c..d][i] == s[a + c + i];
  }

  /** The host test yields the split of the host into dotted labels and
      top-level domain. */
  lemma HostOkSplit(host: string) returns (d: nat)
    requires HostOk(host)
    ensures d < |host| && IsDottedLabels(host[..d + 1]) && IsTld(host[d + 1..])
  {
    d := LastIndexOf(host, '.').value;
    LabelsFromCorrect([], host[..d + 1]);
    assert [] + host[..d + 1] == host[..d + 1];
  }

  /** The pieces the recogniser checks, read back as a split of `s`. */
  lemma SplitOfParts(s: string, n: nat, k: nat, d: nat)
    requires n + k <= |s| && d < k
    requires IsScheme(s[..n])
    requires IsDottedLabels(s[n..][..k][..d + 1]) && IsTld(s[n..][..k][d + 1..])
    requires IsPath(s[n..][k..])
    ensures SplitsAt(s, n, n + d + 1, n + k)
  {
    SliceOfSlice(s, n, n + k, 0, d + 1);
    SliceOfSlice(s, n, n + k, d + 1, k);
    assert s[n..][..k] == s[n..n + k];
    assert s[n..n + k][0..d + 1] == s[n..n + k][..d + 1];
    assert s[n..n + k][d + 1..k] == s[n..n + k][d + 1..];
    assert s[n..][k..] == s[n + k..];
  }

  lemma IsValidUrlSound(s: string)
    requires IsValidUrl(s)
    ensures MatchesUrlPattern(s)
  {
    var n := SchemeLength(s);
    var k := IndexOfOrEnd(s[n..], '/');
    var d := HostOkSplit(s[n..][..k]);
    SplitOfParts(s, n, k, d);
  }

  /** In a split, the path begins at the first `/` after the scheme. */
  lemma PathAtFirstSlash(s: string, i: nat, j: nat, k: nat)
    requires SplitsAt(s, i, j, k)
    ensures IndexOfOrEnd(s[i..], '/') == k - i
  {
    DottedLabelsShape(s[i..j]);
    var rest := s[i..];
    forall x | 0 <= x < k - i
      ensures rest[x] != '/'
    {
      if i + x < j {
        assert rest[x] == s[i..j][x];
      } else {
        assert rest[x] == s[j..k][i + x - j];
      }
    }
    if k < |s| {
      assert rest[k - i] == s[k..][0];
    }
  }

  /** In a split, the top-level domain begins after the last `.` of the host. */
  lemma TldAfterLastDot(s: string, i: nat, j: nat, k: nat)
    requires SplitsAt(s, i, j, k)
    ensures LastIndexOf(s[i..k], '.') == Some(j - i - 1)
  {
    DottedLabelsShape(s[i..j]);
    var host := s[i..k];
    assert host[j - i - 1] == s[i..j][j - i - 1] == '.';
    forall x | j - i - 1 < x < |host|
      ensures host[x] != '.'
    {
      assert host[x] == s[j..k][x - (j - i)];
    }
  }

  /** In a split, the host after the scheme passes the host test. */
  lemma HostOkOfSplit(s: string, i: nat, j: nat, k: nat)
    requires SplitsAt(s, i, j, k)
    ensures HostOk(s[i..][..k - i])
  {
    var host := s[i..][..k - i];
    assert host == s[i..k];
    TldAfterLastDot(s, i, j, k);
    var labels := s[i..j];
    LabelsFromCorrect([], labels);
    assert [] + labels == labels;
    assert LabelsFrom(labels, 0);
    assert host[..j - i] == labels;
    assert host[j - i..] == s[j..k];
  }

  lemma IsValidUrlComplete(s: string)
    requires MatchesUrlPattern(s)
    ensures IsValidUrl(s)
  {
    var i: nat, j: nat, k: nat :| SplitsAt(s, i, j, k);
    SchemeLengthUnique(s, i);
    PathAtFirstSlash(s, i, j, k);
    HostOkOfSplit(s, i, j, k);
    assert s[i..][k - i..] == s[k..];
  }

  /** The recogniser and the pattern accept the same strings. */
  lemma IsValidUrlCorrect(s: string)
    ensures IsValidUrl(s) <==> MatchesUrlPattern(s)
  {
    if IsValidUrl(s) {
      IsValidUrlSound(s);
    }
    if MatchesUrlPattern(s) {
      IsValidUrlComplete(s);
    }
  }

  /** A string that does not start with `http://` or `https://` is rejected. */
  lemma RejectsWithoutScheme(s: string)
    requires !(|s| >= 7 && s[..7] == "http://") && !(|s| >= 8 && s[..8] == "https://")
    ensures !IsValidUrl(s) && !MatchesUrlPattern(s)
  {
    IsValidUrlCorrect(s);
  }

  /** A valid URL is at least eleven characters long (`http://a.bc`), so it
      is never empty. */
  lemma ValidUrlIsLong(s: string)
    requires IsValidUrl(s)
    ensures |s| >= 11
  {
    var n := SchemeLength(s);
    var rest := s[n..];
    var k := IndexOfOrEnd(rest, '/');
    var host := rest[..k];
    var d := LastIndexOf(host, '.').value;
    LabelsFromCorrect([], host[..d + 1]);
    assert [] + host[..d + 1] == host[..d + 1];
    DottedLabelsShape(host[..d + 1]);
  }
}
