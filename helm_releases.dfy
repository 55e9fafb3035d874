/**
 * Field derivations of a Helm release
 * (src/renderer/api/endpoints/helm-releases.api.ts, class `HelmRelease`).
 *
 * The version suffix of a chart is found by the regular expression
 * `/(?<=-)(v?\d+)[^-].*$/`, written out here as an explicit scan with the
 * semantics of JavaScript regular expressions: `\d` is an ASCII digit, `.`
 * is any character but a line terminator, `[^-]` is any character but "-",
 * and `$` (no multiline flag) is the end of the input.
 */
module HelmReleases {
  import opened Wrappers
  import opened Decimal

  /** A release as listed by the Helm API; the constructor copies these fields. */
  datatype HelmRelease = HelmRelease(
    appVersion: string,
    name: string,
    namespace: string,
    chart: string,
    status: string,
    updated: string,
    revision: string)

  /** getId: the namespace immediately followed by the name. */
  function GetId(release: HelmRelease): (id: string)
    ensures |id| == |release.namespace| + |release.name|
    ensures id[..|release.namespace|] == release.namespace
    ensures id[|release.namespace|..] == release.name
  {
    release.namespace + release.name
  }

  /** getName: the part of the id after the namespace. */
  function GetName(release: HelmRelease): (name: string)
    ensures GetId(release) == release.namespace + name
  {
    release.name
  }

  /** getNs: the part of the id before the name. */
  function GetNs(release: HelmRelease): (ns: string)
    ensures GetId(release) == ns + release.name
  {
    release.namespace
  }

  /** getId is getNs followed by getName. */
  lemma IdIsNsThenName(release: HelmRelease)
    ensures GetId(release) == GetNs(release) + GetName(release)
  {
  }

  /**
   * Without a separator, two releases that differ in namespace and name can
   * share an id: namespace "a" with name "bc" and namespace "ab" with name "c".
   */
  lemma IdsCanCollide(r1: HelmRelease, r2: HelmRelease)
    requires r1.namespace == "a" && r1.name == "bc"
    requires r2.namespace == "ab" && r2.name == "c"
    ensures GetId(r1) == GetId(r2) && r1.namespace != r2.namespace
  {
  }

  // ---------------------------------------------------------------------
  // getVersion

  predicate IsLineTerminator(c: char) {
    c == '\n' || c == '\r' || c == '\U{2028}' || c == '\U{2029}'
  }

  predicate NoLineTerminator(s: string) {
    forall i :: 0 <= i < |s| ==> !IsLineTerminator(s[i])
  }

  /** `[^-].*$` matches the input from position `p` to its end. */
  predicate TailMatches(s: string, p: nat) {
    p < |s| && s[p] != '-' && NoLineTerminator(s[p + 1..])
  }

  /**
   * `\d+[^-].*$` matches from position `p`: a digit, then either the tail or
   * more digits (the backtracking over the length of the digit run).
   */
  predicate DigitsMatch(s: string, p: nat)
    requires p <= |s|
    decreases |s| - p
  {
    p < |s| && IsDigit(s[p]) && (TailMatches(s, p + 1) || DigitsMatch(s, p + 1))
  }

  /**
   * The whole pattern matches starting at position `i`: "-" just before it
   * (the lookbehind), an optional "v", and then `\d+[^-].*$`. When `s[i]` is
   * "v" the optional "v" must be taken, since "v" is not a digit.
   */
  predicate MatchesAt(s: string, i: nat) {
    1 <= i < |s| && s[i - 1] == '-' && DigitsMatch(s, if s[i] == 'v' then i + 1 else i)
  }

  /** The leftmost position at or after `from` where the pattern matches. */
  function VersionStart(s: string, from: nat): (r: Option<nat>)
    requires from <= |s|
    ensures r.Some? ==> from <= r.value < |s| && MatchesAt(s, r.value) &&
                        forall k :: from <= k < r.value ==> !MatchesAt(s, k)
    ensures r.None? ==> forall k :: from <= k < |s| ==> !MatchesAt(s, k)
    decreases |s| - from
  {
    if from == |s| then None
    else if MatchesAt(s, from) then Some(from)
    else VersionStart(s, from + 1)
  }

  /**
   * getVersion: the text matched, which runs from the leftmost matching
   * position to the end of the chart, or "" when nothing matches.
   */
  function GetVersion(release: HelmRelease): (version: string)
    ensures version == "" <==> forall k :: 0 <= k < |release.chart| ==> !MatchesAt(release.chart, k)
    ensures version != "" ==>
              var i := |release.chart| - |version|;
              && 1 <= i < |release.chart|
              && release.chart[i - 1] == '-'
              && release.chart[i..] == version
              && MatchesAt(release.chart, i)
              && forall k :: 0 <= k < i ==> !MatchesAt(release.chart, k)
  {
    match VersionStart(release.chart, 0)
    case None => ""
    case Some(i) => release.chart[i..]
  }

  /**
   * The same pattern read position by position, for a chart without line
   * terminators: "-", then either "v", a digit and a character other than
   * "-", or a digit and a character other than "-".
   */
  predicate SimpleMatchAt(s: string, i: nat) {
    1 <= i && i < |s| && s[i - 1] == '-' &&
    ((s[i] == 'v' && i + 2 < |s| && IsDigit(s[i + 1]) && s[i + 2] != '-') ||
     (IsDigit(s[i]) && i + 1 < |s| && s[i + 1] != '-'))
  }

  lemma DigitsMatchLocal(s: string, p: nat)
    requires p <= |s| && NoLineTerminator(s)
    ensures DigitsMatch(s, p) <==> p + 1 < |s| && IsDigit(s[p]) && s[p + 1] != '-'
  {
    if p + 1 < |s| && IsDigit(s[p]) && s[p + 1] != '-' {
      assert TailMatches(s, p + 1);
    }
  }

  /** Without line terminators, the pattern matches exactly where the simple reading says. */
  lemma MatchesAtSimple(s: string, i: nat)
    requires NoLineTerminator(s)
    ensures MatchesAt(s, i) <==> SimpleMatchAt(s, i)
  {
    if 1 <= i < |s| {
      DigitsMatchLocal(s, if s[i] == 'v' then i + 1 else i);
    }
  }

  /**
   * A line terminator can defeat a match the simple reading predicts: in
   * "a-1x\n" the `.*` after "1x" cannot cross the newline.
   */
  lemma LineTerminatorBlocksMatch()
    ensures !MatchesAt("a-1x\n", 2) && SimpleMatchAt("a-1x\n", 2)
  {
    var s := "a-1x\n";
    assert !TailMatches(s, 3) by { assert s[4..][0] == '\n'; }
    assert !DigitsMatch(s, 3);
  }

  /** "nginx-ingress-1.2.3" has version "1.2.3". */
  lemma VersionExample(release: HelmRelease)
    requires release.chart == "nginx-ingress-1.2.3"
    ensures GetVersion(release) == "1.2.3"
  {
    var s := release.chart;
    assert NoLineTerminator(s);
    forall k | 0 <= k < 14
      ensures !MatchesAt(s, k)
    {
      MatchesAtSimple(s, k);
    }
    MatchesAtSimple(s, 14);
    assert VersionStart(s, 0) == Some(14);
  }

  // ---------------------------------------------------------------------
  // getChart

  /** The literal text `pat` occurs in `s` at position `q`. */
  predicate OccursAt(s: string, pat: string, q: nat) {
    q + |pat| <= |s| && s[q..q + |pat|] == pat
  }

  /** The leftmost position at or after `from` where `pat` occurs in `s`. */
  function FindFirst(s: string, pat: string, from: nat): (r: Option<nat>)
    requires from <= |s|
    ensures r.Some? ==> from <= r.value && OccursAt(s, pat, r.value) &&
                        forall q :: from <= q < r.value ==> !OccursAt(s, pat, q)
    ensures r.None? ==> forall q :: from <= q ==> !OccursAt(s, pat, q)
    decreases |s| - from
  {
    if from + |pat| > |s| then None
    else if OccursAt(s, pat, from) then Some(from)
    else FindFirst(s, pat, from + 1)
  }

  /** `s.replace(pat, "")` for a literal `pat`: only the first occurrence is removed. */
  function RemoveFirst(s: string, pat: string): (r: string)
    ensures FindFirst(s, pat, 0).None? ==> r == s
    ensures FindFirst(s, pat, 0).Some? ==>
              var q := FindFirst(s, pat, 0).value;
              q + |pat| <= |s| && r == s[..q] + s[q + |pat|..]
  {
    match FindFirst(s, pat, 0)
    case None => s
    case Some(q) => s[..q] + s[q + |pat|..]
  }

  /**
   * getChart(withVersion): the chart, with the first occurrence of "-" and
   * the version removed unless the version is asked for or is empty. The
   * version is searched for literally (see the findings on the as-written
   * regular expression).
   */
  function GetChart(release: HelmRelease, withVersion: bool): (chart: string)
    ensures withVersion ==> chart == release.chart
    ensures GetVersion(release) == "" ==> chart == release.chart
  {
    var version := GetVersion(release);
    if !withVersion && version != "" then RemoveFirst(release.chart, "-" + version)
    else release.chart
  }

  /**
   * For a chart without line terminators and with a version, getChart()
   * strips exactly the "-version" suffix: chart name, "-" and version
   * rebuild the chart.
   */
  lemma ChartNameAndVersion(release: HelmRelease)
    requires NoLineTerminator(release.chart)
    requires GetVersion(release) != ""
    ensures GetChart(release, false) + "-" + GetVersion(release) == release.chart
  {
    var s, v := release.chart, GetVersion(release);
    StripVersionSuffix(s, |s| - |v|);
  }

  /**
   * Removing "-" and the text from the leftmost match on cuts the chart
   * just before that "-", so the rest, "-" and the text rebuild it.
   */
  lemma StripVersionSuffix(s: string, i: nat)
    requires NoLineTerminator(s)
    requires 1 <= i < |s| && MatchesAt(s, i)
    requires forall k :: 0 <= k < i ==> !MatchesAt(s, k)
    ensures RemoveFirst(s, "-" + s[i..]) + "-" + s[i..] == s
  {
    NoEarlierCopy(s, i);
    var pat := "-" + s[i..];
    assert OccursAt(s, pat, i - 1) by { assert s[i - 1..] == pat; }
    FirstOccurrence(s, pat, i - 1);
    RemoveSuffix(s, pat, i - 1);
    assert s[..i - 1] + "-" + s[i..] == s;
  }

  /** Removing an occurrence that ends the text leaves what precedes it. */
  lemma RemoveSuffix(s: string, pat: string, p: nat)
    requires FindFirst(s, pat, 0) == Some(p) && p + |pat| == |s|
    ensures RemoveFirst(s, pat) == s[..p]
  {
    assert s[p + |pat|..] == [];
  }

  /**
   * "-" and the suffix at the leftmost match occur nowhere before the match,
   * when the chart has no line terminators.
   */
  lemma NoEarlierCopy(s: string, i: nat)
    requires NoLineTerminator(s)
    requires 1 <= i < |s| && MatchesAt(s, i)
    requires forall k :: 0 <= k < i ==> !MatchesAt(s, k)
    ensures forall q :: 0 <= q < i - 1 ==> !OccursAt(s, "-" + s[i..], q)
  {
    MatchesAtSimple(s, i);
    forall q | 0 <= q < i - 1
      ensures !OccursAt(s, "-" + s[i..], q)
    {
      if OccursAt(s, "-" + s[i..], q) {
        EarlierCopyMatches(s, i, q);
        MatchesAtSimple(s, q + 1);
      }
    }
  }

  /** An occurrence with none before it is the one FindFirst finds. */
  lemma FirstOccurrence(s: string, pat: string, p: nat)
    requires OccursAt(s, pat, p)
    requires forall q :: 0 <= q < p ==> !OccursAt(s, pat, q)
    ensures FindFirst(s, pat, 0) == Some(p)
  {
  }

  /**
   * A copy of "-" and a matching suffix earlier in the chart is itself a
   * match, since the simple reading only looks at the first characters.
   */
  lemma EarlierCopyMatches(s: string, i: nat, q: nat)
    requires SimpleMatchAt(s, i) && q + 1 < i
    requires OccursAt(s, "-" + s[i..], q)
    ensures SimpleMatchAt(s, q + 1)
  {
    var pat := "-" + s[i..];
    assert s[q..q + |pat|] == pat;
    assert s[q] == pat[0] == '-';
    assert s[q + 1] == pat[1] == s[i];
    if i + 1 < |s| {
      assert s[q + 2] == pat[2] == s[i + 1];
    }
    if i + 2 < |s| {
      assert s[q + 3] == pat[3] == s[i + 2];
    }
  }

  // ---------------------------------------------------------------------
  // getRevision

  /** Characters `parseInt` skips before the number (WhiteSpace and LineTerminator). */
  predicate IsJsWhiteSpace(c: char) {
    c == '\t' || c == '\n' || c == '\U{B}' || c == '\U{C}' || c == '\r' || c == ' ' ||
    c == '\U{A0}' || c == '\U{1680}' || ('\U{2000}' <= c <= '\U{200A}') || c == '\U{2028}' ||
    c == '\U{2029}' || c == '\U{202F}' || c == '\U{205F}' || c == '\U{3000}' || c == '\U{FEFF}'
  }

  /** The length of the longest prefix of `s` whose characters satisfy `p`. */
  function RunLength(s: string, p: char -> bool): (n: nat)
    ensures n <= |s|
    ensures forall i :: 0 <= i < n ==> p(s[i])
    ensures n < |s| ==> !p(s[n])
    decreases |s|
  {
    if s != [] && p(s[0]) then 1 + RunLength(s[1..], p) else 0
  }

  /**
   * `parseInt(s, 10)`: skip leading white space, read an optional sign and
   * the longest run of digits after it; no digit gives NaN (None).
   */
  function ParseInt(s: string): (r: Option<int>)
    ensures var t := s[RunLength(s, IsJsWhiteSpace)..];
            var u := if t != [] && (t[0] == '+' || t[0] == '-') then t[1..] else t;
            && (r.None? <==> (u == [] || !IsDigit(u[0])))
            && (r.Some? ==> var digits := u[..RunLength(u, IsDigit)];
                            AllDigits(digits) &&
                            r.value == if t[0] == '-' then -(DigitsValue(digits) as int) else DigitsValue(digits))
  {
    var t := s[RunLength(s, IsJsWhiteSpace)..];
    var negative := t != [] && t[0] == '-';
    var u := if t != [] && (t[0] == '+' || t[0] == '-') then t[1..] else t;
    var digits := u[..RunLength(u, IsDigit)];
    if digits == [] then None
    else
      var magnitude: int := DigitsValue(digits);
      Some(if negative then -magnitude else magnitude)
  }

  /** getRevision: the revision read as a base-10 integer. */
  function GetRevision(release: HelmRelease): (r: Option<int>)
    ensures release.revision == [] ==> r.None?
    ensures release.revision != [] && AllDigits(release.revision) ==> r == Some(DigitsValue(release.revision))
  {
    var s := release.revision;
    if s != [] && AllDigits(s) then
      assert RunLength(s, IsJsWhiteSpace) == 0 by { assert IsDigit(s[0]); }
      assert s[0..] == s;
      assert RunLength(s, IsDigit) == |s|;
      assert s[..|s|] == s;
      ParseInt(s)
    else ParseInt(s)
  }

  /** A revision written as a decimal numeral, maybe followed by a non-digit, reads back as its number. */
  lemma RevisionRoundTrip(release: HelmRelease, n: nat, rest: string)
    requires release.revision == NatToString(n) + rest
    requires rest == [] || !IsDigit(rest[0])
    ensures GetRevision(release) == Some(n)
  {
    var s := release.revision;
    var digits := NatToString(n);
    assert RunLength(s, IsJsWhiteSpace) == 0 by { assert IsDigit(s[0]); }
    assert s[0..] == s;
    var k := RunLength(s, IsDigit);
    assert forall j :: 0 <= j < |digits| ==> s[j] == digits[j];
    assert |s| > |digits| ==> s[|digits|] == rest[0];
    assert k == |digits|;
    assert s[..k] == digits;
    NatToStringRoundTrip(n);
  }

  /** A revision with no digit after optional white space and sign is NaN. */
  lemma RevisionWithoutDigits(release: HelmRelease)
    requires release.revision == "" || release.revision == "abc"
    ensures GetRevision(release).None?
  {
    var s := release.revision;
    if s != "" {
      assert RunLength(s, IsJsWhiteSpace) == 0 by { assert !IsJsWhiteSpace(s[0]); }
      assert s[0..] == s;
    }
  }
}
