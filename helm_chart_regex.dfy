/**
 * getChart as written (src/renderer/api/endpoints/helm-releases.api.ts,
 * lines 173-183): the version is pasted unescaped into
 * `new RegExp("-" + version)`, so its "." matches any character but a line
 * terminator and its "+" repeats the character before it.
 *
 * The model covers charts whose only regular-expression syntax characters
 * are "." and "+" (every "name-SemVer" chart is one); greedy repetition with
 * backtracking and the leftmost-match search of `String.prototype.replace`
 * are written out. Characters are Unicode scalar values here, where the
 * pattern (no "u" flag) steps over UTF-16 code units: "." takes a whole
 * character outside the Basic Multilingual Plane here, half of one there.
 */
module HelmChartRegex {
  import opened Wrappers
  import opened HelmReleases

  /** Syntax characters of a JavaScript pattern other than "." and "+". */
  predicate IsOtherSyntaxChar(c: char) {
    c == '^' || c == '$' || c == '\\' || c == '*' || c == '?' || c == '(' || c == ')' ||
    c == '[' || c == ']' || c == '{' || c == '}' || c == '|'
  }

  predicate DotPlusOnly(src: string) {
    forall i :: 0 <= i < |src| ==> !IsOtherSyntaxChar(src[i])
  }

  datatype Atom = Literal(c: char) | AnyChar

  /** One atom, once or (`+`) one or more times. */
  datatype Term = Term(atom: Atom, repeated: bool)

  /** The atom a pattern character stands for. */
  function AtomOf(c: char): Atom {
    if c == '.' then AnyChar else Literal(c)
  }

  predicate Accepts(atom: Atom, c: char) {
    match atom
    case Literal(l) => c == l
    case AnyChar => !IsLineTerminator(c)
  }

  /** The pattern text a term is written as. */
  function RenderTerm(t: Term): string {
    [if t.atom.AnyChar? then '.' else t.atom.c] + (if t.repeated then "+" else "")
  }

  function Render(terms: seq<Term>): string
    decreases |terms|
  {
    if terms == [] then "" else RenderTerm(terms[0]) + Render(terms[1..])
  }

  /** A term `new RegExp` can produce: "." and "+" are never literal atoms. */
  predicate Compiled(t: Term) {
    t.atom != Literal('.') && t.atom != Literal('+')
  }

  /** The "+" at position `i` has nothing before it to repeat. */
  predicate NothingToRepeat(src: string, i: int) {
    0 <= i < |src| && src[i] == '+' && (i == 0 || src[i - 1] == '+')
  }

  /**
   * `new RegExp(src)`: the terms of the pattern, or None for the
   * SyntaxError ("nothing to repeat") of a "+" with no atom before it.
   */
  function CompilePattern(src: string): (r: Option<seq<Term>>)
    requires DotPlusOnly(src)
    ensures r.Some? ==> |r.value| <= |src|
    decreases |src|
  {
    if src == [] then Some([])
    else if src[0] == '+' then None
    else
      var atom := AtomOf(src[0]);
      var repeated := |src| > 1 && src[1] == '+';
      var rest := if repeated then src[2..] else src[1..];
      assert DotPlusOnly(rest) by { assert forall i :: 0 <= i < |rest| ==> rest[i] == src[i + |src| - |rest|]; }
      match CompilePattern(rest)
      case None => None
      case Some(terms) => Some([Term(atom, repeated)] + terms)
  }

  /** How many pattern characters the first term takes: its atom, and "+" if repeated. */
  function FirstTermLength(src: string): nat
    requires src != []
  {
    if |src| > 1 && src[1] == '+' then 2 else 1
  }

  /** One step of compiling: the first term, then the terms of the rest. */
  lemma CompileFirstTerm(src: string)
    requires DotPlusOnly(src) && src != [] && src[0] != '+'
    ensures FirstTermLength(src) <= |src| && DotPlusOnly(src[FirstTermLength(src)..])
    ensures var n := FirstTermLength(src);
            CompilePattern(src) ==
            if CompilePattern(src[n..]).Some?
            then Some([Term(AtomOf(src[0]), n == 2)] + CompilePattern(src[n..]).value)
            else None
  {
  }

  /** Compiling throws exactly on a "+" with nothing to repeat. */
  lemma {:induction false} CompileFailsIff(src: string)
    requires DotPlusOnly(src)
    ensures CompilePattern(src).None? <==> exists i :: NothingToRepeat(src, i)
    decreases |src|
  {
    if src == [] {
    } else if src[0] == '+' {
      assert NothingToRepeat(src, 0);
    } else {
      var n := FirstTermLength(src);
      var rest := src[n..];
      CompileFirstTerm(src);
      CompileFailsIff(rest);
      assert (exists i :: NothingToRepeat(src, i)) <==> (exists j :: NothingToRepeat(rest, j)) by {
        forall i | NothingToRepeat(src, i)
          ensures NothingToRepeat(rest, i - n)
        {
        }
        forall j | NothingToRepeat(rest, j)
          ensures NothingToRepeat(src, j + n)
        {
        }
      }
    }
  }

  /**
   * Compiling is the inverse of writing the terms out, and "." and "+"
   * never come out as literal atoms.
   */
  lemma {:induction false} CompileRenders(src: string)
    requires DotPlusOnly(src) && CompilePattern(src).Some?
    ensures Render(CompilePattern(src).value) == src
    ensures forall k :: 0 <= k < |CompilePattern(src).value| ==> Compiled(CompilePattern(src).value[k])
    decreases |src|
  {
    if src != [] {
      var n := FirstTermLength(src);
      var rest := src[n..];
      CompileFirstTerm(src);
      CompileRenders(rest);
      var t := Term(AtomOf(src[0]), n == 2);
      var terms := CompilePattern(rest).value;
      assert ([t] + terms)[0] == t && ([t] + terms)[1..] == terms;
      assert forall k :: 1 <= k < |[t] + terms| ==> ([t] + terms)[k] == terms[k - 1];
      assert RenderTerm(t) == src[..n];
      assert src == src[..n] + rest;
    }
  }

  /** The terms of a pattern without "+": each character once. */
  function PlainTerms(src: string): seq<Term> {
    seq(|src|, i requires 0 <= i < |src| => Term(AtomOf(src[i]), false))
  }

  predicate NoPlus(src: string) {
    forall i :: 0 <= i < |src| ==> src[i] != '+'
  }

  /** A character not followed by "+" compiles to one unrepeated term. */
  lemma CompileSingle(c: char, rest: string)
    requires DotPlusOnly([c] + rest) && c != '+'
    requires rest == [] || rest[0] != '+'
    ensures DotPlusOnly(rest)
    ensures CompilePattern([c] + rest) ==
            if CompilePattern(rest).Some? then Some([Term(AtomOf(c), false)] + CompilePattern(rest).value) else None
  {
    var src := [c] + rest;
    assert src[0] == c && src[1..] == rest;
    assert forall i :: 0 <= i < |rest| ==> rest[i] == src[i + 1];
    if rest != [] {
      assert src[1] == rest[0];
    }
  }

  lemma PlainTermsPrepend(x: string, terms: seq<Term>)
    requires x != []
    ensures PlainTerms(x) + terms == [Term(AtomOf(x[0]), false)] + (PlainTerms(x[1..]) + terms)
  {
    assert PlainTerms(x) == [Term(AtomOf(x[0]), false)] + PlainTerms(x[1..]);
  }

  /** Characters before the first "+" compile one by one. */
  lemma {:induction false} CompilePlainPrefix(x: string, y: string)
    requires DotPlusOnly(x + y) && NoPlus(x)
    requires y == [] || y[0] != '+'
    ensures DotPlusOnly(y)
    ensures CompilePattern(x + y) ==
            if CompilePattern(y).Some? then Some(PlainTerms(x) + CompilePattern(y).value) else None
    decreases |x|
  {
    if x == [] {
      assert x + y == y && PlainTerms(x) == [];
      if CompilePattern(y).Some? {
        assert PlainTerms(x) + CompilePattern(y).value == CompilePattern(y).value;
      }
    } else {
      var rest := x[1..] + y;
      var t := Term(AtomOf(x[0]), false);
      assert DotPlusOnly(rest) && NoPlus(x[1..]) &&
             CompilePattern(x + y) ==
             if CompilePattern(rest).Some? then Some([t] + CompilePattern(rest).value) else None by {
        assert x + y == [x[0]] + rest;
        assert rest == [] || rest[0] != '+' by {
          if |x| > 1 { assert rest[0] == x[1]; }
        }
        CompileSingle(x[0], rest);
      }
      CompilePlainPrefix(x[1..], y);
      if CompilePattern(y).Some? {
        PlainTermsPrepend(x, CompilePattern(y).value);
      }
    }
  }

  /** The number of characters from position `p` on that `atom` accepts. */
  function RunOf(atom: Atom, s: string, p: nat): (n: nat)
    requires p <= |s|
    ensures p + n <= |s|
    ensures forall j :: p <= j < p + n ==> Accepts(atom, s[j])
    ensures p + n < |s| ==> !Accepts(atom, s[p + n])
    decreases |s| - p
  {
    if p < |s| && Accepts(atom, s[p]) then 1 + RunOf(atom, s, p + 1) else 0
  }

  /**
   * Where the first match of `terms` starting at `p` ends, in the order a
   * backtracking matcher tries: a repeated atom takes as many characters as
   * it can first and gives them back one at a time.
   */
  function MatchEnd(terms: seq<Term>, s: string, p: nat): (r: Option<nat>)
    requires p <= |s|
    ensures r.Some? ==> p <= r.value <= |s|
    decreases |terms|, 1, 0
  {
    if terms == [] then Some(p)
    else if !terms[0].repeated then
      if p < |s| && Accepts(terms[0].atom, s[p]) then MatchEnd(terms[1..], s, p + 1) else None
    else
      var n := RunOf(terms[0].atom, s, p);
      if n == 0 then None else TryRepeat(terms, s, p, n)
  }

  /** Try the rest of the pattern after `k`, `k - 1`, ..., 1 repetitions of the first atom. */
  function TryRepeat(terms: seq<Term>, s: string, p: nat, k: nat): (r: Option<nat>)
    requires terms != [] && p + k <= |s|
    ensures r.Some? ==> p <= r.value <= |s|
    decreases |terms|, 0, k
  {
    if k == 0 then None
    else match MatchEnd(terms[1..], s, p + k)
      case Some(e) => Some(e)
      case None => TryRepeat(terms, s, p, k - 1)
  }

  /** The leftmost match at or after `from`, as its start and end. */
  function FirstMatch(terms: seq<Term>, s: string, from: nat): (r: Option<(nat, nat)>)
    requires from <= |s|
    ensures r.Some? ==> from <= r.value.0 <= r.value.1 <= |s| &&
                        MatchEnd(terms, s, r.value.0) == Some(r.value.1) &&
                        forall q :: from <= q < r.value.0 ==> MatchEnd(terms, s, q).None?
    ensures r.None? ==> forall q :: from <= q <= |s| ==> MatchEnd(terms, s, q).None?
    decreases |s| - from
  {
    match MatchEnd(terms, s, from)
    case Some(e) => Some((from, e))
    case None => if from == |s| then None else FirstMatch(terms, s, from + 1)
  }

  /** `s.replace(re, "")`, given the first match of `re` in `s`, if any. */
  function CutFirstMatch(s: string, m: Option<(nat, nat)>): string
    requires m.Some? ==> m.value.0 <= m.value.1 <= |s|
  {
    match m
    case None => s
    case Some((q, e)) => s[..q] + s[e..]
  }

  /**
   * getChart(withVersion) as written; None when `new RegExp` throws. The
   * first match of the version read as a pattern is removed.
   */
  function GetChartAsWritten(release: HelmRelease, withVersion: bool): (r: Option<string>)
    requires DotPlusOnly(release.chart)
    ensures withVersion || GetVersion(release) == "" ==> r == Some(release.chart)
  {
    var version := GetVersion(release);
    if !withVersion && version != "" then
      VersionPatternSyntax(release);
      match CompilePattern("-" + version)
      case None => None
      case Some(terms) => Some(CutFirstMatch(release.chart, FirstMatch(terms, release.chart, 0)))
    else Some(release.chart)
  }

  /** The version is a suffix of the chart, so "-" and the version use no other syntax either. */
  lemma VersionPatternSyntax(release: HelmRelease)
    requires DotPlusOnly(release.chart)
    ensures DotPlusOnly("-" + GetVersion(release))
  {
    var s, v := release.chart, GetVersion(release);
    assert s[|s| - |v|..] == v;
    SuffixPatternSyntax(s, v);
  }

  lemma SuffixPatternSyntax(s: string, v: string)
    requires DotPlusOnly(s) && |v| <= |s| && s[|s| - |v|..] == v
    ensures DotPlusOnly("-" + v)
  {
    var i := |s| - |v|;
    assert forall j :: 0 <= j < |v| ==> v[j] == s[i + j];
    assert forall j :: 1 <= j < |v| + 1 ==> ("-" + v)[j] == v[j - 1];
  }

  /**
   * getChart() as written throws exactly when the version holds a "+" with
   * nothing to repeat, and never lengthens the chart.
   */
  lemma AsWrittenThrowsOrShortens(release: HelmRelease, withVersion: bool)
    requires DotPlusOnly(release.chart)
    ensures DotPlusOnly("-" + GetVersion(release))
    ensures GetChartAsWritten(release, withVersion).None? <==>
              !withVersion && GetVersion(release) != "" &&
              exists i :: NothingToRepeat("-" + GetVersion(release), i)
    ensures GetChartAsWritten(release, withVersion).Some? ==>
              |GetChartAsWritten(release, withVersion).value| <= |release.chart|
  {
    VersionPatternSyntax(release);
    if !withVersion && GetVersion(release) != "" {
      CompileFailsIff("-" + GetVersion(release));
    }
  }

  /** Where a pattern without "." or "+" matches: exactly where it occurs. */
  lemma {:induction false} PlainMatchEnd(pat: string, s: string, p: nat)
    requires p <= |s|
    requires forall j :: 0 <= j < |pat| ==> pat[j] != '.' && pat[j] != '+'
    ensures MatchEnd(PlainTerms(pat), s, p) == if OccursAt(s, pat, p) then Some(p + |pat|) else None
    decreases |pat|
  {
    if pat != [] {
      var terms := PlainTerms(pat);
      assert terms[0] == Term(Literal(pat[0]), false);
      assert terms[1..] == PlainTerms(pat[1..]);
      if p < |s| && s[p] == pat[0] {
        PlainMatchEnd(pat[1..], s, p + 1);
        if OccursAt(s, pat, p) {
          assert s[p + 1..p + |pat|] == s[p..p + |pat|][1..];
        }
      }
    }
  }

  /** The leftmost match of such a pattern is its leftmost occurrence. */
  lemma PlainFirstMatch(pat: string, s: string)
    requires forall j :: 0 <= j < |pat| ==> pat[j] != '.' && pat[j] != '+'
    ensures FirstMatch(PlainTerms(pat), s, 0) ==
            if FindFirst(s, pat, 0).Some? then Some((FindFirst(s, pat, 0).value, FindFirst(s, pat, 0).value + |pat|))
            else None
  {
    forall q | 0 <= q <= |s|
      ensures MatchEnd(PlainTerms(pat), s, q) == if OccursAt(s, pat, q) then Some(q + |pat|) else None
    {
      PlainMatchEnd(pat, s, q);
    }
    match FindFirst(s, pat, 0)
    case Some(q) =>
      assert MatchEnd(PlainTerms(pat), s, q).Some?;
    case None =>
  }

  /**
   * A pattern without "." and "+" compiles to its characters, and removing
   * its first match removes its first occurrence.
   */
  lemma PlainPatternReplace(pat: string, s: string)
    requires DotPlusOnly(pat)
    requires forall j :: 0 <= j < |pat| ==> pat[j] != '.' && pat[j] != '+'
    ensures CompilePattern(pat) == Some(PlainTerms(pat))
    ensures CutFirstMatch(s, FirstMatch(PlainTerms(pat), s, 0)) == RemoveFirst(s, pat)
  {
    assert NoPlus(pat) && pat + "" == pat;
    CompilePlainPrefix(pat, "");
    assert PlainTerms(pat) + [] == PlainTerms(pat);
    PlainFirstMatch(pat, s);
  }

  /**
   * When the version has no "." and no "+", reading it as a pattern changes
   * nothing: getChart() as written agrees with removing the literal text.
   */
  lemma AsWrittenAgreesWithLiteral(release: HelmRelease, withVersion: bool)
    requires DotPlusOnly(release.chart)
    requires forall j :: 0 <= j < |GetVersion(release)| ==>
               GetVersion(release)[j] != '.' && GetVersion(release)[j] != '+'
    ensures GetChartAsWritten(release, withVersion) == Some(GetChart(release, withVersion))
  {
    var version := GetVersion(release);
    if !withVersion && version != "" {
      var pat := "-" + version;
      VersionPatternSyntax(release);
      assert forall j :: 0 <= j < |pat| ==> pat[j] != '.' && pat[j] != '+' by {
        assert forall j :: 1 <= j < |pat| ==> pat[j] == version[j - 1];
      }
      PlainPatternReplace(pat, release.chart);
      AsWrittenRemovesFirstMatch(release, version, PlainTerms(pat));
    }
  }

  /** The pattern "abc": three literal characters. */
  lemma CompileAbcPattern()
    ensures CompilePattern("abc") ==
            Some([Term(Literal('a'), false), Term(Literal('b'), false), Term(Literal('c'), false)])
  {
    CompilePlainPrefix("abc", "");
    assert "abc" + "" == "abc" && CompilePattern("") == Some([]);
    assert PlainTerms("abc") + [] == PlainTerms("abc");
    assert PlainTerms("abc") == [Term(Literal('a'), false), Term(Literal('b'), false), Term(Literal('c'), false)];
  }

  /** The pattern "0+abc": a repeated "0", then "abc". */
  lemma CompileRepeatedZeroPattern()
    ensures CompilePattern("0+abc") ==
            Some([Term(Literal('0'), true), Term(Literal('a'), false), Term(Literal('b'), false),
                  Term(Literal('c'), false)])
  {
    CompileAbcPattern();
    var z := "0+abc";
    assert z[0] == '0' && z[1] == '+' && z[2..] == "abc" && AtomOf('0') == Literal('0');
    assert CompilePattern(z) == Some([Term(Literal('0'), true)] + CompilePattern("abc").value);
    assert [Term(Literal('0'), true)] + [Term(Literal('a'), false), Term(Literal('b'), false), Term(Literal('c'), false)]
        == [Term(Literal('0'), true), Term(Literal('a'), false), Term(Literal('b'), false), Term(Literal('c'), false)];
  }

  /** The pattern "-1.0.0+abc": a "+" after the third "0". */
  lemma CompileBuildMetadataPattern()
    ensures CompilePattern("-1.0.0+abc") == Some(
              [Term(Literal('-'), false), Term(Literal('1'), false), Term(AnyChar, false),
               Term(Literal('0'), false), Term(AnyChar, false), Term(Literal('0'), true),
               Term(Literal('a'), false), Term(Literal('b'), false), Term(Literal('c'), false)])
  {
    CompileRepeatedZeroPattern();
    CompilePlainPrefix("-1.0.", "0+abc");
    assert "-1.0." + "0+abc" == "-1.0.0+abc";
    assert PlainTerms("-1.0.") ==
           [Term(Literal('-'), false), Term(Literal('1'), false), Term(AnyChar, false),
            Term(Literal('0'), false), Term(AnyChar, false)];
    var head := [Term(Literal('-'), false), Term(Literal('1'), false), Term(AnyChar, false),
                 Term(Literal('0'), false), Term(AnyChar, false)];
    var tail := [Term(Literal('0'), true), Term(Literal('a'), false), Term(Literal('b'), false),
                 Term(Literal('c'), false)];
    assert head + tail ==
           [Term(Literal('-'), false), Term(Literal('1'), false), Term(AnyChar, false),
            Term(Literal('0'), false), Term(AnyChar, false), Term(Literal('0'), true),
            Term(Literal('a'), false), Term(Literal('b'), false), Term(Literal('c'), false)];
  }

  /** The pattern "-1.5": "-", "1", any character, "5". */
  lemma CompileDotPattern()
    ensures CompilePattern("-1.5") == Some(
              [Term(Literal('-'), false), Term(Literal('1'), false), Term(AnyChar, false),
               Term(Literal('5'), false)])
  {
    CompilePlainPrefix("-1.5", "");
    assert CompilePattern("") == Some([]);
    assert "-1.5" + "" == "-1.5";
    assert CompilePattern("-1.5") == Some(PlainTerms("-1.5") + []);
    assert PlainTerms("-1.5") + [] == PlainTerms("-1.5");
    assert PlainTerms("-1.5") ==
           [Term(Literal('-'), false), Term(Literal('1'), false), Term(AnyChar, false),
            Term(Literal('5'), false)];
  }

  /** Neither the chart nor the pattern holds syntax other than "." and "+". */
  lemma BuildMetadataSyntax()
    ensures DotPlusOnly("app-1.0.0+abc") && DotPlusOnly("-1.0.0+abc")
    ensures "-" + "1.0.0+abc" == "-1.0.0+abc"
  {
  }

  lemma BuildMetadataVersion(release: HelmRelease)
    requires release.chart == "app-1.0.0+abc"
    ensures GetVersion(release) == "1.0.0+abc"
  {
    var s := release.chart;
    assert NoLineTerminator(s);
    forall k | 0 <= k < 4
      ensures !MatchesAt(s, k)
    {
      MatchesAtSimple(s, k);
    }
    MatchesAtSimple(s, 4);
    assert VersionStart(s, 0) == Some(4);
  }

  /** After "-1.0.", the terms "0+abc" fail on the "0+abc" of the chart: "+" is not "a". */
  lemma RepeatedZeroNoMatch(tail: seq<Term>)
    requires tail ==
              [Term(Literal('0'), true), Term(Literal('a'), false), Term(Literal('b'), false),
               Term(Literal('c'), false)]
    ensures MatchEnd(tail, "app-1.0.0+abc", 8).None?
  {
    var s := "app-1.0.0+abc";
    assert RunOf(Literal('0'), s, 9) == 0;
    assert RunOf(Literal('0'), s, 8) == 1;
    assert MatchEnd(tail[1..], s, 9).None?;
    assert TryRepeat(tail, s, 8, 0).None?;
    assert TryRepeat(tail, s, 8, 1).None?;
  }

  /** "-1.0.0+abc" read as a pattern matches nowhere in "app-1.0.0+abc". */
  lemma BuildMetadataNoMatch(terms: seq<Term>)
    requires terms ==
              [Term(Literal('-'), false), Term(Literal('1'), false), Term(AnyChar, false),
               Term(Literal('0'), false), Term(AnyChar, false), Term(Literal('0'), true),
               Term(Literal('a'), false), Term(Literal('b'), false), Term(Literal('c'), false)]
    ensures FirstMatch(terms, "app-1.0.0+abc", 0).None?
  {
    var s := "app-1.0.0+abc";
    RepeatedZeroNoMatch(terms[5..]);
    assert terms[4..][1..] == terms[5..];
    assert MatchEnd(terms[4..], s, 7).None?;
    assert terms[3..][1..] == terms[4..];
    assert MatchEnd(terms[3..], s, 6).None?;
    assert terms[2..][1..] == terms[3..];
    assert MatchEnd(terms[2..], s, 5).None?;
    assert terms[1..][1..] == terms[2..];
    assert MatchEnd(terms[1..], s, 4).None?;
    assert MatchEnd(terms, s, 3).None?;
    forall q | 0 <= q <= |s|
      ensures MatchEnd(terms, s, q).None?
    {
      if q != 3 {
        assert q == |s| || s[q] != '-';
      }
    }
  }

  /** getChart() as written, once the version and its pattern are known. */
  lemma AsWrittenRemovesFirstMatch(release: HelmRelease, version: string, terms: seq<Term>)
    requires DotPlusOnly(release.chart) && GetVersion(release) == version && version != ""
    requires DotPlusOnly("-" + version) && CompilePattern("-" + version) == Some(terms)
    ensures GetChartAsWritten(release, false) == Some(CutFirstMatch(release.chart, FirstMatch(terms, release.chart, 0)))
  {
  }

  /** getChart() on the literal version, once the version is known. */
  lemma LiteralRemovesSuffix(release: HelmRelease, name: string, version: string)
    requires NoLineTerminator(release.chart)
    requires GetVersion(release) == version && version != ""
    requires release.chart == name + "-" + version
    ensures GetChart(release, false) == name
  {
    ChartNameAndVersion(release);
    var c := GetChart(release, false);
    assert |c| == |name|;
    assert c == (c + "-" + version)[..|name|] == release.chart[..|name|] == name;
  }

  /** getChart on the literal version removes "-1.0.0+abc" from "app-1.0.0+abc". */
  lemma BuildMetadataLiteral(release: HelmRelease)
    requires release.chart == "app-1.0.0+abc"
    ensures GetChart(release, false) == "app"
  {
    assert NoLineTerminator(release.chart);
    assert "app" + "-" + "1.0.0+abc" == release.chart;
    BuildMetadataVersion(release);
    LiteralRemovesSuffix(release, "app", "1.0.0+abc");
  }

  /** getChart() as written leaves "app-1.0.0+abc" whole. */
  lemma BuildMetadataKept(release: HelmRelease)
    requires release.chart == "app-1.0.0+abc"
    ensures GetChartAsWritten(release, false) == Some("app-1.0.0+abc")
  {
    BuildMetadataSyntax();
    BuildMetadataVersion(release);
    CompileBuildMetadataPattern();
    var version := "1.0.0+abc";
    var terms := CompilePattern("-1.0.0+abc").value;
    BuildMetadataNoMatch(terms);
    AsWrittenRemovesFirstMatch(release, version, terms);
  }

  /**
   * A version with SemVer build metadata is not removed: in
   * "app-1.0.0+abc" the "+" repeats the "0" before it, so the pattern
   * "-1.0.0+abc" does not match its own text and the chart comes back
   * whole, where getChart on the literal version gives "app".
   */
  lemma BuildMetadataNotStripped(release: HelmRelease)
    requires release.chart == "app-1.0.0+abc"
    ensures GetChartAsWritten(release, false) == Some("app-1.0.0+abc")
    ensures GetVersion(release) == "1.0.0+abc"
    ensures GetChart(release, false) == "app"
  {
    BuildMetadataKept(release);
    BuildMetadataVersion(release);
    BuildMetadataLiteral(release);
  }

  lemma DotSyntax()
    ensures DotPlusOnly("a-1-5-1.5") && DotPlusOnly("-1.5")
    ensures "-" + "1.5" == "-1.5"
    ensures "a-1-5-1.5"[..1] + "a-1-5-1.5"[5..] == "a-1.5"
  {
  }

  lemma DotVersion(release: HelmRelease)
    requires release.chart == "a-1-5-1.5"
    ensures GetVersion(release) == "1.5"
  {
    var s := release.chart;
    assert NoLineTerminator(s);
    forall k | 0 <= k < 6
      ensures !MatchesAt(s, k)
    {
      MatchesAtSimple(s, k);
    }
    MatchesAtSimple(s, 6);
    assert VersionStart(s, 0) == Some(6);
  }

  /** "-1.5" read as a pattern first matches "-1-5" in "a-1-5-1.5". */
  lemma DotPatternMatch(terms: seq<Term>)
    requires terms == [Term(Literal('-'), false), Term(Literal('1'), false), Term(AnyChar, false),
                       Term(Literal('5'), false)]
    ensures FirstMatch(terms, "a-1-5-1.5", 0) == Some((1, 5))
  {
    var s := "a-1-5-1.5";
    assert MatchEnd(terms, s, 0).None?;
    assert MatchEnd(terms[3..][1..], s, 5) == Some(5);
    assert MatchEnd(terms[3..], s, 4) == Some(5);
    assert terms[2..][1..] == terms[3..];
    assert MatchEnd(terms[2..], s, 3) == Some(5);
    assert terms[1..][1..] == terms[2..];
    assert MatchEnd(terms[1..], s, 2) == Some(5);
    assert MatchEnd(terms, s, 1) == Some(5);
  }

  /** getChart on the literal version removes "-1.5" from "a-1-5-1.5". */
  lemma DotLiteral(release: HelmRelease)
    requires release.chart == "a-1-5-1.5"
    ensures GetChart(release, false) == "a-1-5"
  {
    assert NoLineTerminator(release.chart);
    assert "a-1-5" + "-" + "1.5" == release.chart;
    DotVersion(release);
    LiteralRemovesSuffix(release, "a-1-5", "1.5");
  }

  /** getChart() as written cuts "-1-5" out of "a-1-5-1.5". */
  lemma DotCutsEarlierText(release: HelmRelease)
    requires release.chart == "a-1-5-1.5"
    ensures GetChartAsWritten(release, false) == Some("a-1.5")
  {
    DotSyntax();
    DotVersion(release);
    CompileDotPattern();
    var version := "1.5";
    var terms := CompilePattern("-1.5").value;
    DotPatternMatch(terms);
    AsWrittenRemovesFirstMatch(release, version, terms);
  }

  /**
   * The "." of a version matches any character: for "a-1-5-1.5" (chart
   * "a-1-5", version "1.5") the pattern "-1.5" first matches "-1-5", and
   * the result is "a-1.5", where getChart on the literal version gives
   * "a-1-5".
   */
  lemma DotMatchesEarlierText(release: HelmRelease)
    requires release.chart == "a-1-5-1.5"
    ensures GetChartAsWritten(release, false) == Some("a-1.5")
    ensures GetVersion(release) == "1.5"
    ensures GetChart(release, false) == "a-1-5"
  {
    DotCutsEarlierText(release);
    DotVersion(release);
    DotLiteral(release);
  }
}
