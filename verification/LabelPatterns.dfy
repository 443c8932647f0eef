/**
 The two ways the tunnel backfill says "this name is a DNS label": a POSIX regular expression on
 the lowercased name in Postgres, a length test and three GLOB patterns in SQLite.
 */
module LabelPatterns {
  import opened Text

  // ---------------------------------------------------------------- character classes

  datatype Range = Range(lo: char, hi: char)

  predicate InClass(c: char, ranges: seq<Range>) {
    exists i :: 0 <= i < |ranges| && ranges[i].lo <= c <= ranges[i].hi
  }

  /** `[a-z0-9]` and `[a-z0-9-]`. */
  const ALNUM: seq<Range> := [Range('a', 'z'), Range('0', '9')]
  const ALNUM_DASH: seq<Range> := [Range('a', 'z'), Range('0', '9'), Range('-', '-')]

  predicate IsAlnum(c: char) {
    'a' <= c <= 'z' || '0' <= c <= '9'
  }

  predicate IsAlnumDash(c: char) {
    IsAlnum(c) || c == '-'
  }

  lemma Classes(c: char)
    ensures InClass(c, ALNUM) <==> IsAlnum(c)
    ensures InClass(c, ALNUM_DASH) <==> IsAlnumDash(c)
  {
    assert ALNUM[0] == Range('a', 'z') && ALNUM[1] == Range('0', '9');
    assert ALNUM_DASH[0] == Range('a', 'z') && ALNUM_DASH[1] == Range('0', '9') && ALNUM_DASH[2] == Range('-', '-');
  }

  // ---------------------------------------------------------------- regular expressions

  datatype Regex =
    | One(ranges: seq<Range>)
    | Cat(first: Regex, rest: Regex)
    | Maybe(body: Regex)
    | Repeat(each: seq<Range>, lo: nat, hi: nat)

  /** The whole string is in the language of the expression. */
  predicate Matches(r: Regex, s: string)
    decreases r
  {
    match r
    case One(k) => |s| == 1 && InClass(s[0], k)
    case Cat(a, b) => exists i :: 0 <= i <= |s| && Matches(a, s[..i]) && Matches(b, s[i..])
    case Maybe(a) => s == [] || Matches(a, s)
    case Repeat(k, lo, hi) => lo <= |s| <= hi && forall i :: 0 <= i < |s| ==> InClass(s[i], k)
  }

  const LABEL_TAIL: Regex := Cat(Repeat(ALNUM_DASH, 0, 61), One(ALNUM))

  /** `^[a-z0-9]([a-z0-9-]{0,61}[a-z0-9])?$` */
  const LABEL_REGEX: Regex := Cat(One(ALNUM), Maybe(LABEL_TAIL))

  // ---------------------------------------------------------------- GLOB

  datatype GlobItem = Star | Lit(c: char) | NotIn(ranges: seq<Range>)

  predicate Glob(p: seq<GlobItem>, s: string)
    decreases |p|
  {
    if p == [] then s == []
    else match p[0]
      case Star => exists i :: 0 <= i <= |s| && Glob(p[1..], s[i..])
      case Lit(c) => s != [] && s[0] == c && Glob(p[1..], s[1..])
      case NotIn(k) => s != [] && !InClass(s[0], k) && Glob(p[1..], s[1..])
  }

  /** `*[^a-z0-9-]*`, `-*` and `*-`. */
  const GLOB_BAD_CHAR: seq<GlobItem> := [Star, NotIn(ALNUM_DASH), Star]
  const GLOB_LEADING_DASH: seq<GlobItem> := [Lit('-'), Star]
  const GLOB_TRAILING_DASH: seq<GlobItem> := [Star, Lit('-')]

  // ---------------------------------------------------------------- the SQLite test

  predicate SqliteAccepts(name: string) {
    && 1 <= |name| <= 63
    && !Glob(GLOB_BAD_CHAR, AsciiLower(name))
    && !Glob(GLOB_LEADING_DASH, name)
    && !Glob(GLOB_TRAILING_DASH, name)
  }

  // ---------------------------------------------------------------- what both mean

  /** 1 to 63 lowercase letters, digits and hyphens, neither first nor last a hyphen. */
  predicate DnsLabel(l: string) {
    && 1 <= |l| <= 63
    && (forall i :: 0 <= i < |l| ==> IsAlnumDash(l[i]))
    && IsAlnum(l[0]) && IsAlnum(l[|l| - 1])
  }

  predicate TailShape(s: string) {
    1 <= |s| <= 62 && (forall i :: 0 <= i < |s| ==> IsAlnumDash(s[i])) && IsAlnum(s[|s| - 1])
  }

  lemma OneMeans(s: string)
    ensures Matches(One(ALNUM), s) <==> |s| == 1 && IsAlnum(s[0])
  {
    if |s| == 1 {
      Classes(s[0]);
    }
  }

  lemma RepeatMeans(s: string)
    ensures Matches(Repeat(ALNUM_DASH, 0, 61), s) <==> |s| <= 61 && forall i :: 0 <= i < |s| ==> IsAlnumDash(s[i])
  {
    forall c: char ensures InClass(c, ALNUM_DASH) <==> IsAlnumDash(c) {
      Classes(c);
    }
  }

  lemma TailJoin(s: string, k: nat)
    requires k + 1 == |s| <= 62 && IsAlnum(s[k..][0]) && forall i :: 0 <= i < k ==> IsAlnumDash(s[..k][i])
    ensures TailShape(s)
  {
    assert forall i :: 0 <= i < k ==> s[..k][i] == s[i];
  }

  lemma TailMeans(s: string)
    ensures Matches(LABEL_TAIL, s) <==> TailShape(s)
  {
    if Matches(LABEL_TAIL, s) {
      var k :| 0 <= k <= |s| && Matches(Repeat(ALNUM_DASH, 0, 61), s[..k]) && Matches(One(ALNUM), s[k..]);
      RepeatMeans(s[..k]);
      OneMeans(s[k..]);
      TailJoin(s, k);
    }
    if TailShape(s) {
      RepeatMeans(s[..|s| - 1]);
      OneMeans(s[|s| - 1..]);
    }
  }

  lemma RestMeans(s: string)
    ensures Matches(Maybe(LABEL_TAIL), s) <==> s == [] || TailShape(s)
  {
    TailMeans(s);
  }

  lemma LabelShape(l: string)
    requires l != []
    ensures DnsLabel(l) <==> IsAlnum(l[0]) && (l[1..] == [] || TailShape(l[1..]))
  {
    assert forall i :: 1 <= i < |l| ==> l[i] == l[1..][i - 1];
  }

  /** The regular expression's language is the DNS labels. */
  lemma RegexMeansLabel(l: string)
    ensures Matches(LABEL_REGEX, l) <==> DnsLabel(l)
  {
    if l != [] {
      RestMeans(l[1..]);
      OneMeans(l[..1]);
      LabelShape(l);
    }
    if Matches(LABEL_REGEX, l) {
      var i :| 0 <= i <= |l| && Matches(One(ALNUM), l[..i]) && Matches(Maybe(LABEL_TAIL), l[i..]);
      OneMeans(l[..i]);
    }
  }

  lemma GlobStarOnly(s: string)
    ensures Glob([Star], s)
  {
    assert [Star][1..] == [];
    assert Glob([], s[|s|..]);
    assert Glob([Star][1..], s[|s|..]);
  }

  lemma LeadingDash(s: string)
    ensures Glob(GLOB_LEADING_DASH, s) <==> s != [] && s[0] == '-'
  {
    assert GLOB_LEADING_DASH[1..] == [Star];
    if s != [] {
      GlobStarOnly(s[1..]);
    }
  }

  lemma DashOnly(t: string)
    ensures Glob(GLOB_TRAILING_DASH[1..], t) <==> t == "-"
  {
    assert GLOB_TRAILING_DASH[1..] == [Lit('-')] && [Lit('-')][1..] == [];
    if t != [] {
      assert t == [t[0]] + t[1..];
      assert t == "-" <==> t[0] == '-' && t[1..] == [];
    }
  }

  lemma TrailingDash(s: string)
    ensures Glob(GLOB_TRAILING_DASH, s) <==> s != [] && s[|s| - 1] == '-'
  {
    if Glob(GLOB_TRAILING_DASH, s) {
      var i :| 0 <= i <= |s| && Glob(GLOB_TRAILING_DASH[1..], s[i..]);
      DashOnly(s[i..]);
      assert s[i..][0] == s[i];
    }
    if s != [] && s[|s| - 1] == '-' {
      assert s[|s| - 1..] == "-";
      DashOnly(s[|s| - 1..]);
      assert Glob(GLOB_TRAILING_DASH[1..], s[|s| - 1..]);
    }
  }

  lemma BadHead(t: string)
    ensures Glob(GLOB_BAD_CHAR[1..], t) <==> t != [] && !IsAlnumDash(t[0])
  {
    var p := GLOB_BAD_CHAR[1..];
    assert p == [NotIn(ALNUM_DASH), Star] && p[1..] == [Star];
    if t != [] {
      Classes(t[0]);
      GlobStarOnly(t[1..]);
    }
  }

  lemma BadChar(s: string)
    ensures Glob(GLOB_BAD_CHAR, s) <==> exists i :: 0 <= i < |s| && !IsAlnumDash(s[i])
  {
    if Glob(GLOB_BAD_CHAR, s) {
      var i :| 0 <= i <= |s| && Glob(GLOB_BAD_CHAR[1..], s[i..]);
      BadHead(s[i..]);
      assert s[i..][0] == s[i];
    }
    if i :| 0 <= i < |s| && !IsAlnumDash(s[i]) {
      BadHead(s[i..]);
      assert s[i..][0] == s[i];
      assert Glob(GLOB_BAD_CHAR[1..], s[i..]);
    }
  }

  /** SQLite accepts exactly the names whose lowercase form is a DNS label. */
  lemma GlobsMeanLabel(name: string)
    ensures SqliteAccepts(name) <==> DnsLabel(AsciiLower(name))
  {
    var l := AsciiLower(name);
    BadChar(l);
    LeadingDash(name);
    TrailingDash(name);
  }
}
