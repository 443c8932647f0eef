/** Which strings `parse` accepts and what they mean, as concatenations of their parts. */
module VersionGrammar {
  import opened Text
  import opened GatewayVersion
  import opened VersionRoundTrip

  predicate Space(s: string) {
    forall i :: 0 <= i < |s| ==> IsWhitespace(s[i])
  }

  /** A decimal text of `n`, with any leading zeros. */
  predicate Number(s: string, n: nat) {
    AllDigits(s) && Value(s) == n
  }

  /** The parts a version is written in. */
  datatype Parts = Parts(before: string, lead: string, major: string, minor: string, patch: string, build: string, after: string)

  function CoreText(p: Parts): string {
    p.major + "." + p.minor + "." + p.patch
  }

  function PreText(pre: seq<string>): string {
    if pre == [] then "" else "-" + Join(pre, '.')
  }

  /** What is written between the surrounding whitespace. */
  function Middle(p: Parts, pre: seq<string>): string {
    p.lead + (CoreText(p) + PreText(pre) + p.build)
  }

  /** The parts write `v`: an optional `v`, three numbers, nonempty identifiers, an optional build. */
  predicate Write(p: Parts, v: Version) {
    && Space(p.before) && Space(p.after)
    && (p.lead == "" || p.lead == "v")
    && Number(p.major, v.major) && Number(p.minor, v.minor) && Number(p.patch, v.patch)
    && Plain(v)
    && (p.build == "" || p.build[0] == '+')
    && !IsWhitespace(Middle(p, v.pre)[|Middle(p, v.pre)| - 1])
  }

  function Written(p: Parts, pre: seq<string>): string {
    p.before + Middle(p, pre) + p.after
  }

  // ---------------------------------------------------------------- whitespace

  lemma {:induction false} TrimStartDrops(before: string, s: string)
    requires Space(before) && s != [] && !IsWhitespace(s[0])
    ensures TrimStart(before + s) == s
  {
    if before == [] {
      assert before + s == s;
    } else {
      assert (before + s)[1..] == before[1..] + s;
      TrimStartDrops(before[1..], s);
    }
  }

  lemma {:induction false} TrimEndDrops(s: string, after: string)
    requires Space(after) && s != [] && !IsWhitespace(s[|s| - 1])
    ensures TrimEnd(s + after) == s
    decreases |after|
  {
    if after == [] {
      assert s + after == s;
    } else {
      var t := s + after;
      assert t[..|t| - 1] == s + after[..|after| - 1];
      TrimEndDrops(s, after[..|after| - 1]);
    }
  }

  lemma TrimDrops(before: string, s: string, after: string)
    requires Space(before) && Space(after) && s != [] && !IsWhitespace(s[0]) && !IsWhitespace(s[|s| - 1])
    ensures Trim(before + s + after) == s
  {
    assert before + s + after == before + (s + after);
    TrimStartDrops(before, s + after);
    TrimEndDrops(s, after);
  }

  lemma {:induction false} TrimStartSplits(s: string) returns (before: string)
    ensures Space(before) && s == before + TrimStart(s)
    ensures TrimStart(s) != [] ==> !IsWhitespace(TrimStart(s)[0])
  {
    if s == [] || !IsWhitespace(s[0]) {
      before := [];
    } else {
      var rest := TrimStartSplits(s[1..]);
      before := [s[0]] + rest;
      assert s == [s[0]] + s[1..] == before + TrimStart(s[1..]);
    }
  }

  lemma {:induction false} TrimEndSplits(s: string) returns (after: string)
    ensures Space(after) && s == TrimEnd(s) + after
    ensures TrimEnd(s) != [] ==> !IsWhitespace(TrimEnd(s)[|TrimEnd(s)| - 1])
    decreases |s|
  {
    if s == [] || !IsWhitespace(s[|s| - 1]) {
      after := [];
    } else {
      var init := s[..|s| - 1];
      var rest := TrimEndSplits(init);
      after := rest + [s[|s| - 1]];
      assert s == init + [s[|s| - 1]] == TrimEnd(s) + after;
    }
  }

  lemma TrimSplits(s: string) returns (before: string, after: string)
    ensures Space(before) && Space(after) && s == before + Trim(s) + after
    ensures Trim(s) != [] ==> !IsWhitespace(Trim(s)[|Trim(s)| - 1])
  {
    before := TrimStartSplits(s);
    after := TrimEndSplits(TrimStart(s));
    assert before + (Trim(s) + after) == before + Trim(s) + after;
  }

  // ---------------------------------------------------------------- numbers

  lemma NumberParses(s: string, n: U64)
    requires Number(s, n)
    ensures ParseU64(s) == Some(n)
  {
    assert IsDigit(s[0]);
  }

  /** Where no `+` can stand, only digits parse. */
  lemma ParsedNumber(s: string)
    requires '+' !in s && ParseU64(s).Some?
    ensures Number(s, ParseU64(s).value)
  {
    assert s != [] ==> s[0] in s;
  }

  // ---------------------------------------------------------------- from the parts to the version

  lemma DigitsLackDot(s: string)
    requires AllDigits(s)
    ensures '.' !in s
  {
  }

  lemma JoinThree(a: string, b: string, c: string)
    ensures Join([a, b, c], '.') == a + "." + b + "." + c
  {
    JoinCons(b, [c], '.');
    JoinCons(a, [b] + [c], '.');
    assert [a] + ([b] + [c]) == [a, b, c];
    assert a + "." + (b + "." + c) == a + "." + b + "." + c;
  }

  lemma DotsSplit(a: string, b: string, c: string)
    requires AllDigits(a) && AllDigits(b) && AllDigits(c)
    ensures Split(a + "." + b + "." + c, '.') == [a, b, c]
  {
    DigitsLackDot(a);
    DigitsLackDot(b);
    DigitsLackDot(c);
    JoinThree(a, b, c);
    SplitJoin([a, b, c], '.');
  }

  lemma DotsShape(a: string, b: string, c: string, core: string)
    requires AllDigits(a) && AllDigits(b) && AllDigits(c) && core == a + "." + b + "." + c
    ensures CoreChars(core) && core != [] && IsDigit(core[0])
  {
    assert core[0] == a[0];
  }

  lemma CoreSplits(p: Parts, v: Version)
    requires Write(p, v)
    ensures Split(CoreText(p), '.') == [p.major, p.minor, p.patch]
    ensures CoreChars(CoreText(p)) && CoreText(p) != [] && IsDigit(CoreText(p)[0])
  {
    DotsSplit(p.major, p.minor, p.patch);
    DotsShape(p.major, p.minor, p.patch, CoreText(p));
  }

  lemma BareParses(p: Parts, v: Version, core: string)
    requires Write(p, v) && v.pre == [] && core == CoreText(p)
    ensures ParseTrimmed(core) == Some(v) && '+' !in core
  {
    CoreSplits(p, v);
    IndexOfUnique(core, '+', |core|);
    assert core[..|core|] == core;
    IndexOfUnique(core, '-', |core|);
    NumberParses(p.major, v.major);
    NumberParses(p.minor, v.minor);
    NumberParses(p.patch, v.patch);
  }

  lemma TaggedParses(p: Parts, v: Version, core: string, t: string)
    requires Write(p, v) && v.pre != [] && core == CoreText(p) && t == core + "-" + Join(v.pre, '.')
    ensures ParseTrimmed(t) == Some(v) && '+' !in t
  {
    CoreSplits(p, v);
    JoinLacks(v.pre, '.', '+');
    DashSplits(core, Join(v.pre, '.'), t);
    assert t[..|t|] == t;
    NumberParses(p.major, v.major);
    NumberParses(p.minor, v.minor);
    NumberParses(p.patch, v.patch);
    SplitJoin(v.pre, '.');
    ParseThree(t, core, p.major, p.minor, p.patch);
    assert [] !in v.pre;
  }

  lemma WithBuild(d: string, build: string)
    requires '+' !in d && (build == "" || build[0] == '+')
    ensures ParseTrimmed(d + build) == ParseTrimmed(d)
  {
    if build == "" {
      assert d + build == d;
    } else {
      assert build == "+" + build[1..];
      assert d + "+" + build[1..] == d + build;
      BuildIgnored(d, build[1..], d + build);
    }
  }

  lemma LeadStripped(p: Parts, v: Version, body: string)
    requires Write(p, v) && body == CoreText(p) + PreText(v.pre) + p.build && CoreText(p) != [] && IsDigit(CoreText(p)[0])
    ensures Parse(Written(p, v.pre)) == ParseTrimmed(body)
  {
    var t := Middle(p, v.pre);
    assert body[0] == CoreText(p)[0];
    DigitNotSpace(body[0]);
    if p.lead == "" {
      assert t == body;
    } else {
      assert t[0] == 'v' && t[1..] == body;
    }
    TrimDrops(p.before, t, p.after);
  }

  lemma WrittenParses(p: Parts, v: Version)
    requires Write(p, v)
    ensures Parse(Written(p, v.pre)) == Some(v)
  {
    var core, d := CoreText(p), CoreText(p) + PreText(v.pre);
    CoreSplits(p, v);
    if v.pre == [] {
      assert d == core;
      BareParses(p, v, core);
    } else {
      assert d == core + "-" + Join(v.pre, '.');
      TaggedParses(p, v, core, d);
    }
    WithBuild(d, p.build);
    LeadStripped(p, v, d + p.build);
  }

  // ---------------------------------------------------------------- from the version to the parts

  /** A text cut at its first `c`, or whole. */
  lemma CutAtFirst(s: string, c: char)
    ensures var i := IndexOf(s, c);
            && s == s[..i] + s[i..]
            && (i < |s| ==> s[i..] == [c] + s[i + 1..])
  {
  }

  lemma TailJoins(text: string, dash: nat, pre: seq<string>)
    requires dash < |text| && text[dash] == '-' && pre == Split(text[dash + 1..], '.')
    ensures text[dash..] == PreText(pre)
  {
    JoinSplit(text[dash + 1..], '.');
    assert text[dash..] == "-" + text[dash + 1..];
  }

  lemma PreIsTail(text: string, dash: nat, v: Version)
    requires dash == IndexOf(text, '-') && v.pre == if dash == |text| then [] else Split(text[dash + 1..], '.')
    ensures text[dash..] == PreText(v.pre)
  {
    if dash < |text| {
      TailJoins(text, dash, v.pre);
    }
  }

  /** The body of a parsed string in its parts. */
  /** What `parse` found in a body, piece by piece. */
  lemma BodyParsed(body: string, v: Version, text: string, core: string) returns (a: string, b: string, c: string)
    requires ParseTrimmed(body) == Some(v) && text == body[..IndexOf(body, '+')] && core == text[..IndexOf(text, '-')]
    ensures Split(core, '.') == [a, b, c]
    ensures ParseU64(a) == Some(v.major) && ParseU64(b) == Some(v.minor) && ParseU64(c) == Some(v.patch)
    ensures v.pre == if IndexOf(text, '-') == |text| then [] else Split(text[IndexOf(text, '-') + 1..], '.')
  {
    var parts := Split(core, '.');
    a, b, c := parts[0], parts[1], parts[2];
  }

  /** The cuts put together again. */
  lemma BodyJoined(body: string, text: string, core: string, pre: seq<string>, p: Parts)
    requires body == text + p.build && text == core + PreText(pre) && core == CoreText(p)
    ensures body == CoreText(p) + PreText(pre) + p.build
  {
  }

  lemma PiecesLackPlus(core: string, a: string, b: string, c: string)
    requires '+' !in core && Split(core, '.') == [a, b, c]
    ensures '+' !in a && '+' !in b && '+' !in c
  {
    SplitLacks(core, '.', '+');
    assert [a, b, c][0] == a && [a, b, c][1] == b && [a, b, c][2] == c;
  }

  /** Each piece of a core without `+` that parses is a number. */
  lemma PieceNumbers(core: string, a: string, b: string, c: string, v: Version)
    requires '+' !in core && Split(core, '.') == [a, b, c]
    requires ParseU64(a) == Some(v.major) && ParseU64(b) == Some(v.minor) && ParseU64(c) == Some(v.patch)
    ensures Number(a, v.major) && Number(b, v.minor) && Number(c, v.patch)
  {
    PiecesLackPlus(core, a, b, c);
    ParsedNumber(a);
    ParsedNumber(b);
    ParsedNumber(c);
  }

  lemma CoreJoined(core: string, a: string, b: string, c: string)
    requires Split(core, '.') == [a, b, c]
    ensures core == a + "." + b + "." + c
  {
    JoinSplit(core, '.');
    JoinThree(a, b, c);
  }

  lemma TextJoined(text: string, core: string, v: Version)
    requires core == text[..IndexOf(text, '-')]
    requires v.pre == if IndexOf(text, '-') == |text| then [] else Split(text[IndexOf(text, '-') + 1..], '.')
    ensures text == core + PreText(v.pre)
  {
    CutAtFirst(text, '-');
    PreIsTail(text, IndexOf(text, '-'), v);
  }

  lemma BodyPieces(body: string, v: Version, text: string) returns (core: string, a: string, b: string, c: string)
    requires ParseTrimmed(body) == Some(v) && text == body[..IndexOf(body, '+')]
    ensures text == core + PreText(v.pre) && core == a + "." + b + "." + c
    ensures Number(a, v.major) && Number(b, v.minor) && Number(c, v.patch)
  {
    core := text[..IndexOf(text, '-')];
    a, b, c := BodyParsed(body, v, text, core);
    CoreJoined(core, a, b, c);
    PieceNumbers(core, a, b, c, v);
    TextJoined(text, core, v);
  }

  lemma BodyParts(body: string, v: Version, before: string, lead: string, after: string) returns (p: Parts)
    requires ParseTrimmed(body) == Some(v)
    ensures body == CoreText(p) + PreText(v.pre) + p.build
    ensures p.before == before && p.lead == lead && p.after == after
    ensures Number(p.major, v.major) && Number(p.minor, v.minor) && Number(p.patch, v.patch)
    ensures p.build == "" || p.build[0] == '+'
  {
    var text := body[..IndexOf(body, '+')];
    var core, a, b, c := BodyPieces(body, v, text);
    CutAtFirst(body, '+');
    p := Parts(before, lead, a, b, c, body[IndexOf(body, '+')..], after);
    BodyJoined(body, text, core, v.pre, p);
  }

  lemma LeadSplits(t: string) returns (lead: string, body: string)
    ensures (lead == "" || lead == "v") && t == lead + body
    ensures body == if t != [] && t[0] == 'v' then t[1..] else t
  {
    lead := if t != [] && t[0] == 'v' then "v" else "";
    body := t[|lead|..];
  }

  lemma Assembled(p: Parts, v: Version, body: string, t: string)
    requires body == CoreText(p) + PreText(v.pre) + p.build && t == p.lead + body
    requires Space(p.before) && Space(p.after) && (p.lead == "" || p.lead == "v") && Plain(v)
    requires Number(p.major, v.major) && Number(p.minor, v.minor) && Number(p.patch, v.patch)
    requires (p.build == "" || p.build[0] == '+') && (t != "" ==> !IsWhitespace(t[|t| - 1]))
    ensures Middle(p, v.pre) == t && Write(p, v)
  {
    assert |t| >= |p.major| > 0;
  }

  lemma PartsOf(s: string, v: Version) returns (p: Parts)
    requires Parse(s) == Some(v)
    ensures Write(p, v) && s == Written(p, v.pre)
  {
    var t := Trim(s);
    var before, after := TrimSplits(s);
    var lead, body := LeadSplits(t);
    p := BodyParts(body, v, before, lead, after);
    ParsedIsPlain(s);
    Assembled(p, v, body, t);
  }

  /**
   `parse` gives `v` for exactly the strings that write it: whitespace, an optional `v`, three decimal
   numbers that fit, nonempty identifiers after a hyphen, an optional build after a `+`, whitespace.
   */
  lemma ParseIff(s: string, v: Version)
    ensures Parse(s) == Some(v) <==> exists p :: Write(p, v) && s == Written(p, v.pre)
  {
    if Parse(s) == Some(v) {
      var p := PartsOf(s, v);
    }
    if p :| Write(p, v) && s == Written(p, v.pre) {
      WrittenParses(p, v);
    }
  }

  /** Anything else parses to nothing. */
  lemma ParseNoneIff(s: string)
    ensures Parse(s) == None <==> forall p, v :: Write(p, v) ==> s != Written(p, v.pre)
  {
    if Parse(s).Some? {
      var p := PartsOf(s, Parse(s).value);
    }
    if p: Parts, v: Version :| Write(p, v) && s == Written(p, v.pre) {
      WrittenParses(p, v);
    }
  }

  // ---------------------------------------------------------------- the printed form

  /** No text of a number is shorter than the printed one. */
  lemma {:induction false} DecimalShortest(s: string)
    requires AllDigits(s)
    ensures |Decimal(Value(s))| <= |s|
    decreases |s|
  {
    if |s| == 1 {
      assert s[..0] == [];
    } else {
      DecimalShortest(s[..|s| - 1]);
    }
  }

  /** Of all the strings that parse to a version, the printed form is the shortest. */
  lemma DisplayShortest(s: string, v: Version)
    requires Parse(s) == Some(v)
    ensures |Display(v)| <= |s|
  {
    var p := PartsOf(s, v);
    DecimalShortest(p.major);
    DecimalShortest(p.minor);
    DecimalShortest(p.patch);
  }

  lemma OneDigit(s: string)
    requires |s| == 1 && IsDigit(s[0])
    ensures Number(s, s[0] as int - '0' as int)
  {
    assert s[..0] == [];
  }

  /** `v1.0.0` is 1.0.0, and so is `1.0.0`. */
  lemma LeadingV()
    ensures Parse("v1.0.0") == Some(Version(1, 0, 0, [])) && Parse("1.0.0") == Some(Version(1, 0, 0, []))
  {
    var v := Version(1, 0, 0, []);
    var p := Parts("", "", "1", "0", "0", "", "");
    OneDigit("1");
    OneDigit("0");
    assert Middle(p, []) == "1.0.0" && Middle(p.(lead := "v"), []) == "v1.0.0";
    assert Written(p, []) == "1.0.0" && Written(p.(lead := "v"), []) == "v1.0.0";
    WrittenParses(p, v);
    WrittenParses(p.(lead := "v"), v);
  }
}
