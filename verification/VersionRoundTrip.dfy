/** Printing a parsed version and parsing it again. */
module VersionRoundTrip {
  import opened Text
  import opened GatewayVersion

  /** The u64 decimal round trip. */
  lemma ParseDecimal(n: U64)
    ensures ParseU64(Decimal(n)) == Some(n)
  {
    DecimalValue(n);
    assert IsDigit(Decimal(n)[0]);
  }

  lemma CutAt(s: string, i: nat)
    requires i < |s|
    ensures s[..i] + [s[i]] + s[i + 1..] == s
  {
  }

  lemma JoinCons(head: string, rest: seq<string>, c: char)
    requires rest != []
    ensures Join([head] + rest, c) == head + [c] + Join(rest, c)
  {
    assert ([head] + rest)[1..] == rest;
  }

  lemma {:induction false} JoinSplit(s: string, c: char)
    ensures Join(Split(s, c), c) == s
    decreases |s|
  {
    var i := IndexOf(s, c);
    if i < |s| {
      var rest := s[i + 1..];
      JoinSplit(rest, c);
      JoinCons(s[..i], Split(rest, c), c);
      CutAt(s, i);
    } else {
      assert Split(s, c) == [s];
    }
  }

  lemma SplitCons(head: string, rest: string, c: char)
    requires c !in head
    ensures Split(head + [c] + rest, c) == [head] + Split(rest, c)
  {
    var s := head + [c] + rest;
    assert s[..|head|] == head && s[|head| + 1..] == rest;
    IndexOfUnique(s, c, |head|);
  }

  lemma {:induction false} SplitJoin(parts: seq<string>, c: char)
    requires parts != [] && forall i :: 0 <= i < |parts| ==> c !in parts[i]
    ensures Split(Join(parts, c), c) == parts
  {
    if |parts| == 1 {
      IndexOfUnique(parts[0], c, |parts[0]|);
    } else {
      SplitJoin(parts[1..], c);
      SplitCons(parts[0], Join(parts[1..], c), c);
      assert parts == [parts[0]] + parts[1..];
    }
  }

  lemma {:induction false} JoinLacks(parts: seq<string>, sep: char, c: char)
    requires c != sep && forall i :: 0 <= i < |parts| ==> c !in parts[i]
    ensures c !in Join(parts, sep)
  {
    if |parts| <= 1 {
    } else {
      JoinLacks(parts[1..], sep, c);
    }
  }

  /** What parsing leaves in a version: identifiers that are nonempty and hold neither `.` nor `+`. */
  predicate Plain(v: Version) {
    forall i :: 0 <= i < |v.pre| ==> v.pre[i] != [] && '.' !in v.pre[i] && '+' !in v.pre[i]
  }

  lemma {:induction false} SplitLacks(s: string, sep: char, c: char)
    requires c !in s
    ensures forall i :: 0 <= i < |Split(s, sep)| ==> c !in Split(s, sep)[i]
    decreases |s|
  {
    var i := IndexOf(s, sep);
    if i == |s| {
    } else {
      SplitLacks(s[i + 1..], sep, c);
      assert c !in s[..i];
    }
  }

  lemma TrimmedIsPlain(t: string)
    ensures ParseTrimmed(t).Some? ==> Plain(ParseTrimmed(t).value)
  {
    var v := t[..IndexOf(t, '+')];
    var dash := IndexOf(v, '-');
    if dash < |v| {
      assert '+' !in v[dash + 1..];
      SplitLacks(v[dash + 1..], '.', '+');
    }
  }

  lemma ParsedIsPlain(version: string)
    ensures Parse(version).Some? ==> Plain(Parse(version).value)
  {
    var t := Trim(version);
    TrimmedIsPlain(if t != [] && t[0] == 'v' then t[1..] else t);
  }

  // ---------------------------------------------------------------- the core

  predicate CoreChars(s: string) {
    forall i :: 0 <= i < |s| ==> IsDigit(s[i]) || s[i] == '.'
  }

  lemma DisplayCoreShape(v: Version)
    ensures var core := DisplayCore(v);
            CoreChars(core) && core != [] && IsDigit(core[0]) && IsDigit(core[|core| - 1])
  {
    var a, b, c := Decimal(v.major), Decimal(v.minor), Decimal(v.patch);
    assert IsDigit(a[0]) && IsDigit(c[|c| - 1]);
    assert DisplayCore(v) == a + "." + b + "." + c;
  }

  lemma SplitCore(v: Version)
    ensures Split(DisplayCore(v), '.') == [Decimal(v.major), Decimal(v.minor), Decimal(v.patch)]
  {
    var a, b, c := Decimal(v.major), Decimal(v.minor), Decimal(v.patch);
    JoinCons(b, [c], '.');
    JoinCons(a, [b] + [c], '.');
    assert [a] + ([b] + [c]) == [a, b, c];
    assert a + "." + (b + "." + c) == DisplayCore(v);
    SplitJoin([a, b, c], '.');
  }

  lemma ParseThree(t: string, core: string, a: string, b: string, c: string)
    requires IndexOf(t, '+') == |t| && t[..|t|] == t
    requires IndexOf(t, '-') == |core| < |t| && t[..|core|] == core
    requires Split(core, '.') == [a, b, c] && ParseU64(a).Some? && ParseU64(b).Some? && ParseU64(c).Some?
    ensures ParseTrimmed(t)
         == if [] in Split(t[|core| + 1..], '.') then None
            else Some(Version(ParseU64(a).value, ParseU64(b).value, ParseU64(c).value, Split(t[|core| + 1..], '.')))
  {
  }

  lemma ParseCores(v: Version)
    ensures ParseU64(Decimal(v.major)) == Some(v.major)
    ensures ParseU64(Decimal(v.minor)) == Some(v.minor)
    ensures ParseU64(Decimal(v.patch)) == Some(v.patch)
  {
    ParseDecimal(v.major);
    ParseDecimal(v.minor);
    ParseDecimal(v.patch);
  }

  lemma ParsePieces(v: Version, core: string, p: string, t: string)
    requires IndexOf(t, '+') == |t| && IndexOf(t, '-') == |core| < |t| && t[..|core|] == core && t[|core| + 1..] == p
    requires Split(core, '.') == [Decimal(v.major), Decimal(v.minor), Decimal(v.patch)]
    ensures ParseTrimmed(t)
         == if [] in Split(p, '.') then None
            else Some(Version(v.major, v.minor, v.patch, Split(p, '.')))
  {
    ParseCores(v);
    assert t[..|t|] == t;
    ParseThree(t, core, Decimal(v.major), Decimal(v.minor), Decimal(v.patch));
  }

  lemma DashSplits(core: string, p: string, t: string)
    requires CoreChars(core) && '+' !in p && t == core + "-" + p
    ensures IndexOf(t, '+') == |t| && IndexOf(t, '-') == |core| && t[..|core|] == core && t[|core| + 1..] == p
  {
    assert t[..|core|] == core;
    assert t[..|t|] == t;
    IndexOfUnique(t, '+', |t|);
    IndexOfUnique(t, '-', |core|);
  }

  /** Parsing `core-p` for a printed core and any `p` without `+`. */
  lemma ParseAfterCore(v: Version, p: string)
    requires '+' !in p
    ensures ParseTrimmed(DisplayCore(v) + "-" + p)
         == if [] in Split(p, '.') then None
            else Some(Version(v.major, v.minor, v.patch, Split(p, '.')))
  {
    var core := DisplayCore(v);
    DisplayCoreShape(v);
    DashSplits(core, p, core + "-" + p);
    SplitCore(v);
    ParsePieces(v, core, p, core + "-" + p);
  }

  lemma ParseCoreAlone(v: Version)
    ensures ParseTrimmed(DisplayCore(v)) == Some(v.(pre := []))
  {
    var t := DisplayCore(v);
    DisplayCoreShape(v);
    IndexOfUnique(t, '+', |t|);
    assert t[..|t|] == t;
    IndexOfUnique(t, '-', |t|);
    SplitCore(v);
    ParseCores(v);
  }

  // ---------------------------------------------------------------- trimming

  /** Trimming a string that starts with a kept character removes exactly trailing whitespace. */
  lemma {:induction false} TrimEndPrefix(s: string, k: nat)
    requires 0 < k <= |s| && !IsWhitespace(s[k - 1])
    ensures var t := TrimEnd(s); k <= |t| <= |s| && t == s[..|t|]
    ensures |TrimEnd(s)| == |s| <==> !IsWhitespace(s[|s| - 1])
    decreases |s|
  {
    if IsWhitespace(s[|s| - 1]) {
      var u := s[..|s| - 1];
      TrimEndPrefix(u, k);
      assert TrimEnd(s) == TrimEnd(u);
      var t := TrimEnd(u);
      assert u[..|t|] == s[..|t|];
    }
  }

  lemma DigitNotSpace(c: char)
    requires IsDigit(c) || c == '-'
    ensures !IsWhitespace(c) && c != 'v'
  {
  }

  function LastChar(v: Version): char
    requires Plain(v) && v.pre != []
  {
    var id := v.pre[|v.pre| - 1];
    id[|id| - 1]
  }

  lemma LastOfConcat(a: string, b: string)
    requires b != []
    ensures (a + b)[|a + b| - 1] == b[|b| - 1]
  {
  }

  lemma {:induction false} JoinEndsWith(parts: seq<string>, c: char)
    requires parts != [] && parts[|parts| - 1] != []
    ensures var s, id := Join(parts, c), parts[|parts| - 1]; s != [] && s[|s| - 1] == id[|id| - 1]
  {
    if |parts| == 1 {
    } else {
      var rest := parts[1..];
      JoinEndsWith(rest, c);
      assert rest[|rest| - 1] == parts[|parts| - 1];
      LastOfConcat(parts[0] + [c], Join(rest, c));
    }
  }

  lemma KeptPart(core: string, p: string, d: string, t: string)
    requires d == core + "-" + p && |core| + 1 <= |t| <= |d| && t == d[..|t|]
    ensures var kept := t[|core| + 1..]; t == core + "-" + kept && kept <= p && (|t| == |d| <==> kept == p)
  {
    assert t[..|core|] == core && t[|core|] == '-';
    assert t[|core| + 1..] == p[..|t| - |core| - 1];
  }

  lemma DisplayEnds(v: Version)
    requires Plain(v) && v.pre != []
    ensures var d := Display(v); d[|d| - 1] == LastChar(v)
  {
    JoinEndsWith(v.pre, '.');
    LastOfConcat(DisplayCore(v) + "-", Join(v.pre, '.'));
  }

  /** What is left of a printed version after trimming: its core, and a prefix of its pre-release. */
  lemma TrimmedDisplay(v: Version, p: string) returns (kept: string)
    requires Plain(v) && v.pre != [] && p == Join(v.pre, '.') && TrimStart(Display(v)) == Display(v)
    ensures kept <= p && Parse(Display(v)) == ParseTrimmed(DisplayCore(v) + "-" + kept)
    ensures kept == p <==> !IsWhitespace(LastChar(v))
  {
    var core, d := DisplayCore(v), Display(v);
    DisplayCoreShape(v);
    DisplayEnds(v);
    assert d[0] == core[0] && d[|core|] == '-';
    DigitNotSpace('-');
    DigitNotSpace(core[0]);
    TrimEndPrefix(d, |core| + 1);
    var t := TrimEnd(d);
    KeptPart(core, p, d, t);
    kept := t[|core| + 1..];
  }

  lemma RoundTripPre(v: Version)
    requires Plain(v) && v.pre != [] && TrimStart(Display(v)) == Display(v)
    ensures Parse(Display(v)) == Some(v) <==> !IsWhitespace(LastChar(v))
  {
    var p := Join(v.pre, '.');
    var kept := TrimmedDisplay(v, p);
    JoinLacks(v.pre, '.', '+');
    ParseAfterCore(v, kept);
    if kept == p {
      SplitJoin(v.pre, '.');
      assert [] !in v.pre;
    } else {
      JoinSplit(kept, '.');
      assert Split(kept, '.') != v.pre;
    }
  }

  /**
   For any version `parse` can produce, printing and parsing give it back exactly when its last
   pre-release identifier does not end in whitespace.
   */
  lemma RoundTrip(v: Version)
    requires Plain(v)
    ensures Parse(Display(v)) == Some(v)
       <==> (v.pre == [] || !IsWhitespace(LastChar(v)))
  {
    var core, d := DisplayCore(v), Display(v);
    DisplayCoreShape(v);
    DigitNotSpace(core[0]);
    assert d[0] == core[0] && TrimStart(d) == d;
    if v.pre == [] {
      DigitNotSpace(core[|core| - 1]);
      assert TrimEnd(d) == d;
      ParseCoreAlone(v);
    } else {
      RoundTripPre(v);
    }
  }

  lemma DisplayLacksPlus(v: Version)
    requires Plain(v)
    ensures '+' !in Display(v)
  {
    DisplayCoreShape(v);
    JoinLacks(v.pre, '.', '+');
  }

  /** Only the text before the first `+` decides. */
  lemma BuildIgnored(d: string, build: string, t: string)
    requires '+' !in d && t == d + "+" + build
    ensures ParseTrimmed(t) == ParseTrimmed(d)
  {
    assert t[..|d|] == d == d[..|d|];
    IndexOfUnique(t, '+', |d|);
    IndexOfUnique(d, '+', |d|);
  }

  /** Trimming stops at the `+`, so it reaches nothing before it. */
  lemma ShieldTrim(d: string, build: string)
    requires d != [] && !IsWhitespace(d[0]) && d[0] != 'v' && '+' !in d
    ensures Parse(d + "+" + build) == ParseTrimmed(d)
  {
    var s := d + "+" + build;
    assert TrimStart(s) == s;
    TrimEndPrefix(s, |d| + 1);
    var t := TrimEnd(s);
    assert t == d + "+" + t[|d| + 1..];
    BuildIgnored(d, t[|d| + 1..], t);
  }

  /** A version printed with any build metadata behind it always parses back: the `+` shields its end. */
  lemma ShieldedRoundTrip(v: Version, build: string)
    requires Plain(v)
    ensures Parse(Display(v) + "+" + build) == Some(v)
  {
    var core := DisplayCore(v);
    DisplayCoreShape(v);
    DigitNotSpace(core[0]);
    DisplayLacksPlus(v);
    ShieldTrim(Display(v), build);
    if v.pre == [] {
      ParseCoreAlone(v);
    } else {
      JoinLacks(v.pre, '.', '+');
      ParseAfterCore(v, Join(v.pre, '.'));
      SplitJoin(v.pre, '.');
      assert [] !in v.pre;
    }
  }

  /** `1.0.0-a +b` parses to a version that prints as `1.0.0-a `, which parses to another one. */
  lemma RoundTripFails()
    ensures Parse("1.0.0-a +b").Some?
    ensures Parse(Display(Parse("1.0.0-a +b").value)) != Parse("1.0.0-a +b")
  {
    var v := Version(1, 0, 0, ["a "]);
    assert DisplayCore(v) == "1.0.0";
    assert Display(v) + "+" + "b" == "1.0.0-a +b";
    ShieldedRoundTrip(v, "b");
    RoundTrip(v);
  }

  /** `parse` produces exactly the plain versions. */
  lemma ParsedIffPlain(v: Version)
    ensures Plain(v) <==> exists version :: Parse(version) == Some(v)
  {
    if Plain(v) {
      ShieldedRoundTrip(v, "");
    }
    if version :| Parse(version) == Some(v) {
      ParsedIsPlain(version);
    }
  }
}
