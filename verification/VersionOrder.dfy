/** The order on release versions: its laws, section 11 of Semantic Versioning 2.0.0, the refusal table. */
module VersionOrder {
  import opened Text
  import opened GatewayVersion
  import VersionRoundTrip

  // ---------------------------------------------------------------- identifiers

  lemma IdentifierReverse(a: string, b: string)
    ensures CompareIdentifier(b, a) == CompareIdentifier(a, b).Reverse()
  {
    CompareReverse(a, b);
  }

  /** Equal identifiers are the same number or the same text. */
  lemma IdentifierEqual(a: string, b: string)
    ensures CompareIdentifier(a, b) == Equal
       <==> ParseU64(a) == ParseU64(b) && (ParseU64(a).None? ==> a == b)
  {
    CompareEqual(a, b);
  }

  /** The verdict on (a, c) when neither step goes up. */
  function Chain(x: Ordering, y: Ordering): Ordering {
    if x == Equal then y else x
  }

  lemma IdentifierTransitive(a: string, b: string, c: string)
    requires CompareIdentifier(a, b) != Greater && CompareIdentifier(b, c) != Greater
    ensures CompareIdentifier(a, c) == Chain(CompareIdentifier(a, b), CompareIdentifier(b, c))
  {
    if ParseU64(a).None? && ParseU64(b).None? && ParseU64(c).None? {
      CompareEqual(a, b);
      CompareEqual(b, c);
      if Text.Compare(a, b) == Less && Text.Compare(b, c) == Less {
        CompareTransitive(a, b, c);
      }
    }
  }

  // ---------------------------------------------------------------- identifier lists

  lemma {:induction false} PreReverse(a: seq<string>, b: seq<string>)
    ensures ComparePre(b, a) == ComparePre(a, b).Reverse()
    decreases |a|
  {
    if a == [] || b == [] {
    } else {
      IdentifierReverse(a[0], b[0]);
      PreReverse(a[1..], b[1..]);
    }
  }

  lemma {:induction false} PreTransitive(a: seq<string>, b: seq<string>, c: seq<string>)
    requires ComparePre(a, b) != Greater && ComparePre(b, c) != Greater
    ensures ComparePre(a, c) == Chain(ComparePre(a, b), ComparePre(b, c))
    decreases |a|
  {
    if a == [] || b == [] || c == [] {
    } else {
      IdentifierTransitive(a[0], b[0], c[0]);
      if CompareIdentifier(a[0], b[0]) == Equal && CompareIdentifier(b[0], c[0]) == Equal {
        PreTransitive(a[1..], b[1..], c[1..]);
      }
    }
  }

  /** Same number or same text, identifier by identifier. */
  ghost predicate SamePre(a: seq<string>, b: seq<string>) {
    && |a| == |b|
    && forall i :: 0 <= i < |a| ==> CompareIdentifier(a[i], b[i]) == Equal
  }

  lemma {:induction false} PreEqual(a: seq<string>, b: seq<string>)
    ensures ComparePre(a, b) == Equal <==> SamePre(a, b)
    decreases |a|
  {
    if a == [] || b == [] {
    } else {
      PreEqual(a[1..], b[1..]);
      if SamePre(a[1..], b[1..]) && CompareIdentifier(a[0], b[0]) == Equal {
        forall i | 0 <= i < |a| ensures CompareIdentifier(a[i], b[i]) == Equal {
          if i > 0 {
            assert a[i] == a[1..][i - 1] && b[i] == b[1..][i - 1];
          }
        }
      }
    }
  }

  // ---------------------------------------------------------------- versions: a total preorder

  /** Comparing the other way round reverses the verdict; with it, the order is total. */
  lemma CmpReverse(a: Version, b: Version)
    ensures Cmp(b, a) == Cmp(a, b).Reverse()
  {
    PreReverse(a.pre, b.pre);
  }

  /** Going up or staying twice is going up or staying, and staying only if both did. */
  lemma CmpTransitive(a: Version, b: Version, c: Version)
    requires Cmp(a, b) != Greater && Cmp(b, c) != Greater
    ensures Cmp(a, c) == Chain(Cmp(a, b), Cmp(b, c))
  {
    if a.pre != [] && b.pre != [] && c.pre != []
       && CompareCore(a, b) == Equal && CompareCore(b, c) == Equal {
      PreTransitive(a.pre, b.pre, c.pre);
    }
  }

  predicate SameCore(a: Version, b: Version) {
    a.major == b.major && a.minor == b.minor && a.patch == b.patch
  }

  /** Equal means equal cores and pairwise equal numbers or equal texts. */
  lemma CmpEqual(a: Version, b: Version)
    ensures Cmp(a, b) == Equal <==>
      && SameCore(a, b)
      && |a.pre| == |b.pre|
      && (forall i :: 0 <= i < |a.pre| ==>
           ParseU64(a.pre[i]) == ParseU64(b.pre[i]) && (ParseU64(a.pre[i]).None? ==> a.pre[i] == b.pre[i]))
  {
    PreEqual(a.pre, b.pre);
    forall x, y
      ensures CompareIdentifier(x, y) == Equal
         <==> ParseU64(x) == ParseU64(y) && (ParseU64(x).None? ==> x == y)
    {
      IdentifierEqual(x, y);
    }
  }

  /** A string meets a floor exactly when it parses and the floor is not above what it parses to. */
  lemma AtLeastIff(version: string, floor: Version)
    ensures AtLeast(version, floor) <==> exists v :: Parse(version) == Some(v) && Cmp(floor, v) != Greater
  {
    if Parse(version).Some? {
      CmpReverse(floor, Parse(version).value);
    }
  }

  /** Every version at or above a floor is at or above every lower floor. */
  lemma AtLeastMonotone(version: string, floor: Version, lower: Version)
    requires AtLeast(version, floor) && Cmp(lower, floor) != Greater
    ensures AtLeast(version, lower)
  {
    var v := Parse(version).value;
    CmpReverse(floor, v);
    CmpTransitive(lower, floor, v);
    CmpReverse(lower, v);
  }

  // ---------------------------------------------------------------- section 11 of Semantic Versioning 2.0.0

  predicate AlphabetChar(c: char) {
    '0' <= c <= '9' || 'A' <= c <= 'Z' || 'a' <= c <= 'z' || c == '-'
  }

  /** A pre-release identifier in the standard's alphabet. */
  predicate SemVerIdentifier(s: string) {
    s != [] && forall i :: 0 <= i < |s| ==> AlphabetChar(s[i])
  }

  predicate SemVer(v: Version) {
    forall i :: 0 <= i < |v.pre| ==> SemVerIdentifier(v.pre[i])
  }

  /** Numeric identifiers fit the 64 bits `parse` gives them. */
  predicate FitsU64(s: string) {
    AllDigits(s) ==> Value(s) < U64_LIMIT
  }

  predicate Fits(v: Version) {
    forall i :: 0 <= i < |v.pre| ==> FitsU64(v.pre[i])
  }

  /** Rule 11.4: digits numerically, the rest in ASCII order, numeric below the rest. */
  predicate IdentifierPrecedes(a: string, b: string) {
    if AllDigits(a) && AllDigits(b) then Value(a) < Value(b)
    else if AllDigits(a) || AllDigits(b) then AllDigits(a)
    else Text.Compare(a, b) == Less
  }

  predicate Indistinct(a: string, b: string) {
    !IdentifierPrecedes(a, b) && !IdentifierPrecedes(b, a)
  }

  /** Position `k` is the first difference, and it puts `a` lower. */
  ghost predicate DecidedAt(a: seq<string>, b: seq<string>, k: nat) {
    && k <= |a| && k <= |b|
    && (forall i :: 0 <= i < k ==> Indistinct(a[i], b[i]))
    && (if k < |a| && k < |b| then IdentifierPrecedes(a[k], b[k]) else k == |a| < |b|)
  }

  /** The first difference decides; if there is none, the longer list is higher. */
  ghost predicate PrePrecedes(a: seq<string>, b: seq<string>) {
    exists k: nat :: DecidedAt(a, b, k)
  }

  /** Precedence as the standard words it. */
  ghost predicate Precedes(a: Version, b: Version) {
    || a.major < b.major
    || (a.major == b.major && a.minor < b.minor)
    || (a.major == b.major && a.minor == b.minor && a.patch < b.patch)
    || (SameCore(a, b) && a.pre != [] && b.pre == [])
    || (SameCore(a, b) && a.pre != [] && b.pre != [] && PrePrecedes(a.pre, b.pre))
  }

  /** In the standard's alphabet, exactly the digit strings that fit parse as numbers. */
  lemma NumericParses(a: string)
    requires SemVerIdentifier(a)
    ensures ParseU64(a) == if AllDigits(a) && Value(a) < U64_LIMIT then Some(Value(a)) else None
  {
    assert AlphabetChar(a[0]);
  }

  lemma IdentifierAgrees(a: string, b: string)
    requires SemVerIdentifier(a) && SemVerIdentifier(b) && FitsU64(a) && FitsU64(b)
    ensures CompareIdentifier(a, b) == Less <==> IdentifierPrecedes(a, b)
    ensures CompareIdentifier(a, b) == Equal <==> Indistinct(a, b)
  {
    NumericParses(a);
    NumericParses(b);
    CompareReverse(a, b);
  }

  lemma PrePrecedesShift(a: seq<string>, b: seq<string>)
    requires a != [] && b != [] && Indistinct(a[0], b[0]) && PrePrecedes(a[1..], b[1..])
    ensures PrePrecedes(a, b)
  {
    var x, y := a[1..], b[1..];
    var k: nat :| DecidedAt(x, y, k);
    var n: nat := k + 1;
    forall i | 0 <= i < n ensures Indistinct(a[i], b[i]) {
      if i > 0 {
        assert a[i] == x[i - 1] && b[i] == y[i - 1];
      }
    }
    assert n < |a| && n < |b| ==> a[n] == x[k] && b[n] == y[k];
    assert DecidedAt(a, b, n);
  }

  lemma PrePrecedesStep(a: seq<string>, b: seq<string>)
    requires a != [] && b != []
    ensures PrePrecedes(a, b) <==>
      IdentifierPrecedes(a[0], b[0]) || (Indistinct(a[0], b[0]) && PrePrecedes(a[1..], b[1..]))
  {
    if k: nat :| DecidedAt(a, b, k) {
      if k > 0 {
        assert DecidedAt(a[1..], b[1..], k - 1);
      }
    }
    if IdentifierPrecedes(a[0], b[0]) {
      assert DecidedAt(a, b, 0);
    } else if Indistinct(a[0], b[0]) && PrePrecedes(a[1..], b[1..]) {
      PrePrecedesShift(a, b);
    }
  }

  lemma {:induction false} PreAgrees(a: seq<string>, b: seq<string>)
    requires forall i :: 0 <= i < |a| ==> SemVerIdentifier(a[i]) && FitsU64(a[i])
    requires forall i :: 0 <= i < |b| ==> SemVerIdentifier(b[i]) && FitsU64(b[i])
    ensures ComparePre(a, b) == Less <==> PrePrecedes(a, b)
    decreases |a|
  {
    if a != [] && b != [] {
      IdentifierAgrees(a[0], b[0]);
      PreAgrees(a[1..], b[1..]);
      PrePrecedesStep(a, b);
    } else if a == [] && b != [] {
      assert DecidedAt(a, b, 0);
    }
  }

  /** Where numeric identifiers fit in 64 bits, the order is the standard's precedence. */
  lemma CmpIsPrecedence(a: Version, b: Version)
    requires SemVer(a) && SemVer(b) && Fits(a) && Fits(b)
    ensures Cmp(a, b) == Less <==> Precedes(a, b)
    ensures Cmp(a, b) == Greater <==> Precedes(b, a)
  {
    PreAgrees(a.pre, b.pre);
    PreAgrees(b.pre, a.pre);
    PreReverse(a.pre, b.pre);
  }

  /** Against every version whose identifiers fit, `v` is ordered as the standard orders it. */
  ghost predicate OrderedAsStandard(v: Version) {
    forall w | SemVer(w) && Fits(w) ::
      && (Cmp(v, w) == Less <==> Precedes(v, w))
      && (Cmp(v, w) == Greater <==> Precedes(w, v))
  }

  lemma {:induction false} FirstMisfit(ids: seq<string>) returns (k: nat)
    requires exists i :: 0 <= i < |ids| && !FitsU64(ids[i])
    ensures k < |ids| && !FitsU64(ids[k]) && forall i :: 0 <= i < k ==> FitsU64(ids[i])
  {
    if !FitsU64(ids[0]) {
      k := 0;
    } else {
      var i :| 0 <= i < |ids| && !FitsU64(ids[i]);
      assert !FitsU64(ids[1..][i - 1]);
      var j := FirstMisfit(ids[1..]);
      k := j + 1;
      forall i | 0 <= i < k ensures FitsU64(ids[i]) {
        if i > 0 {
          assert ids[i] == ids[1..][i - 1];
        }
      }
    }
  }

  lemma DashIdentifier()
    ensures SemVerIdentifier("-") && !AllDigits("-") && ParseU64("-") == None
  {
    assert !IsDigit("-"[0]);
  }

  /** An overlong number falls back to text order, where digits sort above the hyphen. */
  lemma MisfitAboveDash(a: string)
    requires SemVerIdentifier(a) && !FitsU64(a)
    ensures CompareIdentifier(a, "-") == Greater && IdentifierPrecedes(a, "-")
  {
    NumericParses(a);
    DashIdentifier();
    assert IsDigit(a[0]);
  }

  lemma {:induction false} DifferAt(a: seq<string>, b: seq<string>, k: nat)
    requires k < |a| && k < |b| && a[..k] == b[..k] && CompareIdentifier(a[k], b[k]) != Equal
    ensures ComparePre(a, b) == CompareIdentifier(a[k], b[k])
    decreases k
  {
    if k == 0 {
    } else {
      assert a[0] == a[..k][0] == b[..k][0] == b[0];
      IdentifierEqual(a[0], b[0]);
      assert a[1..][..k - 1] == a[..k][1..] == b[..k][1..] == b[1..][..k - 1];
      DifferAt(a[1..], b[1..], k - 1);
    }
  }

  lemma PrecedesAt(a: seq<string>, b: seq<string>, k: nat)
    requires k < |a| && k < |b| && a[..k] == b[..k] && IdentifierPrecedes(a[k], b[k])
    ensures PrePrecedes(a, b)
  {
    forall i | 0 <= i < k ensures Indistinct(a[i], b[i]) {
      assert a[i] == a[..k][i] == b[..k][i] == b[i];
      CompareEqual(a[i], b[i]);
    }
    assert DecidedAt(a, b, k);
  }

  /** Fitting in 64 bits is exactly what agreement with the standard takes. */
  lemma OrderedAsStandardIff(v: Version)
    requires SemVer(v)
    ensures OrderedAsStandard(v) <==> Fits(v)
  {
    if Fits(v) {
      forall w | SemVer(w) && Fits(w)
        ensures Cmp(v, w) == Less <==> Precedes(v, w)
        ensures Cmp(v, w) == Greater <==> Precedes(w, v)
      {
        CmpIsPrecedence(v, w);
      }
    } else {
      var k := FirstMisfit(v.pre);
      var w := v.(pre := v.pre[..k] + ["-"]);
      DashIdentifier();
      MisfitAboveDash(v.pre[k]);
      DifferAt(v.pre, w.pre, k);
      assert Cmp(v, w) == Greater;
      PrecedesAt(v.pre, w.pre, k);
      assert Precedes(v, w);
      assert SemVer(w) && Fits(w);
    }
  }

  lemma ParseOnePre(id: string, v: Version)
    requires v == Version(1, 0, 0, [id]) && id != [] && '.' !in id && '+' !in id && !IsWhitespace(id[|id| - 1])
    ensures Parse("1.0.0-" + id) == Some(v)
  {
    assert DisplayCore(v) == "1.0.0";
    assert Display(v) == "1.0.0-" + id;
    VersionRoundTrip.RoundTrip(v);
  }

  lemma DigitsPlain(big: string)
    requires AllDigits(big)
    ensures SemVerIdentifier(big) && '.' !in big && '+' !in big && !IsWhitespace(big[|big| - 1])
  {
  }

  lemma MisfitAboveDashVersion(big: string, v: Version, w: Version)
    requires AllDigits(big) && !FitsU64(big) && v == Version(1, 0, 0, [big]) && w == Version(1, 0, 0, ["-"])
    ensures Precedes(v, w) && Cmp(v, w) == Greater
  {
    DigitsPlain(big);
    MisfitAboveDash(big);
    DifferAt(v.pre, w.pre, 0);
    PrecedesAt(v.pre, w.pre, 0);
  }

  lemma ValueSnoc(s: string, c: char)
    requires IsDigit(c) && forall i :: 0 <= i < |s| ==> IsDigit(s[i])
    ensures Value(s + [c]) == Value(s) * 10 + (c as int - '0' as int)
  {
    assert (s + [c])[..|s|] == s;
  }

  /** Four more digits. */
  lemma ValueFour(s: string, a: char, b: char, c: char, d: char, n: nat)
    requires IsDigit(a) && IsDigit(b) && IsDigit(c) && IsDigit(d) && forall i :: 0 <= i < |s| ==> IsDigit(s[i])
    requires n == 1000 * (a as int - 48) + 100 * (b as int - 48) + 10 * (c as int - 48) + (d as int - 48)
    ensures forall i :: 0 <= i < |s + [a, b, c, d]| ==> IsDigit((s + [a, b, c, d])[i])
    ensures Value(s + [a, b, c, d]) == Value(s) * 10000 + n
  {
    ValueSnoc(s, a);
    ValueSnoc(s + [a], b);
    ValueSnoc(s + [a] + [b], c);
    ValueSnoc(s + [a] + [b] + [c], d);
    assert s + [a] + [b] + [c] + [d] == s + [a, b, c, d];
  }

  lemma SmallestOverlong(big: string)
    requires big == "18446744073709551616"
    ensures AllDigits(big) && !FitsU64(big)
  {
    ValueFour("", '1', '8', '4', '4', 1844);
    ValueFour("" + "1844", '6', '7', '4', '4', 6744);
    ValueFour("" + "1844" + "6744", '0', '7', '3', '7', 737);
    ValueFour("" + "1844" + "6744" + "0737", '0', '9', '5', '5', 955);
    ValueFour("" + "1844" + "6744" + "0737" + "0955", '1', '6', '1', '6', 1616);
    assert big == "" + "1844" + "6744" + "0737" + "0955" + "1616";
  }

  /** One number too large for 64 bits, and `1.0.0-18446744073709551616` sorts above `1.0.0--`, against the standard. */
  lemma OverlongNumber(big: string)
    requires big == "18446744073709551616"
    ensures var v, w := Parse("1.0.0-" + big), Parse("1.0.0-" + "-");
            v.Some? && w.Some? && Precedes(v.value, w.value) && Cmp(v.value, w.value) == Greater
  {
    var v, w := Version(1, 0, 0, [big]), Version(1, 0, 0, ["-"]);
    SmallestOverlong(big);
    DigitsPlain(big);
    ParseOnePre(big, v);
    ParseOnePre("-", w);
    MisfitAboveDashVersion(big, v, w);
  }

  // ---------------------------------------------------------------- refusal

  /** The last refused release of channel `k`. */
  function Cutoff(k: nat): Version
    requires k < |LAST_BEFORE_OVERFLOW_SPLIT|
  {
    var (channel, last) := LAST_BEFORE_OVERFLOW_SPLIT[k];
    Version(0, 1, 0, [channel, Decimal(last)])
  }

  lemma ChannelsDistinct()
    ensures forall i, j | 0 <= i < |LAST_BEFORE_OVERFLOW_SPLIT| && 0 <= j < |LAST_BEFORE_OVERFLOW_SPLIT| ::
              LAST_BEFORE_OVERFLOW_SPLIT[i].0 == LAST_BEFORE_OVERFLOW_SPLIT[j].0 ==> i == j
    ensures forall i :: 0 <= i < |LAST_BEFORE_OVERFLOW_SPLIT| ==> ParseU64(LAST_BEFORE_OVERFLOW_SPLIT[i].0) == None
  {
    assert "alpha"[0] == 'a' && "beta"[0] == 'b' && "canary"[0] == 'c';
    assert !IsDigit("alpha"[0]) && !IsDigit("beta"[0]) && !IsDigit("canary"[0]);
  }

  /** On a listed channel of 0.1.0, refusal is being at most the channel's last refused release. */
  lemma RefusalIsCutoff(v: Version, k: nat)
    requires SameCore(v, SPLIT_LINE) && |v.pre| == 2
    requires k < |LAST_BEFORE_OVERFLOW_SPLIT| && v.pre[0] == LAST_BEFORE_OVERFLOW_SPLIT[k].0
    ensures Refused(v) <==> Cmp(v, Cutoff(k)) != Greater
  {
    var (channel, last) := LAST_BEFORE_OVERFLOW_SPLIT[k];
    VersionRoundTrip.ParseDecimal(last);
    ChannelsDistinct();
    IdentifierEqual(channel, channel);
    var a, b := v.pre, Cutoff(k).pre;
    assert ComparePre(a[1..][1..], b[1..][1..]) == Equal;
    assert ComparePre(a[1..], b[1..]) == CompareIdentifier(a[1], Decimal(last));
    assert ComparePre(a, b) == ComparePre(a[1..], b[1..]);
  }

  /** Within one channel of two-identifier 0.1.0 pre-releases, refusal passes to everything smaller. */
  lemma RefusalDownwardClosed(v: Version, w: Version)
    requires SameCore(v, SPLIT_LINE) && SameCore(w, SPLIT_LINE) && |v.pre| == 2 && |w.pre| == 2
    requires v.pre[0] == w.pre[0]
    requires Refused(v) && Cmp(w, v) != Greater
    ensures Refused(w)
  {
    var k :| 0 <= k < |LAST_BEFORE_OVERFLOW_SPLIT| && LAST_BEFORE_OVERFLOW_SPLIT[k].0 == v.pre[0];
    RefusalIsCutoff(v, k);
    RefusalIsCutoff(w, k);
    CmpTransitive(w, v, Cutoff(k));
  }

  /** Nothing at or above the release 0.1.0 is refused; every released core below 0.1.0 is. */
  lemma RefusalAroundRelease(v: Version)
    ensures Cmp(v, SPLIT_LINE) != Less ==> !Refused(v)
    ensures CompareCore(v, SPLIT_LINE) == Less ==> (Refused(v) <==> !IsUnreleased(v))
  {
  }

  predicate OnChannel(v: Version, k: nat)
    requires k < |LAST_BEFORE_OVERFLOW_SPLIT| && |v.pre| == 2
  {
    v.pre[0] == LAST_BEFORE_OVERFLOW_SPLIT[k].0
  }

  /** The whole table in terms of the order: below the line, or at most a listed channel's last release. */
  lemma RefusedExactly(v: Version)
    ensures Refused(v) <==>
      || (CompareCore(v, SPLIT_LINE) == Less && !IsUnreleased(v))
      || (SameCore(v, SPLIT_LINE) && |v.pre| == 2
          && exists k: nat :: k < |LAST_BEFORE_OVERFLOW_SPLIT| && OnChannel(v, k) && Cmp(v, Cutoff(k)) != Greater)
  {
    RefusalAroundRelease(v);
    if SameCore(v, SPLIT_LINE) && |v.pre| == 2 {
      forall k: nat | k < |LAST_BEFORE_OVERFLOW_SPLIT| && OnChannel(v, k)
        ensures Refused(v) <==> Cmp(v, Cutoff(k)) != Greater
      {
        RefusalIsCutoff(v, k);
      }
      if Refused(v) {
        var k :| 0 <= k < |LAST_BEFORE_OVERFLOW_SPLIT| && LAST_BEFORE_OVERFLOW_SPLIT[k].0 == v.pre[0];
        assert OnChannel(v, k);
      }
    }
  }

  /** Versions that compare equal get the same verdict. */
  lemma RefusalRespectsEqual(v: Version, w: Version)
    requires Cmp(v, w) == Equal
    ensures Refused(v) == Refused(w)
  {
    CmpEqual(v, w);
    ChannelsDistinct();
    if |v.pre| == 2 {
      assert forall k :: 0 <= k < |LAST_BEFORE_OVERFLOW_SPLIT| ==>
        (LAST_BEFORE_OVERFLOW_SPLIT[k].0 == v.pre[0] <==> LAST_BEFORE_OVERFLOW_SPLIT[k].0 == w.pre[0]);
    }
  }

  /** The shape of a refused version, in its own parts. */
  predicate RefusedShape(w: Version) {
    || (CompareCore(w, SPLIT_LINE) == Less && !IsUnreleased(w))
    || (&& SameCore(w, SPLIT_LINE) && |w.pre| == 2 && ParseU64(w.pre[1]).Some?
        && (|| (w.pre[0] == "alpha" && ParseU64(w.pre[1]).value <= 1)
            || (w.pre[0] == "beta" && ParseU64(w.pre[1]).value <= 59)
            || (w.pre[0] == "canary" && ParseU64(w.pre[1]).value <= 917)))
  }

  lemma RefusedHasShape(w: Version)
    ensures Refused(w) <==> RefusedShape(w)
  {
    assert LAST_BEFORE_OVERFLOW_SPLIT[0] == ("alpha", 1) && LAST_BEFORE_OVERFLOW_SPLIT[1] == ("beta", 59);
    assert LAST_BEFORE_OVERFLOW_SPLIT[2] == ("canary", 917);
  }

  /** Every version that sorts at or above `w` being refused forces refusal of `w`. */
  ghost predicate FollowsOrder(w: Version) {
    forall v :: Refused(v) && Cmp(w, v) != Greater ==> Refused(w)
  }

  lemma CutoffsAscend(k: nat)
    requires k < |LAST_BEFORE_OVERFLOW_SPLIT|
    ensures Cmp(Cutoff(k), Cutoff(2)) != Greater
  {
    ChannelsDistinct();
    CmpEqual(Cutoff(2), Cutoff(2));
    assert Text.Compare("alpha", "canary") == Less && Text.Compare("beta", "canary") == Less;
  }

  /** No refused version is above the last refused canary, which is itself refused. */
  lemma LastRefused(v: Version)
    ensures Refused(Cutoff(2))
    ensures Refused(v) ==> Cmp(v, Cutoff(2)) != Greater
  {
    CmpEqual(Cutoff(2), Cutoff(2));
    RefusalIsCutoff(Cutoff(2), 2);
    if Refused(v) && SameCore(v, SPLIT_LINE) {
      var k :| 0 <= k < |LAST_BEFORE_OVERFLOW_SPLIT| && LAST_BEFORE_OVERFLOW_SPLIT[k].0 == v.pre[0];
      RefusalIsCutoff(v, k);
      CutoffsAscend(k);
      CmpTransitive(v, Cutoff(k), Cutoff(2));
    }
  }

  lemma AboveCutoff(w: Version, cutoff: Version, v: Version)
    requires Cmp(w, cutoff) == Greater && Cmp(v, cutoff) != Greater
    ensures Cmp(w, v) == Greater
  {
    CmpReverse(w, cutoff);
    CmpTransitive(v, cutoff, w);
    CmpReverse(v, w);
  }

  /**
   Refusal follows the order at `w` exactly when `w` is refused or sorts above the last refused
   canary: what breaks it is every admitted version up to there.
   */
  lemma RefusalFollowsOrderIff(w: Version)
    ensures FollowsOrder(w) <==> RefusedShape(w) || Cmp(w, Cutoff(2)) == Greater
  {
    RefusedHasShape(w);
    LastRefused(w);
    if Cmp(w, Cutoff(2)) == Greater {
      forall v | Refused(v)
        ensures Cmp(w, v) == Greater
      {
        LastRefused(v);
        AboveCutoff(w, Cutoff(2), v);
      }
    }
  }

  /** Across channels it does not: an admitted alpha sorts below a refused beta. */
  lemma RefusalNotMonotoneAcrossChannels(v: Version, w: Version)
    requires v == Version(0, 1, 0, ["alpha", Decimal(2)]) && w == Version(0, 1, 0, ["beta", Decimal(59)])
    ensures Cmp(v, w) == Less && Refused(w) && !Refused(v)
  {
    VersionRoundTrip.ParseDecimal(2);
    VersionRoundTrip.ParseDecimal(59);
    VersionRoundTrip.ParseDecimal(1);
    ChannelsDistinct();
    assert LAST_BEFORE_OVERFLOW_SPLIT[0] == ("alpha", 1) && LAST_BEFORE_OVERFLOW_SPLIT[1] == ("beta", 59);
    assert CompareIdentifier("alpha", "beta") == Less;
  }

  // ---------------------------------------------------------------- from the version strings

  lemma AtLeastEqual(v: Version, w: Version, floor: Version)
    requires Cmp(v, w) == Equal && Cmp(w, floor) != Less
    ensures Cmp(v, floor) != Less
  {
    CmpReverse(w, floor);
    CmpReverse(v, w);
    CmpTransitive(floor, w, v);
    CmpReverse(floor, v);
  }

  /** Strings that parse to versions comparing Equal are refused alike and pass the same floors. */
  lemma StringsRefusedAlike(s: string, t: string, floor: Version)
    requires Parse(s).Some? && Parse(t).Some? && Cmp(Parse(s).value, Parse(t).value) == Equal
    ensures BeforeOverflowSplit(s) == BeforeOverflowSplit(t)
    ensures AtLeast(s, floor) == AtLeast(t, floor)
  {
    var v, w := Parse(s).value, Parse(t).value;
    RefusalRespectsEqual(v, w);
    CmpReverse(v, w);
    if AtLeast(s, floor) {
      AtLeastEqual(w, v, floor);
    }
    if AtLeast(t, floor) {
      AtLeastEqual(v, w, floor);
    }
  }

  /** A string is refused exactly when it parses to a version of a refused shape; then it is below 0.1.0. */
  lemma StringRefusedIff(s: string)
    ensures BeforeOverflowSplit(s) <==> Parse(s).Some? && RefusedShape(Parse(s).value)
    ensures BeforeOverflowSplit(s) ==> !AtLeast(s, SPLIT_LINE)
  {
    if Parse(s).Some? {
      RefusedHasShape(Parse(s).value);
      RefusalAroundRelease(Parse(s).value);
    }
  }

  // ---------------------------------------------------------------- equal versions

  predicate CanonicalIdentifier(s: string) {
    ParseU64(s).Some? ==> s == Decimal(ParseU64(s).value)
  }

  /** Every numeric identifier is written as its number is printed. */
  predicate Canonical(v: Version) {
    forall i :: 0 <= i < |v.pre| ==> CanonicalIdentifier(v.pre[i])
  }

  function CanonicalText(s: string): (c: string)
    ensures CanonicalIdentifier(c) && CompareIdentifier(s, c) == Equal
  {
    IdentifierEqual(s, s);
    if ParseU64(s).None? then s else
    VersionRoundTrip.ParseDecimal(ParseU64(s).value);
    Decimal(ParseU64(s).value)
  }

  function CanonicalForm(v: Version): (c: Version)
    ensures Canonical(c) && Cmp(v, c) == Equal
  {
    var c := v.(pre := seq(|v.pre|, i requires 0 <= i < |v.pre| => CanonicalText(v.pre[i])));
    PreEqual(v.pre, c.pre);
    c
  }

  /** Comparing Equal to a canonical version means being that version, exactly for canonical versions. */
  lemma EqualIsIdenticalIff(v: Version)
    ensures (forall w | Canonical(w) :: Cmp(v, w) == Equal <==> v == w) <==> Canonical(v)
  {
    if Canonical(v) {
      forall w | Canonical(w)
        ensures Cmp(v, w) == Equal <==> v == w
      {
        CmpEqual(v, w);
        if Cmp(v, w) == Equal {
          assert v.pre == w.pre;
        }
      }
    } else {
      assert Cmp(v, CanonicalForm(v)) == Equal && v != CanonicalForm(v);
    }
  }
}
