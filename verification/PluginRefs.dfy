/** Plugin references and the artefacts they resolve to (src/plugin_layout.rs, src/target_validate.rs). */
module PluginRefs {
  import opened Text

  const PLATFORM_SUFFIX_TOKENS: seq<string> := [
    "linux-amd64", "linux-arm64", "linux-musl-amd64", "linux-musl-arm64", "darwin-amd64",
    "darwin-arm64", "windows-amd64", "windows-arm64", "wasi-wasm"]
  const PORTABLE: string := "wasi-wasm"
  const FIRST_PARTY_PLUGIN_PREFIX: string := "ghcr.io/mcpg-dev/plugins/"

  predicate HasPlatformSuffix(tag: string) {
    exists i :: 0 <= i < |PLATFORM_SUFFIX_TOKENS|
      && (tag == PLATFORM_SUFFIX_TOKENS[i] || HasSuffix(tag, "-" + PLATFORM_SUFFIX_TOKENS[i]))
  }

  /** One leading `oci://` or `oci:` removed. */
  function Stripped(reference: string): string {
    if HasPrefix(reference, "oci://") then reference[6..]
    else if HasPrefix(reference, "oci:") then reference[4..]
    else reference
  }

  /** Where the tag of `r` starts: after the first colon of its last path segment. */
  function TagStart(r: string): Option<nat> {
    var seg := AfterLast(r, '/');
    var colon := IndexOf(r[seg..], ':');
    if seg + colon == |r| then None else Some(seg + colon + 1)
  }

  function FloatingTag(major: string, platform: string): string {
    ":protocol-" + major + "-" + platform
  }

  function Candidates(reference: string, platform: string, major: string): seq<string> {
    var r := Stripped(reference);
    if '@' in r then [r]
    else match TagStart(r)
      case None => [r + FloatingTag(major, platform), r + FloatingTag(major, PORTABLE)]
      case Some(t) =>
        if HasPlatformSuffix(r[t..]) then [r] else [r + "-" + platform, r + "-" + PORTABLE]
  }

  datatype ArtefactRef = ArtefactRef(host: string, repository: string, reference: string)

  function NonEmptyRef(host: string, repository: string, reference: string): Option<ArtefactRef> {
    if host == "" || repository == "" || reference == "" then None
    else Some(ArtefactRef(host, repository, reference))
  }

  /** `host/repo:tag` or `host/repo@digest`. */
  function ParseArtefact(artefact: string): Option<ArtefactRef> {
    var slash := IndexOf(artefact, '/');
    if slash == |artefact| then None else
    var host, rest := artefact[..slash], artefact[slash + 1..];
    var at := IndexOf(rest, '@');
    if at < |rest| then NonEmptyRef(host, rest[..at], rest[at + 1..])
    else
      var colon := AfterLast(rest, ':');
      if colon == 0 then None else NonEmptyRef(host, rest[..colon - 1], rest[colon..])
  }

  /** `trim_start_matches("oci://")`: every leading repetition. */
  function TrimOci(reference: string): string {
    if HasPrefix(reference, "oci://") then TrimOci(reference[6..]) else reference
  }

  predicate IsFirstPartyPluginRef(reference: string) {
    HasPrefix(TrimOci(reference), FIRST_PARTY_PLUGIN_PREFIX)
  }

  // ---------------------------------------------------------------- resolution settles

  /** Resolving `c` gives `c` itself. */
  predicate Settled(c: string) {
    Stripped(c) == c && ('@' in c || (TagStart(c).Some? && HasPlatformSuffix(c[TagStart(c).value..])))
  }

  lemma SettledIff(c: string, platform: string, major: string)
    ensures Candidates(c, platform, major) == [c] <==> Settled(c)
  {
  }

  const FIRST_TOKENS: seq<string> := PLATFORM_SUFFIX_TOKENS[..4]
  const LAST_TOKENS: seq<string> := PLATFORM_SUFFIX_TOKENS[4..]

  lemma FirstPlain(p: string)
    requires p in FIRST_TOKENS
    ensures p != "" && '/' !in p && ':' !in p && '@' !in p
  {
    var i :| 0 <= i < 4 && PLATFORM_SUFFIX_TOKENS[i] == p;
  }

  lemma LastPlain(p: string)
    requires p in LAST_TOKENS
    ensures p != "" && '/' !in p && ':' !in p && '@' !in p
  {
    var i :| 4 <= i < 9 && PLATFORM_SUFFIX_TOKENS[i] == p;
  }

  lemma PlatformsPlain(p: string)
    requires p in PLATFORM_SUFFIX_TOKENS
    ensures p != "" && '/' !in p && ':' !in p && '@' !in p
  {
    assert PLATFORM_SUFFIX_TOKENS == FIRST_TOKENS + LAST_TOKENS;
    if p in FIRST_TOKENS {
      FirstPlain(p);
    } else {
      LastPlain(p);
    }
  }

  lemma PortableKnown()
    ensures PORTABLE in PLATFORM_SUFFIX_TOKENS
  {
    assert PLATFORM_SUFFIX_TOKENS[8] == PORTABLE;
  }

  /** Appending slash-free text leaves the last segment where it was. */
  lemma SegmentKept(r: string, ext: string)
    requires '/' !in ext
    ensures AfterLast(r + ext, '/') == AfterLast(r, '/')
  {
    var seg := AfterLast(r, '/');
    SliceConcat(r, ext, 0, seg);
    AfterLastUnique(r + ext, '/', seg);
  }

  lemma FirstColonKept(s: string, ext: string)
    requires ':' in s
    ensures IndexOf(s + ext, ':') == IndexOf(s, ':')
  {
    var colon := IndexOf(s, ':');
    SliceConcat(s, ext, 0, colon);
    IndexOfUnique(s + ext, ':', colon);
  }

  /** A tag keeps its start when the text after it grows. */
  lemma TagStartKept(r: string, ext: string)
    requires '/' !in ext && TagStart(r).Some?
    ensures TagStart(r + ext) == TagStart(r)
    ensures (r + ext)[TagStart(r).value..] == r[TagStart(r).value..] + ext
  {
    SegmentKept(r, ext);
    var seg := AfterLast(r, '/');
    SliceConcat(r, ext, 0, seg);
    FirstColonKept(r[seg..], ext);
    SliceConcat(r, ext, 0, TagStart(r).value);
  }

  lemma TagStartIs(c: string, seg: nat, colon: nat)
    requires AfterLast(c, '/') == seg && IndexOf(c[seg..], ':') == colon && seg + colon < |c|
    ensures TagStart(c) == Some(seg + colon + 1)
  {
  }

  lemma FirstColonNew(s: string, ext: string)
    requires ':' !in s && ext != [] && ext[0] == ':'
    ensures IndexOf(s + ext, ':') == |s|
  {
    SliceConcat(s, ext, 0, |s|);
    IndexOfUnique(s + ext, ':', |s|);
  }

  lemma TagStartFresh(r: string, ext: string, seg: nat)
    requires seg <= |r| && AfterLast(r + ext, '/') == seg && ':' !in r[seg..] && ext != [] && ext[0] == ':'
    ensures TagStart(r + ext) == Some(|r| + 1)
  {
    SliceConcat(r, ext, 0, seg);
    FirstColonNew(r[seg..], ext);
    TagStartIs(r + ext, seg, |r| - seg);
  }

  lemma BareSegment(r: string)
    requires TagStart(r).None?
    ensures ':' !in r[AfterLast(r, '/')..]
  {
  }

  /** A bare reference gains its tag right at its end. */
  lemma TagStartNew(r: string, ext: string)
    requires '/' !in ext && TagStart(r).None? && ext != [] && ext[0] == ':'
    ensures TagStart(r + ext) == Some(|r| + 1)
  {
    BareSegment(r);
    SegmentKept(r, ext);
    TagStartFresh(r, ext, AfterLast(r, '/'));
  }

  lemma EndsWithPlatform(tag: string, p: string)
    requires p in PLATFORM_SUFFIX_TOKENS && HasSuffix(tag, "-" + p)
    ensures HasPlatformSuffix(tag)
  {
    var i :| 0 <= i < |PLATFORM_SUFFIX_TOKENS| && PLATFORM_SUFFIX_TOKENS[i] == p;
  }

  lemma FloatingEnd(head: string, tail: string)
    requires head != []
    ensures HasSuffix((head + tail)[1..], tail)
  {
    assert (head + tail)[1..] == head[1..] + tail;
  }

  lemma FloatingPlain(major: string, p: string)
    requires '/' !in major && p in PLATFORM_SUFFIX_TOKENS
    ensures '/' !in FloatingTag(major, p) && FloatingTag(major, p)[0] == ':'
    ensures HasSuffix(FloatingTag(major, p)[1..], "-" + p)
  {
    PlatformsPlain(p);
    FloatingEnd(":protocol-" + major, "-" + p);
    assert ":protocol-" + major + "-" + p == (":protocol-" + major) + ("-" + p);
  }

  /** What a reference that carries no digest and no platform may gain. */
  function Extension(r: string, p: string, major: string): string {
    if TagStart(r).None? then FloatingTag(major, p) else "-" + p
  }

  lemma ExtendedTag(r: string, p: string, major: string)
    requires p in PLATFORM_SUFFIX_TOKENS && '/' !in major
    ensures var c := r + Extension(r, p, major);
            TagStart(c).Some? && HasPlatformSuffix(c[TagStart(c).value..])
  {
    PlatformsPlain(p);
    var ext := Extension(r, p, major);
    if TagStart(r).None? {
      FloatingPlain(major, p);
      TagStartNew(r, ext);
      assert (r + ext)[|r| + 1..] == ext[1..];
      EndsWithPlatform(ext[1..], p);
    } else {
      TagStartKept(r, ext);
      var tag := r[TagStart(r).value..] + ext;
      assert tag[|tag| - |ext|..] == ext;
      EndsWithPlatform(tag, p);
    }
  }

  lemma OciHead(c: string)
    ensures HasPrefix(c, "oci:") ==> c[0] == 'o' && c[1] == 'c' && c[2] == 'i' && c[..3] == "oci"
  {
    if HasPrefix(c, "oci:") {
      assert c[0] == c[..4][0] && c[1] == c[..4][1] && c[2] == c[..4][2];
      assert c[..3] == c[..4][..3] == "oci:"[..3] == "oci";
    }
  }

  lemma OciPrefixKept(r: string, ext: string)
    requires r != "oci" && ext != [] && (ext[0] == ':' || ext[0] == '-')
    ensures HasPrefix(r + ext, "oci:") <==> HasPrefix(r, "oci:")
  {
    var c := r + ext;
    if |r| >= 4 {
      assert c[..4] == r[..4];
    } else {
      assert c[|r|] == ext[0];
      if |r| == 3 {
        assert c[..3] == r;
        OciHead(c);
      } else {
        OciHead(c);
      }
    }
  }

  lemma NoColonIsBare(r: string)
    requires ':' !in r
    ensures TagStart(r).None?
  {
  }

  lemma ExtendedStripped(r: string, p: string, major: string)
    ensures var c := r + Extension(r, p, major); Stripped(c) == c <==> !HasPrefix(r + ":", "oci:")
  {
    var ext := Extension(r, p, major);
    var c := r + ext;
    assert ext[0] == ':' || ext[0] == '-';
    assert HasPrefix(c, "oci://") ==> c[..4] == "oci://"[..4] == "oci:";
    if r == "oci" {
      NoColonIsBare(r);
      assert c[..4] == "oci:" && (r + ":")[..4] == "oci:";
    } else {
      OciPrefixKept(r, ext);
      OciPrefixKept(r, ":");
    }
  }

  lemma CandidateShape(reference: string, platform: string, major: string)
    ensures var r := Stripped(reference);
            var whole := '@' in r || (TagStart(r).Some? && HasPlatformSuffix(r[TagStart(r).value..]));
            Candidates(reference, platform, major)
            == if whole then [r] else [r + Extension(r, platform, major), r + Extension(r, PORTABLE, major)]
  {
    var r := Stripped(reference);
    assert r + ("-" + platform) == r + "-" + platform;
    assert r + ("-" + PORTABLE) == r + "-" + PORTABLE;
  }

  lemma ExtensionSettled(r: string, p: string, platform: string, major: string)
    requires p in PLATFORM_SUFFIX_TOKENS && '/' !in major
    ensures var c := r + Extension(r, p, major);
            Candidates(c, platform, major) == [c] <==> !HasPrefix(r + ":", "oci:")
  {
    ExtendedTag(r, p, major);
    ExtendedStripped(r, p, major);
    SettledIff(r + Extension(r, p, major), platform, major);
  }

  lemma StrippedIff(r: string)
    ensures Stripped(r) == r <==> !HasPrefix(r, "oci:")
  {
    assert HasPrefix(r, "oci://") ==> r[..4] == "oci://"[..4] == "oci:";
  }

  lemma WholeSettled(r: string, platform: string, major: string)
    requires '@' in r || (TagStart(r).Some? && HasPlatformSuffix(r[TagStart(r).value..]))
    ensures Candidates(r, platform, major) == [r] <==> !HasPrefix(r + ":", "oci:")
  {
    SettledIff(r, platform, major);
    if r == "oci" {
      NoColonIsBare(r);
    } else {
      StrippedIff(r);
      OciPrefixKept(r, ":");
    }
  }

  /**
   Resolving a candidate gives that candidate and no other, exactly when the reference without its
   one `oci:` prefix does not itself begin like an `oci:` reference.
   */
  lemma CandidatesSettledIff(reference: string, platform: string, major: string)
    requires platform in PLATFORM_SUFFIX_TOKENS && '/' !in major
    ensures (forall c <- Candidates(reference, platform, major) :: Candidates(c, platform, major) == [c])
       <==> !HasPrefix(Stripped(reference) + ":", "oci:")
  {
    var r := Stripped(reference);
    var cs := Candidates(reference, platform, major);
    CandidateShape(reference, platform, major);
    if |cs| == 1 {
      WholeSettled(r, platform, major);
    } else {
      PortableKnown();
      ExtensionSettled(r, platform, platform, major);
      ExtensionSettled(r, PORTABLE, platform, major);
      assert cs[0] in cs && cs[1] in cs;
    }
  }

  // ---------------------------------------------------------------- host and repository are kept

  /** The repository a bare or tagged reference names, without its tag. */
  function Repository(r: string): string
    requires '/' in r
  {
    var rest := r[IndexOf(r, '/') + 1..];
    var t := TagStart(r);
    if t.None? then rest else r[IndexOf(r, '/') + 1..t.value - 1]
  }

  /** The last segment of a tagged reference holds one colon. */
  predicate OneTag(r: string) {
    TagStart(r).Some? ==> ':' !in r[TagStart(r).value..]
  }

  /** What the tag of a candidate is, given the tag of the reference. */
  function CandidateTag(r: string, c: string): string
    requires r <= c
  {
    match TagStart(r)
    case None => if c == r then "" else c[|r| + 1..]
    case Some(t) => c[t..]
  }

  lemma ParseRest(c: string, slash: nat, rest: string, k: nat)
    requires slash == IndexOf(c, '/') < |c| && rest == c[slash + 1..]
    requires IndexOf(rest, '@') == |rest| && AfterLast(rest, ':') == k > 0
    ensures ParseArtefact(c) == NonEmptyRef(c[..slash], rest[..k - 1], rest[k..])
  {
  }

  lemma SplitAtTag(c: string, slash: nat, t: nat)
    requires slash + 1 <= t - 1 < t <= |c| && '@' !in c && ':' !in c[t..] && c[t - 1] == ':'
    ensures var rest := c[slash + 1..];
            && IndexOf(rest, '@') == |rest|
            && ':' !in rest[t - slash - 1..] && rest[t - slash - 2] == ':'
            && rest[t - slash - 1..] == c[t..] && rest[..t - slash - 2] == c[slash + 1..t - 1]
  {
    var rest := c[slash + 1..];
    assert rest[t - slash - 1..] == c[t..];
  }

  lemma TagAfterSlash(c: string, t: nat)
    requires '/' in c && TagStart(c) == Some(t)
    ensures IndexOf(c, '/') + 1 <= t - 1 < t <= |c| && c[t - 1] == ':'
  {
    var seg := AfterLast(c, '/');
    var colon := IndexOf(c[seg..], ':');
    assert c[seg..][colon] == c[t - 1];
    NoneBefore(c, '/', IndexOf(c, '/'));
  }

  lemma ParseWithTag(c: string, t: nat)
    requires '/' in c && '@' !in c && TagStart(c) == Some(t) && ':' !in c[t..]
    ensures ParseArtefact(c) == NonEmptyRef(c[..IndexOf(c, '/')], c[IndexOf(c, '/') + 1..t - 1], c[t..])
  {
    var slash := IndexOf(c, '/');
    TagAfterSlash(c, t);
    SplitAtTag(c, slash, t);
    AfterLastUnique(c[slash + 1..], ':', t - slash - 1);
    ParseRest(c, slash, c[slash + 1..], t - slash - 1);
  }

  lemma SlashKept(r: string, ext: string)
    requires '/' in r
    ensures IndexOf(r + ext, '/') == IndexOf(r, '/')
  {
    var i := IndexOf(r, '/');
    assert (r + ext)[..i] == r[..i];
    IndexOfUnique(r + ext, '/', i);
  }

  /** `ext` is what the reference gains and `t` where the tag of the result starts. */
  ghost predicate Gains(r: string, ext: string, t: nat) {
    && '/' in r && '@' !in r && '/' !in ext && '@' !in ext
    && |r| < |r + ext| && t <= |r + ext|
    && TagStart(r + ext) == Some(t) && ':' !in (r + ext)[t..]
    && (TagStart(r) == Some(t) || (TagStart(r).None? && t == |r| + 1))
  }

  lemma BareRepository(r: string)
    requires '/' in r && TagStart(r).None?
    ensures Repository(r) == r[IndexOf(r, '/') + 1..|r|]
  {
    assert r[IndexOf(r, '/') + 1..|r|] == r[IndexOf(r, '/') + 1..];
  }

  lemma GainSlices(r: string, ext: string, t: nat)
    requires Gains(r, ext, t)
    ensures var slash := IndexOf(r, '/');
            slash + 1 <= t - 1 && (r + ext)[..slash] == r[..slash] && (r + ext)[slash + 1..t - 1] == Repository(r)
  {
    var slash := IndexOf(r, '/');
    SliceConcat(r, ext, 0, slash);
    if TagStart(r) == Some(t) {
      TagAfterSlash(r, t);
      SliceConcat(r, ext, slash + 1, t - 1);
    } else {
      SliceConcat(r, ext, slash + 1, |r|);
      BareRepository(r);
    }
  }

  lemma GainParses(r: string, ext: string, t: nat)
    requires Gains(r, ext, t)
    ensures ParseArtefact(r + ext) == NonEmptyRef(r[..IndexOf(r, '/')], Repository(r), (r + ext)[t..])
  {
    SlashKept(r, ext);
    GainSlices(r, ext, t);
    ParseWithTag(r + ext, t);
  }

  lemma FloatingTail(major: string, p: string)
    ensures var t := FloatingTag(major, p);
            t == ":" + t[1..] && t[1..] == "protocol-" + major + "-" + p
  {
    assert FloatingTag(major, p)[1..] == "protocol-" + major + "-" + p;
  }

  lemma FloatingText(major: string, p: string)
    requires ':' !in major && '@' !in major && p in PLATFORM_SUFFIX_TOKENS
    ensures var t := FloatingTag(major, p); t[1..] != [] && ':' !in t[1..] && '@' !in t
  {
    PlatformsPlain(p);
    FloatingTail(major, p);
  }

  lemma ExtensionGains(r: string, p: string, major: string) returns (t: nat)
    requires '/' in r && '@' !in r && OneTag(r) && p in PLATFORM_SUFFIX_TOKENS
    requires '/' !in major && (TagStart(r).None? ==> ':' !in major && '@' !in major)
    ensures Gains(r, Extension(r, p, major), t)
    ensures CandidateTag(r, r + Extension(r, p, major)) == (r + Extension(r, p, major))[t..] != ""
  {
    PlatformsPlain(p);
    var ext := Extension(r, p, major);
    if TagStart(r).None? {
      FloatingPlain(major, p);
      TagStartNew(r, ext);
      t := |r| + 1;
      FloatingText(major, p);
      assert (r + ext)[t..] == ext[1..];
    } else {
      t := TagStart(r).value;
      TagStartKept(r, ext);
    }
  }

  lemma ExtensionParses(r: string, p: string, major: string)
    requires '/' in r && '@' !in r && OneTag(r) && p in PLATFORM_SUFFIX_TOKENS
    requires '/' !in major && (TagStart(r).None? ==> ':' !in major && '@' !in major)
    ensures var c := r + Extension(r, p, major);
            ParseArtefact(c) == NonEmptyRef(r[..IndexOf(r, '/')], Repository(r), CandidateTag(r, c))
    ensures CandidateTag(r, r + Extension(r, p, major)) != ""
  {
    var t := ExtensionGains(r, p, major);
    GainParses(r, Extension(r, p, major), t);
  }

  lemma TaggedParts(r: string, t: nat)
    requires '/' in r && TagStart(r) == Some(t) && IndexOf(r, '/') + 1 <= t - 1 < t <= |r|
    ensures Repository(r) == r[IndexOf(r, '/') + 1..t - 1] && CandidateTag(r, r) == r[t..]
  {
  }

  lemma WholeParsesAt(r: string, t: nat)
    requires '/' in r && '@' !in r && TagStart(r) == Some(t) && ':' !in r[t..]
    ensures ParseArtefact(r) == NonEmptyRef(r[..IndexOf(r, '/')], Repository(r), CandidateTag(r, r))
  {
    ParseWithTag(r, t);
    TagAfterSlash(r, t);
    TaggedParts(r, t);
  }

  lemma SuffixNonEmpty(tag: string)
    requires HasPlatformSuffix(tag)
    ensures tag != ""
  {
    forall i | 0 <= i < |PLATFORM_SUFFIX_TOKENS| ensures PLATFORM_SUFFIX_TOKENS[i] != "" {
      PlatformsPlain(PLATFORM_SUFFIX_TOKENS[i]);
    }
  }

  lemma WholeParses(r: string)
    requires '/' in r && '@' !in r && OneTag(r)
    requires TagStart(r).Some? && HasPlatformSuffix(r[TagStart(r).value..])
    ensures CandidateTag(r, r) != ""
    ensures ParseArtefact(r) == NonEmptyRef(r[..IndexOf(r, '/')], Repository(r), CandidateTag(r, r))
  {
    SuffixNonEmpty(r[TagStart(r).value..]);
    WholeParsesAt(r, TagStart(r).value);
  }

  /**
   For a bare or singly tagged `host/repo` reference every candidate parses to the reference's own
   host and repository and differs from the others in its tag only.
   */
  lemma CandidatesKeepRepository(reference: string, platform: string, major: string, c: string)
    requires var r := Stripped(reference); '/' in r && '@' !in r && OneTag(r)
    requires TagStart(Stripped(reference)).None? ==> ':' !in major && '@' !in major
    requires platform in PLATFORM_SUFFIX_TOKENS && '/' !in major && c in Candidates(reference, platform, major)
    ensures var r := Stripped(reference);
            && r <= c && CandidateTag(r, c) != ""
            && ParseArtefact(c) == NonEmptyRef(r[..IndexOf(r, '/')], Repository(r), CandidateTag(r, c))
  {
    var r := Stripped(reference);
    PortableKnown();
    if TagStart(r).Some? && HasPlatformSuffix(r[TagStart(r).value..]) {
      assert c == r by {
        CandidateShape(reference, platform, major);
      }
      WholeParses(r);
    } else {
      assert c == r + Extension(r, platform, major) || c == r + Extension(r, PORTABLE, major) by {
        CandidateShape(reference, platform, major);
      }
      ExtensionParses(r, if c == r + Extension(r, platform, major) then platform else PORTABLE, major);
    }
  }

  /** `protocol-<major>-<platform>` for a bare reference, the tag and `-<platform>` for a tagged one. */
  function FullTag(r: string, platform: string, major: string): string {
    var t := TagStart(r);
    if t.None? then "protocol-" + major + "-" + platform else r[t.value..] + "-" + platform
  }

  lemma ExtensionTag(r: string, p: string, major: string)
    requires p in PLATFORM_SUFFIX_TOKENS
    ensures CandidateTag(r, r + Extension(r, p, major)) == FullTag(r, p, major)
  {
    FloatingTail(major, p);
    if TagStart(r).None? {
      assert (r + FloatingTag(major, p))[|r| + 1..] == FloatingTag(major, p)[1..];
    } else {
      SliceConcat(r, "-" + p, 0, TagStart(r).value);
    }
  }

  /** Native first: the two tags a reference without digest or platform is tried under. */
  lemma CandidateTags(reference: string, platform: string, major: string)
    requires platform in PLATFORM_SUFFIX_TOKENS && '/' !in major
    requires var r := Stripped(reference); '@' !in r && (TagStart(r).Some? ==> !HasPlatformSuffix(r[TagStart(r).value..]))
    ensures var r, cs := Stripped(reference), Candidates(reference, platform, major);
            |cs| == 2 && forall k :: 0 <= k < 2 ==>
              r <= cs[k] && CandidateTag(r, cs[k]) == FullTag(r, if k == 0 then platform else PORTABLE, major)
  {
    var r := Stripped(reference);
    CandidateShape(reference, platform, major);
    PortableKnown();
    ExtensionTag(r, platform, major);
    ExtensionTag(r, PORTABLE, major);
  }

  // ---------------------------------------------------------------- whose plugin it is

  lemma LastOfPrefix(s: string, p: string)
    requires p != []
    ensures HasPrefix(s, p) ==> s[|p| - 1] == p[|p| - 1]
  {
    if HasPrefix(s, p) {
      assert s[..|p|][|p| - 1] == s[|p| - 1];
    }
  }

  lemma NotInTail(r: string, ext: string)
    requires '/' !in ext
    ensures forall j :: |r| <= j < |r + ext| ==> (r + ext)[j] != '/'
  {
    assert forall j :: |r| <= j < |r + ext| ==> (r + ext)[j] == ext[j - |r|] && ext[j - |r|] in ext;
  }

  lemma PrefixNeedsSlash(r: string, ext: string)
    requires '/' !in ext
    ensures HasPrefix(r + ext, FIRST_PARTY_PLUGIN_PREFIX) <==> HasPrefix(r, FIRST_PARTY_PLUGIN_PREFIX)
  {
    var p := FIRST_PARTY_PLUGIN_PREFIX;
    var n := |p|;
    assert p[n - 1] == '/';
    if |r| < n {
      LastOfPrefix(r + ext, p);
      NotInTail(r, ext);
    } else {
      assert (r + ext)[..n] == r[..n];
    }
  }

  /** Every candidate lives in the first-party registry exactly when the stripped reference does. */
  lemma FetchedFromFirstParty(reference: string, platform: string, major: string, c: string)
    requires platform in PLATFORM_SUFFIX_TOKENS && '/' !in major && c in Candidates(reference, platform, major)
    ensures HasPrefix(c, FIRST_PARTY_PLUGIN_PREFIX) <==> HasPrefix(Stripped(reference), FIRST_PARTY_PLUGIN_PREFIX)
  {
    var r := Stripped(reference);
    CandidateShape(reference, platform, major);
    PortableKnown();
    PlatformsPlain(platform);
    PlatformsPlain(PORTABLE);
    if TagStart(r).None? {
      FloatingPlain(major, platform);
      FloatingPlain(major, PORTABLE);
    }
    if c != r {
      var ext := c[|r|..];
      assert c == r + ext && '/' !in ext by {
        assert ext == Extension(r, platform, major) || ext == Extension(r, PORTABLE, major);
      }
      PrefixNeedsSlash(r, ext);
    }
  }

  lemma FifthOfPrefix(s: string, p: string)
    requires |p| > 4
    ensures HasPrefix(s, p) ==> s[4] == p[4] && s[..4] == p[..4]
  {
    if HasPrefix(s, p) {
      assert s[..|p|][4] == s[4] && s[..|p|][..4] == s[..4];
    }
  }

  lemma DoubledPrefix(reference: string)
    requires HasPrefix(reference, "oci://")
    ensures HasPrefix(reference, "oci://oci://") <==> HasPrefix(reference[6..], "oci://")
  {
    var d := "oci://oci://";
    assert d == "oci://" + "oci://";
    assert reference == "oci://" + reference[6..];
    if HasPrefix(reference, d) {
      assert reference[6..][..6] == reference[..12][6..] == d[6..] == "oci://";
    }
    if HasPrefix(reference[6..], "oci://") {
      assert reference[..12] == reference[..6] + reference[6..][..6];
    }
  }

  lemma SixOfDoubled(reference: string)
    ensures HasPrefix(reference, "oci://oci://") ==> HasPrefix(reference, "oci://")
  {
    if HasPrefix(reference, "oci://oci://") {
      assert reference[..6] == reference[..12][..6] == "oci://oci://"[..6] == "oci://";
    }
  }

  lemma PlainPrefix(reference: string)
    requires HasPrefix(reference, "oci:") && !HasPrefix(reference, "oci://")
    ensures HasPrefix(reference, "oci:" + FIRST_PARTY_PLUGIN_PREFIX)
       <==> HasPrefix(reference[4..], FIRST_PARTY_PLUGIN_PREFIX)
    ensures !HasPrefix(reference, "oci://oci://")
  {
    var p := FIRST_PARTY_PLUGIN_PREFIX;
    var n := |p|;
    assert reference == "oci:" + reference[4..];
    if HasPrefix(reference, "oci:" + p) {
      assert reference[4..][..n] == reference[..n + 4][4..] == p;
    }
    if HasPrefix(reference[4..], p) {
      assert reference[..n + 4] == reference[..4] + reference[4..][..n];
    }
    SixOfDoubled(reference);
  }

  lemma NotPlain(reference: string)
    requires !HasPrefix(reference, "oci:")
    ensures !HasPrefix(reference, "oci:" + FIRST_PARTY_PLUGIN_PREFIX) && !HasPrefix(reference, "oci://oci://")
  {
    var p := "oci:" + FIRST_PARTY_PLUGIN_PREFIX;
    FifthOfPrefix(reference, p);
    assert p[..4] == "oci:";
    FifthOfPrefix(reference, "oci://oci://");
    assert "oci://oci://"[..4] == "oci:";
  }

  /**
   The first-party verdict agrees with where the candidates live, except for two spellings: a
   doubled `oci://`, which the verdict sees through and resolution does not, and a plain `oci:`,
   which resolution removes and the verdict does not.
   */
  lemma VerdictMatchesResolution(reference: string)
    ensures (IsFirstPartyPluginRef(reference) <==> HasPrefix(Stripped(reference), FIRST_PARTY_PLUGIN_PREFIX))
       <==> !(HasPrefix(reference, "oci://oci://") && HasPrefix(TrimOci(reference), FIRST_PARTY_PLUGIN_PREFIX))
            && !HasPrefix(reference, "oci:" + FIRST_PARTY_PLUGIN_PREFIX)
  {
    var p := FIRST_PARTY_PLUGIN_PREFIX;
    assert p[0] == 'g';
    if HasPrefix(reference, "oci://") {
      var rest := reference[6..];
      assert reference == "oci://" + rest;
      FifthOfPrefix(reference, "oci:" + p);
      assert reference[4] == "oci://"[4] && ("oci:" + p)[4] == 'g';
      DoubledPrefix(reference);
      assert TrimOci(reference) == TrimOci(rest);
      if HasPrefix(rest, "oci://") {
        assert rest[0] == 'o';
      }
    } else if HasPrefix(reference, "oci:") {
      assert reference[0] == 'o';
      PlainPrefix(reference);
    } else {
      NotPlain(reference);
    }
  }

  lemma PlainFirstParty(plain: string)
    requires plain == FIRST_PARTY_PLUGIN_PREFIX + "x"
    ensures HasPrefix(plain, FIRST_PARTY_PLUGIN_PREFIX) && plain[0] == 'g' && TrimOci(plain) == plain
  {
  }

  lemma OnePrefix(rest: string)
    ensures Stripped("oci://" + rest) == rest && TrimOci("oci://" + rest) == TrimOci(rest)
  {
    var s := "oci://" + rest;
    assert s[..6] == "oci://" && s[6..] == rest;
  }

  lemma LinuxKnown()
    ensures "linux-amd64" in PLATFORM_SUFFIX_TOKENS
  {
    assert PLATFORM_SUFFIX_TOKENS[0] == "linux-amd64";
  }

  /** A doubled `oci://`: called first-party, but neither candidate is in the first-party registry. */
  lemma DoubledSpelling(reference: string, plain: string, c: string)
    requires plain == FIRST_PARTY_PLUGIN_PREFIX + "x" && reference == "oci://" + ("oci://" + plain)
    requires c in Candidates(reference, "linux-amd64", "1")
    ensures IsFirstPartyPluginRef(reference) && !HasPrefix(c, FIRST_PARTY_PLUGIN_PREFIX)
  {
    OnePrefix("oci://" + plain);
    OnePrefix(plain);
    PlainFirstParty(plain);
    assert ("oci://" + plain)[0] == 'o';
    LinuxKnown();
    FetchedFromFirstParty(reference, "linux-amd64", "1", c);
  }

  /** A plain `oci:`: called third-party, but every candidate is in the first-party registry. */
  lemma PlainSpelling(reference: string, c: string)
    requires reference == "oci:" + (FIRST_PARTY_PLUGIN_PREFIX + "x")
    requires c in Candidates(reference, "linux-amd64", "1")
    ensures !IsFirstPartyPluginRef(reference) && HasPrefix(c, FIRST_PARTY_PLUGIN_PREFIX)
  {
    var plain := FIRST_PARTY_PLUGIN_PREFIX + "x";
    assert HasPrefix(plain, FIRST_PARTY_PLUGIN_PREFIX) && plain[0] == 'g';
    assert reference[..4] == "oci:" && reference[4..] == plain && reference[4] == 'g';
    FifthOfPrefix(reference, "oci://");
    assert Stripped(reference) == plain && TrimOci(reference) == reference;
    assert reference[0] == 'o';
    LinuxKnown();
    FetchedFromFirstParty(reference, "linux-amd64", "1", c);
  }

  /** `oci:oci:x`: its first candidate `oci:x-linux-amd64` resolves to something else again. */
  lemma RepeatedPrefixUnsettled()
    ensures exists c <- Candidates("oci:oci:x", "linux-amd64", "1") :: Candidates(c, "linux-amd64", "1") != [c]
  {
    var s := "oci:oci:x";
    assert s[..4] == "oci:" && s[4] == 'o' && s[4..] == "oci:x";
    FifthOfPrefix(s, "oci://");
    assert ("oci:x" + ":")[..4] == "oci:";
    LinuxKnown();
    CandidatesSettledIff(s, "linux-amd64", "1");
  }

  function Repeated(n: nat): string {
    if n == 0 then "" else "oci://" + Repeated(n - 1)
  }

  lemma OneMore(tail: string, n: nat, rest: string)
    requires tail == Repeated(n) + (FIRST_PARTY_PLUGIN_PREFIX + rest)
    ensures "oci://" + tail == Repeated(n + 1) + (FIRST_PARTY_PLUGIN_PREFIX + rest)
  {
    assert ("oci://" + Repeated(n)) + (FIRST_PARTY_PLUGIN_PREFIX + rest) == "oci://" + (Repeated(n) + (FIRST_PARTY_PLUGIN_PREFIX + rest));
  }

  lemma RepeatedStarts(n: nat, x: string)
    requires n > 0
    ensures HasPrefix(Repeated(n) + x, "oci://") && (Repeated(n) + x)[6..] == Repeated(n - 1) + x
  {
    var s := "oci://" + (Repeated(n - 1) + x);
    assert Repeated(n) + x == s;
    assert s[..6] == "oci://";
  }

  lemma OneFewer(tail: string, n: nat, rest: string)
    requires "oci://" + tail == Repeated(n) + (FIRST_PARTY_PLUGIN_PREFIX + rest)
    ensures n > 0 && tail == Repeated(n - 1) + (FIRST_PARTY_PLUGIN_PREFIX + rest)
  {
    var s, plain := "oci://" + tail, FIRST_PARTY_PLUGIN_PREFIX + rest;
    assert s[0] == 'o' && plain[0] == 'g';
    assert Repeated(0) + plain == plain;
    if n > 0 {
      RepeatedStarts(n, plain);
      assert s[6..] == tail;
    }
  }

  lemma NoneRepeated(reference: string)
    requires !HasPrefix(reference, "oci://")
    ensures IsFirstPartyPluginRef(reference)
       <==> exists n, rest :: reference == Repeated(n) + (FIRST_PARTY_PLUGIN_PREFIX + rest)
  {
    var p := FIRST_PARTY_PLUGIN_PREFIX;
    if HasPrefix(reference, p) {
      assert reference == Repeated(0) + (p + reference[|p|..]);
    }
    if n: nat, rest: string :| reference == Repeated(n) + (p + rest) {
      if n > 0 {
        RepeatedStarts(n, p + rest);
        assert false;
      } else {
        assert reference == p + rest;
        assert reference[..|p|] == p;
      }
    }
  }

  /** First-party means the first-party prefix behind any number of `oci://`. */
  lemma {:induction false} FirstPartyIff(reference: string)
    ensures IsFirstPartyPluginRef(reference)
       <==> exists n, rest :: reference == Repeated(n) + (FIRST_PARTY_PLUGIN_PREFIX + rest)
    decreases |reference|
  {
    if HasPrefix(reference, "oci://") {
      var tail := reference[6..];
      assert reference == "oci://" + tail;
      OnePrefix(tail);
      FirstPartyIff(tail);
      if n: nat, rest: string :| tail == Repeated(n) + (FIRST_PARTY_PLUGIN_PREFIX + rest) {
        OneMore(tail, n, rest);
      }
      if n: nat, rest: string :| reference == Repeated(n) + (FIRST_PARTY_PLUGIN_PREFIX + rest) {
        OneFewer(tail, n, rest);
      }
    } else {
      NoneRepeated(reference);
    }
  }
}
