/** When the candidates of a plugin reference stay in its own repository. */
module PluginRepository {
  import opened Text
  import opened PluginRefs

  /** `c` extends `r` and parses to the host and repository of `r`, with its own tag. */
  predicate KeepsRepository(r: string, c: string)
    requires '/' in r
  {
    r <= c && ParseArtefact(c) == NonEmptyRef(r[..IndexOf(r, '/')], Repository(r), CandidateTag(r, c))
  }

  /** What `parse` will read as the tag holds no second separator. */
  predicate CleanTag(r: string, major: string) {
    match TagStart(r)
    case None => ':' !in major && '@' !in major
    case Some(t) => ':' !in r[t..]
  }

  // ---------------------------------------------------------------- a second separator

  /** `b` starts the tag and holds a second separator; `s` is the platform that ends it. */
  ghost predicate SecondSeparator(a: string, b: string, s: string) {
    && '@' !in a && b != "" && b[0] == ':'
    && (exists j :: 0 < j < |b| && (b[j] == ':' || b[j] == '@'))
    && s != "" && ':' !in s && '@' !in s
  }

  lemma LaterAt(rest: string, a: string, b: string, s: string)
    requires rest == a + b + s && SecondSeparator(a, b, s) && '@' in rest
    ensures |a| < IndexOf(rest, '@') < |rest| - 1
  {
    var at := IndexOf(rest, '@');
    assert forall j :: 0 <= j < |a| ==> rest[j] == a[j];
    assert rest[|a|] == b[0];
    assert forall j :: |a| + |b| <= j < |rest| ==> rest[j] == s[j - |a| - |b|];
  }

  lemma LaterColon(rest: string, a: string, b: string, s: string)
    requires rest == a + b + s && SecondSeparator(a, b, s) && '@' !in rest
    ensures |a| + 1 < AfterLast(rest, ':') < |rest|
  {
    var k := AfterLast(rest, ':');
    var j :| 0 < j < |b| && (b[j] == ':' || b[j] == '@');
    assert rest[|a| + j] == b[j] && rest[|a| + j] in rest;
    NoneAfter(rest, ':', k);
    assert forall i :: |a| + |b| <= i < |rest| ==> rest[i] == s[i - |a| - |b|];
  }

  /** Then `parse` puts the start of the tag into the repository. */
  lemma LongerRepository(c: string, slash: nat, rest: string, a: string, b: string, s: string)
    requires slash == IndexOf(c, '/') && 0 < slash < |c| && rest == c[slash + 1..]
    requires rest == a + b + s && SecondSeparator(a, b, s)
    ensures ParseArtefact(c).Some? && |ParseArtefact(c).value.repository| > |a|
  {
    if '@' in rest {
      LaterAt(rest, a, b, s);
    } else {
      LaterColon(rest, a, b, s);
    }
  }

  // ---------------------------------------------------------------- the three shapes of a candidate

  lemma SecondInMajor(major: string)
    requires ':' in major || '@' in major
    ensures var b := ":protocol-" + major; exists j :: 0 < j < |b| && (b[j] == ':' || b[j] == '@')
  {
    var head, b := ":protocol-", ":protocol-" + major;
    var i :| 0 <= i < |major| && (major[i] == ':' || major[i] == '@');
    assert b[|head| + i] == major[i];
  }

  lemma BareSeparators(a: string, p: string, major: string)
    requires '@' !in a && p in PLATFORM_SUFFIX_TOKENS && (':' in major || '@' in major)
    ensures SecondSeparator(a, ":protocol-" + major, "-" + p)
    ensures FloatingTag(major, p) == ":protocol-" + major + ("-" + p)
  {
    PlatformsPlain(p);
    SecondInMajor(major);
  }

  lemma CutBare(r: string, slash: nat, b: string, s: string)
    requires slash < |r|
    ensures (r + (b + s))[slash + 1..] == r[slash + 1..] + b + s
  {
  }

  /** A bare reference whose floating tag takes a separator from the protocol major. */
  lemma BareDirty(r: string, p: string, major: string)
    requires '/' in r && '@' !in r && r[0] != '/' && TagStart(r).None? && p in PLATFORM_SUFFIX_TOKENS
    requires ':' in major || '@' in major
    ensures !KeepsRepository(r, r + FloatingTag(major, p))
  {
    var c, slash := r + FloatingTag(major, p), IndexOf(r, '/');
    var a, b, s := r[slash + 1..], ":protocol-" + major, "-" + p;
    SlashKept(r, FloatingTag(major, p));
    BareSeparators(a, p, major);
    CutBare(r, slash, b, s);
    LongerRepository(c, slash, c[slash + 1..], a, b, s);
  }

  lemma SecondInTag(tag: string)
    requires ':' in tag
    ensures var b := ":" + tag; exists j :: 0 < j < |b| && (b[j] == ':' || b[j] == '@')
  {
    var i :| 0 <= i < |tag| && tag[i] == ':';
    assert (":" + tag)[i + 1] == ':';
  }

  lemma CutAtTag(r: string, c: string, slash: nat, t: nat)
    requires r <= c && slash + 1 <= t - 1 < t <= |r| && r[t - 1] == ':'
    ensures c[slash + 1..] == r[slash + 1..t - 1] + (":" + c[t..])
  {
  }

  /** A tag with a second colon, up to a platform that ends it. */
  lemma TaggedDirty(r: string, t: nat, tag: string, s: string, c: string)
    requires '/' in r && '@' !in r && r[0] != '/' && TagStart(r) == Some(t)
    requires r <= c && '/' !in c[|r|..] && c[t..] == tag + s && ':' in tag
    requires s != "" && ':' !in s && '@' !in s
    ensures !KeepsRepository(r, c)
  {
    var slash := IndexOf(r, '/');
    TagAfterSlash(r, t);
    var a, b := r[slash + 1..t - 1], ":" + tag;
    SlashKept(r, c[|r|..]);
    assert c == r + c[|r|..];
    SecondInTag(tag);
    CutAtTag(r, c, slash, t);
    assert c[slash + 1..] == a + b + s;
    LongerRepository(c, slash, c[slash + 1..], a, b, s);
  }

  lemma WholeDirty(r: string, t: nat)
    requires '/' in r && '@' !in r && r[0] != '/' && TagStart(r) == Some(t)
    requires HasPlatformSuffix(r[t..]) && ':' in r[t..]
    ensures !KeepsRepository(r, r)
  {
    var tag := r[t..];
    var i :| 0 <= i < |PLATFORM_SUFFIX_TOKENS|
      && (tag == PLATFORM_SUFFIX_TOKENS[i] || HasSuffix(tag, "-" + PLATFORM_SUFFIX_TOKENS[i]));
    PlatformsPlain(PLATFORM_SUFFIX_TOKENS[i]);
    var s := "-" + PLATFORM_SUFFIX_TOKENS[i];
    var head := tag[..|tag| - |s|];
    assert tag == head + s;
    TaggedDirty(r, t, head, s, r);
  }

  lemma ExtendedDirty(r: string, p: string, major: string)
    requires '/' in r && '@' !in r && r[0] != '/' && p in PLATFORM_SUFFIX_TOKENS && !CleanTag(r, major)
    ensures !KeepsRepository(r, r + Extension(r, p, major))
  {
    if TagStart(r).None? {
      BareDirty(r, p, major);
    } else {
      var t := TagStart(r).value;
      PlatformsPlain(p);
      SliceConcat(r, "-" + p, 0, t);
      TaggedDirty(r, t, r[t..], "-" + p, r + ("-" + p));
    }
  }

  lemma SomeCandidateLeaves(reference: string, platform: string, major: string)
    requires var r := Stripped(reference); '/' in r && '@' !in r && r[0] != '/' && !CleanTag(r, major)
    requires platform in PLATFORM_SUFFIX_TOKENS
    ensures exists c <- Candidates(reference, platform, major) :: !KeepsRepository(Stripped(reference), c)
  {
    var r := Stripped(reference);
    var cs := Candidates(reference, platform, major);
    CandidateShape(reference, platform, major);
    if |cs| == 1 {
      WholeDirty(r, TagStart(r).value);
    } else {
      ExtendedDirty(r, platform, major);
    }
    assert cs[0] in cs && !KeepsRepository(r, cs[0]);
  }

  // ---------------------------------------------------------------- no host

  lemma NoHostKeeps(r: string, c: string)
    requires r != "" && r[0] == '/' && r <= c
    ensures KeepsRepository(r, c)
  {
    assert r[..0] == "" && c[..0] == "";
    IndexOfUnique(r, '/', 0);
    IndexOfUnique(c, '/', 0);
  }

  lemma CandidatesExtend(reference: string, platform: string, major: string, c: string)
    requires c in Candidates(reference, platform, major)
    ensures Stripped(reference) <= c
  {
    CandidateShape(reference, platform, major);
  }

  /**
   Every candidate of a reference without digest stays in the reference's own repository exactly when
   its tag - the one written, or the one made from the protocol major - holds no second separator, or
   the reference names no host and nothing parses at all.
   */
  lemma CandidatesKeepRepositoryIff(reference: string, platform: string, major: string)
    requires var r := Stripped(reference); '/' in r && '@' !in r
    requires platform in PLATFORM_SUFFIX_TOKENS && '/' !in major
    ensures (forall c <- Candidates(reference, platform, major) :: KeepsRepository(Stripped(reference), c))
       <==> Stripped(reference)[0] == '/' || CleanTag(Stripped(reference), major)
  {
    var r := Stripped(reference);
    if r[0] == '/' {
      forall c <- Candidates(reference, platform, major) ensures KeepsRepository(r, c) {
        CandidatesExtend(reference, platform, major, c);
        NoHostKeeps(r, c);
      }
    } else if CleanTag(r, major) {
      forall c <- Candidates(reference, platform, major) ensures KeepsRepository(r, c) {
        CandidatesKeepRepository(reference, platform, major, c);
      }
    } else {
      SomeCandidateLeaves(reference, platform, major);
    }
  }

  // ---------------------------------------------------------------- what an artefact is

  /** `ref` written with a digest, or with a tag. */
  predicate Spells(s: string, ref: ArtefactRef) {
    && ref.host != "" && '/' !in ref.host && ref.repository != "" && '@' !in ref.repository && ref.reference != ""
    && (|| s == ref.host + "/" + (ref.repository + "@" + ref.reference)
        || ('@' !in ref.reference && ':' !in ref.reference && s == ref.host + "/" + (ref.repository + ":" + ref.reference)))
  }

  lemma HostCut(host: string, rest: string)
    requires '/' !in host
    ensures var s := host + "/" + rest;
            IndexOf(s, '/') == |host| && s[..|host|] == host && s[|host| + 1..] == rest
  {
    var s := host + "/" + rest;
    assert s[..|host|] == host;
    IndexOfUnique(s, '/', |host|);
  }

  lemma DigestCut(repository: string, reference: string)
    requires '@' !in repository
    ensures var rest := repository + "@" + reference;
            IndexOf(rest, '@') == |repository| < |rest| && rest[..|repository|] == repository && rest[|repository| + 1..] == reference
  {
    var rest := repository + "@" + reference;
    assert rest[..|repository|] == repository;
    IndexOfUnique(rest, '@', |repository|);
  }

  lemma TagCut(repository: string, reference: string)
    requires '@' !in repository && '@' !in reference && ':' !in reference
    ensures var rest := repository + ":" + reference;
            && IndexOf(rest, '@') == |rest| && AfterLast(rest, ':') == |repository| + 1
            && rest[..|repository|] == repository && rest[|repository| + 1..] == reference
  {
    var rest := repository + ":" + reference;
    assert rest[|repository| + 1..] == reference;
    AfterLastUnique(rest, ':', |repository| + 1);
  }

  lemma SpelledParses(s: string, ref: ArtefactRef)
    requires Spells(s, ref)
    ensures ParseArtefact(s) == Some(ref)
  {
    if s == ref.host + "/" + (ref.repository + "@" + ref.reference) {
      HostCut(ref.host, ref.repository + "@" + ref.reference);
      DigestCut(ref.repository, ref.reference);
    } else {
      HostCut(ref.host, ref.repository + ":" + ref.reference);
      TagCut(ref.repository, ref.reference);
    }
  }

  lemma RestSpells(host: string, rest: string, ref: ArtefactRef)
    requires '/' !in host && ref.host == host
    requires var at, colon := IndexOf(rest, '@'), AfterLast(rest, ':');
             Some(ref) == if at < |rest| then NonEmptyRef(host, rest[..at], rest[at + 1..])
                          else if colon == 0 then None else NonEmptyRef(host, rest[..colon - 1], rest[colon..])
    ensures Spells(host + "/" + rest, ref)
  {
    if '@' in rest {
      var at := IndexOf(rest, '@');
      assert rest == rest[..at] + "@" + rest[at + 1..];
    } else {
      var colon := AfterLast(rest, ':');
      assert rest == rest[..colon - 1] + ":" + rest[colon..];
    }
  }

  lemma SlashCut(s: string, slash: nat)
    requires slash == IndexOf(s, '/') < |s|
    ensures s == s[..slash] + "/" + s[slash + 1..] && '/' !in s[..slash]
  {
  }

  lemma ParsedRest(s: string, ref: ArtefactRef, slash: nat, rest: string)
    requires ParseArtefact(s) == Some(ref) && slash == IndexOf(s, '/') < |s| && rest == s[slash + 1..]
    ensures ref.host == s[..slash]
    ensures var at, colon := IndexOf(rest, '@'), AfterLast(rest, ':');
            Some(ref) == if at < |rest| then NonEmptyRef(s[..slash], rest[..at], rest[at + 1..])
                         else if colon == 0 then None else NonEmptyRef(s[..slash], rest[..colon - 1], rest[colon..])
  {
  }

  lemma ParsedSpells(s: string, ref: ArtefactRef)
    requires ParseArtefact(s) == Some(ref)
    ensures Spells(s, ref)
  {
    var slash := IndexOf(s, '/');
    SlashCut(s, slash);
    ParsedRest(s, ref, slash, s[slash + 1..]);
    RestSpells(s[..slash], s[slash + 1..], ref);
  }

  /** `parse` reads exactly the strings `host/repository@digest` and `host/repository:tag`. */
  lemma ArtefactIff(s: string, ref: ArtefactRef)
    ensures ParseArtefact(s) == Some(ref) <==> Spells(s, ref)
  {
    if ParseArtefact(s) == Some(ref) {
      ParsedSpells(s, ref);
    }
    if Spells(s, ref) {
      SpelledParses(s, ref);
    }
  }

  lemma HyphenSplits(tag: string, p: string, k: nat)
    requires HasSuffix(tag, "-" + p) && k == |tag| - |p|
    ensures tag == tag[..k] + p && tag[..k][k - 1] == '-'
  {
    var tail := tag[k - 1..];
    assert tail == "-" + p && tail[0] == tag[k - 1] && tail[1..] == tag[k..] == p;
  }

  lemma SuffixSplits(tag: string, p: string)
    requires p in PLATFORM_SUFFIX_TOKENS && (tag == p || HasSuffix(tag, "-" + p))
    ensures exists head :: tag == head + p && (head == "" || head[|head| - 1] == '-')
  {
    if tag == p {
      assert tag == "" + p;
    } else {
      HyphenSplits(tag, p, |tag| - |p|);
    }
  }

  lemma SplitsSuffix(tag: string, head: string, p: string)
    requires p in PLATFORM_SUFFIX_TOKENS && tag == head + p && (head == "" || head[|head| - 1] == '-')
    ensures HasPlatformSuffix(tag)
  {
    var i :| 0 <= i < |PLATFORM_SUFFIX_TOKENS| && PLATFORM_SUFFIX_TOKENS[i] == p;
    if head == "" {
      assert tag == p;
    } else {
      assert tag[|head| - 1..] == "-" + p;
    }
  }

  /** A tag carries a platform when it is one, or ends in a hyphen and one. */
  lemma PlatformSuffixMeans(tag: string)
    ensures HasPlatformSuffix(tag)
       <==> exists head, p :: p in PLATFORM_SUFFIX_TOKENS && tag == head + p && (head == "" || head[|head| - 1] == '-')
  {
    if HasPlatformSuffix(tag) {
      var i :| 0 <= i < |PLATFORM_SUFFIX_TOKENS|
        && (tag == PLATFORM_SUFFIX_TOKENS[i] || HasSuffix(tag, "-" + PLATFORM_SUFFIX_TOKENS[i]));
      SuffixSplits(tag, PLATFORM_SUFFIX_TOKENS[i]);
    }
    if head: string, p: string :| p in PLATFORM_SUFFIX_TOKENS && tag == head + p && (head == "" || head[|head| - 1] == '-') {
      SplitsSuffix(tag, head, p);
    }
  }
}
