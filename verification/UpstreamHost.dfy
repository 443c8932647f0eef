/** The host of a federation upstream URL (src/publish_guard.rs, `gated_upstream_host`). */
module UpstreamHost {
  import opened Text
  import opened GuardScan

  predicate IsDelimiter(c: char) {
    c == '/' || c == '?' || c == '#'
  }

  /** Where the authority ends: the first delimiter, or the end. */
  function AuthorityEnd(s: string): (i: nat)
    ensures i <= |s|
    ensures forall j :: 0 <= j < i ==> !IsDelimiter(s[j])
    ensures i < |s| ==> IsDelimiter(s[i])
  {
    if s == [] || IsDelimiter(s[0]) then 0
    else
      var k := AuthorityEnd(s[1..]);
      assert forall j :: 0 < j < k + 1 ==> s[j] == s[1..][j - 1];
      k + 1
  }

  function TrimOpen(s: string): string {
    if s != [] && s[0] == '[' then TrimOpen(s[1..]) else s
  }

  function TrimClose(s: string): string {
    if s != [] && s[|s| - 1] == ']' then TrimClose(s[..|s| - 1]) else s
  }

  predicate IsGatedScheme(scheme: string) {
    scheme == "http" || scheme == "https" || scheme == "ws" || scheme == "wss"
  }

  /** Drop a port: all of a bracketed host, or what stands before the last colon. */
  function WithoutPort(hostPort: string): string {
    var close := AfterLast(hostPort, ']');
    if close > 0 then hostPort[..close]
    else
      var colon := AfterLast(hostPort, ':');
      if colon > 0 then hostPort[..colon - 1] else hostPort
  }

  function GatedUpstreamHost(url: string): Option<string> {
    var sep := Find(url, "://");
    if sep.None? then None else
    var scheme, rest := url[..sep.value], url[sep.value + 3..];
    if !IsGatedScheme(scheme) then None else
    var authority := rest[..AuthorityEnd(rest)];
    var hostPort := authority[AfterLast(authority, '@')..];
    var host := TrimClose(TrimOpen(WithoutPort(hostPort)));
    if host == [] then None else Some(host)
  }

  /** Whether a host is a private address or an obvious local name; `ip` classifies address literals. */
  predicate IsPrivateOrLocalHost(host: string, ip: string -> Option<bool>) {
    match ip(host)
    case Some(private) => private
    case None =>
      var h := AsciiLower(host);
      || h == "localhost" || HasSuffix(h, ".localhost") || HasSuffix(h, ".local")
      || HasSuffix(h, ".internal") || h == "metadata.google.internal"
  }

  // ---------------------------------------------------------------- printing an authority

  /** A registered name or IPv4 address, or an IPv6 address without its brackets. */
  datatype Host = Named(text: string) | V6(text: string)

  predicate Lacks(s: string, chars: string) {
    forall i :: 0 <= i < |s| ==> s[i] !in chars
  }

  predicate PlainHost(h: Host) {
    h.text != [] && match h
      case Named(t) => Lacks(t, "/?#@:[]")
      case V6(t) => Lacks(t, "/?#@[]")
  }

  function ShowHost(h: Host): string {
    match h
    case Named(t) => t
    case V6(t) => "[" + t + "]"
  }

  function ShowHostPort(h: Host, port: Option<string>): string {
    ShowHost(h) + if port.Some? then ":" + port.value else ""
  }

  /** Section 3.2 of RFC 3986: userinfo, host and port, then path, query or fragment. */
  function ShowUrl(scheme: string, userinfo: Option<string>, h: Host, port: Option<string>, tail: string): string {
    scheme + "://" + ((if userinfo.Some? then userinfo.value + "@" else "") + ShowHostPort(h, port) + tail)
  }

  lemma StripAfterBracket(host: string, tail: string)
    requires host != [] && host[|host| - 1] == ']' && ']' !in tail
    ensures WithoutPort(host + tail) == host
  {
    SliceConcat(host, tail, 0, |host|);
    AfterLastUnique(host + tail, ']', |host|);
  }

  lemma StripAfterColon(host: string, port: string)
    requires ']' !in host && ']' !in port && ':' !in port
    ensures WithoutPort(host + (":" + port)) == host
  {
    var s := host + (":" + port);
    assert ']' !in s;
    AfterLastUnique(s, ']', 0);
    assert s[|host|] == ':' && s[|host| + 1..] == port && s[..|host|] == host;
    AfterLastUnique(s, ':', |host| + 1);
  }

  lemma StripPort(h: Host, port: Option<string>)
    requires PlainHost(h) && (port.Some? ==> Lacks(port.value, "/?#@:]"))
    ensures WithoutPort(ShowHostPort(h, port)) == ShowHost(h)
  {
    var tail := if port.Some? then ":" + port.value else "";
    match h
    case V6(t) => StripAfterBracket("[" + t + "]", tail);
    case Named(t) =>
      if port.Some? {
        StripAfterColon(t, port.value);
      } else {
        assert t + "" == t;
        AfterLastUnique(t, ']', 0);
        AfterLastUnique(t, ':', 0);
      }
  }

  lemma StripBrackets(h: Host)
    requires PlainHost(h)
    ensures TrimClose(TrimOpen(ShowHost(h))) == h.text
  {
    match h
    case Named(t) =>
      assert t[0] != '[' && t[|t| - 1] != ']';
    case V6(t) =>
      var s := ShowHost(h);
      assert s[1..] == t + "]" && t[0] != '[';
      assert TrimOpen(s) == t + "]";
      assert (t + "]")[..|t|] == t && t[|t| - 1] != ']';
  }

  lemma SeparatorHead(url: string, i: int)
    ensures OccursAt(url, "://", i) ==> url[i] == ':'
  {
    if OccursAt(url, "://", i) {
      assert url[i] == url[i..i + 3][0];
    }
  }

  lemma SeparatorNotBefore(scheme: string, rest: string)
    requires ':' !in scheme
    ensures forall i :: 0 <= i < |scheme| ==> !OccursAt(scheme + "://" + rest, "://", i)
  {
    var url := scheme + "://" + rest;
    forall i | 0 <= i < |scheme| ensures !OccursAt(url, "://", i) {
      assert url[i] == scheme[i] && scheme[i] in scheme;
      SeparatorHead(url, i);
    }
  }

  lemma FindSeparator(scheme: string, rest: string)
    requires IsGatedScheme(scheme)
    ensures Find(scheme + "://" + rest, "://") == Some(|scheme|)
    ensures (scheme + "://" + rest)[..|scheme|] == scheme
    ensures (scheme + "://" + rest)[|scheme| + 3..] == rest
  {
    var url := scheme + "://" + rest;
    assert OccursAt(url, "://", |scheme|);
    assert ':' !in scheme;
    SeparatorNotBefore(scheme, rest);
  }

  lemma CutAuthority(authority: string, tail: string)
    requires forall i :: 0 <= i < |authority| ==> !IsDelimiter(authority[i])
    requires tail == [] || IsDelimiter(tail[0])
    ensures AuthorityEnd(authority + tail) == |authority|
  {
    var s := authority + tail;
    assert forall i :: 0 <= i < |authority| ==> s[i] == authority[i];
    assert tail != [] ==> s[|authority|] == tail[0];
  }

  /** The host of a URL in its parts. */
  lemma HostFromParts(scheme: string, authority: string, tail: string)
    requires IsGatedScheme(scheme)
    requires forall i :: 0 <= i < |authority| ==> !IsDelimiter(authority[i])
    requires tail == [] || IsDelimiter(tail[0])
    ensures var host := TrimClose(TrimOpen(WithoutPort(authority[AfterLast(authority, '@')..])));
            GatedUpstreamHost(scheme + "://" + (authority + tail)) == if host == [] then None else Some(host)
  {
    FindSeparator(scheme, authority + tail);
    CutAuthority(authority, tail);
    SliceConcat(authority, tail, 0, |authority|);
    assert authority[..|authority|] == authority;
  }

  lemma HostPortChars(h: Host, port: Option<string>)
    requires PlainHost(h) && (port.Some? ==> Lacks(port.value, "/?#@:]"))
    ensures Lacks(ShowHostPort(h, port), "/?#@")
  {
  }

  /** Extraction inverts printing: whatever surrounds the host, the host comes back. */
  lemma HostRoundTrip(scheme: string, userinfo: Option<string>, h: Host, port: Option<string>, tail: string)
    requires IsGatedScheme(scheme) && PlainHost(h)
    requires userinfo.Some? ==> Lacks(userinfo.value, "/?#")
    requires port.Some? ==> Lacks(port.value, "/?#@:]")
    requires tail == [] || IsDelimiter(tail[0])
    ensures GatedUpstreamHost(ShowUrl(scheme, userinfo, h, port, tail)) == Some(h.text)
  {
    var user := if userinfo.Some? then userinfo.value + "@" else "";
    var hostPort := ShowHostPort(h, port);
    var authority := user + hostPort;
    HostPortChars(h, port);
    SliceConcat(user, hostPort, 0, |user|);
    AfterLastUnique(authority, '@', |user|);
    HostFromParts(scheme, authority, tail);
    StripPort(h, port);
    StripBrackets(h);
  }

  /** Any other scheme is not gated, whatever follows it. */
  lemma OtherSchemesUngated(scheme: string, rest: string)
    requires ':' !in scheme && !IsGatedScheme(scheme)
    ensures GatedUpstreamHost(scheme + "://" + rest) == None
  {
    var url := scheme + "://" + rest;
    assert OccursAt(url, "://", |scheme|);
    SeparatorNotBefore(scheme, rest);
    assert url[..|scheme|] == scheme;
  }

  // ---------------------------------------------------------------- local names

  /** The part of a host after its last dot. */
  function LastLabel(h: string): string {
    h[AfterLast(h, '.')..]
  }

  /** `localhost` itself or below it, or anything below `local` or `internal`. */
  predicate LocalName(h: string) {
    LastLabel(h) == "localhost" || ('.' in h && (LastLabel(h) == "local" || LastLabel(h) == "internal"))
  }

  lemma DotSuffix(h: string, last: string)
    requires '.' !in last
    ensures HasSuffix(h, "." + last) <==> '.' in h && LastLabel(h) == last
  {
    if HasSuffix(h, "." + last) {
      var k := |h| - |last|;
      assert h[k - 1..] == "." + last;
      assert h[k..] == h[k - 1..][1..] == last;
      assert h[k - 1] == h[k - 1..][0];
      AfterLastUnique(h, '.', k);
    }
    if '.' in h && LastLabel(h) == last {
      var k := AfterLast(h, '.');
      assert h[k - 1..] == [h[k - 1]] + h[k..];
    }
  }

  lemma WholeLabel(h: string, last: string)
    requires '.' !in last
    ensures h == last <==> '.' !in h && LastLabel(h) == last
  {
    if '.' !in h {
      assert h[0..] == h;
    }
  }

  /** What stands before `metadata.google.internal`'s last label makes no difference. */
  lemma MetadataIsInternal(h: string)
    requires h == "metadata.google.internal"
    ensures HasSuffix(h, ".internal")
  {
    assert h[15..] == ".internal";
  }

  lemma LocalNameIff(h: string)
    ensures LocalName(h)
       <==> h == "localhost" || HasSuffix(h, ".localhost") || HasSuffix(h, ".local") || HasSuffix(h, ".internal")
  {
    assert "." + "localhost" == ".localhost" && "." + "local" == ".local" && "." + "internal" == ".internal";
    DotSuffix(h, "localhost");
    DotSuffix(h, "local");
    DotSuffix(h, "internal");
    WholeLabel(h, "localhost");
  }

  /** A host that is no address literal is refused exactly for its last label, whatever its case. */
  lemma LocalIff(host: string, ip: string -> Option<bool>)
    requires ip(host) == None
    ensures IsPrivateOrLocalHost(host, ip) <==> LocalName(AsciiLower(host))
  {
    LocalNameIff(AsciiLower(host));
    if AsciiLower(host) == "metadata.google.internal" {
      MetadataIsInternal(AsciiLower(host));
    }
  }

  // ---------------------------------------------------------------- every URL

  /** The host within an authority. */
  function HostOf(authority: string): string {
    TrimClose(TrimOpen(WithoutPort(authority[AfterLast(authority, '@')..])))
  }

  /** `url` is the scheme, `://`, the authority and the tail. */
  predicate Reads(url: string, scheme: string, authority: string, tail: string) {
    && url == scheme + "://" + (authority + tail) && IsGatedScheme(scheme)
    && (forall i :: 0 <= i < |authority| ==> !IsDelimiter(authority[i]))
    && (tail == [] || IsDelimiter(tail[0]))
  }

  lemma CutUrl(url: string, sep: nat)
    requires OccursAt(url, "://", sep)
    ensures url == url[..sep] + "://" + url[sep + 3..]
  {
  }

  lemma CutRest(url: string, scheme: string, rest: string, end: nat)
    requires url == scheme + "://" + rest && IsGatedScheme(scheme) && end == AuthorityEnd(rest)
    ensures Reads(url, scheme, rest[..end], rest[end..])
  {
    assert rest == rest[..end] + rest[end..];
  }

  lemma HostParsed(url: string, sep: nat, rest: string)
    requires Find(url, "://") == Some(sep) && rest == url[sep + 3..] && GatedUpstreamHost(url).Some?
    ensures IsGatedScheme(url[..sep]) && HostOf(rest[..AuthorityEnd(rest)]) == GatedUpstreamHost(url).value != ""
  {
  }

  /** Every gated URL reads in some way. */
  lemma GatedReads(url: string) returns (scheme: string, authority: string, tail: string)
    requires GatedUpstreamHost(url).Some?
    ensures Reads(url, scheme, authority, tail) && HostOf(authority) == GatedUpstreamHost(url).value != ""
  {
    var sep := Find(url, "://").value;
    var rest := url[sep + 3..];
    scheme, authority, tail := url[..sep], rest[..AuthorityEnd(rest)], rest[AuthorityEnd(rest)..];
    CutUrl(url, sep);
    CutRest(url, scheme, rest, AuthorityEnd(rest));
    HostParsed(url, sep, rest);
  }

  /** A URL is gated exactly when it reads as a gated scheme, `://`, an authority that holds a host, and a tail. */
  lemma GatedIff(url: string, host: string)
    ensures GatedUpstreamHost(url) == Some(host)
       <==> host != "" && exists scheme, authority, tail :: Reads(url, scheme, authority, tail) && HostOf(authority) == host
  {
    if GatedUpstreamHost(url) == Some(host) {
      var scheme, authority, tail := GatedReads(url);
    }
    if scheme, authority, tail :| host != "" && Reads(url, scheme, authority, tail) && HostOf(authority) == host {
      HostFromParts(scheme, authority, tail);
    }
  }
}
