/**
 The string scanners of the publish guard (src/publish_guard.rs).

 A string here is the sequence of its UTF-8 bytes, so indices are the source's byte offsets.
 */
module GuardScan {
  import opened Text

  // ---------------------------------------------------------------- find

  predicate OccursAt(s: string, pat: string, i: int) {
    0 <= i && i + |pat| <= |s| && s[i..i + |pat|] == pat
  }

  /** `str::find`: the first occurrence. */
  function Find(s: string, pat: string): (r: Option<nat>)
    ensures r.Some? ==> OccursAt(s, pat, r.value) && forall j :: 0 <= j < r.value ==> !OccursAt(s, pat, j)
    ensures r.None? ==> forall j :: !OccursAt(s, pat, j)
  {
    if HasPrefix(s, pat) then
      assert OccursAt(s, pat, 0);
      Some(0)
    else if s == [] then None
    else
      var r := Find(s[1..], pat);
      assert forall j {:trigger OccursAt(s, pat, j)} :: j > 0 ==> (OccursAt(s, pat, j) <==> OccursAt(s[1..], pat, j - 1)) by {
        forall j | j > 0 ensures OccursAt(s, pat, j) <==> OccursAt(s[1..], pat, j - 1) {
          if j + |pat| <= |s| {
            assert s[1..][j - 1..j - 1 + |pat|] == s[j..j + |pat|];
          }
        }
      }
      if r.Some? then Some(r.value + 1) else None
  }

  lemma OccursInSuffix(s: string, pat: string, k: nat, i: int)
    requires k <= |s|
    ensures i >= 0 ==> (OccursAt(s[k..], pat, i) <==> OccursAt(s, pat, k + i))
  {
    if 0 <= i && k + i + |pat| <= |s| {
      assert s[k..][i..i + |pat|] == s[k + i..k + i + |pat|];
    }
  }

  // ---------------------------------------------------------------- truncation

  const MAX_SNIPPET: nat := 80

  /** The bytes of `…`. */
  const ELLIPSIS: string := "\U{E2}\U{80}\U{A6}"

  predicate IsContinuation(c: char) {
    0x80 <= c as int < 0xC0
  }

  /** `str::is_char_boundary`. */
  predicate IsBoundary(s: string, i: nat) {
    i == 0 || i == |s| || (i < |s| && !IsContinuation(s[i]))
  }

  /** The last character boundary at least `drop` bytes before the end. */
  function Cut(s: string, drop: nat): (e: nat)
    requires drop <= |s|
    ensures e <= |s| - drop && IsBoundary(s, e)
    ensures forall k :: e < k <= |s| - drop ==> !IsBoundary(s, k)
    decreases |s| - drop
  {
    if IsBoundary(s, |s| - drop) then |s| - drop else Cut(s, drop + 1)
  }

  function Truncated(s: string): string {
    if |s| <= MAX_SNIPPET then s else s[..Cut(s, |s| - MAX_SNIPPET)] + ELLIPSIS
  }

  method Truncate(s: string) returns (t: string)
    ensures t == Truncated(s)
  {
    if |s| <= MAX_SNIPPET {
      return s;
    }
    var end: nat := MAX_SNIPPET;
    while !IsBoundary(s, end)
      invariant end <= MAX_SNIPPET
      invariant Cut(s, |s| - end) == Cut(s, |s| - MAX_SNIPPET)
      decreases end
    {
      end := end - 1;
    }
    t := s[..end] + ELLIPSIS;
  }

  // ---------------------------------------------------------------- `<opener>...<close>` tokens

  /** The leftmost token and what follows it. */
  function NextToken(raw: string, opener: string, close: char): (r: Option<(string, string)>)
    ensures r.Some? ==> |r.value.1| < |raw|
  {
    var start := Find(raw, opener);
    if start.None? then None else
    var after := raw[start.value + |opener|..];
    var end := IndexOf(after, close);
    if end == |after| then None else Some((opener + after[..end + 1], after[end + 1..]))
  }

  /** Every `<opener>...<close>` token, leftmost first, each search resuming after the last close. */
  function Tokens(raw: string, opener: string, close: char): seq<string>
    decreases |raw|
  {
    var next := NextToken(raw, opener, close);
    if next.None? then [] else [next.value.0] + Tokens(next.value.1, opener, close)
  }

  /** The tokens as the source reports them: truncated for display. */
  function Snippets(raw: string, opener: string, close: char): seq<string>
    decreases |raw|
  {
    var next := NextToken(raw, opener, close);
    if next.None? then [] else [Truncated(next.value.0)] + Snippets(next.value.1, opener, close)
  }

  /** `ss[i]` is `ts[i]` as it is displayed. */
  predicate Displays(ss: seq<string>, ts: seq<string>) {
    |ss| == |ts| && forall i :: 0 <= i < |ss| ==> ss[i] == Truncated(ts[i])
  }

  lemma DisplaysCons(t: string, ss: seq<string>, ts: seq<string>)
    requires Displays(ss, ts)
    ensures Displays([Truncated(t)] + ss, [t] + ts)
  {
  }

  lemma TokensCons(raw: string, opener: string, close: char, token: string, tail: string)
    requires NextToken(raw, opener, close) == Some((token, tail))
    ensures Tokens(raw, opener, close) == [token] + Tokens(tail, opener, close)
    ensures Snippets(raw, opener, close) == [Truncated(token)] + Snippets(tail, opener, close)
  {
  }

  lemma {:induction false} SnippetsAreTokens(raw: string, opener: string, close: char)
    ensures Displays(Snippets(raw, opener, close), Tokens(raw, opener, close))
    decreases |raw|
  {
    var next := NextToken(raw, opener, close);
    if next.None? {
    } else {
      var (token, tail) := next.value;
      SnippetsAreTokens(tail, opener, close);
      TokensCons(raw, opener, close, token, tail);
      DisplaysCons(token, Snippets(tail, opener, close), Tokens(tail, opener, close));
    }
  }

  lemma TokenText(rest: string, opener: string, start: nat, end: nat)
    requires OccursAt(rest, opener, start) && start + |opener| + end < |rest|
    ensures rest[start..start + |opener| + end + 1] == opener + rest[start + |opener|..][..end + 1]
  {
    assert rest[start..start + |opener|] == opener;
  }

  /** One round of the loop: cut the leftmost token and what follows it out of `rest`. */
  method TakeToken(rest: string, opener: string, close: char) returns (found: bool, token: string, tail: string)
    ensures found == NextToken(rest, opener, close).Some?
    ensures found ==> NextToken(rest, opener, close).value == (token, tail)
  {
    found, token, tail := false, "", "";
    var start := Find(rest, opener);
    if start.None? {
      return;
    }
    var after := rest[start.value + |opener|..];
    var end := IndexOf(after, close);
    if end == |after| {
      return;
    }
    TokenText(rest, opener, start.value, end);
    found := true;
    token := rest[start.value..start.value + |opener| + end + 1];
    tail := after[end + 1..];
  }

  method TokensFrom(raw: string, opener: string, close: char) returns (out: seq<string>)
    ensures out == Snippets(raw, opener, close)
  {
    out := [];
    var rest := raw;
    while true
      invariant out + Snippets(rest, opener, close) == Snippets(raw, opener, close)
      decreases |rest|
    {
      var found, token, tail := TakeToken(rest, opener, close);
      if !found {
        break;
      }
      var snippet := Truncate(token);
      out, rest := out + [snippet], tail;
    }
    assert out == Snippets(raw, opener, close);
  }

  const CRED_OPENER: string := "${cred://"

  /** The text between `${` and `}` of the leftmost `${cred://...}`, and what follows it. */
  function NextCred(raw: string): (r: Option<(string, string)>)
    ensures r.Some? ==> |r.value.1| < |raw|
  {
    var open := Find(raw, CRED_OPENER);
    if open.None? then None else
    var after := raw[open.value + 2..];
    var close := IndexOf(after, '}');
    if close == |after| then None else Some((after[..close], after[close + 1..]))
  }

  function CredInners(raw: string): seq<string>
    decreases |raw|
  {
    var next := NextCred(raw);
    if next.None? then [] else [next.value.0] + CredInners(next.value.1)
  }

  method CredTokenInners(raw: string) returns (out: seq<string>)
    ensures out == CredInners(raw)
  {
    out := [];
    var rest := raw;
    while true
      invariant out + CredInners(rest) == CredInners(raw)
      decreases |rest|
    {
      var open := Find(rest, CRED_OPENER);
      if open.None? {
        break;
      }
      var after := rest[open.value + 2..];
      var close := IndexOf(after, '}');
      if close == |after| {
        break;
      }
      out := out + [after[..close]];
      rest := after[close + 1..];
    }
    assert out == CredInners(raw);
  }

  // ---------------------------------------------------------------- schemes at a value boundary

  predicate IdentifierByte(c: char) {
    'a' <= c <= 'z' || 'A' <= c <= 'Z' || '0' <= c <= '9' || c == '-' || c == '_' || c == '.'
  }

  /** Whether the character before `i` is not part of a longer identifier. */
  predicate AtBoundary(raw: string, i: nat)
    requires i <= |raw|
  {
    i == 0 || !IdentifierByte(raw[i - 1])
  }

  predicate BoundaryMatch(raw: string, scheme: string, i: nat) {
    OccursAt(raw, scheme, i) && AtBoundary(raw, i)
  }

  /** No two occurrences of `pat` can overlap: no proper suffix of it is also a prefix. */
  predicate SelfDisjoint(pat: string) {
    pat != [] && forall k :: 0 < k < |pat| ==> pat[k..] != pat[..|pat| - k]
  }

  lemma Overlap(s: string, pat: string, i: nat, j: nat)
    requires OccursAt(s, pat, i) && OccursAt(s, pat, j) && i < j < i + |pat|
    ensures pat[j - i..] == pat[..|pat| - (j - i)]
  {
    var k := j - i;
    assert pat[k..] == s[i..i + |pat|][k..] == s[j..i + |pat|];
    assert pat[..|pat| - k] == s[j..j + |pat|][..|pat| - k] == s[j..i + |pat|];
  }

  lemma OccurrencesDisjoint(s: string, pat: string, i: nat, j: nat)
    requires SelfDisjoint(pat) && OccursAt(s, pat, i) && OccursAt(s, pat, j) && i < j
    ensures i + |pat| <= j
  {
    if j < i + |pat| {
      Overlap(s, pat, i, j);
    }
  }

  lemma SkipLosesNone(raw: string, scheme: string, from: nat, idx: nat)
    requires SelfDisjoint(scheme) && from <= idx && OccursAt(raw, scheme, idx)
    requires forall j :: 0 <= j < idx - from ==> !OccursAt(raw[from..], scheme, j)
    ensures forall i: nat :: from <= i < idx + |scheme| && i != idx ==> !OccursAt(raw, scheme, i)
  {
    forall i: nat | from <= i < idx + |scheme| && i != idx
      ensures !OccursAt(raw, scheme, i)
    {
      if i < idx {
        OccursInSuffix(raw, scheme, from, i - from);
      } else if OccursAt(raw, scheme, i) {
        OccurrencesDisjoint(raw, scheme, idx, i);
      }
    }
  }

  /**
   Exactly the offsets where `scheme` starts at a value boundary, in ascending order. Skipping a
   whole scheme after each hit loses none, because its occurrences cannot overlap.
   */
  method SchemeBoundaryMatches(raw: string, scheme: string) returns (out: seq<nat>)
    requires SelfDisjoint(scheme)
    ensures forall a, b :: 0 <= a < b < |out| ==> out[a] < out[b]
    ensures forall i: nat :: i in out <==> BoundaryMatch(raw, scheme, i)
  {
    out := [];
    var from := 0;
    while true
      invariant from <= |raw|
      invariant forall a, b :: 0 <= a < b < |out| ==> out[a] < out[b]
      invariant forall a :: 0 <= a < |out| ==> out[a] < from
      invariant forall i: nat :: i in out <==> i < from && BoundaryMatch(raw, scheme, i)
      decreases |raw| - from
    {
      var rel := Find(raw[from..], scheme);
      if rel.None? {
        forall i: nat | BoundaryMatch(raw, scheme, i) ensures i < from {
          OccursInSuffix(raw, scheme, from, i - from);
        }
        break;
      }
      var idx := from + rel.value;
      OccursInSuffix(raw, scheme, from, rel.value);
      SkipLosesNone(raw, scheme, from, idx);
      assert forall i: nat :: i < idx + |scheme| && BoundaryMatch(raw, scheme, i) ==> i < from || i == idx;
      if idx == 0 || !IdentifierByte(raw[idx - 1]) {
        out := out + [idx];
      }
      from := idx + |scheme|;
    }
  }
}
