/** What the publish guard demands of one leaf string, and that its scanners decide exactly that. */
module LeafChecks {
  import opened Text
  import opened GuardScan

  const ENV_OPENER: string := "${env."
  const SECRET_OPENER: string := "${secret."
  const SECRET_KEY_MAX_LEN: nat := 64
  const HOST_SECRET_SCHEMES: seq<string> := ["env://", "file://"]

  predicate IsAlpha(c: char) {
    'a' <= c <= 'z' || 'A' <= c <= 'Z'
  }

  predicate IsKeyByte(c: char) {
    IsAlpha(c) || '0' <= c <= '9' || c == '_'
  }

  /** `[A-Za-z_][A-Za-z0-9_]{0,63}` */
  predicate IsSecretKey(name: string) {
    && name != [] && |name| <= SECRET_KEY_MAX_LEN
    && (IsAlpha(name[0]) || name[0] == '_')
    && forall i :: 0 < i < |name| ==> IsKeyByte(name[i])
  }

  /** The name a snippet carries between its opener and a final `}`; empty if it carries none. */
  function NameOf(snippet: string): string {
    if !HasPrefix(snippet, SECRET_OPENER) then ""
    else
      var s := snippet[|SECRET_OPENER|..];
      if HasSuffix(s, "}") then s[..|s| - 1] else ""
  }

  predicate Admitted(name: string, keys: set<string>) {
    IsSecretKey(name) && name in keys
  }

  /** `cred://<plugin>/<target>[#part]` with non-empty plugin, target and part. */
  predicate WellFormedCred(inner: string) {
    HasPrefix(inner, "cred://") &&
    var path := inner[|"cred://"|..];
    var hash := IndexOf(path, '#');
    (hash < |path| ==> path[hash + 1..] != []) &&
    var target := path[..hash];
    var slash := IndexOf(target, '/');
    0 < slash && slash + 1 < |target|
  }

  // ---------------------------------------------------------------- the demand

  /** `opener` occurs at `i` and some `close` follows it. */
  ghost predicate ClosedAt(raw: string, opener: string, close: char, i: int) {
    OccursAt(raw, opener, i) && close in raw[i + |opener|..]
  }

  /** At `i` stands `${secret.KEY}` for a registered, well-formed KEY. */
  ghost predicate RegisteredAt(raw: string, keys: set<string>, i: int) {
    exists key <- keys :: IsSecretKey(key) && OccursAt(raw, SECRET_OPENER + key + "}", i)
  }

  ghost predicate EnvClean(raw: string) {
    forall i :: !ClosedAt(raw, ENV_OPENER, '}', i)
  }

  ghost predicate SecretsClean(raw: string, keys: set<string>) {
    forall i :: ClosedAt(raw, SECRET_OPENER, '}', i) ==> RegisteredAt(raw, keys, i)
  }

  ghost predicate CredsClean(raw: string) {
    forall inner <- CredInners(raw) :: WellFormedCred(inner)
  }

  ghost predicate SchemesClean(raw: string) {
    forall k, i: nat :: 0 <= k < |HOST_SECRET_SCHEMES| ==> !BoundaryMatch(raw, HOST_SECRET_SCHEMES[k], i)
  }

  /** Registering more keys only ever admits more. */
  lemma SecretsCleanMonotone(raw: string, keys: set<string>, more: set<string>)
    requires keys <= more && SecretsClean(raw, keys)
    ensures SecretsClean(raw, more)
  {
    forall i | ClosedAt(raw, SECRET_OPENER, '}', i)
      ensures RegisteredAt(raw, more, i)
    {
      assert RegisteredAt(raw, keys, i);
    }
  }

  // ---------------------------------------------------------------- tokens

  lemma LaterClose(raw: string, opener: string, close: char, start: nat, i: int)
    requires start <= i && start + |opener| <= |raw| && ClosedAt(raw, opener, close, i)
    ensures close in raw[start + |opener|..]
  {
    var later := raw[i + |opener|..];
    var j :| 0 <= j < |later| && later[j] == close;
    assert raw[start + |opener|..][i - start + j] == close;
  }

  lemma NextTokenShape(raw: string, opener: string, close: char)
    ensures var next := NextToken(raw, opener, close);
            next.None? <==> forall i :: !ClosedAt(raw, opener, close, i)
  {
    if i :| ClosedAt(raw, opener, close, i) {
      LaterClose(raw, opener, close, Find(raw, opener).value, i);
    }
    if NextToken(raw, opener, close).Some? {
      assert ClosedAt(raw, opener, close, Find(raw, opener).value);
    }
  }

  /** No tokens means no closed occurrence of the opener at all. */
  lemma NoTokensIff(raw: string, opener: string, close: char)
    ensures Snippets(raw, opener, close) == [] <==> forall i :: !ClosedAt(raw, opener, close, i)
  {
    NextTokenShape(raw, opener, close);
  }

  lemma LongSnippetHasNoName(t: string)
    requires |t| > MAX_SNIPPET
    ensures NameOf(Truncated(t)) == ""
  {
    var snippet := Truncated(t);
    assert snippet[|snippet| - 1] == '\U{A6}';
    if HasPrefix(snippet, SECRET_OPENER) {
      var s := snippet[|SECRET_OPENER|..];
      if s != [] {
        assert s[|s| - 1..] == ['\U{A6}'];
        assert "}"[0] != '\U{A6}';
      }
    }
  }

  /**
   Testing the name on the truncated snippet decides the full name: opener, longest key and brace
   fit in 80 bytes, and a longer token ends in the truncation mark.
   */
  lemma SnippetTestExact(inner: string, keys: set<string>)
    ensures Admitted(NameOf(Truncated(SECRET_OPENER + inner + "}")), keys) <==> Admitted(inner, keys)
  {
    var t := SECRET_OPENER + inner + "}";
    assert t[..|SECRET_OPENER|] == SECRET_OPENER;
    if |t| <= MAX_SNIPPET {
      var s := t[|SECRET_OPENER|..];
      assert s == inner + "}";
      assert s[|s| - 1..] == "}" && s[..|s| - 1] == inner;
    } else {
      LongSnippetHasNoName(t);
    }
  }

  // ---------------------------------------------------------------- secrets

  lemma KeyBytes(key: string)
    requires IsSecretKey(key)
    ensures '}' !in key && '$' !in key
  {
  }

  /** The first token of a string, its inner text and the offset of the rest. */
  ghost predicate FirstToken(raw: string, start: nat, inner: string, rest: nat) {
    && OccursAt(raw, SECRET_OPENER, start)
    && (forall j :: 0 <= j < start ==> !OccursAt(raw, SECRET_OPENER, j))
    && rest == start + |SECRET_OPENER| + |inner| + 1 && rest <= |raw|
    && '}' !in inner
    && raw[start..rest] == SECRET_OPENER + inner + "}"
  }

  lemma MiddleOf(a: string, b: string, c: string)
    ensures (a + b + c)[|a|..|a| + |b|] == b
  {
  }

  lemma SliceOfSlice(s: string, start: nat, width: nat, from: nat, n: nat)
    requires start + width <= |s| && from + n <= width
    ensures s[start + from..][..n] == s[start..start + width][from..from + n]
  {
    var rest, cut := s[start + from..], s[start..start + width];
    forall k | 0 <= k < n ensures rest[..n][k] == cut[from..from + n][k] {
      assert rest[k] == s[start + from + k];
      assert cut[from + k] == s[start + (from + k)];
    }
  }

  lemma PartAt(raw: string, a: string, b: string, c: string, t: string, start: nat)
    requires t == a + b + c && OccursAt(raw, t, start) && c != ""
    ensures var after := raw[start + |a|..];
            |b| < |after| && after[..|b|] == b && after[|b|] == c[0]
  {
    var cut, after := raw[start..start + |t|], raw[start + |a|..];
    SliceOfSlice(raw, start, |t|, |a|, |b|);
    MiddleOf(a, b, c);
    assert cut == t;
    assert after[..|b|] == cut[|a|..|a| + |b|];
    assert after[|b|] == cut[|a| + |b|] == c[0];
  }

  lemma InnerAt(raw: string, start: nat, inner: string)
    requires OccursAt(raw, SECRET_OPENER + inner + "}", start)
    ensures var after := raw[start + |SECRET_OPENER|..];
            |inner| < |after| && after[..|inner|] == inner && after[|inner|] == '}'
  {
    PartAt(raw, SECRET_OPENER, inner, "}", SECRET_OPENER + inner + "}", start);
  }

  lemma SameInner(raw: string, start: nat, inner: string, rest: nat, key: string)
    requires FirstToken(raw, start, inner, rest) && '}' !in key
    requires OccursAt(raw, SECRET_OPENER + key + "}", start)
    ensures key == inner
  {
    var after := raw[start + |SECRET_OPENER|..];
    InnerAt(raw, start, inner);
    InnerAt(raw, start, key);
    IndexOfUnique(after, '}', |inner|);
    IndexOfUnique(after, '}', |key|);
  }

  /** At the first token, being registered is its whole inner text being an admitted key. */
  lemma FirstRegisteredIff(raw: string, keys: set<string>, start: nat, inner: string, rest: nat)
    requires FirstToken(raw, start, inner, rest)
    ensures RegisteredAt(raw, keys, start) <==> Admitted(inner, keys)
  {
    if Admitted(inner, keys) {
      assert OccursAt(raw, SECRET_OPENER + inner + "}", start);
    }
    if key :| key in keys && IsSecretKey(key) && OccursAt(raw, SECRET_OPENER + key + "}", start) {
      KeyBytes(key);
      SameInner(raw, start, inner, rest, key);
    }
  }

  lemma OpenerHead(raw: string, i: int)
    ensures OccursAt(raw, SECRET_OPENER, i) ==> raw[i] == '$'
  {
    if OccursAt(raw, SECRET_OPENER, i) {
      assert raw[i] == raw[i..i + |SECRET_OPENER|][0];
    }
  }

  /** Inside an admitted token the opener does not start again. */
  lemma NoOpenerInside(raw: string, keys: set<string>, start: nat, inner: string, rest: nat, i: int)
    requires FirstToken(raw, start, inner, rest) && Admitted(inner, keys)
    requires start < i < rest
    ensures !OccursAt(raw, SECRET_OPENER, i)
  {
    KeyBytes(inner);
    var t := SECRET_OPENER + inner + "}";
    assert raw[i] == raw[start..rest][i - start] == t[i - start];
    assert forall k :: 0 < k < |SECRET_OPENER| ==> SECRET_OPENER[k] != '$';
    OpenerHead(raw, i);
  }

  lemma RestOccurrences(raw: string, keys: set<string>, rest: nat, i: nat)
    requires rest <= |raw|
    ensures ClosedAt(raw[rest..], SECRET_OPENER, '}', i) <==> ClosedAt(raw, SECRET_OPENER, '}', rest + i)
    ensures RegisteredAt(raw[rest..], keys, i) <==> RegisteredAt(raw, keys, rest + i)
  {
    OccursInSuffix(raw, SECRET_OPENER, rest, i);
    if i + |SECRET_OPENER| <= |raw| - rest {
      assert raw[rest..][i + |SECRET_OPENER|..] == raw[rest + i + |SECRET_OPENER|..];
    }
    forall key <- keys
      ensures OccursAt(raw[rest..], SECRET_OPENER + key + "}", i) <==> OccursAt(raw, SECRET_OPENER + key + "}", rest + i)
    {
      OccursInSuffix(raw, SECRET_OPENER + key + "}", rest, i);
    }
  }

  lemma FirstClosed(raw: string, start: nat, inner: string, rest: nat)
    requires FirstToken(raw, start, inner, rest)
    ensures ClosedAt(raw, SECRET_OPENER, '}', start)
  {
    assert raw[rest - 1] == raw[start..rest][rest - 1 - start] == '}';
    assert raw[start + |SECRET_OPENER|..][|inner|] == '}';
  }

  lemma SecretsCleanStep(raw: string, keys: set<string>, start: nat, inner: string, rest: nat)
    requires FirstToken(raw, start, inner, rest)
    ensures SecretsClean(raw, keys) <==> Admitted(inner, keys) && SecretsClean(raw[rest..], keys)
  {
    FirstRegisteredIff(raw, keys, start, inner, rest);
    FirstClosed(raw, start, inner, rest);
    if SecretsClean(raw, keys) {
      forall i | ClosedAt(raw[rest..], SECRET_OPENER, '}', i)
        ensures RegisteredAt(raw[rest..], keys, i)
      {
        RestOccurrences(raw, keys, rest, i);
      }
    }
    if Admitted(inner, keys) && SecretsClean(raw[rest..], keys) {
      forall i | ClosedAt(raw, SECRET_OPENER, '}', i)
        ensures RegisteredAt(raw, keys, i)
      {
        if i < rest {
          if start < i {
            NoOpenerInside(raw, keys, start, inner, rest, i);
          }
        } else {
          RestOccurrences(raw, keys, rest, i - rest);
        }
      }
    }
  }

  ghost predicate AllAdmitted(snippets: seq<string>, keys: set<string>) {
    forall s <- snippets :: Admitted(NameOf(s), keys)
  }

  lemma CloseAt(after: string, end: nat)
    requires end < |after| && after[end] == '}'
    ensures after[..end + 1] == after[..end] + "}"
  {
  }

  lemma DropTwice(s: string, m: nat, n: nat)
    requires m + n <= |s|
    ensures s[m..][n..] == s[m + n..]
  {
  }

  lemma TokenAt(raw: string, start: nat, after: string, end: nat)
    requires OccursAt(raw, SECRET_OPENER, start) && after == raw[start + |SECRET_OPENER|..] && end < |after| && after[end] == '}'
    ensures var rest := start + |SECRET_OPENER| + end + 1;
            && raw[start..rest] == SECRET_OPENER + after[..end] + "}"
            && after[end + 1..] == raw[rest..]
  {
    TokenText(raw, SECRET_OPENER, start, end);
    CloseAt(after, end);
    assert SECRET_OPENER + (after[..end] + "}") == SECRET_OPENER + after[..end] + "}";
    DropTwice(raw, start + |SECRET_OPENER|, end + 1);
  }

  lemma TokenPieces(raw: string, from: nat, after: string, end: nat)
    requires from <= |raw| && after == raw[from..] && end < |after| && after[end] == '}'
    ensures SECRET_OPENER + after[..end + 1] == SECRET_OPENER + after[..end] + "}"
    ensures after[end + 1..] == raw[from + end + 1..]
  {
    CloseAt(after, end);
    assert SECRET_OPENER + (after[..end] + "}") == SECRET_OPENER + after[..end] + "}";
    DropTwice(raw, from, end + 1);
  }

  lemma NextTokenIs(raw: string, opener: string, close: char, start: nat, after: string, end: nat)
    requires Find(raw, opener) == Some(start) && after == raw[start + |opener|..] && end == IndexOf(after, close) < |after|
    ensures NextToken(raw, opener, close) == Some((opener + after[..end + 1], after[end + 1..]))
  {
  }

  lemma NextTokenAt(raw: string, start: nat, after: string, end: nat)
    requires Find(raw, SECRET_OPENER) == Some(start) && after == raw[start + |SECRET_OPENER|..]
    requires end == IndexOf(after, '}') < |after|
    ensures NextToken(raw, SECRET_OPENER, '}')
         == Some((SECRET_OPENER + after[..end] + "}", raw[start + |SECRET_OPENER| + end + 1..]))
  {
    TokenPieces(raw, start + |SECRET_OPENER|, after, end);
    NextTokenIs(raw, SECRET_OPENER, '}', start, after, end);
  }

  lemma NextIsFirst(raw: string) returns (start: nat, inner: string, rest: nat)
    requires NextToken(raw, SECRET_OPENER, '}').Some?
    ensures FirstToken(raw, start, inner, rest)
    ensures NextToken(raw, SECRET_OPENER, '}').value == (SECRET_OPENER + inner + "}", raw[rest..])
  {
    start := Find(raw, SECRET_OPENER).value;
    var after := raw[start + |SECRET_OPENER|..];
    var end := IndexOf(after, '}');
    inner := after[..end];
    rest := start + |SECRET_OPENER| + end + 1;
    TokenAt(raw, start, after, end);
    NextTokenAt(raw, start, after, end);
  }

  /** The scan admits every token exactly when every closed opener stands before a registered key. */
  lemma {:induction false} SecretScanExact(raw: string, keys: set<string>)
    ensures AllAdmitted(Snippets(raw, SECRET_OPENER, '}'), keys) <==> SecretsClean(raw, keys)
    decreases |raw|
  {
    if NextToken(raw, SECRET_OPENER, '}').None? {
      NextTokenShape(raw, SECRET_OPENER, '}');
    } else {
      var start, inner, rest := NextIsFirst(raw);
      SecretScanExact(raw[rest..], keys);
      SecretsCleanStep(raw, keys, start, inner, rest);
      SnippetTestExact(inner, keys);
    }
  }
}
