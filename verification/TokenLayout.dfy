/** Where the tokens the scanners return stand in the scanned text, and that none is missed. */
module TokenLayout {
  import opened Text
  import opened GuardScan
  import opened LeafChecks

  /** Opener, text without the closing character, closing character. */
  predicate IsToken(t: string, opener: string, close: char) {
    && HasPrefix(t, opener) && |opener| < |t| && t[|t| - 1] == close
    && close !in t[|opener|..|t| - 1]
  }

  ghost predicate Covered(starts: seq<nat>, tokens: seq<string>, i: int)
    requires |starts| == |tokens|
  {
    exists n :: 0 <= n < |tokens| && starts[n] <= i < starts[n] + |tokens[n]|
  }

  /**
   `tokens[n]` stands at `starts[n]`; the tokens ascend without overlapping, and every opener that
   some `close` follows stands inside one of them.
   */
  ghost predicate Laid(raw: string, opener: string, close: char, starts: seq<nat>, tokens: seq<string>) {
    && |starts| == |tokens|
    && (forall n :: 0 <= n < |tokens| ==> OccursAt(raw, tokens[n], starts[n]) && IsToken(tokens[n], opener, close))
    && (forall m, n :: 0 <= m < n < |tokens| ==> starts[m] + |tokens[m]| <= starts[n])
    && (forall i :: ClosedAt(raw, opener, close, i) ==> Covered(starts, tokens, i))
  }

  /** The scanned text divided at its first token. */
  ghost predicate FirstAt(raw: string, opener: string, close: char, start: nat, token: string, tail: string) {
    && OccursAt(raw, token, start) && IsToken(token, opener, close)
    && tail == raw[start + |token|..]
    && forall i :: ClosedAt(raw, opener, close, i) ==> start <= i
  }

  lemma TokenIsToken(opener: string, after: string, close: char, end: nat)
    requires end == IndexOf(after, close) < |after|
    ensures IsToken(opener + after[..end + 1], opener, close)
  {
    var t := opener + after[..end + 1];
    assert t[|opener|..|t| - 1] == after[..end];
  }

  lemma CutToken(raw: string, opener: string, start: nat, after: string, end: nat)
    requires OccursAt(raw, opener, start) && after == raw[start + |opener|..] && end < |after|
    ensures var token := opener + after[..end + 1];
            OccursAt(raw, token, start) && after[end + 1..] == raw[start + |token|..]
  {
    TokenText(raw, opener, start, end);
    DropTwice(raw, start + |opener|, end + 1);
  }

  lemma OpensNoEarlier(raw: string, opener: string, close: char, start: nat)
    requires forall j :: 0 <= j < start ==> !OccursAt(raw, opener, j)
    ensures forall i :: ClosedAt(raw, opener, close, i) ==> start <= i
  {
    forall i | ClosedAt(raw, opener, close, i) ensures start <= i {
      assert OccursAt(raw, opener, i);
    }
  }

  lemma NextIsFirstAt(raw: string, opener: string, close: char) returns (start: nat)
    requires NextToken(raw, opener, close).Some?
    ensures var (token, tail) := NextToken(raw, opener, close).value;
            FirstAt(raw, opener, close, start, token, tail)
  {
    start := Find(raw, opener).value;
    var after := raw[start + |opener|..];
    var end := IndexOf(after, close);
    CutToken(raw, opener, start, after, end);
    TokenIsToken(opener, after, close, end);
    OpensNoEarlier(raw, opener, close, start);
  }

  /** The layout of the rest, moved behind the first token. */
  function Behind(starts: seq<nat>, cut: nat): (moved: seq<nat>)
    ensures |moved| == |starts| && forall n :: 0 <= n < |starts| ==> moved[n] == starts[n] + cut
  {
    seq(|starts|, n requires 0 <= n < |starts| => starts[n] + cut)
  }

  lemma OrderCons(start: nat, token: string, starts: seq<nat>, tokens: seq<string>)
    requires |starts| == |tokens| && forall m, n :: 0 <= m < n < |tokens| ==> starts[m] + |tokens[m]| <= starts[n]
    ensures var ss, ts := [start] + Behind(starts, start + |token|), [token] + tokens;
            forall m, n :: 0 <= m < n < |ts| ==> ss[m] + |ts[m]| <= ss[n]
  {
  }

  lemma CoveredCons(start: nat, token: string, starts: seq<nat>, tokens: seq<string>, i: int)
    requires |starts| == |tokens| && Covered(starts, tokens, i - (start + |token|))
    ensures Covered([start] + Behind(starts, start + |token|), [token] + tokens, i)
  {
    var cut := start + |token|;
    var n :| 0 <= n < |tokens| && starts[n] <= i - cut < starts[n] + |tokens[n]|;
    var ss, ts := [start] + Behind(starts, cut), [token] + tokens;
    assert ss[n + 1] <= i < ss[n + 1] + |ts[n + 1]|;
  }

  lemma CoveredBehind(raw: string, opener: string, close: char, cut: nat, starts: seq<nat>, tokens: seq<string>, i: int)
    requires cut <= |raw| && Laid(raw[cut..], opener, close, starts, tokens)
    requires cut <= i && ClosedAt(raw, opener, close, i)
    ensures Covered(starts, tokens, i - cut)
  {
    OccursInSuffix(raw, opener, cut, i - cut);
    DropTwice(raw, cut, i - cut + |opener|);
    assert ClosedAt(raw[cut..], opener, close, i - cut);
  }

  lemma CoverCons(raw: string, opener: string, close: char, start: nat, token: string, tail: string,
                  starts: seq<nat>, tokens: seq<string>, i: int)
    requires FirstAt(raw, opener, close, start, token, tail) && Laid(tail, opener, close, starts, tokens)
    requires ClosedAt(raw, opener, close, i)
    ensures Covered([start] + Behind(starts, start + |token|), [token] + tokens, i)
  {
    if i < start + |token| {
      var ss, ts := [start] + Behind(starts, start + |token|), [token] + tokens;
      assert ss[0] <= i < ss[0] + |ts[0]|;
    } else {
      CoveredBehind(raw, opener, close, start + |token|, starts, tokens, i);
      CoveredCons(start, token, starts, tokens, i);
    }
  }

  lemma MovedOccurrence(raw: string, cut: nat, token: string, at: nat)
    requires cut <= |raw| && OccursAt(raw[cut..], token, at)
    ensures OccursAt(raw, token, at + cut)
  {
    OccursInSuffix(raw, token, cut, at);
  }

  lemma LaidCons(raw: string, opener: string, close: char, start: nat, token: string, tail: string, starts: seq<nat>, tokens: seq<string>)
    requires FirstAt(raw, opener, close, start, token, tail) && Laid(tail, opener, close, starts, tokens)
    ensures Laid(raw, opener, close, [start] + Behind(starts, start + |token|), [token] + tokens)
  {
    var ss, ts := [start] + Behind(starts, start + |token|), [token] + tokens;
    forall n | 0 <= n < |ts| ensures OccursAt(raw, ts[n], ss[n]) && IsToken(ts[n], opener, close) {
      if n > 0 {
        MovedOccurrence(raw, start + |token|, tokens[n - 1], starts[n - 1]);
      }
    }
    OrderCons(start, token, starts, tokens);
    forall i | ClosedAt(raw, opener, close, i) ensures Covered(ss, ts, i) {
      CoverCons(raw, opener, close, start, token, tail, starts, tokens, i);
    }
  }

  /** The scan returns disjoint tokens in order and misses no closed opener. */
  lemma {:induction false} TokensLaid(raw: string, opener: string, close: char) returns (starts: seq<nat>)
    ensures Laid(raw, opener, close, starts, Tokens(raw, opener, close))
    decreases |raw|
  {
    NextTokenShape(raw, opener, close);
    if NextToken(raw, opener, close).None? {
      starts := [];
    } else {
      var (token, tail) := NextToken(raw, opener, close).value;
      var start := NextIsFirstAt(raw, opener, close);
      var later := TokensLaid(tail, opener, close);
      LaidCons(raw, opener, close, start, token, tail, later, Tokens(tail, opener, close));
      starts := [start] + Behind(later, start + |token|);
    }
  }

  // ---------------------------------------------------------------- credential tokens

  predicate Wraps(tokens: seq<string>, inners: seq<string>) {
    |inners| == |tokens| && forall n :: 0 <= n < |tokens| ==> tokens[n] == "${" + inners[n] + "}"
  }

  lemma WrapsCons(inner: string, tokens: seq<string>, inners: seq<string>)
    requires Wraps(tokens, inners)
    ensures Wraps(["${" + inner + "}"] + tokens, [inner] + inners)
  {
  }

  lemma SameBrace(after: string, rest: string, end: nat)
    requires after == "cred://" + rest && end == IndexOf(rest, '}')
    ensures IndexOf(after, '}') == end + 7
    ensures end < |rest| ==> CRED_OPENER + rest[..end + 1] == "${" + after[..end + 7] + "}"
                             && rest[end + 1..] == after[end + 8..]
  {
    assert after[..end + 7] == "cred://" + rest[..end];
    IndexOfUnique(after, '}', end + 7);
    if end < |rest| {
      CloseAt(rest, end);
      assert "${" + ("cred://" + rest[..end]) + "}" == CRED_OPENER + (rest[..end] + "}");
    }
  }

  /** Both scanners look for the same closing brace. */
  lemma CredCloses(raw: string, open: nat, after: string, rest: string)
    requires OccursAt(raw, CRED_OPENER, open) && after == raw[open + 2..] && rest == raw[open + |CRED_OPENER|..]
    ensures var close, end := IndexOf(after, '}'), IndexOf(rest, '}');
            && |after| == |rest| + 7 && close == end + 7
            && (end < |rest| ==> CRED_OPENER + rest[..end + 1] == "${" + after[..close] + "}"
                                 && rest[end + 1..] == after[close + 1..])
  {
    assert after[..7] == raw[open..open + |CRED_OPENER|][2..] == "cred://";
    assert after == "cred://" + rest;
    SameBrace(after, rest, IndexOf(rest, '}'));
  }

  lemma NextCredAt(raw: string, open: nat, after: string, rest: string)
    requires Find(raw, CRED_OPENER) == Some(open) && after == raw[open + 2..] && rest == raw[open + |CRED_OPENER|..]
    ensures var close, end := IndexOf(after, '}'), IndexOf(rest, '}');
            && (close == |after| <==> end == |rest|)
            && (end < |rest| ==> NextToken(raw, CRED_OPENER, '}') == Some(("${" + after[..close] + "}", after[close + 1..])))
  {
    CredCloses(raw, open, after, rest);
    if IndexOf(rest, '}') < |rest| {
      NextTokenIs(raw, CRED_OPENER, '}', open, rest, IndexOf(rest, '}'));
    }
  }

  lemma NextCredIsToken(raw: string)
    ensures var cred, token := NextCred(raw), NextToken(raw, CRED_OPENER, '}');
            if cred.None? then token.None? else token == Some(("${" + cred.value.0 + "}", cred.value.1))
  {
    var open := Find(raw, CRED_OPENER);
    if open.Some? {
      NextCredAt(raw, open.value, raw[open.value + 2..], raw[open.value + |CRED_OPENER|..]);
    }
  }

  /** The two scanners, written differently, agree: an inner text is its token without `${` and `}`. */
  lemma {:induction false} CredInnersAreTokens(raw: string)
    ensures Wraps(Tokens(raw, CRED_OPENER, '}'), CredInners(raw))
    decreases |raw|
  {
    NextCredIsToken(raw);
    if NextCred(raw).None? {
    } else {
      var (inner, tail) := NextCred(raw).value;
      CredInnersAreTokens(tail);
      TokensCons(raw, CRED_OPENER, '}', "${" + inner + "}", tail);
      WrapsCons(inner, Tokens(tail, CRED_OPENER, '}'), CredInners(tail));
    }
  }

  /** A credential reference taken apart. */
  datatype Cred = Cred(plugin: string, target: string, part: Option<string>)

  function ShowCred(c: Cred): string {
    "cred://" + (c.plugin + "/" + c.target + if c.part.Some? then "#" + c.part.value else "")
  }

  predicate GoodCred(c: Cred) {
    && c.plugin != "" && '/' !in c.plugin && '#' !in c.plugin
    && c.target != "" && '#' !in c.target
    && c.part != Some("")
  }

  lemma CutTarget(target: string, slash: nat)
    requires '#' !in target && slash == IndexOf(target, '/') < |target|
    ensures '#' !in target[..slash] && '#' !in target[slash + 1..]
    ensures target == target[..slash] + "/" + target[slash + 1..]
  {
  }

  lemma CutPart(path: string, hash: nat)
    requires hash == IndexOf(path, '#')
    ensures path == path[..hash] + if hash < |path| then "#" + path[hash + 1..] else ""
  {
  }

  lemma TakeApart(inner: string) returns (c: Cred)
    requires WellFormedCred(inner)
    ensures GoodCred(c) && inner == ShowCred(c)
  {
    var path := inner[7..];
    assert inner == "cred://" + path;
    var hash := IndexOf(path, '#');
    var slash := IndexOf(path[..hash], '/');
    CutTarget(path[..hash], slash);
    var part := if hash < |path| then Some(path[hash + 1..]) else None;
    c := Cred(path[..hash][..slash], path[..hash][slash + 1..], part);
    CutPart(path, hash);
  }

  lemma ShownIsWellFormed(c: Cred)
    requires GoodCred(c)
    ensures WellFormedCred(ShowCred(c))
  {
    var target := c.plugin + "/" + c.target;
    var tail := if c.part.Some? then "#" + c.part.value else "";
    var path := target + tail;
    assert ShowCred(c)[..7] == "cred://" && ShowCred(c)[7..] == path;
    assert path[..|target|] == target;
    IndexOfUnique(path, '#', |target|);
    assert c.part.Some? ==> path[|target| + 1..] == c.part.value;
    assert target[..|c.plugin|] == c.plugin;
    IndexOfUnique(target, '/', |c.plugin|);
  }

  /** The well-formed inner texts are exactly the printed references. */
  lemma WellFormedCredIff(inner: string)
    ensures WellFormedCred(inner) <==> exists c :: GoodCred(c) && inner == ShowCred(c)
  {
    if WellFormedCred(inner) {
      var c := TakeApart(inner);
    }
    if c: Cred :| GoodCred(c) && inner == ShowCred(c) {
      ShownIsWellFormed(c);
    }
  }
}
