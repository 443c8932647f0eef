/** Well-formed UTF-8 (section 4 of RFC 3629) and what truncation does to it. */
module Utf8 {
  import opened GuardScan

  predicate Between(c: char, lo: int, hi: int) {
    lo <= c as int <= hi
  }

  predicate Tail(s: string, from: nat, n: nat) {
    from + n <= |s| && forall i :: from <= i < from + n ==> Between(s[i], 0x80, 0xBF)
  }

  /** The length of the character a string starts with; 0 if it starts with none. */
  function HeadLength(s: string): (n: nat)
    ensures n <= |s| && n <= 4
    ensures n > 0 ==> !IsContinuation(s[0]) && forall i :: 0 < i < n ==> IsContinuation(s[i])
  {
    if s == [] then 0
    else if Between(s[0], 0x00, 0x7F) then 1
    else if Between(s[0], 0xC2, 0xDF) && Tail(s, 1, 1) then 2
    else if Between(s[0], 0xE0, 0xEF) && Tail(s, 1, 2)
         && (s[0] as int == 0xE0 ==> s[1] as int >= 0xA0) && (s[0] as int == 0xED ==> s[1] as int <= 0x9F) then 3
    else if Between(s[0], 0xF0, 0xF4) && Tail(s, 1, 3)
         && (s[0] as int == 0xF0 ==> s[1] as int >= 0x90) && (s[0] as int == 0xF4 ==> s[1] as int <= 0x8F) then 4
    else 0
  }

  predicate ValidUtf8(s: string)
    decreases |s|
  {
    s == [] || (HeadLength(s) > 0 && ValidUtf8(s[HeadLength(s)..]))
  }

  /** No position is more than three bytes past a character boundary. */
  lemma {:induction false} BoundaryNear(s: string, i: nat) returns (j: nat)
    requires ValidUtf8(s) && i <= |s|
    ensures j <= i <= j + 3 && IsBoundary(s, j)
    decreases |s|
  {
    var n := HeadLength(s);
    if s == [] || i < n {
      j := 0;
    } else {
      j := BoundaryNear(s[n..], i - n);
      if j > 0 && n + j < |s| {
        assert s[n..][j] == s[n + j];
      } else if j == 0 && n < |s| {
        assert s[n] == s[n..][0];
      }
      j := n + j;
    }
  }

  /** A character is recognised by its own bytes. */
  lemma SameHead(s: string, t: string)
    requires t <= s && HeadLength(s) <= |t|
    ensures HeadLength(s) > 0 ==> HeadLength(t) == HeadLength(s)
  {
  }

  lemma {:induction false} BoundaryPrefix(s: string, e: nat)
    requires ValidUtf8(s) && e <= |s| && IsBoundary(s, e)
    ensures ValidUtf8(s[..e])
    decreases |s|
  {
    if e == 0 {
    } else {
      var n := HeadLength(s);
      assert n <= e;
      var rest := s[n..];
      if e - n < |rest| {
        assert rest[e - n] == s[e];
      }
      BoundaryPrefix(rest, e - n);
      SameHead(s, s[..e]);
      assert s[..e][n..] == rest[..e - n];
    }
  }

  lemma SameHeadOf(a: string, b: string)
    requires HeadLength(a) > 0
    ensures HeadLength(a + b) == HeadLength(a)
  {
    assert forall i :: 0 <= i < |a| ==> (a + b)[i] == a[i];
  }

  lemma {:induction false} Concatenation(a: string, b: string)
    requires ValidUtf8(a) && ValidUtf8(b)
    ensures ValidUtf8(a + b)
    decreases |a|
  {
    if a == [] {
      assert a + b == b;
    } else {
      var n := HeadLength(a);
      SameHeadOf(a, b);
      assert (a + b)[n..] == a[n..] + b;
      Concatenation(a[n..], b);
    }
  }

  lemma EllipsisValid()
    ensures ValidUtf8(ELLIPSIS)
  {
    var s := ELLIPSIS;
    assert s[0] as int == 0xE2 && s[1] as int == 0x80 && s[2] as int == 0xA6;
    assert HeadLength(s) == 3;
    assert s[3..] == [];
  }

  /** Truncating valid UTF-8 gives valid UTF-8: at least 77 of the first 80 bytes, then the mark. */
  lemma TruncationOfUtf8(s: string)
    requires ValidUtf8(s)
    ensures ValidUtf8(Truncated(s))
    ensures |s| <= MAX_SNIPPET ==> Truncated(s) == s
    ensures |s| > MAX_SNIPPET ==>
              exists e :: MAX_SNIPPET - 3 <= e <= MAX_SNIPPET && IsBoundary(s, e) && Truncated(s) == s[..e] + ELLIPSIS
  {
    if |s| > MAX_SNIPPET {
      var e := Cut(s, |s| - MAX_SNIPPET);
      var j := BoundaryNear(s, MAX_SNIPPET);
      assert j <= e;
      BoundaryPrefix(s, e);
      EllipsisValid();
      Concatenation(s[..e], ELLIPSIS);
    }
  }
}
