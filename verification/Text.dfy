/**
 Strings and their orders, shared by the other modules.

 Where a module works on Rust `str` byte offsets, a string is the sequence of its UTF-8 bytes, each
 written as the char with that code; elsewhere it is a sequence of Unicode scalar values. Both
 readings order strings by `Compare`.
 */
module Text {
  datatype Option<+T> = None | Some(value: T) {
    function GetOr(default: T): T {
      match this
      case Some(v) => v
      case None => default
    }
  }

  datatype Ordering = Less | Equal | Greater {
    function Reverse(): Ordering {
      match this
      case Less => Greater
      case Equal => Equal
      case Greater => Less
    }
  }

  function CompareInt(a: int, b: int): Ordering {
    if a < b then Less else if a == b then Equal else Greater
  }

  /** Lexicographic order: `str`'s own. */
  function Compare(a: string, b: string): Ordering {
    if a == [] && b == [] then Equal
    else if a == [] then Less
    else if b == [] then Greater
    else if a[0] != b[0] then CompareInt(a[0] as int, b[0] as int)
    else Compare(a[1..], b[1..])
  }

  lemma {:induction false} CompareEqual(a: string, b: string)
    ensures Compare(a, b) == Equal <==> a == b
  {
    if a == [] || b == [] || a[0] != b[0] {
    } else {
      CompareEqual(a[1..], b[1..]);
      assert a == [a[0]] + a[1..] && b == [b[0]] + b[1..];
    }
  }

  lemma {:induction false} CompareReverse(a: string, b: string)
    ensures Compare(b, a) == Compare(a, b).Reverse()
  {
    if a == [] || b == [] || a[0] != b[0] {
    } else {
      CompareReverse(a[1..], b[1..]);
    }
  }

  lemma {:induction false} CompareTransitive(a: string, b: string, c: string)
    requires Compare(a, b) == Less && Compare(b, c) == Less
    ensures Compare(a, c) == Less
  {
    if a == [] || b == [] || c == [] || a[0] != b[0] || b[0] != c[0] {
    } else {
      CompareTransitive(a[1..], b[1..], c[1..]);
    }
  }

  /** `a` and `b` agree up to `k`, where `a` ends or has the smaller char. */
  ghost predicate SmallerAt(a: string, b: string, k: nat) {
    && k <= |a| && k < |b| && a[..k] == b[..k]
    && (k < |a| ==> a[k] < b[k])
  }

  lemma SharedHead(a: string, b: string, k: nat)
    requires a != [] && SmallerAt(a, b, k)
    ensures k == 0 || a[0] == b[0]
  {
    if k > 0 {
      assert a[..k][0] == b[..k][0];
    }
  }

  lemma SmallerLater(a: string, b: string, k: nat)
    requires a != [] && b != [] && a[0] == b[0] && SmallerAt(a[1..], b[1..], k)
    ensures SmallerAt(a, b, k + 1)
  {
    assert a[..k + 1] == [a[0]] + a[1..][..k] && b[..k + 1] == [b[0]] + b[1..][..k];
  }

  lemma SmallerEarlier(a: string, b: string, k: nat)
    requires a != [] && b != [] && a[0] == b[0] && SmallerAt(a, b, k)
    ensures k > 0 && SmallerAt(a[1..], b[1..], k - 1)
  {
    assert k > 0 ==> a[1..][..k - 1] == a[..k][1..] && b[1..][..k - 1] == b[..k][1..];
  }

  /** The order is `str`'s: the first difference decides, and a proper prefix is smaller. */
  lemma {:induction false} CompareMeans(a: string, b: string)
    ensures Compare(a, b) == Less <==> exists k: nat :: SmallerAt(a, b, k)
  {
    if a == [] || b == [] {
      if a == [] && b != [] {
        assert SmallerAt(a, b, 0);
      }
    } else if a[0] != b[0] {
      if a[0] < b[0] {
        assert SmallerAt(a, b, 0);
      }
      if k: nat :| SmallerAt(a, b, k) {
        SharedHead(a, b, k);
      }
    } else {
      CompareMeans(a[1..], b[1..]);
      if k: nat :| SmallerAt(a[1..], b[1..], k) {
        SmallerLater(a, b, k);
      }
      if k: nat :| SmallerAt(a, b, k) {
        SmallerEarlier(a, b, k);
      }
    }
  }

  predicate HasPrefix(s: string, p: string) {
    |p| <= |s| && s[..|p|] == p
  }

  predicate HasSuffix(s: string, p: string) {
    |p| <= |s| && s[|s| - |p|..] == p
  }

  function IndexFrom(s: string, c: char, i: nat): (k: nat)
    requires i <= |s|
    ensures i <= k <= |s| && (k < |s| ==> s[k] == c)
    ensures forall j :: i <= j < k ==> s[j] != c
    decreases |s| - i
  {
    if i == |s| || s[i] == c then i else IndexFrom(s, c, i + 1)
  }

  /** The first index of `c` in `s`, or its length. */
  function IndexOf(s: string, c: char): (i: nat)
    ensures i <= |s|
    ensures c !in s[..i]
    ensures i < |s| ==> s[i] == c
    ensures i == |s| <==> c !in s
  {
    IndexFrom(s, c, 0)
  }

  function AfterLastFrom(s: string, c: char, i: nat): (k: nat)
    requires i <= |s|
    ensures k <= i && (k > 0 ==> s[k - 1] == c)
    ensures forall j :: k <= j < i ==> s[j] != c
  {
    if i == 0 || s[i - 1] == c then i else AfterLastFrom(s, c, i - 1)
  }

  /** The index after the last `c` in `s`, or 0. */
  function AfterLast(s: string, c: char): (i: nat)
    ensures i <= |s|
    ensures c !in s[i..]
    ensures i > 0 ==> s[i - 1] == c
    ensures i == 0 <==> c !in s
  {
    AfterLastFrom(s, c, |s|)
  }

  /** Slices that stay within the first part of a concatenation, or take all of the second. */
  lemma SliceConcat(a: string, b: string, i: nat, j: nat)
    requires i <= j <= |a|
    ensures (a + b)[i..j] == a[i..j] && (a + b)[..j] == a[..j] && (a + b)[j..] == a[j..] + b
  {
  }

  lemma NoneBefore(s: string, c: char, i: nat)
    requires i <= |s| && c !in s[..i]
    ensures forall j :: 0 <= j < i ==> s[j] != c
  {
    assert forall j :: 0 <= j < i ==> s[..i][j] == s[j];
  }

  lemma NoneAfter(s: string, c: char, i: nat)
    requires i <= |s| && c !in s[i..]
    ensures forall j :: i <= j < |s| ==> s[j] != c
  {
    assert forall j :: i <= j < |s| ==> s[i..][j - i] == s[j];
  }

  /** The position of the first `c` is determined by what precedes it. */
  lemma IndexOfUnique(s: string, c: char, i: nat)
    requires i <= |s| && c !in s[..i] && (i < |s| ==> s[i] == c)
    ensures IndexOf(s, c) == i
  {
    var k := IndexOf(s, c);
    NoneBefore(s, c, i);
    NoneBefore(s, c, k);
  }

  lemma AfterLastUnique(s: string, c: char, i: nat)
    requires i <= |s| && c !in s[i..] && (i > 0 ==> s[i - 1] == c)
    ensures AfterLast(s, c) == i
  {
    var k := AfterLast(s, c);
    NoneAfter(s, c, i);
    NoneAfter(s, c, k);
  }

  // ---------------------------------------------------------------- lower-casing

  function LowerChar(c: char): char {
    if 'A' <= c <= 'Z' then (c as int + 32) as char else c
  }

  /** Lowercase on the letters A to Z only: `to_ascii_lowercase`, and SQLite's `lower`. */
  function AsciiLower(s: string): (l: string)
    ensures |l| == |s| && forall i :: 0 <= i < |s| ==> l[i] == LowerChar(s[i])
  {
    seq(|s|, i requires 0 <= i < |s| => LowerChar(s[i]))
  }

  // ---------------------------------------------------------------- decimal numbers

  const U64_LIMIT: nat := 0x1_0000_0000_0000_0000
  type U64 = n: int | 0 <= n < U64_LIMIT

  predicate IsDigit(c: char) {
    '0' <= c <= '9'
  }

  predicate AllDigits(s: string) {
    s != [] && forall i :: 0 <= i < |s| ==> IsDigit(s[i])
  }

  /** The number a string of digits denotes. */
  function Value(s: string): nat
    requires forall i :: 0 <= i < |s| ==> IsDigit(s[i])
  {
    if s == [] then 0 else
    assert IsDigit(s[|s| - 1]);
    Value(s[..|s| - 1]) * 10 + (s[|s| - 1] as int - '0' as int)
  }

  /** `str::parse::<u64>`: one optional `+`, then decimal digits that fit. */
  function ParseU64(s: string): (r: Option<nat>)
    ensures r.Some? ==> r.value < U64_LIMIT
  {
    var body := if |s| > 1 && s[0] == '+' then s[1..] else s;
    if AllDigits(body) && Value(body) < U64_LIMIT then Some(Value(body)) else None
  }

  /** A number as `Display` prints it. */
  function Decimal(n: nat): (s: string)
    ensures AllDigits(s)
  {
    if n < 10 then [('0' as int + n) as char]
    else Decimal(n / 10) + [('0' as int + n % 10) as char]
  }

  lemma {:induction false} DecimalValue(n: nat)
    ensures Value(Decimal(n)) == n
  {
    var s := Decimal(n);
    if n >= 10 {
      DecimalValue(n / 10);
      assert s[..|s| - 1] == Decimal(n / 10);
    } else {
      assert s[..0] == [];
    }
  }

  lemma DecimalSnoc(n: nat, c: char)
    requires n > 0 && IsDigit(c)
    ensures Decimal(n * 10 + (c as int - '0' as int)) == Decimal(n) + [c]
  {
  }

  lemma {:induction false} ValuePositive(s: string)
    requires AllDigits(s) && s[0] != '0'
    ensures Value(s) > 0
    decreases |s|
  {
    if |s| == 1 {
      assert s[..0] == [];
    } else {
      ValuePositive(s[..|s| - 1]);
    }
  }

  /** A text of digits without leading zeros is the printed form of its number. */
  lemma {:induction false} DecimalOfValue(s: string)
    requires AllDigits(s) && (|s| > 1 ==> s[0] != '0')
    ensures Decimal(Value(s)) == s
    decreases |s|
  {
    var init, last := s[..|s| - 1], s[|s| - 1];
    assert s == init + [last];
    if |s| == 1 {
      assert init == [];
    } else {
      DecimalOfValue(init);
      ValuePositive(init);
      DecimalSnoc(Value(init), last);
    }
  }

  lemma {:induction false} DecimalNoLeadingZero(n: nat)
    ensures var s := Decimal(n); |s| > 1 ==> s[0] != '0'
  {
    if n < 10 {
    } else {
      DecimalNoLeadingZero(n / 10);
    }
  }
}
