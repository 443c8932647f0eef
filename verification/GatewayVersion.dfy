/** Gateway release versions (src/gateway_build.rs): parsing, printing, ordering, refusal. */
module GatewayVersion {
  import opened Text

  datatype Version = Version(major: U64, minor: U64, patch: U64, pre: seq<string>)

  // ---------------------------------------------------------------- std string operations

  /** Unicode White_Space, which `str::trim` strips. */
  predicate IsWhitespace(c: char) {
    || '\t' <= c <= '\r' || c == ' '
    || c == '\U{85}' || c == '\U{A0}' || c == '\U{1680}'
    || '\U{2000}' <= c <= '\U{200A}'
    || c == '\U{2028}' || c == '\U{2029}' || c == '\U{202F}' || c == '\U{205F}' || c == '\U{3000}'
  }

  function TrimStart(s: string): string {
    if s != [] && IsWhitespace(s[0]) then TrimStart(s[1..]) else s
  }

  function TrimEnd(s: string): string {
    if s != [] && IsWhitespace(s[|s| - 1]) then TrimEnd(s[..|s| - 1]) else s
  }

  function Trim(s: string): string {
    TrimEnd(TrimStart(s))
  }

  /** `s.split(c)`: always at least one piece. */
  function Split(s: string, c: char): (parts: seq<string>)
    ensures parts != []
    ensures forall i :: 0 <= i < |parts| ==> c !in parts[i]
    decreases |s|
  {
    var i := IndexOf(s, c);
    if i == |s| then [s] else [s[..i]] + Split(s[i + 1..], c)
  }

  function Join(parts: seq<string>, c: char): string {
    if parts == [] then ""
    else if |parts| == 1 then parts[0]
    else parts[0] + [c] + Join(parts[1..], c)
  }

  // ---------------------------------------------------------------- parse and display

  function ParseTrimmed(t: string): Option<Version> {
    var v := t[..IndexOf(t, '+')];
    var dash := IndexOf(v, '-');
    var core := Split(v[..dash], '.');
    if |core| != 3 then None else
    var major, minor, patch := ParseU64(core[0]), ParseU64(core[1]), ParseU64(core[2]);
    if major.None? || minor.None? || patch.None? then None
    else if dash == |v| then Some(Version(major.value, minor.value, patch.value, []))
    else
      var pre := Split(v[dash + 1..], '.');
      if [] in pre then None
      else Some(Version(major.value, minor.value, patch.value, pre))
  }

  function Parse(version: string): Option<Version> {
    var t := Trim(version);
    ParseTrimmed(if t != [] && t[0] == 'v' then t[1..] else t)
  }

  function DisplayCore(v: Version): string {
    Decimal(v.major) + "." + Decimal(v.minor) + "." + Decimal(v.patch)
  }

  function Display(v: Version): string {
    if v.pre == [] then DisplayCore(v) else DisplayCore(v) + "-" + Join(v.pre, '.')
  }

  predicate IsUnreleased(v: Version) {
    v.major == 0 && v.minor == 0 && v.patch == 0 && v.pre == []
  }

  // ---------------------------------------------------------------- order

  function CompareIdentifier(a: string, b: string): Ordering {
    match (ParseU64(a), ParseU64(b))
    case (Some(x), Some(y)) => CompareInt(x, y)
    case (Some(_), None) => Less
    case (None, Some(_)) => Greater
    case (None, None) => Text.Compare(a, b)
  }

  /** The loop over zipped identifiers, then the lengths. */
  function ComparePre(a: seq<string>, b: seq<string>): Ordering {
    if a == [] || b == [] then CompareInt(|a|, |b|)
    else
      var o := CompareIdentifier(a[0], b[0]);
      if o != Equal then o else ComparePre(a[1..], b[1..])
  }

  function CompareCore(a: Version, b: Version): Ordering {
    if a.major != b.major then CompareInt(a.major, b.major)
    else if a.minor != b.minor then CompareInt(a.minor, b.minor)
    else CompareInt(a.patch, b.patch)
  }

  function Cmp(a: Version, b: Version): Ordering {
    var o := CompareCore(a, b);
    if o != Equal then o
    else match (a.pre == [], b.pre == [])
      case (true, true) => Equal
      case (true, false) => Greater
      case (false, true) => Less
      case (false, false) => ComparePre(a.pre, b.pre)
  }

  // ---------------------------------------------------------------- refusal

  const LAST_BEFORE_OVERFLOW_SPLIT: seq<(string, U64)> := [("alpha", 1), ("beta", 59), ("canary", 917)]

  const SPLIT_LINE: Version := Version(0, 1, 0, [])

  predicate Refused(v: Version) {
    if IsUnreleased(v) then false
    else match CompareCore(v, SPLIT_LINE)
      case Less => true
      case Greater => false
      case Equal =>
        && |v.pre| == 2
        && exists k :: 0 <= k < |LAST_BEFORE_OVERFLOW_SPLIT|
             && LAST_BEFORE_OVERFLOW_SPLIT[k].0 == v.pre[0]
             && ParseU64(v.pre[1]).Some? && ParseU64(v.pre[1]).value <= LAST_BEFORE_OVERFLOW_SPLIT[k].1
  }

  predicate BeforeOverflowSplit(version: string) {
    var v := Parse(version);
    v.Some? && Refused(v.value)
  }

  predicate AtLeast(version: string, floor: Version) {
    var v := Parse(version);
    v.Some? && Cmp(v.value, floor) != Less
  }
}
