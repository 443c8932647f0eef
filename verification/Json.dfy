/** A parsed config: the part of `serde_json::Value` the checks use. */
module Json {
  import opened Text

  /** A number is an integer or anything else, kept as its text. */
  datatype Num = Int(i: int) | Other(text: string)

  datatype Json =
    | Null
    | Bool(b: bool)
    | Number(n: Num)
    | Str(s: string)
    | Arr(items: seq<Json>)
    | Obj(members: seq<Member>)

  datatype Member = Member(key: string, value: Json)

  /** No object, at any depth, has two members with one key. */
  predicate DistinctKeys(v: Json)
    decreases v
  {
    match v
    case Arr(items) => forall i :: 0 <= i < |items| ==> DistinctKeys(items[i])
    case Obj(ms) =>
      && (forall i, j :: 0 <= i < j < |ms| ==> ms[i].key != ms[j].key)
      && (forall i :: 0 <= i < |ms| ==> DistinctKeys(ms[i].value))
    case _ => true
  }

  function Lookup(ms: seq<Member>, key: string): (r: Option<Json>)
    ensures r.Some? ==> exists i :: 0 <= i < |ms| && ms[i] == Member(key, r.value)
    ensures r.None? ==> forall i :: 0 <= i < |ms| ==> ms[i].key != key
  {
    if ms == [] then None
    else if ms[0].key == key then Some(ms[0].value)
    else
      var r := Lookup(ms[1..], key);
      assert r.Some? ==> forall i :: 0 <= i < |ms| - 1 ==> ms[1..][i] == ms[i + 1];
      r
  }

  /** `Value::get` with a key. */
  function Get(v: Json, key: string): Option<Json> {
    if v.Obj? then Lookup(v.members, key) else None
  }

  /** One token of a JSON pointer (RFC 6901): a key, or an index without sign or leading zero. */
  function Child(v: Json, token: string): Option<Json> {
    match v
    case Obj(ms) => Lookup(ms, token)
    case Arr(items) =>
      if HasPrefix(token, "+") || (HasPrefix(token, "0") && |token| != 1) then None
      else
        var i := ParseU64(token);
        if i.Some? && i.value < |items| then Some(items[i.value]) else None
    case _ => None
  }

  /** `Value::pointer`, its path already split into tokens. */
  function Pointer(v: Json, path: seq<string>): Option<Json> {
    if path == [] then Some(v)
    else
      var c := Child(v, path[0]);
      if c.None? then None else Pointer(c.value, path[1..])
  }

  function AsStr(v: Option<Json>): Option<string> {
    if v.Some? && v.value.Str? then Some(v.value.s) else None
  }

  function AsArray(v: Option<Json>): Option<seq<Json>> {
    if v.Some? && v.value.Arr? then Some(v.value.items) else None
  }

  /** In an object with distinct keys, a token finds exactly the member it names. */
  lemma MemberMeans(ms: seq<Member>, key: string, x: Json)
    requires DistinctKeys(Obj(ms))
    ensures Child(Obj(ms), key) == Some(x) <==> Member(key, x) in ms
  {
    if Member(key, x) in ms {
      var i :| 0 <= i < |ms| && ms[i] == Member(key, x);
      var y := Lookup(ms, key).value;
      var j :| 0 <= j < |ms| && ms[j] == Member(key, y);
      assert i == j;
    }
  }

  lemma IndexPrinted(token: string)
    requires !HasPrefix(token, "+") && !(HasPrefix(token, "0") && |token| != 1) && ParseU64(token).Some?
    ensures token == Decimal(ParseU64(token).value)
  {
    assert token != [] ==> token[..1] == [token[0]];
    DecimalOfValue(token);
  }

  /** In an array a token finds the element at the index it prints, and nothing by any other text. */
  lemma ElementMeans(items: seq<Json>, token: string, x: Json)
    requires |items| <= U64_LIMIT
    ensures Child(Arr(items), token) == Some(x) <==> exists i: nat :: i < |items| && token == Decimal(i) && items[i] == x
  {
    if Child(Arr(items), token) == Some(x) {
      IndexPrinted(token);
    }
    if i: nat :| i < |items| && token == Decimal(i) && items[i] == x {
      DecimalValue(i);
      DecimalNoLeadingZero(i);
      assert IsDigit(token[0]);
      if token[0] == '0' {
        assert token == [token[0]];
      }
    }
  }

  /** Following a path in two parts is following them one after the other. */
  lemma {:induction false} PointerAppend(v: Json, p: seq<string>, q: seq<string>)
    ensures Pointer(v, p + q) == if Pointer(v, p).None? then None else Pointer(Pointer(v, p).value, q)
    decreases |p|
  {
    if p == [] {
      assert p + q == q;
    } else {
      assert (p + q)[1..] == p[1..] + q;
      var c := Child(v, p[0]);
      if c.Some? {
        PointerAppend(c.value, p[1..], q);
      }
    }
  }
}
