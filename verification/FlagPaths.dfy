/** When the paths the publish guard reports tell apart the places they stand for. */
module FlagPaths {
  import opened Json
  import opened PrivateBackends

  /** A key that a rendered path shows unambiguously. */
  predicate PlainKey(k: string) {
    k != "" && '.' !in k && '[' !in k
  }

  /** Every key in the document is one. */
  predicate PlainKeys(v: Json)
    decreases v
  {
    match v
    case Arr(items) => forall i :: 0 <= i < |items| ==> PlainKeys(items[i])
    case Obj(ms) => forall i :: 0 <= i < |ms| ==> PlainKey(ms[i].key) && PlainKeys(ms[i].value)
    case _ => true
  }

  predicate PlainSteps(steps: seq<Step>) {
    forall i :: 0 <= i < |steps| ==> steps[i].Key? ==> PlainKey(steps[i].name)
  }

  lemma {:induction false} SetAtPlain(v: Json, steps: seq<Step>)
    requires PlainKeys(v) && SetAt(v, steps)
    ensures PlainSteps(steps)
    decreases |steps|
  {
    assert steps == [steps[0]] + steps[1..];
    match steps[0]
    case Key(k) =>
      var m: Member :| m in v.members && m.key == k && SetIn(m, steps[1..]);
      if steps[1..] == [] {
      } else {
        SetAtPlain(m.value, steps[1..]);
      }
    case Item =>
      var item: Json :| item in v.items && SetAt(item, steps[1..]);
      SetAtPlain(item, steps[1..]);
  }

  /** What one step adds to a path that is not empty. */
  function Piece(s: Step): string {
    match s
    case Key(k) => "." + k
    case Item => "[]"
  }

  /** What it adds to the empty path. */
  function RootPiece(s: Step): string {
    match s
    case Key(k) => k
    case Item => "[]"
  }

  function Suffix(steps: seq<Step>): string {
    if steps == [] then "" else Piece(steps[0]) + Suffix(steps[1..])
  }

  /** Nothing, or text that starts with a delimiter. */
  predicate Delimited(x: string) {
    x == "" || x[0] == '.' || x[0] == '['
  }

  lemma SuffixDelimited(steps: seq<Step>)
    ensures Delimited(Suffix(steps)) && (Suffix(steps) == "" <==> steps == [])
  {
  }

  lemma Assoc(a: string, b: string, c: string)
    ensures (a + b) + c == a + (b + c)
  {
  }

  lemma RenderStep(path: string, steps: seq<Step>)
    requires steps != []
    ensures Render(path, steps)
         == Render(path + if path == "" then RootPiece(steps[0]) else Piece(steps[0]), steps[1..])
  {
    if steps[0].Key? && path != "" {
      Assoc(path, ".", steps[0].name);
    } else if steps[0].Key? {
      assert path + steps[0].name == steps[0].name;
    }
  }

  lemma {:induction false} RenderSuffix(path: string, steps: seq<Step>)
    requires path != ""
    ensures Render(path, steps) == path + Suffix(steps)
    decreases |steps|
  {
    if steps == [] {
      assert path + "" == path;
    } else {
      RenderStep(path, steps);
      RenderSuffix(path + Piece(steps[0]), steps[1..]);
      Assoc(path, Piece(steps[0]), Suffix(steps[1..]));
    }
  }

  lemma RenderFromRoot(steps: seq<Step>)
    requires PlainSteps(steps) && steps != []
    ensures Render("", steps) == RootPiece(steps[0]) + Suffix(steps[1..])
  {
    RenderStep("", steps);
    assert "" + RootPiece(steps[0]) == RootPiece(steps[0]);
    RenderSuffix(RootPiece(steps[0]), steps[1..]);
  }

  /** A key holds no delimiter, so it cannot reach past one. */
  lemma KeyEndsAtDelimiter(j: string, k: string, x: string, y: string)
    requires PlainKey(k) && Delimited(x) && j + x == k + y
    ensures |k| <= |j|
  {
    var s := k + y;
    forall i | 0 <= i < |k| ensures s[i] != '.' && s[i] != '[' {
      assert s[i] == k[i] && k[i] in k;
    }
    assert x != "" ==> s[|j|] == x[0];
  }

  lemma KeyThenDelimited(j: string, k: string, x: string, y: string)
    requires PlainKey(j) && PlainKey(k) && Delimited(x) && Delimited(y) && j + x == k + y
    ensures j == k && x == y
  {
    var s := j + x;
    assert s == k + y;
    KeyEndsAtDelimiter(j, k, x, y);
    KeyEndsAtDelimiter(k, j, y, x);
    assert s[..|j|] == j && s[..|k|] == k && s[|j|..] == x && s[|k|..] == y;
  }

  lemma RootPieceThen(p: Step, q: Step, x: string, y: string)
    requires PlainSteps([p]) && PlainSteps([q]) && Delimited(x) && Delimited(y)
    requires RootPiece(p) + x == RootPiece(q) + y
    ensures p == q && x == y
  {
    assert [p][0] == p && [q][0] == q;
    assert (RootPiece(p) + x)[0] == RootPiece(p)[0] && (RootPiece(q) + y)[0] == RootPiece(q)[0];
    if p.Key? && q.Key? {
      KeyThenDelimited(p.name, q.name, x, y);
    } else if p.Item? && q.Item? {
      assert ("[]" + x)[2..] == x && ("[]" + y)[2..] == y;
    }
  }

  lemma PieceThen(p: Step, q: Step, x: string, y: string)
    requires PlainSteps([p]) && PlainSteps([q]) && Delimited(x) && Delimited(y)
    requires Piece(p) + x == Piece(q) + y
    ensures p == q && x == y
  {
    assert (Piece(p) + x)[0] == Piece(p)[0] && (Piece(q) + y)[0] == Piece(q)[0];
    if p.Key? && q.Key? {
      Assoc(".", p.name, x);
      Assoc(".", q.name, y);
      assert ("." + (p.name + x))[1..] == p.name + x && ("." + (q.name + y))[1..] == q.name + y;
      RootPieceThen(p, q, x, y);
    } else if p.Item? && q.Item? {
      RootPieceThen(p, q, x, y);
    }
  }

  lemma PlainSlices(steps: seq<Step>)
    requires PlainSteps(steps) && steps != []
    ensures PlainSteps([steps[0]]) && PlainSteps(steps[1..]) && steps == [steps[0]] + steps[1..]
  {
  }

  lemma {:induction false} SuffixInjective(a: seq<Step>, b: seq<Step>)
    requires PlainSteps(a) && PlainSteps(b) && Suffix(a) == Suffix(b)
    ensures a == b
    decreases |a|
  {
    SuffixDelimited(a);
    SuffixDelimited(b);
    if a == [] {
    } else {
      PlainSlices(a);
      PlainSlices(b);
      SuffixDelimited(a[1..]);
      SuffixDelimited(b[1..]);
      PieceThen(a[0], b[0], Suffix(a[1..]), Suffix(b[1..]));
      SuffixInjective(a[1..], b[1..]);
    }
  }

  /** Over plain keys a path renders one way only. */
  lemma RenderInjective(a: seq<Step>, b: seq<Step>)
    requires PlainSteps(a) && PlainSteps(b) && a != [] && b != [] && Render("", a) == Render("", b)
    ensures a == b
  {
    RenderFromRoot(a);
    RenderFromRoot(b);
    PlainSlices(a);
    PlainSlices(b);
    SuffixDelimited(a[1..]);
    SuffixDelimited(b[1..]);
    RootPieceThen(a[0], b[0], Suffix(a[1..]), Suffix(b[1..]));
    SuffixInjective(a[1..], b[1..]);
  }

  /**
   With plain keys, every flag in the document is listed exactly when none stands beneath a member
   named `allow_private_backends`.
   */
  lemma EveryFlagListedIff(v: Json)
    requires PlainKeys(v)
    ensures (forall steps :: SetAt(v, steps) ==> Listed(v, steps)) <==> forall steps :: SetAt(v, steps) ==> !Beneath(steps)
  {
    forall steps | SetAt(v, steps)
      ensures Listed(v, steps) <==> !Beneath(steps)
    {
      ListedIff(v, steps);
      if Listed(v, steps) {
        var top :| SetAt(v, top) && !Beneath(top) && Render("", top) == Render("", steps);
        SetAtPlain(v, steps);
        SetAtPlain(v, top);
        RenderInjective(top, steps);
      }
    }
  }

  lemma OneFlag()
    ensures SetAt(Obj([Member(PRIVATE_BACKENDS_KEY, Bool(true))]), [Key(PRIVATE_BACKENDS_KEY)])
  {
    var m := Member(PRIVATE_BACKENDS_KEY, Bool(true));
    assert m in [m] && [Key(PRIVATE_BACKENDS_KEY)][1..] == [] && SetIn(m, []);
  }

  lemma SamePath(dotted: string)
    requires dotted == "x." + PRIVATE_BACKENDS_KEY
    ensures Render("", [Key("x"), Key(PRIVATE_BACKENDS_KEY), Key(PRIVATE_BACKENDS_KEY)])
         == Render("", [Key(dotted), Key(PRIVATE_BACKENDS_KEY)])
  {
    var key := Key(PRIVATE_BACKENDS_KEY);
    assert [Key("x"), key, key][1..] == [key, key] && [key, key][1..] == [key] && [Key(dotted), key][1..] == [key];
    assert Extend(Extend("", "x"), PRIVATE_BACKENDS_KEY) == dotted == Extend("", dotted);
  }

  /**
   Keys with dots can share a path: here the flag beneath `x.allow_private_backends` is listed only
   because a key spelled `x.allow_private_backends` holds one, too.
   */
  lemma DottedKeyCollides(dotted: string, v: Json)
    requires dotted == "x." + PRIVATE_BACKENDS_KEY
    requires v == Obj([Member("x", NESTED), Member(dotted, Obj([Member(PRIVATE_BACKENDS_KEY, Bool(true))]))])
    ensures var hidden := [Key("x"), Key(PRIVATE_BACKENDS_KEY), Key(PRIVATE_BACKENDS_KEY)];
            SetAt(v, hidden) && Beneath(hidden) && Listed(v, hidden)
  {
    var key := Key(PRIVATE_BACKENDS_KEY);
    var hidden, top := [Key("x"), key, key], [Key(dotted), key];
    NestedFlagMissed();
    var m, n := v.members[0], v.members[1];
    assert hidden[1..] == [key, key] && top[1..] == [key];
    assert m in v.members && SetIn(m, [key, key]);
    assert SetAt(v, hidden);
    assert hidden[1] == key;
    OneFlag();
    assert n in v.members && SetIn(n, [key]);
    assert SetAt(v, top);
    assert !Beneath(top);
    SamePath(dotted);
    ListedIff(v, hidden);
  }
}
