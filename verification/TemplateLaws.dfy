/**
 What the replacement of keywords means: how a template is divided, that values are not looked
 at again, and how long the result is.
 */
module TemplateLaws {
  import opened CText
  import opened TemplateDict

  // ---------- the one division of a template ----------

  lemma SpellCons(p: Piece, ps: seq<Piece>)
    ensures Spell([p] + ps) == SpellOne(p) + Spell(ps)
  {
    assert ([p] + ps)[1..] == ps;
  }

  /** A piece in front of the text `rest`: references are known names, and nothing else is copied. */
  ghost predicate GoodPiece(d: seq<Tuple>, p: Piece, rest: string) {
    match p
    case Copy(c) => !IsRef(d, [c] + rest)
    case Ref(i, name) => Free(name, ']') && |name| <= 255 && i == FirstKey(d, name) && i < |d|
  }

  ghost predicate Division(d: seq<Tuple>, ps: seq<Piece>) {
    ps == [] || (GoodPiece(d, ps[0], Spell(ps[1..])) && Division(d, ps[1..]))
  }

  lemma {:induction false} PiecesDivide(d: seq<Tuple>, s: string)
    ensures Spell(Pieces(d, s)) == s && Division(d, Pieces(d, s))
    decreases |s|
  {
    if s != "" {
      var ps := Pieces(d, s);
      if IsRef(d, s) {
        PiecesDivide(d, s[RefLength(s)..]);
        SpellCons(Ref(FirstKey(d, RefName(s)), RefName(s)), Pieces(d, s[RefLength(s)..]));
        BracketParts(s, CloseAt(s[1..]));
      } else {
        PiecesDivide(d, s[1..]);
        SpellCons(Copy(s[0]), Pieces(d, s[1..]));
        assert s == [s[0]] + s[1..];
      }
      assert ps[1..] == Pieces(d, s[if IsRef(d, s) then RefLength(s) else 1..]);
    }
  }

  lemma BracketParts(s: string, k: nat)
    requires s != "" && s[0] == '[' && k < |s[1..]| && s[1..][k] == ']'
    ensures "[" + s[1..][..k] + "]" + s[k + 2..] == s
  {
  }

  /** Reading a reference back from its text. */
  lemma {:induction false} RefReads(d: seq<Tuple>, name: string, rest: string)
    requires Free(name, ']') && |name| <= MAX_NAME && FirstKey(d, name) < |d|
    ensures var s := "[" + name + "]" + rest;
            IsRef(d, s) && Pieces(d, s) == [Ref(FirstKey(d, name), name)] + Pieces(d, rest)
  {
    var s := "[" + name + "]" + rest;
    assert s[1..] == name + "]" + rest;
    assert s[1..][..|name|] == name && s[1..][|name|] == ']';
    CloseAtIs(s[1..], |name|);
    assert s[|name| + 2..] == rest;
  }

  lemma CopyReads(d: seq<Tuple>, c: char, rest: string)
    requires !IsRef(d, [c] + rest)
    ensures Pieces(d, [c] + rest) == [Copy(c)] + Pieces(d, rest)
  {
    assert ([c] + rest)[1..] == rest;
  }

  lemma PieceReads(d: seq<Tuple>, p: Piece, rest: string)
    requires GoodPiece(d, p, rest)
    ensures Pieces(d, SpellOne(p) + rest) == [p] + Pieces(d, rest)
  {
    match p {
      case Copy(c) => CopyReads(d, c, rest);
      case Ref(i, name) => RefReads(d, name, rest);
    }
  }

  lemma {:induction false} DivisionIsPieces(d: seq<Tuple>, ps: seq<Piece>)
    requires Division(d, ps)
    ensures Pieces(d, Spell(ps)) == ps
  {
    if ps != [] {
      DivisionIsPieces(d, ps[1..]);
      PieceReads(d, ps[0], Spell(ps[1..]));
      assert ps == [ps[0]] + ps[1..];
    }
  }

  /**
   A template has exactly one division into copied characters and references in which every
   reference is the first tuple for a known name of at most 255 characters up to the first
   closing bracket, and no copied character starts such a reference.
   */
  lemma PiecesExactly(d: seq<Tuple>, s: string, ps: seq<Piece>)
    ensures ps == Pieces(d, s) <==> Spell(ps) == s && Division(d, ps)
  {
    PiecesDivide(d, s);
    if Spell(ps) == s && Division(d, ps) {
      DivisionIsPieces(d, ps);
    }
  }

  // ---------- what a single reference gives ----------

  /** The same character, or the two cases of one letter. */
  predicate Alike(a: char, b: char) {
    || a == b
    || ('A' <= a <= 'Z' && b as int == a as int + 32)
    || ('A' <= b <= 'Z' && a as int == b as int + 32)
  }

  predicate AlikeKeys(a: string, b: string) {
    |a| == |b| && forall i | 0 <= i < |a| :: Alike(a[i], b[i])
  }

  lemma AlikeBothWays(a: string, b: string)
    ensures AlikeKeys(a, b) == AlikeKeys(b, a)
  {
  }

  lemma SameKeyExactly(a: string, b: string)
    ensures SameKey(a, b) <==> AlikeKeys(a, b)
  {
    assert forall i | 0 <= i < |a| && |a| == |b| :: Lower(a[i]) == Lower(b[i]) <==> Alike(a[i], b[i]);
  }

  /** A name in brackets gives the value of the first key alike to it, at most 1024 characters of it. */
  lemma ReferenceGivesValue(d: seq<Tuple>, i: nat, name: string)
    requires i < |d| && AlikeKeys(name, d[i].key) && forall j | 0 <= j < i :: !AlikeKeys(name, d[j].key)
    requires Free(name, ']') && |name| <= 255
    ensures Replaced(d, "[" + name + "]") == Clip(d[i].val, 1024)
  {
    SameKeyExactly(name, d[i].key);
    forall j | 0 <= j < i ensures !SameKey(name, d[j].key) {
      SameKeyExactly(name, d[j].key);
    }
    FirstKeyIs(d, name, i);
    RefReads(d, name, "");
    assert "[" + name + "]" + "" == "[" + name + "]";
    ExpandCons(d, Ref(i, name), []);
    assert Clip(d[i].val, 1024) + "" == Clip(d[i].val, 1024);
  }

  /** With keys that differ regardless of case, each key gives its own value. */
  lemma KeyGivesItsValue(d: seq<Tuple>, i: nat)
    requires i < |d| && forall j, k | 0 <= j < k < |d| :: !AlikeKeys(d[j].key, d[k].key)
    requires Free(d[i].key, ']') && |d[i].key| <= 255
    ensures Replaced(d, "[" + d[i].key + "]") == Clip(d[i].val, 1024)
  {
    forall j | 0 <= j < i ensures !AlikeKeys(d[i].key, d[j].key) {
      AlikeBothWays(d[i].key, d[j].key);
    }
    ReferenceGivesValue(d, i, d[i].key);
  }

  lemma {:induction false} CopiedWhole(d: seq<Tuple>, s: string)
    requires Free(s, '[')
    ensures Replaced(d, s) == s
  {
    if s != "" {
      CopiedWhole(d, s[1..]);
      ExpandCons(d, Copy(s[0]), Pieces(d, s[1..]));
      assert s == [s[0]] + s[1..];
    }
  }

  /** A name that is unknown or has more than 255 characters stays as it is, brackets included. */
  lemma OtherNamesStay(d: seq<Tuple>, name: string)
    requires Free(name, ']') && Free(name, '[')
    requires |name| > 255 || forall j | 0 <= j < |d| :: !AlikeKeys(name, d[j].key)
    ensures Replaced(d, "[" + name + "]") == "[" + name + "]"
  {
    var t := name + "]";
    NoReference(d, name);
    assert ("[" + name + "]")[1..] == t;
    CopiedWhole(d, t);
    ExpandCons(d, Copy('['), Pieces(d, t));
  }

  lemma NoReference(d: seq<Tuple>, name: string)
    requires Free(name, ']')
    requires |name| > 255 || forall j | 0 <= j < |d| :: !AlikeKeys(name, d[j].key)
    ensures !IsRef(d, "[" + name + "]")
  {
    var s, t := "[" + name + "]", name + "]";
    assert s[1..] == t && t[..|name|] == name && t[|name|] == ']';
    CloseAtIs(t, |name|);
    forall j | 0 <= j < |d| ensures SameKey(name, d[j].key) <==> AlikeKeys(name, d[j].key) {
      SameKeyExactly(name, d[j].key);
    }
  }

  // ---------- values are never looked at ----------

  ghost predicate SameKeys(d: seq<Tuple>, e: seq<Tuple>) {
    |d| == |e| && forall i | 0 <= i < |d| :: d[i].key == e[i].key
  }

  /** What is replaced depends on the keys only, so brackets in values stay as they are. */
  lemma {:induction false} ValuesNotRescanned(d: seq<Tuple>, e: seq<Tuple>, s: string)
    requires SameKeys(d, e)
    ensures Pieces(d, s) == Pieces(e, s)
    decreases |s|
  {
    if s != "" {
      SameRef(d, e, s);
      if IsRef(d, s) {
        ValuesNotRescanned(d, e, s[RefLength(s)..]);
      } else {
        ValuesNotRescanned(d, e, s[1..]);
      }
    }
  }

  lemma SameRef(d: seq<Tuple>, e: seq<Tuple>, s: string)
    requires SameKeys(d, e) && s != ""
    ensures IsRef(d, s) == IsRef(e, s)
    ensures forall name :: FirstKey(d, name) == FirstKey(e, name)
  {
    forall name ensures FirstKey(d, name) == FirstKey(e, name) {
      FirstKeyIs(e, name, FirstKey(d, name));
    }
  }

  // ---------- the length of the result ----------

  /** The characters the references take up in the template, and the values in the result. */
  function Taken(ps: seq<Piece>): nat {
    if ps == [] then 0 else (if ps[0].Ref? then |ps[0].name| + 2 else 0) + Taken(ps[1..])
  }

  function Given(d: seq<Tuple>, ps: seq<Piece>): nat {
    if ps == [] then 0 else (if ps[0].Ref? then |ExpandOne(d, ps[0])| else 0) + Given(d, ps[1..])
  }

  lemma {:induction false} LengthLaw(d: seq<Tuple>, ps: seq<Piece>)
    ensures |Expand(d, ps)| + Taken(ps) == |Spell(ps)| + Given(d, ps)
  {
    if ps != [] {
      LengthLaw(d, ps[1..]);
    }
  }

  /** The result and its terminator fit the work buffer exactly if the values outweigh the references by too little. */
  lemma FitsExactly(d: seq<Tuple>, s: string)
    ensures |Replaced(d, s)| < WorkSize(d, s) <==> Given(d, Pieces(d, s)) < Taken(Pieces(d, s)) + MAX_VALUE * |d|
  {
    LengthLaw(d, Pieces(d, s));
    PiecesDivide(d, s);
  }

  /** The tuples used, in order. */
  function Uses(ps: seq<Piece>): seq<nat> {
    if ps == [] then [] else (if ps[0].Ref? then [ps[0].i] else []) + Uses(ps[1..])
  }

  ghost predicate NoRepeats(u: seq<nat>) {
    forall i, j | 0 <= i < j < |u| :: u[i] != u[j]
  }

  lemma {:induction false} GivenBound(d: seq<Tuple>, ps: seq<Piece>)
    requires Division(d, ps)
    ensures Given(d, ps) <= MAX_VALUE * |Uses(ps)| && 2 * |Uses(ps)| <= Taken(ps)
    ensures forall k | 0 <= k < |Uses(ps)| :: Uses(ps)[k] < |d|
  {
    if ps != [] {
      GivenBound(d, ps[1..]);
    }
  }

  /** Different numbers below `n` are at most `n`. */
  lemma {:induction false} Pigeonhole(u: seq<nat>, n: nat)
    requires NoRepeats(u) && forall k | 0 <= k < |u| :: u[k] < n
    ensures |u| <= n
    decreases n
  {
    assert |u| > 0 ==> 0 <= u[0] < n;
    if k :| 0 <= k < |u| && u[k] == n - 1 {
      var less := u[..k] + u[k + 1..];
      assert NoRepeats(less);
      Pigeonhole(less, n - 1);
    } else if n > 0 {
      Pigeonhole(u, n - 1);
    }
  }

  /** With a non-empty dictionary and every tuple used at most once, the result fits. */
  lemma FitsWhenUsedOnce(d: seq<Tuple>, s: string)
    requires d != [] && NoRepeats(Uses(Pieces(d, s)))
    ensures |Replaced(d, s)| < WorkSize(d, s)
  {
    var ps := Pieces(d, s);
    PiecesDivide(d, s);
    GivenBound(d, ps);
    Pigeonhole(Uses(ps), |d|);
    FitsExactly(d, s);
  }

  /** Without tuples the text stays, and its terminator never fits. */
  lemma {:induction false} EmptyDictionary(s: string)
    ensures Replaced([], s) == s && WorkSize([], s) == |s|
  {
    if s != "" {
      EmptyDictionary(s[1..]);
      ExpandCons([], Copy(s[0]), Pieces([], s[1..]));
      assert s == [s[0]] + s[1..];
    }
  }

  /** A long value used twice does not fit. */
  lemma RepeatedKeyOverflows(val: string)
    requires |val| >= MAX_VALUE
    ensures var d := [Tuple("A", val)];
            |Replaced(d, "[a][A]")| > WorkSize(d, "[a][A]")
  {
    var d := [Tuple("A", val)];
    assert SameKey("a", "A") && SameKey("A", "A");
    assert FirstKey(d, "a") == 0 && FirstKey(d, "A") == 0;
    RefReads(d, "A", "");
    RefReads(d, "a", "[A]");
    assert "[" + "a" + "]" + "[A]" == "[a][A]" && "[" + "A" + "]" + "" == "[A]";
    ExpandCons(d, Ref(0, "A"), []);
    ExpandCons(d, Ref(0, "a"), [Ref(0, "A")]);
  }
}
