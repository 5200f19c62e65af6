/**
 A growing dictionary of keywords and the replacement of `[KEY]` by its value in a template.
 */
module TemplateDict {
  import opened Options
  import opened CText
  import opened SeqTools

  const MAX_VALUE: nat := 1024
  const MAX_NAME: nat := 255
  const INITIAL_SIZE: nat := 100
  const MAX_BUFFER: nat := 1024 * 1024

  datatype Tuple = Tuple(key: string, val: string)

  const NO_TUPLE: Tuple := Tuple("", "")

  function Lower(c: char): char {
    if 'A' <= c <= 'Z' then c - 'A' + 'a' else c
  }

  /** Equality without regard to case. */
  predicate SameKey(a: string, b: string) {
    |a| == |b| && forall i | 0 <= i < |a| :: Lower(a[i]) == Lower(b[i])
  }

  /** The first tuple whose key is the name without regard to case. */
  function FirstKey(d: seq<Tuple>, name: string): (i: nat)
    ensures i <= |d|
    ensures i < |d| ==> SameKey(name, d[i].key)
    ensures forall j | 0 <= j < i :: !SameKey(name, d[j].key)
  {
    First(d, (t: Tuple) => SameKey(name, t.key))
  }

  lemma FirstKeyIs(d: seq<Tuple>, name: string, i: nat)
    requires i <= |d| && (i < |d| ==> SameKey(name, d[i].key))
    requires forall j | 0 <= j < i :: !SameKey(name, d[j].key)
    ensures FirstKey(d, name) == i
  {
    var k := FirstKey(d, name);
    assert !(k < i) && !(i < k);
  }

  // ---------- the dictionary ----------

  ghost predicate DistinctKeys(d: seq<Tuple>) {
    forall i, j | 0 <= i < j < |d| :: d[i].key != d[j].key
  }

  class Dict {
    var tuple: array<Tuple>
    var idx: nat

    ghost predicate Valid()
      reads this, tuple
    {
      idx <= tuple.Length && tuple.Length > 0 && DistinctKeys(tuple[..idx])
    }

    ghost function Contents(): seq<Tuple>
      reads this, tuple
      requires Valid()
    {
      tuple[..idx]
    }

    constructor ()
      ensures Valid() && fresh(tuple) && Contents() == [] && tuple.Length == 100
    {
      tuple := new Tuple[INITIAL_SIZE](_ => NO_TUPLE);
      idx := 0;
    }

    /** The value of a key, compared with case. */
    method GetVal(key: string) returns (val: Option<string>)
      requires Valid()
      ensures val.None? <==> forall t | t in Contents() :: t.key != key
      ensures val.Some? ==> Tuple(key, val.value) in Contents()
    {
      for i := 0 to idx
        invariant forall j | 0 <= j < i :: tuple[j].key != key
      {
        if tuple[i].key == key {
          assert Contents()[i] == Tuple(key, tuple[i].val);
          return Some(tuple[i].val);
        }
      }
      val := None;
    }

    /** Adds a pair unless the key is there; a full dictionary first doubles. */
    method Add(key: string, val: string) returns (rc: int)
      requires Valid()
      modifies this, tuple
      ensures Valid() && (tuple == old(tuple) || fresh(tuple))
      ensures rc == 0 || rc == -1
      ensures rc == -1 <==> exists t | t in old(Contents()) :: t.key == key
      ensures Contents() == if rc == 0 then old(Contents()) + [Tuple(key, val)] else old(Contents())
      ensures tuple.Length == if rc == 0 && old(idx) == old(tuple.Length) then 2 * old(tuple.Length) else old(tuple.Length)
    {
      var present := GetVal(key);
      if present.Some? {
        return -1;
      }
      ghost var before := Contents();
      assert forall j | 0 <= j < |before| :: before[j] in before;
      if idx >= tuple.Length {
        Grow();
      }
      tuple[idx] := Tuple(key, val);
      idx := idx + 1;
      assert Contents() == before + [Tuple(key, val)];
      rc := 0;
    }

    method Grow()
      requires Valid()
      modifies this
      ensures Valid() && fresh(tuple) && tuple.Length == 2 * old(tuple.Length)
      ensures idx == old(idx) && Contents() == old(Contents())
    {
      var bigger := new Tuple[2 * tuple.Length](_ => NO_TUPLE);
      for i := 0 to tuple.Length
        invariant bigger.Length == 2 * tuple.Length && fresh(bigger)
        invariant tuple == old(tuple) && idx == old(idx) && tuple[..] == old(tuple[..])
        invariant forall j | 0 <= j < i :: bigger[j] == tuple[j]
      {
        bigger[i] := tuple[i];
      }
      assert bigger[..idx] == tuple[..idx];
      tuple := bigger;
    }

    /**
     replace_dict_in_buf: replaces the text in the buffer if the result fits and nothing is
     too long; otherwise the buffer is as before.  The model stops where the program would
     write or read outside its work buffer.
     */
    method ReplaceInBuf(buffer: array<char>, maxlen: nat) returns (r: Outcome)
      requires Valid() && 0 < maxlen <= buffer.Length
      requires |CStr(buffer[..])| < buffer.Length || buffer.Length >= MAX_BUFFER
      modifies buffer
      ensures var text := old(CStr(buffer[..]));
              var out, size := Replaced(Contents(), text), WorkSize(Contents(), text);
              && (r == Overrun <==> size < 0x10_0000 && |out| >= size)
              && (r == Returned(0) <==> size < 0x10_0000 && |out| < size && |out| < maxlen)
              && (r == Overrun || r == Returned(0) || r == Returned(-1))
              && (r == Returned(0) ==> NulAfter(buffer[..], out))
              && (r != Returned(0) ==> buffer[..] == old(buffer[..]))
    {
      var text := CStr(buffer[..]);
      var n := |text| + MAX_VALUE * idx;
      if MAX_BUFFER <= n {
        return Returned(-1);
      }
      CStrIs(buffer[..]);
      var work := Substitute(tuple[..idx], text, n);
      if |work| >= n {
        return Overrun;
      }
      if maxlen > |work| {
        CopyText(buffer, work);
        r := Returned(0);
      } else {
        r := Returned(-1);
      }
    }
  }

  /** The memory holds the text and a NUL behind it. */
  predicate NulAfter(mem: string, text: string) {
    |text| < |mem| && mem[..|text|] == text && mem[|text|] == '\0'
  }

  method CopyText(buffer: array<char>, text: string)
    requires |text| < buffer.Length
    modifies buffer
    ensures NulAfter(buffer[..], text)
  {
    for i := 0 to |text|
      invariant buffer[..i] == text[..i]
    {
      buffer[i] := text[i];
    }
    buffer[|text|] := '\0';
    assert buffer[..|text|] == text;
  }

  // ---------- what a template says ----------

  /** A template is copied characters and references to tuples, by the name as written. */
  datatype Piece = Copy(c: char) | Ref(i: nat, name: string)

  function CloseAt(s: string): (k: nat)
    ensures k <= |s| && Free(s[..k], ']') && (k < |s| ==> s[k] == ']')
  {
    if s == "" || s[0] == ']' then 0 else 1 + CloseAt(s[1..])
  }

  lemma CloseAtIs(s: string, k: nat)
    requires k <= |s| && Free(s[..k], ']') && (k < |s| ==> s[k] == ']')
    ensures CloseAt(s) == k
  {
    var j := CloseAt(s);
    assert forall i | 0 <= i < k :: s[..k][i] == s[i];
    assert forall i | 0 <= i < j :: s[..j][i] == s[i];
    assert !(j < k) && !(k < j);
  }

  /** The text behind an opening bracket starts with a known name and a closing bracket. */
  predicate Names(d: seq<Tuple>, s: string) {
    var k := CloseAt(s);
    k < |s| && k <= MAX_NAME && FirstKey(d, s[..k]) < |d|
  }

  predicate IsRef(d: seq<Tuple>, s: string) {
    s != "" && s[0] == '[' && Names(d, s[1..])
  }

  /** How long the reference at the start of the text is, and what name it has. */
  function RefLength(s: string): (n: nat)
    requires s != ""
    ensures n >= 2
  {
    CloseAt(s[1..]) + 2
  }

  function RefName(s: string): string
    requires s != ""
  {
    s[1..][..CloseAt(s[1..])]
  }

  function Pieces(d: seq<Tuple>, s: string): seq<Piece> {
    if s == "" then []
    else if IsRef(d, s) then [Ref(FirstKey(d, RefName(s)), RefName(s))] + Pieces(d, s[RefLength(s)..])
    else [Copy(s[0])] + Pieces(d, s[1..])
  }

  /** The template the pieces were read from. */
  function Spell(ps: seq<Piece>): string {
    if ps == [] then "" else SpellOne(ps[0]) + Spell(ps[1..])
  }

  function SpellOne(p: Piece): (s: string)
    ensures s != ""
  {
    match p case Copy(c) => [c] case Ref(_, name) => "[" + name + "]"
  }

  /** The text with the values in place of the references. */
  function Expand(d: seq<Tuple>, ps: seq<Piece>): string {
    if ps == [] then "" else ExpandOne(d, ps[0]) + Expand(d, ps[1..])
  }

  function ExpandOne(d: seq<Tuple>, p: Piece): string {
    match p
    case Copy(c) => [c]
    case Ref(i, _) => if i < |d| then Clip(d[i].val, MAX_VALUE) else ""
  }

  function Replaced(d: seq<Tuple>, s: string): string {
    Expand(d, Pieces(d, s))
  }

  /** The size of the work buffer. */
  function WorkSize(d: seq<Tuple>, s: string): nat {
    |s| + 1024 * |d|
  }

  /** The replacement loop with its count of copied characters against `limit`. */
  method Substitute(d: seq<Tuple>, s: string, limit: nat) returns (work: string)
    requires NulFree(s) && |s| <= limit
    ensures work == Replaced(d, s)
  {
    work := "";
    var p, n := 0, 0;
    SoFarStart(d, s);
    while n < limit && At(s, p) != '\0'
      invariant n <= p <= |s|
      invariant SoFar(d, s, p, work)
      decreases |s| - p
    {
      if s[p] == '[' {
        var hit;
        hit, work, p := Bracket(d, s, p, work);
        n := if hit then n else n + 1;
      } else {
        CopyStep(d, s, p, work);
        work := work + [s[p]];
        p := p + 1;
        n := n + 1;
      }
    }
    SoFarEnd(d, s, p, work);
  }

  /** An opening bracket: the value of a known reference, or the bracket itself. */
  method Bracket(d: seq<Tuple>, s: string, p: nat, work: string) returns (hit: bool, work': string, p': nat)
    requires NulFree(s) && p < |s| && s[p] == '[' && SoFar(d, s, p, work)
    ensures SoFar(d, s, p', work') && p' > p
  {
    var i, next;
    hit, i, next := MatchName(d, s, p);
    if hit {
      RefStep(d, s, p, work);
      var val := CopyValue(d[i].val);
      work', p' := work + val, next;
    } else {
      CopyStep(d, s, p, work);
      work', p' := work + [s[p]], p + 1;
    }
  }

  /** The text written and what the rest of the template expands to make up the result. */
  ghost predicate SoFar(d: seq<Tuple>, s: string, p: nat, work: string) {
    p <= |s| && work + Replaced(d, s[p..]) == Replaced(d, s)
  }

  lemma SoFarStart(d: seq<Tuple>, s: string)
    ensures SoFar(d, s, 0, "")
  {
    assert s[0..] == s && "" + Replaced(d, s) == Replaced(d, s);
  }

  lemma SoFarEnd(d: seq<Tuple>, s: string, p: nat, work: string)
    requires SoFar(d, s, p, work) && p == |s|
    ensures work == Replaced(d, s)
  {
    assert s[p..] == "" && work + "" == work;
  }

  /** From the bracket at `p`: is it a known reference, to which tuple, and where does it end? */
  method MatchName(d: seq<Tuple>, s: string, p: nat) returns (hit: bool, i: nat, next: nat)
    requires NulFree(s) && p < |s| && s[p] == '['
    ensures hit <==> IsRef(d, s[p..])
    ensures hit ==> i < |d| && i == FirstKey(d, RefName(s[p..])) && next == p + RefLength(s[p..]) <= |s|
  {
    assert s[p..][1..] == s[p + 1..];
    var name := "";
    next := p + 1;
    while |name| < MAX_NAME && At(s, next) != '\0' && At(s, next) != ']'
      invariant next == p + 1 + |name| <= |s| && |name| <= MAX_NAME
      invariant name == s[p + 1..][..|name|] && Free(name, ']')
      decreases |s| - next
    {
      name := name + [s[next]];
      next := next + 1;
    }
    i := 0;
    hit := false;
    CloseBeyond(s[p + 1..], |name|);
    if At(s, next) == ']' {
      CloseAtIs(s[p + 1..], |name|);
      while i < |d| && !SameKey(name, d[i].key)
        invariant 0 <= i <= |d| && forall j | 0 <= j < i :: !SameKey(name, d[j].key)
      {
        i := i + 1;
      }
      FirstKeyIs(d, name, i);
      hit := i < |d|;
      next := next + 1;
    }
  }

  lemma CloseBeyond(s: string, n: nat)
    requires n <= |s| && Free(s[..n], ']')
    ensures n <= CloseAt(s)
    ensures n < |s| && s[n] != ']' ==> n < CloseAt(s)
  {
    assert forall i | 0 <= i < n :: s[..n][i] == s[i];
  }

  method CopyValue(val: string) returns (copy: string)
    ensures copy == Clip(val, MAX_VALUE)
  {
    var nn := if MAX_VALUE < |val| then MAX_VALUE else |val|;
    ghost var total := nn;
    copy := "";
    var j := 0;
    while nn > 0
      invariant 0 <= nn && 0 <= j && nn + j == total && copy == val[..j]
    {
      copy := copy + [val[j]];
      j := j + 1;
      nn := nn - 1;
    }
  }

  lemma CopyStep(d: seq<Tuple>, s: string, p: nat, work: string)
    requires p < |s| && !IsRef(d, s[p..]) && SoFar(d, s, p, work)
    ensures SoFar(d, s, p + 1, work + [s[p]])
  {
    assert s[p..][1..] == s[p + 1..];
    ExpandCons(d, Copy(s[p]), Pieces(d, s[p + 1..]));
    Regroup(work, [s[p]], Replaced(d, s[p + 1..]));
  }

  lemma RefStep(d: seq<Tuple>, s: string, p: nat, work: string)
    requires p < |s| && IsRef(d, s[p..]) && SoFar(d, s, p, work)
    ensures var i := FirstKey(d, RefName(s[p..]));
            i < |d| && SoFar(d, s, p + RefLength(s[p..]), work + Clip(d[i].val, MAX_VALUE))
  {
    var name, k := RefName(s[p..]), RefLength(s[p..]);
    var i := FirstKey(d, name);
    assert s[p..][k..] == s[p + k..];
    ExpandCons(d, Ref(i, name), Pieces(d, s[p + k..]));
    Regroup(work, Clip(d[i].val, MAX_VALUE), Replaced(d, s[p + k..]));
  }

  lemma ExpandCons(d: seq<Tuple>, p: Piece, ps: seq<Piece>)
    ensures Expand(d, [p] + ps) == ExpandOne(d, p) + Expand(d, ps)
  {
    assert ([p] + ps)[1..] == ps;
  }
}
