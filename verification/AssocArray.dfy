/**
 The growable associative array of strings: an insertion-ordered finite map kept in an
 array that doubles when it is full.
 */
module AssocArray {
  import opened Options
  import opened SeqTools

  const MIN_SIZE: nat := 4

  datatype Pair = Pair(name: string, value: string)

  // ---------- the ordered map ----------

  predicate HasName(p: Pair, name: string) {
    p.name == name
  }

  function IndexOf(s: seq<Pair>, name: string): (i: nat)
    ensures i <= |s|
  {
    First(s, p => HasName(p, name))
  }

  predicate Has(s: seq<Pair>, name: string) {
    IndexOf(s, name) < |s|
  }

  function Lookup(s: seq<Pair>, name: string): Option<string> {
    if Has(s, name) then Some(s[IndexOf(s, name)].value) else None
  }

  ghost predicate WellFormed(s: seq<Pair>) {
    && (forall i | 0 <= i < |s| :: s[i].name != "")
    && (forall i, j | 0 <= i < j < |s| :: s[i].name != s[j].name)
  }

  /** Inserting never replaces: an existing or empty name leaves the list alone. */
  function Put(s: seq<Pair>, p: Pair): seq<Pair> {
    if p.name == "" || Has(s, p.name) then s else s + [p]
  }

  function PutAll(s: seq<Pair>, t: seq<Pair>): seq<Pair>
    decreases |t|
  {
    if t == [] then s else Put(PutAll(s, t[..|t| - 1]), t[|t| - 1])
  }

  /** Pairs of `s`, in order, whose names occur in `t`. */
  function Common(s: seq<Pair>, t: seq<Pair>): seq<Pair> {
    if s == [] then []
    else
      var c := Common(s[..|s| - 1], t);
      if Has(t, s[|s| - 1].name) then c + [s[|s| - 1]] else c
  }

  lemma HasIff(s: seq<Pair>, name: string)
    ensures Has(s, name) <==> exists i | 0 <= i < |s| :: s[i].name == name
  {
    if !Has(s, name) {
      assert forall i | 0 <= i < |s| :: !HasName(s[i], name);
    } else {
      assert HasName(s[IndexOf(s, name)], name);
    }
  }

  lemma IndexOfIs(s: seq<Pair>, name: string, i: nat)
    requires WellFormed(s) && i < |s| && s[i].name == name
    ensures IndexOf(s, name) == i
  {
    assert forall j | 0 <= j < i :: !HasName(s[j], name);
    FirstIs(s, p => HasName(p, name), i);
  }

  lemma PutWellFormed(s: seq<Pair>, p: Pair)
    requires WellFormed(s)
    ensures WellFormed(Put(s, p))
  {
    HasIff(s, p.name);
  }

  /** A put adds the binding exactly when the name is new, and changes no other lookup. */
  lemma PutLookup(s: seq<Pair>, p: Pair, name: string)
    requires WellFormed(s)
    ensures Lookup(Put(s, p), name)
            == if name == p.name && name != "" && Lookup(s, name) == None then Some(p.value) else Lookup(s, name)
  {
    PutWellFormed(s, p);
    HasIff(s, p.name);
    var t := Put(s, p);
    if Has(s, name) {
      var i := IndexOf(s, name);
      assert HasName(s[i], name);
      IndexOfIs(t, name, i);
    } else {
      HasIff(s, name);
      HasIff(t, name);
      if t != s && name == p.name {
        IndexOfIs(t, name, |s|);
      }
    }
  }

  lemma PutAllStep(s: seq<Pair>, t: seq<Pair>, i: nat)
    requires i < |t|
    ensures PutAll(s, t[..i + 1]) == Put(PutAll(s, t[..i]), Pair(t[i].name, t[i].value))
  {
    assert t[..i + 1][..i] == t[..i];
  }

  lemma {:induction false} PutAllWellFormed(s: seq<Pair>, t: seq<Pair>)
    requires WellFormed(s)
    ensures WellFormed(PutAll(s, t)) && s <= PutAll(s, t)
    ensures |PutAll(s, t)| <= |s| + |t|
  {
    if t != [] {
      PutAllWellFormed(s, t[..|t| - 1]);
      PutWellFormed(PutAll(s, t[..|t| - 1]), t[|t| - 1]);
    }
  }

  /** Adding a whole list: old bindings win, new names are bound as in the added list. */
  lemma {:induction false} PutAllLookup(s: seq<Pair>, t: seq<Pair>, name: string)
    requires WellFormed(s) && WellFormed(t)
    ensures Lookup(PutAll(s, t), name) == if Lookup(s, name).Some? then Lookup(s, name) else Lookup(t, name)
  {
    if t == [] {
      HasIff(t, name);
    } else {
      var u := t[..|t| - 1];
      var p := t[|t| - 1];
      PutAllLookup(s, u, name);
      PutAllWellFormed(s, u);
      PutLookup(PutAll(s, u), p, name);
      HasIff(u, p.name);
      assert t == Put(u, p);
      PutLookup(u, p, name);
    }
  }

  lemma PutNew(u: seq<Pair>, p: Pair)
    requires p.name != "" && forall i | 0 <= i < |u| :: u[i].name != p.name
    ensures Put(u, p) == u + [p]
  {
    HasIff(u, p.name);
  }

  /** Copying into an empty array reproduces the list, order included. */
  lemma {:induction false} PutAllToEmpty(t: seq<Pair>)
    requires WellFormed(t)
    ensures PutAll([], t) == t
  {
    if t != [] {
      var u, p := t[..|t| - 1], t[|t| - 1];
      PutAllToEmpty(u);
      PutNew(u, p);
      assert t == u + [p];
    }
  }

  /** Adding names that are all present changes nothing. */
  lemma {:induction false} PutAllPresent(s: seq<Pair>, t: seq<Pair>)
    requires forall i | 0 <= i < |t| :: Has(s, t[i].name)
    ensures PutAll(s, t) == s
  {
    if t != [] {
      PutAllPresent(s, t[..|t| - 1]);
    }
  }

  lemma {:induction false} CommonIs(s: seq<Pair>, t: seq<Pair>)
    requires WellFormed(s)
    ensures WellFormed(Common(s, t))
    ensures forall p :: p in Common(s, t) <==> p in s && Has(t, p.name)
  {
    if s != [] {
      var u := s[..|s| - 1];
      CommonIs(u, t);
      assert s == u + [s[|s| - 1]];
      var c := Common(u, t);
      forall i | 0 <= i < |c| ensures c[i].name != s[|s| - 1].name {
        assert c[i] in c && c[i] in u;
      }
    }
  }

  // ---------- the array ----------

  class Assoc {
    var a: array<Pair>
    var num: nat

    ghost predicate Valid()
      reads this, a
    {
      MIN_SIZE <= a.Length && num <= a.Length && WellFormed(a[..num])
    }

    ghost function Contents(): seq<Pair>
      reads this, a
      requires num <= a.Length
    {
      a[..num]
    }

    /** A new array of an accepted size. */
    constructor (size: nat)
      requires MIN_SIZE <= size
      ensures Valid() && fresh(a) && a.Length == size && Contents() == []
    {
      a := new Pair[size](_ => Pair("", ""));
      num := 0;
    }

    /** The scan shared by get, update and delete. */
    method Find(name: string) returns (i: nat)
      requires Valid()
      ensures i == IndexOf(Contents(), name)
    {
      ghost var s := Contents();
      i := 0;
      while i < num && a[i].name != name
        invariant i <= num
        invariant forall j | 0 <= j < i :: !HasName(s[j], name)
      {
        assert s[i] == a[i];
        i := i + 1;
      }
      assert i < num ==> s[i] == a[i];
      FirstIs(s, p => HasName(p, name), i);
    }

    /** assoc_get */
    method Get(name: string) returns (v: Option<string>)
      requires Valid()
      ensures v == Lookup(Contents(), name)
    {
      if name == "" || num == 0 {
        HasIff(Contents(), name);
        return None;
      }
      var i := Find(name);
      v := if i < num then Some(a[i].value) else None;
    }

    /** assoc_clear */
    method Clear()
      requires Valid()
      modifies this`num
      ensures Valid() && Contents() == []
    {
      num := 0;
    }

    /**
     assoc_put.  A full array is replaced by one of twice the size, filled by copying; the
     nested puts of that copy go to an array with room and so never grow again.
     */
    method PutPair(name: string, value: string) returns (rc: int)
      requires Valid()
      modifies this, a
      ensures Valid() && (a == old(a) || fresh(a))
      ensures Contents() == Put(old(Contents()), Pair(name, value))
      ensures rc == if name == "" then -1 else if Has(old(Contents()), name) then -2 else 0
      ensures a.Length == if rc == 0 && old(num) == old(a.Length) then 2 * old(a.Length) else old(a.Length)
      ensures old(num) < old(a.Length) || rc != 0 ==> a == old(a)
      decreases if num >= a.Length then 3 else 0
    {
      ghost var s := Contents();
      PutWellFormed(s, Pair(name, value));
      if name == "" {
        return -1;
      }
      var v := Get(name);
      if v.Some? {
        return -2;
      }
      if num >= a.Length {
        Grow();
      }
      a[num] := Pair(name, value);
      num := num + 1;
      assert Contents() == s + [Pair(name, value)];
      rc := 0;
    }

    /** Takes over the pairs of a copy of twice the size. */
    method Grow()
      requires Valid() && num == a.Length
      modifies this`a
      ensures Valid() && fresh(a) && a.Length == 2 * old(a.Length) && Contents() == old(Contents())
      decreases 3, 0
    {
      var bigger := new Assoc(2 * a.Length);
      var _ := bigger.CopyFrom(this);
      PutAllToEmpty(Contents());
      a := bigger.a;
    }

    /** assoc_copy */
    method CopyFrom(src: Assoc) returns (rc: int)
      requires Valid() && src.Valid() && (src != this ==> src.a != a)
      modifies this, a
      ensures Valid() && (a == old(a) || fresh(a)) && rc == 0
      ensures Contents() == if src == this then [] else PutAll([], old(src.Contents()))
      ensures old(src.num) <= old(a.Length) ==> a == old(a)
      decreases if src.num > a.Length then 5 else 2
    {
      Clear();
      rc := AddFrom(src);
    }

    /** assoc_add */
    method AddFrom(src: Assoc) returns (rc: int)
      requires Valid() && src.Valid() && (src != this ==> src.a != a)
      modifies this, a
      ensures Valid() && (a == old(a) || fresh(a)) && rc == 0
      ensures Contents() == PutAll(old(Contents()), old(src.Contents()))
      ensures old(num) + old(src.num) <= old(a.Length) ==> a == old(a)
      decreases if num + src.num > a.Length then 4 else 1, 2
    {
      if src == this {
        rc := AddSelf();
      } else {
        rc := AddOther(src);
      }
    }

    method AddOther(src: Assoc) returns (rc: int)
      requires Valid() && src.Valid() && src != this && src.a != a
      modifies this, a
      ensures Valid() && (a == old(a) || fresh(a)) && rc == 0
      ensures Contents() == PutAll(old(Contents()), old(src.Contents()))
      ensures old(num) + old(src.num) <= old(a.Length) ==> a == old(a)
      decreases if num + src.num > a.Length then 4 else 1, 1
    {
      ghost var s, t := Contents(), src.Contents();
      ghost var room := num + src.num <= a.Length;
      var i := 0;
      while i < src.num
        invariant i <= src.num && Valid()
        invariant a == old(a) || fresh(a)
        invariant src.Valid() && src.Contents() == t && src.a != a
        invariant Contents() == PutAll(s, t[..i])
        invariant room ==> a == old(a) && num <= old(num) + i
      {
        PutAllStep(s, t, i);
        rc := PutFrom(src, i);
        if rc == -1 {
          assert false;
          return -1;
        }
        i := i + 1;
      }
      assert t[..i] == t;
      rc := 0;
    }

    /** Puts the pair at position `i` of another array. */
    method PutFrom(src: Assoc, i: nat) returns (rc: int)
      requires Valid() && src.Valid() && src != this && src.a != a && i < src.num
      modifies this, a
      ensures Valid() && (a == old(a) || fresh(a)) && rc != -1
      ensures Contents() == Put(old(Contents()), Pair(old(src.Contents())[i].name, old(src.Contents())[i].value))
      ensures num <= old(num) + 1 && (old(num) < old(a.Length) ==> a == old(a))
      decreases if num + 1 > a.Length then 4 else 1, 0
    {
      assert src.Contents()[i] == src.a[i];
      rc := PutPair(src.a[i].name, src.a[i].value);
    }

    /** The same loop when an array is added to itself: every name is already there. */
    method AddSelf() returns (rc: int)
      requires Valid()
      modifies this, a
      ensures Valid() && a == old(a) && rc == 0
      ensures Contents() == PutAll(old(Contents()), old(Contents()))
      decreases if num + num > a.Length then 4 else 1, 0
    {
      ghost var s := Contents();
      SelfAdd(s);
      var i := 0;
      while i < num
        invariant i <= num && Valid() && a == old(a) && Contents() == s
      {
        HasIff(s, s[i].name);
        rc := PutPair(a[i].name, a[i].value);
        if rc == -1 {
          return -1;
        }
        i := i + 1;
      }
      rc := 0;
    }

    /** assoc_update */
    method Update(name: string, value: string) returns (rc: int)
      requires Valid()
      modifies a
      ensures Valid()
      ensures var i := IndexOf(old(Contents()), name);
              if i < num then rc == 0 && Contents() == old(Contents())[i := Pair(name, value)]
              else rc == -1 && Contents() == old(Contents())
    {
      ghost var s := Contents();
      var i := Find(name);
      if i >= num {
        return -1;
      }
      assert HasName(s[i], name);
      a[i] := Pair(a[i].name, value);
      assert Contents() == s[i := Pair(name, value)];
      rc := 0;
    }

    /** assoc_del: the pairs behind the deleted one move down by one. */
    method Delete(name: string) returns (rc: int)
      requires Valid()
      modifies this`num, a
      ensures Valid()
      ensures var s := old(Contents()); var i := IndexOf(s, name);
              if i < |s| && name != "" then rc == 0 && Contents() == s[..i] + s[i + 1..]
              else Contents() == s && rc == if name == "" then -1 else -2
    {
      ghost var s := Contents();
      if name == "" {
        return -1;
      }
      var i := Find(name);
      if i >= num {
        return -2;
      }
      MoveDown(i);
      num := num - 1;
      Without(s, i, s[..i] + s[i + 1..]);
      assert Contents() == s[..i] + s[i + 1..];
      rc := 0;
    }

    /** The pairs behind position `i` move down by one. */
    method MoveDown(i: nat)
      requires i < num <= a.Length
      modifies a
      ensures forall k | 0 <= k < i :: a[k] == old(a[k])
      ensures forall k | i <= k < num - 1 :: a[k] == old(a[k + 1])
    {
      var j := i;
      while j < num - 1
        invariant i <= j <= num - 1
        invariant forall k | 0 <= k < i :: a[k] == old(a[k])
        invariant forall k | i <= k < j :: a[k] == old(a[k + 1])
        invariant forall k | j < k < num :: a[k] == old(a[k])
      {
        a[j] := a[j + 1];
        j := j + 1;
      }
    }

    /** assoc_intersection, with this array as destination; clearing it first empties an aliased operand. */
    method Intersect(a1: Assoc, a2: Assoc) returns (rc: int)
      requires Valid() && a1.Valid() && a2.Valid()
      requires (a1 != this ==> a1.a != a) && (a2 != this ==> a2.a != a)
      modifies this, a
      ensures Valid() && (a == old(a) || fresh(a)) && rc == 0
      ensures var s1, s2 := old(a1.Contents()), old(a2.Contents());
              Contents() == if a1 == this || a2 == this then []
                            else if |s1| < |s2| then Common(s1, s2) else Common(s2, s1)
    {
      Clear();
      var shorter := if a1.num < a2.num then a1 else a2;
      var longer := if a1.num < a2.num then a2 else a1;
      rc := 0;
      if shorter.num > 0 {
        rc := AddCommon(shorter, longer);
      }
    }

    /**
     One step of the intersection: the pair is put if the other array has its name.  A put can
     fail only for an empty name, and the pairs of an array have none.
     */
    method AddIfIn(shorter: Assoc, i: nat, longer: Assoc)
      requires Valid() && shorter.Valid() && longer.Valid() && i < shorter.num
      requires shorter != this && longer != this && shorter.a != a && longer.a != a
      modifies this, a
      ensures Valid() && (a == old(a) || fresh(a))
      ensures shorter.a != a && longer.a != a
      ensures var p := old(shorter.Contents())[i];
              Contents() == if Has(old(longer.Contents()), p.name) then Put(old(Contents()), p) else old(Contents())
    {
      var p := shorter.a[i];
      assert p == shorter.Contents()[i] == Pair(p.name, p.value);
      var v := longer.Get(p.name);
      if v.Some? {
        var rc := PutPair(p.name, p.value);
        assert rc != -1;
      }
    }

    /** The loop of the intersection. */
    method AddCommon(shorter: Assoc, longer: Assoc) returns (rc: int)
      requires Valid() && shorter.Valid() && longer.Valid() && num == 0
      requires shorter != this && longer != this && shorter.a != a && longer.a != a
      modifies this, a
      ensures Valid() && (a == old(a) || fresh(a)) && rc == 0
      ensures Contents() == Common(old(shorter.Contents()), old(longer.Contents()))
    {
      ghost var s, t := shorter.Contents(), longer.Contents();
      var i := 0;
      while i < shorter.num
        invariant i <= shorter.num && Valid() && (a == old(a) || fresh(a))
        invariant shorter.Valid() && shorter.Contents() == s && shorter.a != a
        invariant longer.Valid() && longer.Contents() == t && longer.a != a
        invariant Contents() == Common(s[..i], t)
      {
        CommonStep(s, i, t);
        AddIfIn(shorter, i, longer);
        i := i + 1;
      }
      assert s[..i] == s;
      rc := 0;
    }
  }

  /** assoc_new: sizes below four are refused. */
  method NewArray(size: nat) returns (r: Assoc?)
    ensures r == null <==> size < 4
    ensures r != null ==> fresh(r) && fresh(r.a) && r.Valid() && r.a.Length == size && r.Contents() == []
  {
    if size < MIN_SIZE {
      return null;
    }
    r := new Assoc(size);
  }

  lemma CommonStep(s: seq<Pair>, i: nat, t: seq<Pair>)
    requires WellFormed(s) && i < |s|
    ensures Common(s[..i + 1], t)
            == if Has(t, s[i].name) then Put(Common(s[..i], t), s[i]) else Common(s[..i], t)
  {
    assert s[..i + 1][..i] == s[..i];
    var c := Common(s[..i], t);
    CommonIs(s[..i], t);
    forall j | 0 <= j < |c| ensures c[j].name != s[i].name {
      assert c[j] in c && c[j] in s[..i];
    }
    HasIff(c, s[i].name);
  }

  lemma SelfAdd(s: seq<Pair>)
    requires WellFormed(s)
    ensures PutAll(s, s) == s
  {
    forall j | 0 <= j < |s| ensures Has(s, s[j].name) {
      HasIff(s, s[j].name);
    }
    PutAllPresent(s, s);
  }

  lemma Without(s: seq<Pair>, i: nat, t: seq<Pair>)
    requires WellFormed(s) && i < |s| && t == s[..i] + s[i + 1..]
    ensures WellFormed(t) && forall k | 0 <= k < |t| :: t[k].name != s[i].name
  {
  }

  /** Deleting unbinds the name and leaves every other lookup as it was. */
  lemma DeleteLookup(s: seq<Pair>, i: nat, name: string)
    requires WellFormed(s) && i < |s|
    ensures WellFormed(s[..i] + s[i + 1..])
    ensures Lookup(s[..i] + s[i + 1..], name) == if name == s[i].name then None else Lookup(s, name)
  {
    var t := s[..i] + s[i + 1..];
    Without(s, i, t);
    HasIff(t, name);
    HasIff(s, name);
    if name != s[i].name && Has(s, name) {
      var k := IndexOf(s, name);
      assert HasName(s[k], name);
      IndexOfIs(t, name, if k < i then k else k - 1);
    }
  }
}
