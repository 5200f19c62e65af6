/**
 Splitting a line into delimited fields (xstrsplitfields).
 */
module FieldSplitter {
  import opened CText
  import opened SeqTools

  const MAX_LINE: nat := 1024
  const MAX_FIELD_SIZE: nat := 256
  const MAX_SPLIT_FIELDS: nat := 64

  /** The text between delimiters, in order; the empty text is one empty field. */
  function Split(s: string, d: char): (fs: seq<string>)
    ensures fs != []
  {
    if s == "" then [""]
    else if s[0] == d then [""] + Split(s[1..], d)
    else
      var fs := Split(s[1..], d);
      [[s[0]] + fs[0]] + fs[1..]
  }

  function Join(fs: seq<string>, d: char): string {
    if fs == [] then ""
    else if |fs| == 1 then fs[0]
    else fs[0] + [d] + Join(fs[1..], d)
  }

  /** The lines the C function accepts: it has fixed line, field and field-count limits. */
  ghost predicate Splittable(s: string, d: char) {
    var fs := Split(s, d);
    && 0 < |s| < MAX_LINE
    && (forall i | 0 <= i < |fs| :: |fs[i]| < MAX_FIELD_SIZE)
    && |fs| <= (if s[|s| - 1] == d then MAX_SPLIT_FIELDS else MAX_SPLIT_FIELDS - 1)
  }

  /** Fields are what joining undoes. */
  lemma {:induction false} SplitOfJoin(fs: seq<string>, d: char)
    requires fs != [] && forall i | 0 <= i < |fs| :: Free(fs[i], d)
    ensures Split(Join(fs, d), d) == fs
  {
    if |fs| == 1 {
      SplitDelimFree(fs[0], d);
      assert fs == [fs[0]];
    } else {
      var rest := fs[1..];
      assert forall i | 0 <= i < |rest| :: rest[i] == fs[i + 1];
      SplitOfJoin(rest, d);
      JoinFront(fs, d);
      SplitFirst(fs[0], d, Join(rest, d));
      assert fs == [fs[0]] + rest;
    }
  }

  lemma JoinFront(fs: seq<string>, d: char)
    requires |fs| > 1
    ensures Join(fs, d) == fs[0] + ([d] + Join(fs[1..], d))
  {
    Regroup(fs[0], [d], Join(fs[1..], d));
  }

  /** ... and joining the fields gives the line back, for every line. */
  lemma {:induction false} JoinOfSplit(s: string, d: char)
    ensures Join(Split(s, d), d) == s
    ensures forall i | 0 <= i < |Split(s, d)| :: Free(Split(s, d)[i], d)
  {
    if s != "" {
      JoinOfSplit(s[1..], d);
      var fs := Split(s[1..], d);
      if s[0] == d {
        assert Split(s, d)[1..] == fs;
        assert Join(Split(s, d), d) == "" + [d] + Join(fs, d);
      } else {
        var gs := Split(s, d);
        assert gs[1..] == fs[1..];
        if |fs| > 1 {
          assert Join(gs, d) == [s[0]] + (fs[0] + [d] + Join(fs[1..], d));
        }
      }
    }
  }

  lemma {:induction false} SplitDelimFree(f: string, d: char)
    requires Free(f, d)
    ensures Split(f, d) == [f]
  {
    if f != "" {
      SplitDelimFree(f[1..], d);
      assert [f[0]] + f[1..] == f;
    }
  }

  /** The first field ends at the first delimiter. */
  lemma {:induction false} SplitFirst(f: string, d: char, rest: string)
    requires Free(f, d)
    ensures Split(f + ([d] + rest), d) == [f] + Split(rest, d)
  {
    var s := f + ([d] + rest);
    if f == "" {
      assert s == [d] + rest;
      assert s[1..] == rest;
    } else {
      assert s[1..] == f[1..] + ([d] + rest);
      SplitFirst(f[1..], d, rest);
      assert [s[0]] + f[1..] == f;
    }
  }

  /**
   Copies characters into the current field until a delimiter, the end of the line,
   or a full field buffer.
   */
  method TakeField(s: string, from: nat, d: char) returns (field: string, i: nat)
    requires from < |s|
    ensures from <= i <= |s| && field == s[from..i] && Free(field, d)
    ensures |field| <= MAX_FIELD_SIZE
    ensures |field| == MAX_FIELD_SIZE || i == |s| || s[i] == d
  {
    field, i := "", from;
    while i < |s| && s[i] != d && |field| < MAX_FIELD_SIZE
      invariant from <= i <= |s| && field == s[from..i] && Free(field, d)
      invariant |field| <= MAX_FIELD_SIZE
    {
      SliceGrows(s, from, i);
      field := field + [s[i]];
      i := i + 1;
    }
  }

  lemma SliceGrows(s: string, from: nat, i: nat)
    requires from <= i < |s|
    ensures s[from..i] + [s[i]] == s[from..i + 1]
  {
  }

  lemma {:induction false} FirstFieldLength(s: string, k: nat, d: char)
    requires k <= |s| && forall i | 0 <= i < k :: s[i] != d
    ensures |Split(s, d)[0]| >= k
  {
    if k > 0 {
      FirstFieldLength(s[1..], k - 1, d);
    }
  }

  /** The fields still to come once position `i` has been reached. */
  ghost function Pending(s: string, i: nat, d: char): seq<string>
    requires i <= |s|
  {
    if i < |s| || (i > 0 && s[i - 1] == d) then Split(s[i..], d) else []
  }

  lemma PendingStep(s: string, from: nat, i: nat, d: char)
    requires from <= i <= |s| && from < |s| && Free(s[from..i], d)
    requires i == |s| || s[i] == d
    ensures Pending(s, from, d) == [s[from..i]] + Pending(s, if i < |s| then i + 1 else i, d)
  {
    if i == |s| {
      assert s[from..] == s[from..i];
      SplitDelimFree(s[from..i], d);
      assert s[i - 1] == s[from..i][i - 1 - from];
    } else {
      assert s[from..] == s[from..i] + ([d] + s[i + 1..]);
      SplitFirst(s[from..i], d, s[i + 1..]);
    }
  }

  /** `fields` are the fields before position `i`, none of them too long. */
  ghost predicate SplitSoFar(s: string, d: char, fields: seq<string>, i: nat) {
    && i <= |s| && fields + Pending(s, i, d) == Split(s, d)
    && forall j | 0 <= j < |fields| :: |fields[j]| < MAX_FIELD_SIZE
  }

  lemma NextField(s: string, d: char, fields: seq<string>, from: nat, i: nat)
    requires SplitSoFar(s, d, fields, from) && from < |s| && from <= i <= |s| && Free(s[from..i], d)
    requires (i == |s| || s[i] == d) && i - from < MAX_FIELD_SIZE
    ensures SplitSoFar(s, d, fields + [s[from..i]], if i < |s| then i + 1 else i)
  {
    PendingStep(s, from, i, d);
    Regroup(fields, [s[from..i]], Pending(s, if i < |s| then i + 1 else i, d));
  }

  lemma FieldTooLong(s: string, d: char, fields: seq<string>, from: nat, i: nat)
    requires SplitSoFar(s, d, fields, from) && from <= i <= |s| && from < |s| && Free(s[from..i], d)
    requires i - from == MAX_FIELD_SIZE
    ensures !Splittable(s, d)
  {
    assert forall j | from <= j < i :: s[from..i][j - from] == s[j];
    FirstFieldLength(s[from..], i - from, d);
    assert Split(s, d)[|fields|] == Split(s[from..], d)[0];
  }

  lemma TooManyFields(s: string, d: char, fields: seq<string>, i: nat)
    requires SplitSoFar(s, d, fields, i) && |fields| >= MAX_SPLIT_FIELDS && s != ""
    ensures !Splittable(s, d)
  {
    assert i == |s| && s[i - 1] == d ==> |Pending(s, i, d)| > 0;
  }

  lemma AllFields(s: string, d: char, fields: seq<string>)
    requires SplitSoFar(s, d, fields, |s|) && 0 < |s| < MAX_LINE && |fields| < MAX_SPLIT_FIELDS
    ensures Splittable(s, d)
    ensures Split(s, d) == if s[|s| - 1] == d then fields + [""] else fields
  {
    assert s[|s|..] == "";
    assert fields + [] == fields;
  }

  /** xstrsplitfields: succeeds exactly on splittable lines, with exactly their fields. */
  method SplitFields(s: string, d: char) returns (ok: bool, fields: seq<string>)
    ensures ok <==> Splittable(s, d)
    ensures ok <==> && 0 < |s| < 1024 && (forall i | 0 <= i < |Split(s, d)| :: |Split(s, d)[i]| < 256)
                    && |Split(s, d)| <= (if s[|s| - 1] == d then 64 else 63)
    ensures ok ==> fields == Split(s, d)
  {
    fields := [];
    if |s| >= MAX_LINE || |s| == 0 {
      return false, fields;
    }
    var i := 0;
    assert s[0..] == s && [] + Split(s, d) == Split(s, d);
    while i < |s|
      invariant SplitSoFar(s, d, fields, i) && |fields| < MAX_SPLIT_FIELDS
    {
      var field, next := TakeField(s, i, d);
      if |field| == MAX_FIELD_SIZE {
        FieldTooLong(s, d, fields, i, next);
        return false, fields;
      }
      NextField(s, d, fields, i, next);
      i := if next < |s| then next + 1 else next;
      fields := fields + [field];
      if |fields| >= MAX_SPLIT_FIELDS {
        TooManyFields(s, d, fields, i);
        return false, fields;
      }
    }
    AllFields(s, d, fields);
    if s[|s| - 1] == d {
      fields := fields + [""];
    }
    ok := true;
  }
}
