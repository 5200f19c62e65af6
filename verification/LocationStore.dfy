/**
 Storing batches of location records in the database.  The table is a sequence of keyed
 rows with begin, commit and abandon.
 */
module LocationStore {
  import opened Options
  import opened CText
  import opened Numbers
  import opened SeqTools
  import opened FieldSplitter

  const MAX_COMMAS: nat := 11
  const MIN_RECORD: nat := 50
  const NUM_FIELDS: nat := 11
  const DEVID_LENGTH: nat := 10
  const RECORD_ROOM: nat := 512

  /** What a location row holds; the texts are stored as received. */
  datatype Location = Location(
    timestamp: int, deviceid: int, datetime: int, lon: string, lat: string, addr: string,
    speed: int, heading: int, altitude: int, satellite: int, event: int, voltage: string, detached: int)

  /** The clock at each record and the address found for a position. */
  datatype Env = Env(clock: nat -> int, address: (string, string) -> string)

  datatype Row = Row(key: nat, loc: Location)

  datatype Table = Table(rows: seq<Row>, nextKey: nat)

  // ---------- reading one record ----------

  predicate CrLfAt(s: string, i: nat) {
    At(s, i) == '\r' && At(s, i + 1) == '\n'
  }

  predicate EndAt(s: string, i: nat) {
    i >= |s| || s[i] == ']' || CrLfAt(s, i)
  }

  /** Where the record at the start of the text ends. */
  function RecordEnd(s: string): (k: nat)
    ensures k <= |s| && EndAt(s, k)
    ensures forall i: nat | i < k :: !EndAt(s, i)
  {
    if EndAt(s, 0) then 0
    else
      var k := 1 + RecordEnd(s[1..]);
      assert forall i: nat | 0 < i <= |s| :: EndAt(s, i) == EndAt(s[1..], i - 1);
      k
  }

  lemma RecordEndIs(s: string, k: nat)
    requires k <= |s| && EndAt(s, k) && forall i: nat | i < k :: !EndAt(s, i)
    ensures RecordEnd(s) == k
  {
    var j := RecordEnd(s);
    assert !(j < k) && !(k < j);
  }

  /** Commas at positions 1 to `i`: the copying loop looks at the character after the one it copied. */
  function CommasTo(s: string, i: nat): nat {
    if i == 0 then 0 else CommasTo(s, i - 1) + (if At(s, i) == ',' then 1 else 0)
  }

  /** Where the copying loop stops: at the end of the record or when it has seen too many fields. */
  function CopyEnd(s: string, i: nat): (k: nat)
    requires i <= |s|
    ensures i <= k <= |s|
    decreases |s| - i
  {
    if EndAt(s, i) || CommasTo(s, i) >= MAX_COMMAS then i else CopyEnd(s, i + 1)
  }

  /** The copying loop. */
  method TakeRecord(s: string) returns (rec: string, rest: string, numFields: nat)
    ensures |rec| == CopyEnd(s, 0)
    ensures numFields >= NUM_FIELDS + 1 <==> CommasTo(s, RecordEnd(s)) >= MAX_COMMAS
    ensures numFields < NUM_FIELDS + 1 ==> rec == s[..RecordEnd(s)] && rest == s[RecordEnd(s)..]
  {
    var i := 0;
    numFields := 1;
    while !EndAt(s, i) && numFields < NUM_FIELDS + 1
      invariant i <= |s| && forall j: nat | j < i :: !EndAt(s, j)
      invariant numFields == 1 + CommasTo(s, i)
      invariant i <= RecordEnd(s) && CopyEnd(s, 0) == CopyEnd(s, i)
      invariant numFields <= NUM_FIELDS + 1
      decreases |s| - i
    {
      i := i + 1;
      if At(s, i) == ',' {
        numFields := numFields + 1;
      }
    }
    CommasGrow(s, i, RecordEnd(s));
    if numFields < NUM_FIELDS + 1 {
      RecordEndIs(s, i);
    }
    rec, rest := s[..i], s[i..];
  }

  lemma {:induction false} CommasGrow(s: string, i: nat, j: nat)
    requires i <= j
    ensures CommasTo(s, i) <= CommasTo(s, j)
    decreases j
  {
    if i < j {
      CommasGrow(s, i, j - 1);
    }
  }

  /** The records the program accepts. */
  ghost predicate ValidRecord(r: string) {
    && CommasTo(r, |r|) < MAX_COMMAS && |r| >= MIN_RECORD && Splittable(r, ',')
    && var fs := Split(r, ',');
    |fs| == NUM_FIELDS && |fs[0]| == DEVID_LENGTH && fs[0][0] == '3'
  }

  function DropLast(s: string): string {
    if s == "" then "" else s[..|s| - 1]
  }

  /** The row made from the fields of the `i`-th record of a batch. */
  function LocationOf(env: Env, i: nat, fs: seq<string>): Location
    requires |fs| == NUM_FIELDS
  {
    Location(env.clock(i), Atol(fs[0]), Atol(fs[1]), fs[2], fs[3], env.address(fs[3], fs[2]),
             ToInt32(Atol(fs[4])), ToInt32(Atol(fs[5])), ToInt32(Atol(fs[6])), ToInt32(Atol(fs[7])),
             ToInt32(Atol(fs[8])), DropLast(fs[9]), ToInt32(Atol(fs[10])))
  }

  /** The row a valid record stands for. */
  ghost function RowOf(env: Env, i: nat, r: string): Location
    requires ValidRecord(r)
  {
    LocationOf(env, i, Split(r, ','))
  }

  function SkipCrLf(s: string): (t: string)
    ensures |t| <= |s|
  {
    if CrLfAt(s, 0) then s[2..] else s
  }

  /** The record at the start of the text, what follows it, and whether it is accepted. */
  function Head(s: string): string {
    s[..RecordEnd(s)]
  }

  function Behind(s: string): (t: string)
    ensures |t| <= |s| - RecordEnd(s)
  {
    SkipCrLf(s[RecordEnd(s)..])
  }

  ghost predicate HeadOk(s: string) {
    CommasTo(s, RecordEnd(s)) < MAX_COMMAS && ValidRecord(Head(s))
  }

  predicate Finished(s: string) {
    s == "" || s[0] == ']'
  }

  /** What a text is read as; a record too long for its buffer stops the model. */
  datatype Batch = Read(rs: seq<string>) | Malformed | TooLong

  /** What the record at the start of the text is read as. */
  ghost function Judge(s: string): Batch {
    if CopyEnd(s, 0) >= RECORD_ROOM then TooLong
    else if HeadOk(s) then Read([Head(s)])
    else Malformed
  }

  ghost function Plus(rs: seq<string>, more: Batch): Batch {
    if more.Read? then Read(rs + more.rs) else more
  }

  /** The records of a text, in order, unless one of them is malformed or too long. */
  ghost function Records(s: string): Batch
    decreases |s|
  {
    if !Judge(s).Read? || Finished(Behind(s)) then Judge(s) else Plus([Head(s)], Records(Behind(s)))
  }

  /** The records after one, when `rest` is the text behind it. */
  ghost function Remaining(rest: string): Batch {
    if Finished(rest) then Read([]) else Records(rest)
  }

  function Unbracketed(text: string): string {
    if text != "" && text[0] == '[' then text[1..] else text
  }

  /** The records received, behind an optional opening bracket. */
  ghost function Received(text: string): (b: Batch)
    ensures b.Read? ==> b.rs != [] && AllValid(b.rs)
  {
    RecordsValid(Unbracketed(text));
    Records(Unbracketed(text))
  }

  lemma {:induction false} RecordsValid(s: string)
    ensures Records(s).Read? ==> Records(s).rs != [] && AllValid(Records(s).rs)
    decreases |s|
  {
    if Judge(s).Read? && !Finished(Behind(s)) {
      RecordsValid(Behind(s));
    }
  }

  ghost predicate AllValid(rs: seq<string>) {
    forall j | 0 <= j < |rs| :: ValidRecord(rs[j])
  }

  /** The rows of the records, in order. */
  ghost function Locations(env: Env, rs: seq<string>): (ls: seq<Location>)
    requires AllValid(rs)
    ensures |ls| == |rs|
  {
    if rs == [] then []
    else
      var front := rs[..|rs| - 1];
      Locations(env, front) + [RowOf(env, |front|, rs[|front|])]
  }

  lemma {:induction false} LocationsAt(env: Env, rs: seq<string>, j: nat)
    requires AllValid(rs) && j < |rs|
    ensures Locations(env, rs)[j] == RowOf(env, j, rs[j])
  {
    if j < |rs| - 1 {
      LocationsAt(env, rs[..|rs| - 1], j);
    }
  }

  /** Each accepted record takes at least fifty characters, which is why reading ends. */
  lemma {:induction false} RecordsConsume(s: string)
    ensures Records(s).Read? ==> 50 * |Records(s).rs| <= |s|
    decreases |s|
  {
    if Judge(s).Read? && !Finished(Behind(s)) {
      RecordsConsume(Behind(s));
    }
  }

  function Append(t: Table, loc: Location): Table {
    Table(t.rows + [Row(t.nextKey, loc)], t.nextKey + 1)
  }

  function AppendAll(t: Table, locs: seq<Location>): Table
    decreases locs
  {
    if locs == [] then t else AppendAll(Append(t, locs[0]), locs[1..])
  }

  class Database {
    var committed: Table

    constructor (t: Table)
      ensures committed == t
    {
      committed := t;
    }

    /**
     db_store_locations.  Rows go to the open transaction; every error return abandons it.
     The model stops where the program would write past its record buffer.
     */
    method StoreLocations(env: Env, text: string) returns (r: Outcome)
      requires NulFree(text)
      modifies this
      ensures Received(text).Malformed? ==> r == Returned(-1) && committed == old(committed)
      ensures Received(text).TooLong? ==> r == Overrun && committed == old(committed)
      ensures Received(text).Read? ==>
                && r == Returned(|Received(text).rs|)
                && committed == AppendAll(old(committed), Locations(env, Received(text).rs))
    {
      var p := Unbracketed(text);
      var open := committed;
      ghost var whole := Received(text);
      ghost var done: seq<string> := [];
      var cnt := 0;
      var more := true;
      Begin(p);
      while more
        invariant committed == old(committed)
        invariant cnt == |done| && AllValid(done)
        invariant open == AppendAll(committed, Locations(env, done))
        invariant OnTrack(whole, done, p, more)
        decreases more, |p|
      {
        var tooLong, fields, rest := ReadRecord(p);
        if tooLong {
          return Overrun;
        }
        if fields == [] {
          return Returned(-1);
        }
        var loc := LocationOf(env, cnt, fields);
        Advance(env, committed, whole, done, p);
        open := Append(open, loc);
        done := done + [Head(p)];
        cnt := cnt + 1;
        more := !Finished(rest);
        p := rest;
      }
      assert done + [] == done;
      committed := open;
      r := Returned(cnt);
    }

    /** One record from the text: its fields, or none if it is malformed, and the text behind it. */
    method ReadRecord(p: string) returns (tooLong: bool, fields: seq<string>, rest: string)
      ensures tooLong <==> Judge(p).TooLong?
      ensures !tooLong ==> (fields != [] <==> Judge(p).Read?)
      ensures Judge(p).Read? ==> HeadOk(p) && fields == Split(Head(p), ',') && rest == Behind(p)
    {
      var rec, numFields;
      rec, rest, numFields := TakeRecord(p);
      tooLong := |rec| >= RECORD_ROOM;
      if tooLong || numFields >= NUM_FIELDS + 1 {
        fields := [];
        return;
      }
      rest := SkipCrLf(rest);
      RecordCommas(p);
      fields := CheckRecord(rec);
    }

    /** The tests on a copied record; no fields if one fails. */
    method CheckRecord(rec: string) returns (fields: seq<string>)
      requires CommasTo(rec, |rec|) < MAX_COMMAS
      ensures ValidRecord(rec) ==> fields == Split(rec, ',')
      ensures !ValidRecord(rec) ==> fields == []
    {
      if |rec| < MIN_RECORD {
        return [];
      }
      var ok, fs := SplitFields(rec, ',');
      if !ok || |fs| != NUM_FIELDS {
        return [];
      }
      if |fs[0]| != DEVID_LENGTH || fs[0][0] != '3' {
        return [];
      }
      fields := fs;
    }
  }

  /** The records done and those still to be read make up the whole batch. */
  ghost predicate OnTrack(whole: Batch, done: seq<string>, p: string, more: bool) {
    whole == Plus(done, if more then Records(p) else Read([]))
  }

  lemma Begin(p: string)
    ensures OnTrack(Records(p), [], p, true)
  {
    var b := Records(p);
    assert b.Read? ==> [] + b.rs == b.rs;
  }

  lemma Advance(env: Env, t: Table, whole: Batch, done: seq<string>, p: string)
    requires OnTrack(whole, done, p, true) && Judge(p).Read? && AllValid(done)
    ensures OnTrack(whole, done + [Head(p)], Behind(p), !Finished(Behind(p)))
    ensures AllValid(done + [Head(p)])
    ensures AppendAll(t, Locations(env, done + [Head(p)]))
            == Append(AppendAll(t, Locations(env, done)), RowOf(env, |done|, Head(p)))
  {
    RecordsUnfold(p);
    PlusPlus(done, Head(p), Remaining(Behind(p)));
    RowsGrow(env, t, done, Head(p));
  }

  lemma RowsGrow(env: Env, t: Table, done: seq<string>, r: string)
    requires AllValid(done) && ValidRecord(r)
    ensures AllValid(done + [r])
    ensures AppendAll(t, Locations(env, done + [r])) == Append(AppendAll(t, Locations(env, done)), RowOf(env, |done|, r))
  {
    LocationsGrow(env, done, r);
    AppendAllOne(t, Locations(env, done), RowOf(env, |done|, r));
  }

  lemma LocationsGrow(env: Env, done: seq<string>, r: string)
    requires AllValid(done) && ValidRecord(r)
    ensures AllValid(done + [r])
    ensures Locations(env, done + [r]) == Locations(env, done) + [RowOf(env, |done|, r)]
  {
    var all := done + [r];
    assert AllValid(all);
    assert all[..|all| - 1] == done && all[|done|] == r;
  }

  lemma PlusPlus(done: seq<string>, r: string, more: Batch)
    ensures Plus(done, Plus([r], more)) == Plus(done + [r], more)
  {
    if more.Read? {
      Regroup(done, [r], more.rs);
    }
  }

  lemma RecordsUnfold(s: string)
    ensures Records(s) == if Judge(s).Read? then Plus([Head(s)], Remaining(Behind(s))) else Judge(s)
  {
    if Judge(s).Read? && Finished(Behind(s)) {
      assert [Head(s)] + [] == [Head(s)];
    }
  }

  /** Counting commas in the record or in the text it was cut from gives the same. */
  lemma RecordCommas(s: string)
    ensures CommasTo(s[..RecordEnd(s)], RecordEnd(s)) == CommasTo(s, RecordEnd(s))
  {
    var k := RecordEnd(s);
    assert EndAt(s, k) && At(s, k) != ',';
    CommasSame(s[..k], s, k);
  }

  lemma {:induction false} CommasSame(r: string, s: string, k: nat)
    requires forall i: nat | 0 < i <= k :: (At(r, i) == ',') == (At(s, i) == ',')
    ensures CommasTo(r, k) == CommasTo(s, k)
  {
    if k > 0 {
      CommasSame(r, s, k - 1);
    }
  }

  lemma {:induction false} AppendAllOne(t: Table, locs: seq<Location>, loc: Location)
    ensures AppendAll(t, locs + [loc]) == Append(AppendAll(t, locs), loc)
    decreases locs
  {
    if locs == [] {
      assert ([] + [loc])[1..] == [];
    } else {
      assert (locs + [loc])[1..] == locs[1..] + [loc];
      AppendAllOne(Append(t, locs[0]), locs[1..], loc);
    }
  }

  // ---------- the four framings ----------

  /** Records separated by CRLF. */
  function Joined(rs: seq<string>): string {
    if rs == [] then "" else if |rs| == 1 then rs[0] else rs[0] + ("\r\n" + Joined(rs[1..]))
  }

  function Frame(rs: seq<string>, bracket: bool, trailing: bool): string {
    (if bracket then "[" else "") + (Joined(rs) + Closing(bracket, trailing))
  }

  function Closing(bracket: bool, trailing: bool): string {
    (if trailing then "\r\n" else "") + (if bracket then "]" else "")
  }

  /** Text that can stand for one record: nothing in it ends a record. */
  ghost predicate RecordText(r: string) {
    && Free(r, ']') && Free(r, '\0') && (r != "" ==> r[0] != '[')
    && forall i | 0 <= i < |r| - 1 :: !(r[i] == '\r' && r[i + 1] == '\n')
  }

  lemma RecordThenEnd(r: string, after: string)
    requires RecordText(r) && EndAt(after, 0)
    ensures RecordEnd(r + after) == |r|
  {
    var s := r + after;
    forall i: nat | i < |r| ensures !EndAt(s, i) {
      assert s[i] == r[i];
      assert i + 1 < |r| ==> At(s, i + 1) == r[i + 1];
      assert i + 1 == |r| ==> At(s, i + 1) == At(after, 0) != '\n';
    }
    assert At(s, |r|) == At(after, 0) && At(s, |r| + 1) == At(after, 1);
    RecordEndIs(s, |r|);
  }

  lemma HeadOfRecord(r: string, after: string)
    requires RecordText(r) && EndAt(after, 0)
    ensures HeadOk(r + after) <==> ValidRecord(r)
    ensures Head(r + after) == r && Behind(r + after) == SkipCrLf(after)
  {
    var s := r + after;
    RecordThenEnd(r, after);
    assert s[..|r|] == r && s[|r|..] == after;
    RecordCommas(s);
  }

  /** The copying loop does the same on a record alone as on one that something follows. */
  lemma {:induction false} CopySame(r: string, after: string, i: nat)
    requires RecordText(r) && EndAt(after, 0) && i <= |r|
    ensures CopyEnd(r + after, i) == CopyEnd(r, i)
    decreases |r| - i
  {
    var s := r + after;
    assert forall j: nat | 0 < j <= i :: (At(r, j) == ',') == (At(s, j) == ',') by {
      assert At(s, |r|) == At(after, 0) != ',';
    }
    CommasSame(r, s, i);
    RecordThenEnd(r, after);
    if i < |r| {
      assert !EndAt(s, i) && !EndAt(r, i);
      CopySame(r, after, i + 1);
    }
  }

  /** A record is judged alike with nothing and with another record or the end of the batch behind it. */
  lemma JudgeOfRecord(r: string, after: string)
    requires RecordText(r) && EndAt(after, 0)
    ensures Judge(r + after) == Judge(r)
    ensures Head(r + after) == r && Behind(r + after) == SkipCrLf(after)
  {
    CopySame(r, after, 0);
    HeadOfRecord(r, after);
    HeadOfRecord(r, "");
    assert r + "" == r;
  }

  /** A list of records is as good as its first bad one. */
  ghost function Judged(rs: seq<string>): Batch
    requires rs != []
  {
    if !Judge(rs[0]).Read? then Judge(rs[0])
    else if |rs| == 1 then Read(rs)
    else Plus([rs[0]], Judged(rs[1..]))
  }

  /** Judged good exactly if each record is valid and fits its buffer; then as the whole list. */
  lemma {:induction false} JudgedIs(rs: seq<string>)
    requires rs != [] && forall j | 0 <= j < |rs| :: RecordText(rs[j])
    ensures Judged(rs).Read? <==> forall j | 0 <= j < |rs| :: ValidRecord(rs[j]) && |rs[j]| < RECORD_ROOM
    ensures Judged(rs).Read? ==> Judged(rs).rs == rs
  {
    JudgeAlone(rs[0]);
    if |rs| > 1 {
      var tail := rs[1..];
      JudgedIs(tail);
      assert rs == [rs[0]] + tail;
      assert forall j | 0 < j < |rs| :: rs[j] == tail[j - 1];
      assert forall j | 0 <= j < |tail| :: tail[j] == rs[j + 1];
    }
  }

  lemma JudgeAlone(r: string)
    requires RecordText(r)
    ensures Judge(r).Read? <==> ValidRecord(r) && |r| < RECORD_ROOM
  {
    HeadOfRecord(r, "");
    RecordThenEnd(r, "");
    assert r + "" == r;
    if ValidRecord(r) {
      CopyWhole(r, 0);
    }
  }

  lemma {:induction false} CopyWhole(r: string, i: nat)
    requires RecordEnd(r) == |r| && CommasTo(r, |r|) < MAX_COMMAS && i <= |r|
    ensures CopyEnd(r, i) == |r|
    decreases |r| - i
  {
    CommasGrow(r, i, |r|);
    if i < |r| {
      CopyWhole(r, i + 1);
    }
  }

  /** What may follow the last record. */
  ghost predicate IsTail(tail: string) {
    EndAt(tail, 0) && Finished(SkipCrLf(tail))
  }

  lemma {:induction false} RecordsOfJoined(rs: seq<string>, tail: string)
    requires rs != [] && rs[|rs| - 1] != "" && forall j | 0 <= j < |rs| :: RecordText(rs[j])
    requires IsTail(tail)
    ensures Records(Joined(rs) + tail) == Judged(rs)
    decreases rs
  {
    if |rs| == 1 {
      LastOfJoined(rs[0], tail);
      assert rs == [rs[0]];
    } else {
      RestStarts(rs[1..], tail);
      RecordsOfJoined(rs[1..], tail);
      RecordsOfFront(rs, tail);
    }
  }

  lemma LastOfJoined(r: string, tail: string)
    requires RecordText(r) && IsTail(tail)
    ensures Records(r + tail) == if Judge(r).Read? then Read([r]) else Judge(r)
  {
    JudgeOfRecord(r, tail);
  }

  lemma RecordsOfFront(rs: seq<string>, tail: string)
    requires |rs| > 1 && RecordText(rs[0])
    requires !Finished(Joined(rs[1..]) + tail)
    ensures Records(Joined(rs) + tail)
            == if Judge(rs[0]).Read? then Plus([rs[0]], Records(Joined(rs[1..]) + tail)) else Judge(rs[0])
  {
    var rest := Joined(rs[1..]) + tail;
    JoinedFront(rs, tail);
    JudgeOfRecord(rs[0], "\r\n" + rest);
    RecordsUnfold(rs[0] + ("\r\n" + rest));
  }

  lemma JoinedFront(rs: seq<string>, tail: string)
    requires |rs| > 1
    ensures Joined(rs) + tail == rs[0] + ("\r\n" + (Joined(rs[1..]) + tail))
    ensures SkipCrLf("\r\n" + (Joined(rs[1..]) + tail)) == Joined(rs[1..]) + tail
  {
    var rest := Joined(rs[1..]);
    Regroup("\r\n", rest, tail);
    Regroup(rs[0], "\r\n" + rest, tail);
    SkipsCrLf(rest + tail);
  }

  lemma SkipsCrLf(s: string)
    ensures SkipCrLf("\r\n" + s) == s
  {
    assert ("\r\n" + s)[2..] == s;
  }

  lemma RestStarts(rs: seq<string>, tail: string)
    requires rs != [] && rs[|rs| - 1] != "" && RecordText(rs[0])
    ensures Joined(rs) != "" && Joined(rs)[0] != '[' && !Finished(Joined(rs) + tail)
  {
    if rs[0] == "" {
      assert Joined(rs)[0] == '\r';
    } else {
      assert Joined(rs)[0] == rs[0][0];
    }
  }

  /**
   All four framings of a list of records are read alike: if every record is valid and fits
   its buffer, as exactly those records in order; otherwise as the first that is not.
   */
  lemma FramingsAgree(rs: seq<string>, bracket: bool, trailing: bool)
    requires rs != [] && rs[|rs| - 1] != "" && forall j | 0 <= j < |rs| :: RecordText(rs[j])
    ensures Received(Frame(rs, bracket, trailing)) == Judged(rs)
    ensures Judged(rs) == Read(rs) <==> forall j | 0 <= j < |rs| :: ValidRecord(rs[j]) && |rs[j]| < 512
    ensures Judged(rs).Read? ==> Judged(rs) == Read(rs)
  {
    JudgedIs(rs);
    var tail := Closing(bracket, trailing);
    RecordsOfJoined(rs, tail);
    RestStarts(rs, tail);
    FrameOpens(Joined(rs), bracket, tail);
  }

  lemma FrameOpens(body: string, bracket: bool, tail: string)
    requires body != "" && body[0] != '['
    ensures Unbracketed((if bracket then "[" else "") + (body + tail)) == body + tail
  {
    var text := (if bracket then "[" else "") + (body + tail);
    if bracket {
      assert text[1..] == body + tail;
    } else {
      assert text == body + tail && text[0] == body[0];
    }
  }
}
