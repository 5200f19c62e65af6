/**
 The address cache as the program keeps it, in place, and its save file.
 */
module GeoCacheStore {
  import opened Options
  import opened CText
  import opened Numbers
  import opened SeqTools
  import opened FieldSplitter
  import opened GeoCache

  const LINE_ROOM: nat := 254
  const MIN_ADDRESS: nat := 5

  // ---------- the text file ----------

  function SaveLine(e: Entry): string {
    PrintInt(e.ts) + (";" + (e.lat + (";" + (e.lon + (";" + e.addr)))))
  }

  /** Entries from slot `i` on, up to the highest index used or the first empty slot. */
  function SavedFrom(slots: seq<Option<Entry>>, maxIdx: nat, i: nat): seq<Entry>
    requires maxIdx < |slots| && i <= maxIdx + 1
    decreases maxIdx + 1 - i
  {
    if i <= maxIdx && slots[i].Some? then [slots[i].value] + SavedFrom(slots, maxIdx, i + 1) else []
  }

  function Lines(es: seq<Entry>): string {
    if es == [] then "" else SaveLine(es[0]) + ("\n" + Lines(es[1..]))
  }

  lemma SavedFromIs(slots: seq<Option<Entry>>, maxIdx: nat, i: nat)
    requires maxIdx < |slots| && i <= maxIdx + 1
    ensures var es := SavedFrom(slots, maxIdx, i);
            && i + |es| <= maxIdx + 1
            && (forall k | 0 <= k < |es| :: slots[i + k] == Some(es[k]))
            && (i + |es| <= maxIdx ==> slots[i + |es|].None?)
    decreases maxIdx + 1 - i
  {
    if i <= maxIdx && slots[i].Some? {
      SavedFromIs(slots, maxIdx, i + 1);
      var es, fs := SavedFrom(slots, maxIdx, i), SavedFrom(slots, maxIdx, i + 1);
      forall k | 0 <= k < |es| ensures slots[i + k] == Some(es[k]) {
        if k > 0 {
          assert slots[i + 1 + (k - 1)] == Some(fs[k - 1]);
        }
      }
    }
  }

  /** Length of the first chunk fgets returns: through the newline, at most the buffer. */
  function ChunkLength(text: string, room: nat): (k: nat)
    ensures k <= |text| && k <= room
    ensures text != "" && room > 0 ==> k > 0
  {
    if text == "" || room == 0 then 0
    else if text[0] == '\n' then 1
    else 1 + ChunkLength(text[1..], room - 1)
  }

  predicate IsTrailing(c: char) {
    c == ' ' || c == '\n' || c == '\r'
  }

  function TrimEnd(s: string): string {
    if s != "" && IsTrailing(s[|s| - 1]) then TrimEnd(s[..|s| - 1]) else s
  }

  function TrimStart(s: string): string {
    if s != "" && s[0] == ' ' then TrimStart(s[1..]) else s
  }

  /** xstrtrim_crnl */
  function Trim(s: string): string {
    TrimStart(TrimEnd(s))
  }

  datatype LineKind = Good(e: Entry) | Skipped | Bad

  /** What one line of the file is taken for. */
  ghost function ReadLine(env: Env, chunk: string): LineKind {
    var line := Trim(chunk);
    var fs := Split(line, ';');
    if !Splittable(line, ';') || |fs| != 4 then Skipped
    else if InRange(env.atof(fs[1]), env.atof(fs[2])) && |fs[3]| >= MIN_ADDRESS then
      Good(Entry(fs[1], fs[2], fs[3], env.atof(fs[1]), env.atof(fs[2]), Atol(fs[0])))
    else Bad
  }

  /** What a line is taken for, for a given way to read numbers. */
  type Reader = string -> LineKind

  ghost function ReaderOf(env: Env): Reader {
    chunk => ReadLine(env, chunk)
  }

  /**
   Reading the rest of the file into the slots from `idx` on.  A skipped line still uses up
   a slot; a bad line ends the reading with the index reset and the statistics untouched.
   */
  ghost function Loaded(read: Reader, c: Cache, text: string): (int, Cache)
    requires c.idx < |c.slots|
    decreases |text|
  {
    if c.idx >= |c.slots| - 1 || text == "" then (0, c.(maxIdx := c.idx, num := c.idx))
    else
      var k := ChunkLength(text, LINE_ROOM);
      match read(text[..k])
      case Bad => (-1, c.(idx := 0))
      case Good(e) => Loaded(read, c.(slots := c.slots[c.idx := Some(e)], idx := c.idx + 1), text[k..])
      case Skipped => Loaded(read, c.(idx := c.idx + 1), text[k..])
  }

  /** A line with white space only at its end, as it is read from the file. */
  ghost predicate PlainLine(line: string) {
    line != "" && line[0] != ' ' && !IsTrailing(line[|line| - 1])
  }

  /**
   Which lines are taken for entries: those of exactly four fields, if the position is between
   1 and 89 degrees from equator and meridian and the address has at least five characters;
   other lines of four fields are bad, and all other lines are skipped.
   */
  lemma LineKinds(env: Env, fs: seq<string>)
    requires fs != [] && forall i | 0 <= i < |fs| :: Free(fs[i], ';')
    requires PlainLine(Join(fs, ';')) && Splittable(Join(fs, ';'), ';')
    ensures ReadLine(env, Join(fs, ';') + "\n")
            == if |fs| != 4 then Skipped
               else
                 var x, y := env.atof(fs[1]), env.atof(fs[2]);
                 if (1.0 <= x <= 89.0 || -89.0 <= x <= -1.0) && (1.0 <= y <= 89.0 || -89.0 <= y <= -1.0) && |fs[3]| >= 5
                 then Good(Entry(fs[1], fs[2], fs[3], x, y, Atol(fs[0]))) else Bad
  {
    TrimOfLine(Join(fs, ';'));
    SplitOfJoin(fs, ';');
  }

  // ---------- saving and reloading ----------

  /** Entries whose line can be read back. */
  ghost predicate Reloadable(env: Env, e: Entry) {
    && -LONG_LIMIT <= e.ts < LONG_LIMIT
    && Free(e.lat, ';') && Free(e.lon, ';') && Free(e.addr, ';')
    && Free(e.lat, '\n') && Free(e.lon, '\n') && Free(e.addr, '\n')
    && 5 <= |e.addr| && !IsTrailing(e.addr[|e.addr| - 1])
    && |SaveLine(e)| < 254
    && InRange(env.atof(e.lat), env.atof(e.lon))
  }

  /** The entry as the reader rebuilds it: coordinates are read off the stored text. */
  function Reread(env: Env, e: Entry): Entry {
    e.(dLat := env.atof(e.lat), dLon := env.atof(e.lon))
  }

  lemma {:induction false} ChunkIsLine(line: string, rest: string, room: nat)
    requires Free(line, '\n') && |line| < room
    ensures ChunkLength(line + ("\n" + rest), room) == |line| + 1
  {
    var text := line + ("\n" + rest);
    if line != "" {
      assert text[1..] == line[1..] + ("\n" + rest);
      ChunkIsLine(line[1..], rest, room - 1);
    }
  }

  lemma SaveLineShape(env: Env, e: Entry)
    requires Reloadable(env, e)
    ensures var line := SaveLine(e);
            line != "" && line[0] != ' ' && !IsTrailing(line[|line| - 1]) && Free(line, '\n')
  {
    var line := SaveLine(e);
    assert line[0] == PrintInt(e.ts)[0];
    assert line[|line| - 1] == e.addr[|e.addr| - 1];
    assert Free(PrintInt(e.ts), '\n');
  }

  lemma SaveLineFields(env: Env, e: Entry)
    requires Reloadable(env, e)
    ensures Split(SaveLine(e), ';') == [PrintInt(e.ts), e.lat, e.lon, e.addr]
    ensures Splittable(SaveLine(e), ';')
  {
    assert Free(PrintInt(e.ts), ';');
    FourFields(PrintInt(e.ts), e.lat, e.lon, e.addr);
  }

  lemma FourFields(a: string, b: string, c: string, d: string)
    requires Free(a, ';') && Free(b, ';') && Free(c, ';') && Free(d, ';')
    ensures Split(a + (";" + (b + (";" + (c + (";" + d))))), ';') == [a, b, c, d]
  {
    SplitFirst(a, ';', b + (";" + (c + (";" + d))));
    SplitFirst(b, ';', c + (";" + d));
    SplitFirst(c, ';', d);
    SplitDelimFree(d, ';');
  }

  /** Spaces in front and spaces, newlines and carriage returns at the end are trimmed, and nothing else. */
  lemma {:induction false} TrimExactly(front: string, line: string, back: string)
    requires (forall i | 0 <= i < |front| :: front[i] == ' ') && (forall i | 0 <= i < |back| :: back[i] in {' ', '\n', '\r'})
    requires line != "" && line[0] != ' ' && line[|line| - 1] !in {' ', '\n', '\r'}
    ensures Trim(front + (line + back)) == line
    decreases |front| + |back|
  {
    if back != "" {
      var less := back[..|back| - 1];
      var s := front + (line + back);
      assert s[..|s| - 1] == front + (line + less) && s[|s| - 1] == back[|back| - 1];
      TrimExactly(front, line, less);
    } else {
      assert front + (line + back) == front + line;
      assert TrimEnd(front + line) == front + line;
      TrimStartExactly(front, line);
    }
  }

  lemma {:induction false} TrimStartExactly(front: string, line: string)
    requires (forall i | 0 <= i < |front| :: front[i] == ' ') && line != "" && line[0] != ' '
    ensures TrimStart(front + line) == line
  {
    if front == "" {
      assert front + line == line;
    } else {
      assert (front + line)[1..] == front[1..] + line;
      TrimStartExactly(front[1..], line);
    }
  }

  /** A line that does not end within 254 characters is read in pieces of 254. */
  lemma LongLine(text: string)
    requires |text| >= 254 && forall i | 0 <= i < 254 :: text[i] != '\n'
    ensures ChunkLength(text, LINE_ROOM) == 254
  {
    ChunkFills(text, LINE_ROOM);
  }

  lemma {:induction false} ChunkFills(text: string, room: nat)
    requires |text| >= room && forall i | 0 <= i < room :: text[i] != '\n'
    ensures ChunkLength(text, room) == room
  {
    if room > 0 {
      ChunkFills(text[1..], room - 1);
    }
  }

  lemma TrimOfLine(line: string)
    requires line != "" && line[0] != ' ' && !IsTrailing(line[|line| - 1])
    ensures Trim(line + "\n") == line
  {
    var s := line + "\n";
    assert s[..|s| - 1] == line;
    assert TrimEnd(line) == line;
  }

  lemma LineRoundTrip(env: Env, e: Entry)
    requires Reloadable(env, e)
    ensures ReadLine(env, SaveLine(e) + "\n") == Good(Reread(env, e))
  {
    SaveLineShape(env, e);
    TrimOfLine(SaveLine(e));
    SaveLineFields(env, e);
    AtolOfPrintInt(e.ts);
  }

  /** The line of an entry is read as the entry. */
  ghost predicate ReadsBack(read: Reader, env: Env, e: Entry) {
    && Free(SaveLine(e), '\n') && |SaveLine(e)| < LINE_ROOM
    && read(SaveLine(e) + "\n") == Good(Reread(env, e))
  }

  lemma ReloadableReadsBack(env: Env, e: Entry)
    requires Reloadable(env, e)
    ensures ReadsBack(ReaderOf(env), env, e)
  {
    SaveLineShape(env, e);
    LineRoundTrip(env, e);
  }

  /** One line taken for an entry fills one slot. */
  lemma LoadStep(read: Reader, c: Cache, line: string, e: Entry, rest: string)
    requires c.idx + 1 < |c.slots| && Free(line, '\n') && |line| < LINE_ROOM && read(line + "\n") == Good(e)
    ensures Loaded(read, c, line + ("\n" + rest))
            == Loaded(read, c.(slots := c.slots[c.idx := Some(e)], idx := c.idx + 1), rest)
  {
    FirstLine(line, rest);
  }

  lemma FirstLine(line: string, rest: string)
    requires Free(line, '\n') && |line| < LINE_ROOM
    ensures var text, k := line + ("\n" + rest), |line| + 1;
            text != "" && ChunkLength(text, LINE_ROOM) == k && text[..k] == line + "\n" && text[k..] == rest
  {
    ChunkIsLine(line, rest, LINE_ROOM);
  }

  /** Slots `from`, `from + 1`, ... of `d` hold the reread entries; the other slots are as in `c`. */
  ghost predicate Filled(env: Env, c: Cache, d: Cache, es: seq<Entry>, m: nat) {
    && |d.slots| == |c.slots| && m <= |es|
    && forall j: nat | j < |c.slots| ::
         d.slots[j] == if c.idx <= j < c.idx + m then Some(Reread(env, es[j - c.idx])) else c.slots[j]
  }

  /** Reading back saved lines fills consecutive slots, until one slot short of the end. */
  lemma {:induction false} LinesRoundTrip(read: Reader, env: Env, c: Cache, es: seq<Entry>, m: nat)
    requires c.idx < |c.slots| && m == Min(|es|, |c.slots| - 1 - c.idx)
    requires forall i | 0 <= i < m :: ReadsBack(read, env, es[i])
    ensures var (rc, d) := Loaded(read, c, Lines(es));
            rc == 0 && d.idx == d.num == d.maxIdx == c.idx + m && Filled(env, c, d, es, m)
    decreases |es|
  {
    if m == 0 {
      assert c.idx == |c.slots| - 1 || Lines(es) == "";
    } else {
      var e, tail := es[0], es[1..];
      var c' := c.(slots := c.slots[c.idx := Some(Reread(env, e))], idx := c.idx + 1);
      LoadStep(read, c, SaveLine(e), Reread(env, e), Lines(tail));
      LinesRoundTrip(read, env, c', tail, m - 1);
      FilledStep(env, c, c', Loaded(read, c', Lines(tail)).1, es, m);
    }
  }

  lemma FilledStep(env: Env, c: Cache, c': Cache, d: Cache, es: seq<Entry>, m: nat)
    requires es != [] && m > 0 && c.idx < |c.slots|
    requires c'.slots == c.slots[c.idx := Some(Reread(env, es[0]))] && c'.idx == c.idx + 1
    requires Filled(env, c', d, es[1..], m - 1)
    ensures Filled(env, c, d, es, m)
  {
    forall j: nat | j < |c.slots|
      ensures d.slots[j] == if c.idx <= j < c.idx + m then Some(Reread(env, es[j - c.idx])) else c.slots[j]
    {
      assert d.slots[j] == if c'.idx <= j < c'.idx + (m - 1) then Some(Reread(env, es[1..][j - c'.idx])) else c'.slots[j];
    }
  }

  /** How many entries a save writes: up to the highest index ever hit, or the first empty slot. */
  lemma SavedCount(env: Env, start: Cache, used: nat, ops: seq<Op>)
    requires Valid(start) && Clean(start, used)
    ensures var c := Run(env, start, ops);
            var es := SavedFrom(c.slots, c.maxIdx, 0);
            && |es| == Min(UsedAfter(start, used, |History(env, ops)|), c.maxIdx + 1)
            && forall i: nat | i < |es| :: c.slots[i] == Some(es[i])
  {
    var c, now := Run(env, start, ops), UsedAfter(start, used, |History(env, ops)|);
    UsedInRun(env, start, used, ops, c, now);
    SavedPrefix(c.slots, c.maxIdx, now);
  }

  lemma UsedInRun(env: Env, start: Cache, used: nat, ops: seq<Op>, c: Cache, now: nat)
    requires Valid(start) && Clean(start, used)
    requires c == Run(env, start, ops) && now == UsedAfter(start, used, |History(env, ops)|)
    ensures Valid(c) && UsedTo(c, now)
  {
    UsedSlotsArePrefix(env, start, used, ops);
  }

  lemma SavedPrefix(slots: seq<Option<Entry>>, maxIdx: nat, used: nat)
    requires maxIdx < |slots| && used <= |slots|
    requires forall j: nat | j < |slots| :: slots[j].Some? <==> j < used
    ensures var es := SavedFrom(slots, maxIdx, 0);
            |es| == Min(used, maxIdx + 1) && forall i: nat | i < |es| :: slots[i] == Some(es[i])
  {
    var es := SavedFrom(slots, maxIdx, 0);
    SavedFromIs(slots, maxIdx, 0);
    forall i: nat | i < |es| ensures slots[i] == Some(es[i]) {
      assert slots[0 + i] == Some(es[i]);
    }
    assert |es| > 0 ==> slots[|es| - 1].Some?;
    assert |es| <= maxIdx ==> slots[|es|].None?;
  }

  /**
   Saving after any run from a clean start and reloading into a fresh cache of the same size
   gives exactly the first min(used, maxIdx + 1, n - 1) entries, in order, with equal time,
   position texts and address.
   */
  lemma SaveReload(env: Env, start: Cache, used: nat, ops: seq<Op>, m: nat)
    requires Valid(start) && Clean(start, used)
    requires var now := UsedAfter(start, used, |History(env, ops)|);
             m == Min(Min(now, Run(env, start, ops).maxIdx + 1), |start.slots| - 1)
    requires forall j: nat | j < m && Run(env, start, ops).slots[j].Some? ::
               Reloadable(env, Run(env, start, ops).slots[j].value)
    ensures var c := Run(env, start, ops);
            var (rc, d) := Loaded(ReaderOf(env), EmptyCache(|c.slots|), Lines(SavedFrom(c.slots, c.maxIdx, 0)));
            rc == 0 && c.maxIdx < |c.slots| && Reloads(env, c, d, m)
  {
    var c, now := Run(env, start, ops), UsedAfter(start, used, |History(env, ops)|);
    UsedInRun(env, start, used, ops, c, now);
    SaveReloadCache(env, c, now, m);
  }

  /** The first `m` slots of `d` hold the entries of `c`, the others are empty. */
  ghost predicate Reloads(env: Env, c: Cache, d: Cache, m: nat) {
    && |d.slots| == |c.slots| && d.idx == d.num == m <= |c.slots|
    && (forall j: nat | j < m :: c.slots[j].Some? && d.slots[j] == Some(Reread(env, c.slots[j].value)))
    && (forall j: nat | m <= j < |c.slots| :: d.slots[j].None?)
  }

  lemma SaveReloadCache(env: Env, c: Cache, used: nat, m: nat)
    requires Valid(c) && UsedTo(c, used) && m == Min(Min(used, c.maxIdx + 1), |c.slots| - 1)
    requires forall j: nat | j < m && c.slots[j].Some? :: Reloadable(env, c.slots[j].value)
    ensures var (rc, d) := Loaded(ReaderOf(env), EmptyCache(|c.slots|), Lines(SavedFrom(c.slots, c.maxIdx, 0)));
            rc == 0 && Reloads(env, c, d, m)
  {
    var es := SavedFrom(c.slots, c.maxIdx, 0);
    SavedPrefix(c.slots, c.maxIdx, used);
    forall i | 0 <= i < m ensures ReadsBack(ReaderOf(env), env, es[i]) {
      assert c.slots[i] == Some(es[i]);
      ReloadableReadsBack(env, es[i]);
    }
    ReloadInto(ReaderOf(env), env, c, es, m);
  }

  lemma ReloadInto(read: Reader, env: Env, c: Cache, es: seq<Entry>, m: nat)
    requires Valid(c) && |es| <= |c.slots| && m == Min(|es|, |c.slots| - 1)
    requires forall i: nat | i < |es| :: c.slots[i] == Some(es[i])
    requires forall i | 0 <= i < m :: ReadsBack(read, env, es[i])
    ensures var (rc, d) := Loaded(read, EmptyCache(|c.slots|), Lines(es)); rc == 0 && Reloads(env, c, d, m)
  {
    var n := |c.slots|;
    LinesRoundTrip(read, env, EmptyCache(n), es, m);
    FilledFromEmpty(env, c.slots, Loaded(read, EmptyCache(n), Lines(es)).1, es, n, m);
  }

  lemma FilledFromEmpty(env: Env, slots: seq<Option<Entry>>, d: Cache, es: seq<Entry>, n: nat, m: nat)
    requires |slots| == n && m <= |es| <= n && Filled(env, EmptyCache(n), d, es, m)
    requires forall i: nat | i < |es| :: slots[i] == Some(es[i])
    ensures |d.slots| == n
    ensures forall j: nat | j < m :: slots[j].Some? && d.slots[j] == Some(Reread(env, slots[j].value))
    ensures forall j: nat | m <= j < n :: d.slots[j].None?
  {
  }

  // ---------- what a reload is good for ----------

  /** Every line that is read, at most `room`, is taken for an entry or ends the reading. */
  ghost predicate NoneSkipped(read: Reader, room: nat, text: string)
    decreases |text|
  {
    if room == 0 || text == "" then true
    else
      var k := ChunkLength(text, LINE_ROOM);
      match read(text[..k])
      case Bad => true
      case Skipped => false
      case Good(_) => NoneSkipped(read, room - 1, text[k..])
  }

  /** Reading never leaves the ring, and keeps the slots before the index. */
  lemma {:induction false} LoadedKeeps(read: Reader, c: Cache, text: string)
    requires Valid(c)
    ensures var (rc, d) := Loaded(read, c, text);
            && Valid(d) && |d.slots| == |c.slots|
            && (rc == 0 ==> c.idx <= d.idx && d.idx == d.num)
            && forall j: nat | j < c.idx :: d.slots[j] == c.slots[j]
    decreases |text|
  {
    if c.idx < |c.slots| - 1 && text != "" {
      var k := ChunkLength(text, LINE_ROOM);
      match read(text[..k]) {
        case Bad =>
        case Good(e) => LoadedKeeps(read, c.(slots := c.slots[c.idx := Some(e)], idx := c.idx + 1), text[k..]);
        case Skipped => LoadedKeeps(read, c.(idx := c.idx + 1), text[k..]);
      }
    }
  }

  /** A cache that is read to the end of the file is clean exactly if no line was skipped. */
  lemma {:induction false} LoadedClean(read: Reader, c: Cache, text: string)
    requires Valid(c) && UsedTo(c, c.idx)
    ensures var (rc, d) := Loaded(read, c, text);
            rc == 0 ==>
              && (IsClean(d) <==> NoneSkipped(read, |c.slots| - 1 - c.idx, text))
              && (NoneSkipped(read, |c.slots| - 1 - c.idx, text) ==> Clean(d, d.idx))
    decreases |text|
  {
    if c.idx >= |c.slots| - 1 || text == "" {
      assert Clean(Loaded(read, c, text).1, c.idx);
    } else {
      var k := ChunkLength(text, LINE_ROOM);
      match read(text[..k]) {
        case Bad =>
        case Good(e) =>
          var c' := c.(slots := c.slots[c.idx := Some(e)], idx := c.idx + 1);
          assert UsedTo(c', c'.idx);
          LoadedClean(read, c', text[k..]);
        case Skipped =>
          SkippedIsHole(read, c, text[k..]);
      }
    }
  }

  lemma SkippedIsHole(read: Reader, c: Cache, text: string)
    requires Valid(c) && UsedTo(c, c.idx) && c.idx + 1 < |c.slots|
    ensures var (rc, d) := Loaded(read, c.(idx := c.idx + 1), text);
            rc == 0 ==> !IsClean(d)
  {
    LoadedKeeps(read, c.(idx := c.idx + 1), text);
    var (rc, d) := Loaded(read, c.(idx := c.idx + 1), text);
    assert d.slots[c.idx] == c.slots[c.idx] && c.slots[c.idx].None?;
  }

  /**
   When the daemon starts by reading a whole file into an empty cache, the used slots are a
   prefix in every run that follows if and only if no line of the file was skipped, whatever
   makes a line be skipped.
   */
  lemma ReloadedRunsPrefix(read: Reader, env: Env, n: nat, text: string, u: Update)
    requires MIN_RING <= n && Accepted(env, u)
    ensures var (rc, d) := Loaded(read, EmptyCache(n), text);
            && Valid(d)
            && (rc == 0 ==>
                  && (AlwaysPrefix(env, d) <==> NoneSkipped(read, n - 1, text))
                  && (NoneSkipped(read, n - 1, text) ==> Clean(d, d.idx) && d.idx == d.num))
  {
    var start := EmptyCache(n);
    EmptyIsClean(n);
    LoadedKeeps(read, start, text);
    LoadedClean(read, start, text);
    var (rc, d) := Loaded(read, start, text);
    PrefixExactly(env, d, u);
  }

  // ---------- the program's own data ----------

  class AddressCache {
    const env: Env
    const slots: array<Option<Entry>>
    var idx: nat
    var num: nat
    var maxIdx: nat
    var calls: nat
    var hits: nat

    ghost function State(): Cache
      reads this, slots
    {
      Cache(slots[..], idx, num, maxIdx, calls, hits)
    }

    /** init_geoloc_cache */
    constructor (env: Env, size: nat)
      requires MIN_RING <= size
      ensures State() == EmptyCache(size) && fresh(slots) && this.env == env
    {
      this.env := env;
      slots := new Option<Entry>[size](_ => None);
      idx, num, maxIdx, calls, hits := 0, 0, 0, 0, 0;
    }

    /** update_address_cache */
    method Store(lat: string, lon: string, addr: string, now: int) returns (rc: int)
      requires Valid(State())
      modifies this, slots
      ensures State() == Updated(env, old(State()), Update(lat, lon, addr, now)) && Valid(State())
      ensures var x, y := env.atof(lat), env.atof(lon);
              rc == if (1.0 <= x <= 89.0 || -89.0 <= x <= -1.0) && (1.0 <= y <= 89.0 || -89.0 <= y <= -1.0) then 0 else -1
      ensures rc == 0 && old(slots[idx]).None? ==>
                slots[old(idx)] == Some(Entry(lat, lon, addr, env.atof(lat), env.atof(lon), now))
      ensures rc == 0 && old(slots[idx]).Some? && lat != "" && lon != "" && addr != "" ==>
                slots[old(idx)] == Some(Entry(lat[..|lat| - 1], lon[..|lon| - 1], addr[..|addr| - 1],
                                              env.atof(lat), env.atof(lon), now))
    {
      var dLat, dLon := env.atof(lat), env.atof(lon);
      if !InRange(dLat, dLon) {
        return -1;
      }
      if slots[idx].Some? {
        slots[idx] := Some(Entry(Shorten(lat), Shorten(lon), Shorten(addr), dLat, dLon, now));
      } else {
        slots[idx] := Some(Entry(lat, lon, addr, dLat, dLon, now));
      }
      idx := idx + 1;
      if idx >= slots.Length {
        idx := 0;
      } else if num < slots.Length {
        num := num + 1;
      }
      rc := 0;
    }

    /** update_cache_stat */
    method CountCall(hit: bool, at: nat)
      modifies this`calls, this`hits, this`maxIdx
      ensures calls == old(calls) + 1 && hits == (if hit then old(hits) + 1 else old(hits))
      ensures maxIdx == if at > old(maxIdx) then at else old(maxIdx)
    {
      calls := calls + 1;
      if at > maxIdx {
        maxIdx := at;
      }
      if hit {
        hits := hits + 1;
      }
    }

    /** in_address_cache */
    method Find(lat: string, lon: string) returns (addr: Option<string>)
      requires Valid(State())
      modifies this`calls, this`hits, this`maxIdx
      ensures (addr, State()) == Lookup(env, old(State()), lat, lon) && Valid(State())
      ensures calls == old(calls) + 1 && hits == old(hits) + (if addr.Some? then 1 else 0)
      ensures var i := ScanEnd(env, slots[..], lat, lon);
              maxIdx == if addr.Some? && i > old(maxIdx) then i else old(maxIdx)
    {
      ghost var q := slots[..];
      var i := 0;
      while i < slots.Length && slots[i].Some?
        invariant i <= slots.Length
        invariant forall j | 0 <= j < i :: !StopsScan(env, q[j], lat, lon)
        invariant State() == old(State())
      {
        if Matches(env, slots[i].value, lat, lon) {
          FirstIs(q, s => StopsScan(env, s, lat, lon), i);
          CountCall(true, i);
          return Some(slots[i].value.addr);
        }
        i := i + 1;
      }
      FirstIs(q, s => StopsScan(env, s, lat, lon), i);
      CountCall(false, 0);
      addr := None;
    }

    /** write_address_geocache, without the file handling */
    method Save() returns (text: string)
      requires Valid(State())
      ensures text == Lines(SavedFrom(slots[..], maxIdx, 0))
    {
      text := WriteLines(slots, maxIdx);
    }

    /** One line of the file. */
    method ReadEntry(chunk: string) returns (kind: LineKind)
      ensures kind == ReadLine(env, chunk)
    {
      var ok, fields := SplitFields(Trim(chunk), ';');
      if !ok || |fields| != 4 {
        return Skipped;
      }
      var dLat, dLon := env.atof(fields[1]), env.atof(fields[2]);
      if !InRange(dLat, dLon) || |fields[3]| < MIN_ADDRESS {
        return Bad;
      }
      kind := Good(Entry(fields[1], fields[2], fields[3], dLat, dLon, Atol(fields[0])));
    }

    /** One round of the reading loop; a bad line resets the index. */
    method LoadLine(text: string, ghost read: Reader) returns (ok: bool, rest: string)
      requires idx < slots.Length - 1 && text != "" && read == ReaderOf(env)
      modifies this`idx, slots
      ensures |rest| < |text| && idx < slots.Length
      ensures ok ==> Loaded(read, State(), rest) == Loaded(read, old(State()), text)
      ensures !ok ==> (-1, State()) == Loaded(read, old(State()), text)
    {
      var k := ChunkLength(text, LINE_ROOM);
      var kind := ReadEntry(text[..k]);
      ghost var c := State();
      LoadedUnfold(read, c, text, k, kind);
      rest := text[k..];
      if kind.Bad? {
        idx := 0;
        assert State() == c.(idx := 0);
        return false, rest;
      }
      if kind.Good? {
        slots[idx] := Some(kind.e);
      }
      idx := idx + 1;
      ok := true;
      assert State() == c.(slots := if kind.Good? then c.slots[c.idx := Some(kind.e)] else c.slots, idx := c.idx + 1);
    }

    /** read_address_geocache, on the contents of the file */
    method Load(text: string) returns (rc: int)
      requires Valid(State())
      modifies this, slots
      ensures (rc, State()) == Loaded(ReaderOf(env), old(State()).(idx := 0), text)
    {
      idx := 0;
      var rest := text;
      ghost var read := ReaderOf(env);
      ghost var whole := Loaded(read, State(), text);
      while idx < slots.Length - 1 && rest != ""
        invariant idx < slots.Length
        invariant Loaded(read, State(), rest) == whole
        decreases |rest|
      {
        var ok;
        ok, rest := LoadLine(rest, read);
        if !ok {
          return -1;
        }
      }
      LoadedEnd(read, State(), rest);
      maxIdx := idx;
      num := idx;
      rc := 0;
    }
  }

  /** The writing loop. */
  method WriteLines(slots: array<Option<Entry>>, maxIdx: nat) returns (text: string)
    requires maxIdx < slots.Length
    ensures text == Lines(SavedFrom(slots[..], maxIdx, 0))
  {
    ghost var q, all := slots[..], Lines(SavedFrom(slots[..], maxIdx, 0));
    text := "";
    var i := 0;
    assert text + all == all;
    while i <= maxIdx && slots[i].Some?
      invariant i <= maxIdx + 1
      invariant SavedSoFar(q, maxIdx, i, text, all)
      decreases maxIdx + 1 - i
    {
      var e := slots[i].value;
      assert q[i] == Some(e);
      SaveStep(q, maxIdx, i, text, all, e);
      text := text + (SaveLine(e) + "\n");
      i := i + 1;
    }
    SaveEnd(q, maxIdx, i, text, all);
  }

  lemma LoadedEnd(read: Reader, c: Cache, text: string)
    requires c.idx < |c.slots| && (c.idx == |c.slots| - 1 || text == "")
    ensures Loaded(read, c, text) == (0, c.(maxIdx := c.idx, num := c.idx))
  {
  }

  lemma LoadedUnfold(read: Reader, c: Cache, text: string, k: nat, kind: LineKind)
    requires c.idx < |c.slots| - 1 && text != "" && k == ChunkLength(text, LINE_ROOM) && kind == read(text[..k])
    ensures kind.Bad? ==> Loaded(read, c, text) == (-1, c.(idx := 0))
    ensures kind.Good? ==>
              Loaded(read, c, text) == Loaded(read, c.(slots := c.slots[c.idx := Some(kind.e)], idx := c.idx + 1), text[k..])
    ensures kind.Skipped? ==> Loaded(read, c, text) == Loaded(read, c.(idx := c.idx + 1), text[k..])
  {
  }

  /** The text and the lines still to be written make up the whole text. */
  ghost predicate SavedSoFar(slots: seq<Option<Entry>>, maxIdx: nat, i: nat, text: string, all: string) {
    maxIdx < |slots| && i <= maxIdx + 1 && text + Lines(SavedFrom(slots, maxIdx, i)) == all
  }

  lemma SaveStep(slots: seq<Option<Entry>>, maxIdx: nat, i: nat, text: string, all: string, e: Entry)
    requires SavedSoFar(slots, maxIdx, i, text, all) && i <= maxIdx && slots[i] == Some(e)
    ensures SavedSoFar(slots, maxIdx, i + 1, text + (SaveLine(e) + "\n"), all)
  {
    var rest := SavedFrom(slots, maxIdx, i + 1);
    LinesFront(e, rest);
    Regroup(SaveLine(e), "\n", Lines(rest));
    Regroup(text, SaveLine(e) + "\n", Lines(rest));
  }

  lemma SaveEnd(slots: seq<Option<Entry>>, maxIdx: nat, i: nat, text: string, all: string)
    requires SavedSoFar(slots, maxIdx, i, text, all) && (i > maxIdx || slots[i].None?)
    ensures text == all
  {
    assert text + "" == text;
  }

  lemma LinesFront(e: Entry, es: seq<Entry>)
    ensures Lines([e] + es) == SaveLine(e) + ("\n" + Lines(es))
  {
    assert ([e] + es)[1..] == es;
  }
}
