/**
 The address cache: a ring of located addresses, searched from slot 0 up to the first
 empty slot.  Number reading and the distance function are parameters.
 */
module GeoCache {
  import opened Options
  import opened SeqTools
  import opened Arithmetic

  const MIN_RING: nat := 2

  datatype Env = Env(atof: string -> real, dist: (real, real, real, real) -> real, proximity: int)

  datatype Entry = Entry(lat: string, lon: string, addr: string, dLat: real, dLon: real, ts: int)

  /** All static data of the cache; `calls`, `hits` and `maxIdx` are the usage statistics. */
  datatype Cache = Cache(slots: seq<Option<Entry>>, idx: nat, num: nat, maxIdx: nat, calls: nat, hits: nat)

  datatype Update = Update(lat: string, lon: string, addr: string, now: int)

  function EmptyCache(n: nat): Cache {
    Cache(Repeat(n, None), 0, 0, 0, 0, 0)
  }

  function Abs(x: real): real {
    if x < 0.0 then -x else x
  }

  predicate InRange(dLat: real, dLon: real) {
    1.0 <= Abs(dLat) <= 89.0 && 1.0 <= Abs(dLon) <= 89.0
  }

  predicate Accepted(env: Env, u: Update) {
    InRange(env.atof(u.lat), env.atof(u.lon))
  }

  /** Copying with the source length as buffer size loses the last character. */
  function Shorten(s: string): string {
    if s == "" then "" else s[..|s| - 1]
  }

  /** What an update stores; a reused slot gets shortened texts but full coordinates. */
  function StoredEntry(env: Env, u: Update, reused: bool): Entry {
    if reused then
      Entry(Shorten(u.lat), Shorten(u.lon), Shorten(u.addr), env.atof(u.lat), env.atof(u.lon), u.now)
    else
      Entry(u.lat, u.lon, u.addr, env.atof(u.lat), env.atof(u.lon), u.now)
  }

  ghost predicate Valid(c: Cache) {
    MIN_RING <= |c.slots| && c.idx < |c.slots| && c.num <= |c.slots| && c.maxIdx < |c.slots|
  }

  function Updated(env: Env, c: Cache, u: Update): Cache
    requires c.idx < |c.slots|
  {
    if !Accepted(env, u) then c
    else
      var e := StoredEntry(env, u, c.slots[c.idx].Some?);
      var wraps := c.idx + 1 >= |c.slots|;
      c.(slots := c.slots[c.idx := Some(e)],
         idx := if wraps then 0 else c.idx + 1,
         num := if !wraps && c.num < |c.slots| then c.num + 1 else c.num)
  }

  predicate Matches(env: Env, e: Entry, lat: string, lon: string) {
    if env.proximity > 0 then
      env.dist(env.atof(lat), env.atof(lon), e.dLat, e.dLon) <= env.proximity as real
    else
      lat == e.lat && lon == e.lon
  }

  /** Where the scan stops: at a match, at the first empty slot, or at the end. */
  function ScanEnd(env: Env, slots: seq<Option<Entry>>, lat: string, lon: string): (i: nat)
    ensures i <= |slots|
  {
    First(slots, s => StopsScan(env, s, lat, lon))
  }

  predicate StopsScan(env: Env, s: Option<Entry>, lat: string, lon: string) {
    s.None? || Matches(env, s.value, lat, lon)
  }

  function Lookup(env: Env, c: Cache, lat: string, lon: string): (Option<string>, Cache) {
    var i := ScanEnd(env, c.slots, lat, lon);
    if i < |c.slots| && c.slots[i].Some? then
      (Some(c.slots[i].value.addr),
       c.(calls := c.calls + 1, hits := c.hits + 1, maxIdx := if i > c.maxIdx then i else c.maxIdx))
    else (None, c.(calls := c.calls + 1))
  }

  // ---------- runs ----------

  datatype Op = Store(u: Update) | Find(lat: string, lon: string)

  function Step(env: Env, c: Cache, op: Op): Cache
    requires c.idx < |c.slots|
  {
    match op
    case Store(u) => Updated(env, c, u)
    case Find(lat, lon) => Lookup(env, c, lat, lon).1
  }

  lemma StepValid(env: Env, c: Cache, op: Op)
    requires Valid(c)
    ensures Valid(Step(env, c, op)) && |Step(env, c, op).slots| == |c.slots|
  {
  }

  /** The cache after a run from any start: empty, or as reloaded when the daemon starts. */
  function Run(env: Env, start: Cache, ops: seq<Op>): (c: Cache)
    requires Valid(start)
    ensures Valid(c) && |c.slots| == |start.slots|
  {
    if ops == [] then start
    else
      var c := Run(env, start, ops[..|ops| - 1]);
      StepValid(env, c, ops[|ops| - 1]);
      Step(env, c, ops[|ops| - 1])
  }

  /** The accepted updates of a run, in order. */
  function History(env: Env, ops: seq<Op>): seq<Update> {
    if ops == [] then []
    else
      var h := History(env, ops[..|ops| - 1]);
      match ops[|ops| - 1]
      case Store(u) => if Accepted(env, u) then h + [u] else h
      case Find(_, _) => h
  }

  /** `k` is the latest of `count` update numbers that is `j` modulo `n`. */
  predicate IsLatest(count: nat, n: nat, j: nat, k: nat)
    requires n > 0
  {
    k < count && k % n == j && count - k <= n
  }

  lemma LatestExists(count: nat, n: nat, j: nat)
    requires j < n && j < count
    ensures exists k: nat :: IsLatest(count, n, j, k)
  {
    var q, r := (count - 1 - j) / n, (count - 1 - j) % n;
    assert count - 1 - j == n * q + r;
    ModOfSum(j, n, q);
    assert IsLatest(count, n, j, j + n * q);
  }

  ghost function Latest(count: nat, n: nat, j: nat): (k: nat)
    requires j < n && j < count
    ensures IsLatest(count, n, j, k)
  {
    LatestExists(count, n, j);
    var k: nat :| IsLatest(count, n, j, k);
    k
  }

  /** In a window of `n` consecutive numbers each remainder occurs once. */
  lemma LatestUnique(count: nat, n: nat, j: nat, k: nat)
    requires j < n && j < count && IsLatest(count, n, j, k)
    ensures k == Latest(count, n, j)
  {
    var m := Latest(count, n, j);
    SameRemainder(k, m, n, k / n, m / n);
  }

  lemma LatestStep(count: nat, n: nat, j: nat)
    requires j < n && j <= count
    ensures j == count % n ==> Latest(count + 1, n, j) == count
    ensures j != count % n && j < count ==> Latest(count + 1, n, j) == Latest(count, n, j)
  {
    if j == count % n {
      LatestUnique(count + 1, n, j, count);
    } else if j < count {
      var k := Latest(count, n, j);
      if count - k == n {
        ModShift(k, n);
      }
      LatestUnique(count + 1, n, j, k);
    }
  }

  /** How many updates after the start reach slot `j` first. */
  function Ahead(start: Cache, j: nat): (r: nat)
    requires start.idx < |start.slots| && j < |start.slots|
    ensures r < |start.slots|
  {
    if j >= start.idx then j - start.idx else j + |start.slots| - start.idx
  }

  /** The slot that update number `k` after the start goes to. */
  function SlotOf(start: Cache, k: nat): (j: nat)
    requires start.slots != []
    ensures j < |start.slots|
  {
    (start.idx + k) % |start.slots|
  }

  /** Update number `k` finds its slot in use. */
  predicate Reuses(start: Cache, k: nat)
    requires start.slots != []
  {
    k >= |start.slots| || start.slots[SlotOf(start, k)].Some?
  }

  /** What update number `k` stores. */
  function Stored(env: Env, start: Cache, h: seq<Update>, k: nat): Entry
    requires start.slots != [] && k < |h|
  {
    StoredEntry(env, h[k], Reuses(start, k))
  }

  /** What slot `j` holds after the updates `h`: the latest that went there, or what it held at the start. */
  ghost function SlotAfter(env: Env, start: Cache, h: seq<Update>, j: nat): Option<Entry>
    requires Valid(start) && j < |start.slots|
  {
    var r := Ahead(start, j);
    if r < |h| then Some(Stored(env, start, h, Latest(|h|, |start.slots|, r))) else start.slots[j]
  }

  function Min(a: int, b: int): int {
    if a < b then a else b
  }

  /** The reported count: each update but those that wrap the index counts, up to the ring size. */
  function CountAfter(start: Cache, updates: nat): int
    requires start.slots != []
  {
    Min(|start.slots|, start.num + updates - (start.idx + updates) / |start.slots|)
  }

  ghost predicate RingHolds(env: Env, start: Cache, c: Cache, h: seq<Update>)
    requires Valid(start)
  {
    && |c.slots| == |start.slots|
    && c.idx == SlotOf(start, |h|) && c.num == CountAfter(start, |h|)
    && forall j: nat | j < |c.slots| :: c.slots[j] == SlotAfter(env, start, h, j)
  }

  /** The slots are reached in turn. */
  lemma SlotsInTurn(start: Cache, k: nat, j: nat)
    requires Valid(start) && j < |start.slots|
    ensures SlotOf(start, k) == j <==> k % |start.slots| == Ahead(start, j)
  {
    var n, s := |start.slots|, start.idx;
    var q, r := k / n, k % n;
    if s + r < n {
      DivModUnique(s + k, n, q, s + r);
    } else {
      assert n * (q + 1) == n * q + n;
      DivModUnique(s + k, n, q + 1, s + r - n);
    }
  }

  /** The index and the count of wraps after one more update. */
  lemma TurnStep(x: nat, n: nat)
    requires n > 0
    ensures (x + 1) % n == if x % n + 1 >= n then 0 else x % n + 1
    ensures (x + 1) / n == if x % n + 1 >= n then x / n + 1 else x / n
  {
    var q, r := x / n, x % n;
    if r + 1 >= n {
      assert n * (q + 1) == n * q + n;
      DivModUnique(x + 1, n, q + 1, 0);
    } else {
      DivModUnique(x + 1, n, q, r + 1);
    }
  }

  lemma SmallRemainder(x: nat, n: nat)
    requires x < n
    ensures x % n == x && x / n == 0
  {
    DivModUnique(x, n, 0, x);
  }

  /** The slot written by one more update. */
  lemma WrittenSlot(env: Env, start: Cache, h: seq<Update>, u: Update, j: nat)
    requires Valid(start) && j == SlotOf(start, |h|)
    ensures SlotAfter(env, start, h, j).Some? <==> Reuses(start, |h|)
    ensures SlotAfter(env, start, h + [u], j) == Some(StoredEntry(env, u, Reuses(start, |h|)))
  {
    var n, count := |start.slots|, |h|;
    SlotsInTurn(start, count, j);
    if count < n {
      SmallRemainder(count, n);
    }
    assert Ahead(start, j) <= count;
    LatestStep(count, n, Ahead(start, j));
  }

  lemma OtherSlot(env: Env, start: Cache, h: seq<Update>, u: Update, j: nat)
    requires Valid(start) && j < |start.slots| && j != SlotOf(start, |h|)
    ensures SlotAfter(env, start, h + [u], j) == SlotAfter(env, start, h, j)
  {
    var n, count, r := |start.slots|, |h|, Ahead(start, j);
    SlotsInTurn(start, count, j);
    if r < count {
      LatestStep(count, n, r);
    } else if r == count {
      SmallRemainder(count, n);
    }
  }

  lemma CountStep(start: Cache, updates: nat)
    requires Valid(start)
    ensures var n, num := |start.slots|, CountAfter(start, updates);
            CountAfter(start, updates + 1) == if SlotOf(start, updates) + 1 < n && num < n then num + 1 else num
  {
    TurnStep(start.idx + updates, |start.slots|);
  }

  lemma UpdateKeepsRing(env: Env, start: Cache, c: Cache, h: seq<Update>, u: Update)
    requires Valid(start) && RingHolds(env, start, c, h) && Accepted(env, u)
    ensures RingHolds(env, start, Updated(env, c, u), h + [u])
  {
    var n, count := |c.slots|, |h|;
    var d := Updated(env, c, u);
    TurnStep(start.idx + count, n);
    CountStep(start, count);
    WrittenSlot(env, start, h, u, c.idx);
    forall j: nat | j < n ensures d.slots[j] == SlotAfter(env, start, h + [u], j) {
      assert c.slots[j] == SlotAfter(env, start, h, j);
      if j != c.idx {
        OtherSlot(env, start, h, u, j);
      }
    }
  }

  /**
   In every run from every start: each slot holds the latest accepted update that went to it
   (with shortened texts if the slot was in use), or what it held at the start; the write
   index and the reported count follow from the start and the number of accepted updates.
   */
  lemma {:induction false} RunHoldsHistory(env: Env, start: Cache, ops: seq<Op>)
    requires Valid(start)
    ensures RingHolds(env, start, Run(env, start, ops), History(env, ops))
  {
    if ops == [] {
      SmallRemainder(start.idx, |start.slots|);
    } else {
      var ops' := ops[..|ops| - 1];
      RunHoldsHistory(env, start, ops');
      var c, h := Run(env, start, ops'), History(env, ops');
      match ops[|ops| - 1]
      case Store(u) =>
        if Accepted(env, u) {
          UpdateKeepsRing(env, start, c, h, u);
        }
      case Find(_, _) =>
        assert Run(env, start, ops).slots == c.slots;
    }
  }

  // ---------- the used slots ----------

  /** The used slots are the first `used`. */
  ghost predicate UsedTo(c: Cache, used: nat) {
    used <= |c.slots| && forall j: nat | j < |c.slots| :: c.slots[j].Some? <==> j < used
  }

  ghost predicate UsedIsPrefix(c: Cache) {
    exists used :: UsedTo(c, used)
  }

  /** No empty slot lies before a used one or before the write index. */
  ghost predicate Clean(c: Cache, used: nat) {
    UsedTo(c, used) && c.idx <= used
  }

  /** How far the slots are used after some updates. */
  function UsedAfter(start: Cache, used: nat, updates: nat): (u: nat)
    ensures used <= u
  {
    var reached := Min(|start.slots|, start.idx + updates);
    if reached > used then reached else used
  }

  /**
   In every run from a clean start the used slots are a prefix; from an empty cache or one
   that was reloaded whole, the reported count is its length or one less.
   */
  lemma UsedSlotsArePrefix(env: Env, start: Cache, used: nat, ops: seq<Op>)
    requires Valid(start) && Clean(start, used)
    ensures var c, now := Run(env, start, ops), UsedAfter(start, used, |History(env, ops)|);
            && UsedTo(c, now)
            && (start.idx == start.num == used ==> now - 1 <= c.num <= now)
  {
    RunHoldsHistory(env, start, ops);
    var c, h := Run(env, start, ops), History(env, ops);
    forall j: nat | j < |c.slots| ensures c.slots[j].Some? <==> j < UsedAfter(start, used, |h|) {
      assert c.slots[j] == SlotAfter(env, start, h, j);
    }
    if start.idx == start.num == used {
      CountNearUsed(start, |h|);
    }
  }

  lemma CountNearUsed(start: Cache, updates: nat)
    requires Valid(start) && start.idx == start.num
    ensures var n, x := |start.slots|, start.idx + updates;
            Min(n, x) - 1 <= CountAfter(start, updates) <= Min(n, x)
  {
    var n, x := |start.slots|, start.idx + updates;
    if x < n {
      SmallRemainder(x, n);
    } else {
      WrapsAreFew(x, n);
    }
  }

  lemma WrapsAreFew(x: nat, n: nat)
    requires 2 <= n <= x
    ensures x - x / n >= n - 1
  {
    var q, r := x / n, x % n;
    assert x == n * q + r;
    if q == 0 {
      assert false;
    }
    MulStep(q, 1, n);
    assert n * q == (n - 1) * q + q;
    assert (n - 1) * q >= n - 1 by {
      if q > 1 {
        MulStep(n - 1, 1, q);
      }
    }
  }

  /**
   The used slots are a prefix in every run from a start if and only if the start is clean
   (as soon as there is a position the cache accepts at all).
   */
  lemma PrefixExactly(env: Env, start: Cache, u: Update)
    requires Valid(start) && Accepted(env, u)
    ensures AlwaysPrefix(env, start) <==> IsClean(start)
  {
    if IsClean(start) {
      CleanStaysPrefix(env, start);
    }
    if AlwaysPrefix(env, start) {
      PrefixNeedsClean(env, start, u);
    }
  }

  ghost predicate AlwaysPrefix(env: Env, start: Cache)
    requires Valid(start)
  {
    forall ops :: UsedIsPrefix(Run(env, start, ops))
  }

  ghost predicate IsClean(c: Cache) {
    exists used :: Clean(c, used)
  }

  lemma CleanStaysPrefix(env: Env, start: Cache)
    requires Valid(start) && IsClean(start)
    ensures AlwaysPrefix(env, start)
  {
    var used :| Clean(start, used);
    forall ops ensures UsedIsPrefix(Run(env, start, ops)) {
      UsedSlotsArePrefix(env, start, used, ops);
    }
  }

  lemma PrefixNeedsClean(env: Env, start: Cache, u: Update)
    requires Valid(start) && Accepted(env, u) && AlwaysPrefix(env, start)
    ensures IsClean(start)
  {
    assert Run(env, start, []) == start;
    var used: nat :| UsedTo(start, used);
    OneUpdate(env, start, u);
    HoleBeforeIndex(start, Updated(env, start, u), used);
  }

  lemma OneUpdate(env: Env, start: Cache, u: Update)
    requires Valid(start)
    ensures Run(env, start, [Store(u)]) == Updated(env, start, u)
  {
    assert [Store(u)][..0] == [];
    assert Run(env, start, []) == start;
  }

  lemma HoleBeforeIndex(start: Cache, c: Cache, used: nat)
    requires Valid(start) && UsedTo(start, used) && UsedIsPrefix(c)
    requires |c.slots| == |start.slots| && c.slots[start.idx].Some?
    requires forall j: nat | j < |c.slots| && j != start.idx :: c.slots[j] == start.slots[j]
    ensures Clean(start, used)
  {
    var now: nat :| UsedTo(c, now);
    assert start.idx < now;
    assert used < |c.slots| ==> used == start.idx || c.slots[used] == start.slots[used];
  }

  lemma EmptyIsClean(n: nat)
    requires MIN_RING <= n
    ensures Valid(EmptyCache(n)) && Clean(EmptyCache(n), 0)
  {
  }
}
