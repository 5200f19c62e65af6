/**
 What a lookup in the address cache finds, in every run.
 */
module GeoCacheLookup {
  import opened Options
  import opened SeqTools
  import opened GeoCache

  /** One of the last updates, as many as the ring has slots, matches. */
  ghost predicate RecentMatches(env: Env, start: Cache, h: seq<Update>, lat: string, lon: string)
    requires Valid(start)
  {
    exists k: nat | k < |h| && |h| - k <= |start.slots| :: Matches(env, Stored(env, start, h, k), lat, lon)
  }

  /** An entry of the start that no update has replaced matches. */
  ghost predicate KeptMatches(env: Env, start: Cache, updates: nat, lat: string, lon: string)
    requires Valid(start)
  {
    exists j: nat | j < |start.slots| && Ahead(start, j) >= updates && start.slots[j].Some? ::
      Matches(env, start.slots[j].value, lat, lon)
  }

  ghost predicate SlotMatches(env: Env, s: Option<Entry>, lat: string, lon: string) {
    s.Some? && Matches(env, s.value, lat, lon)
  }

  /**
   In every run from a clean start, the scan that stops at the first empty slot is a search
   of the whole ring: it answers from the lowest matching slot, and fails if there is none.
   */
  lemma LookupSearchesRing(env: Env, start: Cache, used: nat, ops: seq<Op>, lat: string, lon: string)
    requires Valid(start) && Clean(start, used)
    ensures var c := Run(env, start, ops);
            var found := Lookup(env, c, lat, lon).0;
            && (found.None? ==> forall j: nat | j < |c.slots| :: !SlotMatches(env, c.slots[j], lat, lon))
            && (found.Some? ==> exists i: nat | i < |c.slots| ::
                  && SlotMatches(env, c.slots[i], lat, lon) && found.value == c.slots[i].value.addr
                  && forall j: nat | j < i :: !SlotMatches(env, c.slots[j], lat, lon))
  {
    UsedSlotsArePrefix(env, start, used, ops);
    var c := Run(env, start, ops);
    var i := ScanEnd(env, c.slots, lat, lon);
    forall j: nat | j < i ensures !SlotMatches(env, c.slots[j], lat, lon) {
      assert !StopsScan(env, c.slots[j], lat, lon);
    }
    if i < |c.slots| {
      assert StopsScan(env, c.slots[i], lat, lon);
    }
  }

  /**
   ... which is a search of the latest updates, as many as there are slots, and of what is
   left of the start.
   */
  lemma LookupSearchesRecent(env: Env, start: Cache, used: nat, ops: seq<Op>, lat: string, lon: string)
    requires Valid(start) && Clean(start, used)
    ensures var h := History(env, ops);
            Lookup(env, Run(env, start, ops), lat, lon).0.Some?
            <==> RecentMatches(env, start, h, lat, lon) || KeptMatches(env, start, |h|, lat, lon)
  {
    LookupSearchesRing(env, start, used, ops, lat, lon);
    RunHoldsHistory(env, start, ops);
    var c, h := Run(env, start, ops), History(env, ops);
    RingMatches(env, start, c, h, lat, lon);
  }

  lemma RingMatches(env: Env, start: Cache, c: Cache, h: seq<Update>, lat: string, lon: string)
    requires Valid(start) && RingHolds(env, start, c, h)
    ensures (exists j: nat | j < |c.slots| :: SlotMatches(env, c.slots[j], lat, lon))
            <==> RecentMatches(env, start, h, lat, lon) || KeptMatches(env, start, |h|, lat, lon)
  {
    if j: nat :| j < |c.slots| && SlotMatches(env, c.slots[j], lat, lon) {
      assert c.slots[j] == SlotAfter(env, start, h, j);
      if Ahead(start, j) < |h| {
        var k := Latest(|h|, |start.slots|, Ahead(start, j));
        assert Matches(env, Stored(env, start, h, k), lat, lon);
      }
    }
    if k: nat :| k < |h| && |h| - k <= |start.slots| && Matches(env, Stored(env, start, h, k), lat, lon) {
      RecentIsStored(env, start, c, h, k);
      assert SlotMatches(env, c.slots[SlotOf(start, k)], lat, lon);
    }
    if j: nat :| j < |start.slots| && Ahead(start, j) >= |h| && start.slots[j].Some?
                 && Matches(env, start.slots[j].value, lat, lon) {
      assert c.slots[j] == SlotAfter(env, start, h, j);
      assert SlotMatches(env, c.slots[j], lat, lon);
    }
  }

  lemma RecentIsStored(env: Env, start: Cache, c: Cache, h: seq<Update>, k: nat)
    requires Valid(start) && RingHolds(env, start, c, h) && k < |h| && |h| - k <= |c.slots|
    ensures c.slots[SlotOf(start, k)] == Some(Stored(env, start, h, k))
  {
    var n, j := |c.slots|, SlotOf(start, k);
    SlotsInTurn(start, k, j);
    RemainderBelow(k, n);
    LatestUnique(|h|, n, Ahead(start, j), k);
    assert c.slots[j] == SlotAfter(env, start, h, j);
  }

  lemma RemainderBelow(k: nat, n: nat)
    requires n > 0
    ensures k % n <= k
  {
    if k < n {
      SmallRemainder(k, n);
    }
  }

  // ---------- is a stored position found again? ----------

  lemma OwnEntryMatches(env: Env, u: Update, reused: bool)
    requires env.proximity <= 0 && u.lat != ""
    ensures Matches(env, StoredEntry(env, u, reused), u.lat, u.lon) <==> !reused
  {
    assert |Shorten(u.lat)| < |u.lat|;
  }

  lemma RecentWithLast(env: Env, start: Cache, h: seq<Update>, u: Update, lat: string, lon: string)
    requires Valid(start)
    ensures RecentMatches(env, start, h + [u], lat, lon)
            <==> Matches(env, StoredEntry(env, u, Reuses(start, |h|)), lat, lon) || OlderMatches(env, start, h, lat, lon)
  {
    var g, n := h + [u], |start.slots|;
    assert forall k: nat | k < |h| :: Stored(env, start, g, k) == Stored(env, start, h, k);
    assert Stored(env, start, g, |h|) == StoredEntry(env, u, Reuses(start, |h|));
    if k: nat :| k < |g| && |g| - k <= n && Matches(env, Stored(env, start, g, k), lat, lon) {
      if k < |h| {
        assert Matches(env, Stored(env, start, h, k), lat, lon);
      }
    }
    if k: nat :| k < |h| && |h| + 1 - k <= n && Matches(env, Stored(env, start, h, k), lat, lon) {
      assert Matches(env, Stored(env, start, g, k), lat, lon);
    }
    if Matches(env, StoredEntry(env, u, Reuses(start, |h|)), lat, lon) {
      assert Matches(env, Stored(env, start, g, |h|), lat, lon);
    }
  }

  /** One of the updates that one more update leaves in the ring matches. */
  ghost predicate OlderMatches(env: Env, start: Cache, h: seq<Update>, lat: string, lon: string)
    requires Valid(start)
  {
    exists k: nat | k < |h| && |h| + 1 - k <= |start.slots| :: Matches(env, Stored(env, start, h, k), lat, lon)
  }

  lemma HistoryGrows(env: Env, ops: seq<Op>, u: Update)
    requires Accepted(env, u)
    ensures History(env, ops + [Store(u)]) == History(env, ops) + [u]
  {
    assert (ops + [Store(u)])[..|ops|] == ops;
  }

  /**
   With exact comparison, looking up a position right after it was stored succeeds if and only
   if its slot was fresh or an older entry happens to match: reuse drops the last character.
   */
  lemma OwnPositionRecognised(env: Env, start: Cache, used: nat, ops: seq<Op>, u: Update)
    requires Valid(start) && Clean(start, used)
    requires env.proximity <= 0 && u.lat != "" && Accepted(env, u)
    ensures var h := History(env, ops);
            Lookup(env, Run(env, start, ops + [Store(u)]), u.lat, u.lon).0.Some?
            <==> || !Reuses(start, |h|) || OlderMatches(env, start, h, u.lat, u.lon)
                 || KeptMatches(env, start, |h| + 1, u.lat, u.lon)
  {
    var h := History(env, ops);
    HistoryGrows(env, ops, u);
    LookupSearchesRecent(env, start, used, ops + [Store(u)], u.lat, u.lon);
    RecentWithLast(env, start, h, u, u.lat, u.lon);
    OwnEntryMatches(env, u, Reuses(start, |h|));
  }

  /** The same from the empty cache: the ring has not wrapped, or an older update matches. */
  lemma OwnPositionFromEmpty(env: Env, n: nat, ops: seq<Op>, u: Update)
    requires MIN_RING <= n && env.proximity <= 0 && u.lat != "" && Accepted(env, u)
    ensures var h := History(env, ops);
            Lookup(env, Run(env, EmptyCache(n), ops + [Store(u)]), u.lat, u.lon).0.Some?
            <==> || |h| < n
                 || exists k: nat | k < |h| && |h| + 1 - k <= n ::
                      Matches(env, StoredEntry(env, h[k], k >= n), u.lat, u.lon)
  {
    var start, h := EmptyCache(n), History(env, ops);
    EmptyIsClean(n);
    OwnPositionRecognised(env, start, 0, ops, u);
    assert !KeptMatches(env, start, |h| + 1, u.lat, u.lon);
    assert forall k: nat | k < |h| :: Stored(env, start, h, k) == StoredEntry(env, h[k], k >= n);
    if k: nat :| k < |h| && |h| + 1 - k <= n && Matches(env, StoredEntry(env, h[k], k >= n), u.lat, u.lon) {
      assert Matches(env, Stored(env, start, h, k), u.lat, u.lon);
    }
  }

  /** One position stored `n` times, then another: the other is not found. */
  function WrappingRun(n: nat): seq<Op> {
    Repeat(n, Store(Update("10", "10", "first", 0))) + [Store(Update("20", "20", "other", 0))]
  }

  /** For every ring size, a run of one more update than slots after which the last position is not found. */
  lemma ReusedSlotForgets(env: Env, n: nat)
    requires MIN_RING <= n && env.proximity <= 0
    requires InRange(env.atof("10"), env.atof("10")) && InRange(env.atof("20"), env.atof("20"))
    ensures Lookup(env, Run(env, EmptyCache(n), WrappingRun(n)), "20", "20").0 == None
  {
    var one, two := Update("10", "10", "first", 0), Update("20", "20", "other", 0);
    var ops := Repeat(n, Store(one));
    HistoryOfSame(env, one, n);
    OwnPositionFromEmpty(env, n, ops, two);
    var h := History(env, ops);
    forall k: nat | k < |h| ensures !Matches(env, StoredEntry(env, h[k], k >= n), "20", "20") {
      assert h[k] == one;
      assert StoredEntry(env, one, k >= n).lat[0] == '1';
    }
  }

  lemma {:induction false} HistoryOfSame(env: Env, u: Update, n: nat)
    requires Accepted(env, u)
    ensures History(env, Repeat(n, Store(u))) == Repeat(n, u)
  {
    if n > 0 {
      HistoryOfSame(env, u, n - 1);
      assert Repeat(n, Store(u))[..n - 1] == Repeat(n - 1, Store(u));
      assert Repeat(n, u) == Repeat(n - 1, u) + [u];
    }
  }

  // ---------- which address is found ----------

  /** What is left of a text after it was stored. */
  function Left(s: string, reused: bool): string {
    if reused && s != "" then s[..|s| - 1] else s
  }

  /** The position is that of the update: near it, or the same texts if there is no proximity. */
  predicate Hits(env: Env, u: Update, reused: bool, lat: string, lon: string) {
    if env.proximity > 0
    then env.dist(env.atof(lat), env.atof(lon), env.atof(u.lat), env.atof(u.lon)) <= env.proximity as real
    else lat == Left(u.lat, reused) && lon == Left(u.lon, reused)
  }

  predicate HitsEntry(env: Env, e: Entry, lat: string, lon: string) {
    if env.proximity > 0
    then env.dist(env.atof(lat), env.atof(lon), e.dLat, e.dLon) <= env.proximity as real
    else lat == e.lat && lon == e.lon
  }

  lemma StoredHits(env: Env, u: Update, reused: bool, lat: string, lon: string)
    ensures Matches(env, StoredEntry(env, u, reused), lat, lon) <==> Hits(env, u, reused, lat, lon)
    ensures StoredEntry(env, u, reused).addr == Left(u.addr, reused)
  {
  }

  /** The number of the latest update that went to slot `j`. */
  ghost function Writer(start: Cache, h: seq<Update>, j: nat): (k: nat)
    requires Valid(start) && j < |start.slots| && Ahead(start, j) < |h|
    ensures k < |h| && |h| - k <= |start.slots| && SlotOf(start, k) == j
  {
    var k := Latest(|h|, |start.slots|, Ahead(start, j));
    SlotsInTurn(start, k, j);
    k
  }

  /** What slot `j` holds after the updates hits: the latest update that went there, or its entry of the start. */
  ghost predicate SlotHit(env: Env, start: Cache, h: seq<Update>, j: nat, lat: string, lon: string)
    requires Valid(start) && j < |start.slots|
  {
    if Ahead(start, j) < |h| then
      var k := Writer(start, h, j);
      Hits(env, h[k], Reuses(start, k), lat, lon)
    else start.slots[j].Some? && HitsEntry(env, start.slots[j].value, lat, lon)
  }

  /** The address text in slot `j`. */
  ghost function SlotAddress(start: Cache, h: seq<Update>, j: nat): string
    requires Valid(start) && j < |start.slots|
  {
    if Ahead(start, j) < |h| then
      var k := Writer(start, h, j);
      Left(h[k].addr, Reuses(start, k))
    else if start.slots[j].Some? then start.slots[j].value.addr
    else ""
  }

  lemma SlotHitExactly(env: Env, start: Cache, c: Cache, h: seq<Update>, j: nat, lat: string, lon: string)
    requires Valid(start) && RingHolds(env, start, c, h) && j < |c.slots|
    ensures SlotMatches(env, c.slots[j], lat, lon) <==> SlotHit(env, start, h, j, lat, lon)
    ensures c.slots[j].Some? ==> c.slots[j].value.addr == SlotAddress(start, h, j)
  {
    assert c.slots[j] == SlotAfter(env, start, h, j);
    if Ahead(start, j) < |h| {
      var k := Writer(start, h, j);
      StoredHits(env, h[k], Reuses(start, k), lat, lon);
    }
  }

  /** The lowest slot that hits, and what it answers. */
  ghost predicate LowestHit(env: Env, start: Cache, h: seq<Update>, i: nat, lat: string, lon: string)
    requires Valid(start)
  {
    && i < |start.slots| && SlotHit(env, start, h, i, lat, lon)
    && forall j: nat | j < i :: !SlotHit(env, start, h, j, lat, lon)
  }

  /**
   In every run from a clean start a lookup answers exactly if some slot hits, and then with the
   address text of what hits in the lowest such slot: that of an update, whole if its slot was
   fresh and without its last character if it was reused, or that of an entry of the start.
   */
  lemma LookupAnswers(env: Env, start: Cache, used: nat, ops: seq<Op>, i: nat, lat: string, lon: string)
    requires Valid(start) && Clean(start, used)
    ensures var h, found := History(env, ops), Lookup(env, Run(env, start, ops), lat, lon).0;
            && (LowestHit(env, start, h, i, lat, lon) ==> found == Some(SlotAddress(start, h, i)))
            && (found.None? <==> forall j: nat | j < |start.slots| :: !SlotHit(env, start, h, j, lat, lon))
  {
    var c, h := Run(env, start, ops), History(env, ops);
    RunHoldsHistory(env, start, ops);
    LookupSearchesRing(env, start, used, ops, lat, lon);
    RingAnswers(env, start, c, h, Lookup(env, c, lat, lon).0, i, lat, lon);
  }

  lemma RingAnswers(env: Env, start: Cache, c: Cache, h: seq<Update>, found: Option<string>, i: nat, lat: string, lon: string)
    requires Valid(start) && RingHolds(env, start, c, h)
    requires found.None? ==> forall j: nat | j < |c.slots| :: !SlotMatches(env, c.slots[j], lat, lon)
    requires found.Some? ==> exists i: nat | i < |c.slots| ::
               && SlotMatches(env, c.slots[i], lat, lon) && found.value == c.slots[i].value.addr
               && forall j: nat | j < i :: !SlotMatches(env, c.slots[j], lat, lon)
    ensures LowestHit(env, start, h, i, lat, lon) ==> found == Some(SlotAddress(start, h, i))
    ensures found.None? <==> forall j: nat | j < |start.slots| :: !SlotHit(env, start, h, j, lat, lon)
  {
    forall j: nat | j < |c.slots|
      ensures SlotMatches(env, c.slots[j], lat, lon) <==> SlotHit(env, start, h, j, lat, lon)
      ensures c.slots[j].Some? ==> c.slots[j].value.addr == SlotAddress(start, h, j)
    {
      SlotHitExactly(env, start, c, h, j, lat, lon);
    }
    if found.Some? && LowestHit(env, start, h, i, lat, lon) {
      var l: nat :| l < |c.slots| && SlotMatches(env, c.slots[l], lat, lon) && found.value == c.slots[l].value.addr
                    && forall j: nat | j < l :: !SlotMatches(env, c.slots[j], lat, lon);
      assert !(l < i) && !(i < l);
    }
  }

  /**
   With exact comparison, a position stored in a fresh slot is answered with its whole address,
   unless a lower slot hits.
   */
  lemma OwnAddressReturned(env: Env, start: Cache, used: nat, ops: seq<Op>, u: Update)
    requires Valid(start) && Clean(start, used) && env.proximity <= 0 && Accepted(env, u)
    requires var h := History(env, ops);
             && !Reuses(start, |h|)
             && forall j: nat | j < SlotOf(start, |h|) :: !SlotHit(env, start, h + [u], j, u.lat, u.lon)
    ensures Lookup(env, Run(env, start, ops + [Store(u)]), u.lat, u.lon).0 == Some(u.addr)
  {
    var h, i := History(env, ops), SlotOf(start, |History(env, ops)|);
    HistoryGrows(env, ops, u);
    LastWriter(start, h, u, i);
    assert LowestHit(env, start, h + [u], i, u.lat, u.lon);
    LookupAnswers(env, start, used, ops + [Store(u)], i, u.lat, u.lon);
  }

  lemma LastWriter(start: Cache, h: seq<Update>, u: Update, i: nat)
    requires Valid(start) && i == SlotOf(start, |h|)
    ensures Ahead(start, i) < |h + [u]| && Writer(start, h + [u], i) == |h|
  {
    var n := |start.slots|;
    SlotsInTurn(start, |h|, i);
    RemainderBelow(|h|, n);
    LatestUnique(|h| + 1, n, Ahead(start, i), |h|);
  }
}
