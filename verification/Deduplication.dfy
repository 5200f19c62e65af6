/**
 Importing a downloaded list of locations: store the batch, then delete every row whose key
 is not the smallest of its (device, time) group.
 */
module Deduplication {
  import opened Options
  import opened CText
  import opened LocationStore

  function Group(r: Row): (int, int) {
    (r.loc.deviceid, r.loc.datetime)
  }

  /** Keys are handed out in increasing order. */
  ghost predicate Keyed(t: Table) {
    && (forall i, j | 0 <= i < j < |t.rows| :: t.rows[i].key < t.rows[j].key)
    && (forall i | 0 <= i < |t.rows| :: t.rows[i].key < t.nextKey)
  }

  /** `k` is selected as the minimal key of some group. */
  predicate IsMinKey(rows: seq<Row>, k: nat) {
    exists j | 0 <= j < |rows| :: rows[j].key == k && LeastOfGroup(rows, rows[j])
  }

  predicate LeastOfGroup(rows: seq<Row>, r: Row) {
    forall m | 0 <= m < |rows| :: Group(rows[m]) == Group(r) ==> r.key <= rows[m].key
  }

  /** The rows of the list whose key is a minimal key of the whole table. */
  function Kept(rows: seq<Row>, all: seq<Row>): seq<Row> {
    if rows == [] then []
    else
      var last := rows[|rows| - 1];
      Kept(rows[..|rows| - 1], all) + (if IsMinKey(all, last.key) then [last] else [])
  }

  /** The deletion statement run after a download. */
  function Dedup(t: Table): Table {
    t.(rows := Kept(t.rows, t.rows))
  }

  function Import(t: Table, locs: seq<Location>): Table {
    if locs == [] then t else Dedup(AppendAll(t, locs))
  }

  /** The storing part of a download: duplicates are looked for only if something was stored. */
  method ImportDownload(db: Database, env: Env, text: string) returns (r: Outcome)
    requires NulFree(text)
    modifies db
    ensures Received(text).Malformed? ==> r == Returned(-1) && db.committed == old(db.committed)
    ensures Received(text).TooLong? ==> r == Overrun && db.committed == old(db.committed)
    ensures Received(text).Read? ==>
              && r == Returned(|Received(text).rs|)
              && db.committed == Import(old(db.committed), Locations(env, Received(text).rs))
  {
    r := db.StoreLocations(env, text);
    if r.Returned? && r.rc > 0 {
      db.committed := Dedup(db.committed);
    }
  }

  // ---------- the first row of each group ----------

  ghost predicate Seen(rows: seq<Row>, g: (int, int)) {
    exists j | 0 <= j < |rows| :: Group(rows[j]) == g
  }

  /** Every row whose group has not occurred before it. */
  ghost function Firsts(rows: seq<Row>): seq<Row> {
    if rows == [] then []
    else
      var front, last := rows[..|rows| - 1], rows[|rows| - 1];
      Firsts(front) + (if Seen(front, Group(last)) then [] else [last])
  }

  ghost predicate DistinctGroups(rows: seq<Row>) {
    forall i, j | 0 <= i < j < |rows| :: Group(rows[i]) != Group(rows[j])
  }

  lemma {:induction false} KeptIsFirsts(t: Table, n: nat)
    requires Keyed(t) && n <= |t.rows|
    ensures Kept(t.rows[..n], t.rows) == Firsts(t.rows[..n])
  {
    if n > 0 {
      KeptIsFirsts(t, n - 1);
      var front, last := t.rows[..n - 1], t.rows[n - 1];
      assert t.rows[..n][..n - 1] == front;
      MinKeyIsFirst(t, n - 1);
    }
  }

  /** A row holds its group's minimal key exactly if its group does not occur before it. */
  lemma MinKeyIsFirst(t: Table, i: nat)
    requires Keyed(t) && i < |t.rows|
    ensures IsMinKey(t.rows, t.rows[i].key) <==> !Seen(t.rows[..i], Group(t.rows[i]))
  {
    var rows, r := t.rows, t.rows[i];
    if IsMinKey(rows, r.key) {
      var j :| 0 <= j < |rows| && rows[j].key == r.key && LeastOfGroup(rows, rows[j]);
      assert !(j < i) && !(i < j);
      forall k | 0 <= k < i ensures Group(rows[..i][k]) != Group(r) {
        assert rows[k].key < r.key;
      }
    }
    if !Seen(rows[..i], Group(r)) {
      forall m | 0 <= m < |rows| && Group(rows[m]) == Group(r) ensures r.key <= rows[m].key {
        NotBefore(rows, i, m);
      }
    }
  }

  lemma NotBefore(rows: seq<Row>, i: nat, m: nat)
    requires i < |rows| && !Seen(rows[..i], Group(rows[i]))
    requires m < |rows| && Group(rows[m]) == Group(rows[i])
    ensures i <= m
  {
    assert forall k: nat | k < i :: rows[..i][k] == rows[k];
  }

  lemma DedupIsFirsts(t: Table)
    requires Keyed(t)
    ensures Dedup(t).rows == Firsts(t.rows)
  {
    KeptIsFirsts(t, |t.rows|);
    assert t.rows[..|t.rows|] == t.rows;
  }

  /** The groups of the remaining rows are distinct, and they are all the groups there were. */
  lemma {:induction false} FirstsGroups(rows: seq<Row>)
    ensures DistinctGroups(Firsts(rows))
    ensures forall g :: Seen(Firsts(rows), g) <==> Seen(rows, g)
  {
    if rows != [] {
      var front, last := rows[..|rows| - 1], rows[|rows| - 1];
      FirstsGroups(front);
      assert rows == front + [last];
      forall g ensures Seen(Firsts(rows), g) <==> Seen(rows, g) {
        SeenPlus(front, last, g);
        SeenPlus(Firsts(front), last, g);
        assert Firsts(rows) == Firsts(front) + (if Seen(front, Group(last)) then [] else [last]);
        assert Firsts(front) + [] == Firsts(front);
      }
      assert !Seen(front, Group(last)) ==> forall i | 0 <= i < |Firsts(front)| :: Group(Firsts(front)[i]) != Group(last);
    }
  }

  lemma SeenPlus(rows: seq<Row>, r: Row, g: (int, int))
    ensures Seen(rows + [r], g) <==> Seen(rows, g) || Group(r) == g
  {
    var all := rows + [r];
    if Seen(rows, g) {
      var j :| 0 <= j < |rows| && Group(rows[j]) == g;
      assert all[j] == rows[j];
    }
    assert all[|rows|] == r;
  }

  /** What is already distinct stays, row for row. */
  lemma {:induction false} FirstsOfDistinct(rows: seq<Row>)
    requires DistinctGroups(rows)
    ensures Firsts(rows) == rows
  {
    if rows != [] {
      FirstsOfDistinct(rows[..|rows| - 1]);
      assert rows == rows[..|rows| - 1] + [rows[|rows| - 1]];
    }
  }

  /** Later rows never displace earlier ones. */
  lemma {:induction false} FirstsExtends(rows: seq<Row>, more: seq<Row>)
    ensures |Firsts(rows)| <= |Firsts(rows + more)| && Firsts(rows + more)[..|Firsts(rows)|] == Firsts(rows)
    ensures (forall j | 0 <= j < |more| :: Seen(rows, Group(more[j]))) ==> Firsts(rows + more) == Firsts(rows)
  {
    if more == [] {
      assert rows + more == rows;
    } else {
      var front, last := more[..|more| - 1], more[|more| - 1];
      assert (rows + more)[..|rows + more| - 1] == rows + front;
      FirstsExtends(rows, front);
      if Seen(rows, Group(last)) {
        var j :| 0 <= j < |rows| && Group(rows[j]) == Group(last);
        assert (rows + front)[j] == rows[j];
      }
    }
  }

  // ---------- what an import does ----------

  lemma AppendKeyed(t: Table, loc: Location)
    requires Keyed(t)
    ensures Keyed(Append(t, loc))
  {
  }

  lemma {:induction false} AppendAllRows(t: Table, locs: seq<Location>)
    requires Keyed(t)
    ensures Keyed(AppendAll(t, locs))
    ensures |AppendAll(t, locs).rows| == |t.rows| + |locs|
    ensures AppendAll(t, locs).rows[..|t.rows|] == t.rows
    ensures forall j | 0 <= j < |locs| :: AppendAll(t, locs).rows[|t.rows| + j].loc == locs[j]
    decreases locs
  {
    if locs != [] {
      var front, last := locs[..|locs| - 1], locs[|locs| - 1];
      var before := AppendAll(t, front);
      AppendAllRows(t, front);
      AppendAllOne(t, front, last);
      assert locs == front + [last];
      AppendKeyed(before, last);
      assert Append(before, last).rows[..|t.rows|] == before.rows[..|t.rows|];
    }
  }

  lemma {:induction false} FirstsKeys(rows: seq<Row>)
    requires forall i, j | 0 <= i < j < |rows| :: rows[i].key < rows[j].key
    ensures forall i, j | 0 <= i < j < |Firsts(rows)| :: Firsts(rows)[i].key < Firsts(rows)[j].key
    ensures forall i | 0 <= i < |Firsts(rows)| :: Firsts(rows)[i] in rows
  {
    if rows != [] {
      FirstsKeys(rows[..|rows| - 1]);
    }
  }

  /** The table an import leaves: its rows are the first of each group of old and new rows. */
  lemma ImportIsFirsts(t: Table, locs: seq<Location>)
    requires Keyed(t) && locs != []
    ensures Keyed(Import(t, locs))
    ensures Import(t, locs).rows == Firsts(AppendAll(t, locs).rows)
    ensures Import(t, locs).nextKey == AppendAll(t, locs).nextKey
  {
    AppendAllRows(t, locs);
    DedupIsFirsts(AppendAll(t, locs));
    FirstsKeys(AppendAll(t, locs).rows);
  }

  /**
   After an import no two rows share device and time, and every group of the old table and of
   the batch is still represented.
   */
  lemma ImportGroups(t: Table, locs: seq<Location>)
    requires Keyed(t) && locs != []
    ensures DistinctGroups(Import(t, locs).rows)
    ensures forall g :: Seen(Import(t, locs).rows, g) <==>
              Seen(t.rows, g) || exists j | 0 <= j < |locs| :: (locs[j].deviceid, locs[j].datetime) == g
  {
    var all := AppendAll(t, locs).rows;
    AppendAllRows(t, locs);
    ImportIsFirsts(t, locs);
    FirstsGroups(all);
    forall g ensures Seen(all, g) <==>
        Seen(t.rows, g) || exists j | 0 <= j < |locs| :: (locs[j].deviceid, locs[j].datetime) == g
    {
      SeenSplit(t, all, locs, g);
    }
  }

  /** The deduplicated old rows are where they were; without old duplicates, all old rows are. */
  lemma ImportKeeps(t: Table, locs: seq<Location>)
    requires Keyed(t) && locs != []
    ensures Firsts(t.rows) <= Import(t, locs).rows
    ensures DistinctGroups(t.rows) ==> t.rows <= Import(t, locs).rows
  {
    var all := AppendAll(t, locs).rows;
    AppendAllRows(t, locs);
    ImportIsFirsts(t, locs);
    assert all == t.rows + all[|t.rows|..];
    FirstsExtends(t.rows, all[|t.rows|..]);
    if DistinctGroups(t.rows) {
      FirstsOfDistinct(t.rows);
    }
  }

  lemma SeenSplit(t: Table, all: seq<Row>, locs: seq<Location>, g: (int, int))
    requires |all| == |t.rows| + |locs| && all[..|t.rows|] == t.rows
    requires forall j | 0 <= j < |locs| :: all[|t.rows| + j].loc == locs[j]
    ensures Seen(all, g) <==>
        Seen(t.rows, g) || exists j | 0 <= j < |locs| :: (locs[j].deviceid, locs[j].datetime) == g
  {
    var n := |t.rows|;
    assert forall i | 0 <= i < n :: all[i] == t.rows[i];
    if Seen(all, g) {
      var i :| 0 <= i < |all| && Group(all[i]) == g;
      if i >= n {
        assert all[n + (i - n)].loc == locs[i - n];
      }
    }
    if Seen(t.rows, g) {
      var i :| 0 <= i < n && Group(t.rows[i]) == g;
      assert Group(all[i]) == g;
    }
    if j :| 0 <= j < |locs| && (locs[j].deviceid, locs[j].datetime) == g {
      assert Group(all[n + j]) == g;
    }
  }

  /** Rows for groups the table already has leave a deduplicated table as it is. */
  lemma ImportOfKnown(t: Table, locs: seq<Location>)
    requires Keyed(t) && DistinctGroups(t.rows)
    requires forall j | 0 <= j < |locs| :: Seen(t.rows, (locs[j].deviceid, locs[j].datetime))
    ensures Import(t, locs).rows == t.rows
  {
    if locs != [] {
      var all := AppendAll(t, locs).rows;
      AppendAllRows(t, locs);
      ImportIsFirsts(t, locs);
      var more := all[|t.rows|..];
      assert all == t.rows + more;
      MoreIsSeen(t, all, locs, more);
      FirstsExtends(t.rows, more);
      FirstsOfDistinct(t.rows);
    }
  }

  lemma MoreIsSeen(t: Table, all: seq<Row>, locs: seq<Location>, more: seq<Row>)
    requires |all| == |t.rows| + |locs| && more == all[|t.rows|..]
    requires forall j | 0 <= j < |locs| :: all[|t.rows| + j].loc == locs[j]
    requires forall j | 0 <= j < |locs| :: Seen(t.rows, (locs[j].deviceid, locs[j].datetime))
    ensures forall j | 0 <= j < |more| :: Seen(t.rows, Group(more[j]))
  {
    forall j | 0 <= j < |more| ensures Seen(t.rows, Group(more[j])) {
      assert more[j] == all[|t.rows| + j] && more[j].loc == locs[j];
    }
  }

  ghost predicate SameGroups(l1: seq<Location>, l2: seq<Location>) {
    |l1| == |l2| && forall j | 0 <= j < |l1| :: l1[j].deviceid == l2[j].deviceid && l1[j].datetime == l2[j].datetime
  }

  /** Importing again what has the same devices and times changes no row. */
  lemma ReimportSameGroups(t: Table, l1: seq<Location>, l2: seq<Location>)
    requires Keyed(t) && l1 != [] && SameGroups(l1, l2)
    ensures Import(Import(t, l1), l2).rows == Import(t, l1).rows
  {
    ImportGroups(t, l1);
    ImportIsFirsts(t, l1);
    var once := Import(t, l1);
    forall j | 0 <= j < |l2| ensures Seen(once.rows, (l2[j].deviceid, l2[j].datetime)) {
      assert (l1[j].deviceid, l1[j].datetime) == (l2[j].deviceid, l2[j].datetime);
    }
    ImportOfKnown(once, l2);
  }

  /**
   Importing the same download twice leaves the rows of importing it once, whatever the clock
   and the addresses found were the second time.
   */
  lemma ReimportChangesNothing(t: Table, first: Env, second: Env, rs: seq<string>)
    requires Keyed(t) && AllValid(rs) && rs != []
    ensures var once := Import(t, Locations(first, rs));
            Import(once, Locations(second, rs)).rows == once.rows
  {
    var l1, l2 := Locations(first, rs), Locations(second, rs);
    forall j | 0 <= j < |rs| ensures l1[j].deviceid == l2[j].deviceid && l1[j].datetime == l2[j].datetime {
      LocationsAt(first, rs, j);
      LocationsAt(second, rs, j);
    }
    ReimportSameGroups(t, l1, l2);
  }
}
