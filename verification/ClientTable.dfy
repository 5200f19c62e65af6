/**
 The table of connected clients: the listener fills its slots, command and tracker threads
 free them, and users pick devices from it by the number the listing shows.
 */
module ClientTable {
  import opened Options
  import opened SeqTools

  /** A slot; `thread` is zero when it is free. */
  datatype Client = Client(
    ts: int, socket: int, ip: string, thread: nat, isCmd: bool, devid: nat,
    targetSocket: int, targetDevid: nat, targetIdx: int, targetUsb: int, unicode: bool)

  /** What an exiting thread leaves in its slot. */
  const CLEARED: Client := Client(0, 0, "", 0, false, 0, 0, 0, -1, -1, false)

  function Fresh(now: int, socket: int, ip: string, thread: nat, isCmd: bool): Client {
    Client(now, socket, ip, thread, isCmd, 0, -1, 0, -1, 0, false)
  }

  predicate IsFree(c: Client) {
    c.thread == 0
  }

  function Occupied(cs: seq<Client>): (n: nat)
    ensures n <= |cs|
  {
    if cs == [] then 0
    else Occupied(cs[..|cs| - 1]) + (if IsFree(cs[|cs| - 1]) then 0 else 1)
  }

  function FirstFree(cs: seq<Client>): nat {
    First(cs, IsFree)
  }

  predicate IsDevice(c: Client) {
    !IsFree(c) && !c.isCmd
  }

  predicate Wanted(cmd: bool, c: Client) {
    !IsFree(c) && c.isCmd == cmd
  }

  /** The slots the listing of command connections, or of devices, shows, row by row. */
  function Listing(cmd: bool, cs: seq<Client>): (slots: seq<nat>)
    ensures |slots| <= |cs|
    ensures forall k | 0 <= k < |slots| ::
              slots[k] < |cs| && cs[slots[k]].thread != 0 && cs[slots[k]].isCmd == cmd
  {
    if cs == [] then []
    else
      var n := |cs| - 1;
      Listing(cmd, cs[..n]) + (if Wanted(cmd, cs[n]) then [n] else [])
  }

  /** A row of the printed listing. */
  datatype Row = Row(number: nat, slot: nat, ip: string, ts: int, devid: Option<nat>, marked: bool)

  function RowOf(me: Client, number: nat, slot: nat, c: Client): Row {
    Row(number, slot, c.ip, c.ts, if c.isCmd then None else Some(c.devid),
        if c.isCmd then c.socket == me.socket else c.devid == me.targetDevid)
  }

  class Table {
    var clients: array<Client>
    var numClients: int

    ghost predicate Valid()
      reads this, clients
    {
      numClients == Occupied(clients[..])
    }

    constructor (maxClients: nat)
      ensures Valid() && fresh(clients) && clients.Length == maxClients && numClients == 0
      ensures forall i | 0 <= i < maxClients :: IsFree(clients[i])
    {
      var start := CLEARED.(targetUsb := 0);
      clients := new Client[maxClients](_ => start);
      numClients := 0;
      new;
      AllFree(clients[..]);
    }

    /** The listener with a new connection; `thread` is the thread it would start. */
    method Accept(now: int, socket: int, ip: string, thread: nat, isCmd: bool) returns (accepted: bool)
      requires Valid() && thread != 0
      modifies this, clients
      ensures Valid() && clients == old(clients)
      ensures accepted <==> old(numClients) < clients.Length
      ensures numClients == old(numClients) + (if accepted then 1 else 0)
      ensures var i := FirstFree(old(clients[..]));
              clients[..] == if accepted && i < clients.Length
                             then old(clients[..])[i := Fresh(now, socket, ip, thread, isCmd)] else old(clients[..])
      ensures accepted ==> FirstFree(old(clients[..])) < clients.Length
      ensures accepted ==>
                var c := clients[FirstFree(old(clients[..]))];
                && c.socket == socket && c.ip == ip && c.ts == now && c.thread == thread && c.isCmd == isCmd
                && c.devid == 0 && c.targetDevid == 0 && c.targetSocket == c.targetIdx == -1 && c.targetUsb == 0
    {
      ghost var before := clients[..];
      var i := 0;
      while i < clients.Length && clients[i].thread != 0
        invariant 0 <= i <= clients.Length
        invariant clients[..] == before
        invariant forall j | 0 <= j < i :: !IsFree(before[j])
      {
        i := i + 1;
      }
      FirstIs(before, IsFree, i);
      FullWhenNoneFree(before);
      accepted := i < clients.Length;
      if accepted {
        OccupiedUpdate(before, i, Fresh(now, socket, ip, thread, isCmd));
        clients[i] := Fresh(now, socket, ip, thread, isCmd);
        numClients := numClients + 1;
        assert clients[..] == before[i := clients[i]];
      }
    }

    /** The exit of the command or tracker thread that owns slot `i`. */
    method Release(i: nat)
      requires Valid() && i < clients.Length && !IsFree(clients[i])
      modifies this, clients
      ensures Valid() && clients == old(clients)
      ensures numClients == old(numClients) - 1
      ensures clients[..] == old(clients[..])[i := CLEARED]
      ensures clients[i] == Client(0, 0, "", 0, false, 0, 0, 0, -1, -1, false)
    {
      OccupiedUpdate(clients[..], i, CLEARED);
      ghost var before := clients[..];
      clients[i] := CLEARED;
      numClients := numClients - 1;
      assert clients[..] == before[i := CLEARED];
    }

    /** The listing of command connections or of devices, as seen by client `me`. */
    method List(me: Client, cmd: bool) returns (rows: seq<Row>)
      ensures |rows| == |Listing(cmd, clients[..])|
      ensures forall k | 0 <= k < |rows| ::
                var slot := Listing(cmd, clients[..])[k];
                rows[k] == RowOf(me, k + 1, slot, clients[slot])
      ensures forall k | 0 <= k < |rows| ::
                var c := clients[Listing(cmd, clients[..])[k]];
                && rows[k].number == k + 1 && rows[k].ip == c.ip && rows[k].ts == c.ts
                && rows[k].devid == (if cmd then None else Some(c.devid))
                && rows[k].marked == (if cmd then c.socket == me.socket else c.devid == me.targetDevid)
    {
      rows := [];
      var number := 1;
      for i := 0 to clients.Length
        invariant number == |rows| + 1
        invariant |rows| == |Listing(cmd, clients[..i])|
        invariant forall k | 0 <= k < |rows| ::
                    var slot := Listing(cmd, clients[..i])[k];
                    rows[k] == RowOf(me, k + 1, slot, clients[slot])
      {
        assert clients[..i + 1][..i] == clients[..i];
        var c := clients[i];
        if c.thread != 0 && c.isCmd == cmd {
          rows := rows + [RowOf(me, number, i, c)];
          number := number + 1;
        }
      }
      assert clients[..clients.Length] == clients[..];
    }

    /** Selecting a device by number for the client in slot `me`; -1 goes back to USB. */
    method SetTarget(me: nat, nbr: int) returns (rc: int)
      requires me < clients.Length
      modifies clients
      ensures forall i | 0 <= i < clients.Length && i != me :: clients[i] == old(clients[i])
      ensures nbr == -1 ==>
                rc == 0 && clients[me] == old(clients[me]).(targetSocket := -1, targetDevid := 0, targetIdx := -1)
      ensures nbr != -1 ==> (rc == 0 <==> 1 <= nbr <= |Listing(false, old(clients[..]))|)
      ensures nbr != -1 && rc == 0 ==>
                var slot := Listing(false, old(clients[..]))[nbr - 1];
                clients[me] == old(clients[me]).(targetSocket := old(clients[slot].socket),
                                                 targetDevid := old(clients[slot].devid), targetIdx := slot)
      ensures rc != 0 ==> rc == -1 && clients[..] == old(clients[..])
    {
      if nbr == -1 {
        clients[me] := clients[me].(targetSocket := -1, targetDevid := 0, targetIdx := -1);
        return 0;
      }
      ghost var before := clients[..];
      var count := 0;
      var idx := 0;
      var found := false;
      while idx < clients.Length && !found
        invariant 0 <= idx <= clients.Length
        invariant clients[..] == before
        invariant found ==> idx < |before| && IsDevice(before[idx]) && count == nbr
        invariant count == |Listing(false, before[..if found then idx + 1 else idx])|
        invariant !found ==> nbr <= 0 || count < nbr
        decreases clients.Length - idx, !found
      {
        assert before[..idx + 1][..idx] == before[..idx];
        if clients[idx].thread != 0 && !clients[idx].isCmd {
          count := count + 1;
          found := count == nbr;
        }
        if !found {
          idx := idx + 1;
        }
      }
      if idx >= clients.Length {
        assert before[..idx] == before;
        return -1;
      }
      assert before[..idx + 1][..idx] == before[..idx];
      ListingPrefix(false, before, idx + 1);
      var device := clients[idx];
      clients[me] := clients[me].(targetSocket := device.socket, targetDevid := device.devid, targetIdx := idx);
      rc := 0;
    }
  }

  lemma {:induction false} ListingPrefix(cmd: bool, cs: seq<Client>, n: nat)
    requires n <= |cs|
    ensures Listing(cmd, cs[..n]) <= Listing(cmd, cs)
    decreases |cs|
  {
    if n < |cs| {
      ListingPrefix(cmd, cs[..|cs| - 1], n);
      assert cs[..|cs| - 1][..n] == cs[..n];
    } else {
      assert cs[..n] == cs;
    }
  }

  /** Rows are in slot order, and every wanted slot has exactly one row. */
  lemma {:induction false} ListingIsComplete(cmd: bool, cs: seq<Client>)
    ensures forall j, k | 0 <= j < k < |Listing(cmd, cs)| :: Listing(cmd, cs)[j] < Listing(cmd, cs)[k]
    ensures forall i | 0 <= i < |cs| && cs[i].thread != 0 && cs[i].isCmd == cmd :: i in Listing(cmd, cs)
  {
    if cs != [] {
      ListingIsComplete(cmd, cs[..|cs| - 1]);
    }
  }

  /** The row of a slot is numbered by the wanted slots before it. */
  lemma RowOfSlot(cmd: bool, cs: seq<Client>, i: nat)
    requires i < |cs| && Wanted(cmd, cs[i])
    ensures |Listing(cmd, cs[..i])| < |Listing(cmd, cs)| && Listing(cmd, cs)[|Listing(cmd, cs[..i])|] == i
  {
    ListingPrefix(cmd, cs, i + 1);
    assert cs[..i + 1][..i] == cs[..i];
  }

  /** Each slot shown has one number: the one that counts the slots shown up to it. */
  lemma NumberSelects(cmd: bool, cs: seq<Client>, i: nat, nbr: int)
    requires i < |cs| && Wanted(cmd, cs[i])
    ensures (1 <= nbr <= |Listing(cmd, cs)| && Listing(cmd, cs)[nbr - 1] == i)
            <==> nbr == |Listing(cmd, cs[..i])| + 1
  {
    RowOfSlot(cmd, cs, i);
    ListingIsComplete(cmd, cs);
  }

  lemma {:induction false} OccupiedUpdate(cs: seq<Client>, i: nat, c: Client)
    requires i < |cs|
    ensures Occupied(cs[i := c])
            == Occupied(cs) - (if IsFree(cs[i]) then 0 else 1) + (if IsFree(c) then 0 else 1)
  {
    var n := |cs| - 1;
    if i < n {
      OccupiedUpdate(cs[..n], i, c);
      assert cs[i := c][..n] == cs[..n][i := c];
    } else {
      assert cs[i := c][..n] == cs[..n];
    }
  }

  lemma {:induction false} FullWhenNoneFree(cs: seq<Client>)
    ensures Occupied(cs) == |cs| <==> FirstFree(cs) == |cs|
    ensures Occupied(cs) == |cs| <==> forall i | 0 <= i < |cs| :: !IsFree(cs[i])
  {
    if cs != [] {
      FullWhenNoneFree(cs[..|cs| - 1]);
      assert forall i | 0 <= i < |cs| - 1 :: cs[..|cs| - 1][i] == cs[i];
    }
  }

  lemma {:induction false} AllFree(cs: seq<Client>)
    requires forall i | 0 <= i < |cs| :: IsFree(cs[i])
    ensures Occupied(cs) == 0
  {
    if cs != [] {
      AllFree(cs[..|cs| - 1]);
    }
  }
}
