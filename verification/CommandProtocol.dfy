/**
 The GPRS command/reply protocol as a step system.  Command threads draw a tag, claim a
 queue slot, send, and poll; tracker threads find the slot a reply belongs to and then
 write through the slot pointer.  Finding and writing are separate steps, as they are in
 the program, where no lock is held across them.
 */
module CommandProtocol {
  import opened Options
  import opened Numbers
  import opened SeqTools
  import opened CommandQueue

  type Thread = int

  /** Where a command thread is. */
  datatype Phase =
    | Idle
    | Holding(draw: nat, tag: string)
    | Waiting(idx: nat, devid: nat, cmd: string, draw: nat, tag: string)

  /** A tracker thread between finding a slot and writing to it. */
  datatype Note = Note(idx: nat, epoch: nat, devid: nat, mem: string)

  datatype Source = Source(devid: nat, mem: string)

  /**
   `slots` and `tagNumber` are the shared memory, `phase` and `notes` the thread-local
   state.  The rest is history: who drew each tag, which draw claims each slot, how often
   each slot has been cleared, and where the reply now stored in it came from.
   */
  datatype World = World(
    slots: seq<Slot>, tagNumber: nat,
    phase: map<Thread, Phase>, notes: map<Thread, Note>,
    drawers: seq<Thread>, claims: seq<Option<nat>>, epochs: seq<nat>, sources: seq<Option<Source>>)

  datatype Event =
    | Draw(t: Thread)
    | Drop(t: Thread)
    | Insert(t: Thread, userSock: int, devid: nat, cmd: string, now: nat)
    | Refuse(t: Thread, cmd: string)
    | Abandon(t: Thread)
    | Collect(t: Thread)
    | Expire(t: Thread)
    | Find(k: Thread, devid: nat, mem: string)
    | Store(k: Thread)

  ghost const START: World := World(
    Repeat(QUEUE_LEN, EMPTY_SLOT), 0, map[], map[], [],
    Repeat(QUEUE_LEN, None), Repeat(QUEUE_LEN, 0), Repeat(QUEUE_LEN, None))

  ghost function PhaseOf(w: World, t: Thread): Phase {
    if t in w.phase then w.phase[t] else Idle
  }

  ghost predicate Shape(w: World) {
    && |w.slots| == |w.claims| == |w.epochs| == |w.sources| == QUEUE_LEN
    && w.tagNumber == |w.drawers| % TAG_COUNT
    && (forall t | t in w.phase && w.phase[t].Waiting? :: w.phase[t].idx < QUEUE_LEN)
    && (forall k | k in w.notes :: w.notes[k].idx < QUEUE_LEN)
  }

  ghost predicate Enabled(w: World, e: Event) {
    && Shape(w)
    && match e
       case Draw(t) => PhaseOf(w, t).Idle?
       case Drop(t) => PhaseOf(w, t).Holding?
       case Insert(t, _, _, cmd, now) =>
         PhaseOf(w, t).Holding? && now > 0 && Insertable(w.slots, PhaseOf(w, t).tag, cmd)
       case Refuse(t, cmd) => PhaseOf(w, t).Holding? && !Insertable(w.slots, PhaseOf(w, t).tag, cmd)
       case Abandon(t) => PhaseOf(w, t).Waiting?
       case Collect(t) => PhaseOf(w, t).Waiting? && w.slots[PhaseOf(w, t).idx].valid
       case Expire(t) => PhaseOf(w, t).Waiting?
       case Find(k, devid, mem) =>
         && k !in w.notes && ReplyTag(devid, mem).Some?
         && MatchIndex(w.slots, devid, ReplyTag(devid, mem).value) < QUEUE_LEN
       case Store(k) => k in w.notes
  }

  /** What clearing slot `i` by its waiter `t` does. */
  ghost function AfterClear(w: World, t: Thread, i: nat): World
    requires Shape(w) && i < QUEUE_LEN
  {
    w.(slots := Cleared(w.slots, i), phase := w.phase[t := Idle],
       claims := w.claims[i := None], epochs := w.epochs[i := w.epochs[i] + 1],
       sources := w.sources[i := None])
  }

  ghost function Next(w: World, e: Event): World
    requires Enabled(w, e)
  {
    match e
    case Draw(t) =>
      var tagNumber := (w.tagNumber + 1) % TAG_COUNT;
      w.(tagNumber := tagNumber, drawers := w.drawers + [t],
         phase := w.phase[t := Holding(|w.drawers| + 1, FormatTag(tagNumber))])
    case Drop(t) => w.(phase := w.phase[t := Idle])
    case Insert(t, userSock, devid, cmd, now) =>
      var Holding(draw, tag) := PhaseOf(w, t);
      var i := FirstFree(w.slots);
      w.(slots := Inserted(w.slots, userSock, devid, tag, cmd, now),
         phase := w.phase[t := Waiting(i, devid, cmd, draw, tag)],
         claims := w.claims[i := Some(draw)])
    case Refuse(t, _) => w.(phase := w.phase[t := Idle])
    case Abandon(t) => w.(phase := w.phase[t := Idle])
    case Collect(t) => AfterClear(w, t, PhaseOf(w, t).idx)
    case Expire(t) => AfterClear(w, t, PhaseOf(w, t).idx)
    case Find(k, devid, mem) =>
      var i := MatchIndex(w.slots, devid, ReplyTag(devid, mem).value);
      w.(notes := w.notes[k := Note(i, w.epochs[i], devid, mem)])
    case Store(k) =>
      var n := w.notes[k];
      w.(slots := Answered(w.slots, n.idx, n.mem),
         sources := w.sources[n.idx := Some(Source(n.devid, n.mem))],
         notes := w.notes - {k})
  }

  /** `ws` is the history of states of the run that performs `es`. */
  ghost predicate IsRun(ws: seq<World>, es: seq<Event>) {
    && |ws| == |es| + 1 && ws[0] == START
    && forall i | 0 <= i < |es| :: StepAt(ws, es, i)
  }

  ghost predicate StepAt(ws: seq<World>, es: seq<Event>, i: int) {
    && 0 <= i < |es| && i + 1 < |ws|
    && Enabled(ws[i], es[i]) && ws[i + 1] == Next(ws[i], es[i])
  }

  // ---------- the invariant of every run ----------

  ghost predicate DrawnBy(w: World, t: Thread, draw: nat, tag: string) {
    && 1 <= draw <= |w.drawers| && w.drawers[draw - 1] == t
    && tag == FormatTag(draw % TAG_COUNT)
  }

  ghost predicate ClaimOk(w: World, i: nat)
    requires Shape(w) && i < QUEUE_LEN
  {
    match w.claims[i]
    case None => IsFree(w.slots[i])
    case Some(draw) =>
      && 1 <= draw <= |w.drawers| && !IsFree(w.slots[i])
      && w.slots[i].tag == FormatTag(draw % TAG_COUNT)
  }

  ghost predicate PhaseOk(w: World, t: Thread)
    requires Shape(w)
  {
    match PhaseOf(w, t)
    case Idle => true
    case Holding(draw, tag) => DrawnBy(w, t, draw, tag) && Unclaimed(w, draw)
    case Waiting(idx, devid, cmd, draw, tag) =>
      && DrawnBy(w, t, draw, tag) && idx < QUEUE_LEN && w.claims[idx] == Some(draw)
      && w.slots[idx].devid == devid && w.slots[idx].tag == tag && w.slots[idx].cmd == cmd
  }

  ghost predicate Unclaimed(w: World, draw: nat) {
    forall i | 0 <= i < |w.claims| :: w.claims[i] != Some(draw)
  }

  ghost predicate ClaimsDistinct(w: World) {
    forall i, j | 0 <= i < j < |w.claims| && w.claims[i].Some? && w.claims[j].Some? ::
      w.claims[i] != w.claims[j]
  }

  ghost predicate Inv(w: World) {
    && Shape(w)
    && (forall i: nat | i < QUEUE_LEN :: ClaimOk(w, i))
    && (forall t :: PhaseOk(w, t))
    && ClaimsDistinct(w)
    && (forall k | k in w.notes :: w.notes[k].epoch <= w.epochs[w.notes[k].idx])
  }

  lemma StartInv()
    ensures Inv(START)
  {
    assert forall t :: PhaseOf(START, t).Idle?;
  }

  lemma NextTag(n: nat)
    ensures (n % TAG_COUNT + 1) % TAG_COUNT == (n + 1) % TAG_COUNT
  {
  }

  lemma DrawShape(w: World, t: Thread)
    requires Inv(w) && Enabled(w, Draw(t))
    ensures Shape(Next(w, Draw(t)))
    ensures var v := Next(w, Draw(t)); PhaseOf(v, t) == Holding(|w.drawers| + 1, FormatTag((|w.drawers| + 1) % TAG_COUNT))
  {
    NextTag(|w.drawers|);
  }

  lemma DrawKeepsPhase(w: World, t: Thread, u: Thread)
    requires Inv(w) && Enabled(w, Draw(t)) && Shape(Next(w, Draw(t)))
    ensures PhaseOk(Next(w, Draw(t)), u)
  {
    var v := Next(w, Draw(t));
    if u == t {
      DrawShape(w, t);
      forall i | 0 <= i < QUEUE_LEN ensures v.claims[i] != Some(|w.drawers| + 1) {
        assert ClaimOk(w, i);
      }
    } else {
      assert PhaseOk(w, u) && PhaseOf(v, u) == PhaseOf(w, u);
    }
  }

  lemma DrawKeepsClaim(w: World, t: Thread, i: nat)
    requires Inv(w) && Enabled(w, Draw(t)) && Shape(Next(w, Draw(t))) && i < QUEUE_LEN
    ensures ClaimOk(Next(w, Draw(t)), i)
  {
    assert ClaimOk(w, i);
  }

  lemma DrawKeeps(w: World, t: Thread)
    requires Inv(w) && Enabled(w, Draw(t))
    ensures Inv(Next(w, Draw(t)))
  {
    var v := Next(w, Draw(t));
    DrawShape(w, t);
    forall i: nat | i < QUEUE_LEN ensures ClaimOk(v, i) {
      DrawKeepsClaim(w, t, i);
    }
    forall u ensures PhaseOk(v, u) {
      DrawKeepsPhase(w, t, u);
    }
  }

  lemma LeaveKeeps(w: World, t: Thread)
    requires Inv(w)
    ensures Inv(w.(phase := w.phase[t := Idle]))
  {
    var v := w.(phase := w.phase[t := Idle]);
    forall i: nat | i < QUEUE_LEN ensures ClaimOk(v, i) {
      assert ClaimOk(w, i);
    }
    forall u ensures PhaseOk(v, u) {
      assert PhaseOk(w, u);
    }
  }

  lemma InsertShape(w: World, e: Event)
    requires Inv(w) && e.Insert? && Enabled(w, e)
    ensures Shape(Next(w, e))
    ensures FirstFree(w.slots) < QUEUE_LEN && w.claims[FirstFree(w.slots)] == None
  {
    assert ClaimOk(w, FirstFree(w.slots));
  }

  lemma InsertKeepsClaim(w: World, e: Event, j: nat)
    requires Inv(w) && e.Insert? && Enabled(w, e) && Shape(Next(w, e)) && j < QUEUE_LEN
    ensures ClaimOk(Next(w, e), j)
  {
    assert ClaimOk(w, j) && PhaseOk(w, e.t);
  }

  lemma InsertKeepsPhase(w: World, e: Event, u: Thread)
    requires Inv(w) && e.Insert? && Enabled(w, e) && Shape(Next(w, e))
    ensures PhaseOk(Next(w, e), u)
  {
    InsertShape(w, e);
    assert PhaseOk(w, u) && PhaseOk(w, e.t);
    if u != e.t {
      assert PhaseOf(Next(w, e), u) == PhaseOf(w, u);
      if PhaseOf(w, u).Holding? {
        HoldersDiffer(w, e.t, u);
      }
    }
  }

  /** No two threads hold the same draw. */
  lemma HoldersDiffer(w: World, t: Thread, u: Thread)
    requires Shape(w) && PhaseOk(w, t) && PhaseOk(w, u) && t != u
    requires PhaseOf(w, t).Holding? && PhaseOf(w, u).Holding?
    ensures PhaseOf(w, t).draw != PhaseOf(w, u).draw
  {
  }

  lemma InsertKeepsDistinct(w: World, e: Event)
    requires Inv(w) && e.Insert? && Enabled(w, e)
    ensures ClaimsDistinct(Next(w, e))
  {
    assert PhaseOk(w, e.t);
  }

  lemma InsertKeeps(w: World, e: Event)
    requires Inv(w) && e.Insert? && Enabled(w, e)
    ensures Inv(Next(w, e))
  {
    var v := Next(w, e);
    InsertShape(w, e);
    InsertKeepsDistinct(w, e);
    forall j: nat | j < QUEUE_LEN ensures ClaimOk(v, j) {
      InsertKeepsClaim(w, e, j);
    }
    forall u ensures PhaseOk(v, u) {
      InsertKeepsPhase(w, e, u);
    }
  }

  lemma ClearKeeps(w: World, t: Thread)
    requires Inv(w) && PhaseOf(w, t).Waiting?
    ensures Inv(AfterClear(w, t, PhaseOf(w, t).idx))
  {
    var i := PhaseOf(w, t).idx;
    var v := AfterClear(w, t, i);
    assert PhaseOk(w, t);
    forall j: nat | j < QUEUE_LEN ensures ClaimOk(v, j) {
      assert ClaimOk(w, j);
    }
    forall u ensures PhaseOk(v, u) {
      assert PhaseOk(w, u);
    }
  }

  lemma TrackerKeeps(w: World, e: Event)
    requires Inv(w) && Enabled(w, e) && (e.Find? || e.Store?)
    ensures Inv(Next(w, e))
  {
    var v := Next(w, e);
    forall i: nat | i < QUEUE_LEN ensures ClaimOk(v, i) {
      assert ClaimOk(w, i);
    }
    forall u ensures PhaseOk(v, u) {
      assert PhaseOk(w, u);
    }
  }

  lemma StepKeeps(w: World, e: Event)
    requires Inv(w) && Enabled(w, e)
    ensures Inv(Next(w, e))
  {
    match e
    case Draw(t) => DrawKeeps(w, t);
    case Drop(t) => LeaveKeeps(w, t);
    case Insert(_, _, _, _, _) => InsertKeeps(w, e);
    case Refuse(t, _) => LeaveKeeps(w, t);
    case Abandon(t) => LeaveKeeps(w, t);
    case Collect(t) => ClearKeeps(w, t);
    case Expire(t) => ClearKeeps(w, t);
    case Find(_, _, _) => TrackerKeeps(w, e);
    case Store(_) => TrackerKeeps(w, e);
  }

  /** The invariant holds in every state of every run. */
  lemma {:induction false} RunInv(ws: seq<World>, es: seq<Event>, n: nat)
    requires IsRun(ws, es) && n < |ws|
    ensures Inv(ws[n])
  {
    if n == 0 {
      StartInv();
    } else {
      RunInv(ws, es, n - 1);
      assert StepAt(ws, es, n - 1);
      StepKeeps(ws[n - 1], es[n - 1]);
    }
  }
}
