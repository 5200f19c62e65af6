/**
 What holds in every run of the command/reply protocol.
 */
module CommandRuns {
  import opened Options
  import opened CText
  import opened Numbers
  import opened SeqTools
  import opened CommandQueue
  import opened CommandProtocol

  // ---------- slots belong to their waiters ----------

  /** Distinct waiting commands own distinct slots. */
  lemma WaitersOwnDistinctSlots(ws: seq<World>, es: seq<Event>, n: nat, t: Thread, u: Thread)
    requires IsRun(ws, es) && n < |ws| && t != u
    requires PhaseOf(ws[n], t).Waiting? && PhaseOf(ws[n], u).Waiting?
    ensures PhaseOf(ws[n], t).idx != PhaseOf(ws[n], u).idx
  {
    RunInv(ws, es, n);
    assert PhaseOk(ws[n], t) && PhaseOk(ws[n], u);
  }

  /** The part of a slot that identifies the command in it. */
  function Identity(s: Slot): (int, nat, nat, string, string) {
    (s.userSock, s.devid, s.ts, s.tag, s.cmd)
  }

  /** Is `e` a clearing of slot `i` by the thread that waits on it? */
  ghost predicate ClearsSlot(w: World, e: Event, i: nat) {
    (e.Collect? || e.Expire?) && PhaseOf(w, e.t).Waiting? && PhaseOf(w, e.t).idx == i
  }

  lemma StepKeepsIdentity(w: World, e: Event, i: nat)
    requires Inv(w) && Enabled(w, e) && i < QUEUE_LEN && w.claims[i].Some?
    requires !ClearsSlot(w, e, i)
    ensures Identity(Next(w, e).slots[i]) == Identity(w.slots[i])
    ensures Next(w, e).claims[i] == w.claims[i]
  {
    assert ClaimOk(w, i);
  }

  /**
   Between its insertion and the clearing by its own waiter, a slot's socket, device, tag,
   command and claim do not change, whatever the other threads do.
   */
  lemma {:induction false} SlotStable(ws: seq<World>, es: seq<Event>, m: nat, n: nat, i: nat)
    requires IsRun(ws, es) && m <= n < |ws| && i < QUEUE_LEN
    requires |ws[m].claims| == QUEUE_LEN && ws[m].claims[i].Some?
    requires forall j | m <= j < n :: !ClearsSlot(ws[j], es[j], i)
    ensures |ws[m].slots| == |ws[n].slots| == |ws[n].claims| == QUEUE_LEN
    ensures Identity(ws[n].slots[i]) == Identity(ws[m].slots[i]) && ws[n].claims[i] == ws[m].claims[i]
    decreases n
  {
    RunInv(ws, es, n);
    if m < n {
      var w, e := ws[n - 1], es[n - 1];
      SlotStable(ws, es, m, n - 1, i);
      RunInv(ws, es, n - 1);
      assert StepAt(ws, es, n - 1);
      StepKeepsIdentity(w, e, i);
    }
  }

  /** Nobody waits on slot `i`, yet it is occupied: its command's write to the device failed. */
  ghost predicate Orphan(w: World, i: nat)
    requires |w.claims| == QUEUE_LEN && i < QUEUE_LEN
  {
    w.claims[i].Some? && forall t :: PhaseOf(w, t).Waiting? ==> PhaseOf(w, t).idx != i
  }

  lemma StepKeepsOrphan(w: World, e: Event, i: nat)
    requires Inv(w) && Enabled(w, e) && i < QUEUE_LEN && Orphan(w, i)
    ensures Orphan(Next(w, e), i) && Identity(Next(w, e).slots[i]) == Identity(w.slots[i])
  {
    StepKeepsIdentity(w, e, i);
    assert ClaimOk(w, i);
    var v := Next(w, e);
    forall t | PhaseOf(v, t).Waiting? ensures PhaseOf(v, t).idx != i {
      if e.Insert? && e.t == t {
        assert FirstFree(w.slots) != i;
      } else {
        assert PhaseOf(v, t) == PhaseOf(w, t);
      }
    }
  }

  /** A slot abandoned by a failed write stays occupied in every later state. */
  lemma {:induction false} OrphanForever(ws: seq<World>, es: seq<Event>, m: nat, n: nat, i: nat)
    requires IsRun(ws, es) && m <= n < |ws| && i < QUEUE_LEN
    requires |ws[m].claims| == QUEUE_LEN && Orphan(ws[m], i)
    ensures |ws[n].claims| == |ws[n].slots| == |ws[m].slots| == QUEUE_LEN
    ensures Orphan(ws[n], i) && !IsFree(ws[n].slots[i])
    ensures Identity(ws[n].slots[i]) == Identity(ws[m].slots[i])
    decreases n
  {
    RunInv(ws, es, n);
    assert ClaimOk(ws[n], i);
    if m < n {
      var w, e := ws[n - 1], es[n - 1];
      OrphanForever(ws, es, m, n - 1, i);
      RunInv(ws, es, n - 1);
      assert StepAt(ws, es, n - 1);
      StepKeepsOrphan(w, e, i);
    }
  }

  /** Once every slot has been abandoned, no command is ever queued again. */
  lemma OrphansBlockQueue(ws: seq<World>, es: seq<Event>, m: nat, n: nat, tag: string, cmd: string)
    requires IsRun(ws, es) && m <= n < |ws|
    requires |ws[m].claims| == QUEUE_LEN && forall i: nat | i < QUEUE_LEN :: Orphan(ws[m], i)
    ensures !Insertable(ws[n].slots, tag, cmd)
  {
    RunInv(ws, es, n);
    forall i: nat | i < QUEUE_LEN ensures !IsFree(ws[n].slots[i]) {
      OrphanForever(ws, es, m, n, i);
    }
    FirstIs(ws[n].slots, s => IsFree(s), QUEUE_LEN);
  }

  // ---------- a live tag names one command ----------

  /** Every occupied slot is younger than one full cycle of the tag counter. */
  ghost predicate YoungClaims(w: World) {
    forall i | 0 <= i < |w.claims| && w.claims[i].Some? :: |w.drawers| - w.claims[i].value < TAG_COUNT
  }

  lemma SameTagSameCycle(m: nat, n: nat, total: nat)
    requires m <= total && n <= total && total - m < TAG_COUNT && total - n < TAG_COUNT
    requires m % TAG_COUNT == n % TAG_COUNT
    ensures m == n
  {
    var q, r := m / TAG_COUNT, n / TAG_COUNT;
    assert m - n == TAG_COUNT * (q - r);
  }

  /** At most one occupied slot carries a given tag, abandoned slots included. */
  lemma LiveTagsUnique(w: World, i: nat, j: nat)
    requires Inv(w) && YoungClaims(w) && i < QUEUE_LEN && j < QUEUE_LEN
    requires w.claims[i].Some? && w.claims[j].Some? && w.slots[i].tag == w.slots[j].tag
    ensures i == j
  {
    assert ClaimOk(w, i) && ClaimOk(w, j);
    var m, n := w.claims[i].value, w.claims[j].value;
    FormatTagInjective(m % TAG_COUNT, n % TAG_COUNT);
    SameTagSameCycle(m, n, |w.drawers|);
    assert m == n && w.claims[i] == w.claims[j];
  }

  /**
   In every run: while no claim is a tag cycle old, the first match for a tagged reply from
   the device is the slot of the command that sent this tag to this device, so finding and
   storing the reply changes that slot and no other.
   */
  lemma TaggedReplyReachesItsSender(ws: seq<World>, es: seq<Event>, n: nat, t: Thread, k: Thread, mem: string)
    requires IsRun(ws, es) && n < |ws| && YoungClaims(ws[n])
    requires PhaseOf(ws[n], t).Waiting? && PhaseOf(ws[n], t).devid != 0
    requires k !in ws[n].notes && ReplyTag(PhaseOf(ws[n], t).devid, mem) == Some(PhaseOf(ws[n], t).tag)
    ensures var w := ws[n]; var p := PhaseOf(w, t);
            && Enabled(w, Find(k, p.devid, mem))
            && var found := Next(w, Find(k, p.devid, mem));
            && Enabled(found, Store(k))
            && Next(found, Store(k)).slots == Answered(w.slots, p.idx, mem)
  {
    var w := ws[n];
    RunInv(ws, es, n);
    var Waiting(idx, devid, cmd, draw, tag) := PhaseOf(w, t);
    assert PhaseOk(w, t) && ClaimOk(w, idx);
    assert Answers(w.slots[idx], devid, tag);
    forall j | 0 <= j < idx ensures !Answers(w.slots[j], devid, tag) {
      assert ClaimOk(w, j);
      if Answers(w.slots[j], devid, tag) {
        assert tag != "";
        LiveTagsUnique(w, idx, j);
      }
    }
    FirstIs(w.slots, s => Answers(s, devid, tag), idx);
  }

  /** Two occupied slots carry the same tag exactly if their draws are whole tag cycles apart. */
  lemma SharedTagExactly(w: World, i: nat, j: nat)
    requires Inv(w) && i < QUEUE_LEN && j < QUEUE_LEN && w.claims[i].Some? && w.claims[j].Some?
    ensures w.slots[i].tag == w.slots[j].tag
            <==> w.claims[i].value % TAG_COUNT == w.claims[j].value % TAG_COUNT
  {
    assert ClaimOk(w, i) && ClaimOk(w, j);
    if w.slots[i].tag == w.slots[j].tag {
      FormatTagInjective(w.claims[i].value % TAG_COUNT, w.claims[j].value % TAG_COUNT);
    }
  }

  /** Slot `j` is claimed for the device, by a draw that is whole tag cycles away. */
  ghost predicate Shadows(w: World, j: nat, devid: nat, draw: nat)
    requires Shape(w) && j < QUEUE_LEN
  {
    && w.claims[j].Some? && w.slots[j].devid == devid
    && w.claims[j].value % TAG_COUNT == draw % TAG_COUNT
  }

  ghost predicate Shadowed(w: World, idx: nat, devid: nat, draw: nat)
    requires Shape(w) && idx < QUEUE_LEN
  {
    exists j: nat | j < idx :: Shadows(w, j, devid, draw)
  }

  /**
   In every run, a tagged reply to a waiting command is matched to the command's own slot if
   and only if no lower slot for the device was claimed whole tag cycles before or after it.
   */
  lemma ReplyReachesSenderExactly(ws: seq<World>, es: seq<Event>, n: nat, t: Thread)
    requires IsRun(ws, es) && n < |ws| && PhaseOf(ws[n], t).Waiting? && PhaseOf(ws[n], t).devid != 0
    ensures Shape(ws[n]) && PhaseOf(ws[n], t).idx < QUEUE_LEN
    ensures var p := PhaseOf(ws[n], t);
            MatchIndex(ws[n].slots, p.devid, p.tag) == p.idx <==> !Shadowed(ws[n], p.idx, p.devid, p.draw)
  {
    var w := ws[n];
    RunInv(ws, es, n);
    var Waiting(idx, devid, cmd, draw, tag) := PhaseOf(w, t);
    assert PhaseOk(w, t) && ClaimOk(w, idx);
    assert Answers(w.slots[idx], devid, tag);
    forall j: nat | j < idx ensures Answers(w.slots[j], devid, tag) <==> Shadows(w, j, devid, draw) {
      assert ClaimOk(w, j) && tag != "";
      if w.claims[j].Some? {
        SharedTagExactly(w, j, idx);
      }
    }
    if !Shadowed(w, idx, devid, draw) {
      FirstIs(w.slots, s => Answers(s, devid, tag), idx);
    } else {
      var j: nat :| j < idx && Shadows(w, j, devid, draw);
      assert Answers(w.slots[j], devid, tag);
    }
  }

  /** An untagged reply goes to the lowest slot of the device, whoever waits there. */
  lemma UntaggedReplyGoesLowest(w: World, k: Thread, devid: nat, mem: string)
    requires Inv(w) && Enabled(w, Find(k, devid, mem)) && ReplyTag(devid, mem) == Some("")
    ensures var i := Next(w, Find(k, devid, mem)).notes[k].idx;
            && w.slots[i].devid == devid != 0
            && forall j | 0 <= j < i :: w.slots[j].devid != devid
  {
    var i := MatchIndex(w.slots, devid, "");
    forall j | 0 <= j < i ensures w.slots[j].devid != devid {
      assert !Answers(w.slots[j], devid, "");
    }
  }

  // ---------- where a stored reply comes from ----------

  /** No write goes through a slot pointer after the slot it was found in has been cleared. */
  ghost predicate Undisturbed(ws: seq<World>, es: seq<Event>)
    requires IsRun(ws, es)
  {
    forall i | 0 <= i < |es| && es[i].Store? && es[i].k in ws[i].notes ::
      UpToDate(ws[i], ws[i].notes[es[i].k])
  }

  ghost predicate UpToDate(w: World, n: Note) {
    n.idx < |w.epochs| && w.epochs[n.idx] == n.epoch
  }

  ghost predicate FitsSlot(s: Slot, devid: nat, mem: string) {
    && s.devid == devid != 0
    && (ReplyTag(devid, mem) == Some("") || ReplyTag(devid, mem) == Some(s.tag))
  }

  ghost predicate SourceOk(w: World, i: nat)
    requires Shape(w) && i < QUEUE_LEN
  {
    w.slots[i].valid ==>
      && w.claims[i].Some? && w.sources[i].Some?
      && FitsSlot(w.slots[i], w.sources[i].value.devid, w.sources[i].value.mem)
      && w.slots[i].reply == Clip(CStr(w.sources[i].value.mem), MAX_REPLY)
  }

  ghost predicate NoteOk(w: World, k: Thread)
    requires Shape(w) && k in w.notes
  {
    var n := w.notes[k];
    UpToDate(w, n) ==> w.claims[n.idx].Some? && FitsSlot(w.slots[n.idx], n.devid, n.mem)
  }

  ghost predicate SourceInv(w: World) {
    && Shape(w)
    && (forall i: nat | i < QUEUE_LEN :: SourceOk(w, i))
    && (forall k | k in w.notes :: NoteOk(w, k))
  }

  lemma InsertKeepsSources(w: World, e: Event)
    requires Inv(w) && SourceInv(w) && e.Insert? && Enabled(w, e)
    ensures SourceInv(Next(w, e))
  {
    var v := Next(w, e);
    StepKeeps(w, e);
    var f := FirstFree(w.slots);
    assert ClaimOk(w, f) && SourceOk(w, f) && !w.slots[f].valid;
    forall i: nat | i < QUEUE_LEN ensures SourceOk(v, i) {
      assert SourceOk(w, i);
    }
    forall k | k in v.notes ensures NoteOk(v, k) {
      assert NoteOk(w, k);
    }
  }

  lemma ClearKeepsSources(w: World, t: Thread)
    requires Inv(w) && SourceInv(w) && PhaseOf(w, t).Waiting?
    ensures SourceInv(AfterClear(w, t, PhaseOf(w, t).idx))
  {
    var v := AfterClear(w, t, PhaseOf(w, t).idx);
    forall i: nat | i < QUEUE_LEN ensures SourceOk(v, i) {
      assert SourceOk(w, i);
    }
    forall k | k in v.notes ensures NoteOk(v, k) {
      assert NoteOk(w, k);
    }
  }

  lemma FindKeepsSources(w: World, e: Event)
    requires Inv(w) && SourceInv(w) && e.Find? && Enabled(w, e)
    ensures SourceInv(Next(w, e))
  {
    var v := Next(w, e);
    var f := MatchIndex(w.slots, e.devid, ReplyTag(e.devid, e.mem).value);
    assert ClaimOk(w, f) && Answers(w.slots[f], e.devid, ReplyTag(e.devid, e.mem).value);
    forall i: nat | i < QUEUE_LEN ensures SourceOk(v, i) {
      assert SourceOk(w, i);
    }
    forall k | k in v.notes ensures NoteOk(v, k) {
      if k != e.k {
        assert NoteOk(w, k);
      }
    }
  }

  lemma StoreKeepsSources(w: World, e: Event)
    requires Inv(w) && SourceInv(w) && e.Store? && Enabled(w, e) && UpToDate(w, w.notes[e.k])
    ensures SourceInv(Next(w, e))
  {
    var v := Next(w, e);
    assert NoteOk(w, e.k);
    forall i: nat | i < QUEUE_LEN ensures SourceOk(v, i) {
      assert SourceOk(w, i);
    }
    forall k | k in v.notes ensures NoteOk(v, k) {
      assert NoteOk(w, k);
    }
  }

  lemma LocalStepKeepsSources(w: World, e: Event)
    requires Inv(w) && SourceInv(w) && Enabled(w, e)
    requires e.Draw? || e.Drop? || e.Refuse? || e.Abandon?
    ensures SourceInv(Next(w, e))
  {
    StepKeeps(w, e);
    var v := Next(w, e);
    forall i: nat | i < QUEUE_LEN ensures SourceOk(v, i) {
      assert SourceOk(w, i);
    }
    forall k | k in v.notes ensures NoteOk(v, k) {
      assert NoteOk(w, k);
    }
  }

  lemma StepKeepsSources(w: World, e: Event)
    requires Inv(w) && SourceInv(w) && Enabled(w, e)
    requires e.Store? ==> UpToDate(w, w.notes[e.k])
    ensures SourceInv(Next(w, e))
  {
    match e
    case Insert(_, _, _, _, _) => InsertKeepsSources(w, e);
    case Collect(t) => ClearKeepsSources(w, t);
    case Expire(t) => ClearKeepsSources(w, t);
    case Find(_, _, _) => FindKeepsSources(w, e);
    case Store(_) => StoreKeepsSources(w, e);
    case _ => LocalStepKeepsSources(w, e);
  }

  /**
   In every undisturbed run a slot marked valid holds the text of a reply that came from a
   connection with the slot's device id and carried the slot's tag or no tag.
   */
  lemma {:induction false} ValidReplyFitsSlot(ws: seq<World>, es: seq<Event>, n: nat)
    requires IsRun(ws, es) && n < |ws| && Undisturbed(ws, es)
    ensures SourceInv(ws[n])
  {
    if n > 0 {
      ValidReplyFitsSlot(ws, es, n - 1);
      RunInv(ws, es, n - 1);
      assert StepAt(ws, es, n - 1);
      StepKeepsSources(ws[n - 1], es[n - 1]);
    }
  }

  // ---------- ... and exactly when ----------

  ghost predicate SlotsOk(w: World) {
    Shape(w) && forall i: nat | i < QUEUE_LEN :: SourceOk(w, i)
  }

  /** The slot a note points at is claimed, and the reply would still match it. */
  ghost predicate StillFits(w: World, e: Event)
    requires Enabled(w, e)
  {
    e.Store? ==> w.claims[w.notes[e.k].idx].Some?
                 && FitsSlot(w.slots[w.notes[e.k].idx], w.notes[e.k].devid, w.notes[e.k].mem)
  }

  ghost predicate FitsAt(ws: seq<World>, es: seq<Event>, i: nat)
    requires IsRun(ws, es) && i < |es|
  {
    StepAt(ws, es, i) && StillFits(ws[i], es[i])
  }

  /** One step keeps the slots right exactly if a stored reply still fits when it is written. */
  lemma StepSlotsOk(w: World, e: Event)
    requires Inv(w) && SlotsOk(w) && Enabled(w, e)
    ensures SlotsOk(Next(w, e)) <==> StillFits(w, e)
  {
    var v := Next(w, e);
    StepKeeps(w, e);
    if e.Store? {
      assert SourceOk(v, w.notes[e.k].idx) ==> StillFits(w, e);
    }
    if e.Insert? {
      var f := FirstFree(w.slots);
      assert ClaimOk(w, f) && SourceOk(w, f) && !w.slots[f].valid;
    }
    if StillFits(w, e) {
      forall i: nat | i < QUEUE_LEN ensures SourceOk(v, i) {
        assert SourceOk(w, i);
      }
    }
  }

  ghost predicate RightUpTo(ws: seq<World>, n: nat)
    requires n < |ws|
  {
    forall i | 0 <= i <= n :: SlotsOk(ws[i])
  }

  ghost predicate FitUpTo(ws: seq<World>, es: seq<Event>, n: nat)
    requires IsRun(ws, es) && n < |ws|
  {
    forall i: nat | i < n :: FitsAt(ws, es, i)
  }

  /**
   A run keeps every valid slot's reply from the slot's own device and tag, from beginning to
   end, if and only if each reply still matches its slot at the moment it is written.
   */
  lemma {:induction false} ValidReplyFitsExactly(ws: seq<World>, es: seq<Event>, n: nat)
    requires IsRun(ws, es) && n < |ws|
    ensures RightUpTo(ws, n) <==> FitUpTo(ws, es, n)
  {
    if n == 0 {
      StartSlotsOk();
    } else {
      ValidReplyFitsExactly(ws, es, n - 1);
      StepFitsExactly(ws, es, n - 1);
    }
  }

  /** Runs without writes through stale pointers are among them. */
  lemma UndisturbedFits(ws: seq<World>, es: seq<Event>, n: nat)
    requires IsRun(ws, es) && n < |ws| && Undisturbed(ws, es)
    ensures FitUpTo(ws, es, n)
  {
    forall i | 0 <= i <= n ensures SlotsOk(ws[i]) {
      ValidReplyFitsSlot(ws, es, i);
    }
    ValidReplyFitsExactly(ws, es, n);
  }

  lemma StartSlotsOk()
    ensures SlotsOk(START)
  {
    StartInv();
  }

  lemma StepFitsExactly(ws: seq<World>, es: seq<Event>, i: nat)
    requires IsRun(ws, es) && i < |es|
    ensures SlotsOk(ws[i]) ==> (SlotsOk(ws[i + 1]) <==> FitsAt(ws, es, i))
  {
    RunInv(ws, es, i);
    assert StepAt(ws, es, i);
    if SlotsOk(ws[i]) {
      StepSlotsOk(ws[i], es[i]);
    }
  }

  // ---------- runs that show the conditions are needed ----------

  ghost function Last(ws: seq<World>): World
    requires ws != []
  {
    ws[|ws| - 1]
  }

  lemma ExtendRun(ws: seq<World>, es: seq<Event>, e: Event)
    requires IsRun(ws, es) && Enabled(Last(ws), e)
    ensures IsRun(ws + [Next(Last(ws), e)], es + [e])
  {
    var vs, fs := ws + [Next(Last(ws), e)], es + [e];
    forall i | 0 <= i < |fs| ensures StepAt(vs, fs, i) {
      if i < |es| {
        assert StepAt(ws, es, i);
      }
    }
  }

  ghost predicate SameQueue(w: World, v: World) {
    w.slots == v.slots && w.claims == v.claims && w.epochs == v.epochs && w.notes == v.notes
  }

  /** Thread 2 draws and drops `n` tags. */
  lemma {:induction false} SpinTags(ws: seq<World>, es: seq<Event>, n: nat) returns (vs: seq<World>, fs: seq<Event>)
    requires IsRun(ws, es) && Shape(Last(ws)) && PhaseOf(Last(ws), 2).Idle?
    ensures IsRun(vs, fs) && Shape(Last(vs)) && SameQueue(Last(ws), Last(vs))
    ensures |Last(vs).drawers| == |Last(ws).drawers| + n
    ensures PhaseOf(Last(vs), 2).Idle? && PhaseOf(Last(vs), 1) == PhaseOf(Last(ws), 1)
  {
    vs, fs := ws, es;
    if n > 0 {
      vs, fs := SpinTags(ws, es, n - 1);
      vs, fs := DrawAndDrop(vs, fs);
    }
  }

  lemma DrawAndDrop(ws: seq<World>, es: seq<Event>) returns (vs: seq<World>, fs: seq<Event>)
    requires IsRun(ws, es) && Shape(Last(ws)) && PhaseOf(Last(ws), 2).Idle?
    ensures IsRun(vs, fs) && Shape(Last(vs)) && SameQueue(Last(ws), Last(vs))
    ensures |Last(vs).drawers| == |Last(ws).drawers| + 1
    ensures PhaseOf(Last(vs), 2).Idle? && PhaseOf(Last(vs), 1) == PhaseOf(Last(ws), 1)
  {
    var w := Last(ws);
    ExtendRun(ws, es, Draw(2));
    var w1 := Next(w, Draw(2));
    var ws1, es1 := ws + [w1], es + [Draw(2)];
    RunInv(ws1, es1, |es1|);
    ExtendRun(ws1, es1, Drop(2));
    vs, fs := ws1 + [Next(w1, Drop(2))], es1 + [Drop(2)];
  }

  /** Thread `t` draws a tag and queues a command for device `devid`. */
  lemma DrawAndInsert(ws: seq<World>, es: seq<Event>, t: Thread, devid: nat) returns (vs: seq<World>, fs: seq<Event>)
    requires IsRun(ws, es) && Shape(Last(ws)) && PhaseOf(Last(ws), t).Idle?
    requires FirstFree(Last(ws).slots) < QUEUE_LEN
    ensures IsRun(vs, fs) && Shape(Last(vs))
    ensures var w, v := Last(ws), Last(vs);
            var i, draw := FirstFree(w.slots), |w.drawers| + 1;
            var tag := FormatTag(draw % TAG_COUNT);
            && v.slots == Inserted(w.slots, 0, devid, tag, "", 1)
            && v.phase == w.phase[t := Waiting(i, devid, "", draw, tag)]
            && v.claims == w.claims[i := Some(draw)] && v.epochs == w.epochs && v.notes == w.notes
            && v.sources == w.sources && |v.drawers| == draw
  {
    var w := Last(ws);
    ExtendRun(ws, es, Draw(t));
    var w1 := Next(w, Draw(t));
    var ws1, es1 := ws + [w1], es + [Draw(t)];
    RunInv(ws1, es1, |es1|);
    assert w1.phase[t].Holding?;
    var e := Insert(t, 0, devid, "", 1);
    ExtendRun(ws1, es1, e);
    var w2 := Next(w1, e);
    vs, fs := ws1 + [w2], es1 + [e];
    assert w2.phase == w.phase[t := w2.phase[t]];
    RunInv(vs, fs, |fs|);
  }

  /**
   The age bound is tight: after exactly 10000 further draws two waiting commands share
   device and tag, and the reply to the younger one is matched to the older one's slot.
   */
  lemma TagCycleMisdirects(devid: nat) returns (ws: seq<World>, es: seq<Event>)
    requires devid != 0
    ensures IsRun(ws, es) && Shape(Last(ws))
    ensures var w := Last(ws); var p, q := PhaseOf(w, 1), PhaseOf(w, 2);
            && p.Waiting? && q.Waiting? && p.idx != q.idx
            && p.devid == q.devid == devid && p.tag == q.tag
            && |w.drawers| - p.draw == TAG_COUNT && |w.drawers| == q.draw
            && MatchIndex(w.slots, q.devid, q.tag) == p.idx
  {
    ws, es := [START], [];
    StartInv();
    ws, es := DrawAndInsert(ws, es, 1, devid);
    var one := Last(ws);
    assert one.slots[0].devid == devid && one.slots[0].tag == FormatTag(1);
    ws, es := SpinTags(ws, es, 9999);
    assert IsFree(Last(ws).slots[1]);
    FirstIs(Last(ws).slots, s => IsFree(s), 1);
    assert PhaseOf(Last(ws), 1).Waiting?;
    ws, es := DrawAndInsert(ws, es, 2, devid);
    FirstIs(Last(ws).slots, s => Answers(s, devid, FormatTag(1)), 0);
  }

  /** One thread sends `k` commands whose write to the device fails. */
  lemma {:induction false} FailedWrites(k: nat) returns (ws: seq<World>, es: seq<Event>)
    requires k <= QUEUE_LEN
    ensures IsRun(ws, es) && Shape(Last(ws))
    ensures forall t :: PhaseOf(Last(ws), t).Idle?
    ensures forall i: nat | i < QUEUE_LEN :: if i < k then Last(ws).claims[i].Some? else IsFree(Last(ws).slots[i])
    ensures forall i: nat | i < k :: !IsFree(Last(ws).slots[i])
  {
    if k == 0 {
      ws, es := [START], [];
      StartInv();
    } else {
      ws, es := FailedWrites(k - 1);
      FirstIs(Last(ws).slots, s => IsFree(s), k - 1);
      var w := Last(ws);
      ws, es := DrawAndInsert(ws, es, 1, 7);
      ws, es := Extended(ws, es, Abandon(1));
      forall t ensures PhaseOf(Last(ws), t).Idle? {
        assert t != 1 ==> PhaseOf(w, t).Idle?;
      }
    }
  }

  /** A run after which every slot is abandoned: the queue can be lost for good. */
  lemma QueueCanBeLost() returns (ws: seq<World>, es: seq<Event>)
    ensures IsRun(ws, es) && Shape(Last(ws)) && forall i: nat | i < QUEUE_LEN :: Orphan(Last(ws), i)
  {
    ws, es := FailedWrites(QUEUE_LEN);
  }

  /**
   A reply without a tag is found for a command to one device, the command times out, its slot
   is claimed for another device, and only then is the reply written.
   */
  lemma LateWrite(devid: nat, other: nat, mem: string) returns (ws: seq<World>, es: seq<Event>)
    requires devid != 0 && other != devid && ReplyTag(devid, mem) == Some("")
    ensures IsRun(ws, es) && Shape(Last(ws)) && !Undisturbed(ws, es)
    ensures var w := Last(ws);
            && w.slots[0].valid && w.slots[0].devid == other && w.slots[0].reply == Clip(CStr(mem), MAX_REPLY)
            && w.sources[0] == Some(Source(devid, mem))
            && PhaseOf(w, 2).Waiting? && PhaseOf(w, 2).idx == 0 && PhaseOf(w, 2).devid == other
  {
    ws, es := [START], [];
    StartInv();
    ws, es := DrawAndInsert(ws, es, 1, devid);
    FirstIs(Last(ws).slots, s => Answers(s, devid, ""), 0);
    ws, es := Extended(ws, es, Find(9, devid, mem));
    ws, es := Extended(ws, es, Expire(1));
    assert PhaseOf(Last(ws), 2).Idle?;
    FirstIs(Last(ws).slots, s => IsFree(s), 0);
    ws, es := DrawAndInsert(ws, es, 2, other);
    var n := |es|;
    ghost var late := Last(ws);
    assert !UpToDate(late, late.notes[9]);
    ws, es := Extended(ws, es, Store(9));
    assert es[n].Store? && ws[n] == late;
  }

  /** So a slot can be marked valid with a reply from another device. */
  lemma LateWriteMisdelivers() returns (ws: seq<World>, es: seq<Event>)
    ensures IsRun(ws, es) && Shape(Last(ws)) && !Undisturbed(ws, es)
    ensures var w := Last(ws);
            w.slots[0].valid && w.slots[0].devid == 8 && w.sources[0].Some? && w.sources[0].value.devid == 7
  {
    ErrorReplyTag("$ERR:5\r\n");
    ws, es := LateWrite(7, 8, "$ERR:5\r\n");
  }

  lemma ErrorReplyTag(mem: string)
    requires mem == "$ERR:5\r\n"
    ensures ReplyTag(7, mem) == Some("")
  {
    assert At(mem, 0) == '$' && At(mem, 5) == '5';
  }

  lemma Extended(ws: seq<World>, es: seq<Event>, e: Event) returns (vs: seq<World>, fs: seq<Event>)
    requires IsRun(ws, es) && Enabled(Last(ws), e)
    ensures vs == ws + [Next(Last(ws), e)] && fs == es + [e]
    ensures IsRun(vs, fs) && Shape(Last(vs))
  {
    ExtendRun(ws, es, e);
    vs, fs := ws + [Next(Last(ws), e)], es + [e];
    RunInv(vs, fs, |fs|);
  }
}
