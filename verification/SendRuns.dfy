/**
 What it means, in every run, that a send to a device reports success.
 */
module SendRuns {
  import opened Options
  import opened CText
  import opened Numbers
  import opened SeqTools
  import opened DeviceReply
  import opened CommandQueue
  import opened CommandProtocol
  import opened CommandRuns
  import opened SendReply
  import opened ReplyCut

  /** The text is a location line, as the command thread sees it. */
  predicate LocationLine(text: string) {
    EndsCrLf(text) && IsLocation(text[..|text| - 2])
  }

  /** Where the text that `t` is about to collect came from. */
  ghost predicate CameFrom(w: World, t: Thread, src: Source)
    requires Enabled(w, Collect(t))
  {
    && w.sources[PhaseOf(w, t).idx] == Some(src) && src.devid == PhaseOf(w, t).devid
    && CollectedText(w, t) == Clip(CStr(src.mem), MAX_REPLY)
    && (ReplyTag(src.devid, src.mem) == Some("") || ReplyTag(src.devid, src.mem) == Some(PhaseOf(w, t).tag))
  }

  /** In every run in which replies are written to slots they still match, a command collects its own device's line. */
  lemma CollectsOwnDevice(ws: seq<World>, es: seq<Event>, n: nat, t: Thread)
    requires IsRun(ws, es) && n < |ws| && FitUpTo(ws, es, n) && Enabled(ws[n], Collect(t))
    ensures ws[n].sources[PhaseOf(ws[n], t).idx].Some?
    ensures CameFrom(ws[n], t, ws[n].sources[PhaseOf(ws[n], t).idx].value) && NulFree(CollectedText(ws[n], t))
    ensures PhaseOf(ws[n], t).tag != "" && |PhaseOf(ws[n], t).tag| == 4 && TagOk(PhaseOf(ws[n], t).tag)
  {
    var w := ws[n];
    RunInv(ws, es, n);
    ValidReplyFitsExactly(ws, es, n);
    assert SlotsOk(w) && PhaseOk(w, t);
    assert SourceOk(w, PhaseOf(w, t).idx);
    CStrIs(w.sources[PhaseOf(w, t).idx].value.mem);
  }

  /** A success that is no location line was parsed from the cut copy with the command's tag. */
  lemma ZeroIsParsed(text: string, own: string, stale: string, junk: string)
    requires NulFree(text) && SendResult(text, own, stale, junk) == 0 && !LocationLine(text)
    ensures EndsCrLf(text)
    ensures var r := ParseReply(CutMemory(text, junk)); r.Some? && r.value.tag == own
  {
    CStrOfText(text[..|text| - 2], "\0\n" + ("\0" + junk));
  }

  /**
   In every such run: if a send returns 0, the text it collected is a line received from a
   connection of the very device the command was sent to; and it is a location line, or a line
   in which the tracker thread found the command's own tag, unless its name is left open.
   */
  lemma SuccessIsOwn(ws: seq<World>, es: seq<Event>, n: nat, t: Thread, stale: string, junk: string)
    requires IsRun(ws, es) && n < |ws| && FitUpTo(ws, es, n) && Enabled(ws[n], Collect(t))
    requires SendResult(CollectedText(ws[n], t), PhaseOf(ws[n], t).tag, stale, junk) == 0
    ensures var w := ws[n]; var p, text := PhaseOf(w, t), CollectedText(w, t);
            exists src :: CameFrom(w, t, src) && EndsCrLf(text)
              && (LocationLine(text) || OpenHead(text) || ReplyTag(p.devid, src.mem) == Some(p.tag))
  {
    var w := ws[n];
    var p, text := PhaseOf(w, t), CollectedText(w, t);
    CollectsOwnDevice(ws, es, n, t);
    var src := w.sources[p.idx].value;
    if !LocationLine(text) {
      ZeroIsParsed(text, p.tag, stale, junk);
      if !OpenHead(text) && ReplyTag(src.devid, src.mem) == Some("") {
        NotUntagged(src.devid, src.mem, text, p.tag, junk);
      }
    }
    assert CameFrom(w, t, src);
  }

  /** A line the tracker thread found no tag in does not yield a tag to the command thread. */
  lemma NotUntagged(devid: nat, mem: string, text: string, own: string, junk: string)
    requires text == Clip(CStr(mem), MAX_REPLY) && EndsCrLf(text) && !OpenHead(text) && own != ""
    requires ReplyTag(devid, mem) == Some("")
    ensures ParseReply(CutMemory(text, junk)).Some? ==> ParseReply(CutMemory(text, junk)).value.tag != own
  {
    CutTwin(mem, text, junk);
    if At(mem, 0) != '3' && ParseReply(CutMemory(text, junk)).Some? && ParseReply(CutMemory(text, junk)).value.tag == own {
      CutKeepsTag(mem, text, junk);
    }
  }

  /**
   The exact condition for the tag: whatever memory lies behind the copy, success means the
   command's own tag, if and only if the tracker thread found that tag or the name is not left
   open.
   */
  lemma OwnTagExactly(ws: seq<World>, es: seq<Event>, n: nat, t: Thread, src: Source)
    requires IsRun(ws, es) && n < |ws| && FitUpTo(ws, es, n) && Enabled(ws[n], Collect(t))
    requires CameFrom(ws[n], t, src) && EndsCrLf(CollectedText(ws[n], t)) && !LocationLine(CollectedText(ws[n], t))
    ensures var p, text := PhaseOf(ws[n], t), CollectedText(ws[n], t);
            (forall stale, junk :: SendResult(text, p.tag, stale, junk) == 0 ==> ReplyTag(p.devid, src.mem) == Some(p.tag))
            <==> ReplyTag(p.devid, src.mem) == Some(p.tag) || !OpenHead(text)
  {
    var w := ws[n];
    var p, text := PhaseOf(w, t), CollectedText(w, t);
    CollectsOwnDevice(ws, es, n, t);
    if OpenHead(text) {
      OpenHeadTakesAnyTag(text, p.tag);
    } else {
      forall stale, junk | SendResult(text, p.tag, stale, junk) == 0
        ensures ReplyTag(p.devid, src.mem) == Some(p.tag)
      {
        SuccessIsOwn(ws, es, n, t, stale, junk);
      }
    }
  }

  // ---------- a location line that comes too late ----------

  /** Every note was made for a reply that the tracker thread could use. */
  ghost predicate NotesUsable(w: World) {
    forall k | k in w.notes :: w.notes[k].devid != 0 && ReplyTag(w.notes[k].devid, w.notes[k].mem).Some?
  }

  lemma {:induction false} NotesAreUsable(ws: seq<World>, es: seq<Event>, n: nat)
    requires IsRun(ws, es) && n < |ws|
    ensures NotesUsable(ws[n])
  {
    if n > 0 {
      NotesAreUsable(ws, es, n - 1);
      assert StepAt(ws, es, n - 1);
    }
  }

  /**
   A location line written to a waiting command's slot makes its send return 0 whatever device
   it came from; it is from the command's own device if and only if it still matches the slot
   when it is written.
   */
  lemma LocationWriteExactly(ws: seq<World>, es: seq<Event>, n: nat, k: Thread, t: Thread, stale: string, junk: string)
    requires IsRun(ws, es) && n < |ws| && Enabled(ws[n], Store(k))
    requires PhaseOf(ws[n], t).Waiting? && PhaseOf(ws[n], t).idx == ws[n].notes[k].idx
    requires LocationLine(Clip(CStr(ws[n].notes[k].mem), MAX_REPLY))
    ensures var v, p := Next(ws[n], Store(k)), PhaseOf(ws[n], t);
            && Enabled(v, Collect(t)) && PhaseOf(v, t) == p
            && SendResult(CollectedText(v, t), p.tag, stale, junk) == 0
            && v.sources[p.idx].Some?
            && (v.sources[p.idx].value.devid == p.devid <==> StillFits(ws[n], Store(k)))
  {
    var w := ws[n];
    var note, p := w.notes[k], PhaseOf(w, t);
    RunInv(ws, es, n);
    StepKeeps(w, Store(k));
    NotesAreUsable(ws, es, n);
    assert PhaseOk(w, t);
    var text := Clip(CStr(note.mem), MAX_REPLY);
    CStrIs(note.mem);
    assert text[..|text| - 2][0] == CStr(note.mem)[0] == note.mem[0];
    assert ReplyTag(note.devid, note.mem) == Some("");
    LocationSucceeds(text, p.tag, stale, junk);
  }

  /** The line a device sends for its location: its id, a comma and the rest. */
  function LocationOf(id: nat, rest: string): string {
    PrintNat(id) + ("," + rest)
  }

  /** The lines that serve as a location: NUL-free, closed by CRLF, long enough and not too long. */
  ghost predicate IsLocationOf(id: nat, rest: string) {
    && id < UINT_RANGE && PrintNat(id)[0] == '3' && NulFree(rest)
    && |rest| >= 2 && rest[|rest| - 2..] == "\r\n" && 62 < |LocationOf(id, rest)| <= 1022
  }

  lemma LocationText(id: nat, rest: string)
    requires IsLocationOf(id, rest)
    ensures var line := LocationOf(id, rest);
            NulFree(line) && EndsCrLf(line) && LocationLine(line) && |line| <= MAX_REPLY && line[0] == '3'
  {
    var line, text := LocationOf(id, rest), PrintNat(id);
    assert forall i | 0 <= i < |text| :: line[i] == text[i] && IsDigit(text[i]);
    assert line[|line| - 2..] == rest[|rest| - 2..];
    assert line[..|line| - 2][0] == text[0];
  }

  /** A line that starts with 3 is a success exactly if it has more than 60 characters besides its CRLF. */
  lemma LocationVerdict(text: string, tag: string, stale: string, junk: string)
    requires NulFree(text) && EndsCrLf(text) && text[0] == '3'
    ensures SendResult(text, tag, stale, junk) == if |text| > 62 then 0 else -1
  {
    CStrOfText(text[..|text| - 2], "\0\n" + ("\0" + junk));
    assert CutMemory(text, junk)[0] == '3';
  }

  /**
   End to end for locations: a line that starts with the id of the device of a waiting command
   is found on that device's connection, stored in the device's lowest slot and in no other,
   and collected from there, and the send of the command that waits there returns 0.
   */
  lemma LocationAnswersCommand(ws: seq<World>, es: seq<Event>, n: nat, t: Thread, k: Thread,
                               rest: string, behind: string, stale: string, junk: string)
    requires IsRun(ws, es) && n < |ws| && k !in ws[n].notes && PhaseOf(ws[n], t).Waiting?
    requires IsLocationOf(PhaseOf(ws[n], t).devid, rest)
    requires PhaseOf(ws[n], t).idx <= |ws[n].slots|
    requires forall j | 0 <= j < PhaseOf(ws[n], t).idx :: ws[n].slots[j].devid != PhaseOf(ws[n], t).devid
    ensures var w := ws[n]; var p := PhaseOf(w, t);
            var line := LocationOf(p.devid, rest);
            var find := Find(k, p.devid, line + ("\0" + behind));
            && Enabled(w, find)
            && var found := Next(w, find);
            && Enabled(found, Store(k))
            && var stored := Next(found, Store(k));
            && stored.slots == Answered(w.slots, p.idx, line)
            && Enabled(stored, Collect(t)) && CollectedText(stored, t) == line
            && SendResult(line, p.tag, stale, junk) == 0
  {
    var w := ws[n];
    var p := PhaseOf(w, t);
    var line := LocationOf(p.devid, rest);
    var mem := line + ("\0" + behind);
    LocationText(p.devid, rest);
    LocationTag(p.devid, rest, behind);
    RunInv(ws, es, n);
    LowestFound(w, t, k, mem);
    StepKeeps(w, Find(k, p.devid, mem));
    StepKeeps(Next(w, Find(k, p.devid, mem)), Store(k));
    CStrOfText(line, "\0" + behind);
    CStrOfText(line, "");
    assert line + "" == line;
    LocationVerdict(line, p.tag, stale, junk);
  }

  lemma LocationTag(id: nat, rest: string, behind: string)
    requires id < UINT_RANGE && PrintNat(id)[0] == '3'
    ensures ReplyTag(id, LocationOf(id, rest) + ("\0" + behind)) == Some("") && id != 0
  {
    Regroup(",", rest, "\0" + behind);
    Regroup(PrintNat(id), "," + rest, "\0" + behind);
    DeviceId(id);
    TagOfLocation(id, id, rest + ("\0" + behind));
    PrintNatValue(id);
  }

  lemma LowestFound(w: World, t: Thread, k: Thread, mem: string)
    requires Inv(w) && PhaseOf(w, t).Waiting? && PhaseOf(w, t).devid != 0 && k !in w.notes
    requires ReplyTag(PhaseOf(w, t).devid, mem) == Some("")
    requires forall j | 0 <= j < PhaseOf(w, t).idx :: w.slots[j].devid != PhaseOf(w, t).devid
    ensures var p := PhaseOf(w, t);
            && Enabled(w, Find(k, p.devid, mem)) && MatchIndex(w.slots, p.devid, "") == p.idx
  {
    var p := PhaseOf(w, t);
    assert PhaseOk(w, t);
    FirstIs(w.slots, s => Answers(s, p.devid, ""), p.idx);
  }

  lemma ForeignMeansMisfit(ws: seq<World>, es: seq<Event>, n: nat, t: Thread, src: Source)
    requires IsRun(ws, es) && n < |ws| && Enabled(ws[n], Collect(t))
    requires ws[n].sources[PhaseOf(ws[n], t).idx] == Some(src) && src.devid != PhaseOf(ws[n], t).devid
    ensures !FitUpTo(ws, es, n)
  {
    if FitUpTo(ws, es, n) {
      CollectsOwnDevice(ws, es, n, t);
      assert false;
    }
  }

  /**
   Without the condition: for every location line of a device, a run in which a command sent to
   another device collects it and its send returns 0, whatever memory lies behind the copy.
   */
  lemma LateLocationSucceeds(devid: nat, other: nat, rest: string) returns (ws: seq<World>, es: seq<Event>)
    requires IsLocationOf(devid, rest) && other != devid
    ensures IsRun(ws, es) && !FitUpTo(ws, es, |es|)
    ensures var w := ws[|es|];
            && Enabled(w, Collect(2)) && PhaseOf(w, 2).devid == other
            && w.sources[PhaseOf(w, 2).idx] == Some(Source(devid, LocationOf(devid, rest)))
            && forall stale, junk :: SendResult(CollectedText(w, 2), PhaseOf(w, 2).tag, stale, junk) == 0
  {
    LocationText(devid, rest);
    DeviceId(devid);
    TagOfLocation(devid, devid, rest);
    PrintNatValue(devid);
    ws, es := LateLine(devid, other, LocationOf(devid, rest));
  }

  lemma LateLine(devid: nat, other: nat, line: string) returns (ws: seq<World>, es: seq<Event>)
    requires devid != 0 && other != devid && ReplyTag(devid, line) == Some("")
    requires NulFree(line) && EndsCrLf(line) && line[0] == '3' && 62 < |line| <= MAX_REPLY
    ensures IsRun(ws, es) && !FitUpTo(ws, es, |es|)
    ensures var w := ws[|es|];
            && Enabled(w, Collect(2)) && PhaseOf(w, 2).devid == other
            && w.sources[PhaseOf(w, 2).idx] == Some(Source(devid, line))
            && forall stale, junk :: SendResult(CollectedText(w, 2), PhaseOf(w, 2).tag, stale, junk) == 0
  {
    ws, es := LateWrite(devid, other, line);
    var w := ws[|es|];
    CStrOfText(line, "");
    assert line + "" == line;
    assert CollectedText(w, 2) == line;
    AlwaysSucceeds(line, PhaseOf(w, 2).tag);
    ForeignMeansMisfit(ws, es, |es|, 2, Source(devid, line));
  }

  lemma AlwaysSucceeds(line: string, tag: string)
    requires NulFree(line) && EndsCrLf(line) && line[0] == '3' && 62 < |line|
    ensures forall stale, junk :: SendResult(line, tag, stale, junk) == 0
  {
    forall stale, junk ensures SendResult(line, tag, stale, junk) == 0 {
      LocationVerdict(line, tag, stale, junk);
    }
  }
}
