/**
 What a command thread does with the reply it has collected (the end of
 send_rawcmd_reply_over_gprs, and handle_device_reply), and what a success of the whole
 exchange means.
 */
module SendReply {
  import opened Options
  import opened CText
  import opened Numbers
  import opened FieldSplitter
  import opened DeviceReply
  import opened CommandQueue
  import opened CommandProtocol
  import opened CommandRuns

  const MIN_LOCATION: nat := 60

  predicate EndsCrLf(s: string) {
    |s| >= 2 && s[|s| - 2..] == "\r\n"
  }

  predicate IsLocation(s: string) {
    s != "" && s[0] == '3' && |s| > MIN_LOCATION
  }

  /** The error code text; without a field the program reads whatever the field buffer held (`stale`). */
  function ErrorText(r: Reply, stale: string): string {
    if r.fields == [] then stale else r.fields[0]
  }

  /** The result of handle_device_reply on the reply in memory `mem` for a command tagged `tag`. */
  ghost function Verdict(mem: string, tag: string, stale: string): int {
    if IsLocation(CStr(mem)) then 0
    else match ParseReply(mem)
      case None => -1
      case Some(r) =>
        if r.tag != tag then -1
        else if r.isOk then 0
        else -(Atoi(ErrorText(r, stale)) + 1)
  }

  /** handle_device_reply */
  method HandleReply(mem: string, tag: string, stale: string) returns (rc: int)
    ensures rc == Verdict(mem, tag, stale)
  {
    if IsLocation(CStr(mem)) {
      return 0;
    }
    var r := ExtractReply(mem);
    if r.None? || r.value.tag != tag {
      return -1;
    }
    rc := if r.value.isOk then 0 else -(Atoi(ErrorText(r.value, stale)) + 1);
  }

  /** The reply buffer after the final CRLF has been cut off by a NUL; `junk` is the rest of the buffer. */
  function CutMemory(reply: string, junk: string): string
    requires EndsCrLf(reply)
  {
    reply[..|reply| - 2] + ("\0\n" + ("\0" + junk))
  }

  ghost function SendResult(reply: string, tag: string, stale: string, junk: string): int {
    if EndsCrLf(reply) then Verdict(CutMemory(reply, junk), tag, stale) else -1
  }

  /** The end of send_rawcmd_reply_over_gprs, once a reply has been collected. */
  method FinishSend(reply: string, tag: string, stale: string, junk: string) returns (rc: int)
    ensures rc == SendResult(reply, tag, stale, junk)
  {
    if !EndsCrLf(reply) {
      return -1;
    }
    rc := HandleReply(CutMemory(reply, junk), tag, stale);
  }

  /** A text that does not end in CRLF is refused, whatever it says. */
  lemma MissingCrLf(text: string, own: string, stale: string, junk: string)
    requires |text| < 2 || text[|text| - 2] != '\r' || text[|text| - 1] != '\n'
    ensures SendResult(text, own, stale, junk) == -1
  {
  }

  /** What thread `t` is handed by Collect. */
  ghost function CollectedText(w: World, t: Thread): string
    requires Enabled(w, Collect(t))
  {
    w.slots[PhaseOf(w, t).idx].reply
  }

  // ---------- what the device prints ----------

  /** A reply line as the device sends it, with the data part if there is one. */
  function Line(isOk: bool, name: string, tag: string, data: Option<string>): string {
    PrintHead(isOk, name, tag) + (match data case None => "\r\n" case Some(d) => "=" + (d + "\r\n"))
  }

  ghost predicate LineOk(isOk: bool, name: string, tag: string, data: Option<string>) {
    && NameOk(isOk, name) && |name| <= 12 && TagOk(tag) && |tag| <= 4
    && (data.Some? ==>
          && NulFree(data.value)
          && Splittable(data.value, ',') && Splittable(data.value + "\r\n", ','))
  }

  function DataFields(data: Option<string>): seq<string> {
    match data case None => [] case Some(d) => Split(d, ',')
  }

  lemma LineNulFree(isOk: bool, name: string, tag: string, data: Option<string>)
    requires LineOk(isOk, name, tag, data)
    ensures NulFree(Line(isOk, name, tag, data)) && EndsCrLf(Line(isOk, name, tag, data))
    ensures Line(isOk, name, tag, data)[0] == '$'
  {
  }

  /** The tracker thread reads the printed tag off the line, whatever follows the NUL in its buffer. */
  lemma TagOfLine(devid: nat, isOk: bool, name: string, tag: string, data: Option<string>, junk: string)
    requires LineOk(isOk, name, tag, data)
    ensures ReplyTag(devid, Line(isOk, name, tag, data) + ("\0" + junk)) == Some(tag)
  {
    var head := PrintHead(isOk, name, tag);
    var mem := Line(isOk, name, tag, data) + ("\0" + junk);
    assert mem[0] == '$';
    if data.None? {
      assert mem == head + ("\r\n" + ("\0" + junk));
      ParseOfPrintPlain(isOk, name, tag, "\0" + junk);
    } else {
      var d := data.value + "\r\n";
      var after := "=" + (d + ("\0" + junk));
      assert mem == head + after;
      ParseOfDataLine(isOk, name, tag, d, "\0" + junk);
    }
  }

  /** After the CRLF has been cut, the command thread recovers name, tag and fields. */
  lemma ParseOfCutLine(isOk: bool, name: string, tag: string, data: Option<string>, junk: string)
    requires LineOk(isOk, name, tag, data)
    requires EndsCrLf(Line(isOk, name, tag, data))
    ensures ParseReply(CutMemory(Line(isOk, name, tag, data), junk))
            == Some(Reply(isOk, name, tag, DataFields(data)))
  {
    var head := PrintHead(isOk, name, tag);
    var line := Line(isOk, name, tag, data);
    var mem := CutMemory(line, junk);
    if data.None? {
      assert line[..|line| - 2] == head;
      ParseOfPrintCut(isOk, name, tag, "\0" + junk);
    } else {
      var d := data.value;
      var rest := "\0\n" + ("\0" + junk);
      assert line[..|line| - 2] == head + ("=" + d);
      var after := "=" + (d + rest);
      assert mem == head + after;
      ParseOfDataLine(isOk, name, tag, d, rest);
    }
  }

  lemma VerdictOfLine(isOk: bool, name: string, tag: string, data: Option<string>, own: string, stale: string, junk: string)
    requires LineOk(isOk, name, tag, data)
    ensures SendResult(Line(isOk, name, tag, data), own, stale, junk)
            == if tag != own then -1
               else if isOk then 0
               else -(Atoi(if data.None? then stale else Split(data.value, ',')[0]) + 1)
  {
    LineNulFree(isOk, name, tag, data);
    ParseOfCutLine(isOk, name, tag, data, junk);
    var line := Line(isOk, name, tag, data);
    assert CutMemory(line, junk)[0] == '$';
  }

  /** The short error form carries no tag, so no tagged command takes it for an answer. */
  lemma VerdictOfShortError(d: char, own: string, stale: string, junk: string)
    requires '0' <= d <= '9' && own != ""
    ensures SendResult("$ERR:" + [d] + "\r\n", own, stale, junk) == -1
  {
    var line := "$ERR:" + [d] + "\r\n";
    var rest := "\0\n" + ("\0" + junk);
    assert EndsCrLf(line) && line[..|line| - 2] == "$ERR:" + [d];
    assert CutMemory(line, junk) == "$ERR:" + ([d] + rest);
    ParseOfShortError(d, rest);
  }

  lemma DigitsAreOneField(s: string)
    requires AllDigits(s)
    ensures Split(s, ',') == [s]
  {
    assert Free(s, ',');
    SplitDelimFree(s, ',');
  }

  /** A reply with a numeric error code counts as success exactly when the code is -1 modulo 2^32. */
  lemma ErrorCodeWraps(name: string, tag: string, code: nat, stale: string, junk: string)
    requires LineOk(false, name, tag, Some(PrintNat(code))) && code < LONG_LIMIT
    ensures SendResult(Line(false, name, tag, Some(PrintNat(code))), tag, stale, junk) == -(ToInt32(code) + 1)
    ensures SendResult(Line(false, name, tag, Some(PrintNat(code))), tag, stale, junk) == 0
            <==> code % UINT_RANGE == UINT_RANGE - 1
  {
    VerdictOfLine(false, name, tag, Some(PrintNat(code)), tag, stale, junk);
    DigitsAreOneField(PrintNat(code));
    AtoiOfPrintNat(code);
    ToInt32MinusOne(code);
  }

  /**
   End to end: a device that answers with the tag it was sent has its line found, stored and
   collected, and the waiting command's send returns 0.
   */
  lemma AnsweredCommandSucceeds(ws: seq<World>, es: seq<Event>, n: nat, t: Thread, k: Thread,
                                name: string, data: Option<string>, rest: string, stale: string, junk: string)
    requires IsRun(ws, es) && n < |ws| && YoungClaims(ws[n])
    requires PhaseOf(ws[n], t).Waiting? && PhaseOf(ws[n], t).devid != 0 && k !in ws[n].notes
    requires LineOk(true, name, PhaseOf(ws[n], t).tag, data)
    requires |Line(true, name, PhaseOf(ws[n], t).tag, data)| <= 1022
    ensures var w := ws[n]; var p := PhaseOf(w, t);
            var line := Line(true, name, p.tag, data);
            var find := Find(k, p.devid, line + ("\0" + rest));
            && Enabled(w, find)
            && var found := Next(w, find);
            && Enabled(found, Store(k))
            && var stored := Next(found, Store(k));
            && Enabled(stored, Collect(t))
            && CollectedText(stored, t) == line
            && SendResult(line, p.tag, stale, junk) == 0
  {
    var w := ws[n];
    var p := PhaseOf(w, t);
    var line := Line(true, name, p.tag, data);
    var mem := line + ("\0" + rest);
    TagOfLine(p.devid, true, name, p.tag, data, rest);
    TaggedReplyReachesItsSender(ws, es, n, t, k, mem);
    RunInv(ws, es, n);
    var found := Next(w, Find(k, p.devid, mem));
    StepKeeps(w, Find(k, p.devid, mem));
    StepKeeps(found, Store(k));
    LineNulFree(true, name, p.tag, data);
    CStrOfText(line, "\0" + rest);
    VerdictOfLine(true, name, p.tag, data, p.tag, stale, junk);
  }

  /**
   In an undisturbed run the tag check never fires on a printed, tagged line: whatever line a
   command collects carries its own tag.
   */
  lemma CollectedTagIsOwn(ws: seq<World>, es: seq<Event>, n: nat, t: Thread,
                          isOk: bool, name: string, tag: string, data: Option<string>, rest: string)
    requires IsRun(ws, es) && Undisturbed(ws, es) && n < |ws| && Enabled(ws[n], Collect(t))
    requires LineOk(isOk, name, tag, data) && tag != ""
    requires ws[n].sources[PhaseOf(ws[n], t).idx].Some?
    requires ws[n].sources[PhaseOf(ws[n], t).idx].value.mem == Line(isOk, name, tag, data) + ("\0" + rest)
    ensures tag == PhaseOf(ws[n], t).tag
    ensures ws[n].sources[PhaseOf(ws[n], t).idx].value.devid == PhaseOf(ws[n], t).devid
  {
    RunInv(ws, es, n);
    ValidReplyFitsSlot(ws, es, n);
    var i := PhaseOf(ws[n], t).idx;
    assert PhaseOk(ws[n], t) && SourceOk(ws[n], i);
    TagOfLine(ws[n].sources[i].value.devid, isOk, name, tag, data, rest);
  }
}
