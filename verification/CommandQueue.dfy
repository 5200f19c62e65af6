/**
 The queue of commands sent to devices over GPRS: claiming a slot, matching a reply to a
 slot, delivering, collecting and clearing.
 */
module CommandQueue {
  import opened Options
  import opened CText
  import opened Numbers
  import opened SeqTools
  import opened DeviceReply

  const QUEUE_LEN: nat := 128
  const TAG_COUNT: nat := 10000
  const MAX_TAG: nat := 5
  const MAX_CMD: nat := 255
  const MAX_REPLY: nat := 1022
  const GFEN_TRACK_TAG: string := "TR48"

  datatype Slot = Slot(userSock: int, devid: nat, ts: nat, tag: string, cmd: string,
                       reply: string, valid: bool)

  const EMPTY_SLOT: Slot := Slot(0, 0, 0, "", "", "", false)

  predicate IsFree(s: Slot) {
    s.devid == 0 && s.ts == 0
  }

  predicate Answers(s: Slot, devid: nat, tag: string) {
    s.devid != 0 && s.devid == devid && (tag == "" || tag == s.tag)
  }

  function FirstFree(q: seq<Slot>): nat {
    First(q, s => IsFree(s))
  }

  function MatchIndex(q: seq<Slot>, devid: nat, tag: string): nat {
    First(q, s => Answers(s, devid, tag))
  }

  /** Can this command be queued, and where? */
  predicate Insertable(q: seq<Slot>, tag: string, cmd: string) {
    |tag| <= MAX_TAG && |cmd| <= MAX_CMD && FirstFree(q) < |q|
  }

  /** Insertion keeps the slot's reply fields as it found them. */
  function Inserted(q: seq<Slot>, userSock: int, devid: nat, tag: string, cmd: string, now: nat): seq<Slot>
    requires Insertable(q, tag, cmd)
  {
    var i := FirstFree(q);
    q[i := q[i].(userSock := userSock, devid := devid, ts := now, tag := tag, cmd := cmd)]
  }

  function Cleared(q: seq<Slot>, i: nat): seq<Slot>
    requires i < |q|
  {
    q[i := EMPTY_SLOT]
  }

  /** Writing a reply through a slot pointer. */
  function Answered(q: seq<Slot>, i: nat, mem: string): seq<Slot>
    requires i < |q|
  {
    q[i := q[i].(reply := Clip(CStr(mem), MAX_REPLY), valid := true)]
  }

  /**
   The tag by which a reply arriving from device `devid` is matched: the tag of a `$` reply,
   or the empty tag for a location line that names the device; None if it is unusable.
   */
  ghost function ReplyTag(devid: nat, mem: string): Option<string> {
    if At(mem, 0) == '3' then
      var k := Span(mem, {','}, 11);
      if At(mem, k) == ',' && Atol(Copied(mem, k)) % UINT_RANGE == devid then Some("") else None
    else match ParseReply(mem)
      case Some(r) => Some(r.tag)
      case None => None
  }

  lemma IdSpan(id: nat, rest: string)
    requires |PrintNat(id)| <= 11
    ensures var mem, text := PrintNat(id) + ("," + rest), PrintNat(id);
            && Span(mem, {','}, 11) == |text| && At(mem, |text|) == ',' && Copied(mem, |text|) == text
            && At(mem, 0) == text[0]
  {
    var text := PrintNat(id);
    var mem := text + ("," + rest);
    assert forall i | 0 <= i < |text| :: At(mem, i) == text[i] && IsDigit(text[i]);
    SpanUnique(mem, {','}, 11, |text|);
    CopiedText(text, "," + rest, 0);
  }

  /** Eleven digits are far below the limit of a long. */
  lemma ElevenDigits(id: nat)
    requires |PrintNat(id)| <= 11
    ensures id < LONG_LIMIT
  {
    assert Pow10(11) == 100_000_000_000;
    if id >= Pow10(11) {
      PrintNatLonger(id, 11);
    }
  }

  /**
   A line that starts with a device id of at most eleven digits, the first a 3, is usable, as
   an untagged reply, exactly on the connection of the device it names; the id is reduced to
   32 bits.
   */
  lemma TagOfLocation(devid: nat, id: nat, rest: string)
    requires |PrintNat(id)| <= 11 && PrintNat(id)[0] == '3'
    ensures ReplyTag(devid, PrintNat(id) + ("," + rest)) == if id % 0x1_0000_0000 == devid then Some("") else None
  {
    ElevenDigits(id);
    IdSpan(id, rest);
    AtolOfPrintNat(id);
    TagOfId(devid, PrintNat(id) + ("," + rest), PrintNat(id), id);
  }

  lemma TagOfId(devid: nat, mem: string, text: string, id: nat)
    requires At(mem, 0) == '3' && Span(mem, {','}, 11) == |text| && At(mem, |text|) == ','
    requires Copied(mem, |text|) == text && Atol(text) == id
    ensures ReplyTag(devid, mem) == if id % 0x1_0000_0000 == devid then Some("") else None
  {
  }

  /** An unsigned device id prints in at most ten digits and is its own reduction. */
  lemma DeviceId(id: nat)
    requires id < 0x1_0000_0000
    ensures |PrintNat(id)| <= 10 && id % 0x1_0000_0000 == id
  {
    assert Pow10(10) == 10_000_000_000;
    PrintNatLength(id, 10);
  }

  /** ... and without a comma among its first twelve characters it is not usable. */
  lemma TagOfLongId(devid: nat, mem: string)
    requires At(mem, 0) == '3' && forall i | 0 <= i < 12 :: At(mem, i) != ','
    ensures ReplyTag(devid, mem) == None
  {
    SpanUnique(mem, {','}, 11, 11);
  }

  datatype PollResult = Polling | Collected(text: string) | Expired

  class Queue {
    const cmdq: array<Slot>
    var tagNumber: nat

    ghost predicate Valid()
      reads this
    {
      cmdq.Length == QUEUE_LEN && tagNumber < TAG_COUNT
    }

    ghost function Slots(): (q: seq<Slot>)
      reads cmdq
      ensures |q| == cmdq.Length
    {
      cmdq[..]
    }

    /** cmdqueue_init */
    constructor ()
      ensures Valid() && fresh(cmdq)
      ensures Slots() == Repeat(QUEUE_LEN, EMPTY_SLOT) && tagNumber == 0
    {
      cmdq := new Slot[QUEUE_LEN](_ => EMPTY_SLOT);
      tagNumber := 0;
    }

    /** cmdqueue_insert */
    method Insert(userSock: int, devid: nat, tag: string, cmd: string, now: nat) returns (idx: int)
      requires Valid()
      modifies cmdq
      ensures Valid()
      ensures Insertable(old(Slots()), tag, cmd) ==>
                && idx == FirstFree(old(Slots()))
                && Slots() == Inserted(old(Slots()), userSock, devid, tag, cmd, now)
      ensures !Insertable(old(Slots()), tag, cmd) ==> idx == -1 && Slots() == old(Slots())
      ensures 0 <= idx < QUEUE_LEN ==>
                var s := Slots()[idx];
                s.userSock == userSock && s.devid == devid && s.ts == now && s.tag == tag && s.cmd == cmd
      ensures idx == -1 <==> |tag| > 5 || |cmd| > 255
                             || forall i | 0 <= i < 128 :: old(Slots())[i].devid != 0 || old(Slots())[i].ts != 0
    {
      if |tag| > MAX_TAG || |cmd| > MAX_CMD {
        return -1;
      }
      ghost var q := Slots();
      var i := 0;
      while i < QUEUE_LEN && !IsFree(cmdq[i])
        invariant i <= QUEUE_LEN
        invariant forall j | 0 <= j < i :: !IsFree(q[j])
        invariant Slots() == q
      {
        i := i + 1;
      }
      FirstIs(q, s => IsFree(s), i);
      if i == QUEUE_LEN {
        return -1;
      }
      cmdq[i] := cmdq[i].(userSock := userSock, devid := devid, ts := now, tag := tag, cmd := cmd);
      idx := i;
    }

    /** cmdqueue_match */
    method Match(devid: nat, tag: string) returns (idx: int)
      requires Valid()
      ensures 0 <= idx < QUEUE_LEN ==>
                && Answers(Slots()[idx], devid, tag)
                && forall j | 0 <= j < idx :: !Answers(Slots()[j], devid, tag)
      ensures var i := MatchIndex(Slots(), devid, tag); idx == if i < QUEUE_LEN then i else -1
    {
      var i := 0;
      while i < QUEUE_LEN && !Answers(cmdq[i], devid, tag)
        invariant i <= QUEUE_LEN
        invariant forall j | 0 <= j < i :: !Answers(Slots()[j], devid, tag)
      {
        i := i + 1;
      }
      FirstIs(Slots(), s => Answers(s, devid, tag), i);
      idx := if i < QUEUE_LEN then i else -1;
    }

    /** cmdqueue_clridx */
    method ClearIndex(idx: nat) returns (rc: int)
      requires Valid()
      modifies cmdq
      ensures Valid()
      ensures idx < QUEUE_LEN ==> rc == 0 && Slots() == Cleared(old(Slots()), idx)
      ensures idx >= QUEUE_LEN ==> rc == -1 && Slots() == old(Slots())
    {
      if idx >= QUEUE_LEN {
        return -1;
      }
      cmdq[idx] := EMPTY_SLOT;
      rc := 0;
    }

    /** One round of the polling loop of cmdqueue_check_reply; `expired` is the clock's verdict. */
    method Poll(idx: nat, expired: bool) returns (r: PollResult)
      requires Valid()
      modifies cmdq
      ensures Valid()
      ensures idx >= QUEUE_LEN ==> r == Expired && Slots() == old(Slots())
      ensures idx < QUEUE_LEN && old(Slots())[idx].valid ==>
                r == Collected(old(Slots())[idx].reply) && Slots() == Cleared(old(Slots()), idx)
      ensures idx < QUEUE_LEN && !old(Slots())[idx].valid && expired ==>
                r == Expired && Slots() == Cleared(old(Slots()), idx)
      ensures idx < QUEUE_LEN && !old(Slots())[idx].valid && !expired ==>
                r == Polling && Slots() == old(Slots())
    {
      if idx >= QUEUE_LEN {
        return Expired;
      }
      if cmdq[idx].valid {
        r := Collected(cmdq[idx].reply);
        var _ := ClearIndex(idx);
      } else if expired {
        r := Expired;
        var _ := ClearIndex(idx);
      } else {
        r := Polling;
      }
    }

    /** get_device_tag */
    method DrawTag() returns (tag: string)
      requires Valid()
      modifies this`tagNumber
      ensures Valid()
      ensures tagNumber == (old(tagNumber) + 1) % TAG_COUNT && tag == FormatTag(tagNumber)
    {
      tagNumber := tagNumber + 1;
      if tagNumber > 9999 {
        tagNumber := 0;
      }
      tag := FormatTag(tagNumber);
    }

    /** The part of handleCmdReplyPackage that finds out by which tag to match. */
    method TagOfReply(devid: nat, mem: string) returns (tag: Option<string>)
      ensures tag == ReplyTag(devid, mem)
    {
      if At(mem, 0) == '3' {
        var k := 0;
        while At(mem, k) != ',' && k < 11
          invariant k <= 11
          invariant forall i | 0 <= i < k :: At(mem, i) !in {','}
          decreases 11 - k
        {
          k := k + 1;
        }
        SpanUnique(mem, {','}, 11, k);
        if At(mem, k) != ',' || Atol(Copied(mem, k)) % UINT_RANGE != devid {
          return None;
        }
        return Some("");
      }
      var r := ExtractReply(mem);
      tag := match r case Some(reply) => Some(reply.tag) case None => None;
    }

    /** handleCmdReplyPackage, with matching and writing taken together. */
    method Deliver(devid: nat, mem: string) returns (rc: int)
      requires Valid()
      modifies cmdq
      ensures Valid()
      ensures var tag := ReplyTag(devid, mem); var q := old(Slots());
              if tag.Some? && MatchIndex(q, devid, tag.value) < QUEUE_LEN then
                rc == 0 && Slots() == Answered(q, MatchIndex(q, devid, tag.value), mem)
              else
                Slots() == q && rc == if tag == Some("TR48") then 0 else -1
      ensures var tag := ReplyTag(devid, mem); var q := old(Slots());
              tag.Some? && MatchIndex(q, devid, tag.value) < QUEUE_LEN ==>
                var s := Slots()[MatchIndex(q, devid, tag.value)]; s.valid && s.reply == Clip(CStr(mem), 1022)
    {
      var tag := TagOfReply(devid, mem);
      if tag.None? {
        return -1;
      }
      var idx := Match(devid, tag.value);
      if idx < 0 {
        return if tag.value == GFEN_TRACK_TAG then 0 else -1;
      }
      cmdq[idx] := cmdq[idx].(reply := Clip(CStr(mem), MAX_REPLY), valid := true);
      rc := 0;
    }
  }
}
