/**
 The tag of a reply as two threads read it: the tracker thread from its receive buffer, the
 command thread from its own copy, after the final CRLF has been cut off by a NUL.  Neither
 stops at the NUL while it looks for the end of the name.
 */
module ReplyCut {
  import opened Options
  import opened CText
  import opened Numbers
  import opened SeqTools
  import opened DeviceReply
  import opened CommandQueue
  import opened SendReply

  /** What is copied are the characters up to the first NUL, at most `k`. */
  lemma CopiedIs(p: string, k: nat, m: nat)
    requires m <= k && (forall i | 0 <= i < m :: At(p, i) != '\0') && (m == k || At(p, m) == '\0')
    ensures |Copied(p, k)| == m && forall i | 0 <= i < m :: Copied(p, k)[i] == At(p, i)
  {
    if m > 0 {
      assert At(p, m - 1) != '\0';
    }
    var part := if k <= |p| then p[..k] else p;
    assert part == part[..m] + part[m..];
    assert forall i | 0 <= i < m :: part[..m][i] == At(p, i);
    assert m < |part| ==> part[m..][0] == At(p, m);
    CStrOfText(part[..m], part[m..]);
  }

  /** Two memories with the same `n` characters, closed by CRLF in one and by NUL, LF, NUL in the other. */
  ghost predicate Twin(p: string, q: string, n: nat) {
    && (forall i | 0 <= i < n :: At(p, i) == At(q, i) != '\0')
    && At(p, n) == '\r' && At(q, n) == '\0' && At(q, n + 1) == '\n' && At(q, n + 2) == '\0'
  }

  lemma TwinFrom(p: string, q: string, n: nat, k: nat)
    requires Twin(p, q, n) && k <= n
    ensures Twin(From(p, k), From(q, k), n - k)
  {
    FromAt(p, k);
    FromAt(q, k);
  }

  /** The tag read from the start of `p`. */
  function TagText(p: string): string {
    Copied(p, Span(p, TAG_STOPS, TAG_LIMIT))
  }

  /** Both threads read the same tag: cutting the CR off only lets the tag run on to the LF. */
  lemma TwinTag(p: string, q: string, n: nat)
    requires Twin(p, q, n)
    ensures TagText(p) == TagText(q)
  {
    var k, l := Span(p, TAG_STOPS, TAG_LIMIT), Span(q, TAG_STOPS, TAG_LIMIT);
    assert k <= n;
    assert l <= n + 1;
    assert k < n && k < TAG_LIMIT ==> At(q, k) in TAG_STOPS;
    assert l < n && l < TAG_LIMIT ==> At(p, l) in TAG_STOPS;
    CopiedIs(p, k, k);
    CopiedIs(q, l, if l <= n then l else n);
    assert TagText(p) == TagText(q);
  }

  /** The name is not ended within these characters, and they are few enough for the search to run on. */
  ghost predicate OpenName(p: string, n: nat) {
    1 <= n <= 11 && forall i | 0 <= i < n :: At(p, i) !in NAME_STOPS
  }

  lemma SameNameSpan(p: string, q: string, n: nat, j: nat)
    requires Twin(p, q, n) && j < n && At(p, j) in NAME_STOPS
    ensures Span(p, NAME_STOPS, NAME_LIMIT) == Span(q, NAME_STOPS, NAME_LIMIT) < n
  {
    var k, l := Span(p, NAME_STOPS, NAME_LIMIT), Span(q, NAME_STOPS, NAME_LIMIT);
    assert k <= j && l <= j;
    assert !(k < l) && !(l < k);
  }

  /** Without a stop among the characters, only an open name can be followed by a tag. */
  lemma NoTagWithoutStop(q: string, p: string, n: nat, isOk: bool)
    requires Twin(p, q, n) && !OpenName(p, n) && forall i | 0 <= i < n :: At(p, i) !in NAME_STOPS
    requires ParseBody(q, isOk).Some?
    ensures ParseBody(q, isOk).value.tag == ""
  {
    var k := Span(q, NAME_STOPS, NAME_LIMIT);
    if n == 0 {
      CopiedIs(q, k, 0);
    } else {
      assert forall i | 0 <= i < n + 3 :: At(q, i) !in NAME_STOPS;
      SpanUnique(q, NAME_STOPS, NAME_LIMIT, NAME_LIMIT);
      assert At(q, NAME_LIMIT) != '+';
    }
  }

  /** A body with a tag has a name before it, ended by a plus sign. */
  lemma TaggedBody(q: string, isOk: bool, k: nat)
    requires k == Span(q, NAME_STOPS, NAME_LIMIT)
    requires ParseBody(q, isOk).Some? && ParseBody(q, isOk).value.tag != ""
    ensures k != NAME_LIMIT - 1 && At(q, k) == '+' && Copied(q, k) != ""
    ensures ParseBody(q, isOk).value.tag == TagText(From(q, k + 1))
  {
  }

  lemma BodyWithTag(p: string, isOk: bool, k: nat)
    requires k == Span(p, NAME_STOPS, NAME_LIMIT) && k != NAME_LIMIT - 1 && At(p, k) == '+' && Copied(p, k) != ""
    requires ParseBody(p, isOk).Some?
    ensures ParseBody(p, isOk).value.tag == TagText(From(p, k + 1))
  {
  }

  lemma StoppedTag(p: string, q: string, n: nat, j: nat, isOk: bool)
    requires Twin(p, q, n) && j < n && At(p, j) in NAME_STOPS
    requires ParseBody(p, isOk).Some? && ParseBody(q, isOk).Some? && ParseBody(q, isOk).value.tag != ""
    ensures ParseBody(p, isOk).value.tag == ParseBody(q, isOk).value.tag
  {
    var k := Span(q, NAME_STOPS, NAME_LIMIT);
    TaggedBody(q, isOk, k);
    SameNameSpan(p, q, n, j);
    NameTwin(p, q, n, k);
    BodyWithTag(p, isOk, k);
    TagTwin(p, q, n, k + 1);
  }

  lemma NameTwin(p: string, q: string, n: nat, k: nat)
    requires Twin(p, q, n) && k < n && At(q, k) == '+' && Copied(q, k) != ""
    ensures At(p, k) == '+' && Copied(p, k) != ""
  {
    CopiedIs(p, k, k);
    CopiedIs(q, k, k);
  }

  lemma TagTwin(p: string, q: string, n: nat, k: nat)
    requires Twin(p, q, n) && k <= n
    ensures TagText(From(p, k)) == TagText(From(q, k))
  {
    TwinFrom(p, q, n, k);
    TwinTag(From(p, k), From(q, k), n - k);
  }

  lemma BodyTag(p: string, q: string, n: nat, isOk: bool)
    requires Twin(p, q, n) && !OpenName(p, n)
    requires ParseBody(p, isOk).Some? && ParseBody(q, isOk).Some? && ParseBody(q, isOk).value.tag != ""
    ensures ParseBody(p, isOk).value.tag == ParseBody(q, isOk).value.tag
  {
    if j :| 0 <= j < n && At(p, j) in NAME_STOPS {
      StoppedTag(p, q, n, j, isOk);
    } else {
      NoTagWithoutStop(q, p, n, isOk);
      assert false;
    }
  }

  // ---------- the whole reply ----------

  /** The status the reply starts with, if it is one that a name follows. */
  function StatusOf(raw: string): Option<bool> {
    if At(raw, 0) != '$' then None
    else if IsOkStatus(raw) then Some(true)
    else if IsErrStatus(raw) && !IsDigit(At(raw, 5)) then Some(false)
    else None
  }

  function BodyStart(isOk: bool): nat {
    if isOk then 4 else 5
  }

  lemma ReplyIsBody(raw: string)
    ensures StatusOf(raw).Some? ==>
              var isOk := StatusOf(raw).value;
              ParseReply(raw) == ParseFields(ParseBody(From(raw, BodyStart(isOk)), isOk))
    ensures StatusOf(raw).None? && ParseReply(raw).Some? ==> ParseReply(raw).value.tag == ""
  {
  }

  lemma FieldsKeepTag(h: Option<Head>)
    requires ParseFields(h).Some?
    ensures h.Some? && ParseFields(h).value.tag == h.value.tag
  {
  }

  lemma TagOfBody(raw: string, isOk: bool, p: string)
    requires StatusOf(raw) == Some(isOk) && p == From(raw, BodyStart(isOk)) && ParseReply(raw).Some?
    ensures ParseBody(p, isOk).Some? && ParseBody(p, isOk).value.tag == ParseReply(raw).value.tag
  {
    ReplyIsBody(raw);
    FieldsKeepTag(ParseBody(p, isOk));
  }

  /**
   A status and a short name, neither followed by a tag nor by data: the search for the end of
   the name leaves the line.
   */
  ghost predicate OpenHead(text: string)
    requires EndsCrLf(text)
  {
    && StatusOf(text).Some?
    && var b := BodyStart(StatusOf(text).value);
       |text| >= b + 2 && OpenName(From(text, b), |text| - 2 - b)
  }

  /** The line in the receive buffer and the command thread's cut copy of it. */
  lemma CutTwin(mem: string, text: string, junk: string)
    requires text == Clip(CStr(mem), MAX_REPLY) && EndsCrLf(text)
    ensures Twin(mem, CutMemory(text, junk), |text| - 2)
    ensures forall i | 0 <= i < |text| :: At(mem, i) == text[i]
  {
    var cut, n := CutMemory(text, junk), |text| - 2;
    CStrIs(mem);
    assert forall i | 0 <= i < |text| :: text[i] == CStr(mem)[i] == mem[i];
    assert text[n] == '\r' && text[n + 1] == '\n';
    assert cut[n] == '\0' && cut[n + 1] == '\n' && cut[n + 2] == '\0';
  }

  lemma CutStatus(mem: string, cut: string, n: nat)
    requires Twin(mem, cut, n) && StatusOf(cut).Some?
    ensures StatusOf(mem) == StatusOf(cut) && BodyStart(StatusOf(cut).value) <= n
  {
    assert At(cut, 0) == '$' && At(cut, 3) != '\0' && n > 0;
  }

  lemma OpenInText(mem: string, text: string, isOk: bool)
    requires EndsCrLf(text) && (forall i | 0 <= i < |text| :: At(mem, i) == text[i])
    requires StatusOf(mem) == Some(isOk) && BodyStart(isOk) + 2 <= |text|
    ensures var b := BodyStart(isOk); OpenHead(text) <==> OpenName(From(mem, b), |text| - 2 - b)
  {
    var b := BodyStart(isOk);
    assert forall i | 0 <= i < |text| :: At(text, i) == At(mem, i);
    assert StatusOf(text) == StatusOf(mem);
    assert forall i | 0 <= i < |text| - 2 - b :: At(From(text, b), i) == At(From(mem, b), i);
  }

  /**
   Unless the name is left open, a tag that the command thread reads from its cut copy is the
   tag that the tracker thread read from the line, whatever lies in memory behind the line
   and behind the copy.
   */
  lemma CutKeepsTag(mem: string, text: string, junk: string)
    requires text == Clip(CStr(mem), MAX_REPLY) && EndsCrLf(text) && !OpenHead(text)
    requires ParseReply(mem).Some? && ParseReply(CutMemory(text, junk)).Some?
    requires ParseReply(CutMemory(text, junk)).value.tag != ""
    ensures ParseReply(mem).value.tag == ParseReply(CutMemory(text, junk)).value.tag
  {
    var cut, n := CutMemory(text, junk), |text| - 2;
    CutTwin(mem, text, junk);
    TagNeedsStatus(cut);
    CutStatus(mem, cut, n);
    var isOk := StatusOf(cut).value;
    var b := BodyStart(isOk);
    var p, q := From(mem, b), From(cut, b);
    OpenInText(mem, text, isOk);
    TagOfBody(mem, isOk, p);
    TagOfBody(cut, isOk, q);
    TwinFrom(mem, cut, n, b);
    BodyTag(p, q, n - b, isOk);
  }

  lemma TagNeedsStatus(raw: string)
    requires ParseReply(raw).Some? && ParseReply(raw).value.tag != ""
    ensures StatusOf(raw).Some?
  {
  }

  // ---------- an open name takes any tag ----------

  /** Memory behind a cut copy in which the search for the end of a name of `n` characters finds `tag`. */
  function Bait(n: nat, tag: string): string
    requires n <= 11
  {
    Repeat(11 - n, 'x') + ("+" + (tag + "\n"))
  }

  lemma BaitedBody(body: string, tag: string, isOk: bool)
    requires NulFree(body) && OpenName(body, |body|) && TagOk(tag) && |tag| <= 5
    ensures ParseBody(body + ("\0\n" + ("\0" + Bait(|body|, tag))), isOk) == Some(Head(isOk, body, tag, "\n"))
  {
    var n := |body|;
    var lead := "\0\n" + ("\0" + Repeat(11 - n, 'x'));
    var q := body + (lead + ("+" + (tag + "\n")));
    BaitText(body, Repeat(11 - n, 'x'), tag);
    BaitSpan(body, lead, tag + "\n");
    PlusAtLimit(q, isOk, body, tag + "\n");
    ParseOfTag(isOk, body, tag, "\n", 0);
    assert From("\n", 0) == "\n";
  }

  lemma BaitSpan(body: string, lead: string, after: string)
    requires NulFree(body) && OpenName(body, |body|) && |body| + |lead| == NAME_LIMIT && At(lead, 0) == '\0'
    requires forall i | 0 <= i < |lead| :: lead[i] !in NAME_STOPS
    ensures var q := body + (lead + ("+" + after));
            && Span(q, NAME_STOPS, NAME_LIMIT) == NAME_LIMIT && Copied(q, NAME_LIMIT) == body
            && At(q, NAME_LIMIT) == '+' && From(q, NAME_LIMIT + 1) == after
  {
    BaitParts(body, lead, after);
    SpanUnique(body + (lead + ("+" + after)), NAME_STOPS, NAME_LIMIT, NAME_LIMIT);
    CopiedBody(body, lead + ("+" + after));
  }

  lemma PlusAtLimit(q: string, isOk: bool, name: string, rest: string)
    requires Span(q, NAME_STOPS, NAME_LIMIT) == NAME_LIMIT && Copied(q, NAME_LIMIT) == name != ""
    requires At(q, NAME_LIMIT) == '+' && From(q, NAME_LIMIT + 1) == rest
    ensures ParseBody(q, isOk) == ParseTag(rest, isOk, name)
  {
  }

  lemma BaitParts(body: string, lead: string, after: string)
    ensures var q, n := body + (lead + ("+" + after)), |body| + |lead|;
            && (forall i | 0 <= i < |body| :: At(q, i) == At(body, i))
            && (forall i | |body| <= i < n :: At(q, i) == lead[i - |body|])
            && At(q, n) == '+' && From(q, n + 1) == after
  {
    var q, n := body + (lead + ("+" + after)), |body| + |lead|;
    assert q[n + 1..] == after;
  }

  lemma BaitText(body: string, filler: string, tag: string)
    ensures body + ("\0\n" + ("\0" + (filler + ("+" + (tag + "\n")))))
            == body + (("\0\n" + ("\0" + filler)) + ("+" + (tag + "\n")))
  {
    Regroup("\0", filler, "+" + (tag + "\n"));
    Regroup("\0\n", "\0" + filler, "+" + (tag + "\n"));
  }

  lemma CopiedBody(body: string, after: string)
    requires NulFree(body) && |body| < NAME_LIMIT && At(after, 0) == '\0'
    ensures Copied(body + after, NAME_LIMIT) == body
  {
    CopiedText(body, after, NAME_LIMIT - |body|);
  }

  lemma CutBody(text: string, b: nat, junk: string)
    requires EndsCrLf(text) && b + 2 <= |text|
    ensures From(CutMemory(text, junk), b) == text[b..|text| - 2] + ("\0\n" + ("\0" + junk))
  {
  }

  lemma StatusOfCut(text: string, junk: string)
    requires EndsCrLf(text) && NulFree(text) && OpenHead(text)
    ensures StatusOf(CutMemory(text, junk)) == StatusOf(text)
  {
    var cut, b := CutMemory(text, junk), BodyStart(StatusOf(text).value);
    assert forall i | 0 <= i < |text| - 2 :: At(cut, i) == At(text, i);
  }

  lemma BodyOfText(text: string, b: nat)
    requires EndsCrLf(text) && NulFree(text) && b + 2 <= |text| && OpenName(From(text, b), |text| - 2 - b)
    ensures var body := text[b..|text| - 2]; NulFree(body) && OpenName(body, |body|)
  {
    var body := text[b..|text| - 2];
    assert forall i | 0 <= i < |body| :: body[i] == text[b + i] == At(From(text, b), i);
  }

  /** The command thread reads the baited tag from its cut copy. */
  lemma BaitIsTaken(text: string, tag: string)
    requires EndsCrLf(text) && NulFree(text) && OpenHead(text) && TagOk(tag) && |tag| <= 5
    ensures var isOk := StatusOf(text).value;
            var body := text[BodyStart(isOk)..|text| - 2];
            && |body| <= 11
            && ParseReply(CutMemory(text, Bait(|body|, tag))) == Some(Reply(isOk, body, tag, []))
  {
    var isOk := StatusOf(text).value;
    var b := BodyStart(isOk);
    var body := text[b..|text| - 2];
    BodyOfText(text, b);
    var junk := Bait(|body|, tag);
    StatusOfCut(text, junk);
    ReplyIsBody(CutMemory(text, junk));
    CutBody(text, b, junk);
    BaitedBody(body, tag, isOk);
  }

  /**
   A reply with an open name passes for the answer to any command, given the right memory
   behind it (and, for an error reply, behind the empty field list).
   */
  lemma OpenHeadTakesAnyTag(text: string, tag: string)
    requires EndsCrLf(text) && NulFree(text) && OpenHead(text) && TagOk(tag) && |tag| <= 5
    ensures exists stale, junk :: SendResult(text, tag, stale, junk) == 0
  {
    var isOk := StatusOf(text).value;
    var body := text[BodyStart(isOk)..|text| - 2];
    BaitIsTaken(text, tag);
    var stale, junk := PrintNat(UINT_RANGE - 1), Bait(|body|, tag);
    var cut := CutMemory(text, junk);
    assert At(cut, 0) == '$';
    MinusOneText();
    VerdictOfPlain(cut, isOk, body, tag, stale);
    assert SendResult(text, tag, stale, junk) == 0;
  }

  lemma VerdictOfPlain(cut: string, isOk: bool, name: string, tag: string, stale: string)
    requires At(cut, 0) == '$' && ParseReply(cut) == Some(Reply(isOk, name, tag, [])) && Atoi(stale) == -1
    ensures Verdict(cut, tag, stale) == 0
  {
  }

  lemma MinusOneText()
    ensures Atoi(PrintNat(UINT_RANGE - 1)) == -1
  {
    AtoiOfPrintNat(UINT_RANGE - 1);
    ToInt32MinusOne(UINT_RANGE - 1);
  }

  /** What a location line is worth does not depend on the command. */
  lemma LocationSucceeds(text: string, tag: string, stale: string, junk: string)
    requires EndsCrLf(text) && NulFree(text) && IsLocation(text[..|text| - 2])
    ensures SendResult(text, tag, stale, junk) == 0
  {
    CStrOfText(text[..|text| - 2], "\0\n" + ("\0" + junk));
  }
}
