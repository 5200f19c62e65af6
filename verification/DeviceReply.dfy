/**
 Replies of a tracking device: "$OK:<name>+<tag>=<fields>" and "$ERR:...".
 The parser (extract_devcmd_reply) walks raw memory: it does not stop at a NUL while
 it looks for the end of the name or of the tag.
 */
module DeviceReply {
  import opened Options
  import opened CText
  import opened Numbers
  import opened SeqTools
  import opened FieldSplitter

  const SIZE_MAX: nat := 0xFFFF_FFFF_FFFF_FFFF
  const NAME_LIMIT: nat := 14
  const TAG_LIMIT: nat := 7
  const NAME_STOPS: set<char> := {'+', '='}
  const TAG_STOPS: set<char> := {'=', '\r', '\n'}

  datatype Reply = Reply(isOk: bool, name: string, tag: string, fields: seq<string>)

  /** Number of leading characters outside `stops`, but at most `limit`. */
  function Span(mem: string, stops: set<char>, limit: nat): (k: nat)
    ensures k <= limit
    ensures forall i | 0 <= i < k :: At(mem, i) !in stops
    ensures k < limit ==> At(mem, k) in stops
    decreases mem
  {
    if limit == 0 || At(mem, 0) in stops then 0
    else if mem == "" then limit
    else
      var k := Span(mem[1..], stops, limit - 1);
      assert forall i | 0 < i < k + 1 :: At(mem, i) == At(mem[1..], i - 1);
      k + 1
  }

  lemma SpanUnique(mem: string, stops: set<char>, limit: nat, k: nat)
    requires k <= limit
    requires forall i | 0 <= i < k :: At(mem, i) !in stops
    requires k < limit ==> At(mem, k) in stops
    ensures Span(mem, stops, limit) == k
  {
    var j := Span(mem, stops, limit);
    assert !(j < k) && !(k < j);
  }

  /** The C loop "while (max-- > 0 && *pp is no stop) ++pp", including the wrap of `max` below 0. */
  method ScanTo(mem: string, stops: set<char>, limit: nat) returns (k: nat, max: nat)
    requires 0 < limit <= SIZE_MAX
    ensures k == Span(mem, stops, limit)
    ensures max == 0 <==> k == limit - 1
  {
    k, max := 0, limit;
    while max > 0 && At(mem, k) !in stops
      invariant k == limit - max
      invariant forall i | 0 <= i < k :: At(mem, i) !in stops
    {
      max := max - 1;
      k := k + 1;
    }
    SpanUnique(mem, stops, limit, k);
    max := if max == 0 then SIZE_MAX else max - 1;
  }

  /** What comes before the fields; `data` is the memory from where they may start. */
  datatype Head = Head(isOk: bool, name: string, tag: string, data: string)

  /** What follows the status: a name, perhaps a tag. */
  function ParseBody(p: string, isOk: bool): Option<Head> {
    HeadAt(p, isOk, Span(p, NAME_STOPS, NAME_LIMIT), Copied(p, Span(p, NAME_STOPS, NAME_LIMIT)))
  }

  /** ... when the name has been found to be the first `k` characters. */
  function HeadAt(p: string, isOk: bool, k: nat, name: string): Option<Head> {
    if k == NAME_LIMIT - 1 then None
    else if At(p, k) != '+' then Some(Head(isOk, name, "", From(p, k)))
    else if name == "" then None
    else ParseTag(From(p, k + 1), isOk, name)
  }

  function ParseTag(p: string, isOk: bool, name: string): Option<Head> {
    var k := Span(p, TAG_STOPS, TAG_LIMIT);
    if k == TAG_LIMIT - 1 then None else Some(Head(isOk, name, Copied(p, k), From(p, k)))
  }

  /** The fields behind the head, if there are any. */
  ghost function ParseFields(h: Option<Head>): Option<Reply> {
    if h.None? then None
    else if At(h.value.data, 0) in {'\0', '\r', '\n'} then
      Some(Reply(h.value.isOk, h.value.name, h.value.tag, []))
    else
      var rest := CStr(From(h.value.data, 1));
      if Splittable(rest, ',') then Some(Reply(h.value.isOk, h.value.name, h.value.tag, Split(rest, ','))) else None
  }

  predicate IsOkStatus(raw: string) {
    At(raw, 1) == 'O' && At(raw, 2) == 'K' && At(raw, 3) == ':'
  }

  predicate IsErrStatus(raw: string) {
    At(raw, 1) == 'E' && At(raw, 2) == 'R' && At(raw, 3) == 'R' && At(raw, 4) == ':'
  }

  /** The reply found at the start of the memory `raw`, if any. */
  ghost function ParseReply(raw: string): Option<Reply> {
    if At(raw, 0) != '$' then None
    else if IsOkStatus(raw) then ParseFields(ParseBody(From(raw, 4), true))
    else if !IsErrStatus(raw) then None
    else if IsDigit(At(raw, 5)) then Some(Reply(false, "", "", [[At(raw, 5)]]))
    else ParseFields(ParseBody(From(raw, 5), false))
  }

  /** extract_devcmd_reply. */
  method ExtractReply(raw: string) returns (r: Option<Reply>)
    ensures r == ParseReply(raw)
  {
    if At(raw, 0) != '$' {
      return None;
    }
    var head;
    if IsOkStatus(raw) {
      head := ExtractBody(From(raw, 4), true);
    } else if IsErrStatus(raw) {
      if IsDigit(At(raw, 5)) {
        return Some(Reply(false, "", "", [[At(raw, 5)]]));
      }
      head := ExtractBody(From(raw, 5), false);
    } else {
      return None;
    }
    r := ExtractFields(head);
  }

  method ExtractBody(start: string, isOk: bool) returns (h: Option<Head>)
    ensures h == ParseBody(start, isOk)
  {
    var k, max := ScanTo(start, NAME_STOPS, NAME_LIMIT);
    if max == 0 {
      return None;
    }
    h := ExtractHead(start, isOk, k, Copied(start, k));
  }

  method ExtractHead(p: string, isOk: bool, k: nat, name: string) returns (h: Option<Head>)
    requires k != NAME_LIMIT - 1
    ensures h == HeadAt(p, isOk, k, name)
  {
    if At(p, k) != '+' {
      return Some(Head(isOk, name, "", From(p, k)));
    }
    if name == "" {
      return None;
    }
    h := ExtractTag(From(p, k + 1), isOk, name);
  }

  method ExtractTag(p: string, isOk: bool, name: string) returns (h: Option<Head>)
    ensures h == ParseTag(p, isOk, name)
  {
    var k, max := ScanTo(p, TAG_STOPS, TAG_LIMIT);
    h := if max == 0 then None else Some(Head(isOk, name, Copied(p, k), From(p, k)));
  }

  method ExtractFields(h: Option<Head>) returns (r: Option<Reply>)
    ensures r == ParseFields(h)
  {
    if h.None? {
      return None;
    }
    if At(h.value.data, 0) in {'\0', '\r', '\n'} {
      return Some(Reply(h.value.isOk, h.value.name, h.value.tag, []));
    }
    var ok, fields := SplitFields(CStr(From(h.value.data, 1)), ',');
    r := if ok then Some(Reply(h.value.isOk, h.value.name, h.value.tag, fields)) else None;
  }

  // ---------- printing, as the device does it ----------

  function Status(isOk: bool): string {
    if isOk then "$OK:" else "$ERR:"
  }

  function PrintHead(isOk: bool, name: string, tag: string): string {
    Status(isOk) + (name + ("+" + tag))
  }

  /** Names and tags the wire format can carry. */
  ghost predicate NameOk(isOk: bool, name: string) {
    && name != "" && NulFree(name) && Free(name, '+') && Free(name, '=')
    && (!isOk ==> !IsDigit(name[0]))
  }

  ghost predicate TagOk(tag: string) {
    NulFree(tag) && Free(tag, '=') && Free(tag, '\r') && Free(tag, '\n')
  }

  lemma ParseOfStatus(isOk: bool, body: string)
    requires !isOk ==> !IsDigit(At(body, 0))
    ensures ParseReply(Status(isOk) + body) == ParseFields(ParseBody(body, isOk))
  {
    if isOk {
      OkStatus(body);
    } else {
      ErrStatus(body);
    }
  }

  lemma OkStatus(body: string)
    ensures ParseReply("$OK:" + body) == ParseFields(ParseBody(body, true))
  {
    var raw := "$OK:" + body;
    assert From(raw, 4) == body;
    assert At(raw, 0) == '$' && At(raw, 1) == 'O' && At(raw, 2) == 'K' && At(raw, 3) == ':';
  }

  lemma ErrStatus(body: string)
    requires !IsDigit(At(body, 0))
    ensures ParseReply("$ERR:" + body) == ParseFields(ParseBody(body, false))
  {
    var raw := "$ERR:" + body;
    assert From(raw, 5) == body && At(raw, 5) == At(body, 0);
    assert At(raw, 0) == '$' && At(raw, 1) == 'E' && At(raw, 2) == 'R' && At(raw, 3) == 'R' && At(raw, 4) == ':';
  }

  /** The short error form: the digit is the only field, and there is neither name nor tag. */
  lemma ParseOfShortError(d: char, rest: string)
    requires '0' <= d <= '9'
    ensures ParseReply("$ERR:" + ([d] + rest)) == Some(Reply(false, "", "", [[d]]))
  {
    var raw := "$ERR:" + ([d] + rest);
    assert At(raw, 0) == '$' && At(raw, 1) == 'E' && At(raw, 2) == 'R' && At(raw, 3) == 'R' && At(raw, 4) == ':';
    assert At(raw, 5) == d;
  }

  lemma NameSpan(name: string, after: string)
    requires name != "" && NulFree(name) && Free(name, '+') && Free(name, '=')
    ensures var p := name + ("+" + after);
            && Span(p, NAME_STOPS, NAME_LIMIT) == (if |name| < NAME_LIMIT then |name| else NAME_LIMIT)
            && Copied(p, Span(p, NAME_STOPS, NAME_LIMIT)) == Clip(name, NAME_LIMIT)
            && At(p, |name|) == '+' && From(p, |name| + 1) == after
            && forall i | 0 <= i < |name| :: At(p, i) == name[i]
  {
    var p := name + ("+" + after);
    var head := Clip(name, NAME_LIMIT);
    var tail := p[|head|..];
    assert forall i | 0 <= i < |name| :: At(p, i) == name[i];
    SpanUnique(p, NAME_STOPS, NAME_LIMIT, |head|);
    assert p == head + tail;
    CopiedText(head, tail, 0);
  }

  /** A name of 13 characters is refused; one of more than 14 is cut, and what follows is not read as a tag. */
  lemma ParseOfName(isOk: bool, name: string, after: string)
    requires NameOk(isOk, name)
    ensures ParseBody(name + ("+" + after), isOk)
            == if |name| == NAME_LIMIT - 1 then None
               else if |name| <= NAME_LIMIT then ParseTag(after, isOk, name)
               else Some(Head(isOk, name[..NAME_LIMIT], "", From(name + ("+" + after), NAME_LIMIT)))
  {
    NameSpan(name, after);
  }

  lemma TagSpan(tag: string, after: string, pad: nat)
    requires TagOk(tag) && (forall i | 0 <= i < pad :: At(after, i) == '\0') && At(after, pad) in TAG_STOPS
    ensures var p, k := tag + after, |tag| + pad;
            && Span(p, TAG_STOPS, TAG_LIMIT) == (if k < TAG_LIMIT then k else TAG_LIMIT)
            && Copied(p, Span(p, TAG_STOPS, TAG_LIMIT)) == Clip(tag, TAG_LIMIT)
  {
    var p, k := tag + after, |tag| + pad;
    assert forall i | 0 <= i < |tag| :: At(p, i) == tag[i];
    assert forall i | |tag| <= i <= k :: At(p, i) == At(after, i - |tag|);
    SpanUnique(p, TAG_STOPS, TAG_LIMIT, if k < TAG_LIMIT then k else TAG_LIMIT);
    if |tag| < TAG_LIMIT {
      CopiedText(tag, after, if k < TAG_LIMIT then pad else TAG_LIMIT - |tag|);
    } else {
      assert p == tag[..TAG_LIMIT] + (tag[TAG_LIMIT..] + after);
      CopiedText(tag[..TAG_LIMIT], tag[TAG_LIMIT..] + after, 0);
    }
  }

  /** A tag of 6 characters is refused, counting NULs behind it; one of more than 7 is cut. */
  lemma ParseOfTag(isOk: bool, name: string, tag: string, after: string, pad: nat)
    requires TagOk(tag) && (forall i | 0 <= i < pad :: At(after, i) == '\0') && At(after, pad) in TAG_STOPS
    ensures ParseTag(tag + after, isOk, name)
            == if |tag| + pad == TAG_LIMIT - 1 then None
               else if |tag| + pad <= TAG_LIMIT then Some(Head(isOk, name, tag, From(after, pad)))
               else Some(Head(isOk, name, Clip(tag, TAG_LIMIT), From(tag + after, TAG_LIMIT)))
  {
    TagSpan(tag, after, pad);
    assert From(tag + after, |tag| + pad) == From(after, pad);
  }

  /** What the parser makes of a printed head, for every length of name and tag. */
  function HeadResult(isOk: bool, name: string, tag: string, after: string, pad: nat): Option<Head> {
    if |name| == 13 then None
    else if |name| > 14 then Some(Head(isOk, name[..14], "", From(name + ("+" + (tag + after)), 14)))
    else if |tag| + pad == 6 then None
    else if |tag| + pad <= 7 then Some(Head(isOk, name, tag, From(after, pad)))
    else Some(Head(isOk, name, Clip(tag, 7), From(tag + after, 7)))
  }

  /**
   Name and tag are found where they were printed, whatever memory follows; the two length
   guards refuse exactly 13-character names and 6-character tags, and let longer ones through
   cut short.
   */
  lemma ParseOfHead(isOk: bool, name: string, tag: string, after: string, pad: nat)
    requires NameOk(isOk, name) && TagOk(tag)
    requires (forall i | 0 <= i < pad :: At(after, i) == '\0') && At(after, pad) in TAG_STOPS
    ensures ParseReply(PrintHead(isOk, name, tag) + after) == ParseFields(HeadResult(isOk, name, tag, after, pad))
  {
    var body := name + ("+" + (tag + after));
    HeadText(Status(isOk), name, tag, after);
    assert At(body, 0) == name[0];
    ParseOfStatus(isOk, body);
    ParseOfName(isOk, name, tag + after);
    ParseOfTag(isOk, name, tag, after, pad);
  }

  lemma HeadText(status: string, name: string, tag: string, after: string)
    ensures (status + (name + ("+" + tag))) + after == status + (name + ("+" + (tag + after)))
  {
    Regroup("+", tag, after);
    Regroup(name, "+" + tag, after);
    Regroup(status, name + ("+" + tag), after);
  }

  /** A name above the limit costs the reply its tag, whatever the tag is. */
  lemma LongNameLosesTag(isOk: bool, name: string, tag: string, after: string, pad: nat)
    requires NameOk(isOk, name) && TagOk(tag) && |name| > NAME_LIMIT
    requires (forall i | 0 <= i < pad :: At(after, i) == '\0') && At(after, pad) in TAG_STOPS
    ensures var r := ParseReply(PrintHead(isOk, name, tag) + after);
            r.Some? ==> r.value.tag == "" && r.value.name == name[..NAME_LIMIT]
  {
    ParseOfHead(isOk, name, tag, after, pad);
  }

  lemma ParseOfData(isOk: bool, name: string, tag: string, data: string, junk: string)
    requires NulFree(data) && At(junk, 0) == '\0'
    ensures ParseFields(Some(Head(isOk, name, tag, "=" + (data + junk))))
            == if Splittable(data, ',') then Some(Reply(isOk, name, tag, Split(data, ','))) else None
  {
    assert From("=" + (data + junk), 1) == data + junk;
    CStrOfText(data, junk);
  }

  /**
   Parsing inverts printing, with data.  The result does not depend on the memory behind
   the terminating NUL.
   */
  lemma ParseOfPrintWithFields(isOk: bool, name: string, tag: string, fields: seq<string>, junk: string)
    requires NameOk(isOk, name) && |name| <= 12
    requires TagOk(tag) && |tag| <= 5
    requires fields != [] && forall i | 0 <= i < |fields| :: Free(fields[i], ',')
    requires NulFree(Join(fields, ',')) && Splittable(Join(fields, ','), ',')
    requires At(junk, 0) == '\0'
    ensures ParseReply(PrintHead(isOk, name, tag) + ("=" + (Join(fields, ',') + junk)))
            == Some(Reply(isOk, name, tag, fields))
  {
    var data := Join(fields, ',');
    ParseOfDataLine(isOk, name, tag, data, junk);
    SplitOfJoin(fields, ',');
  }

  lemma ParseOfDataLine(isOk: bool, name: string, tag: string, data: string, junk: string)
    requires NameOk(isOk, name) && |name| <= 12 && TagOk(tag) && |tag| <= 5
    requires NulFree(data) && At(junk, 0) == '\0'
    ensures ParseReply(PrintHead(isOk, name, tag) + ("=" + (data + junk)))
            == if Splittable(data, ',') then Some(Reply(isOk, name, tag, Split(data, ','))) else None
  {
    var after := "=" + (data + junk);
    ParseOfHead(isOk, name, tag, after, 0);
    ShortHead(isOk, name, tag, after);
    ParseOfData(isOk, name, tag, data, junk);
  }

  lemma ShortHead(isOk: bool, name: string, tag: string, after: string)
    requires |name| <= 12 && |tag| <= 5
    ensures HeadResult(isOk, name, tag, after, 0) == Some(Head(isOk, name, tag, after))
  {
    assert From(after, 0) == after;
  }

  /** Parsing inverts printing for a reply without data, closed by CRLF. */
  lemma ParseOfPrintPlain(isOk: bool, name: string, tag: string, junk: string)
    requires NameOk(isOk, name) && |name| <= 12
    requires TagOk(tag) && |tag| <= 5
    ensures ParseReply(PrintHead(isOk, name, tag) + ("\r\n" + junk))
            == Some(Reply(isOk, name, tag, []))
  {
    ParseOfHead(isOk, name, tag, "\r\n" + junk, 0);
  }

  /**
   The same after the caller has overwritten the CR with a NUL: the newline left behind
   still ends the tag, but the NUL now counts towards its length.
   */
  lemma ParseOfPrintCut(isOk: bool, name: string, tag: string, junk: string)
    requires NameOk(isOk, name) && |name| <= 12
    requires TagOk(tag) && |tag| <= 5
    ensures ParseReply(PrintHead(isOk, name, tag) + ("\0\n" + junk))
            == if |tag| == 5 then None else Some(Reply(isOk, name, tag, []))
  {
    ParseOfHead(isOk, name, tag, "\0\n" + junk, 1);
  }
}
