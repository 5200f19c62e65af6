/**
 Splitting what a tracker sends into events.  The program works in the receive buffer:
 it terminates each event with a NUL, hands the event on, and puts the overwritten
 character back.
 */
module EventSplitter {
  import opened CText
  import opened SeqTools

  /** Position of the first carriage return, or the length. */
  function LineEnd(s: string): (k: nat)
    ensures k <= |s|
  {
    if s == "" || s[0] == '\r' then 0 else 1 + LineEnd(s[1..])
  }

  lemma {:induction false} LineEndFirst(s: string)
    ensures forall i | 0 <= i < LineEnd(s) :: s[i] != '\r'
    ensures LineEnd(s) < |s| ==> s[LineEnd(s)] == '\r'
  {
    if s != "" && s[0] != '\r' {
      LineEndFirst(s[1..]);
    }
  }

  lemma LineEndIs(s: string, k: nat)
    requires k <= |s| && forall i | 0 <= i < k :: s[i] != '\r'
    requires k < |s| ==> s[k] == '\r'
    ensures LineEnd(s) == k
  {
    LineEndFirst(s);
    var j := LineEnd(s);
    assert !(j < k) && !(k < j);
  }

  /** Does the text start with an event? */
  predicate StartsEvent(s: string) {
    LineEnd(s) + 1 < |s| && s[LineEnd(s) + 1] == '\n'
  }

  /** The events in a text: lines closed by CRLF, up to the first that is not. */
  function Events(s: string): (es: seq<string>)
    decreases |s|
  {
    if StartsEvent(s) then [s[..LineEnd(s) + 2]] + Events(s[LineEnd(s) + 2..]) else []
  }

  function Concat(es: seq<string>): string {
    if es == [] then "" else es[0] + Concat(es[1..])
  }

  /** A line whose only carriage return is the one in its final CRLF. */
  ghost predicate IsEvent(l: string) {
    && |l| >= 2 && l[|l| - 2] == '\r' && l[|l| - 1] == '\n'
    && forall i | 0 <= i < |l| - 2 :: l[i] != '\r'
  }

  lemma FirstEvent(s: string)
    requires StartsEvent(s)
    ensures IsEvent(s[..LineEnd(s) + 2])
  {
    LineEndFirst(s);
  }

  lemma EventsStep(l: string, rest: string)
    requires IsEvent(l)
    ensures Events(l + rest) == [l] + Events(rest)
  {
    var s := l + rest;
    LineEndIs(s, |l| - 2);
    assert s[..|l|] == l && s[|l|..] == rest;
  }

  /** The events are such lines and, put together, a prefix of the text. */
  lemma {:induction false} EventsArePrefix(s: string)
    ensures forall i | 0 <= i < |Events(s)| :: IsEvent(Events(s)[i])
    ensures Concat(Events(s)) <= s
    decreases |s|
  {
    if StartsEvent(s) {
      var l, rest := s[..LineEnd(s) + 2], s[LineEnd(s) + 2..];
      FirstEvent(s);
      EventsArePrefix(rest);
      assert s == l + rest;
      assert Events(s)[1..] == Events(rest);
      PrefixBehind(l, Concat(Events(rest)), rest);
    }
  }

  lemma PrefixBehind(l: string, a: string, b: string)
    ensures a <= b <==> l + a <= l + b
  {
    if l + a <= l + b {
      assert a == (l + a)[|l|..] && b == (l + b)[|l|..];
      assert forall i | 0 <= i < |a| :: a[i] == (l + a)[|l| + i] == (l + b)[|l| + i] == b[i];
    }
  }

  /** No longer prefix of the text consists of such lines: any such list is an initial part of the events. */
  lemma {:induction false} EventsAreLongest(s: string, ls: seq<string>)
    requires forall i | 0 <= i < |ls| :: IsEvent(ls[i])
    requires Concat(ls) <= s
    ensures ls <= Events(s)
    decreases |ls|
  {
    if ls != [] {
      var l, tail := ls[0], ls[1..];
      assert l <= s;
      var rest := s[|l|..];
      assert s == l + rest;
      PrefixBehind(l, Concat(tail), rest);
      EventsAreLongest(rest, tail);
      EventsStep(l, rest);
    }
  }

  // ---------- in the buffer ----------

  /** The events from position `i` on, by position. */
  ghost function EventsFrom(text: string, i: nat): seq<string>
    requires i <= |text|
    decreases |text| - i
  {
    var k := ReturnFrom(text, i);
    if k + 1 < |text| && text[k + 1] == '\n' then [text[i..k + 2]] + EventsFrom(text, k + 2) else []
  }

  ghost function ReturnFrom(text: string, i: nat): (k: nat)
    requires i <= |text|
    ensures i <= k <= |text|
    decreases |text| - i
  {
    if i == |text| || text[i] == '\r' then i else ReturnFrom(text, i + 1)
  }

  lemma {:induction false} ReturnFromIs(text: string, i: nat)
    requires i <= |text|
    ensures ReturnFrom(text, i) == i + LineEnd(text[i..])
    decreases |text| - i
  {
    if i < |text| && text[i] != '\r' {
      ReturnFromIs(text, i + 1);
      assert text[i..][1..] == text[i + 1..];
    }
  }

  lemma {:induction false} EventsFromIs(text: string, i: nat, s: string)
    requires i <= |text| && s == text[i..]
    ensures EventsFrom(text, i) == Events(s)
    decreases |text| - i
  {
    var k := ReturnFrom(text, i);
    if k + 1 < |text| && text[k + 1] == '\n' {
      var rest := text[k + 2..];
      EventsFromIs(text, k + 2, rest);
      EventAt(text, i, k, s, rest);
      SameFirst(text, i, k, Events(s), Events(rest));
    } else {
      NoEventAt(text, i, k);
    }
  }

  lemma SameFirst(text: string, i: nat, k: nat, es: seq<string>, rest: seq<string>)
    requires i <= |text| && k == ReturnFrom(text, i) && k + 1 < |text| && text[k + 1] == '\n'
    requires es == [text[i..k + 2]] + rest && rest == EventsFrom(text, k + 2)
    ensures EventsFrom(text, i) == es
  {
  }

  lemma EventAt(text: string, i: nat, k: nat, s: string, rest: string)
    requires i <= |text| && k == ReturnFrom(text, i) && k + 1 < |text| && text[k + 1] == '\n'
    requires s == text[i..] && rest == text[k + 2..]
    ensures Events(s) == [text[i..k + 2]] + Events(rest)
  {
    ReturnFromIs(text, i);
    NextSlice(text, i, k + 2);
    SliceAt(text, i, k + 1);
    EventsUnfold(s, k - i, text[i..k + 2], rest);
  }

  lemma NoEventAt(text: string, i: nat, k: nat)
    requires i <= |text| && k == ReturnFrom(text, i) && !(k + 1 < |text| && text[k + 1] == '\n')
    ensures Events(text[i..]) == []
  {
    ReturnFromIs(text, i);
    if k + 1 < |text| {
      SliceAt(text, i, k + 1);
    }
    NoEvents(text[i..], k - i);
  }

  lemma SliceAt(text: string, i: nat, j: nat)
    requires i <= j < |text|
    ensures text[i..][j - i] == text[j]
  {
  }

  lemma NoEvents(s: string, k: nat)
    requires k == LineEnd(s) && !(k + 1 < |s| && s[k + 1] == '\n')
    ensures Events(s) == []
  {
  }

  lemma NextSlice(text: string, i: nat, j: nat)
    requires i <= j <= |text|
    ensures text[i..][..j - i] == text[i..j] && text[i..][j - i..] == text[j..]
  {
  }

  lemma EventsUnfold(s: string, k: nat, l: string, rest: string)
    requires k == LineEnd(s) && k + 1 < |s| && s[k + 1] == '\n' && s[..k + 2] == l && s[k + 2..] == rest
    ensures Events(s) == [l] + Events(rest)
  {
  }

  /** `text` is the C string in memory `mem`, with its terminating NUL inside. */
  ghost predicate Holds(mem: string, text: string) {
    && |text| < |mem| && mem[|text|] == '\0'
    && forall i | 0 <= i < |text| :: mem[i] == text[i] && text[i] != '\0'
  }

  /** The splitting loop of tracker_clientsrv. */
  method SplitEvents(buf: array<char>) returns (events: seq<string>)
    requires buf.Length > 0 && buf[buf.Length - 1] == '\0'
    modifies buf
    ensures buf[..] == old(buf[..])
    ensures events == Events(CStr(old(buf[..])))
  {
    ghost var mem := buf[..];
    ghost var text := CStr(mem);
    TextIsHeld(mem);
    assert text[0..] == text;
    EventsFromIs(text, 0, text);
    events := SplitText(buf, mem, text);
  }

  lemma TextIsHeld(mem: string)
    requires mem != "" && mem[|mem| - 1] == '\0'
    ensures Holds(mem, CStr(mem))
  {
    var text := CStr(mem);
    CStrIs(mem);
    assert forall i | 0 <= i < |text| :: mem[..|text|][i] == mem[i];
  }

  method SplitText(buf: array<char>, ghost mem: string, ghost text: string) returns (events: seq<string>)
    requires buf[..] == mem && Holds(mem, text)
    modifies buf
    ensures buf[..] == mem && events == EventsFrom(text, 0)
  {
    events := [];
    var ptr := 0;
    var more := buf[0] != '\0';
    assert mem[0] == buf[0];
    while more
      invariant buf[..] == mem && ptr <= |text|
      invariant events + EventsFrom(text, ptr) == EventsFrom(text, 0)
      invariant more <==> ptr < |text|
      decreases |text| - ptr
    {
      var end, isEvent := FindReturn(buf, ptr, mem, text);
      if !isEvent {
        assert EventsFrom(text, ptr) == [];
        return;
      }
      var event, oldchar := HandEventOn(buf, ptr, end, mem, text);
      Regroup(events, [event], EventsFrom(text, end + 2));
      events := events + [event];
      ptr := end + 2;
      more := oldchar != '\0';
    }
  }

  /** "while (*ptr && *ptr != '\r') ptr++", and the test that decides whether an event was found */
  method FindReturn(buf: array<char>, start: nat, ghost mem: string, ghost text: string)
    returns (ptr: nat, isEvent: bool)
    requires buf[..] == mem && Holds(mem, text) && start < |text|
    ensures ptr == ReturnFrom(text, start)
    ensures isEvent <==> ptr + 1 < |text| && text[ptr + 1] == '\n'
  {
    ptr := start;
    while buf[ptr] != '\0' && buf[ptr] != '\r'
      invariant start <= ptr <= |text|
      invariant ReturnFrom(text, start) == ReturnFrom(text, ptr)
      decreases |text| - ptr
    {
      assert mem[ptr] == buf[ptr];
      ptr := ptr + 1;
    }
    assert mem[ptr] == buf[ptr];
    isEvent := false;
    if buf[ptr] == '\r' {
      assert mem[ptr + 1] == buf[ptr + 1];
      isEvent := buf[ptr + 1] == '\n';
    }
  }

  /** Terminates the event that ends at `ptr`, reads it as a C string, and repairs the buffer. */
  method HandEventOn(buf: array<char>, start: nat, ptr: nat, ghost mem: string, ghost text: string)
    returns (event: string, oldchar: char)
    requires buf[..] == mem && Holds(mem, text) && start <= ptr && ptr + 1 < |text|
    modifies buf
    ensures buf[..] == mem && event == text[start..ptr + 2]
    ensures oldchar == '\0' <==> ptr + 2 == |text|
  {
    oldchar := buf[ptr + 2];
    assert mem[ptr + 2] == oldchar;
    buf[ptr + 2] := '\0';
    event := CStr(buf[start..]);
    ghost var line := text[start..ptr + 2];
    LineInMemory(mem, text, start, ptr, buf[start..]);
    buf[ptr + 2] := oldchar;
    assert buf[..] == mem;
  }

  lemma LineInMemory(mem: string, text: string, start: nat, ptr: nat, changed: string)
    requires Holds(mem, text) && start <= ptr && ptr + 1 < |text|
    requires changed == mem[start..][ptr + 2 - start := '\0']
    ensures CStr(changed) == text[start..ptr + 2]
  {
    var line := text[start..ptr + 2];
    var junk := changed[|line|..];
    assert changed == line + junk;
    CStrOfText(line, junk);
  }
}
