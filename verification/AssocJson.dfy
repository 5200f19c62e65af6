/**
 Export of an associative array to JSON text and import of such text.  The parser is a
 cursor walking over NUL-terminated text; a cursor is modelled by the text behind it.
 */
module AssocJson {
  import opened CText
  import opened Numbers
  import opened AssocArray

  const BUF_SIZE: nat := 10240
  const NAME_SIZE: nat := 1024
  const KEY_SIZE: nat := 64
  const CAT_LIMIT: nat := 51199

  /** Outcome of a parsing step: success, text read, and where the cursor now stands. */
  datatype Parsed = Parsed(ok: bool, text: string, rest: string)

  // ---------- what the parser does ----------

  predicate IsWhite(c: char) {
    c == ' ' || c == '\t' || c == '\n'
  }

  function SkipWhite(p: string): (q: string)
    ensures |q| <= |p| && !IsWhite(At(q, 0))
    ensures !IsWhite(At(p, 0)) ==> q == p
  {
    if p != "" && IsWhite(p[0]) then SkipWhite(p[1..]) else p
  }

  /** The inside of a quoted string, with room for `room` characters including the NUL. */
  function StrBody(p: string, room: nat): (r: Parsed)
    ensures |r.rest| <= |p|
    decreases |p|
  {
    if room <= 1 || At(p, 0) == '\0' then Parsed(true, "", p)
    else if At(p, 0) == '\\' && At(p, 1) == '"' then
      if room < 3 then Parsed(false, "", p)
      else
        var r := StrBody(p[2..], room - 2);
        r.(text := "\\\"" + r.text)
    else if At(p, 0) == '"' then Parsed(true, "", p[1..])
    else
      var r := StrBody(p[1..], room - 1);
      r.(text := [p[0]] + r.text)
  }

  function Str(p: string, room: nat): (r: Parsed)
    ensures |r.rest| <= |p| && (r.ok ==> |r.rest| < |p|)
  {
    var q := SkipWhite(p);
    if At(q, 0) != '"' then Parsed(false, "", q) else StrBody(q[1..], room)
  }

  predicate IsNumChar(c: char) {
    IsDigit(c) || c == '.'
  }

  function NumBody(p: string, room: nat): (r: Parsed)
    ensures r.ok && |r.rest| <= |p|
  {
    if room <= 1 || p == "" || !IsNumChar(p[0]) then Parsed(true, "", p)
    else
      var r := NumBody(p[1..], room - 1);
      r.(text := [p[0]] + r.text)
  }

  function Num(p: string, room: nat): (r: Parsed)
    ensures |r.rest| <= |p|
  {
    var q := SkipWhite(p);
    if IsDigit(At(q, 0)) then NumBody(q, room) else Parsed(false, "", q)
  }

  function Expect(p: string, c: char): (r: Parsed)
    requires c != '\0'
    ensures |r.rest| <= |p| && (r.ok ==> |r.rest| < |p|)
  {
    var q := SkipWhite(p);
    if At(q, 0) == c then Parsed(true, "", q[1..]) else Parsed(false, "", q)
  }

  datatype Member = Member(ok: bool, name: string, value: string, rest: string)

  /** name ':' value, where the value reader is chosen by `kind`. */
  datatype Kind = StringValue | NumberValue | AnyValue

  function MemberOf(p: string, kind: Kind): (m: Member)
    ensures |m.rest| <= |p| && (m.ok ==> |m.rest| < |p|)
  {
    var n := Str(p, BUF_SIZE);
    if !n.ok then Member(false, "", "", n.rest)
    else
      var c := Expect(n.rest, ':');
      if !c.ok then Member(false, n.text, "", c.rest)
      else
        var asString := kind == StringValue || (kind == AnyValue && At(SkipWhite(c.rest), 0) == '"');
        var v := if asString then Str(c.rest, BUF_SIZE) else Num(c.rest, BUF_SIZE);
        Member(v.ok, n.text, v.text, v.rest)
  }

  datatype Loaded = Loaded(ok: bool, rest: string, pairs: seq<Pair>)

  /** The loop over "{ name : value }" items. */
  function Items(p: string, s: seq<Pair>): (r: Loaded)
    ensures |r.rest| <= |p|
    decreases |p|
  {
    if At(p, 0) == '\0' then Loaded(true, p, s)
    else
      var open := Expect(p, '{');
      if !open.ok then Loaded(false, open.rest, s)
      else
        var m := MemberOf(open.rest, AnyValue);
        if !m.ok then Loaded(false, m.rest, s)
        else
          var close := Expect(m.rest, '}');
          if !close.ok then Loaded(false, close.rest, s)
          else
            var t := Put(s, Pair(m.name, m.value));
            var comma := Expect(close.rest, ',');
            if comma.ok then Items(comma.rest, t) else Loaded(true, comma.rest, t)
  }

  function Vector(p: string, s: seq<Pair>): Loaded {
    var open := Expect(p, '[');
    if !open.ok then Loaded(false, open.rest, s)
    else
      var r := Items(open.rest, s);
      if !r.ok then r
      else
        var close := Expect(r.rest, ']');
        Loaded(close.ok, close.rest, r.pairs)
  }

  /** The fixed members before the vector; Fail with the list untouched. */
  function Prologue(p: string): Parsed {
    var open := Expect(p, '{');
    if !open.ok then open
    else
      var id := MemberOf(open.rest, StringValue);
      if !id.ok || id.name != "_id" || id.value != "assoc_array" then Parsed(false, "", id.rest)
      else
        var c1 := Expect(id.rest, ',');
        if !c1.ok then c1
        else
          var num := MemberOf(c1.rest, NumberValue);
          if !num.ok then Parsed(false, "", num.rest) else PrologueEnd(num.rest)
  }

  function PrologueEnd(p: string): Parsed {
    var c2 := Expect(p, ',');
    if !c2.ok then c2
    else
      var max := MemberOf(c2.rest, NumberValue);
      if !max.ok then Parsed(false, "", max.rest)
      else
        var c3 := Expect(max.rest, ',');
        if !c3.ok then c3
        else
          var key := Str(c3.rest, KEY_SIZE);
          if !key.ok || key.text != "pairs" then Parsed(false, "", key.rest)
          else Expect(key.rest, ':')
  }

  /** The result code and the new list; a failed vector is only noticed by the missing brace. */
  function Import(p: string, s: seq<Pair>): (int, seq<Pair>) {
    var head := Prologue(p);
    if !head.ok then (-1, s)
    else
      var v := Vector(head.rest, s);
      (if Expect(v.rest, '}').ok then 0 else -1, v.pairs)
  }

  // ---------- the loops ----------

  /** _parse_ss */
  method SkipLoop(p: string) returns (q: string)
    ensures q == SkipWhite(p)
  {
    q := p;
    while At(q, 0) != '\0' && IsWhite(At(q, 0))
      invariant SkipWhite(q) == SkipWhite(p)
      decreases |q|
    {
      q := q[1..];
    }
  }

  /** _parse_str */
  method StrLoop(p: string, size: nat) returns (r: Parsed)
    requires size > 0
    ensures r == Str(p, size)
  {
    var q := SkipLoop(p);
    if At(q, 0) == '\0' || At(q, 0) != '"' {
      return Parsed(false, "", q);
    }
    q := q[1..];
    var text, room := "", size;
    ghost var whole := StrBody(q, size);
    while room > 1 && At(q, 0) != '\0'
      invariant room > 0
      invariant whole == StrBody(q, room).(text := text + StrBody(q, room).text)
      decreases |q|
    {
      if At(q, 0) == '\\' && At(q, 1) == '"' {
        if room < 3 {
          return Parsed(false, text, q);
        }
        assert q[2..] == q[1..][1..];
        text := text + "\\\"";
        q := q[2..];
        room := room - 2;
      } else if At(q, 0) == '"' {
        return Parsed(true, text, q[1..]);
      } else {
        text := text + [q[0]];
        q := q[1..];
        room := room - 1;
      }
    }
    r := Parsed(true, text, q);
  }

  /** _parse_number */
  method NumLoop(p: string, size: nat) returns (r: Parsed)
    ensures r == Num(p, size)
  {
    var q := SkipLoop(p);
    if !IsDigit(At(q, 0)) {
      return Parsed(false, "", q);
    }
    var text, room := "", size;
    ghost var whole := NumBody(q, size);
    while room > 1 && At(q, 0) != '\0' && IsNumChar(At(q, 0))
      invariant whole == NumBody(q, room).(text := text + NumBody(q, room).text)
      decreases |q|
    {
      text := text + [q[0]];
      q := q[1..];
      room := room - 1;
    }
    r := Parsed(true, text, q);
  }

  /** _parse_pair and its two typed variants */
  method ReadMember(p: string, kind: Kind) returns (m: Member)
    ensures m == MemberOf(p, kind)
  {
    var n := StrLoop(p, BUF_SIZE);
    if !n.ok {
      return Member(false, "", "", n.rest);
    }
    var c := Expect(n.rest, ':');
    if !c.ok {
      return Member(false, n.text, "", c.rest);
    }
    var v;
    if kind == StringValue || (kind == AnyValue && At(SkipWhite(c.rest), 0) == '"') {
      v := StrLoop(c.rest, BUF_SIZE);
    } else {
      v := NumLoop(c.rest, BUF_SIZE);
    }
    m := Member(v.ok, n.text, v.text, v.rest);
  }

  /** _parse_vector: pairs are put into the array as they are read. */
  method ReadVector(p: string, b: Assoc) returns (ok: bool, rest: string)
    requires b.Valid()
    modifies b, b.a
    ensures b.Valid() && (b.a == old(b.a) || fresh(b.a))
    ensures Loaded(ok, rest, b.Contents()) == Vector(p, old(b.Contents()))
  {
    var open := Expect(p, '[');
    if !open.ok {
      return false, open.rest;
    }
    var q := open.rest;
    ghost var whole := Items(q, b.Contents());
    while At(q, 0) != '\0'
      invariant b.Valid() && (b.a == old(b.a) || fresh(b.a))
      invariant Items(q, b.Contents()) == whole
      decreases |q|
    {
      open := Expect(q, '{');
      if !open.ok {
        return false, open.rest;
      }
      var m := ReadMember(open.rest, AnyValue);
      if !m.ok {
        return false, m.rest;
      }
      var close := Expect(m.rest, '}');
      if !close.ok {
        return false, close.rest;
      }
      var _ := b.PutPair(m.name, m.value);
      var comma := Expect(close.rest, ',');
      q := comma.rest;
      if !comma.ok {
        break;
      }
    }
    var end := Expect(q, ']');
    ok, rest := end.ok, end.rest;
  }

  /** assoc_import_from_json */
  method ImportJson(b: Assoc, text: string) returns (rc: int)
    requires b.Valid()
    modifies b, b.a
    ensures b.Valid() && (b.a == old(b.a) || fresh(b.a))
    ensures (rc, b.Contents()) == Import(text, old(b.Contents()))
  {
    var head := Prologue(text);
    if !head.ok {
      return -1;
    }
    var ok, rest := ReadVector(head.rest, b);
    rc := if Expect(rest, '}').ok then 0 else -1;
  }
}
