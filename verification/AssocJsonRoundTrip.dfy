/**
 Printing an associative array as JSON, and the proof that importing undoes it.
 */
module AssocJsonRoundTrip {
  import opened CText
  import opened Numbers
  import opened SeqTools
  import opened AssocArray
  import opened AssocJson

  // ---------- printing ----------

  const ID_MEMBER: string := "{\n  \"_id\":\"assoc_array\""
  const NUM_KEY: string := ",\"num_values\":"
  const MAX_KEY: string := ",\"max_values\":"
  const PAIRS_KEY: string := ",\n   \"pairs\":[\n"

  function Header(num: nat, max: nat): string {
    ID_MEMBER + (NUM_KEY + (PrintNat(num) + (MAX_KEY + (PrintNat(max) + PAIRS_KEY))))
  }

  const ROW_OPEN: string := "    { \""
  const ROW_MIDDLE: string := "\" : \""

  function RowClose(last: bool): string {
    if last then "\" }\n" else "\" },\n"
  }

  function Row(p: Pair, last: bool): string {
    ROW_OPEN + (p.name + (ROW_MIDDLE + (p.value + RowClose(last))))
  }

  const FOOTER: string := "  ]\n}\n"

  /** The pieces the exporter prints one after the other, behind the header. */
  function Pieces(s: seq<Pair>): seq<string> {
    if s == [] then [FOOTER] else [Row(s[0], |s| == 1)] + Pieces(s[1..])
  }

  function Concat(ps: seq<string>): string {
    if ps == [] then "" else ps[0] + Concat(ps[1..])
  }

  function FullText(s: seq<Pair>, max: nat): string {
    Header(|s|, max) + Concat(Pieces(s))
  }

  /** xvstrncat: a piece that does not fit whole is dropped whole. */
  function Append(buff: string, piece: string, maxlen: nat): string {
    var p := Clip(piece, CAT_LIMIT);
    if maxlen > 0 && |buff| < maxlen - 1 && |p| + |buff| < maxlen then buff + p else buff
  }

  function AppendAll(buff: string, ps: seq<string>, maxlen: nat): string
    decreases ps
  {
    if ps == [] then buff else AppendAll(Append(buff, ps[0], maxlen), ps[1..], maxlen)
  }

  function Exported(s: seq<Pair>, max: nat, maxlen: nat): string {
    AppendAll(Clip(Header(|s|, max), if maxlen > 0 then maxlen - 1 else 0), Pieces(s), maxlen)
  }

  /** assoc_export_to_json */
  method ExportJson(a: Assoc, maxlen: nat) returns (buff: string)
    requires a.Valid()
    ensures buff == Exported(a.Contents(), a.a.Length, maxlen)
  {
    ghost var s := a.Contents();
    buff := Clip(Header(a.num, a.a.Length), if maxlen > 0 then maxlen - 1 else 0);
    if a.num == 0 {
      assert s == [];
    } else {
      var i := 0;
      assert s[0..] == s;
      while i < a.num - 1
        invariant i <= a.num - 1
        invariant AppendAll(buff, Pieces(s[i..]), maxlen) == Exported(s, a.a.Length, maxlen)
      {
        assert s[i..][1..] == s[i + 1..] && s[i] == a.a[i];
        assert Pieces(s[i..])[1..] == Pieces(s[i + 1..]);
        buff := Append(buff, Row(a.a[i], false), maxlen);
        i := i + 1;
      }
      assert s[i..][1..] == [] && s[i] == a.a[i];
      assert Pieces(s[i..])[1..] == Pieces([]);
      assert |s[i..]| == 1;
      buff := Append(buff, Row(a.a[a.num - 1], true), maxlen);
    }
    assert Pieces([]) == [FOOTER] && [FOOTER][1..] == [];
    assert AppendAll(buff, Pieces([]), maxlen) == Exported(s, a.a.Length, maxlen);
    buff := Append(buff, FOOTER, maxlen);
  }

  /** The output is the full text exactly when that fits the buffer and no row exceeds the work buffer. */
  lemma ExportFits(s: seq<Pair>, max: nat, maxlen: nat)
    requires forall i | 0 <= i < |Pieces(s)| :: 0 < |Pieces(s)[i]| <= 51199
    ensures Exported(s, max, maxlen) == FullText(s, max) <==> |FullText(s, max)| < maxlen
  {
    if |FullText(s, max)| < maxlen {
      AppendAllFits(Header(|s|, max), Pieces(s), maxlen);
    } else {
      AppendAllBound(Clip(Header(|s|, max), if maxlen > 0 then maxlen - 1 else 0), Pieces(s), maxlen);
      assert |FullText(s, max)| > 0;
    }
  }

  lemma {:induction false} AppendAllFits(buff: string, ps: seq<string>, maxlen: nat)
    requires forall i | 0 <= i < |ps| :: 0 < |ps[i]| <= CAT_LIMIT
    requires |buff + Concat(ps)| < maxlen
    ensures AppendAll(buff, ps, maxlen) == buff + Concat(ps)
    decreases ps
  {
    if ps == [] {
      assert buff + "" == buff;
    } else {
      assert buff + Concat(ps) == (buff + ps[0]) + Concat(ps[1..]);
      AppendAllFits(buff + ps[0], ps[1..], maxlen);
    }
  }

  lemma {:induction false} AppendAllBound(buff: string, ps: seq<string>, maxlen: nat)
    requires |buff| <= (if maxlen > 0 then maxlen - 1 else 0)
    ensures |AppendAll(buff, ps, maxlen)| <= (if maxlen > 0 then maxlen - 1 else 0)
    decreases ps
  {
    if ps != [] {
      AppendAllBound(Append(buff, ps[0], maxlen), ps[1..], maxlen);
    }
  }

  /** The printed format, written out. */
  lemma ExportFormat(num: nat, max: nat, p: Pair, last: bool)
    ensures Header(num, max)
            == "{\n  \"_id\":\"assoc_array\"" + (",\"num_values\":" + (PrintNat(num)
               + (",\"max_values\":" + (PrintNat(max) + ",\n   \"pairs\":[\n"))))
    ensures Row(p, last)
            == "    { \"" + (p.name + ("\" : \"" + (p.value + (if last then "\" }\n" else "\" },\n"))))
    ensures Pieces([]) == ["  ]\n}\n"]
  {
  }

  // ---------- strings ----------

  /** Texts that survive being put between quotes: quotes are escaped and the end is not an escape. */
  ghost predicate Quotable(v: string) {
    && (forall i | 0 <= i < |v| :: v[i] == '"' ==> i > 0 && v[i - 1] == '\\')
    && (v != "" ==> v[|v| - 1] != '\\')
  }

  /** The same condition, read the way the parser reads. */
  predicate Scannable(v: string) {
    if v == "" then true
    else if v[0] == '\\' && |v| > 1 && v[1] == '"' then Scannable(v[2..])
    else v[0] != '"' && v != "\\" && Scannable(v[1..])
  }

  lemma {:induction false} QuotableIsScannable(v: string)
    ensures Scannable(v) <==> Quotable(v)
    decreases |v|
  {
    if v == "" {
    } else if v[0] == '\\' && |v| > 1 && v[1] == '"' {
      var w := v[2..];
      QuotableTail(v, 2);
      QuotableIsScannable(w);
    } else if v[0] != '"' && v != "\\" {
      QuotableTail(v, 1);
      QuotableIsScannable(v[1..]);
    }
  }

  lemma QuotableTail(v: string, k: nat)
    requires 0 < k <= |v|
    requires v[0] != '"' && (k == 2 ==> v[0] == '\\' && v[1] == '"')
    requires k <= 2 && v != "\\" && (k == 1 ==> !(v[0] == '\\' && |v| > 1 && v[1] == '"'))
    ensures Quotable(v) <==> Quotable(v[k..])
  {
    var w := v[k..];
    assert forall i | 0 <= i < |w| :: w[i] == v[i + k];
    if Quotable(v) {
      forall i | 0 <= i < |w| && w[i] == '"' ensures i > 0 && w[i - 1] == '\\' {
        assert v[i + k] == '"';
      }
    }
    if Quotable(w) {
      forall i | 0 <= i < |v| && v[i] == '"' ensures i > 0 && v[i - 1] == '\\' {
        if i >= k {
          assert w[i - k] == '"';
        }
      }
    }
  }

  /**
   A quoted text is read back, with the cursor right behind it, exactly when it is quotable
   and fits the buffer.
   */
  lemma {:induction false} StrBodyRoundTrip(v: string, rest: string, room: nat)
    requires NulFree(v) && room >= 1
    ensures StrBody(v + ("\"" + rest), room) == Parsed(true, v, rest) <==> Scannable(v) && |v| + 2 <= room
    decreases |v|
  {
    var p := v + ("\"" + rest);
    if room > 1 && v != "" {
      if At(p, 0) == '\\' && At(p, 1) == '"' {
        if |v| > 1 && room >= 3 {
          EscapeStep(v, p, rest, room);
          StrBodyRoundTrip(v[2..], rest, room - 2);
        }
      } else if v[0] != '"' {
        PlainStep(v, p, rest, room);
        StrBodyRoundTrip(v[1..], rest, room - 1);
      }
    }
  }

  lemma EscapeStep(v: string, p: string, rest: string, room: nat)
    requires |v| > 1 && v[0] == '\\' && v[1] == '"' && p == v + ("\"" + rest) && room >= 3
    ensures StrBody(p, room) == Parsed(true, v, rest)
            <==> StrBody(v[2..] + ("\"" + rest), room - 2) == Parsed(true, v[2..], rest)
  {
    assert p[2..] == v[2..] + ("\"" + rest);
    assert v == "\\\"" + v[2..];
    var r := StrBody(p[2..], room - 2);
    assert ("\\\"" + r.text)[2..] == r.text;
  }

  lemma PlainStep(v: string, p: string, rest: string, room: nat)
    requires v != "" && v[0] !in {'"', '\0'} && p == v + ("\"" + rest) && room > 1
    requires !(v[0] == '\\' && At(p, 1) == '"')
    ensures StrBody(p, room) == Parsed(true, v, rest)
            <==> StrBody(v[1..] + ("\"" + rest), room - 1) == Parsed(true, v[1..], rest)
  {
    assert p[1..] == v[1..] + ("\"" + rest);
    assert v == [v[0]] + v[1..];
    var r := StrBody(p[1..], room - 1);
    assert ([p[0]] + r.text)[1..] == r.text;
  }

  // ---------- reading what was printed, piece by piece ----------

  predicate AllWhite(w: string) {
    forall i | 0 <= i < |w| :: w[i] in {' ', '\t', '\n'}
  }

  lemma {:induction false} SkipWhiteText(w: string, q: string)
    requires AllWhite(w) && !IsWhite(At(q, 0))
    ensures SkipWhite(w + q) == q
  {
    if w == "" {
      assert w + q == q;
    } else {
      assert (w + q)[1..] == w[1..] + q;
      SkipWhiteText(w[1..], q);
    }
  }

  lemma ExpectAt(w: string, d: char, rest: string, c: char)
    requires AllWhite(w) && !IsWhite(d) && d != '\0' && c != '\0'
    ensures Expect(w + ([d] + rest), c) == if c == d then Parsed(true, "", rest) else Parsed(false, "", [d] + rest)
  {
    SkipWhiteText(w, [d] + rest);
  }

  lemma StrAt(w: string, v: string, rest: string, room: nat)
    requires AllWhite(w) && NulFree(v) && Quotable(v) && |v| + 2 <= room
    ensures Str(w + ("\"" + (v + ("\"" + rest))), room) == Parsed(true, v, rest)
  {
    var q := "\"" + (v + ("\"" + rest));
    SkipWhiteText(w, q);
    assert q[1..] == v + ("\"" + rest);
    QuotableIsScannable(v);
    StrBodyRoundTrip(v, rest, room);
  }

  lemma {:induction false} NumBodyAt(d: string, rest: string, room: nat)
    requires (forall i | 0 <= i < |d| :: '0' <= d[i] <= '9' || d[i] == '.') && |d| < room
    requires !('0' <= At(rest, 0) <= '9' || At(rest, 0) == '.')
    ensures NumBody(d + rest, room) == Parsed(true, d, rest)
  {
    if d == "" {
      assert d + rest == rest;
    } else {
      assert (d + rest)[1..] == d[1..] + rest;
      NumBodyAt(d[1..], rest, room - 1);
      assert d == [d[0]] + d[1..];
    }
  }

  /** What does not start with a digit is no number. */
  lemma NumberRefused(w: string, rest: string, room: nat)
    requires AllWhite(w) && At(rest, 0) !in {' ', '\t', '\n'} && !('0' <= At(rest, 0) <= '9')
    ensures !Num(w + rest, room).ok
  {
    SkipWhiteText(w, rest);
  }

  /** A number with decimals is read whole, behind any white space. */
  lemma NumberRead(w: string, d: string, rest: string, room: nat)
    requires AllWhite(w) && d != "" && '0' <= d[0] <= '9' && |d| < room
    requires forall i | 0 <= i < |d| :: '0' <= d[i] <= '9' || d[i] == '.'
    requires !('0' <= At(rest, 0) <= '9' || At(rest, 0) == '.')
    ensures Num(w + (d + rest), room) == Parsed(true, d, rest)
  {
    assert (d + rest)[0] == d[0];
    SkipWhiteText(w, d + rest);
    NumBodyAt(d, rest, room);
  }

  /** name and string value, as rows and the "_id" member print them. */
  lemma StringMemberAt(w: string, n: string, mid: string, v: string, rest: string, kind: Kind)
    requires AllWhite(w) && NulFree(n) && Quotable(n) && |n| + 2 <= BUF_SIZE
    requires NulFree(v) && Quotable(v) && |v| + 2 <= BUF_SIZE
    requires kind != NumberValue && (mid == ":" || mid == " : ")
    ensures MemberOf(w + ("\"" + (n + ("\"" + (mid + ("\"" + (v + ("\"" + rest))))))), kind) == Member(true, n, v, rest)
  {
    var value := "\"" + (v + ("\"" + rest));
    StrAt(w, n, mid + value, BUF_SIZE);
    var gap := if mid == ":" then "" else " ";
    assert mid + value == gap + ([':'] + (gap + value));
    ExpectAt(gap, ':', gap + value, ':');
    SkipWhiteText(gap, value);
    StrAt(gap, v, rest, BUF_SIZE);
  }

  lemma ExpectNow(d: char, rest: string, c: char)
    requires !IsWhite(d) && d != '\0' && c != '\0'
    ensures Expect([d] + rest, c) == if c == d then Parsed(true, "", rest) else Parsed(false, "", [d] + rest)
  {
    assert "" + ([d] + rest) == [d] + rest;
    ExpectAt("", d, rest, c);
  }

  lemma NumAt(x: nat, rest: string, room: nat)
    requires |PrintNat(x)| < room && !IsNumChar(At(rest, 0))
    ensures Num(PrintNat(x) + rest, room) == Parsed(true, PrintNat(x), rest)
  {
    assert (PrintNat(x) + rest)[0] == PrintNat(x)[0];
    NumBodyAt(PrintNat(x), rest, room);
  }

  lemma NumberMemberAt(n: string, x: nat, rest: string)
    requires NulFree(n) && Quotable(n) && |n| + 2 <= BUF_SIZE
    requires |PrintNat(x)| < BUF_SIZE && !IsNumChar(At(rest, 0))
    ensures MemberOf("\"" + (n + ("\"" + (":" + (PrintNat(x) + rest)))), NumberValue)
            == Member(true, n, PrintNat(x), rest)
  {
    var value := PrintNat(x) + rest;
    var p := "\"" + (n + ("\"" + (":" + value)));
    assert "" + p == p;
    StrAt("", n, ":" + value, BUF_SIZE);
    ExpectNow(':', value, ':');
    NumAt(x, rest, BUF_SIZE);
  }

  /** Arrays whose names and values can be printed and read back. */
  ghost predicate Printable(s: seq<Pair>) {
    forall i | 0 <= i < |s| :: PairPrintable(s[i])
  }

  ghost predicate PairPrintable(p: Pair) {
    && NulFree(p.name) && Quotable(p.name) && |p.name| < 1024
    && NulFree(p.value) && Quotable(p.value) && |p.value| + 2 <= 10240
  }

  /** One row, up to and including its closing brace. */
  lemma RowAt(p: Pair, last: bool, tail: string)
    requires PairPrintable(p)
    ensures var open := Expect(Row(p, last) + tail, '{');
            && open.ok
            && var m := MemberOf(open.rest, AnyValue);
            && m.ok && m.name == p.name && m.value == p.value
            && Expect(m.rest, '}') == Parsed(true, "", (if last then "\n" else ",\n") + tail)
  {
    var after := (if last then "\n" else ",\n") + tail;
    var close := " " + ("}" + after);
    var inner := "\"" + (p.name + ("\"" + (" : " + ("\"" + (p.value + ("\"" + close))))));
    RowText(p.name, p.value, last, tail);
    ExpectAt("    ", '{', " " + inner, '{');
    StringMemberAt(" ", p.name, " : ", p.value, close, AnyValue);
    CloseAt(after);
  }

  lemma CloseAt(after: string)
    ensures Expect(" " + ("}" + after), '}') == Parsed(true, "", after)
  {
    assert "}" + after == ['}'] + after;
    ExpectAt(" ", '}', after, '}');
  }

  lemma RowText(name: string, value: string, last: bool, tail: string)
    ensures Row(Pair(name, value), last) + tail
            == "    " + (['{'] + (" " + ("\"" + (name + ("\"" + (" : " + ("\"" + (value + ("\"" + (" " + ("}"
               + ((if last then "\n" else ",\n") + tail))))))))))))
  {
    var close := RowClose(last);
    Regroup(value, close, tail);
    Regroup(ROW_MIDDLE, value + close, tail);
    Regroup(name, ROW_MIDDLE + (value + close), tail);
    Regroup(ROW_OPEN, name + (ROW_MIDDLE + (value + close)), tail);
    OpenText(name + (ROW_MIDDLE + (value + (close + tail))));
    MiddleText(value + (close + tail));
    CloseText(last, tail);
  }

  lemma OpenText(x: string)
    ensures ROW_OPEN + x == "    " + (['{'] + (" " + ("\"" + x)))
  {
  }

  lemma MiddleText(x: string)
    ensures ROW_MIDDLE + x == "\"" + (" : " + ("\"" + x))
  {
  }

  lemma CloseText(last: bool, x: string)
    ensures RowClose(last) + x == "\"" + (" " + ("}" + ((if last then "\n" else ",\n") + x)))
  {
  }

  lemma {:induction false} PutAllFront(b: seq<Pair>, s: seq<Pair>)
    requires s != []
    ensures PutAll(b, s) == PutAll(Put(b, s[0]), s[1..])
  {
    if |s| == 1 {
      assert s[..0] == [] && s[1..] == [];
    } else {
      var u := s[..|s| - 1];
      PutAllFront(b, u);
      assert u[1..] == s[1..][..|s| - 2];
    }
  }

  lemma PiecesFront(s: seq<Pair>)
    requires s != []
    ensures Concat(Pieces(s)) == Row(s[0], |s| == 1) + Concat(Pieces(s[1..]))
    ensures Concat(Pieces(s))[0] == ' '
  {
    assert Pieces(s)[1..] == Pieces(s[1..]);
  }

  lemma FooterText()
    ensures Concat(Pieces([])) == FOOTER
  {
    assert Pieces([]) == [FOOTER] && [FOOTER][1..] == [];
  }

  /** One row is one put; the comma decides whether to go on. */
  lemma ItemsStep(p: Pair, last: bool, tail: string, b: seq<Pair>, comma: Parsed)
    requires PairPrintable(p) && comma == Expect((if last then "\n" else ",\n") + tail, ',')
    ensures Items(Row(p, last) + tail, b)
            == if comma.ok then Items(comma.rest, Put(b, p)) else Loaded(true, comma.rest, Put(b, p))
  {
    RowAt(p, last, tail);
    assert (Row(p, last) + tail)[0] == ' ';
    assert p == Pair(p.name, p.value);
  }

  lemma LastRow(p: Pair, b: seq<Pair>)
    requires PairPrintable(p)
    ensures Items(Row(p, true) + FOOTER, b) == Loaded(true, "]\n}\n", Put(b, p))
  {
    NoCommaAtFooter();
    ItemsStep(p, true, FOOTER, b, Parsed(false, "", "]\n}\n"));
  }

  lemma NoCommaAtFooter()
    ensures Expect("\n" + FOOTER, ',') == Parsed(false, "", "]\n}\n")
  {
    assert "\n" + FOOTER == "\n  " + ([']'] + "\n}\n");
    ExpectAt("\n  ", ']', "\n}\n", ',');
    assert [']'] + "\n}\n" == "]\n}\n";
  }

  lemma InnerRow(p: Pair, tail: string, b: seq<Pair>)
    requires PairPrintable(p) && At(tail, 0) != '\0'
    ensures Items(Row(p, false) + tail, b) == Items(tail, Put(b, p))
  {
    CommaBetween(tail);
    ItemsStep(p, false, tail, b, Parsed(true, "", "\n" + tail));
    ItemsSkipsNewline(tail, Put(b, p));
  }

  lemma CommaBetween(tail: string)
    ensures Expect(",\n" + tail, ',') == Parsed(true, "", "\n" + tail)
  {
    assert ",\n" + tail == [','] + ("\n" + tail);
    ExpectNow(',', "\n" + tail, ',');
  }

  /** Reading all rows performs the same puts as adding the list. */
  lemma {:induction false} RowsRoundTrip(s: seq<Pair>, b: seq<Pair>)
    requires s != [] && Printable(s)
    ensures Items(Concat(Pieces(s)), b) == Loaded(true, "]\n}\n", PutAll(b, s))
    decreases |s|
  {
    PiecesFront(s);
    PutAllFront(b, s);
    if |s| == 1 {
      assert s[1..] == [];
      FooterText();
      LastRow(s[0], b);
    } else {
      PiecesFront(s[1..]);
      InnerRow(s[0], Concat(Pieces(s[1..])), b);
      RowsRoundTrip(s[1..], Put(b, s[0]));
    }
  }

  lemma ItemsSkipsNewline(p: string, b: seq<Pair>)
    requires At(p, 0) != '\0'
    ensures Items("\n" + p, b) == Items(p, b)
  {
    var q := "\n" + p;
    assert q[1..] == p;
    assert SkipWhite(q) == SkipWhite(p);
  }

  lemma IdMemberAt(rest: string)
    ensures var open := Expect(ID_MEMBER + rest, '{');
            open.ok && MemberOf(open.rest, StringValue) == Member(true, "_id", "assoc_array", rest)
  {
    var id := "\n  " + ("\"" + ("_id" + ("\"" + (":" + ("\"" + ("assoc_array" + ("\"" + rest)))))));
    assert ID_MEMBER + rest == ['{'] + id;
    ExpectNow('{', id, '{');
    StringMemberAt("\n  ", "_id", ":", "assoc_array", rest, StringValue);
  }

  lemma NumMemberAt(n: string, x: nat, rest: string)
    requires |PrintNat(x)| <= 20 && !IsNumChar(At(rest, 0)) && (n == "num_values" || n == "max_values")
    ensures var comma := Expect(",\"" + n + "\":" + (PrintNat(x) + rest), ',');
            comma.ok && MemberOf(comma.rest, NumberValue) == Member(true, n, PrintNat(x), rest)
  {
    var member := "\"" + (n + ("\"" + (":" + (PrintNat(x) + rest))));
    assert ",\"" + n + "\":" + (PrintNat(x) + rest) == [','] + member;
    ExpectNow(',', member, ',');
    NumberMemberAt(n, x, rest);
  }

  lemma PairsKeyAt(rest: string)
    ensures var comma := Expect(PAIRS_KEY + rest, ',');
            && comma.ok
            && var key := Str(comma.rest, KEY_SIZE);
            && key.ok && key.text == "pairs" && Expect(key.rest, ':') == Parsed(true, "", "[\n" + rest)
  {
    var colon := ":" + ("[\n" + rest);
    var key := "\n   " + ("\"" + ("pairs" + ("\"" + colon)));
    assert PAIRS_KEY + rest == [','] + key;
    ExpectNow(',', key, ',');
    StrAt("\n   ", "pairs", colon, KEY_SIZE);
    ExpectNow(':', "[\n" + rest, ':');
  }

  /** The members before the rows are read back. */
  lemma HeaderRoundTrip(num: nat, max: nat, tail: string)
    requires num < Pow10(20) && max < Pow10(20)
    ensures Prologue(Header(num, max) + tail) == Parsed(true, "", "[\n" + tail)
  {
    PrintNatLength(num, 20);
    PrintNatLength(max, 20);
    var end := PAIRS_KEY + tail;
    var max' := ",\"" + "max_values" + "\":" + (PrintNat(max) + end);
    var num' := ",\"" + "num_values" + "\":" + (PrintNat(num) + max');
    HeaderThen(num, max, tail);
    IdMemberAt(num');
    NumMemberAt("num_values", num, max');
    NumMemberAt("max_values", max, end);
    PairsKeyAt(tail);
  }

  lemma HeaderThen(num: nat, max: nat, tail: string)
    ensures Header(num, max) + tail
            == ID_MEMBER + (",\"" + "num_values" + "\":" + (PrintNat(num)
               + (",\"" + "max_values" + "\":" + (PrintNat(max) + (PAIRS_KEY + tail)))))
  {
    assert NUM_KEY == ",\"" + "num_values" + "\":" && MAX_KEY == ",\"" + "max_values" + "\":";
    var a, b := PrintNat(num), PrintNat(max);
    Regroup(b, PAIRS_KEY, tail);
    Regroup(MAX_KEY, b + PAIRS_KEY, tail);
    Regroup(a, MAX_KEY + (b + PAIRS_KEY), tail);
    Regroup(NUM_KEY, a + (MAX_KEY + (b + PAIRS_KEY)), tail);
    Regroup(ID_MEMBER, NUM_KEY + (a + (MAX_KEY + (b + PAIRS_KEY))), tail);
  }

  /**
   Importing the export of a non-empty array succeeds and leaves the target exactly as
   adding the array to it would; an empty array's export is refused and changes nothing.
   */
  lemma ImportOfExport(s: seq<Pair>, max: nat, b: seq<Pair>)
    requires WellFormed(s) && Printable(s)
    requires |s| <= max < Pow10(20)
    ensures s != [] ==> Import(FullText(s, max), b) == (0, PutAll(b, s))
    ensures s != [] && b == [] ==> Import(FullText(s, max), b) == (0, s)
    ensures s == [] ==> Import(FullText(s, max), b) == (-1, b)
  {
    var body := Concat(Pieces(s));
    HeaderRoundTrip(|s|, max, body);
    if s == [] {
      EmptyVector(b);
    } else {
      VectorRoundTrip(s, b);
      DocumentCloses();
      PutAllToEmpty(s);
    }
  }

  lemma DocumentCloses()
    ensures Expect("\n}\n", '}') == Parsed(true, "", "\n")
  {
    assert "\n}\n" == "\n" + (['}'] + "\n");
    ExpectAt("\n", '}', "\n", '}');
  }

  lemma VectorSteps(p: string, q: string, r: string, z: string, b: seq<Pair>, t: seq<Pair>)
    requires Expect(p, '[') == Parsed(true, "", q) && Items(q, b) == Loaded(true, r, t)
    requires Expect(r, ']') == Parsed(true, "", z)
    ensures Vector(p, b) == Loaded(true, z, t)
  {
  }

  lemma VectorRoundTrip(s: seq<Pair>, b: seq<Pair>)
    requires s != [] && Printable(s)
    ensures Vector("[\n" + Concat(Pieces(s)), b) == Loaded(true, "\n}\n", PutAll(b, s))
  {
    var body := Concat(Pieces(s));
    VectorOpens(body);
    ItemsBehindNewline(s, b);
    VectorCloses();
    VectorSteps("[\n" + body, "\n" + body, "]\n}\n", "\n}\n", b, PutAll(b, s));
  }

  lemma VectorOpens(body: string)
    ensures Expect("[\n" + body, '[') == Parsed(true, "", "\n" + body)
  {
    assert "[\n" + body == ['['] + ("\n" + body);
    ExpectNow('[', "\n" + body, '[');
  }

  lemma VectorCloses()
    ensures Expect("]\n}\n", ']') == Parsed(true, "", "\n}\n")
  {
    assert "]\n}\n" == [']'] + "\n}\n";
    ExpectNow(']', "\n}\n", ']');
  }

  lemma ItemsBehindNewline(s: seq<Pair>, b: seq<Pair>)
    requires s != [] && Printable(s)
    ensures Items("\n" + Concat(Pieces(s)), b) == Loaded(true, "]\n}\n", PutAll(b, s))
  {
    PiecesFront(s);
    ItemsSkipsNewline(Concat(Pieces(s)), b);
    RowsRoundTrip(s, b);
  }

  lemma EmptyVector(b: seq<Pair>)
    ensures Vector("[\n" + Concat(Pieces([])), b) == Loaded(false, "]\n}\n", b)
    ensures !Expect("]\n}\n", '}').ok
  {
    FooterText();
    var body := "\n" + FOOTER;
    assert "[\n" + FOOTER == ['['] + body;
    ExpectNow('[', body, '[');
    assert body == "\n  " + ([']'] + "\n}\n");
    ExpectAt("\n  ", ']', "\n}\n", '{');
  }
}
