/**
 URL encoding and decoding of C strings.
 */
module UrlCodec {
  import opened Options
  import opened SeqTools

  type Byte = n: nat | n < 256

  const PERCENT: Byte := 0x25
  const PLUS: Byte := 0x2B
  const SPACE: Byte := 0x20

  predicate NoNul(s: seq<Byte>) {
    forall i | 0 <= i < |s| :: s[i] != 0
  }

  predicate IsDigit(c: Byte) {
    0x30 <= c <= 0x39
  }

  predicate UpperHex(c: Byte) {
    IsDigit(c) || 0x41 <= c <= 0x46
  }

  /** The unreserved set of section 2.3 of RFC 3986. */
  predicate Unreserved(c: Byte) {
    IsDigit(c) || 0x41 <= c <= 0x5A || 0x61 <= c <= 0x7A || c == 0x2D || c == 0x5F || c == 0x2E || c == 0x7E
  }

  function ToLower(c: Byte): Byte {
    if 0x41 <= c <= 0x5A then c + 0x20 else c
  }

  /** Defined on every byte; what is not a hex digit gives some value, kept to eight bits. */
  function FromHex(c: Byte): Byte {
    if IsDigit(c) then c - 0x30 else (ToLower(c) - 0x61 + 10) % 256
  }

  /** The low four bits as a hex digit. */
  function ToHex(code: Byte): (c: Byte)
    ensures UpperHex(c) && FromHex(c) == code % 16
  {
    var n := code % 16;
    if n < 10 then 0x30 + n else 0x41 + (n - 10)
  }

  /** Bitwise or. */
  function Or(x: nat, y: nat): nat {
    if x == 0 then y else 2 * Or(x / 2, y / 2) + (if x % 2 == 1 || y % 2 == 1 then 1 else 0)
  }

  /** from_hex(hi) << 4 | from_hex(lo), kept to eight bits. */
  function FromPair(hi: Byte, lo: Byte): Byte {
    Or(16 * FromHex(hi), FromHex(lo)) % 256
  }

  lemma OrBit(a: nat, half: nat, bit: nat)
    requires bit <= 1
    ensures Or(2 * a, 2 * half + bit) == 2 * Or(a, half) + bit
  {
    var y := 2 * half + bit;
    assert y / 2 == half && y % 2 == bit;
    if a > 0 {
      assert 2 * a / 2 == a;
    }
  }

  lemma OrShifted(a: nat, y: nat)
    requires y < 16
    ensures Or(16 * a, y) == 16 * a + y
  {
    var y1 := y / 2;
    var y2 := y1 / 2;
    var y3 := y2 / 2;
    OrNibble(a, y3, y2 - 2 * y3, y1 - 2 * y2, y - 2 * y1);
  }

  lemma OrNibble(a: nat, b3: nat, b2: nat, b1: nat, b0: nat)
    requires b3 <= 1 && b2 <= 1 && b1 <= 1 && b0 <= 1
    ensures Or(16 * a, 8 * b3 + 4 * b2 + 2 * b1 + b0) == 16 * a + 8 * b3 + 4 * b2 + 2 * b1 + b0
  {
    OrNothing(a);
    OrTwoBits(a, 0, b3, b2);
    OrTwoBits(4 * a, 2 * b3 + b2, b1, b0);
  }

  lemma OrTwoBits(a: nat, quarter: nat, b1: nat, b0: nat)
    requires b1 <= 1 && b0 <= 1
    ensures Or(4 * a, 4 * quarter + 2 * b1 + b0) == 4 * Or(a, quarter) + 2 * b1 + b0
  {
    var half := 2 * quarter + b1;
    OrBit(a, quarter, b1);
    OrBit(2 * a, half, b0);
    assert 2 * (2 * a) == 4 * a && 2 * half + b0 == 4 * quarter + 2 * b1 + b0;
  }

  lemma {:induction false} OrNothing(a: nat)
    ensures Or(a, 0) == a
  {
    if a > 0 {
      OrNothing(a / 2);
    }
  }

  lemma PairOfDigits(hi: Byte, lo: Byte)
    requires FromHex(hi) < 16 && FromHex(lo) < 16
    ensures FromPair(hi, lo) == 16 * FromHex(hi) + FromHex(lo)
  {
    OrShifted(FromHex(hi), FromHex(lo));
    Small(16 * FromHex(hi) + FromHex(lo));
  }

  lemma Small(n: nat)
    requires n < 256
    ensures n % 256 == n
  {
  }

  lemma HexPair(b: Byte)
    ensures FromPair(ToHex(b / 16), ToHex(b)) == b
  {
    var hi, lo := b / 16, b % 16;
    NibblesOf(b);
    PairOfDigits(ToHex(hi), ToHex(b));
  }

  lemma NibblesOf(b: Byte)
    ensures b / 16 < 16 && b / 16 % 16 == b / 16 && b == 16 * (b / 16) + b % 16
  {
  }

  lemma Nibbles(a: nat, b: nat)
    requires b < 16
    ensures (16 * a + b) / 16 == a && (16 * a + b) % 16 == b
  {
  }

  lemma SmallNibble(c: Byte)
    requires UpperHex(c)
    ensures FromHex(c) < 16 && FromHex(c) % 16 == FromHex(c)
  {
  }

  lemma DigitOf(c: Byte, code: Byte)
    requires UpperHex(c) && FromHex(c) == code % 16
    ensures ToHex(code) == c
  {
  }

  lemma PairHex(hi: Byte, lo: Byte)
    requires UpperHex(hi) && UpperHex(lo)
    ensures ToHex(FromPair(hi, lo) / 16) == hi && ToHex(FromPair(hi, lo)) == lo
  {
    PairOfDigits(hi, lo);
    Nibbles(FromHex(hi), FromHex(lo));
    SmallNibble(hi);
    DigitOf(hi, FromPair(hi, lo) / 16);
    DigitOf(lo, FromPair(hi, lo));
  }

  /** The value of every hex digit, in both cases. */
  lemma HexDigits(d: nat)
    requires d < 16
    ensures d < 10 ==> FromHex(0x30 + d) == d && ToHex(d) == 0x30 + d
    ensures d >= 10 ==> FromHex(0x41 + d - 10) == d && FromHex(0x61 + d - 10) == d && ToHex(d) == 0x41 + d - 10
  {
  }

  // ---------- encoding ----------

  function EncodeByte(b: Byte): seq<Byte> {
    if Unreserved(b) then [b]
    else if b == SPACE then [PLUS]
    else [PERCENT, ToHex(b / 16), ToHex(b)]
  }

  function Encode(s: seq<Byte>): (t: seq<Byte>)
    ensures |t| <= 3 * |s|
  {
    if s == [] then [] else EncodeByte(s[0]) + Encode(s[1..])
  }

  /** `buf` holds `text` and zeros behind it. */
  ghost predicate Holds(buf: array<Byte>, text: seq<Byte>)
    reads buf
  {
    && |text| < buf.Length && buf[..|text|] == text
    && forall i | |text| <= i < buf.Length :: buf[i] == 0
  }

  /** One step of the encoder, to position `q` of the buffer. */
  method EncodeOne(b: Byte, buf: array<Byte>, q: nat) returns (q': nat)
    requires q + 3 <= buf.Length
    modifies buf
    ensures q' == q + |EncodeByte(b)|
    ensures forall i | 0 <= i < buf.Length && !(q <= i < q') :: buf[i] == old(buf[i])
    ensures buf[..q'] == old(buf[..q]) + EncodeByte(b)
  {
    if Unreserved(b) {
      buf[q] := b;
      q' := q + 1;
    } else if b == SPACE {
      buf[q] := PLUS;
      q' := q + 1;
    } else {
      buf[q] := PERCENT;
      buf[q + 1] := ToHex(b / 16);
      buf[q + 2] := ToHex(b);
      q' := q + 3;
    }
    assert buf[..q] == old(buf[..q]);
  }

  method UrlEncode(s: seq<Byte>) returns (buf: array<Byte>)
    requires NoNul(s)
    ensures fresh(buf) && buf.Length == 3 * |s| + 1
    ensures Holds(buf, Encode(s))
  {
    buf := new Byte[3 * |s| + 1](_ => 0);
    var p, q := 0, 0;
    ghost var done: seq<Byte> := [];
    while p < |s|
      invariant p <= |s| && q <= 3 * p && |done| == q
      invariant buf[..q] == done
      invariant done + Encode(s[p..]) == Encode(s)
      invariant forall i | q <= i < buf.Length :: buf[i] == 0
    {
      assert s[p..][1..] == s[p + 1..];
      Regroup(done, EncodeByte(s[p]), Encode(s[p + 1..]));
      q := EncodeOne(s[p], buf, q);
      done := done + EncodeByte(s[p]);
      p := p + 1;
    }
    assert done + [] == done;
  }

  /**
   What each byte is encoded as: letters, digits and -_.~ as themselves, a space as a plus
   sign, and every other byte as a percent sign and its two hex digits.
   */
  lemma EncodedByte(c: char)
    requires c as int < 256
    ensures var b := c as int;
            EncodeByte(b)
            == if 'A' <= c <= 'Z' || 'a' <= c <= 'z' || '0' <= c <= '9' || c in {'-', '_', '.', '~'} then [b]
               else if c == ' ' then ['+' as int]
               else ['%' as int, "0123456789ABCDEF"[b / 16] as int, "0123456789ABCDEF"[b % 16] as int]
  {
    var b := c as int;
    HexText(b / 16);
    HexText(b % 16);
    NibblesOf(b);
  }

  lemma HexText(d: nat)
    requires d < 16
    ensures ToHex(d) == "0123456789ABCDEF"[d] as int
  {
  }

  // ---------- decoding ----------

  /** How many bytes one step of the decoder reads. */
  function Taken(s: seq<Byte>): (k: nat)
    requires s != []
    ensures 1 <= k <= |s|
  {
    if s[0] == PERCENT && |s| >= 3 then 3 else 1
  }

  /** What it writes: a percent sign without two bytes after it is dropped. */
  function Written(s: seq<Byte>): (w: seq<Byte>)
    requires s != []
    ensures |w| <= 1
  {
    if s[0] == PERCENT then if |s| >= 3 then [FromPair(s[1], s[2])] else []
    else if s[0] == PLUS then [SPACE]
    else [s[0]]
  }

  function Decode(s: seq<Byte>): (t: seq<Byte>)
    ensures |t| <= |s|
  {
    if s == [] then [] else Written(s) + Decode(s[Taken(s)..])
  }

  /** One step of either decoder, from position `p` of the text to position `q` of the buffer. */
  method DecodeOne(s: seq<Byte>, p: nat, out: array<Byte>, q: nat) returns (p': nat, q': nat)
    requires p < |s| && q < out.Length
    modifies out
    ensures p' == p + Taken(s[p..]) && q' == q + |Written(s[p..])|
    ensures forall i | 0 <= i < out.Length && !(q <= i < q') :: out[i] == old(out[i])
    ensures out[..q'] == old(out[..q]) + Written(s[p..])
  {
    p', q' := p, q;
    if s[p] == PERCENT {
      if p + 2 < |s| {
        out[q] := FromPair(s[p + 1], s[p + 2]);
        q' := q + 1;
        p' := p + 2;
      }
    } else if s[p] == PLUS {
      out[q] := SPACE;
      q' := q + 1;
    } else {
      out[q] := s[p];
      q' := q + 1;
    }
    p' := p' + 1;
    assert out[..q] == old(out[..q]);
  }

  lemma DecodeStep(s: seq<Byte>, p: nat, done: seq<Byte>)
    requires p < |s|
    ensures done + Decode(s[p..]) == done + Written(s[p..]) + Decode(s[p + Taken(s[p..])..])
  {
    var rest := s[p..];
    assert rest[Taken(rest)..] == s[p + Taken(rest)..];
  }

  method UrlDecode(str: Option<seq<Byte>>) returns (buf: array?<Byte>)
    requires str.Some? ==> NoNul(str.value)
    ensures str.None? <==> buf == null
    ensures str.Some? ==> fresh(buf) && buf.Length == |str.value| + 1 && Holds(buf, Decode(str.value))
  {
    if str.None? {
      return null;
    }
    var s := str.value;
    var out := new Byte[|s| + 1](_ => 0);
    var p, q := 0, 0;
    ghost var done: seq<Byte> := [];
    while p < |s|
      invariant q <= p <= |s| && |done| == q
      invariant out[..q] == done
      invariant done + Decode(s[p..]) == Decode(s)
      invariant forall i | q <= i < out.Length :: out[i] == 0
    {
      DecodeStep(s, p, done);
      done := done + Written(s[p..]);
      p, q := DecodeOne(s, p, out, q);
    }
    assert s[p..] == [] && done + [] == done;
    buf := out;
  }

  /** A percent sign without two bytes behind it is dropped, and decoding goes on behind it. */
  lemma BrokenPercent(b: Byte)
    ensures Decode(['%' as int]) == []
    ensures Decode(['%' as int, b]) == Decode([b])
  {
    assert ['%' as int, b][1..] == [b];
  }

  // ---------- decoding undoes encoding ----------

  lemma DecodeEncoded(b: Byte, rest: seq<Byte>)
    ensures Decode(EncodeByte(b) + rest) == [b] + Decode(rest)
  {
    var t := EncodeByte(b) + rest;
    HexPair(b);
    assert t[|EncodeByte(b)|..] == rest;
  }

  lemma {:induction false} DecodeOfEncode(s: seq<Byte>)
    ensures Decode(Encode(s)) == s
  {
    if s != [] {
      DecodeOfEncode(s[1..]);
      DecodeEncoded(s[0], Encode(s[1..]));
    }
  }

  /**
   The texts that encoding produces: unreserved bytes, `+` for a space and upper-case
   triplets (section 2.1 of RFC 3986) for every other byte.
   */
  predicate Canonical(t: seq<Byte>) {
    t == []
    || ((Unreserved(t[0]) || t[0] == PLUS) && Canonical(t[1..]))
    || (|t| >= 3 && t[0] == PERCENT && UpperHex(t[1]) && UpperHex(t[2])
        && !Unreserved(FromPair(t[1], t[2])) && FromPair(t[1], t[2]) != SPACE && Canonical(t[3..]))
  }

  lemma {:induction false} EncodeIsCanonical(s: seq<Byte>)
    ensures Canonical(Encode(s))
  {
    if s != [] {
      EncodeIsCanonical(s[1..]);
      HexPair(s[0]);
      assert Encode(s)[|EncodeByte(s[0])|..] == Encode(s[1..]);
    }
  }

  lemma {:induction false} CanonicalReencodes(t: seq<Byte>)
    requires Canonical(t)
    ensures Encode(Decode(t)) == t
  {
    if t != [] {
      var rest := t[Taken(t)..];
      CanonicalHead(t);
      CanonicalReencodes(rest);
      EncodeCons(Written(t)[0], Decode(rest));
    }
  }

  lemma EncodeCons(b: Byte, s: seq<Byte>)
    ensures Encode([b] + s) == EncodeByte(b) + Encode(s)
  {
    assert ([b] + s)[1..] == s;
  }

  lemma CanonicalHead(t: seq<Byte>)
    requires t != [] && Canonical(t)
    ensures |Written(t)| == 1 && Canonical(t[Taken(t)..])
    ensures Written(t) == [Written(t)[0]] && EncodeByte(Written(t)[0]) + t[Taken(t)..] == t
  {
    if t[0] == PERCENT {
      PairHex(t[1], t[2]);
    }
  }

  /** Encoding undoes decoding exactly on the texts that encoding can produce. */
  lemma EncodeOfDecode(t: seq<Byte>)
    ensures Encode(Decode(t)) == t <==> Canonical(t)
  {
    EncodeIsCanonical(Decode(t));
    if Canonical(t) {
      CanonicalReencodes(t);
    }
  }

  /** The bytes that can occur in an encoded text. */
  lemma {:induction false} EncodedAlphabet(s: seq<Byte>, i: nat)
    requires i < |Encode(s)|
    ensures var c := Encode(s)[i]; Unreserved(c) || c == PLUS || c == PERCENT
    ensures Encode(s)[i] == PERCENT ==>
              i + 2 < |Encode(s)| && UpperHex(Encode(s)[i + 1]) && UpperHex(Encode(s)[i + 2])
  {
    var head := EncodeByte(s[0]);
    if i >= |head| {
      EncodedAlphabet(s[1..], i - |head|);
    }
  }

  // ---------- the bounded decoder ----------

  /** The steps the decoder needs, one for each byte, triplet or dropped percent sign. */
  function Steps(s: seq<Byte>): nat {
    if s == [] then 0 else 1 + Steps(s[Taken(s)..])
  }

  /** What the first `n` steps write. */
  function DecodeSome(s: seq<Byte>, n: nat): (t: seq<Byte>)
    ensures |t| <= n
    decreases n
  {
    if n == 0 || s == [] then [] else Written(s) + DecodeSome(s[Taken(s)..], n - 1)
  }

  /** All of the text with enough steps, a beginning of it otherwise. */
  lemma {:induction false} DecodeSomeIsPrefix(s: seq<Byte>, n: nat)
    ensures DecodeSome(s, n) <= Decode(s)
    ensures Steps(s) <= n ==> DecodeSome(s, n) == Decode(s)
    decreases n
  {
    if n > 0 && s != [] {
      DecodeSomeIsPrefix(s[Taken(s)..], n - 1);
    }
  }

  /** One step of the decoder, at the text that is left. */
  lemma DecodeSomeStep(s: seq<Byte>, p: nat, next: nat, done: seq<Byte>, n: nat)
    requires p < |s| && n > 0 && next == p + Taken(s[p..])
    ensures done + DecodeSome(s[p..], n) == done + Written(s[p..]) + DecodeSome(s[next..], n - 1)
    ensures Steps(s[p..]) == 1 + Steps(s[next..])
  {
    var rest := s[p..];
    assert rest[Taken(rest)..] == s[next..];
    assert DecodeSome(rest, n) == Written(rest) + DecodeSome(s[next..], n - 1);
  }

  /** The steps allowed by a buffer size. */
  function Budget(ml: nat): nat {
    if ml == 0 then 0 else ml - 1
  }

  /** At position `p` with `ml` left, what is done and what the steps left will do is the result. */
  ghost predicate BuffState(s: seq<Byte>, maxlen: nat, p: int, ml: int, done: seq<Byte>) {
    && 0 <= p <= |s| && 0 <= ml <= maxlen && (maxlen > 0 ==> ml >= 1)
    && done + DecodeSome(s[p..], Budget(ml)) == DecodeSome(s, Budget(maxlen))
    && (maxlen > 0 ==> (Steps(s[p..]) < ml <==> Steps(s) < maxlen))
  }

  lemma BuffStart(s: seq<Byte>, maxlen: nat)
    ensures BuffState(s, maxlen, 0, maxlen, [])
  {
    assert s[0..] == s;
    assert [] + DecodeSome(s, Budget(maxlen)) == DecodeSome(s, Budget(maxlen));
  }

  lemma BuffStep(s: seq<Byte>, maxlen: nat, p: nat, ml: nat, done: seq<Byte>)
    requires BuffState(s, maxlen, p, ml, done) && ml > 1 && p < |s|
    ensures BuffState(s, maxlen, p + Taken(s[p..]), ml - 1, done + Written(s[p..]))
  {
    var next, more := p + Taken(s[p..]), done + Written(s[p..]);
    assert next <= |s| && more + DecodeSome(s[next..], Budget(ml - 1)) == DecodeSome(s, Budget(maxlen))
           && (Steps(s[next..]) < ml - 1 <==> Steps(s) < maxlen) by {
      DecodeSomeStep(s, p, next, done, ml - 1);
    }
  }

  lemma BuffEnd(s: seq<Byte>, maxlen: nat, p: nat, ml: nat, done: seq<Byte>)
    requires BuffState(s, maxlen, p, ml, done) && (ml <= 1 || p == |s|)
    ensures done == DecodeSome(s, Budget(maxlen))
    ensures ml == 1 && p < |s| <==> maxlen > 0 && Steps(s) >= maxlen
  {
    assert done + [] == done;
    assert p == |s| ==> s[p..] == [];
  }

  /**
   url_decode_buff: at most `maxlen - 1` steps; it fails exactly if they do not reach the end
   of the text.  With no room at all only the terminator is written and success reported.
   */
  method UrlDecodeBuff(out: array<Byte>, maxlen: nat, str: Option<seq<Byte>>) returns (rc: int)
    requires maxlen <= out.Length && 1 <= out.Length
    requires str.Some? ==> NoNul(str.value)
    modifies out
    ensures str.None? ==> rc == -1 && out[..] == old(out[..])
    ensures str.Some? ==>
              var text := DecodeSome(str.value, Budget(maxlen));
              && |text| < out.Length && out[..|text|] == text && out[|text|] == 0
              && (forall i | |text| < i < out.Length :: out[i] == old(out[i]))
              && rc == (if maxlen == 0 || Steps(str.value) < maxlen then 0 else -1)
  {
    if str.None? {
      return -1;
    }
    var s := str.value;
    var p, q, ml := DecodeWithin(out, maxlen, s);
    out[q] := 0;
    rc := if ml == 1 && p < |s| then -1 else 0;
  }

  /** The loop of the bounded decoder. */
  method DecodeWithin(out: array<Byte>, maxlen: nat, s: seq<Byte>) returns (p: nat, q: nat, ml: nat)
    requires maxlen <= out.Length && 1 <= out.Length
    modifies out
    ensures q == |DecodeSome(s, Budget(maxlen))| < out.Length && out[..q] == DecodeSome(s, Budget(maxlen))
    ensures forall i | q <= i < out.Length :: out[i] == old(out[i])
    ensures ml == 1 && p < |s| <==> maxlen > 0 && Steps(s) >= maxlen
  {
    ml, p, q := maxlen, 0, 0;
    ghost var done: seq<Byte> := [];
    BuffStart(s, maxlen);
    while ml > 1 && p < |s|
      invariant BuffState(s, maxlen, p, ml, done) && |done| == q && q + ml <= maxlen
      invariant out[..q] == done
      invariant forall i | q <= i < out.Length :: out[i] == old(out[i])
    {
      BuffStep(s, maxlen, p, ml, done);
      done := done + Written(s[p..]);
      p, q := DecodeOne(s, p, out, q);
      ml := ml - 1;
    }
    BuffEnd(s, maxlen, p, ml, done);
  }
}
