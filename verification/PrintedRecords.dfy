/**
 Location records as a device prints them: which of them are accepted, and that storing a
 batch of them stores their values.
 */
module PrintedRecords {
  import opened Options
  import opened CText
  import opened Numbers
  import opened SeqTools
  import opened FieldSplitter
  import opened LocationStore

  /** The fields a device sends for these values; the voltage is followed by its unit. */
  function RecordFields(l: Location, unit: char): seq<string> {
    [PrintInt(l.deviceid), PrintInt(l.datetime), l.lon, l.lat, PrintInt(l.speed), PrintInt(l.heading),
     PrintInt(l.altitude), PrintInt(l.satellite), PrintInt(l.event), l.voltage + [unit], PrintInt(l.detached)]
  }

  function RecordLine(l: Location, unit: char): string {
    Join(RecordFields(l, unit), ',')
  }

  predicate IsInt(v: int) {
    -0x8000_0000 <= v < 0x8000_0000
  }

  /** Values that a record can carry: numbers of the program's widths, texts without commas. */
  ghost predicate Values(l: Location, unit: char) {
    && 0 <= l.deviceid < LONG_LIMIT && 0 <= l.datetime < LONG_LIMIT
    && IsInt(l.speed) && IsInt(l.heading) && IsInt(l.altitude)
    && IsInt(l.satellite) && IsInt(l.event) && IsInt(l.detached)
    && Free(l.lon, ',') && Free(l.lat, ',') && Free(l.voltage, ',') && unit != ','
  }

  lemma CommaFree(l: Location, unit: char, k: nat)
    requires Values(l, unit) && k < NUM_FIELDS
    ensures Free(RecordFields(l, unit)[k], ',')
  {
  }

  lemma FieldsOfLine(l: Location, unit: char)
    requires Values(l, unit)
    ensures Split(RecordLine(l, unit), ',') == RecordFields(l, unit)
  {
    var fs := RecordFields(l, unit);
    forall k | 0 <= k < |fs| ensures Free(fs[k], ',') {
      CommaFree(l, unit, k);
    }
    SplitOfJoin(fs, ',');
  }

  /** Reading the printed fields gives the values back, with the clock and address of the reading. */
  lemma RowOfPrinted(env: Env, i: nat, l: Location, unit: char)
    requires Values(l, unit)
    ensures var fs := Split(RecordLine(l, unit), ',');
            && |fs| == 11
            && LocationOf(env, i, fs) == l.(timestamp := env.clock(i), addr := env.address(l.lat, l.lon))
  {
    FieldsOfLine(l, unit);
    AtolOfPrintNat(l.deviceid);
    AtolOfPrintNat(l.datetime);
    AtolOfPrintInt(l.speed);
    AtolOfPrintInt(l.heading);
    AtolOfPrintInt(l.altitude);
    AtolOfPrintInt(l.satellite);
    AtolOfPrintInt(l.event);
    AtolOfPrintInt(l.detached);
    assert DropLast(l.voltage + [unit]) == l.voltage;
  }

  // ---------- which lines are accepted ----------

  /** The ids that print with ten digits, the first a 3. */
  lemma IdsWithThree(n: nat)
    ensures |PrintNat(n)| == 10 && PrintNat(n)[0] == '3' <==> 3_000_000_000 <= n < 4_000_000_000
  {
    BillionPowers();
    var s := PrintNat(n);
    if |s| == 10 {
      PrintNatBounds(n);
      FirstDigit(n, s[0]);
    }
    if 3_000_000_000 <= n < 4_000_000_000 {
      PrintNatLonger(n, 9);
      PrintNatLength(n, 10);
    }
  }

  lemma BillionPowers()
    ensures Pow10(9) == 1_000_000_000 && Pow10(10) == 10_000_000_000
  {
  }

  lemma FirstDigit(n: nat, c: char)
    requires IsDigit(c) && DigitValue(c) * 1_000_000_000 <= n < DigitValue(c) * 1_000_000_000 + 1_000_000_000
    ensures c == '3' <==> 3_000_000_000 <= n < 4_000_000_000
  {
  }

  lemma CommasShift(s: string, i: nat)
    requires s != "" && 1 <= i
    ensures CommasTo(s, i) == (if At(s, 1) == ',' then 1 else 0) + CommasTo(s[1..], i - 1)
  {
    if i > 1 {
      CommasShift(s, i - 1);
      assert At(s, i) == At(s[1..], i - 1);
    }
  }

  /** The counter of the copying loop counts the fields, but for an empty first one. */
  lemma {:induction false} CommasOfSplit(s: string)
    requires s != ""
    ensures CommasTo(s, |s|) + (if s[0] == ',' then 2 else 1) == |Split(s, ',')|
  {
    CommasShift(s, |s|);
    var t := s[1..];
    if t == "" {
      assert At(s, 1) != ',' && Split(t, ',') == [""];
    } else {
      assert At(s, 1) == t[0];
      CommasOfSplit(t);
    }
  }

  lemma NumbersAreShort(l: Location, unit: char)
    requires Values(l, unit)
    ensures var fs := RecordFields(l, unit);
            && |fs[0]| <= 20 && |fs[1]| <= 20 && |fs[4]| <= 20 && |fs[5]| <= 20 && |fs[6]| <= 20
            && |fs[7]| <= 20 && |fs[8]| <= 20 && |fs[10]| <= 20
  {
    NumberIsShort(l.deviceid);
    NumberIsShort(l.datetime);
    NumberIsShort(l.speed);
    NumberIsShort(l.heading);
    NumberIsShort(l.altitude);
    NumberIsShort(l.satellite);
    NumberIsShort(l.event);
    NumberIsShort(l.detached);
  }

  lemma NumberIsShort(v: int)
    requires -LONG_LIMIT < v < LONG_LIMIT
    ensures |PrintInt(v)| <= 20
  {
    LongIsShort(if v < 0 then -v else v);
  }

  lemma LongIsShort(n: nat)
    requires n < LONG_LIMIT
    ensures |PrintNat(n)| <= 19
  {
    var p := Pow10(10);
    assert p == 10_000_000_000;
    assert Pow10(13) == 1000 * p && Pow10(16) == 1000 * Pow10(13) && Pow10(19) == 1000 * Pow10(16);
    PrintNatLength(n, 19);
  }

  /** The limits of the splitter on a printed record: on the whole line and on its free texts. */
  lemma SplittableLine(l: Location, unit: char)
    requires Values(l, unit)
    ensures Splittable(RecordLine(l, unit), ',')
            <==> |RecordLine(l, unit)| < 1024 && |l.lon| < 256 && |l.lat| < 256 && |l.voltage| < 255
  {
    FieldsOfLine(l, unit);
    LineStarts(l, unit);
    SplittableFields(RecordLine(l, unit), RecordFields(l, unit));
    ShortFields(l, unit);
  }

  lemma ShortFields(l: Location, unit: char)
    requires Values(l, unit)
    ensures (forall k | 0 <= k < 11 :: |RecordFields(l, unit)[k]| < 256)
            <==> |l.lon| < 256 && |l.lat| < 256 && |l.voltage| < 255
  {
    var fs := RecordFields(l, unit);
    NumbersAreShort(l, unit);
    assert |fs[2]| == |l.lon| && |fs[3]| == |l.lat| && |fs[9]| == |l.voltage| + 1;
  }

  lemma SplittableFields(r: string, fs: seq<string>)
    requires r != "" && fs == Split(r, ',') && |fs| == 11
    ensures Splittable(r, ',') <==> |r| < 1024 && forall k | 0 <= k < 11 :: |fs[k]| < 256
  {
  }

  lemma LineStarts(l: Location, unit: char)
    ensures RecordLine(l, unit) != "" && RecordLine(l, unit)[0] == PrintInt(l.deviceid)[0]
  {
  }

  /**
   A record printed from values is accepted if and only if its device id has ten digits and
   starts with 3, it has at least 50 characters, and line and texts are within the splitter's
   limits.
   */
  lemma PrintedRecordValid(l: Location, unit: char)
    requires Values(l, unit)
    ensures ValidRecord(RecordLine(l, unit)) <==>
              && 3_000_000_000 <= l.deviceid < 4_000_000_000 && 50 <= |RecordLine(l, unit)| < 1024
              && |l.lon| < 256 && |l.lat| < 256 && |l.voltage| < 255
  {
    FieldsOfLine(l, unit);
    LineStarts(l, unit);
    CommasOfSplit(RecordLine(l, unit));
    IdsWithThree(l.deviceid);
    SplittableLine(l, unit);
  }

  // ---------- a batch of them ----------

  /** Nothing in the texts ends a record. */
  ghost predicate Plain(s: string) {
    Free(s, ']') && Free(s, '\r') && Free(s, '\0')
  }

  /** A location whose printed record is accepted and fits the record buffer. */
  ghost predicate Storable(l: Location, unit: char) {
    && Values(l, unit) && 3_000_000_000 <= l.deviceid < 4_000_000_000
    && 50 <= |RecordLine(l, unit)| < 512
    && |l.lon| < 256 && |l.lat| < 256 && |l.voltage| < 255
    && Plain(l.lon) && Plain(l.lat) && Plain(l.voltage) && Plain([unit])
  }

  ghost function RecordLines(ls: seq<Location>, unit: char): (rs: seq<string>)
    requires forall j | 0 <= j < |ls| :: Storable(ls[j], unit)
    ensures |rs| == |ls| && forall j | 0 <= j < |ls| :: rs[j] == RecordLine(ls[j], unit)
  {
    if ls == [] then [] else [RecordLine(ls[0], unit)] + RecordLines(ls[1..], unit)
  }

  lemma {:induction false} PlainJoin(fs: seq<string>)
    requires forall k | 0 <= k < |fs| :: Plain(fs[k])
    ensures Plain(Join(fs, ','))
  {
    if |fs| > 1 {
      PlainJoin(fs[1..]);
    }
  }

  lemma LineIsText(l: Location, unit: char)
    requires Storable(l, unit)
    ensures RecordText(RecordLine(l, unit))
  {
    var fs := RecordFields(l, unit);
    forall k | 0 <= k < |fs| ensures Plain(fs[k]) {
      FieldIsPlain(l, unit, k);
    }
    PlainJoin(fs);
    LineStarts(l, unit);
  }

  lemma FieldIsPlain(l: Location, unit: char, k: nat)
    requires Storable(l, unit) && k < 11
    ensures Plain(RecordFields(l, unit)[k])
  {
    var vs := [l.deviceid, l.datetime, 0, 0, l.speed, l.heading, l.altitude, l.satellite, l.event, 0, l.detached];
    if k == 9 {
      PlainConcat(l.voltage, [unit]);
    } else if k != 2 && k != 3 {
      assert RecordFields(l, unit)[k] == PrintInt(vs[k]);
      PlainNumber(vs[k]);
    }
  }

  lemma PlainConcat(a: string, b: string)
    requires Plain(a) && Plain(b)
    ensures Plain(a + b)
  {
  }

  lemma PlainNumber(v: int)
    ensures Plain(PrintInt(v))
  {
    var s := PrintInt(v);
    assert forall i | 0 <= i < |s| :: IsDigit(s[i]) || s[i] == '-';
  }

  /**
   End to end: in each of the four framings, a batch of printed records is read whole, and the
   rows are the printed values, in order, with the clock and the address of the reading.
   */
  lemma PrintedBatchIsStored(env: Env, ls: seq<Location>, unit: char, bracket: bool, trailing: bool)
    requires ls != [] && forall j | 0 <= j < |ls| :: Storable(ls[j], unit)
    ensures var b := Received(Frame(RecordLines(ls, unit), bracket, trailing));
            && b == Read(RecordLines(ls, unit))
            && forall j: nat | j < |ls| ::
                 Locations(env, b.rs)[j]
                 == ls[j].(timestamp := env.clock(j), addr := env.address(ls[j].lat, ls[j].lon))
  {
    var rs := RecordLines(ls, unit);
    forall j | 0 <= j < |rs| ensures RecordText(rs[j]) && ValidRecord(rs[j]) && |rs[j]| < RECORD_ROOM && rs[j] != "" {
      LineIsText(ls[j], unit);
      PrintedRecordValid(ls[j], unit);
      LineStarts(ls[j], unit);
    }
    FramingsAgree(rs, bracket, trailing);
    forall j: nat | j < |ls|
      ensures Locations(env, rs)[j] == ls[j].(timestamp := env.clock(j), addr := env.address(ls[j].lat, ls[j].lon))
    {
      LocationsAt(env, rs, j);
      RowOfPrinted(env, j, ls[j], unit);
    }
  }
}
