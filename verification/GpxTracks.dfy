/**
 What the exported tracks are: the points in order, cut exactly where the time gap says so,
 and a token stream that reads back as those tracks.
 */
module GpxTracks {
  import opened SeqTools
  import opened GpxExport

  // ---------- nothing lost, nothing empty ----------

  lemma FlatSnoc(ts: seq<Track>, ss: Track)
    ensures Flat(ts + [ss]) == Flat(ts) + FlatSegments(ss)
  {
    assert Front(ts + [ss]) == ts;
  }

  lemma FlatSegmentsSnoc(ss: Track, seg: Segment)
    ensures FlatSegments(ss + [seg]) == FlatSegments(ss) + seg
  {
    assert Front(ss + [seg]) == ss;
  }

  lemma FlatAdd(ts: seq<Track>, cut: Cut, p: Fix)
    requires Shaped(ts)
    ensures Flat(Add(ts, cut, p)) == Flat(ts) + [p]
  {
    var front, ss := Front(ts), Last(ts);
    Unsnoc(ts);
    FlatSnoc(front, ss);
    match cut {
      case NewTrack =>
        FlatSnoc(ts, [[p]]);
        FlatSegmentsSnoc([], [p]);
        assert [] + [[p]] == [[p]];
        assert FlatSegments([]) + [p] == [p];
      case NewSegment =>
        FlatSnoc(front, ss + [[p]]);
        FlatSegmentsSnoc(ss, [p]);
        Regroup(Flat(front), FlatSegments(ss), [p]);
      case Same =>
        Unsnoc(ss);
        FlatSegmentsSnoc(Front(ss), Last(ss));
        FlatSegmentsSnoc(Front(ss), Last(ss) + [p]);
        FlatSnoc(front, Front(ss) + [Last(ss) + [p]]);
        Regroup(FlatSegments(Front(ss)), Last(ss), [p]);
        Regroup(Flat(front), FlatSegments(ss), [p]);
    }
  }

  /** The points of all segments of all tracks, in order, are the exported points. */
  lemma {:induction false} PointsInOrder(lim: Limits, ps: seq<Fix>)
    ensures Flat(Tracks(lim, ps)) == ps
  {
    if ps == [] {
      FlatSnoc([], [[]]);
      FlatSegmentsSnoc([], []);
      var none: Segment := [];
      assert [] + [[none]] == [[none]] && [] + [none] == [none];
    } else {
      PointsInOrder(lim, Front(ps));
      FlatAdd(Tracks(lim, Front(ps)), CutAt(lim, ps, |ps| - 1), Last(ps));
      Unsnoc(ps);
    }
  }

  // ---------- where the cuts are ----------

  predicate Together(lim: Limits, seg: Segment) {
    && seg != []
    && forall k | 0 < k < |seg| :: CutBetween(lim, seg[k - 1].stamp, seg[k].stamp) == Same
  }

  predicate Apart(lim: Limits, before: Segment, after: Segment, cut: Cut) {
    before != [] && after != [] && CutBetween(lim, Last(before).stamp, after[0].stamp) == cut
  }

  predicate GoodTrack(lim: Limits, ss: Track) {
    && ss != []
    && (forall s | 0 <= s < |ss| :: Together(lim, ss[s]))
    && (forall s | 0 < s < |ss| :: Apart(lim, ss[s - 1], ss[s], NewSegment))
  }

  predicate TracksApart(lim: Limits, before: Track, after: Track) {
    before != [] && after != [] && Apart(lim, Last(before), after[0], NewTrack)
  }

  /**
   Tracks cut exactly where the gap says: no segment or track is empty, points of a segment
   belong together, neighbouring segments of a track are a segment split apart, and
   neighbouring tracks a track split.
   */
  predicate WellCut(lim: Limits, ts: seq<Track>) {
    && ts != []
    && (forall t | 0 <= t < |ts| :: GoodTrack(lim, ts[t]))
    && (forall t | 0 < t < |ts| :: TracksApart(lim, ts[t - 1], ts[t]))
  }

  function LastFix(ts: seq<Track>): Fix
    requires ts != [] && Last(ts) != [] && Last(Last(ts)) != []
  {
    Last(Last(Last(ts)))
  }

  lemma WellCutEnds(lim: Limits, ts: seq<Track>)
    requires WellCut(lim, ts)
    ensures Shaped(ts) && Last(Last(ts)) != []
  {
    assert GoodTrack(lim, Last(ts)) && Together(lim, Last(Last(ts)));
  }

  /** Adding a point at its cut keeps the tracks well cut. */
  lemma WellCutAdd(lim: Limits, ts: seq<Track>, p: Fix)
    requires WellCut(lim, ts) && Shaped(ts) && Last(Last(ts)) != []
    ensures var r := Add(ts, CutBetween(lim, LastFix(ts).stamp, p.stamp), p);
            WellCut(lim, r) && Last(Last(r)) != [] && LastFix(r) == p
  {
    var ss := Last(ts);
    var cut := CutBetween(lim, LastFix(ts).stamp, p.stamp);
    assert GoodTrack(lim, ss) && Together(lim, Last(ss));
    match cut {
      case NewTrack =>
        assert Together(lim, [p]) && GoodTrack(lim, [[p]]);
        AddGoodTrack(lim, ts, [[p]]);
      case NewSegment =>
        GrowTrack(lim, ss, p);
        ReplaceLast(lim, ts, ss + [[p]]);
      case Same =>
        GrowSegment(lim, ss, p);
        ReplaceLast(lim, ts, Front(ss) + [Last(ss) + [p]]);
    }
  }

  lemma AddGoodTrack(lim: Limits, ts: seq<Track>, ss: Track)
    requires WellCut(lim, ts) && GoodTrack(lim, ss) && TracksApart(lim, Last(ts), ss)
    ensures WellCut(lim, ts + [ss])
  {
    var r := ts + [ss];
    forall t | 0 < t < |r| ensures TracksApart(lim, r[t - 1], r[t]) {
      assert t == |ts| ==> r[t - 1] == Last(ts) && r[t] == ss;
    }
  }

  /** The last track may be replaced by one that begins with the same point. */
  lemma ReplaceLast(lim: Limits, ts: seq<Track>, ss: Track)
    requires WellCut(lim, ts) && GoodTrack(lim, ss) && Last(ts) != [] && Last(ts)[0] != [] && ss[0] != []
    requires ss[0][0] == Last(ts)[0][0]
    ensures WellCut(lim, Front(ts) + [ss])
  {
    var r := Front(ts) + [ss];
    forall t | 0 < t < |r| ensures TracksApart(lim, r[t - 1], r[t]) {
      assert r[t - 1] == ts[t - 1];
      assert TracksApart(lim, ts[t - 1], ts[t]);
    }
  }

  lemma GrowTrack(lim: Limits, ss: Track, p: Fix)
    requires GoodTrack(lim, ss) && Last(ss) != []
    requires CutBetween(lim, Last(Last(ss)).stamp, p.stamp) == NewSegment
    ensures GoodTrack(lim, ss + [[p]])
    ensures (ss + [[p]])[0] == ss[0] && ss[0] != []
  {
    var r := ss + [[p]];
    assert Together(lim, [p]) && Together(lim, ss[0]);
    forall s | 0 < s < |r| ensures Apart(lim, r[s - 1], r[s], NewSegment) {
      assert s == |ss| ==> r[s - 1] == Last(ss) && r[s] == [p];
    }
  }

  lemma GrowSegment(lim: Limits, ss: Track, p: Fix)
    requires GoodTrack(lim, ss) && Last(ss) != []
    requires CutBetween(lim, Last(Last(ss)).stamp, p.stamp) == Same
    ensures var r := Front(ss) + [Last(ss) + [p]];
            GoodTrack(lim, r) && r[0] != [] && ss[0] != [] && r[0][0] == ss[0][0]
  {
    var r := Front(ss) + [Last(ss) + [p]];
    assert Together(lim, Last(ss)) && Together(lim, ss[0]);
    assert Together(lim, Last(ss) + [p]);
    forall s | 0 < s < |r| ensures Apart(lim, r[s - 1], r[s], NewSegment) {
      assert Apart(lim, ss[s - 1], ss[s], NewSegment);
      assert r[s - 1] == ss[s - 1];
    }
  }

  /** The exported tracks are well cut, and end with the last point. */
  lemma {:induction false} TracksWellCut(lim: Limits, ps: seq<Fix>)
    requires ps != []
    ensures WellCut(lim, Tracks(lim, ps))
    ensures Last(Last(Tracks(lim, ps))) != [] && LastFix(Tracks(lim, ps)) == Last(ps)
  {
    if |ps| == 1 {
      TracksOfOne(lim, ps[0]);
      assert ps == [ps[0]];
      assert Together(lim, [ps[0]]) && GoodTrack(lim, [[ps[0]]]);
    } else {
      TracksWellCut(lim, Front(ps));
      WellCutAdd(lim, Tracks(lim, Front(ps)), Last(ps));
    }
  }

  // ---------- ... and nothing else is ----------

  /** The tracks before their last point was added. */
  function Remove(ts: seq<Track>): seq<Track>
    requires Shaped(ts) && Last(Last(ts)) != []
  {
    var ss := Last(ts);
    if |Last(ss)| > 1 then Front(ts) + [Front(ss) + [Front(Last(ss))]]
    else if |ss| > 1 then Front(ts) + [Front(ss)]
    else Front(ts)
  }

  lemma RemoveUndoes(lim: Limits, ts: seq<Track>)
    requires WellCut(lim, ts) && Shaped(ts) && Last(Last(ts)) != []
    requires |ts| > 1 || |ts[0]| > 1 || |ts[0][0]| > 1
    ensures WellCut(lim, Remove(ts)) && Shaped(Remove(ts)) && Last(Last(Remove(ts))) != []
    ensures ts == Add(Remove(ts), CutBetween(lim, LastFix(Remove(ts)).stamp, LastFix(ts).stamp), LastFix(ts))
  {
    var ss, p := Last(ts), LastFix(ts);
    var seg: Segment := Last(ss);
    Unsnoc(ts);
    Unsnoc(ss);
    Unsnoc(seg);
    assert GoodTrack(lim, ss) && Together(lim, seg) && Together(lim, ss[0]);
    if |seg| > 1 {
      var less := Front(ss) + [Front(seg)];
      ShrinkSegment(lim, ss);
      ReplaceLast(lim, ts, less);
      assert CutBetween(lim, seg[|seg| - 2].stamp, seg[|seg| - 1].stamp) == Same;
      assert Last(Remove(ts)) == less && Front(Remove(ts)) == Front(ts);
      assert Last(less) == Front(seg) && Front(less) == Front(ss);
    } else if |ss| > 1 {
      ShrinkTrack(lim, ss);
      ReplaceLast(lim, ts, Front(ss));
      assert Apart(lim, ss[|ss| - 2], ss[|ss| - 1], NewSegment);
      assert Last(Remove(ts)) == Front(ss) && Front(Remove(ts)) == Front(ts);
      assert seg == [p];
    } else {
      DropTrack(lim, ts);
      assert TracksApart(lim, ts[|ts| - 2], ts[|ts| - 1]);
      assert seg == [p] && ss == [[p]];
    }
  }

  lemma ShrinkSegment(lim: Limits, ss: Track)
    requires GoodTrack(lim, ss) && |Last(ss)| > 1
    ensures GoodTrack(lim, Front(ss) + [Front(Last(ss))])
  {
    var r := Front(ss) + [Front(Last(ss))];
    assert Together(lim, Last(ss));
    assert Together(lim, Front(Last(ss)));
    forall s | 0 < s < |r| ensures Apart(lim, r[s - 1], r[s], NewSegment) {
      assert Apart(lim, ss[s - 1], ss[s], NewSegment);
      assert r[s - 1] == ss[s - 1];
    }
  }

  lemma ShrinkTrack(lim: Limits, ss: Track)
    requires GoodTrack(lim, ss) && |ss| > 1
    ensures GoodTrack(lim, Front(ss)) && Last(Front(ss)) != []
  {
    assert Together(lim, Last(Front(ss)));
    forall s | 0 < s < |Front(ss)| ensures Apart(lim, Front(ss)[s - 1], Front(ss)[s], NewSegment) {
      assert Apart(lim, ss[s - 1], ss[s], NewSegment);
    }
  }

  lemma DropTrack(lim: Limits, ts: seq<Track>)
    requires WellCut(lim, ts) && |ts| > 1
    ensures WellCut(lim, Front(ts)) && Last(Front(ts)) != [] && Last(Last(Front(ts))) != []
  {
    WellCutFront(lim, ts);
    WellCutEnds(lim, Front(ts));
  }

  lemma WellCutFront(lim: Limits, ts: seq<Track>)
    requires WellCut(lim, ts) && |ts| > 1
    ensures WellCut(lim, Front(ts))
  {
    forall t | 0 < t < |Front(ts)| ensures TracksApart(lim, Front(ts)[t - 1], Front(ts)[t]) {
      assert TracksApart(lim, ts[t - 1], ts[t]);
    }
  }

  /** A well-cut list of tracks is the only one with its points. */
  lemma {:induction false} WellCutIsTracks(lim: Limits, ts: seq<Track>, ps: seq<Fix>)
    requires WellCut(lim, ts) && Flat(ts) == ps
    ensures ps != [] && ts == Tracks(lim, ps)
    decreases |ps|
  {
    WellCutEnds(lim, ts);
    if |ts| > 1 || |ts[0]| > 1 || |ts[0][0]| > 1 {
      var less, p := Remove(ts), LastFix(ts);
      RemoveUndoes(lim, ts);
      var cut := CutBetween(lim, LastFix(less).stamp, p.stamp);
      FlatAdd(less, cut, p);
      SnocParts(ps, Flat(less), p);
      WellCutIsTracks(lim, less, Flat(less));
      TracksWellCut(lim, Flat(less));
      TracksSnoc(lim, Flat(less), p);
    } else {
      OnePoint(lim, ts);
    }
  }

  lemma SnocParts(ps: seq<Fix>, front: seq<Fix>, p: Fix)
    requires ps == front + [p]
    ensures ps != [] && Front(ps) == front && Last(ps) == p
  {
  }

  lemma TracksSnoc(lim: Limits, front: seq<Fix>, p: Fix)
    requires front != []
    ensures Tracks(lim, front + [p]) == Add(Tracks(lim, front), CutBetween(lim, Last(front).stamp, p.stamp), p)
  {
    SnocParts(front + [p], front, p);
  }

  lemma OnePoint(lim: Limits, ts: seq<Track>)
    requires WellCut(lim, ts) && |ts| == 1 && |ts[0]| == 1 && |ts[0][0]| <= 1
    ensures Flat(ts) != [] && ts == Tracks(lim, Flat(ts))
  {
    assert GoodTrack(lim, ts[0]) && Together(lim, ts[0][0]);
    var p := ts[0][0][0];
    assert ts[0][0] == [p] && ts[0] == [[p]] && ts == [[[p]]];
    TracksOfOne(lim, p);
    PointsInOrder(lim, [p]);
  }

  lemma TracksOfOne(lim: Limits, p: Fix)
    ensures Tracks(lim, [p]) == [[[p]]]
  {
    assert Front([p]) == [] && CutAt(lim, [p], 0) == Same;
    var none: Segment := [];
    ExtendWhole([], none, p);
    assert [] + [[none]] == [[none]] && none + [p] == [p] && [] + [[[p]]] == [[[p]]];
  }

  /**
   The exported tracks are the one and only way to cut the points so that the cuts are exactly
   where the gap to the previous point exceeds a limit.
   */
  lemma TracksExactly(lim: Limits, ps: seq<Fix>, ts: seq<Track>)
    requires ps != []
    ensures ts == Tracks(lim, ps) <==> Flat(ts) == ps && WellCut(lim, ts)
  {
    TracksWellCut(lim, ps);
    PointsInOrder(lim, ps);
    if Flat(ts) == ps && WellCut(lim, ts) {
      WellCutIsTracks(lim, ts, ps);
    }
  }

  // ---------- the configuration guard ----------

  /** The check made when the configuration is read. */
  predicate Accepted(lim: Limits) {
    lim.track > 0 && lim.segment > 0 ==> lim.track > lim.segment
  }

  /** The cuts in seconds: limits are minutes, and a time that runs backwards counts as a very long gap. */
  lemma CutInSeconds(lim: Limits, a: Stamp, b: Stamp)
    ensures var gap := if a <= b then b - a else b - a + 0x1_0000_0000_0000_0000;
            CutBetween(lim, a, b)
            == if lim.track >= 1 && gap > lim.track * 60 then NewTrack
               else if lim.segment >= 1 && gap > lim.segment * 60 then NewSegment
               else Same
  {
  }

  /** In an accepted configuration some segment starts exactly where the segment limit is exceeded. */
  lemma AcceptedLimitsNest(lim: Limits, a: Stamp, b: Stamp)
    requires lim.track > 0 && lim.segment > 0 && Accepted(lim)
    ensures CutBetween(lim, a, b) != Same <==> Exceeds(lim.segment, a, b)
    ensures CutBetween(lim, a, b) == NewTrack <==> Exceeds(lim.track, a, b)
    ensures Exceeds(lim.track, a, b) ==> Exceeds(lim.segment, a, b)
  {
  }

  /** The configurations refused are those in which a track is never divided into segments. */
  lemma RefusedLimits(lim: Limits)
    requires lim.track > 0 && 0 < lim.segment < 100000
    ensures Accepted(lim) <==> exists a: Stamp, b: Stamp :: CutBetween(lim, a, b) == NewSegment
  {
    if Accepted(lim) {
      var b: Stamp := lim.segment * 60 + 1;
      assert CutBetween(lim, 0, b) == NewSegment;
    }
  }

  // ---------- the two splits are independent ----------

  /** All segments, without the division into tracks. */
  function Segments(ts: seq<Track>): Track {
    if ts == [] then [] else Segments(Front(ts)) + Last(ts)
  }

  /** All tracks, without the division into segments. */
  function Whole(ts: seq<Track>): seq<Track> {
    if ts == [] then [] else Whole(Front(ts)) + [[FlatSegments(Last(ts))]]
  }

  lemma SegmentsSnoc(ts: seq<Track>, ss: Track)
    ensures Segments(ts + [ss]) == Segments(ts) + ss
  {
    assert Front(ts + [ss]) == ts;
  }

  lemma WholeSnoc(ts: seq<Track>, ss: Track)
    ensures Whole(ts + [ss]) == Whole(ts) + [[FlatSegments(ss)]]
  {
    assert Front(ts + [ss]) == ts;
  }

  lemma SegmentsAdd(ts: seq<Track>, cut: Cut, p: Fix)
    requires Shaped(ts)
    ensures Segments(ts) != []
    ensures Segments(Add(ts, cut, p))
            == if cut == Same then Front(Segments(ts)) + [Last(Segments(ts)) + [p]] else Segments(ts) + [[p]]
  {
    var front, ss := Front(ts), Last(ts);
    Unsnoc(ts);
    SegmentsSnoc(front, ss);
    match cut {
      case NewTrack => SegmentsSnoc(ts, [[p]]);
      case NewSegment => SegmentsSnoc(front, ss + [[p]]);
      case Same =>
        SegmentsSnoc(front, Front(ss) + [Last(ss) + [p]]);
        assert Front(Segments(front) + ss) == Segments(front) + Front(ss);
        assert Last(Segments(front) + ss) == Last(ss);
    }
  }

  lemma WholeAdd(ts: seq<Track>, cut: Cut, p: Fix)
    requires Shaped(ts)
    ensures Shaped(Whole(ts))
    ensures Whole(Add(ts, cut, p)) == Add(Whole(ts), if cut == NewTrack then NewTrack else Same, p)
  {
    var front, ss := Front(ts), Last(ts);
    Unsnoc(ts);
    WholeSnoc(front, ss);
    WholeShaped(ts);
    match cut {
      case NewTrack =>
        WholeSnoc(ts, [[p]]);
        FlatSegmentsSnoc([], [p]);
        assert [] + [[p]] == [[p]] && FlatSegments([]) + [p] == [p];
      case NewSegment =>
        WholeSnoc(front, ss + [[p]]);
        FlatSegmentsSnoc(ss, [p]);
        ExtendWhole(Whole(front), FlatSegments(ss), p);
      case Same =>
        Unsnoc(ss);
        FlatSegmentsSnoc(Front(ss), Last(ss));
        FlatSegmentsSnoc(Front(ss), Last(ss) + [p]);
        Regroup(FlatSegments(Front(ss)), Last(ss), [p]);
        WholeSnoc(front, Front(ss) + [Last(ss) + [p]]);
        ExtendWhole(Whole(front), FlatSegments(ss), p);
    }
  }

  lemma ExtendWhole(front: seq<Track>, seg: Segment, p: Fix)
    requires Shaped(front + [[seg]])
    ensures Add(front + [[seg]], Same, p) == front + [[seg + [p]]]
  {
    var ts := front + [[seg]];
    assert Front(ts) == front && Last(ts) == [seg] && Front([seg]) == [] && Last([seg]) == seg;
    assert [] + [seg + [p]] == [seg + [p]];
  }

  lemma {:induction false} WholeShaped(ts: seq<Track>)
    ensures |Whole(ts)| == |ts| && forall t | 0 <= t < |ts| :: Whole(ts)[t] != []
  {
    if ts != [] {
      WholeShaped(Front(ts));
    }
  }

  /** The division into tracks is what the track limit alone gives. */
  lemma {:induction false} TracksIgnoreSegments(lim: Limits, ps: seq<Fix>)
    ensures Whole(Tracks(lim, ps)) == Tracks(Limits(lim.track, 0), ps)
  {
    if ps == [] {
      WholeSnoc([], [[]]);
      FlatSegmentsSnoc([], []);
      var none: Segment := [];
      assert [] + [[none]] == [[none]] && [] + [none] == [none];
    } else {
      TracksIgnoreSegments(lim, Front(ps));
      WholeAdd(Tracks(lim, Front(ps)), CutAt(lim, ps, |ps| - 1), Last(ps));
    }
  }

  /**
   In an accepted configuration with both splits on, the segments are those the segment limit
   alone gives: the tracks only bundle them.
   */
  lemma {:induction false} SegmentsIgnoreTracks(lim: Limits, ps: seq<Fix>)
    requires lim.track > 0 && lim.segment > 0 && Accepted(lim)
    ensures [Segments(Tracks(lim, ps))] == Tracks(Limits(0, lim.segment), ps)
  {
    if ps == [] {
      SegmentsSnoc([], [[]]);
      var none: Segment := [];
      assert [] + [[none]] == [[none]] && [] + [none] == [none];
    } else {
      var cut := CutAt(lim, ps, |ps| - 1);
      var ts := Tracks(lim, Front(ps));
      SegmentsIgnoreTracks(lim, Front(ps));
      SegmentsAdd(ts, cut, Last(ps));
      OneTrackAdd(Segments(ts), if cut == Same then Same else NewSegment, Last(ps));
      CutAlone(lim, ps[if |ps| == 1 then 0 else |ps| - 2].stamp, Last(ps).stamp);
    }
  }

  lemma CutAlone(lim: Limits, a: Stamp, b: Stamp)
    requires lim.track > 0 && lim.segment > 0 && Accepted(lim)
    ensures CutBetween(Limits(0, lim.segment), a, b) == if CutBetween(lim, a, b) == Same then Same else NewSegment
  {
  }

  lemma OneTrackAdd(ss: Track, cut: Cut, p: Fix)
    requires ss != [] && cut != NewTrack
    ensures Add([ss], cut, p) == [if cut == Same then Front(ss) + [Last(ss) + [p]] else ss + [[p]]]
  {
    assert Front([ss]) == [] && Last([ss]) == ss;
  }

  // ---------- the token stream ----------

  /** Reading tokens: where in the document the reader is and what it has collected. */
  datatype Reader =
    | Outside(ts: seq<Track>)
    | Unnamed(ts: seq<Track>)
    | InTrack(ts: seq<Track>, ss: Track)
    | InSegment(ts: seq<Track>, ss: Track, seg: Segment)
    | Bad

  /** One token; everything not well nested, and every wrong track number, is bad. */
  function Read(r: Reader, tok: Token): Reader {
    match (r, tok)
    case (Outside(ts), TrkOpen) => Unnamed(ts)
    case (Unnamed(ts), Name(n)) => if n == |ts| + 1 then InTrack(ts, []) else Bad
    case (InTrack(ts, ss), SegOpen) => InSegment(ts, ss, [])
    case (InTrack(ts, ss), TrkClose) => Outside(ts + [ss])
    case (InSegment(ts, ss, seg), Point(p)) => InSegment(ts, ss, seg + [p])
    case (InSegment(ts, ss, seg), SegClose) => InTrack(ts, ss + [seg])
    case (_, _) => Bad
  }

  function ReadAll(r: Reader, toks: seq<Token>): Reader {
    if toks == [] then r else Read(ReadAll(r, Front(toks)), Last(toks))
  }

  lemma {:induction false} ReadConcat(r: Reader, a: seq<Token>, b: seq<Token>)
    ensures ReadAll(r, a + b) == ReadAll(ReadAll(r, a), b)
  {
    if b == [] {
      assert a + b == a;
    } else {
      assert Front(a + b) == a + Front(b);
      ReadConcat(r, a, Front(b));
    }
  }

  lemma ReadOne(r: Reader, a: seq<Token>, tok: Token)
    ensures ReadAll(r, a + [tok]) == Read(ReadAll(r, a), tok)
  {
    assert Front(a + [tok]) == a;
  }

  lemma {:induction false} ReadPoints(ts: seq<Track>, ss: Track, seg: Segment)
    ensures ReadAll(InSegment(ts, ss, []), Points(seg)) == InSegment(ts, ss, seg)
  {
    if seg != [] {
      ReadPoints(ts, ss, Front(seg));
      ReadOne(InSegment(ts, ss, []), Points(Front(seg)), Point(Last(seg)));
      Unsnoc(seg);
    }
  }

  lemma {:induction false} ReadSegments(ts: seq<Track>, ss: Track)
    ensures ReadAll(InTrack(ts, []), WriteSegments(ss)) == InTrack(ts, ss)
  {
    if ss != [] {
      var front, seg := Front(ss), Last(ss);
      ReadSegments(ts, front);
      ReadSegment(ts, front, seg);
      ReadConcat(InTrack(ts, []), WriteSegments(front), [SegOpen] + Points(seg) + [SegClose]);
      Unsnoc(ss);
    }
  }

  lemma ReadSegment(ts: seq<Track>, ss: Track, seg: Segment)
    ensures ReadAll(InTrack(ts, ss), [SegOpen] + Points(seg) + [SegClose]) == InTrack(ts, ss + [seg])
  {
    ReadOne(InTrack(ts, ss), [], SegOpen);
    assert [] + [SegOpen] == [SegOpen];
    ReadConcat(InTrack(ts, ss), [SegOpen], Points(seg));
    ReadPoints(ts, ss, seg);
    ReadOne(InTrack(ts, ss), [SegOpen] + Points(seg), SegClose);
  }

  lemma ReadTrack(ts: seq<Track>, ss: Track)
    ensures ReadAll(Outside(ts), WriteTrack(|ts| + 1, ss)) == Outside(ts + [ss])
  {
    var start := Outside(ts);
    ReadOne(start, [], TrkOpen);
    ReadOne(start, [] + [TrkOpen], Name(|ts| + 1));
    assert [] + [TrkOpen] + [Name(|ts| + 1)] == [TrkOpen, Name(|ts| + 1)];
    ReadConcat(start, [TrkOpen, Name(|ts| + 1)], WriteSegments(ss));
    ReadSegments(ts, ss);
    ReadOne(start, [TrkOpen, Name(|ts| + 1)] + WriteSegments(ss), TrkClose);
  }

  /** Whatever tracks are written, reading the tokens gives them back, numbered from one. */
  lemma {:induction false} ReadOfWrite(ts: seq<Track>)
    ensures ReadAll(Outside([]), Write(ts)) == Outside(ts)
  {
    if ts != [] {
      var front, ss := Front(ts), Last(ts);
      ReadOfWrite(front);
      ReadTrack(front, ss);
      ReadConcat(Outside([]), Write(front), WriteTrack(|ts|, ss));
      Unsnoc(ts);
    }
  }

  /**
   The exported document is well nested with tracks numbered from one; read back, it holds the
   exported points in order; and nothing in it is empty unless there is nothing to export.
   */
  lemma ExportIsDocument(lim: Limits, ps: seq<Fix>)
    ensures ReadAll(Outside([]), Write(Tracks(lim, ps))) == Outside(Tracks(lim, ps))
    ensures Flat(Tracks(lim, ps)) == ps
    ensures ps != [] ==> Filled(Tracks(lim, ps))
  {
    ReadOfWrite(Tracks(lim, ps));
    PointsInOrder(lim, ps);
    if ps != [] {
      TracksWellCut(lim, ps);
      forall t, s | 0 <= t < |Tracks(lim, ps)| && 0 <= s < |Tracks(lim, ps)[t]|
        ensures Tracks(lim, ps)[t][s] != []
      {
        assert GoodTrack(lim, Tracks(lim, ps)[t]) && Together(lim, Tracks(lim, ps)[t][s]);
      }
    }
  }
}
