/**
 Exporting locations as GPX: the loop that writes the points and opens a new track or track
 segment where the time since the previous point is long enough.
 */
module GpxExport {
  import opened Numbers

  /** A time in seconds as an unsigned long. */
  type Stamp = n: nat | n < ULONG_RANGE

  /** A location to export. */
  datatype Fix = Fix(stamp: Stamp, lat: string, lon: string, altitude: string, date: string,
                     heading: string, speed: string, satellite: string)

  /** The configured split times in minutes; zero or less switches a split off. */
  datatype Limits = Limits(track: int, segment: int)

  datatype Token = TrkOpen | Name(n: nat) | SegOpen | Point(fix: Fix) | SegClose | TrkClose

  type Segment = seq<Fix>
  type Track = seq<Segment>

  /** What the loop does before writing a point. */
  datatype Cut = Same | NewSegment | NewTrack

  /** Time between two stamps in unsigned long arithmetic: it wraps when time runs backwards. */
  function Gap(prev: Stamp, cur: Stamp): (g: Stamp)
    ensures prev + g == cur || prev + g == cur + ULONG_RANGE
  {
    if prev <= cur then cur - prev else ULONG_RANGE - (prev - cur)
  }

  predicate Exceeds(limit: int, prev: Stamp, cur: Stamp) {
    limit > 0 && Gap(prev, cur) > limit * 60
  }

  function CutBetween(lim: Limits, prev: Stamp, cur: Stamp): Cut {
    if Exceeds(lim.track, prev, cur) then NewTrack
    else if Exceeds(lim.segment, prev, cur) then NewSegment
    else Same
  }

  function Last<T>(s: seq<T>): T
    requires s != []
  {
    s[|s| - 1]
  }

  function Front<T>(s: seq<T>): seq<T>
    requires s != []
  {
    s[..|s| - 1]
  }

  lemma Unsnoc<T>(s: seq<T>)
    requires s != []
    ensures s == Front(s) + [Last(s)]
  {
  }

  // ---------- the tracks ----------

  ghost predicate Shaped(ts: seq<Track>) {
    ts != [] && forall t | 0 <= t < |ts| :: ts[t] != []
  }

  ghost predicate Filled(ts: seq<Track>) {
    Shaped(ts) && forall t, s | 0 <= t < |ts| && 0 <= s < |ts[t]| :: ts[t][s] != []
  }

  /** The tracks with one more point. */
  function Add(ts: seq<Track>, cut: Cut, p: Fix): (r: seq<Track>)
    requires Shaped(ts)
    ensures Shaped(r)
  {
    match cut
    case NewTrack => ts + [[[p]]]
    case NewSegment => Front(ts) + [Last(ts) + [[p]]]
    case Same => Front(ts) + [Front(Last(ts)) + [Last(Last(ts)) + [p]]]
  }

  /** The cut before point `i`; the first point is compared with itself. */
  function CutAt(lim: Limits, ps: seq<Fix>, i: nat): Cut
    requires i < |ps|
  {
    CutBetween(lim, ps[if i == 0 then 0 else i - 1].stamp, ps[i].stamp)
  }

  /** The tracks the loop builds from the points. */
  function Tracks(lim: Limits, ps: seq<Fix>): (ts: seq<Track>)
    ensures Shaped(ts)
  {
    if ps == [] then [[[]]]
    else Add(Tracks(lim, Front(ps)), CutAt(lim, ps, |ps| - 1), Last(ps))
  }

  function FlatSegments(ss: Track): seq<Fix> {
    if ss == [] then [] else FlatSegments(Front(ss)) + Last(ss)
  }

  function Flat(ts: seq<Track>): seq<Fix> {
    if ts == [] then [] else Flat(Front(ts)) + FlatSegments(Last(ts))
  }

  // ---------- the written tokens ----------

  function Points(seg: Segment): seq<Token> {
    if seg == [] then [] else Points(Front(seg)) + [Point(Last(seg))]
  }

  function WriteSegments(ss: Track): seq<Token> {
    if ss == [] then [] else WriteSegments(Front(ss)) + ([SegOpen] + Points(Last(ss)) + [SegClose])
  }

  function WriteTrack(n: nat, ss: Track): seq<Token> {
    [TrkOpen, Name(n)] + WriteSegments(ss) + [TrkClose]
  }

  /** All tracks, numbered from one. */
  function Write(ts: seq<Track>): seq<Token> {
    if ts == [] then [] else Write(Front(ts)) + WriteTrack(|ts|, Last(ts))
  }

  const CLOSING: seq<Token> := [SegClose, TrkClose]

  /** What is written between two points at a cut, in a list of `n` tracks. */
  function Between(cut: Cut, n: nat): seq<Token> {
    match cut
    case NewTrack => [SegClose, TrkClose, TrkOpen, Name(n + 1), SegOpen]
    case NewSegment => [SegClose, SegOpen]
    case Same => []
  }

  lemma WriteSnoc(ts: seq<Track>, ss: Track)
    ensures Write(ts + [ss]) == Write(ts) + WriteTrack(|ts| + 1, ss)
  {
    assert Front(ts + [ss]) == ts;
  }

  lemma WriteSegmentsSnoc(ss: Track, seg: Segment)
    ensures WriteSegments(ss + [seg]) == WriteSegments(ss) + ([SegOpen] + Points(seg) + [SegClose])
  {
    assert Front(ss + [seg]) == ss;
  }

  lemma PointsSnoc(seg: Segment, p: Fix)
    ensures Points(seg + [p]) == Points(seg) + [Point(p)]
  {
    assert Front(seg + [p]) == seg;
  }

  /** Everything written for the tracks, but for the closing of the last segment and track. */
  function Opened(before: seq<Token>, n: nat, segs: seq<Token>, points: seq<Token>): seq<Token> {
    before + ([TrkOpen, Name(n)] + (segs + ([SegOpen] + points)))
  }

  lemma WriteOpened(front: seq<Track>, ss: Track, seg: Segment)
    ensures Write(front + [ss + [seg]]) == Opened(Write(front), |front| + 1, WriteSegments(ss), Points(seg)) + CLOSING
  {
    WriteSnoc(front, ss + [seg]);
    WriteSegmentsSnoc(ss, seg);
    OpenedClosed(Write(front), |front| + 1, WriteSegments(ss), Points(seg));
  }

  lemma OpenedClosed(before: seq<Token>, n: nat, segs: seq<Token>, points: seq<Token>)
    ensures before + ([TrkOpen, Name(n)] + (segs + ([SegOpen] + points + [SegClose])) + [TrkClose])
            == Opened(before, n, segs, points) + CLOSING
  {
  }

  /** Writing one more point before the closing tokens writes the tracks with that point. */
  lemma WriteAdd(out: seq<Token>, ts: seq<Track>, cut: Cut, p: Fix)
    requires Shaped(ts) && out + CLOSING == Write(ts)
    ensures out + Between(cut, |ts|) + [Point(p)] + CLOSING == Write(Add(ts, cut, p))
  {
    Unsnoc(ts);
    Unsnoc(Last(ts));
    WriteAddTo(out, Front(ts), Front(Last(ts)), Last(Last(ts)), cut, p);
  }

  lemma WriteAddTo(out: seq<Token>, front: seq<Track>, ss: Track, seg: Segment, cut: Cut, p: Fix)
    requires Shaped(front + [ss + [seg]]) && out + CLOSING == Write(front + [ss + [seg]])
    ensures out + Between(cut, |front| + 1) + [Point(p)] + CLOSING == Write(Add(front + [ss + [seg]], cut, p))
  {
    AddTo(front, ss, seg, cut, p);
    match cut {
      case Same =>
        OpenPart(out, front, ss, seg);
        AddToSegment(front, ss, seg, p);
      case NewSegment =>
        OpenPart(out, front, ss, seg);
        AddSegment(front, ss, seg, p);
      case NewTrack =>
        AddTrack(front + [ss + [seg]], out, p);
    }
  }

  lemma AddTo(front: seq<Track>, ss: Track, seg: Segment, cut: Cut, p: Fix)
    requires Shaped(front + [ss + [seg]])
    ensures Add(front + [ss + [seg]], cut, p) ==
            match cut
            case NewTrack => front + [ss + [seg]] + [[[p]]]
            case NewSegment => front + [ss + [seg] + [[p]]]
            case Same => front + [ss + [seg + [p]]]
  {
    var ts, track := front + [ss + [seg]], ss + [seg];
    assert Front(ts) == front && Last(ts) == track;
    assert Front(track) == ss && Last(track) == seg;
  }

  lemma OpenPart(out: seq<Token>, front: seq<Track>, ss: Track, seg: Segment)
    requires out + CLOSING == Write(front + [ss + [seg]])
    ensures out == Opened(Write(front), |front| + 1, WriteSegments(ss), Points(seg))
  {
    WriteOpened(front, ss, seg);
    SamePrefix(out, Opened(Write(front), |front| + 1, WriteSegments(ss), Points(seg)), CLOSING);
  }

  lemma AddToSegment(front: seq<Track>, ss: Track, seg: Segment, p: Fix)
    ensures Opened(Write(front), |front| + 1, WriteSegments(ss), Points(seg)) + Between(Same, |front| + 1)
            + [Point(p)] + CLOSING == Write(front + [ss + [seg + [p]]])
  {
    PointsSnoc(seg, p);
    WriteOpened(front, ss, seg + [p]);
    SameOpened(Write(front), |front| + 1, WriteSegments(ss), Points(seg), p);
  }

  lemma AddTrack(ts: seq<Track>, out: seq<Token>, p: Fix)
    requires out + CLOSING == Write(ts)
    ensures out + Between(NewTrack, |ts|) + [Point(p)] + CLOSING == Write(ts + [[[p]]])
  {
    WriteSnoc(ts, [[p]]);
    OnePointTrack(|ts| + 1, p);
    NewTrackTokens(out, |ts|, p);
  }

  lemma OnePointTrack(n: nat, p: Fix)
    ensures WriteTrack(n, [[p]]) == [TrkOpen, Name(n), SegOpen, Point(p), SegClose, TrkClose]
  {
    PointsSnoc([], p);
    assert [] + [p] == [p];
    WriteSegmentsSnoc([], [p]);
    assert [] + [[p]] == [[p]];
  }

  lemma NewTrackTokens(out: seq<Token>, n: nat, p: Fix)
    ensures out + Between(NewTrack, n) + [Point(p)] + CLOSING
            == (out + CLOSING) + [TrkOpen, Name(n + 1), SegOpen, Point(p), SegClose, TrkClose]
  {
  }

  lemma SamePrefix(a: seq<Token>, b: seq<Token>, c: seq<Token>)
    requires a + c == b + c
    ensures a == b
  {
    assert |a| == |b|;
    assert a == (a + c)[..|a|] && b == (b + c)[..|a|];
  }

  lemma SameOpened(before: seq<Token>, n: nat, segs: seq<Token>, points: seq<Token>, p: Fix)
    ensures Opened(before, n, segs, points) + Between(Same, n) + [Point(p)] == Opened(before, n, segs, points + [Point(p)])
  {
  }

  lemma AddSegment(front: seq<Track>, ss: Track, seg: Segment, p: Fix)
    ensures Opened(Write(front), |front| + 1, WriteSegments(ss), Points(seg)) + Between(NewSegment, |front| + 1)
            + [Point(p)] + CLOSING == Write(front + [ss + [seg] + [[p]]])
  {
    assert [p] == [] + [p];
    PointsSnoc([], p);
    WriteSegmentsSnoc(ss, seg);
    WriteOpened(front, ss + [seg], [p]);
    NewSegmentOpened(Write(front), |front| + 1, WriteSegments(ss), Points(seg), p);
  }

  lemma NewSegmentOpened(before: seq<Token>, n: nat, segs: seq<Token>, points: seq<Token>, p: Fix)
    ensures Opened(before, n, segs, points) + Between(NewSegment, n) + [Point(p)]
            == Opened(before, n, segs + ([SegOpen] + points + [SegClose]), [] + [Point(p)])
  {
  }

  /** The two tests of the loop. */
  method ChooseCut(lim: Limits, prev: Stamp, cur: Stamp) returns (cut: Cut)
    ensures cut == CutBetween(lim, prev, cur)
  {
    cut := Same;
    if lim.track > 0 && Gap(prev, cur) > lim.track * 60 {
      cut := NewTrack;
    } else if lim.segment > 0 && Gap(prev, cur) > lim.segment * 60 {
      cut := NewSegment;
    }
  }

  /** export_to_gpx, between the document header and footer. */
  method ExportGpx(lim: Limits, ps: seq<Fix>) returns (out: seq<Token>)
    ensures out == Write(Tracks(lim, ps))
  {
    var prev: Stamp := 0;
    var numTrack := 1;
    if |ps| > 0 {
      prev := ps[0].stamp;
    }
    out := [TrkOpen, Name(numTrack), SegOpen];
    numTrack := numTrack + 1;
    NoneWritten(lim, ps, prev);
    for i := 0 to |ps|
      invariant SoFar(lim, ps, i, prev, numTrack, out)
    {
      var cut := ChooseCut(lim, prev, ps[i].stamp);
      WritePoint(lim, ps, i, prev, numTrack, out);
      out := out + Between(cut, numTrack - 1) + [Point(ps[i])];
      numTrack := if cut == NewTrack then numTrack + 1 else numTrack;
      prev := ps[i].stamp;
    }
    AllWritten(lim, ps, prev, numTrack, out);
    out := out + [SegClose, TrkClose];
  }

  /** The loop state before point `i`: what is written lacks only the closing tokens. */
  ghost predicate SoFar(lim: Limits, ps: seq<Fix>, i: nat, prev: Stamp, numTrack: nat, out: seq<Token>) {
    && i <= |ps|
    && (|ps| > 0 ==> prev == ps[if i == 0 then 0 else i - 1].stamp)
    && numTrack == |Tracks(lim, ps[..i])| + 1
    && out + CLOSING == Write(Tracks(lim, ps[..i]))
  }

  lemma NoneWritten(lim: Limits, ps: seq<Fix>, prev: Stamp)
    requires |ps| > 0 ==> prev == ps[0].stamp
    ensures SoFar(lim, ps, 0, prev, 2, [TrkOpen, Name(1), SegOpen])
  {
    WriteOfNone();
    assert ps[..0] == [];
  }

  lemma AllWritten(lim: Limits, ps: seq<Fix>, prev: Stamp, numTrack: nat, out: seq<Token>)
    requires SoFar(lim, ps, |ps|, prev, numTrack, out)
    ensures out + [SegClose, TrkClose] == Write(Tracks(lim, ps))
  {
    assert ps[..|ps|] == ps;
  }

  lemma WritePoint(lim: Limits, ps: seq<Fix>, i: nat, prev: Stamp, numTrack: nat, out: seq<Token>)
    requires i < |ps| && SoFar(lim, ps, i, prev, numTrack, out)
    ensures numTrack > 0
    ensures var cut := CutBetween(lim, prev, ps[i].stamp);
            SoFar(lim, ps, i + 1, ps[i].stamp, if cut == NewTrack then numTrack + 1 else numTrack,
                  out + Between(cut, numTrack - 1) + [Point(ps[i])])
  {
    TracksNext(lim, ps, i);
    WriteAdd(out, Tracks(lim, ps[..i]), CutAt(lim, ps, i), ps[i]);
  }

  lemma TracksNext(lim: Limits, ps: seq<Fix>, i: nat)
    requires i < |ps|
    ensures Tracks(lim, ps[..i + 1]) == Add(Tracks(lim, ps[..i]), CutAt(lim, ps, i), ps[i])
  {
    assert Front(ps[..i + 1]) == ps[..i];
  }

  lemma WriteOfNone()
    ensures [TrkOpen, Name(1), SegOpen] + CLOSING == Write([[[]]])
  {
    assert WriteSegments([[]]) == [SegOpen, SegClose];
    assert WriteTrack(1, [[]]) == [TrkOpen, Name(1), SegOpen, SegClose, TrkClose];
  }
}
