/** The program's flow in `main`: read a track with `csv_to_czml`, then build
    the document packet from the track and any other packets. */
module Pipeline {
  import opened Wrappers
  import opened Decimal
  import opened Timestamp
  import opened Czml
  import opened Reader
  import opened Builders
  import opened Aggregator
  import TextOrder

  /** A single track's clock runs from its FIRST row to its LAST row, in file
      order: `min` and `max` each see one candidate. */
  lemma TrackClock(lines: seq<string>, entityName: string, positionType: string, track: Packet)
    requires CsvToCzml(lines, entityName, positionType) == Success(track)
    requires |lines| > 0
    ensures ParseRows(lines)[0].Success? && ParseRows(lines)[|lines| - 1].Success?
    ensures DocPacketFromCzmls([track]) == Success(ClockPacket(IsoText(ParseRows(lines)[0].value.seconds),
                                                              IsoText(ParseRows(lines)[|lines| - 1].value.seconds)))
  {
    TrackIsRead(lines, entityName, positionType, track);
    RowsClock(ParseRows(lines), track);
  }

  /** A track read from an empty file has no samples, and the aggregation
      raises IndexError on it. */
  lemma EmptyFileClock(lines: seq<string>, entityName: string, positionType: string, track: Packet)
    requires CsvToCzml(lines, entityName, positionType) == Success(track)
    requires |lines| == 0
    ensures DocPacketFromCzmls([track]) == Failure(IndexOutOfRange)
  {
    TrackIsRead(lines, entityName, positionType, track);
    EmptyTrackFails(track);
  }

  /** The clock of one track whose rows were all read. */
  lemma RowsClock(rows: seq<Result<Row, ReadError>>, track: Packet)
    requires |rows| > 0 && AllRowsRead(rows) && Qualifies(track)
    requires forall i :: 0 <= i < |rows| ==> rows[i].value.seconds <= MaxSeconds
    requires SamplesOfRows(rows, Samples(track))
    ensures DocPacketFromCzmls([track])
         == Success(ClockPacket(IsoText(rows[0].value.seconds), IsoText(rows[|rows| - 1].value.seconds)))
  {
    BoundarySamples(rows, Samples(track));
    SingleTrackClock(track, IsoText(rows[0].value.seconds), IsoText(rows[|rows| - 1].value.seconds));
  }

  /** A read track counts for the aggregation, with its rows' samples. */
  lemma TrackIsRead(lines: seq<string>, entityName: string, positionType: string, track: Packet)
    requires CsvToCzml(lines, entityName, positionType) == Success(track)
    ensures Qualifies(track) && AllRowsRead(ParseRows(lines))
    ensures forall i :: 0 <= i < |lines| ==> ParseRows(lines)[i].value.seconds <= MaxSeconds
    ensures SamplesOfRows(ParseRows(lines), Samples(track))
    ensures |Samples(track)| == 4 * |lines|
  {
  }

  /** The first and the fourth-from-last samples of a read track are the first
      and the last rows' timestamps. */
  lemma BoundarySamples(rows: seq<Result<Row, ReadError>>, samples: seq<Sample>)
    requires |rows| > 0 && AllRowsRead(rows)
    requires forall i :: 0 <= i < |rows| ==> rows[i].value.seconds <= MaxSeconds
    requires SamplesOfRows(rows, samples)
    ensures samples[0] == Text(IsoText(rows[0].value.seconds))
    ensures samples[|samples| - 4] == Text(IsoText(rows[|rows| - 1].value.seconds))
  {
    var n := |rows| - 1;
    RowStamp(rows, samples, 0);
    RowStamp(rows, samples, n);
    assert |samples| - 4 == 4 * n;
  }

  /** Row i's timestamp is sample 4i. */
  lemma RowStamp(rows: seq<Result<Row, ReadError>>, samples: seq<Sample>, i: nat)
    requires i < |rows| && AllRowsRead(rows)
    requires forall i :: 0 <= i < |rows| ==> rows[i].value.seconds <= MaxSeconds
    requires SamplesOfRows(rows, samples)
    ensures samples[4 * i] == Text(IsoText(rows[i].value.seconds))
  {
    assert samples[4 * i] == samples[4 * i .. 4 * i + 4][0];
  }

  lemma EmptyTrackFails(track: Packet)
    requires Qualifies(track) && |Samples(track)| == 0
    ensures DocPacketFromCzmls([track]) == Failure(IndexOutOfRange)
  {
    assert track in [track];
  }

  /** With one counted packet, its first and last timestamps are the clock. */
  lemma SingleTrackClock(track: Packet, first: string, last: string)
    requires Qualifies(track) && |Samples(track)| >= 4
    requires Samples(track)[0] == Text(first) && Samples(track)[|Samples(track)| - 4] == Text(last)
    ensures DocPacketFromCzmls([track]) == Success(ClockPacket(first, last))
  {
    assert StartsWith(track, Text(first)) && EndsWith(track, Text(last));
    assert track in [track];
    assert forall p :: p in [track] ==> p == track;
    var r := DocPacketFromCzmls([track]);
    var lo, hi :| r.value == ClockPacket(lo, hi) && IsEarliestStart([track], lo) && IsLatestEnd([track], hi);
    assert StartsWith(track, Text(lo));
    assert EndsWith(track, Text(hi));
  }

  // ---------------------------------------------------------------------------
  // Several tracks: the textual clock is the chronological one

  /** `s` is a timestamp `unix_to_iso_string` renders, as every track read
      from a file carries at its row boundaries. */
  ghost predicate IsStamp(s: Sample) {
    s.Text? && exists u: nat :: u <= MaxSeconds && IsoText(u) == s.text
  }

  /** When every first and fourth-from-last sample is a rendered timestamp,
      the textual `min` and `max` of the document packet pick the earliest
      first instant and the latest last instant of the packets. */
  lemma DocumentSpansInstants(ps: seq<Packet>) returns (first: nat, last: nat)
    requires DocPacketFromCzmls(ps).Success?
    requires forall p, s :: p in ps && StartsWith(p, s) ==> IsStamp(s)
    requires forall p, s :: p in ps && EndsWith(p, s) ==> IsStamp(s)
    ensures first <= MaxSeconds && last <= MaxSeconds
    ensures DocPacketFromCzmls(ps).value == ClockPacket(IsoText(first), IsoText(last))
    ensures exists p :: p in ps && StartsWith(p, Text(IsoText(first)))
    ensures forall p, u: nat :: p in ps && u <= MaxSeconds && StartsWith(p, Text(IsoText(u))) ==> first <= u
    ensures exists p :: p in ps && EndsWith(p, Text(IsoText(last)))
    ensures forall p, u: nat :: p in ps && u <= MaxSeconds && EndsWith(p, Text(IsoText(u))) ==> u <= last
  {
    var r := DocPacketFromCzmls(ps);
    var lo, hi :| r.value == ClockPacket(lo, hi) && IsEarliestStart(ps, lo) && IsLatestEnd(ps, hi);
    first := EarliestInstant(ps, lo);
    last := LatestInstant(ps, hi);
  }

  lemma EarliestInstant(ps: seq<Packet>, lo: string) returns (first: nat)
    requires IsEarliestStart(ps, lo)
    requires forall p, s :: p in ps && StartsWith(p, s) ==> IsStamp(s)
    ensures first <= MaxSeconds && lo == IsoText(first)
    ensures forall p, u: nat :: p in ps && u <= MaxSeconds && StartsWith(p, Text(IsoText(u))) ==> first <= u
  {
    var p :| p in ps && StartsWith(p, Text(lo));
    assert IsStamp(Text(lo));
    first :| first <= MaxSeconds && IsoText(first) == lo;
    forall q, u: nat | q in ps && u <= MaxSeconds && StartsWith(q, Text(IsoText(u)))
      ensures first <= u
    {
      IsoTextOrderIsChronological(first, u);
    }
  }

  lemma LatestInstant(ps: seq<Packet>, hi: string) returns (last: nat)
    requires IsLatestEnd(ps, hi)
    requires forall p, s :: p in ps && EndsWith(p, s) ==> IsStamp(s)
    ensures last <= MaxSeconds && hi == IsoText(last)
    ensures forall p, u: nat :: p in ps && u <= MaxSeconds && EndsWith(p, Text(IsoText(u))) ==> u <= last
  {
    var p :| p in ps && EndsWith(p, Text(hi));
    assert IsStamp(Text(hi));
    last :| last <= MaxSeconds && IsoText(last) == hi;
    forall q, u: nat | q in ps && u <= MaxSeconds && EndsWith(q, Text(IsoText(u)))
      ensures u <= last
    {
      IsoTextOrderIsChronological(u, last);
    }
  }

  // ---------------------------------------------------------------------------
  // The sample track

  /** A line of the sample file: a timestamp in 2023-02-15 23:15 UTC and the
      same coordinate three times. */
  function SampleLine(second: nat, coordinate: string): string
    requires second < 100
  {
    "16765029" + Pad2(second) + "," + coordinate + "," + coordinate + "," + coordinate + "\n"
  }

  const SampleLines: seq<string> := [SampleLine(26, "10000000"), SampleLine(30, "20000000")]

  /** The sample file, written out. */
  lemma SampleLinesText()
    ensures SampleLines == ["1676502926,10000000,10000000,10000000\n",
                            "1676502930,20000000,20000000,20000000\n"]
  {
    FirstLineText();
    SecondLineText();
  }

  lemma FirstLineText()
    ensures SampleLine(26, "10000000") == "1676502926,10000000,10000000,10000000\n"
  {
    assert Pad2(26) == "26";
  }

  lemma SecondLineText()
    ensures SampleLine(30, "20000000") == "1676502930,20000000,20000000,20000000\n"
  {
    assert Pad2(30) == "30";
  }

  /** The samples of the sample file's first and second rows. */
  const FirstRowSamples: seq<Sample> :=
    [Text("2023-02-15T23:15:26Z"), Number("10000000"), Number("10000000"), Number("10000000")]
  const SecondRowSamples: seq<Sample> :=
    [Text("2023-02-15T23:15:30Z"), Number("20000000"), Number("20000000"), Number("20000000")]

  /** The two-line sample file becomes one packet with eight samples. */
  lemma SampleTrack()
    ensures CsvToCzml(SampleLines) ==
      Success(Packet("Test Entity", Some([PositionField("cartesian", FirstRowSamples + SecondRowSamples)]), PointAndPath))
  {
    var rows := SampleRowsRead();
    var samples := CsvToCzml(SampleLines).value.position.value[0].samples;
    SampleSamplesOfRows(rows, samples);
  }

  /** Both sample lines are read, as the rows they spell. */
  lemma SampleRowsRead() returns (rows: seq<Result<Row, ReadError>>)
    ensures rows == ParseRows(SampleLines) && AllRowsRead(rows)
    ensures rows == [Success(Row(1676502926, "10000000", "10000000", "10000000")),
                     Success(Row(1676502930, "20000000", "20000000", "20000000"))]
  {
    rows := ParseRows(SampleLines);
    SampleLineRow(26, "10000000");
    SampleLineRow(30, "20000000");
    assert SampleLines[0] == SampleLine(26, "10000000") && SampleLines[1] == SampleLine(30, "20000000");
    assert rows[0] == Success(Row(1676502926, "10000000", "10000000", "10000000"));
    assert rows[1] == Success(Row(1676502930, "20000000", "20000000", "20000000"));
    assert |rows| == 2;
    forall i | 0 <= i < |rows|
      ensures rows[i].Success?
    {
      assert i == 0 || i == 1;
    }
  }

  lemma SampleSamplesOfRows(rows: seq<Result<Row, ReadError>>, samples: seq<Sample>)
    requires rows == [Success(Row(1676502926, "10000000", "10000000", "10000000")),
                      Success(Row(1676502930, "20000000", "20000000", "20000000"))]
    requires SamplesOfRows(rows, samples)
    ensures samples == FirstRowSamples + SecondRowSamples
  {
    TwoRowSamples(rows, samples);
    FirstSampleRow();
    SecondSampleRow();
    SplitAtFour(samples, FirstRowSamples, SecondRowSamples);
  }

  /** Two rows read lay their samples end to end. */
  lemma TwoRowSamples(rows: seq<Result<Row, ReadError>>, samples: seq<Sample>)
    requires |rows| == 2 && AllRowsRead(rows)
    requires forall i :: 0 <= i < |rows| ==> rows[i].value.seconds <= MaxSeconds
    requires SamplesOfRows(rows, samples)
    ensures |samples| == 8
    ensures samples[0 .. 4] == RowSamples(rows[0].value) && samples[4 .. 8] == RowSamples(rows[1].value)
  {
  }

  lemma SplitAtFour(samples: seq<Sample>, first: seq<Sample>, second: seq<Sample>)
    requires |samples| == 8 && samples[0 .. 4] == first && samples[4 .. 8] == second
    ensures samples == first + second
  {
    assert samples == samples[0 .. 4] + samples[4 .. 8];
  }

  lemma FirstSampleRow()
    ensures RowSamples(Row(1676502926, "10000000", "10000000", "10000000")) == FirstRowSamples
  {
    SampleInstantText();
  }

  lemma SecondSampleRow()
    ensures RowSamples(Row(1676502930, "20000000", "20000000", "20000000")) == SecondRowSamples
  {
    SampleEndText();
  }

  /** The sample file's document clock runs from its first timestamp to its second. */
  lemma SampleClock(track: Packet)
    requires CsvToCzml(SampleLines) == Success(track)
    ensures DocPacketFromCzmls([track]) == Success(ClockPacket("2023-02-15T23:15:26Z", "2023-02-15T23:15:30Z"))
  {
    SampleTrack();
    SampleTrackEnds(track);
    SingleTrackClock(track, "2023-02-15T23:15:26Z", "2023-02-15T23:15:30Z");
  }

  /** A line "16765029xx,c,c,c" followed by a newline. */
  lemma SampleLineRow(last: nat, coordinate: string)
    requires last < 100 && ',' !in coordinate
    ensures ParseRow(SampleLine(last, coordinate)) == Success(Row(1676502900 + last, coordinate, coordinate, coordinate))
  {
    var t := "16765029" + Pad2(last);
    StampValue(last);
    assert Value(t) <= MaxSeconds;
    assert t + "," + coordinate + "," + coordinate + "," + coordinate + "" + ['\n']
        == "16765029" + Pad2(last) + "," + coordinate + "," + coordinate + "," + coordinate + "\n";
    ParseRowOfLine(t, coordinate, coordinate, coordinate, "", '\n');
  }

  /** The sample timestamps 16765029xx read as numbers, two digits at a time. */
  lemma StampValue(last: nat)
    requires last < 100
    ensures AllDigits("16765029" + Pad2(last)) && Value("16765029" + Pad2(last)) == 1676502900 + last
  {
    var a, b, c, d := Pad2(16), Pad2(76), Pad2(50), Pad2(29);
    assert a == "16" && b == "76" && c == "50" && d == "29";
    ValueAppend(a, b);
    ValueAppend(a + b, c);
    ValueAppend(a + b + c, d);
    assert a + b + c + d == "16765029";
    ValueAppend("16765029", Pad2(last));
  }

  lemma SampleTrackEnds(track: Packet)
    requires track == Packet("Test Entity", Some([PositionField("cartesian", FirstRowSamples + SecondRowSamples)]), PointAndPath)
    ensures Qualifies(track) && |Samples(track)| == 8
    ensures Samples(track)[0] == Text("2023-02-15T23:15:26Z")
    ensures Samples(track)[|Samples(track)| - 4] == Text("2023-02-15T23:15:30Z")
  {
    assert "cartesian" in PositionTypes;
  }

  // ---------------------------------------------------------------------------
  // The builders' packets in a document

  /** Polylines and polygons carry no position of their own, so adding them
      to a document leaves its clock, or its exception, as it was. */
  lemma ReferencePacketsKeepClock(ps: seq<Packet>, endpoint1: string, endpoint2: string, vertices: seq<string>)
    ensures DocPacketFromCzmls(ps + [PolylinePacket(endpoint1, endpoint2), PolygonPacket(vertices)])
         == DocPacketFromCzmls(ps)
  {
    UncountedPacketsIgnored(ps, [PolylinePacket(endpoint1, endpoint2), PolygonPacket(vertices)]);
  }

  /** A document of the ellipsoid and the billboard has the zero-length clock
      at epoch zero. */
  lemma DemoClock(ellipsoid: Packet, billboard: Packet)
    requires ellipsoid == EllipsoidPacket() && billboard == BillboardPacket()
    ensures DocPacketFromCzmls([ellipsoid, billboard])
         == Success(ClockPacket("1970-01-01T00:00:00Z", "1970-01-01T00:00:00Z"))
  {
    var epoch := "1970-01-01T00:00:00Z";
    DemoSamples(ellipsoid, billboard);
    TwinTrackClock(ellipsoid, billboard, epoch, epoch);
  }

  lemma DemoSamples(ellipsoid: Packet, billboard: Packet)
    requires ellipsoid == EllipsoidPacket() && billboard == BillboardPacket()
    ensures Qualifies(ellipsoid) && Qualifies(billboard)
    ensures Samples(ellipsoid) == Samples(billboard)
    ensures |Samples(ellipsoid)| == 4 && Samples(ellipsoid)[0] == Text("1970-01-01T00:00:00Z")
  {
    var position := DemoPosition();
    assert "cartesian" in PositionTypes;
  }

  /** Two counted packets with the same samples give the clock of either. */
  lemma TwinTrackClock(p: Packet, q: Packet, first: string, last: string)
    requires Qualifies(p) && Qualifies(q) && Samples(p) == Samples(q) && |Samples(p)| >= 4
    requires Samples(p)[0] == Text(first) && Samples(p)[|Samples(p)| - 4] == Text(last)
    ensures DocPacketFromCzmls([p, q]) == Success(ClockPacket(first, last))
  {
    var ps := [p, q];
    TwinTrackMembers(ps, p, q, first, last);
    var r := DocPacketFromCzmls(ps);
    var lo, hi :| r.value == ClockPacket(lo, hi) && IsEarliestStart(ps, lo) && IsLatestEnd(ps, hi);
    var p' :| p' in ps && StartsWith(p', Text(lo));
    var q' :| q' in ps && EndsWith(q', Text(hi));
  }

  lemma TwinTrackMembers(ps: seq<Packet>, p: Packet, q: Packet, first: string, last: string)
    requires ps == [p, q]
    requires Qualifies(p) && Qualifies(q) && Samples(p) == Samples(q) && |Samples(p)| >= 4
    requires Samples(p)[0] == Text(first) && Samples(p)[|Samples(p)| - 4] == Text(last)
    ensures forall r, s :: r in ps && StartsWith(r, s) ==> s == Text(first)
    ensures forall r, s :: r in ps && EndsWith(r, s) ==> s == Text(last)
    ensures !FirstPassFails(ps) && !SecondPassFails(ps) && SomeQualifies(ps)
    ensures StartsAreText(ps) && EndsAreText(ps)
  {
    assert forall r :: r in ps ==> r == p || r == q;
    assert p in ps;
  }
}
