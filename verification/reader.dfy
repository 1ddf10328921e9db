/** `csv_to_czml`: rows "timestamp,x,y,z" become one packet whose position is
    the flat list [t0, x0, y0, z0, t1, x1, y1, z1, ...]. The file is modelled
    as the sequence of lines Python's file iteration yields (each with its
    line terminator, except possibly the last). */
module Reader {
  import opened Wrappers
  import opened Decimal
  import opened Timestamp
  import opened Czml

  datatype ReadError =
    | UnknownPositionType   // the `position_type` check before the file is opened
    | TooFewFields          // `t, x, y, z = ...[:4]` with fewer than four fields
    | BadTimestamp          // a timestamp field that is not whole non-negative seconds
    | Unrenderable(cause: TimeError)   // `unix_to_iso_string` raised on the timestamp

  /** `line[:-1]`: drops the last character, the line terminator when there is one. */
  function DropLast(line: string): string {
    if |line| == 0 then line else line[..|line| - 1]
  }

  // ---------------------------------------------------------------------------
  // `str.split(sep)` and its inverse `sep.join(parts)`

  /** `s.split(sep)`: the maximal pieces between separators, empty ones included. */
  function Split(s: string, sep: char): (parts: seq<string>)
    ensures |parts| >= 1
    ensures forall i :: 0 <= i < |parts| ==> sep !in parts[i]
    ensures Join(parts, sep) == s
    decreases |s|
  {
    if |s| == 0 then [""]
    else
      var rest := Split(s[1..], sep);
      if s[0] == sep then
        assert s == [sep] + s[1..];
        [""] + rest
      else
        var parts := [[s[0]] + rest[0]] + rest[1..];
        assert parts[1..] == rest[1..];
        JoinCons(rest, sep);
        assert s == [s[0]] + s[1..];
        parts
  }

  /** `sep.join(parts)`. */
  function Join(parts: seq<string>, sep: char): string
    requires |parts| >= 1
    decreases |parts|
  {
    if |parts| == 1 then parts[0] else parts[0] + [sep] + Join(parts[1..], sep)
  }

  lemma JoinCons(parts: seq<string>, sep: char)
    requires |parts| >= 1
    ensures |parts| == 1 ==> Join(parts, sep) == parts[0]
    ensures |parts| > 1 ==> Join(parts, sep) == parts[0] + [sep] + Join(parts[1..], sep)
  {
  }

  /** Splitting a join of separator-free pieces gives the pieces back. */
  lemma {:induction false} SplitInvertsJoin(parts: seq<string>, sep: char)
    requires |parts| >= 1
    requires forall i :: 0 <= i < |parts| ==> sep !in parts[i]
    ensures Split(Join(parts, sep), sep) == parts
    decreases |parts|, |parts[0]|
  {
    var s := Join(parts, sep);
    if |parts[0]| == 0 {
      if |parts| == 1 {
        assert s == "";
      } else {
        assert s == [sep] + Join(parts[1..], sep);
        assert s[1..] == Join(parts[1..], sep);
        SplitInvertsJoin(parts[1..], sep);
        assert parts == [""] + parts[1..];
      }
    } else {
      var shorter := [parts[0][1..]] + parts[1..];
      assert shorter[1..] == parts[1..];
      assert forall i :: 1 <= i < |shorter| ==> shorter[i] == parts[i];
      assert sep !in shorter[0] by {
        assert forall c :: c in parts[0][1..] ==> c in parts[0];
      }
      SplitInvertsJoin(shorter, sep);
      JoinFirstChar(parts, sep);
      assert s[0] == parts[0][0] && s[0] != sep;
      var rest := Split(s[1..], sep);
      assert rest == shorter;
      assert parts[0] == [parts[0][0]] + parts[0][1..];
      assert parts == [[s[0]] + rest[0]] + rest[1..];
    }
  }

  /** A join starts with the first character of a non-empty first piece,
      followed by the join of the pieces with that character removed. */
  lemma JoinFirstChar(parts: seq<string>, sep: char)
    requires |parts| >= 1 && |parts[0]| > 0
    ensures Join(parts, sep)[0] == parts[0][0]
    ensures Join(parts, sep)[1..] == Join([parts[0][1..]] + parts[1..], sep)
  {
    var shorter := [parts[0][1..]] + parts[1..];
    assert shorter[1..] == parts[1..];
    var s := Join(parts, sep);
    if |parts| == 1 {
      assert s[1..] == Join(shorter, sep);
    } else {
      assert s == parts[0] + [sep] + Join(parts[1..], sep);
      assert Join(shorter, sep) == parts[0][1..] + [sep] + Join(parts[1..], sep);
    }
  }

  // ---------------------------------------------------------------------------
  // One row

  /** The four fields a row contributes, the timestamp already read as seconds. */
  datatype Row = Row(seconds: nat, x: string, y: string, z: string)

  /** Reads the timestamp field as `float(t)` would, for a plain decimal
      numeral; other spellings `float` accepts are outside the model. */
  function ParseSeconds(field: string): (r: Result<nat, ReadError>)
    ensures r.Success? <==> |field| > 0 && AllDigits(field)
    ensures r.Success? ==> r.value == Value(field)
    ensures r.Failure? ==> r.error == BadTimestamp
  {
    if |field| == 0 || !AllDigits(field) then Failure(BadTimestamp)
    else Success(Value(field))
  }

  /** `t, x, y, z = line[:-1].split(",")[:4]`, then `float(t)` and
      `unix_to_iso_string` of it. */
  function ParseRow(line: string): (r: Result<Row, ReadError>)
    ensures r.Success? ==> r.value.seconds <= MaxSeconds
  {
    var fields := Split(DropLast(line), ',');
    if |fields| < 4 then Failure(TooFewFields)
    else
      var seconds :- ParseSeconds(fields[0]);
      match UnixToIso(seconds)
      case Failure(e) => Failure(Unrenderable(e))
      case Success(_) => Success(Row(seconds, fields[1], fields[2], fields[3]))
  }

  /** `[unix_to_iso_string(float(t)), float(x), float(y), float(z)]`; the row
      was read only once `UnixToIso` succeeded on its timestamp, with the text
      `IsoText` gives. */
  function RowSamples(row: Row): (samples: seq<Sample>)
    requires row.seconds <= MaxSeconds
    ensures |samples| == 4 && samples[0].Text?
    ensures samples[1..] == [Number(row.x), Number(row.y), Number(row.z)]
  {
    [Text(IsoText(row.seconds)), Number(row.x), Number(row.y), Number(row.z)]
  }

  /** A row's first sample is text that `get_strptime` reads back as the
      row's instant, `seconds` after the epoch. */
  lemma RowStampReadsBack(row: Row)
    requires row.seconds <= MaxSeconds
    ensures ParseIso(RowSamples(row)[0].text) == Success(FromEpoch(row.seconds))
    ensures EpochSeconds(FromEpoch(row.seconds)) == row.seconds
  {
    UnixToIsoRoundTrip(row.seconds);
  }

  /** A line has too few fields exactly when, without its last character, it
      holds fewer than three separators. */
  lemma ParseRowTooFewFields(line: string)
    ensures ParseRow(line) == Failure(TooFewFields) <==> multiset(DropLast(line))[','] < 3
  {
    SplitCount(DropLast(line), ',');
  }

  /** With four fields present, the timestamp decides the error: text that is
      not a digit string is `BadTimestamp`, digits past year 9999 are the
      error `unix_to_iso_string` raises. */
  lemma ParseRowStampErrors(line: string)
    requires multiset(DropLast(line))[','] >= 3
    ensures var t := Split(DropLast(line), ',')[0];
      && (ParseRow(line) == Failure(BadTimestamp) <==> |t| == 0 || !AllDigits(t))
      && (ParseRow(line) == Failure(Unrenderable(YearOutOfRange)) <==> |t| > 0 && AllDigits(t) && Value(t) > MaxSeconds)
  {
    SplitCount(DropLast(line), ',');
  }

  /** `split` yields one more piece than there are separators. */
  lemma {:induction false} SplitCount(s: string, sep: char)
    ensures |Split(s, sep)| == multiset(s)[sep] + 1
    decreases |s|
  {
    if |s| > 0 {
      SplitCount(s[1..], sep);
      assert s == [s[0]] + s[1..];
    }
  }

  /** Every line that is read has the shape `ParseRowOfLine` describes: the
      timestamp's digits, the three coordinates, possibly further fields, and
      one last character. */
  lemma ParseRowReadsLine(line: string, row: Row) returns (t: string, extra: string, terminator: char)
    requires ParseRow(line) == Success(row)
    ensures |t| > 0 && AllDigits(t) && Value(t) == row.seconds
    ensures ',' !in row.x && ',' !in row.y && ',' !in row.z
    ensures extra == [] || extra[0] == ','
    ensures line == t + "," + row.x + "," + row.y + "," + row.z + extra + [terminator]
  {
    var fields := RowFields(line, row);
    var body := DropLast(line);
    t := fields[0];
    extra := FieldsJoined(body, fields);
    assert body == t + "," + row.x + "," + row.y + "," + row.z + extra;
    terminator := LastCharacter(line);
  }

  /** A non-empty line is `line[:-1]` followed by its last character. */
  lemma LastCharacter(line: string) returns (terminator: char)
    requires |line| > 0
    ensures line == DropLast(line) + [terminator]
  {
    terminator := line[|line| - 1];
  }

  /** The fields a row was read from. */
  lemma RowFields(line: string, row: Row) returns (fields: seq<string>)
    requires ParseRow(line) == Success(row)
    ensures fields == Split(DropLast(line), ',') && |fields| >= 4 && |line| > 0
    ensures |fields[0]| > 0 && AllDigits(fields[0]) && Value(fields[0]) == row.seconds
    ensures fields[1] == row.x && fields[2] == row.y && fields[3] == row.z
  {
    fields := Split(DropLast(line), ',');
  }

  /** Text that splits into at least four fields is the first four joined by
      separators, followed by nothing or by a separator and the rest. */
  lemma FieldsJoined(body: string, fields: seq<string>) returns (extra: string)
    requires fields == Split(body, ',') && |fields| >= 4
    ensures extra == [] || extra[0] == ','
    ensures body == fields[0] + "," + fields[1] + "," + fields[2] + "," + fields[3] + extra
  {
    var tail := fields[4..];
    extra := if tail == [] then [] else [','] + Join(tail, ',');
    assert fields == [fields[0], fields[1], fields[2], fields[3]] + tail;
    JoinOfFields(fields[0], fields[1], fields[2], fields[3], tail);
  }

  /** A line "t,x,y,z" followed by nothing or by further ","-separated fields,
      then one terminator character, is read as the row (t, x, y, z): the
      fields after the fourth are ignored. */
  lemma ParseRowOfLine(t: string, x: string, y: string, z: string, extra: string, terminator: char)
    requires |t| > 0 && AllDigits(t) && Value(t) <= MaxSeconds
    requires ',' !in x && ',' !in y && ',' !in z
    requires extra == [] || extra[0] == ','
    ensures ParseRow(t + "," + x + "," + y + "," + z + extra + [terminator])
         == Success(Row(Value(t), x, y, z))
  {
    var body := t + "," + x + "," + y + "," + z + extra;
    var line := body + [terminator];
    assert DropLast(line) == body;
    DigitsHaveNoComma(t);
    var fields := SplitOfFields(t, x, y, z, extra);
    assert Split(DropLast(line), ',') == fields;
    assert ParseSeconds(t) == Success(Value(t));
    assert UnixToIso(Value(t)).Success?;
  }

  lemma DigitsHaveNoComma(t: string)
    requires AllDigits(t)
    ensures ',' !in t
  {
  }

  /** Splitting "t,x,y,z" followed by nothing or ",..." yields t, x, y, z first. */
  lemma SplitOfFields(t: string, x: string, y: string, z: string, extra: string) returns (fields: seq<string>)
    requires ',' !in t && ',' !in x && ',' !in y && ',' !in z
    requires extra == [] || extra[0] == ','
    ensures fields == Split(t + "," + x + "," + y + "," + z + extra, ',')
    ensures |fields| >= 4 && fields[0] == t && fields[1] == x && fields[2] == y && fields[3] == z
  {
    var body := t + "," + x + "," + y + "," + z + extra;
    var tail := if extra == [] then [] else Split(extra[1..], ',');
    var parts := [t, x, y, z] + tail;
    assert Join(parts, ',') == body by {
      JoinOfFields(t, x, y, z, tail);
      if extra != [] {
        assert extra == [','] + Join(tail, ',');
      }
    }
    assert forall i :: 0 <= i < |parts| ==> ',' !in parts[i] by {
      assert forall i :: 4 <= i < |parts| ==> parts[i] == tail[i - 4];
    }
    SplitInvertsJoin(parts, ',');
    fields := parts;
  }

  lemma JoinOfFields(t: string, x: string, y: string, z: string, tail: seq<string>)
    ensures Join([t, x, y, z] + tail, ',')
         == t + "," + x + "," + y + "," + z + (if tail == [] then [] else [','] + Join(tail, ','))
  {
    var rest: string := if tail == [] then [] else [','] + Join(tail, ',');
    var j4 := Join([z] + tail, ',');
    assert ([z] + tail)[1..] == tail;
    assert j4 == z + rest;
    var j3 := Join([y, z] + tail, ',');
    assert ([y, z] + tail)[1..] == [z] + tail;
    assert j3 == y + "," + j4;
    var j2 := Join([x, y, z] + tail, ',');
    assert ([x, y, z] + tail)[1..] == [y, z] + tail;
    assert j2 == x + "," + j3;
    assert ([t, x, y, z] + tail)[1..] == [x, y, z] + tail;
    assert Join([t, x, y, z] + tail, ',') == t + "," + j2;
  }

  // ---------------------------------------------------------------------------
  // The whole file

  /** Each line read on its own. Python reads a line only once every earlier
      line has been read; reading is pure, so reading them all and taking the
      first failure (below) gives the same outcome. */
  function ParseRows(lines: seq<string>): (rows: seq<Result<Row, ReadError>>)
    ensures |rows| == |lines| && forall i :: 0 <= i < |lines| ==> rows[i] == ParseRow(lines[i])
  {
    seq(|lines|, i requires 0 <= i < |lines| => ParseRow(lines[i]))
  }

  /** Every row was read. */
  predicate AllRowsRead(rows: seq<Result<Row, ReadError>>) {
    forall i :: 0 <= i < |rows| ==> rows[i].Success?
  }

  /** `samples` is the rows' samples laid end to end: row i at 4i .. 4i+3. */
  predicate SamplesOfRows(rows: seq<Result<Row, ReadError>>, samples: seq<Sample>)
    requires AllRowsRead(rows)
    requires forall i :: 0 <= i < |rows| ==> rows[i].value.seconds <= MaxSeconds
  {
    && |samples| == 4 * |rows|
    && forall i :: 0 <= i < |rows| ==> samples[4 * i .. 4 * i + 4] == RowSamples(rows[i].value)
  }

  /** `e` is the error of the first row that could not be read. */
  predicate FirstBadRow(rows: seq<Result<Row, ReadError>>, e: ReadError) {
    exists i :: 0 <= i < |rows| && rows[i] == Failure(e) && AllRowsRead(rows[..i])
  }

  /** The loop over the rows: each appends its four samples, and the first
      row that could not be read ends the loop with its error. */
  function ReadSamples(rows: seq<Result<Row, ReadError>>): (r: Result<seq<Sample>, ReadError>)
    requires forall i :: 0 <= i < |rows| && rows[i].Success? ==> rows[i].value.seconds <= MaxSeconds
    ensures r.Success? <==> AllRowsRead(rows)
    ensures r.Success? ==> SamplesOfRows(rows, r.value)
    ensures r.Failure? ==> FirstBadRow(rows, r.error)
    decreases |rows|
  {
    if |rows| == 0 then Success([])
    else
      match rows[0]
      case Failure(e) =>
        assert AllRowsRead(rows[..0]);
        Failure(e)
      case Success(row) =>
        match ReadSamples(rows[1..])
        case Failure(e) =>
          FirstBadRowShifts(rows, e);
          Failure(e)
        case Success(rest) =>
          SamplesShift(rows, rest);
          Success(RowSamples(row) + rest)
  }

  lemma FirstBadRowShifts(rows: seq<Result<Row, ReadError>>, e: ReadError)
    requires |rows| > 0 && rows[0].Success? && FirstBadRow(rows[1..], e)
    ensures FirstBadRow(rows, e) && !AllRowsRead(rows)
  {
    var i :| 0 <= i < |rows[1..]| && rows[1..][i] == Failure(e) && AllRowsRead(rows[1..][..i]);
    assert rows[..i + 1] == [rows[0]] + rows[1..][..i];
  }

  lemma SamplesShift(rows: seq<Result<Row, ReadError>>, rest: seq<Sample>)
    requires |rows| > 0 && rows[0].Success? && AllRowsRead(rows[1..])
    requires forall i :: 0 <= i < |rows| && rows[i].Success? ==> rows[i].value.seconds <= MaxSeconds
    requires SamplesOfRows(rows[1..], rest)
    ensures AllRowsRead(rows)
    ensures SamplesOfRows(rows, RowSamples(rows[0].value) + rest)
  {
    var head := RowSamples(rows[0].value);
    var samples := head + rest;
    forall i | 1 <= i < |rows|
      ensures samples[4 * i .. 4 * i + 4] == RowSamples(rows[i].value)
    {
      RowOfTail(rows, rest, i);
      SliceOfAppend(head, rest, 4 * i, 4);
    }
    assert samples[..4] == head;
  }

  lemma RowOfTail(rows: seq<Result<Row, ReadError>>, rest: seq<Sample>, i: nat)
    requires 1 <= i < |rows| && AllRowsRead(rows[1..])
    requires forall i :: 0 <= i < |rows| && rows[i].Success? ==> rows[i].value.seconds <= MaxSeconds
    requires SamplesOfRows(rows[1..], rest)
    ensures rows[i].Success? && rest[4 * (i - 1) .. 4 * (i - 1) + 4] == RowSamples(rows[i].value)
  {
    assert rows[i] == rows[1..][i - 1];
  }

  lemma SliceOfAppend<T>(a: seq<T>, b: seq<T>, k: nat, n: nat)
    requires |a| <= k && k + n <= |a| + |b|
    ensures (a + b)[k .. k + n] == b[k - |a| .. k - |a| + n]
  {
  }

  /** `csv_to_czml(filepath, entity_name, position_type)` with the file given
      as its lines: the position type is checked before any line is looked at,
      and the packet stores the samples under that type's key. */
  function CsvToCzml(lines: seq<string>, entityName: string := "Test Entity",
                     positionType: string := "cartesian"): (r: Result<Packet, ReadError>)
    ensures positionType !in PositionTypes ==> r == Failure(UnknownPositionType)
    ensures r.Success? <==> positionType in PositionTypes && AllRowsRead(ParseRows(lines))
    ensures r.Success? ==>
              && r.value.id == entityName
              && r.value.graphics == PointAndPath
              && r.value.position.Some? && |r.value.position.value| == 1
              && r.value.position.value[0].key == positionType
              && SamplesOfRows(ParseRows(lines), r.value.position.value[0].samples)
    ensures r.Failure? && positionType in PositionTypes ==> FirstBadRow(ParseRows(lines), r.error)
  {
    if positionType !in PositionTypes then Failure(UnknownPositionType)
    else
      var samples :- ReadSamples(ParseRows(lines));
      Success(Packet(entityName, Some([PositionField(positionType, samples)]), PointAndPath))
  }
}
