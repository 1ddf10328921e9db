# CZML sample generator, modelled in Dafny

`sample_czml_gen.py` builds CZML, the JSON document format that CesiumJS
animates. The script does four things:

- It reads a track file of `timestamp,x,y,z` rows into one packet. The packet's
  `position` is the flat sample list `[t0, x0, y0, z0, t1, ...]`, stored under
  one of three encodings: `cartesian`, `cartographicDegrees` or
  `cartographicRadians`.
- It converts epoch seconds to ISO 8601 text with `unix_to_iso_string`, and
  parses that text back with `get_strptime`.
- It builds reference packets. A polyline and a polygon point at other packets'
  positions through `"<id>#position"` references. An ellipsoid and a billboard
  sit at a fixed place at epoch zero.
- It aggregates a list of packets into the document packet. That packet's clock
  runs from the least first timestamp to the greatest last timestamp.

The model represents packets as immutable datatypes and operations as pure
functions. Python exceptions become `Result` failures.

| module | file | content |
|---|---|---|
| `Wrappers` | `wrappers.dfy` | `Option` and `Result` |
| `Decimal` | `decimal.dfy` | digit strings and their values; `%02d`, `%04d` and `%06d` padding |
| `TextOrder` | `text_order.dfy` | Python's `str` order (code point by code point, with a prefix first) and the builtins `min` and `max` |
| `Calendar` | `calendar.dfy` | the proleptic Gregorian calendar counted from 1970 |
| `Timestamp` | `timestamp.dfy` | `utcfromtimestamp`, `isoformat() + "Z"`, and `strptime` with the two formats |
| `Czml` | `czml.dfy` | packets, position fields, samples and the document packet |
| `Reader` | `reader.dfy` | `csv_to_czml` over the file's lines: `line[:-1]`, `split(",")` and the row loop |
| `Builders` | `builders.dfy` | the polyline, polygon, ellipsoid and billboard builders |
| `Aggregator` | `aggregator.dfy` | `create_doc_packet_from_czmls` |
| `Pipeline` | `pipeline.dfy` | the main flow from a track file to a document packet, and the worked example |

The track file is modelled as the sequence of lines that Python's file
iteration yields, each with its terminator except possibly the last.

Timestamps in the file are whole non-negative seconds written in decimal. That
is the form the script's own comment gives (`1676502926,10000000,...`).
The script converts each coordinate with `float` and then only passes the
number on. The model keeps the coordinate's text and does not check that
`float` would accept it.

The aggregator follows Python's evaluation order. Each exception is reported at
the point where Python would raise it:

1. The first list comprehension raises IndexError on an empty `position`
   object or an empty sample list.
2. `min([])` raises ValueError.
3. The second comprehension raises IndexError on a sample list shorter than
   four.

The script's comments use `1676502926` as an example timestamp. It is 19403
days and 83726 seconds after the epoch, which is 2023-02-15T23:15:26Z
(`Timestamp.SampleInstantText`, `Pipeline.SampleClock`).

## Model

| member | source | states |
|---|---|---|
| Timestamp.FromEpoch | sample_czml_gen.py:5-7 | `utcfromtimestamp(t)` for whole seconds up to 9999-12-31T23:59:59 is a valid date-time with no microseconds, in or after 1970, lying exactly `t` seconds after the epoch |
| Timestamp.FormatIsoShape | sample_czml_gen.py:7 | `isoformat() + "Z"` renders 20 characters, or 27 with microseconds, with "-", "-", "T", ":", ":" at positions 4, 7, 10, 13 and 16, a "." at 19 when there are microseconds, and "Z" last |
| Timestamp.FromEpochInvertsEpochSeconds | sample_czml_gen.py:5-7 | every whole-second date-time from 1970 to 9999 is `utcfromtimestamp` of its own epoch seconds, so the conversion is a bijection on that range |
| Timestamp.UnixToIso | sample_czml_gen.py:5-7 | `unix_to_iso_string` fails exactly past year 9999; otherwise it yields 20 characters ending in "Z" |
| Timestamp.ParseIso | sample_czml_gen.py:10-15 | `get_strptime` yields only valid date-times, and a result with microseconds comes from the fractional format |
| Timestamp.ParseInvertsFormat | sample_czml_gen.py:5-15 | `get_strptime` reads back every date-time that `isoformat() + "Z"` renders, with or without microseconds |
| Timestamp.UnixToIsoRoundTrip | sample_czml_gen.py:5-15 | parsing the text `unix_to_iso_string` gives for `t` recovers the whole-second instant `t` seconds after the epoch |
| Timestamp.FormatOrderIsChronological | sample_czml_gen.py:5-7 | for whole-second date-times, the string order of the renderings is chronological order |
| Timestamp.IsoTextOrderIsChronological | sample_czml_gen.py:5-7 | the text for `t1` sorts no later than the text for `t2` exactly when `t1 <= t2` |
| Timestamp.EpochZeroText | sample_czml_gen.py:140 | epoch zero renders as "1970-01-01T00:00:00Z" |
| Timestamp.SampleInstantText | sample_czml_gen.py:61 | the example row's timestamp 1676502926 renders as "2023-02-15T23:15:26Z" |
| Timestamp.SampleEndText | sample_czml_gen.py:5-7 | 1676502930 renders as "2023-02-15T23:15:30Z" |
| TextOrder.Min | sample_czml_gen.py:28-35 | the builtin `min` of a non-empty list of strings is a member of the list and sorts no later than any member |
| TextOrder.Max | sample_czml_gen.py:36-43 | the builtin `max` of a non-empty list of strings is a member and sorts no earlier than any member |
| TextOrder.MinDependsOnlyOnMembers | sample_czml_gen.py:28-35 | `min` gives the same string for any two lists with the same members, whatever their order or repetitions |
| TextOrder.MaxDependsOnlyOnMembers | sample_czml_gen.py:36-43 | `max` gives the same string for any two lists with the same members |
| Reader.Split | sample_czml_gen.py:85 | `split(",")` yields at least one piece; no piece contains the separator; joining the pieces with it gives the text back |
| Reader.SplitInvertsJoin | sample_czml_gen.py:85 | splitting the join of separator-free pieces gives the pieces back, empty ones included |
| Reader.ParseSeconds | sample_czml_gen.py:87 | a timestamp field is read exactly when it is a non-empty digit string, and its value is the number the digits denote; otherwise the error is `BadTimestamp` |
| Reader.ParseRow | sample_czml_gen.py:85-87 | a row that is read has a timestamp that `unix_to_iso_string` can render |
| Reader.ParseRowTooFewFields | sample_czml_gen.py:85 | the unpacking of `split(",")[:4]` fails exactly when the line without its last character holds fewer than three commas |
| Reader.ParseRowReadsLine | sample_czml_gen.py:85-87 | every line that is read is a digit timestamp, the three comma-free coordinates, nothing or a comma and further fields, and one last character: the converse of `Reader.ParseRowOfLine` |
| Reader.ParseRowStampErrors | sample_czml_gen.py:85-87 | with at least four fields, the row fails with `BadTimestamp` exactly when the first field is not a digit string, and with the error of `unix_to_iso_string` exactly when its digits lie past year 9999 |
| Reader.RowSamples | sample_czml_gen.py:86-88 | a row contributes four samples: a timestamp text, then x, y and z in that order |
| Reader.RowStampReadsBack | sample_czml_gen.py:5-15 | a row's timestamp text is read back by `get_strptime` as the instant `seconds` after the epoch |
| Reader.ParseRowOfLine | sample_czml_gen.py:85 | a line "t,x,y,z", optionally followed by further ","-separated fields, then one terminator character, is read as the row (t, x, y, z); the fields after the fourth are ignored |
| Reader.ReadSamples | sample_czml_gen.py:84-88 | the row loop succeeds exactly when every row is read; row i's four samples then sit at 4i..4i+3 in row order; otherwise its error is the first unreadable row's |
| Reader.CsvToCzml | sample_czml_gen.py:63-99 | an unknown position type is rejected before any line is looked at; otherwise the packet has the given id, the point-and-path graphics and one position field under the given type, holding the rows' samples in order; a failure reports the first unreadable row |
| Builders.ReferenceRoundTrip | sample_czml_gen.py:109 | the id a "#position" reference names can be read back from it, and only `id + "#position"` names `id` |
| Builders.PolylinePacket | sample_czml_gen.py:102-113 | the polyline has id "polyline-a-b", no position, and exactly two references, naming `a` and `b` in that order |
| Builders.PolygonPacket | sample_czml_gen.py:119-131 | the polygon has id "Polygon Entity", no position, and one reference per vertex, where reference i names vertex i |
| Builders.EllipsoidPacket | sample_czml_gen.py:135-148 | the ellipsoid packet has id "Ellipsoid Entity", radii (500, 500, 500), and the single cartesian sample at epoch zero at (10000000, 10000000, 10000000) |
| Builders.BillboardPacket | sample_czml_gen.py:152-163 | the billboard packet has id "Billboard Entity", billboard graphics, and the same single sample at epoch zero |
| Builders.DemoPosition | sample_czml_gen.py:138-141 | the ellipsoid's and the billboard's single sample is epoch zero at (10000000, 10000000, 10000000) |
| Aggregator.StartSamples | sample_czml_gen.py:28-35 | the first comprehension fails exactly on an empty position object or an empty sample list; otherwise it collects exactly the first samples of the qualifying packets |
| Aggregator.EndSamples | sample_czml_gen.py:36-43 | the second comprehension fails exactly on an empty position object or a sample list shorter than four; otherwise it collects exactly the fourth-from-last samples of the qualifying packets |
| Aggregator.ClockPacket | sample_czml_gen.py:45-54 | the document packet has id "document" and version "1.0"; its clock interval is `lo`, a "/", then `hi`; its current time is `lo`, its multiplier 1 and its range "CLAMPED" |
| Aggregator.DocPacketFromCzmls | sample_czml_gen.py:18-54 | succeeds exactly when some packet qualifies, no position object is empty, and every qualifying sample list has at least four entries with text at the first and fourth-from-last; the clock is then "lo/hi" with current time lo, where lo is the least first timestamp and hi the greatest last timestamp, and the other fields are the constants; each exception is characterised by the first check to fail |
| Aggregator.DependsOnlyOnCountedPackets | sample_czml_gen.py:28-43 | the document packet, or the exception, is determined by the set of packets that have a position object, empty or with a recognised first key |
| Aggregator.ReorderingKeepsDocument | sample_czml_gen.py:28-43 | any permutation of the packets gives the same document packet |
| Aggregator.UncountedPacketsIgnored | sample_czml_gen.py:32-33 | appending packets without a position, or with an unrecognised first position key, leaves the result unchanged |
| Pipeline.TrackClock | sample_czml_gen.py:181-184 | the document of one track read from a non-empty file spans from its first row's instant to its last row's instant, in file order |
| Pipeline.EmptyFileClock | sample_czml_gen.py:181-184 | a track read from an empty file has no samples, and building its document raises IndexError |
| Pipeline.DocumentSpansInstants | sample_czml_gen.py:28-54 | for packets whose first and fourth-from-last samples are rendered timestamps, as tracks read from files have, the document's interval runs from the earliest first instant of any packet to the latest last instant, found by textual `min` and `max` |
| Pipeline.SampleTrack | sample_czml_gen.py:61-99 | the two-row sample file becomes the packet "Test Entity" with eight samples, the stamps rendered as 23:15:26Z and 23:15:30Z |
| Pipeline.SampleClock | sample_czml_gen.py:18-54 | that track's document clock is "2023-02-15T23:15:26Z/2023-02-15T23:15:30Z" |
| Pipeline.ReferencePacketsKeepClock | sample_czml_gen.py:177-184 | adding a polyline and a polygon to a document leaves its clock, or its exception, as it was |
| Pipeline.DemoClock | sample_czml_gen.py:135-163 | a document of the ellipsoid and the billboard has the zero-length clock at epoch zero |

## Left out

- `write_to_file` and `main`: the JSON serialisation and the file write are I/O. `Pipeline` states the flow `main` runs instead.
- Opening and iterating the file in `csv_to_czml`: the file is modelled as its sequence of lines.
- `float` parsing of coordinates: coordinates are kept as their literal text, because after the conversion the script only passes the numbers on.
- Reader.ParseRow: does not validate x, y and z. A row whose coordinates `float` rejects raises ValueError in the script, but the model still reads it.
- Reader.ParseSeconds: accepts only plain decimal digit strings. `float` also accepts signs, a decimal point, exponents and surrounding blanks; those spellings are reported as `BadTimestamp`. Fractional or negative seconds would need the floating-point half of `utcfromtimestamp`.
- Timestamp.ParseIso: reads ASCII digits only. CPython's `strptime` also matches other Unicode decimal digits.
- Timestamp.ParseIso: the fractional format is read, but it is never rendered from fractional seconds, because the forward conversion is modelled for whole seconds only.
- Aggregator.DocPacketFromCzmls: reports `NotATimestamp` when any first or fourth-from-last sample is a number. Python raises TypeError only when numbers and strings are compared with each other. A list made only of numbers would be compared numerically, and a single number returned as it is.
- Aggregator.DocPacketFromCzmls: a position object is a list of key/sample-list pairs whose first pair is the first key. Duplicate keys, which a Python dict cannot hold, are not excluded.
- Colours, materials, outline flags, pixel sizes, path times, the billboard image URL and its scale are fixed literals with no behaviour; `Czml.Graphics` keeps only the kind of graphics and the references or radii.
