/** `create_doc_packet_from_czmls`: the document packet whose clock runs from
    the earliest first timestamp to the latest last timestamp of the packets
    that carry a recognised position. */
module Aggregator {
  import opened Wrappers
  import opened Czml
  import opened TextOrder

  /** The Python exceptions the aggregation can raise. */
  datatype AggregateError =
    | IndexOutOfRange   // IndexError: an empty "position" object, or a sample list too short
    | EmptySequence     // ValueError: min() of an empty list
    | NotATimestamp     // TypeError: a number where a timestamp string was expected

  /** A "position" object with no key: taking its first key fails. */
  predicate HasEmptyPosition(p: Packet) {
    p.position.Some? && |p.position.value| == 0
  }

  /** The packet has a position whose first key is a recognised encoding. */
  predicate Qualifies(p: Packet) {
    p.position.Some? && |p.position.value| > 0 && p.position.value[0].key in PositionTypes
  }

  /** The sample list stored under the first key of the position. */
  function Samples(p: Packet): seq<Sample>
    requires Qualifies(p)
  {
    p.position.value[0].samples
  }

  /** `s` is the first entry of `p`'s sample list. */
  predicate StartsWith(p: Packet, s: Sample) {
    Qualifies(p) && |Samples(p)| > 0 && Samples(p)[0] == s
  }

  /** `s` is the fourth entry from the end of `p`'s sample list: the time of the
      last sample when the list is [t, x, y, z, ...]. */
  predicate EndsWith(p: Packet, s: Sample) {
    Qualifies(p) && |Samples(p)| >= 4 && Samples(p)[|Samples(p)| - 4] == s
  }

  /** Some packet makes the first list comprehension raise IndexError. */
  predicate FirstPassFails(ps: seq<Packet>) {
    exists p :: p in ps && (HasEmptyPosition(p) || (Qualifies(p) && |Samples(p)| == 0))
  }

  /** Some packet makes the second list comprehension raise IndexError. */
  predicate SecondPassFails(ps: seq<Packet>) {
    exists p :: p in ps && (HasEmptyPosition(p) || (Qualifies(p) && |Samples(p)| < 4))
  }

  predicate SomeQualifies(ps: seq<Packet>) {
    exists p :: p in ps && Qualifies(p)
  }

  ghost predicate StartsAreText(ps: seq<Packet>) {
    forall p, s :: p in ps && StartsWith(p, s) ==> s.Text?
  }

  ghost predicate EndsAreText(ps: seq<Packet>) {
    forall p, s :: p in ps && EndsWith(p, s) ==> s.Text?
  }

  /** `lo` is the first timestamp of some qualifying packet and no other first
      timestamp sorts before it. */
  ghost predicate IsEarliestStart(ps: seq<Packet>, lo: string) {
    (exists p :: p in ps && StartsWith(p, Text(lo)))
    && forall p, t :: p in ps && StartsWith(p, Text(t)) ==> Le(lo, t)
  }

  /** `hi` is the last timestamp of some qualifying packet and no other last
      timestamp sorts after it. */
  ghost predicate IsLatestEnd(ps: seq<Packet>, hi: string) {
    (exists p :: p in ps && EndsWith(p, Text(hi)))
    && forall p, t :: p in ps && EndsWith(p, Text(t)) ==> Le(t, hi)
  }

  /** The first list comprehension: the first sample of every qualifying packet. */
  function StartSamples(ps: seq<Packet>): (r: Result<seq<Sample>, AggregateError>)
    ensures r.Success? <==> !FirstPassFails(ps)
    ensures r.Failure? ==> r.error == IndexOutOfRange
    ensures r.Success? ==> forall s :: s in r.value <==> exists p :: p in ps && StartsWith(p, s)
  {
    if |ps| == 0 then Success([])
    else if HasEmptyPosition(ps[0]) then Failure(IndexOutOfRange)
    else if Qualifies(ps[0]) && |Samples(ps[0])| == 0 then Failure(IndexOutOfRange)
    else
      var rest := StartSamples(ps[1..]);
      assert forall p :: p in ps <==> p == ps[0] || p in ps[1..];
      if rest.Failure? then rest
      else if Qualifies(ps[0]) then Success([Samples(ps[0])[0]] + rest.value)
      else rest
  }

  /** The second list comprehension: the fourth-from-last sample of every
      qualifying packet. */
  function EndSamples(ps: seq<Packet>): (r: Result<seq<Sample>, AggregateError>)
    ensures r.Success? <==> !SecondPassFails(ps)
    ensures r.Failure? ==> r.error == IndexOutOfRange
    ensures r.Success? ==> forall s :: s in r.value <==> exists p :: p in ps && EndsWith(p, s)
  {
    if |ps| == 0 then Success([])
    else if HasEmptyPosition(ps[0]) then Failure(IndexOutOfRange)
    else if Qualifies(ps[0]) && |Samples(ps[0])| < 4 then Failure(IndexOutOfRange)
    else
      var rest := EndSamples(ps[1..]);
      assert forall p :: p in ps <==> p == ps[0] || p in ps[1..];
      if rest.Failure? then rest
      else if Qualifies(ps[0]) then Success([Samples(ps[0])[|Samples(ps[0])| - 4]] + rest.value)
      else rest
  }

  /** The strings of a sample list, which `min`/`max` can order only when every
      sample is a timestamp string. */
  function Timestamps(ss: seq<Sample>): (r: Result<seq<string>, AggregateError>)
    ensures r.Success? <==> forall s :: s in ss ==> s.Text?
    ensures r.Failure? ==> r.error == NotATimestamp
    ensures r.Success? ==> |r.value| == |ss| && forall t :: t in r.value <==> Text(t) in ss
  {
    if |ss| == 0 then Success([])
    else if ss[0].Number? then assert ss[0] in ss; Failure(NotATimestamp)
    else
      var rest := Timestamps(ss[1..]);
      assert forall s :: s in ss <==> s == ss[0] || s in ss[1..];
      if rest.Failure? then rest
      else Success([ss[0].text] + rest.value)
  }

  /** Without an empty sample list, every qualifying packet contributes a start. */
  lemma StartsPresent(ps: seq<Packet>, starts: seq<Sample>)
    requires StartSamples(ps) == Success(starts)
    ensures |starts| > 0 <==> SomeQualifies(ps)
  {
    if SomeQualifies(ps) {
      var p :| p in ps && Qualifies(p);
      assert StartsWith(p, Samples(p)[0]);
    }
  }

  /** Without a short sample list, every qualifying packet contributes an end. */
  lemma EndsPresent(ps: seq<Packet>, ends: seq<Sample>)
    requires EndSamples(ps) == Success(ends)
    ensures |ends| > 0 <==> SomeQualifies(ps)
  {
    if SomeQualifies(ps) {
      var p :| p in ps && Qualifies(p);
      assert EndsWith(p, Samples(p)[|Samples(p)| - 4]);
    }
  }

  /** The returned document packet for the interval `lo`/`hi`. */
  function ClockPacket(lo: string, hi: string): (d: DocumentPacket)
    ensures d.id == "document" && d.version == "1.0"
    ensures d.clock.currentTime == lo && d.clock.range == "CLAMPED" && d.clock.multiplier == 1.0
    ensures |d.clock.interval| == |lo| + 1 + |hi|
    ensures d.clock.interval[..|lo|] == lo && d.clock.interval[|lo|] == '/' && d.clock.interval[|lo| + 1..] == hi
  {
    DocumentPacket("document", "1.0", Clock(lo + "/" + hi, 1.0, lo, "CLAMPED"))
  }

  /** `create_doc_packet_from_czmls(czmls)`: the clock interval runs from the
      least first timestamp to the greatest last timestamp, under Python's
      string order. The exception raised first is reported, in the order the
      source evaluates: first comprehension, min, second comprehension, max. */
  function DocPacketFromCzmls(czmls: seq<Packet>): (r: Result<DocumentPacket, AggregateError>)
    ensures r.Success? <==>
      !FirstPassFails(czmls) && SomeQualifies(czmls) && StartsAreText(czmls)
      && !SecondPassFails(czmls) && EndsAreText(czmls)
    ensures r.Success? ==>
      exists lo, hi :: r.value == ClockPacket(lo, hi) && IsEarliestStart(czmls, lo) && IsLatestEnd(czmls, hi)
    ensures r == Failure(IndexOutOfRange) <==>
      FirstPassFails(czmls) || (SomeQualifies(czmls) && StartsAreText(czmls) && SecondPassFails(czmls))
    ensures r == Failure(EmptySequence) <==> !FirstPassFails(czmls) && !SomeQualifies(czmls)
    ensures r == Failure(NotATimestamp) <==>
      !FirstPassFails(czmls) && SomeQualifies(czmls)
      && (!StartsAreText(czmls) || (!SecondPassFails(czmls) && !EndsAreText(czmls)))
  {
    var starts :- StartSamples(czmls);
    StartsPresent(czmls, starts);
    if |starts| == 0 then Failure(EmptySequence)
    else
      var startTexts :- Timestamps(starts);
      var ends :- EndSamples(czmls);
      var endTexts :- Timestamps(ends);
      EndsPresent(czmls, ends);
      Success(ClockPacket(Min(startTexts), Max(endTexts)))
  }

  // ---------------------------------------------------------------------------
  // What the document packet depends on

  /** A packet the aggregation looks at: it has a position, and the position
      either has no key or starts with a recognised one. */
  predicate Counted(p: Packet) {
    HasEmptyPosition(p) || Qualifies(p)
  }

  lemma EarliestStartUnique(ps: seq<Packet>, a: string, b: string)
    requires IsEarliestStart(ps, a) && IsEarliestStart(ps, b)
    ensures a == b
  {
    var p :| p in ps && StartsWith(p, Text(a));
    var q :| q in ps && StartsWith(q, Text(b));
    LeAntisymmetric(a, b);
  }

  lemma LatestEndUnique(ps: seq<Packet>, a: string, b: string)
    requires IsLatestEnd(ps, a) && IsLatestEnd(ps, b)
    ensures a == b
  {
    var p :| p in ps && EndsWith(p, Text(a));
    var q :| q in ps && EndsWith(q, Text(b));
    LeAntisymmetric(a, b);
  }

  /** The document packet, or the exception, is a function of the set of
      counted packets alone: their order, their repetitions and every packet
      without a recognised position make no difference. */
  lemma DependsOnlyOnCountedPackets(ps: seq<Packet>, qs: seq<Packet>)
    requires forall p :: Counted(p) ==> (p in ps <==> p in qs)
    ensures DocPacketFromCzmls(ps) == DocPacketFromCzmls(qs)
  {
    assert FirstPassFails(ps) == FirstPassFails(qs);
    assert SecondPassFails(ps) == SecondPassFails(qs);
    assert SomeQualifies(ps) == SomeQualifies(qs);
    assert StartsAreText(ps) == StartsAreText(qs);
    assert EndsAreText(ps) == EndsAreText(qs);
    var r, s := DocPacketFromCzmls(ps), DocPacketFromCzmls(qs);
    if r.Success? {
      var lo, hi :| r.value == ClockPacket(lo, hi) && IsEarliestStart(ps, lo) && IsLatestEnd(ps, hi);
      var lo', hi' :| s.value == ClockPacket(lo', hi') && IsEarliestStart(qs, lo') && IsLatestEnd(qs, hi');
      assert IsEarliestStart(ps, lo') && IsLatestEnd(ps, hi');
      EarliestStartUnique(ps, lo, lo');
      LatestEndUnique(ps, hi, hi');
    }
  }

  /** Reordering the packets gives the same document packet. */
  lemma ReorderingKeepsDocument(ps: seq<Packet>, qs: seq<Packet>)
    requires multiset(ps) == multiset(qs)
    ensures DocPacketFromCzmls(ps) == DocPacketFromCzmls(qs)
  {
    forall p | Counted(p)
      ensures p in ps <==> p in qs
    {
      assert p in ps <==> p in multiset(ps);
    }
    DependsOnlyOnCountedPackets(ps, qs);
  }

  /** Appending packets without a position, or with a position under an
      unrecognised key, gives the same document packet. */
  lemma UncountedPacketsIgnored(ps: seq<Packet>, extra: seq<Packet>)
    requires forall p :: p in extra ==> !Counted(p)
    ensures DocPacketFromCzmls(ps + extra) == DocPacketFromCzmls(ps)
  {
    DependsOnlyOnCountedPackets(ps + extra, ps);
  }
}
