/** `checkEventVocabulary` of vocabulary_checks.go: SPEC blocks, the SSE reader and the comparison as one check. */
module DriftReport {
  import opened Outcomes
  import opened SseEvents
  import SseRoundTrip
  import Texts
  import Vocabulary
  import VocabularyTexts

  /** `vocabularyForProtocol`: the block that governs an event, by the version its envelope declares. */
  function WantFor(version: string): Vocabulary.Want {
    if version == "0.3" then Vocabulary.V03 else Vocabulary.V02
  }

  predicate IsVendorType(kind: string) {
    "x." <= kind
  }

  /** A report: an event type that the named section does not list. */
  datatype Drift = Drift(section: string, kind: string)

  datatype Fatal = BadSpec(want: Vocabulary.Want, error: Vocabulary.Error) | NoEvents

  /** The vocabularies of the two sections. */
  datatype Vocabularies = Vocabularies(v02: set<string>, v03: set<string>)

  function VocabularyFor(v: Vocabularies, version: string): set<string> {
    if WantFor(version) == Vocabulary.V03 then v.v03 else v.v02
  }

  /** An event that the contract does not know. */
  predicate Drifts(v: Vocabularies, kind: string, version: string) {
    kind != "" && !IsVendorType(kind) && kind !in VocabularyFor(v, version)
  }

  function ReportOf(kind: string, version: string): Drift {
    Drift(WantFor(version).section, kind)
  }

  /** The reports of a list of events: those that drift, each once, in the order they are first seen. */
  function Reports<P>(v: Vocabularies, events: seq<DriftEvent<P>>): seq<Drift> {
    if events == [] then [] else
      var init, e := Reports(v, events[..|events| - 1]), events[|events| - 1];
      var r := ReportOf(e.kind, e.version);
      if Drifts(v, e.kind, e.version) && r !in init then init + [r] else init
  }

  /** The text that keys the reported events. */
  function KeyOf(d: Drift): string {
    d.section + " " + d.kind
  }

  lemma KeysDiffer(a: Drift, b: Drift)
    requires |a.section| == |b.section| && KeyOf(a) == KeyOf(b)
    ensures a == b
  {
    assert a.section == KeyOf(a)[..|a.section|] && b.section == KeyOf(b)[..|b.section|];
    assert a.kind == KeyOf(a)[|a.section| + 1..] && b.kind == KeyOf(b)[|b.section| + 1..];
  }

  ghost predicate OnlyNormative(reports: seq<Drift>) {
    forall d | d in reports :: |d.section| == 3
  }

  /** The comparison loop with its set of reported keys. */
  method CompareEvents<P>(v: Vocabularies, events: seq<DriftEvent<P>>) returns (reports: seq<Drift>)
    ensures reports == Reports(v, events)
  {
    reports := [];
    var reported: set<string> := {};
    for n := 0 to |events|
      invariant reports == Reports(v, events[..n]) && OnlyNormative(reports)
      invariant forall key :: key in reported <==> exists d :: d in reports && key == KeyOf(d)
    {
      assert events[..n + 1][..n] == events[..n];
      var e := events[n];
      if e.kind == "" || IsVendorType(e.kind) {
        continue;
      }
      var want := WantFor(e.version);
      var r := Drift(want.section, e.kind);
      var key := want.section + " " + e.kind;
      if key in reported {
        var d :| d in reports && key == KeyOf(d);
        KeysDiffer(d, r);
      }
      if e.kind !in VocabularyFor(v, e.version) && key !in reported {
        reported := reported + {key};
        reports := reports + [r];
        assert r in reports;
      }
    }
    assert events[..|events|] == events;
  }

  /** The whole check: both blocks, the stream in its slices, and the comparison. */
  method CheckEventVocabulary<P>(codec: Codec<P>, spec: seq<string>, slices: seq<string>)
    returns (r: Result<seq<Drift>, Fatal>)
    ensures r.Err? && r.error.BadSpec? <==> !Loads(spec, Vocabulary.V02) || !Loads(spec, Vocabulary.V03)
    ensures r == Err(NoEvents) ==> Events(codec, Texts.Concat(slices)) == []
    ensures r.Ok? ==> Events(codec, Texts.Concat(slices)) != []
    ensures r.Ok? ==> exists v :: Loaded(spec, v) && r.value == Reports(v, Events(codec, Texts.Concat(slices)))
  {
    var v02 := Vocabulary.LoadEventVocabulary(Vocabulary.V02, spec);
    if v02.Err? {
      return Err(BadSpec(Vocabulary.V02, v02.error));
    }
    var v03 := Vocabulary.LoadEventVocabulary(Vocabulary.V03, spec);
    if v03.Err? {
      return Err(BadSpec(Vocabulary.V03, v03.error));
    }
    var v := Vocabularies(v02.value, v03.value);
    assert Loaded(spec, v);
    var events := CollectEvents(codec, slices);
    if events == [] {
      return Err(NoEvents);
    }
    var reports := CompareEvents(v, events);
    return Ok(reports);
  }

  /** The document has the wanted block. */
  ghost predicate Loads(spec: seq<string>, want: Vocabulary.Want) {
    exists h, f, c :: Vocabulary.Grammar(Vocabulary.MarkerFor(want), spec, h, f, c)
  }

  ghost predicate Lists(spec: seq<string>, want: Vocabulary.Want, names: set<string>) {
    exists h, f, c :: Vocabulary.Grammar(Vocabulary.MarkerFor(want), spec, h, f, c) &&
                      names == Vocabulary.Names(Vocabulary.MarkerFor(want), spec, f, c)
  }

  ghost predicate Loaded(spec: seq<string>, v: Vocabularies) {
    Lists(spec, Vocabulary.V02, v.v02) && Lists(spec, Vocabulary.V03, v.v03)
  }

  // ---------- what is reported ----------

  /** The type is neither exempt nor listed in the section of its version. */
  ghost predicate Unlisted(v02: set<string>, v03: set<string>, kind: string, version: string) {
    kind != "" && !(|kind| >= 2 && kind[0] == 'x' && kind[1] == '.') &&
    kind !in (if version == "0.3" then v03 else v02)
  }

  /** The section that governs a protocol version. */
  function SectionFor(version: string): string {
    if version == "0.3" then "7.8" else "7.7"
  }

  lemma DriftsExactly(v: Vocabularies, kind: string, version: string)
    ensures Drifts(v, kind, version) <==> Unlisted(v.v02, v.v03, kind, version)
    ensures ReportOf(kind, version) == Drift(SectionFor(version), kind)
  {
    VocabularyTexts.NormativeWants();
    assert |kind| >= 2 ==> kind[..2] == [kind[0], kind[1]];
  }

  /** An event of this type and version is among those read. */
  ghost predicate Seen<P>(events: seq<DriftEvent<P>>, kind: string, version: string) {
    exists i :: 0 <= i < |events| && events[i].kind == kind && events[i].version == version
  }

  lemma SeenSnoc<P>(events: seq<DriftEvent<P>>, e: DriftEvent<P>, kind: string, version: string)
    ensures Seen(events + [e], kind, version) <==>
            Seen(events, kind, version) || (e.kind == kind && e.version == version)
  {
    var all := events + [e];
    if i :| 0 <= i < |events| && events[i].kind == kind && events[i].version == version {
      assert all[i] == events[i];
    }
    assert all[|events|] == e;
  }

  /** The report is due: an event was seen whose type its section does not list. */
  ghost predicate Due<P>(v: Vocabularies, events: seq<DriftEvent<P>>, d: Drift) {
    exists version ::
      Seen(events, d.kind, version) && Unlisted(v.v02, v.v03, d.kind, version) && d.section == SectionFor(version)
  }

  lemma DueSnoc<P>(v: Vocabularies, events: seq<DriftEvent<P>>, e: DriftEvent<P>, d: Drift)
    ensures Due(v, events + [e], d) <==>
            Due(v, events, d) || (Drifts(v, e.kind, e.version) && d == ReportOf(e.kind, e.version))
  {
    DriftsExactly(v, e.kind, e.version);
    if version :| Seen(events + [e], d.kind, version) && Unlisted(v.v02, v.v03, d.kind, version) &&
                  d.section == SectionFor(version) {
      SeenSnoc(events, e, d.kind, version);
    }
    if version :| Seen(events, d.kind, version) && Unlisted(v.v02, v.v03, d.kind, version) &&
                  d.section == SectionFor(version) {
      SeenSnoc(events, e, d.kind, version);
    }
    SeenSnoc(events, e, e.kind, e.version);
  }

  /** Every unlisted event is reported under the section of its version, nothing else is, and nothing twice. */
  lemma {:induction false} ReportsExactly<P>(v: Vocabularies, events: seq<DriftEvent<P>>)
    ensures forall d :: d in Reports(v, events) <==> Due(v, events, d)
    ensures forall i, j | 0 <= i < j < |Reports(v, events)| :: Reports(v, events)[i] != Reports(v, events)[j]
  {
    if events != [] {
      var init, e := events[..|events| - 1], events[|events| - 1];
      ReportsExactly(v, init);
      assert events == init + [e];
      forall d ensures d in Reports(v, events) <==> Due(v, events, d) {
        DueSnoc(v, init, e, d);
      }
    }
  }

  // ---------- end to end ----------

  /** An event of this type and version is among those a server wrote. */
  ghost predicate Wrote<P>(codec: Codec<P>, es: seq<Emission<P>>, kind: string, version: string) {
    exists i :: 0 <= i < |es| && codec.encode(BodyOf(es[i])).Some? && KindOf(es[i]) == kind && es[i].version == version
  }

  lemma WroteSnoc<P>(codec: Codec<P>, es: seq<Emission<P>>, e: Emission<P>, kind: string, version: string)
    ensures Wrote(codec, es + [e], kind, version) <==>
            Wrote(codec, es, kind, version) ||
            (codec.encode(BodyOf(e)).Some? && KindOf(e) == kind && e.version == version)
  {
    var all := es + [e];
    if i :| 0 <= i < |es| && codec.encode(BodyOf(es[i])).Some? && KindOf(es[i]) == kind && es[i].version == version {
      assert all[i] == es[i];
    }
    assert all[|es|] == e;
  }

  lemma {:induction false} WrittenIsSeen<P>(codec: Codec<P>, es: seq<Emission<P>>, kind: string, version: string)
    ensures Seen(DeliveredAll(codec, es), kind, version) <==> Wrote(codec, es, kind, version)
  {
    if es != [] {
      var init, e := es[..|es| - 1], es[|es| - 1];
      WrittenIsSeen(codec, init, kind, version);
      assert es == init + [e];
      WroteSnoc(codec, init, e, kind, version);
      if codec.encode(BodyOf(e)).Some? {
        SeenSnoc(DeliveredAll(codec, init), Delivered(codec, e)[0], kind, version);
        assert Delivered(codec, e) == [Delivered(codec, e)[0]];
      } else {
        assert DeliveredAll(codec, init) + [] == DeliveredAll(codec, init);
      }
    }
  }

  /**
   * End to end: whatever a server writes, in any slicing of the stream, its unlisted event types are reported, each
   * under the section of the protocol version it was written with, and no other type is.
   */
  lemma DriftIsFound<P(!new)>(v: Vocabularies, codec: Codec<P>, es: seq<Emission<P>>, slices: seq<string>, d: Drift)
    requires Lawful(codec) && Texts.Concat(slices) == WriteAll(codec, es)
    requires forall e | e in es :: '\n' !in e.kind
    ensures d in Reports(v, Events(codec, Texts.Concat(slices))) <==>
            exists version :: Wrote(codec, es, d.kind, version) && Unlisted(v.v02, v.v03, d.kind, version) &&
                              d.section == SectionFor(version)
  {
    var events := DeliveredAll(codec, es);
    SseRoundTrip.RoundTrip(codec, es, slices);
    ReportsExactly(v, events);
    forall version ensures Seen(events, d.kind, version) <==> Wrote(codec, es, d.kind, version) {
      WrittenIsSeen(codec, es, d.kind, version);
    }
  }
}
