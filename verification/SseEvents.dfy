/** `writeSSE` (streaming.go), `collectSSEEvents` and `parseDriftEvent` (drift_checks.go). A character is one byte. */
module SseEvents {
  import opened Outcomes
  import opened Texts
  import opened ByteTrim
  import opened SseFraming
  import Decimal

  /** The object an SSE writer marshals; `writeSSE` of the adapter leaves the version out, which reads as empty. */
  datatype Body<P> = Body(kind: string, version: string, occurredAt: string, payload: P)

  /** The fields the reader unmarshals. */
  datatype Envelope<P> = Envelope(kind: string, version: string, payload: P)

  datatype DriftEvent<P> = DriftEvent(kind: string, version: string, payload: P, raw: string)

  /** JSON marshalling and unmarshalling, left abstract. */
  datatype Codec<!P> = Codec(encode: Body<P> -> Option<string>, decode: string -> Option<Envelope<P>>)

  // ---------- reader ----------

  const DATA := "data:"

  /** What follows `data:` in the last data line. */
  function LastDataLine(lines: seq<string>): Option<string> {
    if lines == [] then None else
      var last := lines[|lines| - 1];
      if DATA <= last then Some(last[|DATA|..]) else LastDataLine(lines[..|lines| - 1])
  }

  /** Its trimmed text; empty when there is none. */
  function LastData(lines: seq<string>): string {
    var line := LastDataLine(lines);
    if line.Some? then TrimBytes(line.value) else ""
  }

  function ParseData<P>(codec: Codec<P>, data: string): Option<DriftEvent<P>> {
    if data == "" then None else
      match codec.decode(data)
      case None => None
      case Some(e) => if e.kind == "" then None else Some(DriftEvent(e.kind, e.version, e.payload, data))
  }

  function ParseBlock<P>(codec: Codec<P>, block: string): Option<DriftEvent<P>> {
    ParseData(codec, LastData(Lines(block)))
  }

  function Found<T>(o: Option<T>): seq<T> {
    if o.Some? then [o.value] else []
  }

  function ParseBlocks<P>(codec: Codec<P>, blocks: seq<string>): seq<DriftEvent<P>> {
    if blocks == [] then [] else
      ParseBlocks(codec, blocks[..|blocks| - 1]) + Found(ParseBlock(codec, blocks[|blocks| - 1]))
  }

  /** The events of a whole stream, cut at its blank lines. */
  function Events<P>(codec: Codec<P>, stream: string): seq<DriftEvent<P>> {
    ParseBlocks(codec, Frames(stream).blocks)
  }

  method ParseDriftEvent<P>(codec: Codec<P>, block: string) returns (event: Option<DriftEvent<P>>)
    ensures event == ParseBlock(codec, block)
  {
    var dataLine, lines := "", Lines(block);
    for i := 0 to |lines|
      invariant dataLine == LastData(lines[..i])
    {
      assert lines[..i + 1][..i] == lines[..i];
      if DATA <= lines[i] {
        dataLine := TrimBytes(lines[i][|DATA|..]);
      }
    }
    assert lines[..|lines|] == lines;
    event := ParseData(codec, dataLine);
  }

  /** The inner loop: take every complete block off the front of the buffer. */
  method Drain<P>(codec: Codec<P>, buffer: string) returns (events: seq<DriftEvent<P>>, pending: string)
    ensures events == Events(codec, buffer) && pending == Frames(buffer).rest
  {
    events, pending := [], buffer;
    ghost var whole, n := Frames(buffer), 0;
    var idx := IndexBlank(pending);
    while idx != -1
      invariant idx == IndexBlank(pending) && n <= |whole.blocks|
      invariant Frames(pending) == Framing(whole.blocks[n..], whole.rest)
      invariant events == ParseBlocks(codec, whole.blocks[..n])
      decreases |pending|
    {
      var block := pending[..idx];
      FramesStep(pending);
      assert whole.blocks[n..][1..] == whole.blocks[n + 1..] && whole.blocks[n] == block;
      ParseBlocksSnoc(codec, whole.blocks[..n], block);
      assert whole.blocks[..n + 1] == whole.blocks[..n] + [block];
      pending := pending[idx + 2..];
      n := n + 1;
      var event := ParseDriftEvent(codec, block);
      events := events + Found(event);
      idx := IndexBlank(pending);
    }
    assert whole.blocks[..n] == whole.blocks;
  }

  /**
   * The buffered loop over network reads. Its result depends only on the concatenated bytes: however the
   * stream is cut into reads, also inside a separator, the same events come out.
   */
  method CollectEvents<P>(codec: Codec<P>, slices: seq<string>) returns (events: seq<DriftEvent<P>>)
    ensures events == Events(codec, Concat(slices))
  {
    events := [];
    var pending := "";
    for n := 0 to |slices|
      invariant pending == Frames(Concat(slices[..n])).rest
      invariant events == Events(codec, Concat(slices[..n]))
    {
      assert slices[..n + 1] == slices[..n] + [slices[n]];
      ConcatSnoc(slices[..n], slices[n]);
      FramesConcat(Concat(slices[..n]), slices[n]);
      ParseBlocksConcat(codec, Frames(Concat(slices[..n])).blocks, Frames(pending + slices[n]).blocks);
      var more;
      more, pending := Drain(codec, pending + slices[n]);
      events := events + more;
    }
    assert slices[..|slices|] == slices;
  }

  // ---------- writer ----------

  /** One call of `writeSSE`, with the clock readings it makes and the protocol version of its dialect. */
  datatype Emission<P> = Emission(id: int, occurredAt: string, kind: string, version: string, payload: P)

  function KindOf<P>(e: Emission<P>): string {
    if e.kind == "" then "message" else e.kind
  }

  function BodyOf<P>(e: Emission<P>): Body<P> {
    Body(KindOf(e), e.version, e.occurredAt, e.payload)
  }

  function Header<P>(e: Emission<P>): string {
    "id: " + Decimal.IntText(e.id) + "\nevent: " + KindOf(e) + "\n"
  }

  function DataLine(text: string): string {
    DATA + (" " + text)
  }

  /** The bytes `writeSSE` prints; nothing when marshalling fails. */
  function Write<P>(codec: Codec<P>, e: Emission<P>): string {
    match codec.encode(BodyOf(e))
    case None => ""
    case Some(text) => Header(e) + (DataLine(text) + "\n\n")
  }

  function WriteAll<P>(codec: Codec<P>, es: seq<Emission<P>>): string {
    if es == [] then "" else WriteAll(codec, es[..|es| - 1]) + Write(codec, es[|es| - 1])
  }

  /** JSON texts are one line without surrounding space, and unmarshalling undoes marshalling. */
  ghost predicate Lawful<P(!new)>(codec: Codec<P>) {
    forall body: Body<P> :: codec.encode(body).Some? ==>
      var text := codec.encode(body).value;
      && text != "" && Clean(text)
      && codec.decode(text) == Some(Envelope(body.kind, body.version, body.payload))
  }

  /** What the reader should report for one emission. */
  function Delivered<P>(codec: Codec<P>, e: Emission<P>): seq<DriftEvent<P>> {
    match codec.encode(BodyOf(e))
    case None => []
    case Some(text) => [DriftEvent(KindOf(e), e.version, e.payload, text)]
  }

  function DeliveredAll<P>(codec: Codec<P>, es: seq<Emission<P>>): seq<DriftEvent<P>> {
    if es == [] then [] else DeliveredAll(codec, es[..|es| - 1]) + Delivered(codec, es[|es| - 1])
  }

  /** Events the reader finds in the header lines of an emission, where there should be none. */
  function Strays<P>(codec: Codec<P>, e: Emission<P>): seq<DriftEvent<P>> {
    if codec.encode(BodyOf(e)).None? then [] else Events(codec, Header(e))
  }

  function Reported<P>(codec: Codec<P>, e: Emission<P>): seq<DriftEvent<P>> {
    Strays(codec, e) + Delivered(codec, e)
  }

  function ReportedAll<P>(codec: Codec<P>, es: seq<Emission<P>>): seq<DriftEvent<P>> {
    if es == [] then [] else ReportedAll(codec, es[..|es| - 1]) + Reported(codec, es[|es| - 1])
  }

  lemma ParseBlocksSnoc<P>(codec: Codec<P>, blocks: seq<string>, block: string)
    ensures ParseBlocks(codec, blocks + [block]) == ParseBlocks(codec, blocks) + Found(ParseBlock(codec, block))
  {
    assert (blocks + [block])[..|blocks|] == blocks;
  }

  lemma {:induction false} ParseBlocksConcat<P>(codec: Codec<P>, a: seq<string>, b: seq<string>)
    ensures ParseBlocks(codec, a + b) == ParseBlocks(codec, a) + ParseBlocks(codec, b)
    decreases |b|
  {
    if b == [] {
      assert a + b == a;
    } else {
      assert (a + b)[..|a + b| - 1] == a + b[..|b| - 1];
      ParseBlocksConcat(codec, a, b[..|b| - 1]);
    }
  }

  lemma NoBlankAfter(rest: string, line: string)
    requires NoBlank(rest) && line != "" && '\n' !in line
    ensures NoBlank((rest + line) + "\n")
  {
    var s := (rest + line) + "\n";
    assert forall k | |rest| <= k < |rest| + |line| :: s[k] == line[k - |rest|];
    forall k ensures !BlankAt(s, k) {
      assert !BlankAt(rest, k);
    }
  }

  /** A line and a separator close exactly one block, whatever unfinished text precedes them. */
  lemma LineClosesBlock(rest: string, line: string)
    requires NoBlank(rest) && line != "" && '\n' !in line
    ensures Frames(rest + (line + "\n\n")) == Framing([rest + line], "")
  {
    NoBlankAfter(rest, line);
    Regroup(rest, line, "\n\n");
    OneBlock(rest + line);
  }

  lemma LastLineWins(lines: seq<string>, line: string)
    ensures LastDataLine(lines + [line]) == if DATA <= line then Some(line[|DATA|..]) else LastDataLine(lines)
  {
    assert (lines + [line])[..|lines|] == lines;
  }

  /** The last data line wins. */
  lemma DataIsRead(rest: string, line: string)
    requires DATA <= line && '\n' !in line && (rest == "" || rest[|rest| - 1] == '\n')
    ensures LastDataLine(Lines(rest + line)) == Some(line[|DATA|..])
  {
    if rest == "" {
      Regroup("", "", line);
      OnlyDataLine(line);
    } else {
      var head := UpToLast(rest, '\n');
      Regroup(head, "\n", line);
      DataLineAfter(head, line);
    }
  }

  lemma OnlyDataLine(line: string)
    requires DATA <= line && '\n' !in line
    ensures LastDataLine(Lines(line)) == Some(line[|DATA|..])
  {
    OneLine(line);
    LastLineWins([], line);
    assert [] + [line] == [line];
  }

  lemma DataLineAfter(head: string, line: string)
    requires DATA <= line && '\n' !in line
    ensures LastDataLine(Lines(head + ("\n" + line))) == Some(line[|DATA|..])
  {
    LinesSnoc(head, line);
    LastLineWins(Lines(head), line);
  }

  lemma DataLineKeepsText(text: string)
    requires Clean(text)
    ensures '\n' !in DataLine(text) && DATA <= DataLine(text) && TrimBytes(DataLine(text)[|DATA|..]) == text
  {
    DropData(" " + text);
    TrimOneSpace(text);
  }

  lemma DropData(s: string)
    ensures DATA <= DATA + s && (DATA + s)[|DATA|..] == s
  {
  }

  /** A lawful JSON text survives the data line. */
  lemma TextIsParsed<P(!new)>(codec: Codec<P>, body: Body<P>)
    requires Lawful(codec) && codec.encode(body).Some? && body.kind != ""
    ensures var text := codec.encode(body).value;
      && '\n' !in DataLine(text) && DATA <= DataLine(text)
      && ParseData(codec, TrimBytes(DataLine(text)[|DATA|..])) ==
         Some(DriftEvent(body.kind, body.version, body.payload, text))
  {
    DataLineKeepsText(codec.encode(body).value);
  }

  lemma DataFrameIsRead<P>(codec: Codec<P>, h: string, line: string)
    requires DATA <= line && '\n' !in line && h != "" && h[|h| - 1] == '\n'
    ensures Frames(h + (line + "\n\n")).rest == ""
    ensures Events(codec, h + (line + "\n\n")) == Events(codec, h) + Found(ParseData(codec, TrimBytes(line[|DATA|..])))
  {
    var rest := Frames(h).rest;
    RestIsSuffix(h);
    FramesConcat(h, line + "\n\n");
    LineClosesBlock(rest, line);
    DataIsRead(rest, line);
    ParseBlocksSnoc(codec, Frames(h).blocks, rest + line);
  }

  lemma WriteIsRead<P(!new)>(codec: Codec<P>, e: Emission<P>)
    requires Lawful(codec)
    ensures Frames(Write(codec, e)).rest == ""
    ensures Events(codec, Write(codec, e)) == Reported(codec, e)
  {
    if codec.encode(BodyOf(e)).Some? {
      var line := DataLine(codec.encode(BodyOf(e)).value);
      TextIsParsed(codec, BodyOf(e));
      DataFrameIsRead(codec, Header(e), line);
    } else {
      assert Frames("") == Framing([], "");
    }
  }

  lemma EventsConcat<P>(codec: Codec<P>, a: string, b: string)
    requires Frames(a).rest == ""
    ensures Frames(a + b).rest == Frames(b).rest
    ensures Events(codec, a + b) == Events(codec, a) + Events(codec, b)
  {
    FramesConcat(a, b);
    assert "" + b == b;
    ParseBlocksConcat(codec, Frames(a).blocks, Frames(b).blocks);
  }

  /** The reader reports, in order, each emission preceded by whatever stray events its header holds. */
  lemma {:induction false} WrittenStreamIsRead<P(!new)>(codec: Codec<P>, es: seq<Emission<P>>)
    requires Lawful(codec)
    ensures Frames(WriteAll(codec, es)).rest == ""
    ensures Events(codec, WriteAll(codec, es)) == ReportedAll(codec, es)
  {
    if es == [] {
      assert Frames("") == Framing([], "");
    } else {
      var init, e := es[..|es| - 1], es[|es| - 1];
      var a, b := WriteAll(codec, init), Write(codec, e);
      WrittenStreamIsRead(codec, init);
      WriteIsRead(codec, e);
      EventsConcat(codec, a, b);
    }
  }

  lemma {:induction false} ReportedCount<P>(codec: Codec<P>, es: seq<Emission<P>>)
    ensures |DeliveredAll(codec, es)| <= |ReportedAll(codec, es)|
    ensures |ReportedAll(codec, es)| == |DeliveredAll(codec, es)| ==> forall e | e in es :: Strays(codec, e) == []
    ensures (forall e | e in es :: Strays(codec, e) == []) ==> ReportedAll(codec, es) == DeliveredAll(codec, es)
  {
    if es != [] {
      var init, last := es[..|es| - 1], es[|es| - 1];
      ReportedCount(codec, init);
      assert forall e | e in es :: e in init || e == last;
      assert last in es;
      if forall e | e in es :: Strays(codec, e) == [] {
        assert Strays(codec, last) == [];
        assert ReportedAll(codec, init) + [] == ReportedAll(codec, init);
      }
    }
  }

  /** Under one codec, writer and reader undo each other exactly when no header makes a stray event. */
  lemma RoundTripWithoutStrays<P(!new)>(codec: Codec<P>, es: seq<Emission<P>>)
    requires Lawful(codec)
    ensures Events(codec, WriteAll(codec, es)) == DeliveredAll(codec, es) <==>
            forall e | e in es :: Strays(codec, e) == []
  {
    WrittenStreamIsRead(codec, es);
    ReportedCount(codec, es);
  }
}
