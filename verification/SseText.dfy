/** SSE blocks as the bytes on the wire: the lines that are written, and what is read from a block. */
module SseText {
  import opened Outcomes
  import opened Texts
  import opened ByteTrim
  import opened SseEvents
  import Decimal

  // ---------- writing ----------

  /** The bytes of one emission. */
  lemma WrittenText<P>(codec: Codec<P>, e: Emission<P>)
    requires codec.encode(BodyOf(e)).Some?
    ensures var kind := if e.kind == "" then "message" else e.kind;
      var text := codec.encode(BodyOf(e)).value;
      Write(codec, e) ==
      "id: " + (Decimal.IntText(e.id) + ("\nevent: " + (kind + ("\ndata: " + (text + "\n\n")))))
  {
    var text := codec.encode(BodyOf(e)).value;
    assert DATA + (" " + text) + "\n\n" == "data: " + (text + "\n\n");
    var tail := text + "\n\n";
    assert Header(e) + ("data: " + tail) ==
           "id: " + (Decimal.IntText(e.id) + ("\nevent: " + (KindOf(e) + ("\n" + ("data: " + tail)))));
    assert "\n" + ("data: " + tail) == "\ndata: " + tail;
  }

  // ---------- reading ----------

  /** The last line that begins with `data:` decides, wherever it stands. */
  lemma {:induction false} LastDataExactly(lines: seq<string>, k: nat)
    requires k < |lines| && "data:" <= lines[k] && forall i | k < i < |lines| :: !("data:" <= lines[i])
    ensures LastDataLine(lines) == Some(lines[k][5..])
  {
    if k < |lines| - 1 {
      LastDataExactly(lines[..|lines| - 1], k);
    }
  }

  lemma {:induction false} NoDataLine(lines: seq<string>)
    requires forall i | 0 <= i < |lines| :: !("data:" <= lines[i])
    ensures LastDataLine(lines) == None
  {
    if lines != [] {
      NoDataLine(lines[..|lines| - 1]);
    }
  }

  /**
   * A block is read as its last data line says: an event with the type, version and payload of the envelope in it, or
   * none if that line is blank, is no envelope, or has no type.
   */
  lemma BlockIsRead<P>(codec: Codec<P>, block: string, k: nat)
    requires k < |Lines(block)| && "data:" <= Lines(block)[k]
    requires forall i | k < i < |Lines(block)| :: !("data:" <= Lines(block)[i])
    ensures var text := TrimBytes(Lines(block)[k][5..]);
      var e := codec.decode(text);
      ParseBlock(codec, block) ==
      if text != "" && e.Some? && e.value.kind != ""
      then Some(DriftEvent(e.value.kind, e.value.version, e.value.payload, text)) else None
  {
    LastDataExactly(Lines(block), k);
  }

  /** A block without a data line is no event. */
  lemma BlockWithoutData<P>(codec: Codec<P>, block: string)
    requires forall i | 0 <= i < |Lines(block)| :: !("data:" <= Lines(block)[i])
    ensures ParseBlock(codec, block) == None
  {
    NoDataLine(Lines(block));
  }
}
