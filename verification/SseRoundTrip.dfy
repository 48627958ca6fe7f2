/** When the SSE reader gives back what the SSE writer wrote, as a test on the event type alone. */
module SseRoundTrip {
  import opened Outcomes
  import opened Texts
  import opened ByteTrim
  import opened SseFraming
  import opened SseEvents
  import Decimal

  /** No complete block carries a data text. */
  predicate NoData(blocks: seq<string>) {
    forall i | 0 <= i < |blocks| :: LastData(Lines(blocks[i])) == ""
  }

  /**
   * The caller's test of an event type, without codec or clock: no block that its own header line completes
   * carries a data text.
   */
  predicate SafeKind(kind: string) {
    NoData(Frames(EventLine(kind)).blocks)
  }

  function EventLine(kind: string): string {
    "event: " + kind + "\n"
  }

  // ---------- the id line does not matter ----------

  lemma FramesAfterLine(line: string, q: string)
    requires line != "" && '\n' !in line && q != "" && q[0] != '\n'
    ensures var f := Frames(q);
      Frames((line + "\n") + q).blocks == if f.blocks == [] then [] else [(line + "\n") + f.blocks[0]] + f.blocks[1..]
  {
    var p, i := line + "\n", IndexBlank(q);
    var s := p + q;
    forall k | 0 <= k < |p| ensures !BlankAt(s, k) {
      assert k < |line| ==> s[k] == line[k];
      assert k == |line| ==> s[k + 1] == q[0];
    }
    if i == -1 {
      forall k ensures !BlankAt(s, k) {
        assert !BlankAt(q, k - |p|);
      }
    } else {
      forall k | |p| <= k < |p| + i ensures !BlankAt(s, k) {
        assert !BlankAt(q, k - |p|);
      }
      FirstBlank(s, |p| + i);
      assert s[..|p| + i] == p + q[..i] && s[|p| + i + 2..] == q[i + 2..];
      FramesStep(s);
      FramesStep(q);
    }
  }

  lemma {:induction false} LastDataCons(line: string, lines: seq<string>)
    requires !(DATA <= line)
    ensures LastDataLine([line] + lines) == LastDataLine(lines)
    decreases |lines|
  {
    if lines == [] {
      LastLineWins([], line);
      assert [line] + lines == [] + [line];
    } else {
      var init, last := lines[..|lines| - 1], lines[|lines| - 1];
      LastDataCons(line, init);
      LastLineWins([line] + init, last);
      LastLineWins(init, last);
      assert lines == init + [last] && [line] + lines == ([line] + init) + [last];
    }
  }

  /** A line that is not a data line in front of a block does not change its data. */
  lemma DataAfterLine(line: string, block: string)
    requires '\n' !in line && !(DATA <= line)
    ensures LastData(Lines((line + "\n") + block)) == LastData(Lines(block))
  {
    Regroup(line, "\n", block);
    LinesCons(line, block);
    LastDataCons(line, Lines(block));
  }

  lemma LineIsIrrelevant(line: string, q: string)
    requires line != "" && '\n' !in line && !(DATA <= line) && q != "" && q[0] != '\n'
    ensures NoData(Frames((line + "\n") + q).blocks) <==> NoData(Frames(q).blocks)
  {
    FramesAfterLine(line, q);
    var blocks := Frames(q).blocks;
    if blocks != [] {
      DataAfterLine(line, blocks[0]);
      PrefixFirst(blocks, line + "\n");
    }
  }

  function IdLine<P>(e: Emission<P>): string {
    "id: " + Decimal.IntText(e.id)
  }

  lemma HeaderParts<P>(e: Emission<P>)
    ensures Header(e) == (IdLine(e) + "\n") + EventLine(KindOf(e))
    ensures IdLine(e) != "" && '\n' !in IdLine(e) && !(DATA <= IdLine(e))
  {
    Decimal.IntTextHasNoNewline(e.id);
    assert IdLine(e)[0] == 'i' && DATA[0] == 'd';
  }

  lemma HeaderData<P>(e: Emission<P>)
    ensures NoData(Frames(Header(e)).blocks) <==> SafeKind(KindOf(e))
  {
    HeaderParts(e);
    LineIsIrrelevant(IdLine(e), EventLine(KindOf(e)));
  }

  lemma PrefixFirst(blocks: seq<string>, p: string)
    requires blocks != [] && LastData(Lines(p + blocks[0])) == LastData(Lines(blocks[0]))
    ensures NoData([p + blocks[0]] + blocks[1..]) <==> NoData(blocks)
  {
    var all := [p + blocks[0]] + blocks[1..];
    assert forall i | 0 < i < |blocks| :: all[i] == blocks[i];
    assert all[0] == p + blocks[0];
  }

  // ---------- safe headers make no stray event ----------

  lemma {:induction false} NoDataNoEvents<P>(codec: Codec<P>, blocks: seq<string>)
    requires NoData(blocks)
    ensures ParseBlocks(codec, blocks) == []
  {
    if blocks != [] {
      assert LastData(Lines(blocks[|blocks| - 1])) == "";
      NoDataNoEvents(codec, blocks[..|blocks| - 1]);
    }
  }

  lemma {:induction false} OneEventSuffices<P>(codec: Codec<P>, blocks: seq<string>, k: nat)
    requires k < |blocks| && ParseBlock(codec, blocks[k]).Some?
    ensures ParseBlocks(codec, blocks) != []
  {
    if k < |blocks| - 1 {
      OneEventSuffices(codec, blocks[..|blocks| - 1], k);
    }
  }

  // ---------- unsafe headers do, under some lawful codec ----------

  lemma {:induction false} DataLineHasNoNewline(lines: seq<string>)
    requires forall line | line in lines :: '\n' !in line
    ensures LastDataLine(lines).Some? ==> '\n' !in LastDataLine(lines).value
  {
    if lines != [] {
      assert lines[|lines| - 1] in lines;
      DataLineHasNoNewline(lines[..|lines| - 1]);
    }
  }

  /** A data text is one line without surrounding white space. */
  lemma DataIsClean(lines: seq<string>)
    requires LastData(lines) != "" && forall line | line in lines :: '\n' !in line
    ensures Clean(LastData(lines))
  {
    DataLineHasNoNewline(lines);
    TrimBytesIsClean(LastDataLine(lines).value);
  }

  /** The codec that knows one body and writes it as `text`. */
  ghost function OneText<P>(body: Body<P>, text: string): Codec<P> {
    Codec((b: Body<P>) => if b == body then Some(text) else None,
          (s: string) => if s == text then Some(Envelope(body.kind, body.version, body.payload)) else None)
  }

  lemma OneTextIsLawful<P(!new)>(body: Body<P>, text: string)
    requires text != "" && Clean(text)
    ensures Lawful(OneText(body, text))
  {
  }

  lemma UnsafeKindStrays<P(!new)>(e: Emission<P>) returns (codec: Codec<P>)
    requires !SafeKind(KindOf(e))
    ensures Lawful(codec) && Strays(codec, e) != []
  {
    HeaderData(e);
    var blocks := Frames(Header(e)).blocks;
    var k :| 0 <= k < |blocks| && LastData(Lines(blocks[k])) != "";
    var text := LastData(Lines(blocks[k]));
    LinesHaveNoNewline(blocks[k]);
    DataIsClean(Lines(blocks[k]));
    codec := OneText(BodyOf(e), text);
    OneTextIsLawful(BodyOf(e), text);
    assert ParseBlock(codec, blocks[k]) == Some(DriftEvent(KindOf(e), e.version, e.payload, text));
    OneEventSuffices(codec, blocks, k);
  }

  lemma SafeKindHasNoStrays<P>(codec: Codec<P>, e: Emission<P>)
    requires SafeKind(KindOf(e))
    ensures Strays(codec, e) == []
  {
    HeaderData(e);
    NoDataNoEvents(codec, Frames(Header(e)).blocks);
  }

  /** The test on the type is exact: it holds if and only if no lawful codec makes the header report anything. */
  lemma SafeKindExactly<P(!new)>(e: Emission<P>)
    ensures SafeKind(KindOf(e)) <==> forall codec: Codec<P> :: Lawful(codec) ==> Strays(codec, e) == []
  {
    if SafeKind(KindOf(e)) {
      forall codec: Codec<P> | Lawful(codec) ensures Strays(codec, e) == [] {
        SafeKindHasNoStrays(codec, e);
      }
    } else {
      var codec := UnsafeKindStrays(e);
    }
  }

  // ---------- round trips ----------

  /** Reading back what was written gives the events that were written. */
  ghost predicate Returns<P>(codec: Codec<P>, es: seq<Emission<P>>) {
    Events(codec, WriteAll(codec, es)) == DeliveredAll(codec, es)
  }

  /** Writer and reader undo each other under every lawful codec if and only if every event type is safe. */
  lemma RoundTripExactly<P(!new)>(es: seq<Emission<P>>)
    ensures (forall codec: Codec<P> :: Lawful(codec) ==> Returns(codec, es)) <==>
            forall e | e in es :: SafeKind(KindOf(e))
  {
    if e :| e in es && !SafeKind(KindOf(e)) {
      var codec := UnsafeKindStrays(e);
      RoundTripWithoutStrays(codec, es);
      assert !Returns(codec, es);
    } else {
      forall codec: Codec<P> | Lawful(codec) ensures Returns(codec, es) {
        forall e | e in es ensures Strays(codec, e) == [] {
          SafeKindHasNoStrays(codec, e);
        }
        RoundTripWithoutStrays(codec, es);
      }
    }
  }

  /** A newline-free event type is safe. */
  lemma NewlineFreeIsSafe(kind: string)
    requires '\n' !in kind
    ensures SafeKind(kind)
  {
    var s := EventLine(kind);
    forall k ensures !BlankAt(s, k) {
      assert 0 <= k < |s| - 1 ==> s[k] == ("event: " + kind)[k];
    }
    assert IndexBlank(s) == -1;
  }

  /** A type without any blank line need not be safe: its header adds the newline that completes a block. */
  lemma BlankFreeNeedNotBeSafe()
    ensures NoBlank("x\ndata: 1\n") && !SafeKind("x\ndata: 1\n")
  {
    var block := "event: x\ndata: 1";
    assert NoBlank("x\ndata: 1\n");
    assert NoBlank(block + "\n");
    OneBlock(block);
    assert EventLine("x\ndata: 1\n") == block + "\n\n";
    assert DataLine("1") == "data: 1" && block == "event: x" + ("\n" + DataLine("1"));
    DataLineKeepsText("1");
    DataLineAfter("event: x", DataLine("1"));
    assert Frames(EventLine("x\ndata: 1\n")).blocks[0] == block;
  }

  /** Nor need a type with a blank line be unsafe. */
  lemma BlankNeedNotBeUnsafe()
    ensures !NoBlank("x\n\ny") && SafeKind("x\n\ny")
  {
    var s := EventLine("x\n\ny");
    assert BlankAt("x\n\ny", 1);
    FirstBlank(s, 8);
    FramesStep(s);
    assert s[..8] == "event: x" && s[10..] == "y\n";
    assert IndexBlank("y\n") == -1;
    OneLine("event: x");
    LastDataCons("event: x", []);
    assert ["event: x"] + [] == ["event: x"];
  }

  /** Events with newline-free types are collected back as they were written, in every slicing. */
  lemma RoundTrip<P(!new)>(codec: Codec<P>, es: seq<Emission<P>>, slices: seq<string>)
    requires Lawful(codec) && Concat(slices) == WriteAll(codec, es)
    requires forall e | e in es :: '\n' !in e.kind
    ensures Events(codec, Concat(slices)) == DeliveredAll(codec, es)
  {
    forall e | e in es ensures SafeKind(KindOf(e)) {
      NewlineFreeIsSafe(KindOf(e));
    }
    RoundTripExactly(es);
    assert Returns(codec, es);
  }
}
