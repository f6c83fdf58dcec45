/** The receive side of the JSON-over-TTY bus device: bytes arrive in
    arbitrary chunks, are collected in a read buffer, and each complete line
    is taken out of the buffer and run through the checks of `FrameDecoder`;
    the frames that survive are handed to the telegram handler. */
module JsonTty {
  import opened Base
  import opened LineSplit
  import opened FrameDecoder

  /** Between calls: the buffer holds no newline, the lines and the buffer
      are what cutting the whole received stream yields, and the handler has
      seen exactly the frames of those lines. */
  ghost predicate Reassembled(env: Collaborators, received: seq<byte>, lines: seq<seq<byte>>,
                              buffer: seq<byte>, dispatched: seq<seq<byte>>) {
    && NewlineFree(buffer)
    && SplitLines(received) == Split(lines, buffer)
    && dispatched == Dispatches(env, lines)
  }

  /** Nothing received is lost or duplicated: the lines taken out, each with
      its newline, followed by the buffer, are the received bytes, and no
      line holds a newline. */
  lemma ReassembledConservesBytes(env: Collaborators, received: seq<byte>, lines: seq<seq<byte>>,
                                  buffer: seq<byte>, dispatched: seq<seq<byte>>)
    requires Reassembled(env, received, lines, buffer, dispatched)
    ensures Join(lines) + buffer == received
    ensures NoNewlines(lines)
  {
    SplitLinesSound(received);
  }

  lemma AppendOne(before: seq<seq<byte>>, frames: seq<seq<byte>>, frame: seq<byte>)
    ensures before + frames + [frame] == before + (frames + [frame])
  {
  }

  /** The received stream alone determines the buffer and the frames. */
  lemma ReassembledDetermined(env: Collaborators, received: seq<byte>, lines: seq<seq<byte>>,
                              buffer: seq<byte>, dispatched: seq<seq<byte>>)
    requires Reassembled(env, received, lines, buffer, dispatched)
    ensures buffer == SplitLines(received).pending
    ensures dispatched == Dispatches(env, SplitLines(received).lines)
  {
  }

  /** Whatever chunks the stream arrived in, the state reached by feeding
      them one by one is the state the whole stream determines. */
  lemma ChunkedStreamReassembled(env: Collaborators, chunks: seq<seq<byte>>)
    ensures Reassembled(env, Concat(chunks), FeedAll(chunks).lines, FeedAll(chunks).pending,
                        Dispatches(env, FeedAll(chunks).lines))
  {
    ChunkingIrrelevant(chunks);
    SplitLinesSound(Concat(chunks));
  }

  class JsonTtyDevice {
    /** `hex2bin` and `removeAnyDLLCRCs`, as this device sees them. */
    const env: Collaborators

    /** `read_buffer_`: bytes received after the last newline. */
    var readBuffer: seq<byte>

    /** The frames passed to `handleTelegram`, oldest first. */
    var dispatched: seq<seq<byte>>

    /** Every byte ever received. */
    ghost var received: seq<byte>

    /** Every line ever cut from the buffer, oldest first. */
    ghost var lines: seq<seq<byte>>

    /** Between calls the device state is what the received stream
        determines. */
    ghost predicate Valid()
      reads this
    {
      Reassembled(env, received, lines, readBuffer, dispatched)
    }

    constructor(env: Collaborators)
      ensures Valid()
      ensures this.env == env && readBuffer == [] && dispatched == []
      ensures received == [] && lines == []
    {
      this.env := env;
      readBuffer := [];
      dispatched := [];
      received := [];
      lines := [];
      new;
      assert FindNewline([], 0) == None;
    }

    /** One call with the chunk `data` that the serial link delivered:
        append it to the buffer, then take out and decode every complete
        line. */
    method ProcessSerialData(data: seq<byte>)
      requires Valid()
      modifies this
      ensures Valid()
      ensures received == old(received) + data
      ensures NewlineFree(readBuffer)
      ensures lines == old(lines) + SplitLines(old(readBuffer) + data).lines
      ensures readBuffer == SplitLines(old(readBuffer) + data).pending
      ensures Join(lines[|old(lines)|..]) + readBuffer == old(readBuffer) + data
      ensures dispatched == old(dispatched) + Dispatches(env, lines[|old(lines)|..])
    {
      readBuffer := readBuffer + data;
      ghost var cut, outcomes := DrainLines();
      DispatchesAreFrames(env, cut, outcomes);
      received := received + data;
      lines := lines + cut;
      SplitLinesUnique(cut, readBuffer);
      assert lines[|old(lines)|..] == cut;
      ChunkBoundary(old(received), data);
      DispatchesAppend(env, old(lines), cut);
    }

    /** The `for(;;)` loop of lines 198-270: while the buffer holds a
        newline, cut the line before it out of the buffer, erase the line and
        the newline, and hand the line's frame, if any, to the handler.
        Returns the lines cut and what became of each, in order. */
    method DrainLines() returns (ghost cut: seq<seq<byte>>, ghost outcomes: seq<Decoded>)
      modifies this`readBuffer, this`dispatched
      ensures Join(cut) + readBuffer == old(readBuffer)
      ensures NoNewlines(cut) && NewlineFree(readBuffer)
      ensures DecodedAs(env, cut, outcomes)
      ensures dispatched == old(dispatched) + FramesOf(outcomes)
    {
      cut, outcomes := [], [];
      while true
        invariant Join(cut) + readBuffer == old(readBuffer)
        invariant NoNewlines(cut)
        invariant DecodedAs(env, cut, outcomes)
        invariant dispatched == old(dispatched) + FramesOf(outcomes)
        decreases |readBuffer|
      {
        var newline := FindNewline(readBuffer, 0);
        if newline.None? {
          FindNewlineSound(readBuffer, 0);
          break;
        }
        var line := readBuffer[..newline.value];
        CutLine(cut, readBuffer, newline.value);
        readBuffer := readBuffer[newline.value + 1..];
        var decoded := ProcessLine(env, line);
        FramesOfSnoc(outcomes, decoded);
        DecodedAsSnoc(env, cut, outcomes, line, decoded);
        if decoded.Frame? {
          AppendOne(old(dispatched), FramesOf(outcomes), decoded.bytes);
          dispatched := dispatched + [decoded.bytes];
        }
        cut, outcomes := cut + [line], outcomes + [decoded];
      }
    }
  }

  /** A new device fed `chunks` one call at a time: it ends with the
      buffer and the handled frames that the concatenated stream determines,
      whatever the chunk boundaries. */
  method Deliver(env: Collaborators, chunks: seq<seq<byte>>)
    returns (frames: seq<seq<byte>>, buffer: seq<byte>)
    ensures frames == Dispatches(env, SplitLines(Concat(chunks)).lines)
    ensures buffer == SplitLines(Concat(chunks)).pending
  {
    var device := new JsonTtyDevice(env);
    var k := 0;
    while k < |chunks|
      invariant k <= |chunks|
      invariant device.env == env && device.Valid()
      invariant device.received == Concat(chunks[..k])
    {
      assert chunks[..k + 1][..k] == chunks[..k];
      device.ProcessSerialData(chunks[k]);
      k := k + 1;
    }
    assert chunks[..k] == chunks;
    ReassembledDetermined(env, device.received, device.lines, device.readBuffer, device.dispatched);
    frames, buffer := device.dispatched, device.readBuffer;
  }

  /** Chunk boundaries do not matter to the device: one device fed `a` and
      then `b`, and another fed `a + b` in one call, end with the same read
      buffer and have handed the same frames to the handler. */
  method SplitDeliveryIrrelevant(env: Collaborators, a: seq<byte>, b: seq<byte>)
    returns (framesSplit: seq<seq<byte>>, framesWhole: seq<seq<byte>>,
             bufferSplit: seq<byte>, bufferWhole: seq<byte>)
    ensures framesSplit == framesWhole && bufferSplit == bufferWhole
  {
    framesSplit, bufferSplit := Deliver(env, [a, b]);
    framesWhole, bufferWhole := Deliver(env, [a + b]);
    assert Concat([a, b]) == Concat([a]) + b == a + b;
    assert Concat([a + b]) == a + b;
  }
}
