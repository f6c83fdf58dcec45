/** What `WMBusJsonTTY::processSerialData` does with one complete line: a
    short-circuiting sequence of checks, each of which may drop the line,
    and the frame handed to `handleTelegram` when none does. */
module FrameDecoder {
  import opened Base
  import opened FieldScanner

  /** Why a line was dropped, one value per `continue` of the loop body. */
  datatype Rejection =
    | BlankLine       // empty, or only spaces, tabs and carriage returns
    | FieldMissing    // `extractRawField` gave ""
    | InvalidHex      // `hex2bin` reported failure
    | EmptyPayload    // `hex2bin` succeeded with no bytes
    | PayloadTooShort // fewer than `MinFrameLength` bytes, before CRC removal
    | EmptyAfterCrc   // nothing left once the CRCs were removed

  datatype Decoded = Frame(bytes: seq<byte>) | Rejected(reason: Rejection)

  /** The helpers defined outside this file, taken as they are: `hex2bin`
      turns text into bytes or fails, `removeAnyDLLCRCs` rewrites a payload.
      Nothing is assumed about either. */
  datatype Collaborators = Collaborators(
    hexToBin: string -> Option<seq<byte>>,
    removeCrcs: seq<byte> -> seq<byte>)

  /** The smallest payload that is taken for a wireless M-Bus frame. */
  const MinFrameLength: nat := 10

  /** The characters `find_first_not_of(" \t\r")` skips. */
  predicate IsBlankChar(c: char) {
    c == ' ' || c == '\t' || c == '\r'
  }

  /** `find_first_not_of(" \t\r", from)`. */
  function FindNonBlank(s: string, from: nat): (r: Option<nat>)
    ensures r.Some? ==> from <= r.value < |s|
    decreases |s| - from
  {
    if |s| <= from then None
    else if !IsBlankChar(s[from]) then Some(from)
    else FindNonBlank(s, from + 1)
  }

  /** The test on line 215: the line is empty or nothing but blanks. */
  predicate IsBlank(line: string) {
    |line| == 0 || FindNonBlank(line, 0).None?
  }

  /** The checks of lines 215-260, in the order the source makes them. */
  function DecodeLine(env: Collaborators, line: seq<byte>): (d: Decoded)
    ensures d.Frame? ==> |d.bytes| > 0
  {
    var text := Text(line);
    if IsBlank(text) then Rejected(BlankLine)
    else
      var hex := RawField(text);
      if hex == "" then Rejected(FieldMissing)
      else
        match env.hexToBin(hex)
        case None => Rejected(InvalidHex)
        case Some(payload) =>
          if |payload| == 0 then Rejected(EmptyPayload)
          else if |payload| < MinFrameLength then Rejected(PayloadTooShort)
          else
            var frame := env.removeCrcs(payload);
            if |frame| == 0 then Rejected(EmptyAfterCrc) else Frame(frame)
  }

  /** The body of the loop of lines 215-269 for one line, check by check,
      each `continue` of the source a `return` of its rejection. Unlike
      `DecodeLine`, it runs the extractor with its whitespace loop
      (`ExtractRawField`), so the device executes the source's scan. */
  method ProcessLine(env: Collaborators, line: seq<byte>) returns (d: Decoded)
    ensures d == DecodeLine(env, line)
  {
    var text := Text(line);
    if IsBlank(text) {
      return Rejected(BlankLine);
    }
    var hex := ExtractRawField(text);
    if hex == "" {
      return Rejected(FieldMissing);
    }
    var payload := env.hexToBin(hex);
    if payload.None? {
      return Rejected(InvalidHex);
    }
    if |payload.value| == 0 {
      return Rejected(EmptyPayload);
    }
    if |payload.value| < MinFrameLength {
      return Rejected(PayloadTooShort);
    }
    var frame := env.removeCrcs(payload.value);
    if |frame| == 0 {
      return Rejected(EmptyAfterCrc);
    }
    return Frame(frame);
  }

  /** What `handleTelegram` receives for one line: its frame, or nothing. */
  function Emitted(d: Decoded): seq<seq<byte>> {
    if d.Frame? then [d.bytes] else []
  }

  /** Every frame dispatched for a sequence of lines, in order. */
  function Dispatches(env: Collaborators, ls: seq<seq<byte>>): seq<seq<byte>> {
    if ls == [] then []
    else Dispatches(env, ls[..|ls| - 1]) + Emitted(DecodeLine(env, ls[|ls| - 1]))
  }

  /** The frames among a sequence of outcomes, in order. */
  function FramesOf(ds: seq<Decoded>): seq<seq<byte>> {
    if ds == [] then [] else FramesOf(ds[..|ds| - 1]) + Emitted(ds[|ds| - 1])
  }

  /** The positions, among `ls`, of the lines that yield a frame. */
  function FrameLines(env: Collaborators, ls: seq<seq<byte>>): seq<nat> {
    if ls == [] then []
    else
      var p := FrameLines(env, ls[..|ls| - 1]);
      if DecodeLine(env, ls[|ls| - 1]).Frame? then p + [|ls| - 1] else p
  }

  // ---------------------------------------------------------------------
  // The blank-line test

  lemma {:induction false} FindNonBlankSound(s: string, from: nat)
    ensures FindNonBlank(s, from).Some? ==> !IsBlankChar(s[FindNonBlank(s, from).value])
    ensures FindNonBlank(s, from).None? ==> forall j :: from <= j < |s| ==> IsBlankChar(s[j])
    decreases |s| - from
  {
    if from < |s| && IsBlankChar(s[from]) {
      FindNonBlankSound(s, from + 1);
    }
  }

  /** A line is skipped as blank exactly when every character of it is a
      space, a tab or a carriage return (the empty line included). */
  lemma IsBlankIff(line: string)
    ensures IsBlank(line) <==> forall i :: 0 <= i < |line| ==> IsBlankChar(line[i])
  {
    FindNonBlankSound(line, 0);
  }

  // ---------------------------------------------------------------------
  // One line

  /** The outcome of each check, stated as a condition on the line: each
      rejection happens exactly when the earlier checks passed and its own
      failed, and a frame is the CRC-stripped payload of the field. */
  lemma DecodeLineCases(env: Collaborators, line: seq<byte>)
    ensures DecodeLine(env, line) == Rejected(BlankLine)
            <==> forall i :: 0 <= i < |line| ==> IsBlankChar(line[i] as char)
    ensures DecodeLine(env, line) == Rejected(FieldMissing)
            <==> !IsBlank(Text(line)) && RawField(Text(line)) == ""
    ensures DecodeLine(env, line) == Rejected(InvalidHex)
            <==> !IsBlank(Text(line)) && RawField(Text(line)) != ""
                 && env.hexToBin(RawField(Text(line))).None?
    ensures DecodeLine(env, line) == Rejected(EmptyPayload)
            <==> !IsBlank(Text(line)) && RawField(Text(line)) != ""
                 && env.hexToBin(RawField(Text(line))) == Some([])
    ensures DecodeLine(env, line) == Rejected(PayloadTooShort)
            <==> !IsBlank(Text(line)) && RawField(Text(line)) != ""
                 && env.hexToBin(RawField(Text(line))).Some?
                 && 0 < |env.hexToBin(RawField(Text(line))).value| < MinFrameLength
    ensures DecodeLine(env, line) == Rejected(EmptyAfterCrc)
            <==> !IsBlank(Text(line)) && RawField(Text(line)) != ""
                 && env.hexToBin(RawField(Text(line))).Some?
                 && |env.hexToBin(RawField(Text(line))).value| >= MinFrameLength
                 && env.removeCrcs(env.hexToBin(RawField(Text(line))).value) == []
    ensures DecodeLine(env, line).Frame?
            <==> !IsBlank(Text(line)) && RawField(Text(line)) != ""
                 && env.hexToBin(RawField(Text(line))).Some?
                 && |env.hexToBin(RawField(Text(line))).value| >= MinFrameLength
                 && |env.removeCrcs(env.hexToBin(RawField(Text(line))).value)| > 0
    ensures DecodeLine(env, line).Frame?
            ==> DecodeLine(env, line).bytes == env.removeCrcs(env.hexToBin(RawField(Text(line))).value)
  {
    var text := Text(line);
    IsBlankIff(text);
    assert forall i :: 0 <= i < |line| ==> text[i] == line[i] as char;
  }

  /** A line in which the letters `raw` do not occur is dropped, as blank or
      for want of a field, whatever the helpers do. */
  lemma NoKeyNotDispatched(env: Collaborators, line: seq<byte>)
    requires !Contains(Text(line), BareKey)
    ensures DecodeLine(env, line) in {Rejected(BlankLine), Rejected(FieldMissing)}
  {
    NoKeyNoField(Text(line));
  }

  /** A payload of fewer than `MinFrameLength` bytes is dropped before the
      CRC removal runs: every normalizer gives the same outcome, and so does
      every rejection made before that step. */
  lemma ChecksPrecedeCrcRemoval(env: Collaborators, crc: seq<byte> -> seq<byte>, line: seq<byte>)
    requires DecodeLine(env, line).Rejected? && DecodeLine(env, line).reason != EmptyAfterCrc
    ensures DecodeLine(env.(removeCrcs := crc), line) == DecodeLine(env, line)
  {
  }

  /** From a producer's line to the frame: a `raw` field holding hex text
      that `hex2bin` accepts and that survives the size checks is handed on
      as the CRC-stripped payload. */
  lemma WrappedLineDispatched(env: Collaborators, gap: string, v: string, rest: string, payload: seq<byte>)
    requires forall j :: 0 <= j < |gap| ==> IsSpaceOrTab(gap[j])
    requires forall j :: 0 <= j < |v| ==> v[j] != '"'
    requires forall j :: 0 <= j < |Wrapped(gap, v, rest)| ==> IsByteChar(Wrapped(gap, v, rest)[j])
    requires v != "" && env.hexToBin(v) == Some(payload)
    requires |payload| >= MinFrameLength && |env.removeCrcs(payload)| > 0
    ensures DecodeLine(env, Latin1(Wrapped(gap, v, rest))) == Frame(env.removeCrcs(payload))
  {
    var w := Wrapped(gap, v, rest);
    WrappedValueRoundTrip(gap, v, rest);
    assert Text(Latin1(w)) == w;
    assert w[0] == '{';
    IsBlankIff(w);
  }

  // ---------------------------------------------------------------------
  // Many lines

  /** A further line adds its frame, if any, and nothing else: skipped
      lines are not dispatched. */
  lemma DispatchesSnoc(env: Collaborators, ls: seq<seq<byte>>, l: seq<byte>)
    ensures Dispatches(env, ls + [l]) == Dispatches(env, ls) + Emitted(DecodeLine(env, l))
  {
    assert (ls + [l])[..|ls|] == ls;
  }

  lemma {:induction false} DispatchesAppend(env: Collaborators, a: seq<seq<byte>>, b: seq<seq<byte>>)
    ensures Dispatches(env, a + b) == Dispatches(env, a) + Dispatches(env, b)
    decreases |b|
  {
    if b == [] {
      assert a + b == a;
    } else {
      var init := b[..|b| - 1];
      var l := b[|b| - 1];
      assert b == init + [l];
      assert a + b == (a + init) + [l];
      DispatchesSnoc(env, a + init, l);
      DispatchesSnoc(env, init, l);
      DispatchesAppend(env, a, init);
    }
  }

  /** The frame lines are exactly the lines that yield a frame, listed
      once each in increasing order. */
  lemma {:induction false} FrameLinesSound(env: Collaborators, ls: seq<seq<byte>>)
    ensures forall k :: 0 <= k < |FrameLines(env, ls)|
              ==> FrameLines(env, ls)[k] < |ls| && DecodeLine(env, ls[FrameLines(env, ls)[k]]).Frame?
    ensures forall k, m :: 0 <= k < m < |FrameLines(env, ls)| ==> FrameLines(env, ls)[k] < FrameLines(env, ls)[m]
    ensures forall i :: 0 <= i < |ls| && DecodeLine(env, ls[i]).Frame? ==> i in FrameLines(env, ls)
    decreases |ls|
  {
    if ls != [] {
      var init := ls[..|ls| - 1];
      FrameLinesSound(env, init);
      assert forall i :: 0 <= i < |init| ==> init[i] == ls[i];
    }
  }

  /** A further outcome adds its frame, if it is one, and nothing else. */
  lemma FramesOfSnoc(ds: seq<Decoded>, d: Decoded)
    ensures d.Frame? ==> FramesOf(ds + [d]) == FramesOf(ds) + [d.bytes]
    ensures d.Rejected? ==> FramesOf(ds + [d]) == FramesOf(ds)
  {
    assert (ds + [d])[..|ds|] == ds;
  }

  /** `ds` lists the outcome of each line of `ls`. */
  ghost predicate DecodedAs(env: Collaborators, ls: seq<seq<byte>>, ds: seq<Decoded>) {
    |ds| == |ls| && forall k :: 0 <= k < |ls| ==> ds[k] == DecodeLine(env, ls[k])
  }

  lemma DecodedAsSnoc(env: Collaborators, ls: seq<seq<byte>>, ds: seq<Decoded>, l: seq<byte>, d: Decoded)
    requires DecodedAs(env, ls, ds) && d == DecodeLine(env, l)
    ensures DecodedAs(env, ls + [l], ds + [d])
  {
  }

  /** The frames dispatched for some lines are the frames among their
      outcomes, however those outcomes were obtained. */
  lemma {:induction false} DispatchesAreFrames(env: Collaborators, ls: seq<seq<byte>>, ds: seq<Decoded>)
    requires DecodedAs(env, ls, ds)
    ensures Dispatches(env, ls) == FramesOf(ds)
    decreases |ls|
  {
    if ls != [] {
      var n := |ls| - 1;
      assert forall k :: 0 <= k < n ==> ds[..n][k] == DecodeLine(env, ls[..n][k]);
      DispatchesAreFrames(env, ls[..n], ds[..n]);
    }
  }

  /** At most one frame per line, in line order: the k-th frame dispatched
      is the frame of the k-th line that yields one. */
  lemma {:induction false} DispatchesInLineOrder(env: Collaborators, ls: seq<seq<byte>>)
    ensures |Dispatches(env, ls)| == |FrameLines(env, ls)| <= |ls|
    ensures forall k :: 0 <= k < |FrameLines(env, ls)|
              ==> FrameLines(env, ls)[k] < |ls|
                  && DecodeLine(env, ls[FrameLines(env, ls)[k]]) == Frame(Dispatches(env, ls)[k])
    decreases |ls|
  {
    if ls != [] {
      var n := |ls| - 1;
      var init := ls[..n];
      DispatchesInLineOrder(env, init);
      var d := Dispatches(env, init);
      var p := FrameLines(env, init);
      assert forall k :: 0 <= k < |p| ==> p[k] < n && ls[p[k]] == init[p[k]];
      if DecodeLine(env, ls[n]).Frame? {
        assert Dispatches(env, ls) == d + [DecodeLine(env, ls[n]).bytes];
        assert FrameLines(env, ls) == p + [n];
      } else {
        assert Dispatches(env, ls) == d;
        assert FrameLines(env, ls) == p;
      }
    }
  }

  /** Every frame handed on is non-empty. */
  lemma DispatchedFramesNonEmpty(env: Collaborators, ls: seq<seq<byte>>)
    ensures forall k :: 0 <= k < |Dispatches(env, ls)| ==> |Dispatches(env, ls)[k]| > 0
  {
    DispatchesInLineOrder(env, ls);
  }
}
