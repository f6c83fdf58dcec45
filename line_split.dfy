/** How the receive buffer is cut into lines (the `for(;;)` loop of
    `WMBusJsonTTY::processSerialData`): the first newline byte ends a line,
    the line (without the newline) is handed on, and line and newline are
    erased from the front of the buffer. What is left after the last newline
    waits for more bytes. */
module LineSplit {
  import opened Base

  /** The delimiter, `'\n'`. */
  const Newline: byte := 10

  /** Complete lines, in order, and the bytes after the last newline. */
  datatype Split = Split(lines: seq<seq<byte>>, pending: seq<byte>)

  predicate NewlineFree(s: seq<byte>) {
    forall j :: 0 <= j < |s| ==> s[j] != Newline
  }

  predicate NoNewlines(ls: seq<seq<byte>>) {
    forall i :: 0 <= i < |ls| ==> NewlineFree(ls[i])
  }

  /** `std::find(begin, end, '\n')` from index `from`; what it finds is
      stated by `FindNewlineSound`. */
  function FindNewline(s: seq<byte>, from: nat): (r: Option<nat>)
    ensures r.Some? ==> from <= r.value < |s|
    decreases |s| - from
  {
    if |s| <= from then None
    else if s[from] == Newline then Some(from)
    else FindNewline(s, from + 1)
  }

  /** The bytes that a sequence of lines stands for: each line followed by
      its newline. */
  function Join(ls: seq<seq<byte>>): seq<byte> {
    if ls == [] then [] else ls[0] + [Newline] + Join(ls[1..])
  }

  /** Everything a buffer holding `s` yields, cutting at each first
      newline until none is left. */
  function SplitLines(s: seq<byte>): Split
    decreases |s|
  {
    match FindNewline(s, 0)
    case None => Split([], s)
    case Some(i) =>
      var rest := SplitLines(s[i + 1..]);
      Split([s[..i]] + rest.lines, rest.pending)
  }

  /** One receive: the bytes left over from before, followed by the new
      chunk, are cut into lines; the lines join those cut earlier. */
  function Feed(st: Split, chunk: seq<byte>): Split {
    var r := SplitLines(st.pending + chunk);
    Split(st.lines + r.lines, r.pending)
  }

  /** A sequence of receives, starting from an empty buffer. */
  function FeedAll(chunks: seq<seq<byte>>): Split {
    if chunks == [] then Split([], [])
    else Feed(FeedAll(chunks[..|chunks| - 1]), chunks[|chunks| - 1])
  }

  function Concat(chunks: seq<seq<byte>>): seq<byte> {
    if chunks == [] then [] else Concat(chunks[..|chunks| - 1]) + chunks[|chunks| - 1]
  }

  // ---------------------------------------------------------------------

  /** The search stops at the first newline, and finds none only when there
      is none. */
  lemma {:induction false} FindNewlineSound(s: seq<byte>, from: nat)
    ensures FindNewline(s, from).Some? ==> s[FindNewline(s, from).value] == Newline
    ensures forall j :: from <= j < |s| && (FindNewline(s, from).None? || j < FindNewline(s, from).value)
                        ==> s[j] != Newline
    decreases |s| - from
  {
    if from < |s| && s[from] != Newline {
      FindNewlineSound(s, from + 1);
    }
  }

  lemma {:induction false} JoinAppend(a: seq<seq<byte>>, b: seq<seq<byte>>)
    ensures Join(a + b) == Join(a) + Join(b)
    decreases |a|
  {
    if a != [] {
      assert (a + b)[0] == a[0];
      assert (a + b)[1..] == a[1..] + b;
      JoinAppend(a[1..], b);
      calc {
        Join(a + b);
        a[0] + [Newline] + Join(a[1..] + b);
        a[0] + [Newline] + (Join(a[1..]) + Join(b));
        (a[0] + [Newline] + Join(a[1..])) + Join(b);
      }
    } else {
      assert a + b == b;
    }
  }

  /** One cut conserves bytes: the line before the newline, the newline,
      and whatever the rest stands for make up the buffer again. */
  lemma CutConserves(s: seq<byte>, i: nat, rest: seq<seq<byte>>, pending: seq<byte>)
    requires i < |s| && s[i] == Newline
    requires Join(rest) + pending == s[i + 1..]
    ensures Join([s[..i]] + rest) + pending == s
  {
    var ls := [s[..i]] + rest;
    assert ls[0] == s[..i] && ls[1..] == rest;
    calc {
      Join(ls) + pending;
      s[..i] + [Newline] + Join(rest) + pending;
      s[..i] + [Newline] + (Join(rest) + pending);
      s[..i] + [Newline] + s[i + 1..];
      { assert s == s[..i] + [s[i]] + s[i + 1..]; }
      s;
    }
  }

  lemma NoNewlinesCons(l: seq<byte>, rest: seq<seq<byte>>)
    requires NewlineFree(l) && NoNewlines(rest)
    ensures NoNewlines([l] + rest)
  {
    assert forall i :: 0 < i <= |rest| ==> ([l] + rest)[i] == rest[i - 1];
  }

  /** Cutting one more line off the front of the buffer conserves bytes,
      and the line holds no newline when the cut is at the first one. */
  lemma CutLine(prefix: seq<seq<byte>>, buf: seq<byte>, i: nat)
    requires FindNewline(buf, 0) == Some(i)
    ensures Join(prefix + [buf[..i]]) + buf[i + 1..] == Join(prefix) + buf
    ensures NoNewlines(prefix) ==> NoNewlines(prefix + [buf[..i]])
  {
    FindNewlineSound(buf, 0);
    var l := buf[..i];
    JoinAppend(prefix, [l]);
    assert Join([l]) == l + [Newline] + Join([]);
    calc {
      Join(prefix + [l]) + buf[i + 1..];
      Join(prefix) + (l + [Newline]) + buf[i + 1..];
      Join(prefix) + (l + [Newline] + buf[i + 1..]);
      { assert buf == l + [buf[i]] + buf[i + 1..]; }
      Join(prefix) + buf;
    }
    if NoNewlines(prefix) {
      assert NewlineFree(l);
      NoNewlinesAppend(prefix, [l]);
    }
  }

  /** Bytes are conserved: the lines, each with its newline, followed by
      the pending bytes, are exactly the input; no line and not the
      pending tail holds a newline. */
  lemma {:induction false} SplitLinesSound(s: seq<byte>)
    ensures Join(SplitLines(s).lines) + SplitLines(s).pending == s
    ensures NoNewlines(SplitLines(s).lines)
    ensures NewlineFree(SplitLines(s).pending)
    decreases |s|
  {
    FindNewlineSound(s, 0);
    match FindNewline(s, 0)
    case None =>
    case Some(i) =>
      var rest := SplitLines(s[i + 1..]);
      SplitLinesSound(s[i + 1..]);
      CutConserves(s, i, rest.lines, rest.pending);
      assert NewlineFree(s[..i]);
      NoNewlinesCons(s[..i], rest.lines);
      assert SplitLines(s) == Split([s[..i]] + rest.lines, rest.pending);
  }

  /** The cut is the only one: lines without newlines and a tail without
      one are what `SplitLines` yields on their bytes. */
  lemma {:induction false} SplitLinesUnique(ls: seq<seq<byte>>, tail: seq<byte>)
    requires NoNewlines(ls) && NewlineFree(tail)
    ensures SplitLines(Join(ls) + tail) == Split(ls, tail)
    decreases |ls|
  {
    var s := Join(ls) + tail;
    FindNewlineSound(s, 0);
    if ls == [] {
      assert s == tail;
    } else {
      var l := ls[0];
      assert NewlineFree(l);
      assert s == l + [Newline] + (Join(ls[1..]) + tail);
      assert s[|l|] == Newline;
      assert forall j :: 0 <= j < |l| ==> s[j] == l[j];
      assert FindNewline(s, 0) == Some(|l|);
      assert s[|l| + 1..] == Join(ls[1..]) + tail;
      assert s[..|l|] == l;
      SplitLinesUnique(ls[1..], tail);
      assert ls == [l] + ls[1..];
    }
  }

  lemma NoNewlinesAppend(a: seq<seq<byte>>, b: seq<seq<byte>>)
    requires NoNewlines(a) && NoNewlines(b)
    ensures NoNewlines(a + b)
  {
    assert forall i :: 0 <= i < |a + b| ==> (a + b)[i] == if i < |a| then a[i] else b[i - |a|];
  }

  /** Bytes of two consecutive cuts add up. */
  lemma JoinConcat(la: seq<seq<byte>>, pa: seq<byte>, lr: seq<seq<byte>>, pr: seq<byte>, a: seq<byte>, b: seq<byte>)
    requires Join(la) + pa == a && Join(lr) + pr == pa + b
    ensures a + b == Join(la + lr) + pr
  {
    JoinAppend(la, lr);
    calc {
      a + b;
      (Join(la) + pa) + b;
      Join(la) + (pa + b);
      Join(la) + (Join(lr) + pr);
      (Join(la) + Join(lr)) + pr;
    }
  }

  /** Chunk boundaries do not matter: cutting `a + b` in one go yields the
      same lines and the same pending bytes as cutting `a` and then feeding
      `b` to what was left. */
  lemma ChunkBoundary(a: seq<byte>, b: seq<byte>)
    ensures SplitLines(a + b) == Feed(SplitLines(a), b)
  {
    var sa := SplitLines(a);
    var r := SplitLines(sa.pending + b);
    SplitLinesSound(a);
    SplitLinesSound(sa.pending + b);
    JoinConcat(sa.lines, sa.pending, r.lines, r.pending, a, b);
    NoNewlinesAppend(sa.lines, r.lines);
    SplitLinesUnique(sa.lines + r.lines, r.pending);
  }

  /** However the stream is cut into chunks, feeding the chunks one by one
      yields what cutting the whole stream at once yields. */
  lemma {:induction false} ChunkingIrrelevant(chunks: seq<seq<byte>>)
    ensures FeedAll(chunks) == SplitLines(Concat(chunks))
    decreases |chunks|
  {
    if chunks == [] {
      assert FindNewline([], 0) == None;
    } else {
      var init := chunks[..|chunks| - 1];
      ChunkingIrrelevant(init);
      ChunkBoundary(Concat(init), chunks[|chunks| - 1]);
    }
  }

  /** Two chunkings of the same byte stream yield the same lines and leave
      the same bytes pending. */
  lemma SameStreamSameLines(c1: seq<seq<byte>>, c2: seq<seq<byte>>)
    requires Concat(c1) == Concat(c2)
    ensures FeedAll(c1) == FeedAll(c2)
  {
    ChunkingIrrelevant(c1);
    ChunkingIrrelevant(c2);
  }
}
