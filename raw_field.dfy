/** The extractor that pulls the string value of the field `raw` out of one
    line of JSON text (`WMBusJsonTTY::extractRawField`). It is a single
    forward scan, not a JSON parser: find the key, find the next colon, skip
    spaces and tabs, require a double quote, and take everything up to the
    next double quote. Every failure yields the empty string. */
module FieldScanner {
  import opened Base

  /** The key as the scanner first looks for it, quotes included. */
  const QuotedKey: string := "\"raw\""

  /** The fallback: the three letters anywhere in the line. */
  const BareKey: string := "raw"

  predicate OccursAt(s: string, pat: string, i: int) {
    0 <= i && i + |pat| <= |s| && s[i..i + |pat|] == pat
  }

  ghost predicate Contains(s: string, pat: string) {
    exists i :: OccursAt(s, pat, i)
  }

  /** `k` is the position of the first occurrence of `pat` in `s`. */
  ghost predicate FirstAt(s: string, pat: string, k: int) {
    OccursAt(s, pat, k) && forall j :: 0 <= j < k ==> !OccursAt(s, pat, j)
  }

  predicate IsSpaceOrTab(c: char) {
    c == ' ' || c == '\t'
  }

  // ---------------------------------------------------------------------
  // The string library calls the scan is made of. What they find is stated
  // by the lemmas `FindSound`, `FindCharSound` and `SkipSpacesSound`, so
  // that proofs which only unfold the scan do not carry those facts.

  /** `std::string::find(pat, from)`: the first occurrence of `pat` at or
      after `from`, or `None` (`npos`). */
  function Find(s: string, pat: string, from: nat): (r: Option<nat>)
    ensures r.Some? ==> from <= r.value && r.value + |pat| <= |s|
    decreases |s| - from
  {
    if |s| < from + |pat| then None
    else if s[from..from + |pat|] == pat then Some(from)
    else Find(s, pat, from + 1)
  }

  /** `std::string::find` of a one-character string: the first index at or
      after `from` that holds `c`. */
  function FindChar(s: string, c: char, from: nat): (r: Option<nat>)
    ensures r.Some? ==> from <= r.value < |s|
    decreases |s| - from
  {
    if |s| <= from then None
    else if s[from] == c then Some(from)
    else FindChar(s, c, from + 1)
  }

  /** The index reached by skipping a run of spaces and tabs from `i`
      (what the loop of lines 157-162 computes). */
  function SkipSpaces(s: string, i: nat): (j: nat)
    requires i <= |s|
    ensures i <= j <= |s|
    decreases |s| - i
  {
    if i < |s| && IsSpaceOrTab(s[i]) then SkipSpaces(s, i + 1) else i
  }

  // ---------------------------------------------------------------------
  // The scan

  /** Where the key is, as the scanner finds it (lines 144-150). */
  function KeyPos(line: string): Option<nat> {
    match Find(line, QuotedKey, 0)
    case Some(k) => Some(k)
    case None => Find(line, BareKey, 0)
  }

  /** Positions of the pieces of an accepted field: the key, the colon after
      it, the opening quote of the value and its closing quote. */
  datatype Span = Span(key: nat, colon: nat, open: nat, close: nat)

  /** The scan of lines 144-173, returning the positions it settled on. */
  function Locate(line: string): Option<Span> {
    match KeyPos(line)
    case None => None
    case Some(k) => LocateAfterKey(line, k)
  }

  /** The scan from the key on (lines 153-173). */
  function LocateAfterKey(line: string, k: nat): Option<Span> {
    match FindChar(line, ':', k)
    case None => None
    case Some(c) => LocateValue(line, k, c)
  }

  /** The scan from the colon on (lines 157-173). */
  function LocateValue(line: string, k: nat, c: nat): Option<Span>
    requires c < |line|
  {
    var q := SkipSpaces(line, c + 1);
    if q >= |line| || line[q] != '"' then None
    else
      match FindChar(line, '"', q + 1)
      case None => None
      case Some(e) => Some(Span(k, c, q, e))
  }

  /** The value of the `raw` field, or "" when the line has none. */
  function RawField(line: string): string {
    ValueOf(line, Locate(line))
  }

  /** The text between the quotes of a located value. */
  function ValueOf(line: string, r: Option<Span>): string {
    if r.Some? && r.value.open < r.value.close <= |line| then line[r.value.open + 1..r.value.close]
    else ""
  }

  /** The extractor as the source runs it, with its whitespace-skipping
      loop. */
  method ExtractRawField(line: string) returns (hex: string)
    ensures hex == RawField(line)
  {
    NoKeyOrColonNoField(line);
    var rawPos := Find(line, QuotedKey, 0);
    if rawPos.None? {
      rawPos := Find(line, BareKey, 0);
      if rawPos.None? {
        return "";
      }
    }
    assert rawPos == KeyPos(line);
    var colonPos := FindChar(line, ':', rawPos.value);
    if colonPos.None? {
      return "";
    }
    var startPos := colonPos.value + 1;
    while startPos < |line| && IsSpaceOrTab(line[startPos])
      invariant colonPos.value + 1 <= startPos <= |line|
      invariant forall j :: colonPos.value + 1 <= j < startPos ==> IsSpaceOrTab(line[j])
      decreases |line| - startPos
    {
      startPos := startPos + 1;
    }
    ScanFromValue(line, rawPos.value, colonPos.value, startPos);
    if startPos >= |line| || line[startPos] != '"' {
      return "";
    }
    startPos := startPos + 1;
    var endPos := FindChar(line, '"', startPos);
    if endPos.None? {
      return "";
    }
    hex := line[startPos..endPos.value];
  }

  /** The scan gives up when neither key occurs, or when no colon follows
      the key. */
  lemma NoKeyOrColonNoField(line: string)
    ensures KeyPos(line).None? ==> RawField(line) == ""
    ensures KeyPos(line).Some? && FindChar(line, ':', KeyPos(line).value).None? ==> RawField(line) == ""
  {
  }

  /** Once the key and the colon are found and the blanks after the colon
      are skipped up to `q`, the rest of the scan decides the field. */
  lemma ScanFromValue(line: string, k: nat, c: nat, q: nat)
    requires KeyPos(line) == Some(k) && FindChar(line, ':', k) == Some(c)
    requires c + 1 <= q <= |line|
    requires forall j :: c + 1 <= j < q ==> IsSpaceOrTab(line[j])
    requires q == |line| || !IsSpaceOrTab(line[q])
    ensures RawField(line) ==
      if q >= |line| || line[q] != '"' then ""
      else match FindChar(line, '"', q + 1)
        case None => ""
        case Some(e) => line[q + 1..e]
  {
    SkipSpacesEndsAt(line, c + 1, q);
    LocateFromColon(line, k, c);
    ValueAfterBlanks(line, k, c, q);
  }

  lemma ValueAfterBlanks(line: string, k: nat, c: nat, q: nat)
    requires c < |line| && SkipSpaces(line, c + 1) == q
    ensures ValueOf(line, LocateValue(line, k, c)) ==
      if q >= |line| || line[q] != '"' then ""
      else match FindChar(line, '"', q + 1)
        case None => ""
        case Some(e) => line[q + 1..e]
  {
  }

  lemma LocateFromColon(line: string, k: nat, c: nat)
    requires KeyPos(line) == Some(k) && FindChar(line, ':', k) == Some(c)
    ensures RawField(line) == ValueOf(line, LocateValue(line, k, c))
  {
  }

  // ---------------------------------------------------------------------
  // The library calls do what their names say

  lemma {:induction false} FindSound(s: string, pat: string, from: nat)
    ensures Find(s, pat, from).Some? ==> OccursAt(s, pat, Find(s, pat, from).value)
    ensures forall j :: from <= j && (Find(s, pat, from).None? || j < Find(s, pat, from).value)
                        ==> !OccursAt(s, pat, j)
    decreases |s| - from
  {
    if |s| >= from + |pat| && s[from..from + |pat|] != pat {
      FindSound(s, pat, from + 1);
    }
  }

  lemma {:induction false} FindCharSound(s: string, c: char, from: nat)
    ensures FindChar(s, c, from).Some? ==> s[FindChar(s, c, from).value] == c
    ensures forall j :: from <= j < |s| && (FindChar(s, c, from).None? || j < FindChar(s, c, from).value)
                        ==> s[j] != c
    decreases |s| - from
  {
    if from < |s| && s[from] != c {
      FindCharSound(s, c, from + 1);
    }
  }

  lemma {:induction false} SkipSpacesSound(s: string, i: nat)
    requires i <= |s|
    ensures forall k :: i <= k < SkipSpaces(s, i) ==> IsSpaceOrTab(s[k])
    ensures SkipSpaces(s, i) == |s| || !IsSpaceOrTab(s[SkipSpaces(s, i)])
    decreases |s| - i
  {
    if i < |s| && IsSpaceOrTab(s[i]) {
      SkipSpacesSound(s, i + 1);
    }
  }

  /** The skip ends at the first character that is not a space or a tab,
      or at the end of the line. */
  lemma SkipSpacesEndsAt(s: string, from: nat, q: nat)
    requires from <= q <= |s|
    requires forall j :: from <= j < q ==> IsSpaceOrTab(s[j])
    requires q == |s| || !IsSpaceOrTab(s[q])
    ensures SkipSpaces(s, from) == q
  {
    SkipSpacesSound(s, from);
  }

  /** The search for a character stops at its first occurrence. */
  lemma FindCharIs(s: string, c: char, from: nat, r: nat)
    requires from <= r < |s| && s[r] == c
    requires forall j :: from <= j < r ==> s[j] != c
    ensures FindChar(s, c, from) == Some(r)
  {
    FindCharSound(s, c, from);
  }

  // ---------------------------------------------------------------------
  // A reference description of the lines the extractor accepts

  /** The key the scanner settles on: the first quoted key when the line
      has one anywhere, otherwise the first bare occurrence of the letters. */
  ghost predicate IsKey(line: string, k: int) {
    if Contains(line, QuotedKey) then FirstAt(line, QuotedKey, k)
    else FirstAt(line, BareKey, k)
  }

  /** Reference description of a line the extractor accepts, written as a
      property of positions rather than as a scan. */
  ghost predicate Accepted(line: string, sp: Span) {
    IsKey(line, sp.key)
    // the first colon at or after the key
    && sp.key <= sp.colon < |line| && line[sp.colon] == ':'
    && (forall j :: sp.key <= j < sp.colon ==> line[j] != ':')
    // only spaces and tabs up to the opening quote
    && sp.colon < sp.open < |line| && line[sp.open] == '"'
    && (forall j :: sp.colon < j < sp.open ==> IsSpaceOrTab(line[j]))
    // the first quote after the opening one closes the value
    && sp.open < sp.close < |line| && line[sp.close] == '"'
    && (forall j :: sp.open < j < sp.close ==> line[j] != '"')
  }

  /** `v` sits in `line` at index `a`, between two double quotes. */
  predicate QuotedAt(line: string, a: int, v: string) {
    1 <= a && a + |v| < |line|
    && line[a - 1] == '"' && line[a..a + |v|] == v && line[a + |v|] == '"'
  }

  // ---------------------------------------------------------------------
  // Properties of the extractor

  /** A quoted key contains the bare key one character later. */
  lemma QuotedKeyHoldsBareKey(line: string, j: int)
    requires OccursAt(line, QuotedKey, j)
    ensures OccursAt(line, BareKey, j + 1)
  {
    assert line[j + 1..j + 4] == line[j..j + 5][1..4];
  }

  /** The key the scan settles on is the one `IsKey` describes, and it
      finds none only when the letters `raw` occur nowhere. */
  lemma KeyPosSound(line: string)
    ensures KeyPos(line).Some? ==> IsKey(line, KeyPos(line).value)
    ensures KeyPos(line).None? <==> !Contains(line, BareKey)
  {
    FindSound(line, QuotedKey, 0);
    FindSound(line, BareKey, 0);
    if Contains(line, QuotedKey) {
      var j :| OccursAt(line, QuotedKey, j);
      QuotedKeyHoldsBareKey(line, j);
    }
  }

  /** Only one position can be the key. */
  lemma KeyIsUnique(line: string, a: int, b: int)
    requires IsKey(line, a) && IsKey(line, b)
    ensures a == b
  {
  }

  /** The scan settles on the key `IsKey` describes. */
  lemma KeyPosIs(line: string, k: nat)
    requires IsKey(line, k)
    ensures KeyPos(line) == Some(k)
  {
    if Contains(line, QuotedKey) {
      QuotedKeyHoldsBareKey(line, k);
    }
    assert Contains(line, BareKey);
    KeyPosSound(line);
    KeyIsUnique(line, KeyPos(line).value, k);
  }

  /** Soundness of the scan: what it finds fits the reference description. */
  lemma LocateSound(line: string)
    ensures Locate(line).Some? ==> Accepted(line, Locate(line).value)
  {
    if Locate(line).Some? {
      LocateScanned(line, Locate(line).value);
      ScannedAccepted(line, Locate(line).value);
    }
  }

  lemma ScannedAccepted(line: string, sp: Span)
    requires ScannedAs(line, sp)
    ensures Accepted(line, sp)
  {
    KeyPosSound(line);
    FindCharSound(line, ':', sp.key);
    SkipSpacesSound(line, sp.colon + 1);
    FindCharSound(line, '"', sp.open + 1);
  }

  /** Completeness of the scan: every line the reference description accepts
      is found, at exactly the described positions. With `LocateSound`,
      `Locate(line) == Some(sp)` iff `Accepted(line, sp)`. */
  lemma LocateComplete(line: string, sp: Span)
    requires Accepted(line, sp)
    ensures Locate(line) == Some(sp)
  {
    AcceptedScanned(line, sp);
    LocateScanned(line, sp);
  }

  lemma AcceptedScanned(line: string, sp: Span)
    requires Accepted(line, sp)
    ensures ScannedAs(line, sp)
  {
    KeyPosIs(line, sp.key);
    FindCharIs(line, ':', sp.key, sp.colon);
    SkipSpacesEndsAt(line, sp.colon + 1, sp.open);
    FindCharIs(line, '"', sp.open + 1, sp.close);
  }

  /** The results of the individual library calls that make up a scan. */
  predicate ScannedAs(line: string, sp: Span) {
    && KeyPos(line) == Some(sp.key)
    && FindChar(line, ':', sp.key) == Some(sp.colon)
    && SkipSpaces(line, sp.colon + 1) == sp.open
    && sp.open < |line| && line[sp.open] == '"'
    && FindChar(line, '"', sp.open + 1) == Some(sp.close)
  }

  lemma LocateScanned(line: string, sp: Span)
    ensures Locate(line) == Some(sp) <==> ScannedAs(line, sp)
  {
  }

  /** A returned value contains no double quote and sits in the line
      between the opening quote and the next quote. */
  lemma RawFieldIsQuoted(line: string)
    ensures forall i :: 0 <= i < |RawField(line)| ==> RawField(line)[i] != '"'
    ensures RawField(line) != "" ==> exists a :: QuotedAt(line, a, RawField(line))
  {
    LocateSound(line);
    if Locate(line).Some? {
      var sp := Locate(line).value;
      assert QuotedAt(line, sp.open + 1, RawField(line));
    }
  }

  /** A line in which the letters `raw` do not occur has no field. */
  lemma NoKeyNoField(line: string)
    requires !Contains(line, BareKey)
    ensures RawField(line) == ""
  {
    KeyPosSound(line);
  }

  /** The quoted key wins: when `"raw"` occurs anywhere, the key is its first
      occurrence, even if the bare letters occur earlier. */
  lemma QuotedKeyTakesPrecedence(line: string, j: int)
    requires OccursAt(line, QuotedKey, j)
    ensures KeyPos(line).Some?
    ensures OccursAt(line, QuotedKey, KeyPos(line).value) && KeyPos(line).value <= j
  {
    assert Contains(line, QuotedKey);
    QuotedKeyHoldsBareKey(line, j);
    assert Contains(line, BareKey);
    KeyPosSound(line);
  }

  /** Without a quoted key, the first occurrence of the letters `raw` is the
      key, whatever surrounds it. */
  lemma BareKeyFallback(line: string, j: int)
    requires !Contains(line, QuotedKey)
    requires FirstAt(line, BareKey, j)
    ensures KeyPos(line) == Some(j)
  {
    KeyPosIs(line, j);
  }

  /** No colon at or after the key: no field. */
  lemma MissingColonYieldsEmpty(line: string, k: nat)
    requires IsKey(line, k)
    requires forall j :: k <= j < |line| ==> line[j] != ':'
    ensures RawField(line) == ""
  {
    LocateSound(line);
    if Locate(line).Some? {
      KeyIsUnique(line, k, Locate(line).value.key);
    }
  }

  /** After the first colon, the first character that is not a space or a
      tab must be the opening quote: any other character, or the end of the
      line, means no field. */
  lemma NonSpaceBeforeQuoteYieldsEmpty(line: string, k: nat, c: nat, i: nat)
    requires IsKey(line, k)
    requires k <= c < |line| && line[c] == ':'
    requires forall j :: k <= j < c ==> line[j] != ':'
    requires c < i <= |line|
    requires forall j :: c < j < i ==> IsSpaceOrTab(line[j])
    requires i == |line| || (!IsSpaceOrTab(line[i]) && line[i] != '"')
    ensures RawField(line) == ""
  {
    LocateSound(line);
    if Locate(line).Some? {
      var sp := Locate(line).value;
      KeyIsUnique(line, k, sp.key);
    }
  }

  /** An opening quote without a closing one: no field. */
  lemma UnterminatedValueYieldsEmpty(line: string, k: nat, c: nat, q: nat)
    requires IsKey(line, k)
    requires k <= c < |line| && line[c] == ':'
    requires forall j :: k <= j < c ==> line[j] != ':'
    requires c < q < |line| && line[q] == '"'
    requires forall j :: c < j < q ==> IsSpaceOrTab(line[j])
    requires forall j :: q < j < |line| ==> line[j] != '"'
    ensures RawField(line) == ""
  {
    LocateSound(line);
    if Locate(line).Some? {
      var sp := Locate(line).value;
      KeyIsUnique(line, k, sp.key);
    }
  }

  /** A producer's line: the value written as the `raw` field of a JSON
      object, with `gap` after the colon and anything after the value. */
  function Wrapped(gap: string, v: string, rest: string): string {
    "{" + QuotedKey + ":" + gap + "\"" + v + "\"" + rest
  }

  /** Where the pieces of a wrapped line sit. */
  lemma WrappedAccepted(gap: string, v: string, rest: string)
    requires forall j :: 0 <= j < |gap| ==> IsSpaceOrTab(gap[j])
    requires forall j :: 0 <= j < |v| ==> v[j] != '"'
    ensures Accepted(Wrapped(gap, v, rest), Span(1, 6, 7 + |gap|, 8 + |gap| + |v|))
    ensures Wrapped(gap, v, rest)[8 + |gap|..8 + |gap| + |v|] == v
  {
    var line := Wrapped(gap, v, rest);
    var open := 7 + |gap|;
    var close := open + 1 + |v|;
    assert IsKey(line, 1) by {
      assert line[1..6] == QuotedKey;
      assert OccursAt(line, QuotedKey, 1);
      assert line[0] == '{';
    }
    assert line[6] == ':';
    assert forall j :: 6 < j < open ==> IsSpaceOrTab(line[j]) by {
      forall j | 7 <= j < open
        ensures line[j] == gap[j - 7]
      {
      }
    }
    assert line[open] == '"';
    assert forall j :: open < j < close ==> line[j] != '"' by {
      forall j | open < j < close
        ensures line[j] == v[j - open - 1]
      {
      }
    }
    assert line[close] == '"';
  }

  /** Round trip: a value without double quotes, written as the `raw` field
      of a JSON object with any spaces and tabs after the colon, is
      extracted unchanged, whatever follows it. */
  lemma WrappedValueRoundTrip(gap: string, v: string, rest: string)
    requires forall j :: 0 <= j < |gap| ==> IsSpaceOrTab(gap[j])
    requires forall j :: 0 <= j < |v| ==> v[j] != '"'
    ensures RawField(Wrapped(gap, v, rest)) == v
  {
    WrappedAccepted(gap, v, rest);
    LocateComplete(Wrapped(gap, v, rest), Span(1, 6, 7 + |gap|, 8 + |gap| + |v|));
  }

  lemma NoQuoteBeforeR(line: string)
    requires forall i :: 0 <= i < |line| - 1 && line[i] == '"' ==> line[i + 1] != 'r'
    ensures !Contains(line, QuotedKey)
  {
    forall i | 0 <= i
      ensures !OccursAt(line, QuotedKey, i)
    {
      if i + 5 <= |line| {
        assert line[i..i + 5][0] == line[i] && line[i..i + 5][1] == line[i + 1];
      }
    }
  }

  /** A line with no `"raw"` but with the letters `raw` inside another
      name. */
  const DrawLine: string := "{\"draw\":\"x\"}"

  lemma DrawLineAccepted()
    ensures Accepted(DrawLine, Span(3, 7, 8, 10))
  {
    var line := DrawLine;
    assert forall i :: 0 <= i < |line| - 1 && line[i] == '"' ==> line[i + 1] != 'r';
    NoQuoteBeforeR(line);
    assert line[3..6] == BareKey;
    forall j | 0 <= j < 3
      ensures !OccursAt(line, BareKey, j)
    {
      assert line[j..j + 3][0] == line[j] != 'r';
    }
  }

  /** The fallback matches the letters inside a longer name: in
      `{"draw":"x"}` there is no `"raw"`, the letters `raw` of `draw` are
      taken for the key, and the value of `draw` is returned. */
  lemma BareKeyMatchesInsideName()
    ensures RawField(DrawLine) == "x"
  {
    DrawLineAccepted();
    LocateComplete(DrawLine, Span(3, 7, 8, 10));
    assert DrawLine[9..10] == "x";
  }

  /** Backslash escapes are not understood: a value written with an
      escaped quote is cut at that quote, and the backslash is kept. */
  lemma EscapedQuoteTruncates(gap: string, a: string, b: string, rest: string)
    requires forall j :: 0 <= j < |gap| ==> IsSpaceOrTab(gap[j])
    requires forall j :: 0 <= j < |a| ==> a[j] != '"'
    ensures RawField("{" + QuotedKey + ":" + gap + "\"" + a + "\\\"" + b + "\"" + rest) == a + "\\"
  {
    var v := a + "\\";
    assert "{" + QuotedKey + ":" + gap + "\"" + a + "\\\"" + b + "\"" + rest
        == Wrapped(gap, v, b + "\"" + rest);
    assert forall j :: 0 <= j < |v| ==> v[j] != '"' by {
      assert forall j :: 0 <= j < |a| ==> v[j] == a[j];
    }
    WrappedValueRoundTrip(gap, v, b + "\"" + rest);
  }

  /** A line whose key the producer left unquoted. */
  function BareWrapped(gap: string, v: string, rest: string): string {
    "{" + BareKey + ":" + gap + "\"" + v + "\"" + rest
  }

  /** Where the pieces of a line with an unquoted key sit. */
  lemma BareWrappedAccepted(gap: string, v: string, rest: string)
    requires forall j :: 0 <= j < |gap| ==> IsSpaceOrTab(gap[j])
    requires forall j :: 0 <= j < |v| ==> v[j] != '"'
    requires !Contains(BareWrapped(gap, v, rest), QuotedKey)
    ensures Accepted(BareWrapped(gap, v, rest), Span(1, 4, 5 + |gap|, 6 + |gap| + |v|))
    ensures BareWrapped(gap, v, rest)[6 + |gap|..6 + |gap| + |v|] == v
  {
    var line := BareWrapped(gap, v, rest);
    var open := 5 + |gap|;
    var close := open + 1 + |v|;
    assert IsKey(line, 1) by {
      assert line[1..4] == BareKey;
      assert OccursAt(line, BareKey, 1);
      assert line[0] == '{';
    }
    assert line[4] == ':';
    assert forall j :: 4 < j < open ==> IsSpaceOrTab(line[j]) by {
      forall j | 5 <= j < open
        ensures line[j] == gap[j - 5]
      {
      }
    }
    assert line[open] == '"';
    assert forall j :: open < j < close ==> line[j] != '"' by {
      forall j | open < j < close
        ensures line[j] == v[j - open - 1]
      {
      }
    }
    assert line[close] == '"';
    assert line[open + 1..close] == v;
  }

  /** An unquoted key is understood through the fallback, as long as no
      quoted key occurs elsewhere in the line. */
  lemma UnquotedKeyRoundTrip(gap: string, v: string, rest: string)
    requires forall j :: 0 <= j < |gap| ==> IsSpaceOrTab(gap[j])
    requires forall j :: 0 <= j < |v| ==> v[j] != '"'
    requires !Contains(BareWrapped(gap, v, rest), QuotedKey)
    ensures RawField(BareWrapped(gap, v, rest)) == v
  {
    BareWrappedAccepted(gap, v, rest);
    LocateComplete(BareWrapped(gap, v, rest), Span(1, 4, 5 + |gap|, 6 + |gap| + |v|));
  }
}
