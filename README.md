# JSON-over-TTY bus device: line reassembly and frame extraction

This project models the receive path of the `jsontty` bus device of
wmbusmeters (`src/wmbus_jsontty.cc`). The device reads a byte stream from a
serial line or a spawned command. The stream carries one JSON object per
line, and the hex text of a wireless M-Bus telegram sits in a string field
called `raw`.

The model covers two members of the device.

- `WMBusJsonTTY::extractRawField` is a hand-rolled scanner. It finds `"raw"`,
  or failing that the bare letters `raw`. It then finds the first `:` at or
  after that position, skips spaces and tabs, requires an opening `"`, and
  returns the text up to the next `"`. Every failure gives `""`.
  - Module `FieldScanner` models it in two forms. `Locate`/`RawField` are
    functions that make the same library calls in the same order.
    `ExtractRawField` is a method with the source's whitespace-skipping
    `while` loop, proved equal to `RawField`.
  - `Accepted` is an independent description of an accepted line, stated over
    positions. It names the first key, the first colon after it, only blanks
    up to an opening quote, and the first closing quote after that.
  - `LocateSound` and `LocateComplete` prove that the scan and `Accepted`
    agree in both directions. The properties of the scanner are proved from
    that agreement.
- `WMBusJsonTTY::processSerialData` is modelled in three modules.
  - `JsonTty.JsonTtyDevice` is a class. Its field `readBuffer` stands for
    `read_buffer_`. Its field `dispatched` logs the frames passed to
    `handleTelegram`. Ghost fields record every byte received and every line
    cut so far.
  - `ProcessSerialData(data)` appends the chunk that `serial()->receive`
    delivered. It then runs `DrainLines`, which holds the `for(;;)` loop of
    lines 198-270. The loop finds the first `'\n'`, cuts the line out of the
    buffer, erases the line and its newline, and runs the line through the
    checks.
  - `FrameDecoder.ProcessLine` performs those checks one at a time. Each
    `continue` of the source becomes a `return` of a `Rejection`.
    `FrameDecoder.DecodeLine` is the function that specifies it. The two
    differ in one respect: `ProcessLine` runs the loop version of the
    extractor, `ExtractRawField`, so the device executes the source's
    whitespace loop.
  - `LineSplit` describes the cutting of a byte stream into lines as
    functions. It proves that bytes are conserved, that the cut is unique,
    and that chunk boundaries do not matter.
  - The class invariant `Valid` says the lines cut and the bytes left in the
    buffer are exactly what cutting the whole received stream yields. It also
    says the handler has seen exactly the frames of those lines, in order.

The helpers `hex2bin` and `removeAnyDLLCRCs` are defined in other files of the
repository. They become the two function-valued fields of a `Collaborators`
value. Nothing is assumed about either, so every result about frames holds
whatever they do. `serial()->receive` becomes the `data` parameter.
`handleTelegram` becomes an append to `dispatched`.

The field name is hard-coded as `raw` at lines 144 and 148, so the model has
no field-name parameter.

## Model

| member | source | states |
|---|---|---|
| `Base.Text` | src/wmbus_jsontty.cc:209 | The text built from the bytes of a line has one character per byte, in order, each with the byte's value. |
| `FieldScanner.Find` | src/wmbus_jsontty.cc:144-148 | A position that `std::string::find` reports lies at or after the start and leaves room for the whole pattern. |
| `FieldScanner.FindSound` | src/wmbus_jsontty.cc:144-148 | `find` reports an occurrence of the pattern. No earlier position from the start holds one. It reports none only when no position does. |
| `FieldScanner.FindChar` | src/wmbus_jsontty.cc:153-173 | A position reported by the one-character `find` (`":"`, `"\""`) lies inside the line, at or after the start. |
| `FieldScanner.FindCharSound` | src/wmbus_jsontty.cc:153-173 | The one-character `find` reports the first occurrence from the start, and none only when the character does not occur there. |
| `FieldScanner.SkipSpaces` | src/wmbus_jsontty.cc:157-162 | The whitespace skip stops inside the line or at its end, never before the start. |
| `FieldScanner.SkipSpacesSound` | src/wmbus_jsontty.cc:157-162 | Every character skipped is a space or a tab. The skip stops at the end of the line or at a character that is neither. |
| `FieldScanner.ExtractRawField` | src/wmbus_jsontty.cc:139-181 | The extractor with its whitespace loop returns exactly `RawField(line)`. |
| `FieldScanner.KeyPosSound` | src/wmbus_jsontty.cc:144-149 | The key is the first `"raw"` if one occurs, and otherwise the first `raw`. There is no key exactly when the letters `raw` occur nowhere. |
| `FieldScanner.KeyPosIs` | src/wmbus_jsontty.cc:144-149 | Conversely, the position described that way is the one the scan takes. |
| `FieldScanner.LocateSound` | src/wmbus_jsontty.cc:144-176 | Every span the scan settles on satisfies `Accepted`: first key, first colon at or after it, only spaces and tabs, an opening quote, and the first quote after it. |
| `FieldScanner.LocateComplete` | src/wmbus_jsontty.cc:144-176 | Every span that satisfies `Accepted` is the one the scan returns. With `LocateSound`, the scan finds `sp` iff `Accepted(line, sp)`. |
| `FieldScanner.RawFieldIsQuoted` | src/wmbus_jsontty.cc:169-176 | The returned value contains no `"`. A non-empty value occurs in the line right after a `"` and right before a `"`. |
| `FieldScanner.NoKeyNoField` | src/wmbus_jsontty.cc:144-149 | A line in which the letters `raw` do not occur yields `""`. |
| `FieldScanner.QuotedKeyTakesPrecedence` | src/wmbus_jsontty.cc:144-148 | When `"raw"` occurs anywhere, the key is its first occurrence, even if bare `raw` occurs earlier in the line. |
| `FieldScanner.BareKeyFallback` | src/wmbus_jsontty.cc:145-149 | When `"raw"` occurs nowhere, the key is the first occurrence of `raw`. |
| `FieldScanner.MissingColonYieldsEmpty` | src/wmbus_jsontty.cc:152-154 | With no `:` at or after the key, the result is `""`. |
| `FieldScanner.NonSpaceBeforeQuoteYieldsEmpty` | src/wmbus_jsontty.cc:156-168 | The first character after the colon that is not a space or a tab may be something other than `"`, or the line may end first. Either way the result is `""`. |
| `FieldScanner.UnterminatedValueYieldsEmpty` | src/wmbus_jsontty.cc:169-173 | An opening quote with no later `"` yields `""`. |
| `FieldScanner.WrappedValueRoundTrip` | src/wmbus_jsontty.cc:139-181 | Take a quote-free value written as `{"raw":<spaces/tabs>"v"` followed by anything. The extractor returns `v` unchanged. |
| `FieldScanner.UnquotedKeyRoundTrip` | src/wmbus_jsontty.cc:145-149 | Take a value written as `{raw:<spaces/tabs>"v"` with no `"raw"` anywhere in the line. The fallback returns `v`. |
| `FieldScanner.BareKeyMatchesInsideName` | src/wmbus_jsontty.cc:145-149 | The fallback matches the letters inside a longer name: `{"draw":"x"}` yields `x`. |
| `FieldScanner.EscapedQuoteTruncates` | src/wmbus_jsontty.cc:171-176 | Escapes are not understood. A value written with `\"` is cut at that quote, and the backslash is kept. |
| `LineSplit.FindNewline` | src/wmbus_jsontty.cc:201-202 | A newline position that `std::find` reports lies inside the buffer, at or after the start. |
| `LineSplit.FindNewlineSound` | src/wmbus_jsontty.cc:201-206 | `std::find` reports the first `'\n'`, and reports none only when the buffer holds no newline. |
| `LineSplit.CutLine` | src/wmbus_jsontty.cc:208-212 | Taking out the line before the first newline and erasing it with the newline loses and adds no byte. The line holds no newline. |
| `LineSplit.SplitLinesSound` | src/wmbus_jsontty.cc:195-212 | Byte conservation: the lines, each followed by `'\n'`, then the bytes left over, are exactly the input. No line and not the remainder holds a newline. |
| `LineSplit.SplitLinesUnique` | src/wmbus_jsontty.cc:198-212 | Conversely, newline-free lines joined with newlines, followed by a newline-free tail, are cut back into exactly those lines and that tail. |
| `LineSplit.ChunkBoundary` | src/wmbus_jsontty.cc:195-212 | Cutting `a + b` in one go gives the same lines and the same leftover as cutting `a`, then appending `b` to the leftover and cutting again. |
| `LineSplit.ChunkingIrrelevant` | src/wmbus_jsontty.cc:195-212 | Feeding any sequence of chunks one at a time gives what cutting their concatenation at once gives. |
| `LineSplit.SameStreamSameLines` | src/wmbus_jsontty.cc:195-212 | Two chunkings of the same byte stream give the same lines and leave the same bytes pending. |
| `FrameDecoder.FindNonBlank` | src/wmbus_jsontty.cc:215 | A position reported by `find_first_not_of(" \t\r")` lies inside the line, at or after the start. |
| `FrameDecoder.FindNonBlankSound` | src/wmbus_jsontty.cc:215 | `find_first_not_of` reports a character other than space, tab and CR. It reports none only when every character from the start is one of those. |
| `FrameDecoder.IsBlankIff` | src/wmbus_jsontty.cc:215-218 | A line is skipped as blank iff every character is a space, a tab or a carriage return. The empty line counts as blank. |
| `FrameDecoder.DecodeLine` | src/wmbus_jsontty.cc:260-269 | A line never yields an empty frame. |
| `FrameDecoder.ProcessLine` | src/wmbus_jsontty.cc:214-264 | The check-by-check body of the loop returns exactly `DecodeLine(env, line)`. |
| `FrameDecoder.DecodeLineCases` | src/wmbus_jsontty.cc:214-264 | `BlankLine` iff all characters are blanks. `FieldMissing` iff the line is not blank and the field is `""`. With a non-blank line and a non-empty field: `InvalidHex` iff `hex2bin` rejects it, `EmptyPayload` iff it gives no bytes, `PayloadTooShort` iff it gives 1 to 9 bytes, `EmptyAfterCrc` iff it gives at least 10 bytes and CRC removal leaves none. A frame iff every check passes (hex accepted, at least 10 bytes, non-empty after CRC removal). A frame is `removeAnyDLLCRCs(hex2bin(extractRawField(line)))`. |
| `FrameDecoder.NoKeyNotDispatched` | src/wmbus_jsontty.cc:222-228 | A line in which `raw` does not occur is rejected as blank or as missing its field, whatever the helpers do. |
| `FrameDecoder.ChecksPrecedeCrcRemoval` | src/wmbus_jsontty.cc:230-257 | Every rejection other than "empty after CRC removal" comes before CRC removal. It stays the same whatever `removeAnyDLLCRCs` does, and this includes payloads shorter than 10 bytes. |
| `FrameDecoder.WrappedLineDispatched` | src/wmbus_jsontty.cc:209-269 | A producer's line `{"raw":"v"...}` whose hex `hex2bin` accepts, at least 10 bytes long and non-empty after CRC removal, yields the CRC-stripped payload as its frame. |
| `FrameDecoder.DispatchesSnoc` | src/wmbus_jsontty.cc:214-269 | A further line adds its frame, if it has one, and nothing else: skipped lines dispatch nothing. |
| `FrameDecoder.DispatchesAppend` | src/wmbus_jsontty.cc:198-270 | The frames of two consecutive runs of lines are the frames of the first run followed by those of the second. |
| `FrameDecoder.FrameLinesSound` | src/wmbus_jsontty.cc:198-270 | The indices of frame-yielding lines are strictly increasing. Each names a line that yields a frame, and every such line is listed. |
| `FrameDecoder.DispatchesInLineOrder` | src/wmbus_jsontty.cc:198-270 | At most one dispatch per line, in line order: the k-th frame dispatched is the frame of the k-th line that yields one. |
| `FrameDecoder.DispatchedFramesNonEmpty` | src/wmbus_jsontty.cc:260-269 | Every dispatched frame is non-empty. |
| `JsonTty.ReassembledConservesBytes` | src/wmbus_jsontty.cc:195-212 | In a consistent state, the lines cut, each followed by `'\n'`, and then the buffer, are exactly the bytes received. No line holds a newline. |
| `JsonTty.Deliver` | src/wmbus_jsontty.cc:183-271 | A new device fed any sequence of chunks, one `processSerialData` call each, ends with the read buffer and the handled frames that the concatenated stream determines: the frames of its lines, in order, and the bytes after its last newline. |
| `JsonTty.SplitDeliveryIrrelevant` | src/wmbus_jsontty.cc:183-271 | Two new devices, one fed `a` and then `b`, the other fed `a + b` in one call, end with the same read buffer and the same frames handed to `handleTelegram`. |
| `JsonTty.ChunkedStreamReassembled` | src/wmbus_jsontty.cc:195-212 | Whatever chunks the stream arrived in, feeding them one by one reaches the consistent state that the whole stream determines. |
| `JsonTty.JsonTtyDevice.constructor` | src/wmbus_jsontty.cc:54 | A new device has an empty read buffer, as the default-constructed `read_buffer_` gives. The constructor body at lines 96-103 leaves the buffer alone. The device has dispatched nothing and is consistent. |
| `JsonTty.JsonTtyDevice.ProcessSerialData` | src/wmbus_jsontty.cc:183-271 | The device stays consistent (`Valid`). After the call no `'\n'` is left in the buffer. The new lines are those cut from the old buffer plus `data`, and the buffer holds what follows the last newline. Together they conserve the bytes. Exactly the frames of the new lines are dispatched, in order. |
| `JsonTty.JsonTtyDevice.DrainLines` | src/wmbus_jsontty.cc:198-270 | The loop ends with no newline in the buffer. The lines cut, followed by the buffer, are the old buffer. Each line's outcome is `DecodeLine` of it, and the dispatched frames grow by exactly the frames among those outcomes. |

## Left out

- `openJsonTTY` builds the transport: it spawns `/bin/sh -c`, creates the TTY, handles the serial override and the 115200 default. This is I/O through a manager defined elsewhere.
- The source constructor logs and calls the base-class `reset()`, which is not in this file and is not modelled. `deviceReset` only logs. `JsonTtyDevice.constructor` only sets up the empty buffer.
- The fixed-answer capability members are left out: `ping`, `getDeviceId`, `getDeviceUniqueId`, `getLinkModes`, `deviceSetLinkModes`, `supportedLinkModes`, `numConcurrentLinkModes`, `canSetLinkModes`, `simulate` and `detectJsonTTY`. They return constants or the never-assigned member `link_modes_`, or do nothing.
- The members `link_modes_` and `received_payload_` are never used by the modelled code.
- `hex2bin` and `removeAnyDLLCRCs` live in other files and are not part of this model. They are taken as arbitrary functions. No odd-length rejection and no CRC layout is assumed.
- `handleTelegram` is defined elsewhere. Only the frame passed to it is recorded. The `AboutTelegram` metadata it also receives is not modelled: empty origin, 0, `LinkMode::UNKNOWN`, `FrameType::WMBUS`.
- `serial()->receive` is I/O. Its result is the `data` parameter of `ProcessSerialData`.
- The `debug`, `verbose` and `warning` calls are left out. The reason for a drop is the `Rejection` value instead.
- The pthread and semaphore includes are not modelled. Nothing in this file is concurrent.
- The read buffer is unbounded in the source and in the model. Memory exhaustion is not modelled.
- `FieldScanner.Find`: its own contract only bounds the result. What it finds is stated by `FieldScanner.FindSound`.
- `FieldScanner.FindChar`: its own contract only bounds the result. What it finds is stated by `FieldScanner.FindCharSound`.
- `FieldScanner.SkipSpaces`: its own contract only bounds the result. What it skips is stated by `FieldScanner.SkipSpacesSound`.
- `LineSplit.FindNewline`: its own contract only bounds the result. What it finds is stated by `LineSplit.FindNewlineSound`.
- `FrameDecoder.FindNonBlank`: its own contract only bounds the result. What it finds is stated by `FrameDecoder.FindNonBlankSound`.
- `FrameDecoder.DecodeLine`: its own contract only says a frame is non-empty. When each of the seven outcomes occurs is stated by `FrameDecoder.DecodeLineCases`.
