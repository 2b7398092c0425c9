# HTTP/2 connection core: frame dispatcher, router and settings negotiator

A Dafny model of the server-side connection core of a small Java HTTP/2
engine (RFC 7540):

- `HTTP2Connection.hasProperPreface` checks the 24-byte client connection preface
  (section 3.5 of RFC 7540).
- `HTTP2Connection.handle` is the main loop. It reads frames one by one. A SETTINGS
  frame is merged into the remote settings and answered with an ACK
  (section 6.5 of RFC 7540). Every other frame is routed by stream id to an
  existing stream, to a newly opened stream, or dropped (section 5.1.1 of
  RFC 7540).
- `FrameSerializer.deserialize` reads 9 header bytes and then exactly `length`
  body bytes, and dispatches on the frame type. `FrameSerializer.serialize`
  delegates to the frame's encoder.

The model is functional. The connection is an immutable `Connection` value
holding the watermark `lastSeenStreamId`, the stream table, the remote settings
table, a log of output writes and a log of frames delivered to streams. Input
is a sequence of bytes (integers in `0..255`) consumed from the front. `handle` is a recursive function over
that input, and `HandleFrames` is the same loop body folded over a sequence of
already decoded frames.

Files:

- `outcomes.dfy`: `Result`/`Option` and the exceptions the model distinguishes.
- `byte_input.dfy`: `readFully` as a pure function.
- `frames.dfy`: frame headers, frame variants, setting parameters, and the
  opaque codecs.
- `frame_serializer.dfy`: `deserialize`/`serialize`.
- `settings_negotiation.dfy`: `updateRemoteSettings`.
- `connection.dfy`: preface, routing, the loop.
- `connection_properties.dfy`: lemmas about the loop.

Collaborators whose source is not part of this model are uninterpreted
functions, grouped in the `Codec` datatype and passed as a parameter:

- `FrameHeader.Parse`;
- `HeadersFrame.parse`, `SettingsFrame.parse` and `WindowUpdateFrame.parse`;
- `convertToBinary`.

Each of the four parsers returns `None` when it throws.

`HTTP2Stream` is reduced to its id. `processFrame` is recorded as a
`Delivery(stream, frame)` entry.

The code is modelled as written, where it differs from what the protocol asks:

- a SETTINGS frame on a nonzero stream is ignored but still acknowledged;
- a SETTINGS ACK is itself acknowledged;
- a frame on an unknown stream id at or below the watermark is dropped
  without an error, and that includes stream 0;
- a frame type without a decoder yields `null`, which makes `handle` return
  normally, while the input running out ends it with a read exception;
- a short read is an exception even at a frame boundary, so there is no
  separate "clean end of stream" outcome.

The lemmas state these behaviours; they do not correct them.

## Model

| member | source | states |
|---|---|---|
| `Http2Connection.HasProperPreface` | src/main/com/aniakanl/http2/HTTP2Connection.java:68-80 | Fewer than 24 bytes is a read error, not `false`. Otherwise exactly 24 bytes are consumed, and the result is true iff each of them equals the corresponding character code of the preface literal. |
| `ConnectionProperties.ExactPrefaceAccepted` | src/main/com/aniakanl/http2/HTTP2Connection.java:18 | The ASCII bytes of `PRI * HTTP/2.0\r\n\r\nSM\r\n\r\n` are accepted whatever follows them, and the following bytes are left unread. |
| `ConnectionProperties.DifferingByteRejected` | src/main/com/aniakanl/http2/HTTP2Connection.java:73-79 | If any one of the first 24 bytes differs from the preface, the result is `false`, not an error. |
| `SettingsNegotiation.UpdateRemoteSettings` | src/main/com/aniakanl/http2/HTTP2Connection.java:129-147 | On a nonzero stream id the table is unchanged. On stream 0 the keys become the old keys plus the frame's identifiers. Each identifier the frame mentions maps to its last parameter in the frame, and every other identifier keeps its old entry. |
| `SettingsNegotiation.ApplyParameters` | src/main/com/aniakanl/http2/HTTP2Connection.java:140-142 | The `put` loop over the parameters, in sequence order. Afterwards the table holds exactly its old identifiers plus those the parameters mention. Every identifier the parameters do not mention keeps its entry. Which value a mentioned identifier ends up with is stated by `SettingsNegotiation.ApplyParametersMeaning`. |
| `SettingsNegotiation.ApplyParametersMeaning` | src/main/com/aniakanl/http2/HTTP2Connection.java:140-142 | Storing the parameters one by one in sequence order gives the same table as taking the last occurrence of each identifier. |
| `SettingsNegotiation.Latest` | src/main/com/aniakanl/http2/HTTP2Connection.java:140-142 | The reference meaning of "the entry that stays": it is absent iff the identifier does not occur in the frame. When present, it carries that identifier and is one of the frame's parameters. |
| `SettingsNegotiation.LatestIsLastOccurrence` | src/main/com/aniakanl/http2/HTTP2Connection.java:140-142 | The parameter that stays is the occurrence with no later parameter of the same identifier. |
| `SettingsNegotiation.LaterDuplicateWins` | src/main/com/aniakanl/http2/HTTP2Connection.java:140-142 | Within one stream-0 frame, the last parameter for an identifier is the one stored. |
| `SettingsNegotiation.UnmentionedKept` | src/main/com/aniakanl/http2/HTTP2Connection.java:140-142 | An identifier absent from the frame keeps its entry, or stays absent. |
| `SettingsNegotiation.UpdateRemoteSettingsIdempotent` | src/main/com/aniakanl/http2/HTTP2Connection.java:139-145 | Applying the same frame twice gives the same table as applying it once. |
| `SettingsNegotiation.LaterFrameWins` | src/main/com/aniakanl/http2/HTTP2Connection.java:139-142 | After two frames, the second on stream 0, an identifier the second frame mentions holds the second frame's value. |
| `Http2Connection.SendAckSettings` | src/main/com/aniakanl/http2/HTTP2Connection.java:149-155 | Exactly one write is appended to the output, and it is the encoded ACK frame. Every other part of the connection is unchanged. `ConnectionProperties.SettingsFrameAcked` and `ConnectionProperties.OneAckPerSettingsFrame` lift this to each SETTINGS frame and to the whole loop. |
| `Http2Connection.Route` | src/main/com/aniakanl/http2/HTTP2Connection.java:105-123 | The frame is delivered iff its id is in the table or above the watermark. It then goes to the table's stream for that id. A dropped frame leaves the state exactly as it was. Settings and output are never touched. At most the frame's own id is added to the table. The watermark only moves to the id of a stream not yet in the table. Growth and the invariant are kept. The three cases are stated one by one in `ConnectionProperties.FrameToExistingStream`, `ConnectionProperties.FrameOpensStream` and `ConnectionProperties.StaleFrameDropped`. |
| `Http2Connection.Step` | src/main/com/aniakanl/http2/HTTP2Connection.java:101-123 | One loop iteration throws iff a SETTINGS-typed frame is not a settings frame (the failing cast), so it never throws on a well-typed frame. Otherwise it keeps the invariant, never lowers the watermark, never removes a stream, and only appends to the logs. |
| `ConnectionProperties.SettingsFrameAcked` | src/main/com/aniakanl/http2/HTTP2Connection.java:101-103 | Any SETTINGS frame, whatever its stream id or flags, merges into the remote settings and appends exactly one ACK write. The stream table, the watermark and the deliveries are untouched. |
| `ConnectionProperties.NonzeroStreamSettingsAcked` | src/main/com/aniakanl/http2/HTTP2Connection.java:139-145 | A SETTINGS frame on a nonzero stream changes nothing but the output, which gains one ACK. |
| `ConnectionProperties.AckIsAcknowledged` | src/main/com/aniakanl/http2/HTTP2Connection.java:149-155 | The ACK frame that `sendAckSettings` builds is itself answered with another ACK if it is received. |
| `ConnectionProperties.FrameToExistingStream` | src/main/com/aniakanl/http2/HTTP2Connection.java:111-112 | A non-SETTINGS frame whose id is in the table is delivered to that table entry. No stream is created and the watermark is unchanged. |
| `ConnectionProperties.FrameOpensStream` | src/main/com/aniakanl/http2/HTTP2Connection.java:113-118 | A non-SETTINGS frame with an unknown id above the watermark registers one new stream under that id. The watermark becomes that id, the frame goes to the new stream, and settings and output are untouched. |
| `ConnectionProperties.StaleFrameDropped` | src/main/com/aniakanl/http2/HTTP2Connection.java:120-123 | A non-SETTINGS frame with an unknown id at or below the watermark leaves the state unchanged: no stream, no delivery, no error. |
| `ConnectionProperties.StreamZeroDropped` | src/main/com/aniakanl/http2/HTTP2Connection.java:113-123 | On any valid connection, a fresh one included, a non-SETTINGS frame on stream 0 is dropped. |
| `Http2Connection.Handle` | src/main/com/aniakanl/http2/HTTP2Connection.java:93-127 | The whole loop never lowers the watermark, never removes or replaces a stream, and only appends to the logs. It keeps the invariant: keys lie in `1..lastSeenStreamId`, each stream sits under its own id, and each delivery went to the table stream its frame's id names. It never stops on a failed cast. |
| `Http2Connection.HandleFrames` | src/main/com/aniakanl/http2/HTTP2Connection.java:97-125 | The loop body folded over frames in arrival order has the same growth and invariant guarantees, and it does not throw on well-typed frames. |
| `Http2Connection.DecodeAll` | src/main/com/aniakanl/http2/frame/FrameSerializer.java:19-55 | Every frame `deserialize` yields before the first null or exception is well-typed: its variant matches its header's type. |
| `ConnectionProperties.OneAckPerSettingsFrame` | src/main/com/aniakanl/http2/HTTP2Connection.java:97-103 | Over frames the loop runs through, the output gains exactly one write per SETTINGS-typed frame, and each write is the encoded ACK frame. |
| `ConnectionProperties.HandleIsFoldOverDecodedFrames` | src/main/com/aniakanl/http2/HTTP2Connection.java:97 | `handle` on bytes equals the fold over the frames decoded before the first null or exception, in arrival order, and it ends exactly as the decoding ended. |
| `ConnectionProperties.NothingAfterNullMatters` | src/main/com/aniakanl/http2/HTTP2Connection.java:97 | After the loop stops at a null, bytes appended to the input change neither the final state nor the stop. They are only left unread. |
| `ConnectionProperties.HandleFromNewConnection` | src/main/com/aniakanl/http2/HTTP2Connection.java:24-26 | From a fresh connection (watermark 0, empty table), the invariant holds after any input. |
| `FrameSerializer.Deserialize` | src/main/com/aniakanl/http2/frame/FrameSerializer.java:7-56 | It is a read error iff fewer than 9 bytes are available, or the header parses and its announced body is not all there. If the header parser throws, the call throws. Otherwise it consumes exactly 9 + length bytes, and returns null iff the type is not HEADERS, SETTINGS or WINDOW_UPDATE. A decoded frame carries the parsed header and is well-typed. A body parser can only fail for those three types. |
| `FrameSerializer.DeserializeDispatch` | src/main/com/aniakanl/http2/frame/FrameSerializer.java:16-53 | The body handed to a parser is the `length` bytes after the header. HEADERS, SETTINGS and WINDOW_UPDATE give that variant's `parse(body, header)`. Every other type gives null, with the body consumed. |
| `FrameSerializer.DeserializeConsumes` | src/main/com/aniakanl/http2/frame/FrameSerializer.java:12-16 | A decoded frame or null leaves exactly `|input| - 9 - length` bytes. |
| `FrameSerializer.DeserializeExtends` | src/main/com/aniakanl/http2/frame/FrameSerializer.java:12-16 | Once neither read runs short, appended bytes do not change the outcome. They only lengthen the rest. |
| `FrameSerializer.Serialize` | src/main/com/aniakanl/http2/frame/FrameSerializer.java:58-61 | Delegation to `convertToBinary`. It has no contract of its own. Its property is the round trip in `FrameSerializer.SerializeDeserialize`. |
| `FrameSerializer.SerializeDeserialize` | src/main/com/aniakanl/http2/frame/FrameSerializer.java:58-61 | `serialize` is `convertToBinary`. Whenever the opaque codecs are mutually inverse on a frame, `deserialize` reads back exactly that frame from what `serialize` wrote, and leaves the following bytes untouched. |
| `ByteInput.ReadFully` | src/main/com/aniakanl/http2/frame/FrameSerializer.java:12 | `readFully(n)` succeeds iff `n` bytes are available. It then returns exactly `n` bytes, which together with the rest make up the input. A short input is an exception. |

## Left out

- Socket I/O (`ExBufferedInputStream`, `BufferedOutputStream.write/flush`) is modelled as a consumed byte sequence and an appended output log. An I/O failure on write or flush is not modelled.
- `FrameHeader.Parse`, the three variant parsers and `convertToBinary` are uninterpreted. Their source, and the `FrameType`, `SettingIdentifier` and `SettingParameter` classes, are not part of this model. A variant parser is assumed to keep the header it is given.
- FrameSerializer.Deserialize: rests on four assumptions about code that is not part of this model.
  - `FrameHeader.Parse` either throws or yields a header with a non-null type. A null type would make the `switch` throw after the body is read. The model folds that case into the parser's exception outcome, so it changes which exception escapes when the body is short: Java's `readFully` (FrameSerializer.java:16) throws a read exception before the `switch` is reached, while the model returns `Malformed` as soon as the 9 header bytes are read. When the body is all there, the only difference is that the model does not consume it, which is not observable after an exception.
  - A type code `FrameHeader.Parse` cannot map is either its exception outcome or an enumeration constant beyond the ten the `switch` names. The second case takes the `default` branch and yields null (`Other`).
  - The three variant parsers either throw or return a frame, never null. A null from one of them would end the loop like a null from the `default` branch, and the model does not represent it.
  - `FrameHeader.Parse` masks the reserved bit of the stream id and yields a non-negative length, so a header's stream id fits in 31 bits and its length in 24 (`uint31`, `uint24`). A negative id would be dropped by the watermark test at HTTP2Connection.java:113 like any stale id, so no stated property depends on this.
- `new SettingsFrame()` is not part of this model. The ACK frame is taken to have length 0, type SETTINGS, the ACK flag, stream 0 and no parameters.
- `HTTP2Stream` and `processFrame` are not part of this model: a stream is its id, and processing is a log entry. An exception from `processFrame` is not modelled.
- `Http2Connection.HasProperPreface` compares bytes instead of decoding them with Java's default charset. For UTF-8 and other ASCII-compatible charsets the two agree.
- `localSettings` and the settings getters and setters (HTTP2Connection.java:45-59) carry no logic and are left out.
- Connection errors the protocol requires, the stream state machine, HPACK and flow control are not in this code, so they are not modelled.
- `FrameSerializer.Serialize` has no contract of its own beyond delegation. Its property is stated by `FrameSerializer.SerializeDeserialize`, under the assumption that the opaque codecs are mutually inverse.
