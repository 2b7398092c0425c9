/** `HTTP2Connection`: the preface check and the main loop that routes decoded
    frames either to the settings negotiator or to per-stream state. */
module Http2Connection {
  import opened Outcomes
  import opened ByteInput
  import opened Frames
  import opened FrameSerializer
  import opened SettingsNegotiation

  /** The client connection preface of section 3.5 of RFC 7540. */
  const PREFACE: string := "PRI * HTTP/2.0\r\n\r\nSM\r\n\r\n"

  /** The bytes of an ASCII string, one per character. */
  function Ascii(s: string): (r: seq<byte>)
    requires forall i | 0 <= i < |s| :: s[i] as int < 128
    ensures |r| == |s|
    ensures forall i | 0 <= i < |s| :: r[i] as int == s[i] as int
  {
    seq(|s|, i requires 0 <= i < |s| => s[i] as int as byte)
  }

  /** A stream object, known by the id it was created with; what it does
      with the frames it receives is not part of this model. */
  datatype Stream = Stream(id: int)

  /** One call of `processFrame`: the stream and the frame handed to it. */
  datatype Delivery = Delivery(stream: Stream, frame: Frame)

  /** The connection's state: the `lastSeenStreamId` watermark, the stream
      table, the remote settings, the byte blocks written to the output, and
      the log of frames delivered to streams. */
  datatype Connection = Connection(
    lastSeenStreamId: int,
    streams: map<int, Stream>,
    remoteSettings: SettingsTable,
    output: seq<seq<byte>>,
    delivered: seq<Delivery>)

  /** A freshly constructed connection. */
  const NewConnection: Connection := Connection(0, map[], map[], [], [])

  /** The invariant the loop keeps: every stream sits under its own id, above
      0 and at most the watermark, and every delivery went to a stream of the
      table whose id is the frame's stream id. */
  predicate Valid(c: Connection) {
    && 0 <= c.lastSeenStreamId
    && (forall id | id in c.streams :: 0 < id <= c.lastSeenStreamId && c.streams[id] == Stream(id))
    && (forall i | 0 <= i < |c.delivered| ::
          && c.delivered[i].stream.id in c.streams
          && c.delivered[i].frame.header.streamId == c.delivered[i].stream.id)
  }

  /** `c'` is a possible later state of `c`: the watermark has not gone down,
      no stream was removed or replaced, and the output and delivery logs
      were only appended to. */
  predicate Grows(c: Connection, c': Connection) {
    && c.lastSeenStreamId <= c'.lastSeenStreamId
    && (forall id | id in c.streams :: id in c'.streams && c'.streams[id] == c.streams[id])
    && c.output <= c'.output
    && c.delivered <= c'.delivered
  }

  datatype PrefaceCheck = PrefaceCheck(proper: bool, rest: seq<byte>)

  /** `hasProperPreface`: reads exactly 24 bytes and compares them with the
      preface; fewer than 24 bytes is a read error, not `false`. */
  function HasProperPreface(input: seq<byte>): (r: Result<PrefaceCheck>)
    ensures r.Err? <==> |input| < |PREFACE|
    ensures r.Err? ==> r.error == ShortRead
    ensures r.Ok? ==> r.value.rest == input[|PREFACE|..]
    ensures r.Ok? ==> (r.value.proper <==> forall i | 0 <= i < |PREFACE| :: input[i] as int == PREFACE[i] as int)
  {
    var read :- ReadFully(input, |PREFACE|);
    var expected := Ascii(PREFACE);
    assert read.bytes == input[..|PREFACE|];
    assert (forall i | 0 <= i < |PREFACE| :: input[i] as int == PREFACE[i] as int) ==> read.bytes == expected by {
      if forall i | 0 <= i < |PREFACE| :: input[i] as int == PREFACE[i] as int {
        forall i | 0 <= i < |PREFACE| ensures read.bytes[i] == expected[i] {
          assert read.bytes[i] as int == expected[i] as int;
        }
      }
    }
    Ok(PrefaceCheck(read.bytes == expected, read.rest))
  }

  /** `sendAckSettings`: one write of the encoded ACK frame, appended to the
      output; nothing else about the connection changes. */
  function SendAckSettings(codec: Codec, c: Connection): (r: Connection)
    ensures |r.output| == |c.output| + 1 && c.output <= r.output
    ensures r.output[|c.output|] == Serialize(codec, AckSettingsFrame)
    ensures r.(output := c.output) == c
  {
    c.(output := c.output + [Serialize(codec, AckSettingsFrame)])
  }

  /** `processFrame` on stream `s`, recorded in the delivery log. */
  function Deliver(c: Connection, s: Stream, f: Frame): Connection {
    c.(delivered := c.delivered + [Delivery(s, f)])
  }

  /** The non-SETTINGS branch of `handle`: an existing stream gets the frame;
      an unknown id above the watermark opens a stream and raises the
      watermark; any other id is dropped without an error. The frame is
      delivered iff its id is known or above the watermark, and then to the
      table's stream for that id; a dropped frame leaves the state as it was;
      the watermark only moves to the id of a stream just opened. */
  function Route(c: Connection, f: Frame): (r: Connection)
    ensures r.remoteSettings == c.remoteSettings && r.output == c.output
    ensures Grows(c, r)
    ensures Valid(c) ==> Valid(r)
    ensures (f.header.streamId in c.streams || c.lastSeenStreamId < f.header.streamId)
            <==> |r.delivered| == |c.delivered| + 1
    ensures |r.delivered| == |c.delivered| + 1 ==>
              && f.header.streamId in r.streams
              && r.delivered[|c.delivered|] == Delivery(r.streams[f.header.streamId], f)
    ensures |r.delivered| == |c.delivered| ==> r == c
    ensures r.streams.Keys <= c.streams.Keys + {f.header.streamId}
    ensures r.lastSeenStreamId != c.lastSeenStreamId ==>
              r.lastSeenStreamId == f.header.streamId && f.header.streamId !in c.streams
  {
    var id := f.header.streamId;
    if id in c.streams then
      Deliver(c, c.streams[id], f)
    else if c.lastSeenStreamId < id then
      var s := Stream(id);
      Deliver(c.(streams := c.streams[id := s], lastSeenStreamId := id), s, f)
    else
      c
  }

  /** One iteration of `handle`'s loop on a decoded frame. A SETTINGS-typed
      frame is cast to a settings frame (the cast throws if it is not one),
      merged and acknowledged; every other frame is routed by stream id. */
  function Step(codec: Codec, c: Connection, f: Frame): (r: Result<Connection>)
    ensures r.Err? <==> f.header.frameType == Settings && !f.SettingsFrame?
    ensures r.Err? ==> r.error == ClassCast
    ensures WellTyped(f) ==> r.Ok?
    ensures r.Ok? ==> Grows(c, r.value)
    ensures r.Ok? && Valid(c) ==> Valid(r.value)
  {
    if f.header.frameType == Settings then
      if f.SettingsFrame? then
        Ok(SendAckSettings(codec, c.(remoteSettings := UpdateRemoteSettings(c.remoteSettings, f))))
      else
        Err(ClassCast)
    else
      Ok(Route(c, f))
  }

  /** How the loop ended: `deserialize` returned null (with the input it had
      not read), or an exception escaped. */
  datatype Halt = EndOfFrames(rest: seq<byte>) | Threw(error: Error)

  /** The connection state when `handle` returns or throws, and how it ended. */
  datatype Run = Run(conn: Connection, halt: Halt)

  /** `handle`: decode a frame, process it, repeat until `deserialize`
      returns null. An exception leaves the state as it was when thrown. */
  function Handle(codec: Codec, c: Connection, input: seq<byte>): (r: Run)
    ensures Grows(c, r.conn)
    ensures Valid(c) ==> Valid(r.conn)
    ensures r.halt != Threw(ClassCast)
    decreases |input|
  {
    match Deserialize(codec, input)
    case Err(e) => Run(c, Threw(e))
    case Ok(Null(rest)) => Run(c, EndOfFrames(rest))
    case Ok(Decoded(f, rest)) =>
      match Step(codec, c, f)
      case Err(e) => Run(c, Threw(e))
      case Ok(c') => Handle(codec, c', rest)
  }

  /** The state after a fold of `handle`'s loop body over a frame sequence,
      and the exception that stopped it early, if any. */
  datatype Folded = Folded(conn: Connection, thrown: Option<Error>)

  /** `handle`'s loop body applied to the frames in arrival order. */
  function HandleFrames(codec: Codec, c: Connection, fs: seq<Frame>): (r: Folded)
    ensures Grows(c, r.conn)
    ensures Valid(c) ==> Valid(r.conn)
    ensures (forall i | 0 <= i < |fs| :: WellTyped(fs[i])) ==> r.thrown.None?
    decreases |fs|
  {
    if |fs| == 0 then Folded(c, None)
    else
      match Step(codec, c, fs[0])
      case Err(e) => Folded(c, Some(e))
      case Ok(c') => HandleFrames(codec, c', fs[1..])
  }

  /** The frames `deserialize` yields from `input` before the first null or
      exception, and which of the two ended them. */
  datatype Decoding = Decoding(frames: seq<Frame>, halt: Halt)

  function DecodeAll(codec: Codec, input: seq<byte>): (d: Decoding)
    ensures forall i | 0 <= i < |d.frames| :: WellTyped(d.frames[i])
    ensures d.halt != Threw(ClassCast)
    decreases |input|
  {
    match Deserialize(codec, input)
    case Err(e) => Decoding([], Threw(e))
    case Ok(Null(rest)) => Decoding([], EndOfFrames(rest))
    case Ok(Decoded(f, rest)) =>
      var d := DecodeAll(codec, rest);
      Decoding([f] + d.frames, d.halt)
  }

  /** The number of SETTINGS-typed frames in a sequence. */
  function CountSettings(fs: seq<Frame>): nat {
    if |fs| == 0 then 0
    else (if fs[0].header.frameType == Settings then 1 else 0) + CountSettings(fs[1..])
  }
}
