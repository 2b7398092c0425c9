/** Properties of `HTTP2Connection` as written: how each kind of frame changes
    the connection, and what the whole loop does with a byte stream. */
module ConnectionProperties {
  import opened Outcomes
  import opened ByteInput
  import opened Frames
  import opened FrameSerializer
  import opened SettingsNegotiation
  import opened Http2Connection

  /** The exact preface is accepted, whatever follows it. */
  lemma ExactPrefaceAccepted(rest: seq<byte>)
    ensures HasProperPreface(Ascii(PREFACE) + rest) == Ok(PrefaceCheck(true, rest))
  {
  }

  /** One differing byte among the first 24 rejects the preface. */
  lemma DifferingByteRejected(input: seq<byte>, i: nat)
    requires |PREFACE| <= |input|
    requires i < |PREFACE| && input[i] != Ascii(PREFACE)[i]
    ensures HasProperPreface(input) == Ok(PrefaceCheck(false, input[|PREFACE|..]))
  {
  }

  /** A SETTINGS frame, whatever its stream id or flags, is merged and answered
      with exactly one ACK write; streams, watermark and deliveries stay as
      they were. */
  lemma SettingsFrameAcked(codec: Codec, c: Connection, f: Frame)
    requires f.SettingsFrame? && f.header.frameType == Settings
    ensures var r := Step(codec, c, f);
            && r.Ok?
            && r.value.remoteSettings == UpdateRemoteSettings(c.remoteSettings, f)
            && r.value.output == c.output + [Serialize(codec, AckSettingsFrame)]
            && r.value.streams == c.streams
            && r.value.lastSeenStreamId == c.lastSeenStreamId
            && r.value.delivered == c.delivered
  {
  }

  /** A SETTINGS frame off stream 0 is ignored, yet still acknowledged. */
  lemma NonzeroStreamSettingsAcked(codec: Codec, c: Connection, f: Frame)
    requires f.SettingsFrame? && f.header.frameType == Settings && f.header.streamId != 0
    ensures Step(codec, c, f) == Ok(c.(output := c.output + [Serialize(codec, AckSettingsFrame)]))
  {
  }

  /** A SETTINGS ACK is itself acknowledged, and changes no setting. */
  lemma AckIsAcknowledged(codec: Codec, c: Connection)
    ensures Step(codec, c, AckSettingsFrame) == Ok(c.(output := c.output + [Serialize(codec, AckSettingsFrame)]))
  {
  }

  /** A frame for a stream already in the table goes to that stream; nothing
      else changes. */
  lemma FrameToExistingStream(codec: Codec, c: Connection, f: Frame)
    requires f.header.frameType != Settings
    requires f.header.streamId in c.streams
    ensures Step(codec, c, f) == Ok(c.(delivered := c.delivered + [Delivery(c.streams[f.header.streamId], f)]))
  {
  }

  /** A frame for an unknown id above the watermark opens one stream under
      that id, moves the watermark to it and goes to the new stream. */
  lemma FrameOpensStream(codec: Codec, c: Connection, f: Frame)
    requires f.header.frameType != Settings
    requires f.header.streamId !in c.streams && c.lastSeenStreamId < f.header.streamId
    ensures var r := Step(codec, c, f);
            var id := f.header.streamId;
            && r.Ok?
            && r.value.streams == c.streams[id := Stream(id)]
            && r.value.lastSeenStreamId == id
            && r.value.delivered == c.delivered + [Delivery(Stream(id), f)]
            && r.value.remoteSettings == c.remoteSettings
            && r.value.output == c.output
  {
  }

  /** A frame for an unknown id at or below the watermark is dropped: no
      stream, no delivery, no error. */
  lemma StaleFrameDropped(codec: Codec, c: Connection, f: Frame)
    requires f.header.frameType != Settings
    requires f.header.streamId !in c.streams && f.header.streamId <= c.lastSeenStreamId
    ensures Step(codec, c, f) == Ok(c)
  {
  }

  /** Stream 0 never opens a stream: on any valid connection, a fresh one
      included, a non-SETTINGS frame on stream 0 is dropped. */
  lemma StreamZeroDropped(codec: Codec, c: Connection, f: Frame)
    requires Valid(c)
    requires f.header.frameType != Settings && f.header.streamId == 0
    ensures Step(codec, c, f) == Ok(c)
  {
  }

  /** Over a frame sequence that runs to its end, the loop writes one ACK per
      SETTINGS-typed frame and nothing else. */
  lemma {:induction false} OneAckPerSettingsFrame(codec: Codec, c: Connection, fs: seq<Frame>)
    requires HandleFrames(codec, c, fs).thrown.None?
    ensures var out := HandleFrames(codec, c, fs).conn.output;
            && |out| == |c.output| + CountSettings(fs)
            && (forall i | |c.output| <= i < |out| :: out[i] == Serialize(codec, AckSettingsFrame))
    decreases |fs|
  {
    if |fs| > 0 {
      var c' := Step(codec, c, fs[0]).value;
      OneAckPerSettingsFrame(codec, c', fs[1..]);
      if fs[0].header.frameType == Settings {
        SettingsFrameAcked(codec, c, fs[0]);
      } else {
        assert c'.output == c.output;
      }
    }
  }

  /** `handle` on a byte stream is the fold of its loop body over the frames
      `deserialize` yields before the first null or exception, in arrival
      order; and the fold itself never throws on them. */
  lemma {:induction false} HandleIsFoldOverDecodedFrames(codec: Codec, c: Connection, input: seq<byte>)
    ensures var d := DecodeAll(codec, input);
            var folded := HandleFrames(codec, c, d.frames);
            && folded.thrown.None?
            && Handle(codec, c, input) == Run(folded.conn, d.halt)
    decreases |input|
  {
    match Deserialize(codec, input)
    case Err(e) =>
    case Ok(Null(rest)) =>
    case Ok(Decoded(f, rest)) =>
      var c' := Step(codec, c, f).value;
      HandleIsFoldOverDecodedFrames(codec, c', rest);
      var d := DecodeAll(codec, input);
      assert d.frames[0] == f && d.frames[1..] == DecodeAll(codec, rest).frames;
  }

  /** Once `deserialize` has returned null, nothing behind it is read: bytes
      appended to the input change neither the final state nor where the
      loop stopped. */
  lemma {:induction false} NothingAfterNullMatters(codec: Codec, c: Connection, input: seq<byte>, more: seq<byte>)
    requires Handle(codec, c, input).halt.EndOfFrames?
    ensures var r := Handle(codec, c, input);
            Handle(codec, c, input + more) == Run(r.conn, EndOfFrames(r.halt.rest + more))
    decreases |input|
  {
    DeserializeExtends(codec, input, more);
    match Deserialize(codec, input)
    case Ok(Null(rest)) =>
    case Ok(Decoded(f, rest)) =>
      var c' := Step(codec, c, f).value;
      NothingAfterNullMatters(codec, c', rest, more);
  }

  /** From a fresh connection, whatever the input, the table keys stay in
      `1..lastSeenStreamId` and every delivery reaches the stream its id names. */
  lemma HandleFromNewConnection(codec: Codec, input: seq<byte>)
    ensures Valid(Handle(codec, NewConnection, input).conn)
  {
  }
}
