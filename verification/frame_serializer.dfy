/** `FrameSerializer`: reads one frame (9 header bytes, then exactly `length`
    body bytes) and dispatches on its type; writes a frame by delegating to
    the frame's own encoder. */
module FrameSerializer {
  import opened Outcomes
  import opened ByteInput
  import opened Frames

  const HEADER_SIZE: nat := 9

  /** What one call to `deserialize` returns when it does not throw: a frame,
      or `null` for a type it does not decode. Either way `rest` is the input
      after the frame's body. */
  datatype Decoded = Decoded(frame: Frame, rest: seq<byte>) | Null(rest: seq<byte>)

  /** The header the first 9 bytes of `input` decode to, or `None` if
      `FrameHeader.Parse` throws on them. */
  function HeaderOf(codec: Codec, input: seq<byte>): Option<FrameHeader>
    requires HEADER_SIZE <= |input|
  {
    codec.parseHeader(input[..HEADER_SIZE])
  }

  /** The input holds a whole frame: 9 header bytes that parse, and the body
      they announce. */
  predicate HoldsFrame(codec: Codec, input: seq<byte>) {
    && HEADER_SIZE <= |input|
    && HeaderOf(codec, input).Some?
    && HEADER_SIZE + HeaderOf(codec, input).value.length <= |input|
  }

  /** One of the two reads runs out of input: fewer than 9 bytes, or a header
      that parses but whose body is not all there. */
  predicate RunsShort(codec: Codec, input: seq<byte>) {
    || |input| < HEADER_SIZE
    || (HeaderOf(codec, input).Some? && |input| < HEADER_SIZE + HeaderOf(codec, input).value.length)
  }

  function Deserialize(codec: Codec, input: seq<byte>): (r: Result<Decoded>)
    ensures r == Err(ShortRead) <==> RunsShort(codec, input)
    ensures r != Err(ClassCast)
    ensures HEADER_SIZE <= |input| && HeaderOf(codec, input).None? ==> r == Err(Malformed)
    ensures r == Err(Malformed) ==>
              HEADER_SIZE <= |input| && (HeaderOf(codec, input).None? || Implemented(HeaderOf(codec, input).value.frameType))
    ensures r.Ok? ==> HoldsFrame(codec, input)
    ensures r.Ok? ==> r.value.rest == input[HEADER_SIZE + HeaderOf(codec, input).value.length..]
    ensures r.Ok? ==> (r.value.Null? <==> !Implemented(HeaderOf(codec, input).value.frameType))
    ensures r.Ok? && r.value.Decoded? ==>
              WellTyped(r.value.frame) && r.value.frame.header == HeaderOf(codec, input).value
  {
    var head :- ReadFully(input, HEADER_SIZE);
    match codec.parseHeader(head.bytes)
    case None => Err(Malformed)
    case Some(header) =>
      var body :- ReadFully(head.rest, header.length);
      match header.frameType
      case Headers =>
        (match codec.parseHeaders(body.bytes, header)
         case Some(fragment) => Ok(Decoded(HeadersFrame(header, fragment), body.rest))
         case None => Err(Malformed))
      case Settings =>
        (match codec.parseSettings(body.bytes, header)
         case Some(parameters) => Ok(Decoded(SettingsFrame(header, parameters), body.rest))
         case None => Err(Malformed))
      case WindowUpdate =>
        (match codec.parseWindowUpdate(body.bytes, header)
         case Some(increment) => Ok(Decoded(WindowUpdateFrame(header, increment), body.rest))
         case None => Err(Malformed))
      case _ =>
        Ok(Null(body.rest))
  }

  /** `serialize`: the frame's own binary encoding. */
  function Serialize(codec: Codec, f: Frame): seq<byte> {
    codec.convertToBinary(f)
  }

  /** Which variant parser gets the body, and that the body is exactly the
      `length` bytes after the header. */
  lemma DeserializeDispatch(codec: Codec, input: seq<byte>)
    requires HoldsFrame(codec, input)
    ensures var h := HeaderOf(codec, input).value;
            var body := input[HEADER_SIZE..HEADER_SIZE + h.length];
            var rest := input[HEADER_SIZE + h.length..];
            && |body| == h.length
            && (h.frameType == Headers ==>
                  Deserialize(codec, input) == match codec.parseHeaders(body, h)
                                               case Some(v) => Ok(Decoded(HeadersFrame(h, v), rest))
                                               case None => Err(Malformed))
            && (h.frameType == Settings ==>
                  Deserialize(codec, input) == match codec.parseSettings(body, h)
                                               case Some(v) => Ok(Decoded(SettingsFrame(h, v), rest))
                                               case None => Err(Malformed))
            && (h.frameType == WindowUpdate ==>
                  Deserialize(codec, input) == match codec.parseWindowUpdate(body, h)
                                               case Some(v) => Ok(Decoded(WindowUpdateFrame(h, v), rest))
                                               case None => Err(Malformed))
            && (!Implemented(h.frameType) ==> Deserialize(codec, input) == Ok(Null(rest)))
  {
    var h := HeaderOf(codec, input).value;
    assert input[HEADER_SIZE..][..h.length] == input[HEADER_SIZE..HEADER_SIZE + h.length];
    assert input[HEADER_SIZE..][h.length..] == input[HEADER_SIZE + h.length..];
  }

  /** A decoded frame or a null consumes exactly 9 + `length` bytes, whatever
      the frame type; in particular never fewer than the 9 header bytes. */
  lemma DeserializeConsumes(codec: Codec, input: seq<byte>)
    requires Deserialize(codec, input).Ok?
    ensures |Deserialize(codec, input).value.rest| == |input| - HEADER_SIZE - HeaderOf(codec, input).value.length
    ensures |Deserialize(codec, input).value.rest| <= |input| - HEADER_SIZE
  {
  }

  /** The decoded value with more input appended behind it. */
  function WithMore(r: Result<Decoded>, more: seq<byte>): Result<Decoded> {
    match r
    case Ok(Decoded(f, rest)) => Ok(Decoded(f, rest + more))
    case Ok(Null(rest)) => Ok(Null(rest + more))
    case Err(e) => Err(e)
  }

  /** Once the input holds enough to decide the frame (it did not run
      short), bytes arriving behind it change nothing about its decoding. */
  lemma DeserializeExtends(codec: Codec, input: seq<byte>, more: seq<byte>)
    requires Deserialize(codec, input) != Err(ShortRead)
    ensures Deserialize(codec, input + more) == WithMore(Deserialize(codec, input), more)
  {
    assert (input + more)[..HEADER_SIZE] == input[..HEADER_SIZE];
    ReadFullyExtends(input, more, HEADER_SIZE);
    if HeaderOf(codec, input).Some? {
      var h := HeaderOf(codec, input).value;
      ReadFullyExtends(input[HEADER_SIZE..], more, h.length);
      assert (input + more)[HEADER_SIZE..] == input[HEADER_SIZE..] + more;
    }
  }

  /** The variant's parser recovers `f` from the body `convertToBinary` wrote. */
  predicate VariantParsesBack(codec: Codec, f: Frame, body: seq<byte>) {
    match f
    case HeadersFrame(h, v) => codec.parseHeaders(body, h) == Some(v)
    case SettingsFrame(h, v) => codec.parseSettings(body, h) == Some(v)
    case WindowUpdateFrame(h, v) => codec.parseWindowUpdate(body, h) == Some(v)
  }

  /** The frame codecs agree on `f`: its encoding is its header followed by
      exactly `length` body bytes, and both parse back to what was encoded. */
  predicate ParsesBack(codec: Codec, f: Frame) {
    var bytes := codec.convertToBinary(f);
    && HEADER_SIZE <= |bytes|
    && codec.parseHeader(bytes[..HEADER_SIZE]) == Some(f.header)
    && |bytes| == HEADER_SIZE + f.header.length
    && VariantParsesBack(codec, f, bytes[HEADER_SIZE..])
  }

  /** Round trip: whenever the per-variant codecs are mutually inverse on a
      frame, `deserialize` reads back exactly what `serialize` wrote, and
      leaves whatever followed it untouched. */
  lemma SerializeDeserialize(codec: Codec, f: Frame, rest: seq<byte>)
    requires WellTyped(f) && ParsesBack(codec, f)
    ensures Deserialize(codec, Serialize(codec, f) + rest) == Ok(Decoded(f, rest))
  {
    var bytes := Serialize(codec, f);
    DeserializeExtends(codec, bytes, rest);
    DeserializeDispatch(codec, bytes);
    assert bytes[HEADER_SIZE..HEADER_SIZE + f.header.length] == bytes[HEADER_SIZE..];
    assert bytes[HEADER_SIZE + f.header.length..] == [];
  }
}
