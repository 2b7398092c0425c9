/** The frame vocabulary of section 4.1 of RFC 7540 as the connection core sees
    it: headers, the three implemented frame variants, setting parameters, and
    the frame codecs whose internals are not part of this model. */
module Frames {
  import opened Outcomes
  import opened ByteInput

  type uint24 = x: int | 0 <= x < 0x100_0000
  type uint31 = x: int | 0 <= x < 0x8000_0000
  type uint32 = x: int | 0 <= x < 0x1_0000_0000

  /** The frame type enumeration. `Other` stands for any enumeration constant
      beyond the ten the dispatcher's `switch` names; a type code the header
      parser cannot map is its exception outcome instead. */
  datatype FrameType =
    | Data | Headers | Priority | RstStream | Settings | PushPromise
    | Ping | Goaway | WindowUpdate | Continuation
    | Other

  /** The fixed 9-byte frame header, already decoded. */
  datatype FrameHeader = FrameHeader(length: uint24, frameType: FrameType, flags: byte, streamId: uint31)

  /** Setting identifiers of section 6.5.2 of RFC 7540. */
  datatype SettingIdentifier =
    | HeaderTableSize | EnablePush | MaxConcurrentStreams
    | InitialWindowSize | MaxFrameSize | MaxHeaderListSize

  datatype SettingParameter = SettingParameter(identifier: SettingIdentifier, value: uint32)

  /** The frame variants the dispatcher can produce. The fields beyond the
      header are whatever the variant's parser extracts from the body. */
  datatype Frame =
    | HeadersFrame(header: FrameHeader, fragment: seq<byte>)
    | SettingsFrame(header: FrameHeader, parameters: seq<SettingParameter>)
    | WindowUpdateFrame(header: FrameHeader, increment: uint31)

  /** A frame whose variant agrees with the type code in its header. */
  predicate WellTyped(f: Frame) {
    match f
    case HeadersFrame(h, _) => h.frameType == Headers
    case SettingsFrame(h, _) => h.frameType == Settings
    case WindowUpdateFrame(h, _) => h.frameType == WindowUpdate
  }

  /** The frame types the dispatcher decodes; every other type decodes to null. */
  predicate Implemented(t: FrameType) {
    t == Headers || t == Settings || t == WindowUpdate
  }

  /** The ACK bit in the flags of a SETTINGS frame (section 6.5 of RFC 7540). */
  const ACK_FLAG: byte := 0x1

  /** The frame `sendAckSettings` builds with `new SettingsFrame()`: no
      parameters, ACK flag set, stream 0. */
  const AckSettingsFrame: Frame := SettingsFrame(FrameHeader(0, Settings, ACK_FLAG, 0), [])

  /** The codecs whose source is not part of this model, as uninterpreted
      functions: `FrameHeader.Parse`, the three variants' `parse(body, header)`,
      and `convertToBinary`. For each parser `None` is its exception outcome;
      for `parseHeader` it also covers a header whose type is null, on which
      the dispatcher's `switch` throws. */
  datatype Codec = Codec(
    parseHeader: seq<byte> -> Option<FrameHeader>,
    parseHeaders: (seq<byte>, FrameHeader) -> Option<seq<byte>>,
    parseSettings: (seq<byte>, FrameHeader) -> Option<seq<SettingParameter>>,
    parseWindowUpdate: (seq<byte>, FrameHeader) -> Option<uint31>,
    convertToBinary: Frame -> seq<byte>)
}
