/** The bytes of an expedited SDO message: a 6-byte mailbox header, a 2-byte CoE header and the
    service data of ETG1000.6 section 5.6.2, with their bit fields packed from the low bit up. */
module Coe {
  import opened Bytes

  const MESSAGE_SIZE := 16
  const PAYLOAD_SIZE: uint8 := 10
  const MAILBOX_TYPE_COE: uint8 := 3

  const SDO_REQUEST: uint8 := 2
  const SDO_RESPONSE: uint8 := 3
  const REQUEST_DOWNLOAD: uint8 := 1
  const REQUEST_UPLOAD: uint8 := 2
  const RESPONSE_UPLOAD: uint8 := 2
  const RESPONSE_DOWNLOAD: uint8 := 3

  /** The low five bits of the service byte of a response: size indicator and expedited transfer. */
  const EXPEDITED: uint8 := 3

  /** `count` is the session handle the slave echoes. */
  datatype Message = Message(count: uint8, service: uint8, command: uint8, index: uint16, sub: uint8, value: uint32)

  predicate Fits(m: Message) { m.count < 8 && m.service < 16 && m.command < 8 }

  function Encode(m: Message, flags: uint8): (b: seq<uint8>)
    requires Fits(m) && flags < 0x20
    ensures |b| == MESSAGE_SIZE
  {
    // len, address, channel and priority, type | count << 4
    [PAYLOAD_SIZE, 0, 0, 0, 0, MAILBOX_TYPE_COE + 0x10 * m.count]
    // number, service << 12
    + [0, 0x10 * m.service]
    // flags | command << 5, index, subindex, value
    + [flags + 0x20 * m.command, Lo(m.index), Hi(m.index), m.sub] + Le32Bytes(m.value)
  }

  function Decode(b: seq<uint8>): (m: Message)
    requires |b| >= MESSAGE_SIZE
    ensures Fits(m)
  {
    Message(b[5] / 0x10 % 8, b[7] / 0x10, b[8] / 0x20, Le16(b[9], b[10]), b[11], Le32(b[12..16]))
  }

  /** A message decodes from its bytes, whatever the unused flags and whatever follows. */
  lemma DecodeEncode(m: Message, flags: uint8, tail: seq<uint8>)
    requires Fits(m) && flags < 0x20
    ensures Decode(Encode(m, flags) + tail) == m
  {
    var b := Encode(m, flags) + tail;
    assert b[12..16] == Le32Bytes(m.value);
    Le32RoundTrip(m.value);
  }
}
