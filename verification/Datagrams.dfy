/** EtherCAT datagrams. A frame is the list of its datagrams, each visited once and in order. */
module Datagrams {
  import opened Bytes

  datatype Command =
    | NOP | APRD | APWR | APRW | FPRD | FPWR | FPRW | BRD | BWR | BRW
    | LRD | LWR | LRW | ARMW | FRMW | Unknown(code: uint8)

  datatype Header = Header(command: Command, index: uint8, address: uint32, len: uint16, flags: uint8, irq: uint16)

  datatype Datagram = Datagram(header: Header, data: seq<uint8>, wkc: uint16)

  type Frame = seq<Datagram>

  /** The largest payload an EtherCAT frame can carry. */
  const MAX_PAYLOAD := 1486

  predicate Ok(d: Datagram) { |d.data| == d.header.len && d.header.len <= MAX_PAYLOAD }

  predicate FrameOk(f: Frame) { forall d :: d in f ==> Ok(d) }

  function CreateAddress(position: uint16, offset: uint16): uint32 { (offset as int) * 0x1_0000 + position as int }

  function Position(address: uint32): uint16 { address % 0x1_0000 }

  function Offset(address: uint32): uint16 { address / 0x1_0000 }

  lemma AddressRoundTrip(position: uint16, offset: uint16)
    ensures Position(CreateAddress(position, offset)) == position && Offset(CreateAddress(position, offset)) == offset
  {}

  /** The slave index a position addresses: `0 - position` when the top bit is set. */
  function DecodeIndex(position: uint16): nat {
    if position >= 0x8000 then Negated16(position) else position
  }

  /** The position a master uses to reach index `i` by auto-increment: `0 - i` in 16 bits. */
  function EncodeIndex(i: nat): uint16 { (0 - i) % 0x1_0000 }

  /** The decoder inverts the encoding exactly on the indices 0 to 32768. */
  lemma DecodeInvertsExactlyUpTo32768(i: nat)
    ensures DecodeIndex(EncodeIndex(i)) == i <==> i <= 0x8000
  {
    var p := EncodeIndex(i);
    if i == 0 {
    } else if i <= 0x1_0000 {
      assert 0 - i == -1 * 0x1_0000 + (0x1_0000 - i);
    } else {
      assert DecodeIndex(p) <= 0x8000;
    }
  }
}
