/** Messages and constants of components/ble_manager (ble_types.h, ble_consts.h). */
module BleTypes {
  import opened Bytes

  const MAX_PAYLOAD: nat := 250
  const FIFO_SIZE: nat := 20
  const MAGIC: byte := 0xA5

  datatype Msg = Msg(opcode: byte, reqApp: byte, payload: seq<byte>)

  /** The length guard of the FIFOs: no queued message is longer than its payload array. */
  type Message = m: Msg | |m.payload| <= MAX_PAYLOAD witness Msg(0, 0, [])

  function Header(m: Message): (h: seq<byte>)
    ensures |h| == 4
  {
    [MAGIC, m.opcode, m.reqApp, |m.payload|]
  }

  /** A message as it travels. */
  function Wire(m: Message): seq<byte> { Header(m) + m.payload }
}
