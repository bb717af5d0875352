/**
 * The Bluetooth HCI buffers both ends of the SPI link exchange: a buffer type
 * (enum bt_buf_type, carried on the wire as one byte) and the buffer's data.
 */
module HciBuf {
  import opened Bytes

  // enum bt_buf_type from Zephyr's bluetooth/buf.h; only their distinctness matters here.
  const Cmd: Byte := 0     // BT_BUF_CMD, host to controller
  const Evt: Byte := 1     // BT_BUF_EVT, controller to host
  const AclOut: Byte := 2  // BT_BUF_ACL_OUT, host to controller
  const AclIn: Byte := 3   // BT_BUF_ACL_IN, controller to host

  /** SPI_MAX_BUF_SIZE: the nRF51 limits every SPI transfer to 255 bytes. */
  const SpiMaxBufSize: nat := 255

  /** A net_buf as far as the link is concerned: its bt_buf_type and its data. */
  datatype Packet = Packet(kind: Byte, payload: seq<Byte>)

  /** Types the host sends to the controller. */
  predicate IsOutgoing(kind: Byte) { kind == Cmd || kind == AclOut }

  /** Types the controller sends to the host. */
  predicate IsIncoming(kind: Byte) { kind == Evt || kind == AclIn }
}
