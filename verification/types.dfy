/** Values shared by the host library and the dongle firmware. */
module Types {
  datatype Option<+T> = None | Some(value: T)

  type byte = b: int | 0 <= b < 256

  /** A radio packet with the pipe it travels on. */
  datatype Packet = Packet(pipe: byte, payload: seq<byte>)

  datatype Mode = ModeIdle | ModeRead | ModeWriteStream | ModeWriteBulk | ModeAny

  datatype TransferStatus = TransferIdle | TransferQueued | TransferCompleted | TransferTimedOut

  /** The report the dongle posts on its interrupt endpoint. Counts are single bytes there. */
  datatype Status = Status(
    cbCount: byte, cbSize: byte, acbCount: byte, acbSize: byte,
    lastTxFailed: byte, fifoIsEmpty: bool)

  predicate IsWriteMode(m: Mode) { m.ModeWriteStream? || m.ModeWriteBulk? }

  function Min(a: int, b: int): int { if a < b then a else b }
}
