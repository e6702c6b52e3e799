/** The host adaptor (librf24pp/rf24adaptor.cpp with the overrides of rf24libusbadaptor.cpp) as a value:
    each function below is one handler, run to its end. */
module Host {
  import opened Types
  import opened Transfers

  /** A control transfer handed to the USB stack. */
  datatype Control = WriteReq(packet: Packet) | ReadReq | ModeReq(mode: Mode)

  /** `finished` remembers the transfers given back to the application, oldest first.
      `outbox` holds the control transfers that the dongle has not executed yet. */
  datatype Adaptor = Adaptor(
    queue: seq<Transfer>, current: Option<Transfer>, finished: seq<Transfer>,
    numIosPending: int, countToWrite: nat, countToRead: nat,
    canXfer: bool, currentMode: Mode, nextMode: Mode,
    interruptIsRunning: bool, outbox: seq<Control>)
  {
    ghost predicate Valid() {
      && (current.Some? ==> current.value.Valid())
      && forall i :: 0 <= i < |queue| ==> queue[i].Valid()
    }
  }

  /** Puts back the current transfer, or retires it when it is over. */
  function StoreCurrent(h: Adaptor, r: (Transfer, bool)): Adaptor {
    if r.1 then h.(current := None, finished := h.finished + [r.0])
    else h.(current := Some(r.0))
  }

  function RequestStatus(h: Adaptor): Adaptor { h.(interruptIsRunning := true) }

  function RequestIfQuiet(h: Adaptor): Adaptor {
    if h.numIosPending == 0 && h.current.Some? then RequestStatus(h) else h
  }

  predicate CanWrite(h: Adaptor) {
    h.current.Some? && h.countToWrite > 0 && h.current.value.nextToSend < |h.current.value.sendQueue|
  }

  function IssueWrite(h: Adaptor): Adaptor
    requires CanWrite(h)
  {
    var (t, p) := TakeForWrite(h.current.value);
    h.(current := Some(t), outbox := h.outbox + [WriteReq(p)],
       numIosPending := h.numIosPending + 1, countToWrite := h.countToWrite - 1)
  }

  function IssueRead(h: Adaptor): Adaptor
    requires h.countToRead > 0
  {
    h.(outbox := h.outbox + [ReadReq],
       numIosPending := h.numIosPending + 1, countToRead := h.countToRead - 1)
  }

  /** One turn of the fair-share loop. */
  function IssueRound(h: Adaptor): Adaptor {
    var h1 := if CanWrite(h) then IssueWrite(h) else h;
    if h1.countToRead > 0 then IssueRead(h1) else h1
  }

  /** The fair-share loop: one write, one read, until neither is possible. */
  function IssueAll(h: Adaptor): (r: Adaptor)
    ensures r.current.Some? == h.current.Some?
    decreases h.countToWrite + h.countToRead
  {
    if CanWrite(h) || h.countToRead > 0 then IssueAll(IssueRound(h)) else h
  }

  function SwitchMode(h: Adaptor, m: Mode): Adaptor {
    h.(canXfer := false, numIosPending := h.numIosPending + 1,
       countToRead := 0, countToWrite := 0, nextMode := m, outbox := h.outbox + [ModeReq(m)])
  }

  /** Makes the oldest queued transfer the current one when there is none. */
  function PickNext(h: Adaptor): Adaptor {
    if h.current.None? && h.queue != [] then
      var t := h.queue[0];
      var h1 := h.(queue := h.queue[1..], current := Some(t));
      if EndsAtStart(t) then StoreCurrent(h1, (Finish(t, TransferCompleted), true)) else h1
    else h
  }

  /** Did `PickNext` take a transfer that was over at once? */
  predicate PickedEmpty(h: Adaptor) {
    h.current.None? && h.queue != [] && EndsAtStart(h.queue[0])
  }

  /** The part of `startTransfers` that serves the current transfer. */
  function Serve(h: Adaptor): Adaptor {
    if h.current.Some? && h.current.value.mode != ModeAny && h.current.value.mode != h.currentMode then
      SwitchMode(h, h.current.value.mode)
    else
      RequestIfQuiet(if h.current.Some? && h.canXfer then IssueAll(h) else h)
  }

  function StartTransfers(h: Adaptor): Adaptor {
    if PickedEmpty(h) then RequestStatus(PickNext(h)) else Serve(PickNext(h))
  }

  function Submit(h: Adaptor, t: Transfer): Adaptor {
    StartTransfers(h.(queue := h.queue + [t.(nextToSend := 0, status := TransferQueued)]))
  }

  function UpdateStatus(h: Adaptor, canWrite: int, canRead: int): Adaptor {
    StartTransfers(h.(countToWrite := if canWrite >= 0 then canWrite else h.countToWrite,
                      countToRead := if canRead >= 0 then canRead else h.countToRead))
  }

  function BufferWriteDone(h: Adaptor): Adaptor
    requires h.current.Some?
  {
    var h1 := StoreCurrent(h, WriteDone(h.current.value));
    RequestIfQuiet(h1.(numIosPending := h1.numIosPending - 1))
  }

  function BufferReadDone(h: Adaptor, p: Packet): Adaptor
    requires h.current.Some?
  {
    var h1 := StoreCurrent(h, ReadDone(h.current.value, p));
    RequestIfQuiet(h1.(numIosPending := h1.numIosPending - 1))
  }

  /** A read came back. When it was the last one pending and the dongle says there is more,
      one further read is issued without waiting for a status report. */
  function PacketObtained(h: Adaptor, p: Packet, haveMore: bool): Adaptor
    requires h.current.Some?
  {
    var h1 := if haveMore && h.numIosPending == 1 then UpdateStatus(h, -1, 1) else h;
    BufferReadDone(h1, p)
  }

  function SwitchModeDone(h: Adaptor): Adaptor {
    RequestStatus(h.(canXfer := true, numIosPending := h.numIosPending - 1, currentMode := h.nextMode))
  }

  predicate ReportsIdle(st: Status) { st.cbCount == 0 && st.acbCount == 0 && st.fifoIsEmpty }

  function UpdateIdleStatus(h: Adaptor, lastOk: bool, expired: bool): Adaptor {
    if h.current.Some? then StoreCurrent(h, NowIdle(h.current.value, lastOk, expired)) else h
  }

  /** Was the last transmission good, as the host reads a report? */
  predicate LastTxOk(h: Adaptor, st: Status) {
    (st.fifoIsEmpty && h.currentMode == ModeWriteBulk) || st.lastTxFailed == 0
  }

  /** A status report arrives. */
  function StatusArrived(h: Adaptor, st: Status, expired: bool): Adaptor {
    var h0 := h.(interruptIsRunning := false);
    var cbSlots := st.cbSize - st.cbCount;
    var acbSlots := st.acbSize - st.acbCount;
    var toWrite := if h.currentMode == ModeRead then acbSlots else cbSlots;
    var toRead := if h.currentMode == ModeRead then st.cbCount else st.acbCount;
    var h1 := if ReportsIdle(st) then UpdateIdleStatus(h0, LastTxOk(h, st), expired) else h0;
    UpdateStatus(h1, toWrite, toRead)
  }
}
