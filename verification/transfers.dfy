/** The I/O transfer of librf24pp/rf24iotransfer.cpp as a value, and what each of its methods does to it. */
module Transfers {
  import opened Types

  datatype Transfer = Transfer(
    mode: Mode, isSync: bool,
    sendQueue: seq<Packet>, nextToSend: nat, numWriting: int,
    recvQueue: seq<Packet>, countToRead: nat,
    status: TransferStatus, lastWriteOk: bool)
  {
    ghost predicate Valid() { nextToSend <= |sendQueue| }

    predicate AllSent() { nextToSend == |sendQueue| }

    /** The packets already given to the adaptor. */
    function Sent(): seq<Packet> requires Valid() { sendQueue[..nextToSend] }
  }

  /** A transfer as an application hands it to `submit`: nothing sent, nothing received. */
  ghost predicate Fresh(t: Transfer, m: Mode) {
    && t.mode == m && t.nextToSend == 0 && t.numWriting == 0
    && t.recvQueue == [] && t.status == TransferQueued
    && (m == ModeRead ==> t.sendQueue == [])
  }

  /** A transfer as it was when it was submitted: what the handlers change is put back. */
  function AsSubmitted(t: Transfer): Transfer {
    t.(nextToSend := 0, numWriting := 0, recvQueue := [], status := TransferQueued, lastWriteOk := false)
  }

  function Orders(ts: seq<Transfer>): seq<Transfer> {
    seq(|ts|, i requires 0 <= i < |ts| => AsSubmitted(ts[i]))
  }

  /** The packets they carry. */
  function Loads(ts: seq<Transfer>): seq<seq<Packet>> {
    seq(|ts|, i requires 0 <= i < |ts| => ts[i].sendQueue)
  }

  function Finish(t: Transfer, st: TransferStatus): Transfer { t.(status := st) }

  /** A writing transfer with nothing to send is over as soon as it starts. */
  predicate EndsAtStart(t: Transfer) { t.mode != ModeRead && t.AllSent() }

  function TakeForWrite(t: Transfer): (r: (Transfer, Packet))
    requires t.nextToSend < |t.sendQueue|
  {
    (t.(nextToSend := t.nextToSend + 1, numWriting := t.numWriting + 1), t.sendQueue[t.nextToSend])
  }

  /** Acknowledges one write. The flag says whether the transfer completed. */
  function WriteDone(t: Transfer): (r: (Transfer, bool)) {
    var u := t.(numWriting := t.numWriting - 1);
    if !u.isSync && u.numWriting == 0 && u.AllSent()
    then (Finish(u, TransferCompleted), true) else (u, false)
  }

  function ReadDone(t: Transfer, p: Packet): (r: (Transfer, bool)) {
    var u := t.(recvQueue := t.recvQueue + [p]);
    if |u.recvQueue| == u.countToRead then (Finish(u, TransferCompleted), true) else (u, false)
  }

  /** The adaptor reports an idle dongle. `expired` says whether the clock has passed the deadline. */
  function NowIdle(t: Transfer, lastOk: bool, expired: bool): (r: (Transfer, bool)) {
    if t.mode != ModeRead && t.isSync && t.numWriting == 0 && t.AllSent() then
      (Finish(t.(lastWriteOk := lastOk), TransferCompleted), true)
    else if expired && t.status == TransferQueued then
      (Finish(t, TransferTimedOut), true)
    else (t, false)
  }
}
