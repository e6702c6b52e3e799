/** The dongle firmware (src/uisp-app.c) as a value, with the radio behind it. */
module Dongles {
  import opened Types

  /** A packet that left the transmit FIFO, and whether the far side acknowledged it. */
  datatype OnAir = OnAir(packet: Packet, acked: bool)

  /** The radio: a transmit FIFO, the interrupt flag the firmware polls (Some(true) for TX_DS,
      Some(false) for MAX_RT), a receive FIFO. `handed`, `air` and `arrived` are histories
      since the last mode change: given to the radio, gone from its FIFO, received by it. */
  datatype Radio = Radio(
    txFifo: seq<Packet>, event: Option<bool>, rxFifo: seq<Packet>,
    handed: seq<Packet>, air: seq<OnAir>, arrived: seq<Packet>)

  datatype Dongle = Dongle(
    mode: Mode, cb: seq<Packet>, cbSize: nat, acb: seq<Packet>, acbSize: nat,
    writing: bool, lastTxFailed: byte, posted: Status, radio: Radio)

  // The ring of src/cb.c seen from outside: a bounded queue that drops its oldest element.

  function PushDropping<T>(q: seq<T>, size: nat, x: T): (r: seq<T>)
    requires 0 < size
  {
    (if |q| == size then q[1..] else q) + [x]
  }

  function Rest<T>(q: seq<T>): seq<T> { if q == [] then [] else q[1..] }

  // The radio

  function Unacked(ps: seq<Packet>): (r: seq<OnAir>)
    ensures |r| == |ps| && forall i :: 0 <= i < |ps| ==> r[i] == OnAir(ps[i], false)
  {
    seq(|ps|, i requires 0 <= i < |ps| => OnAir(ps[i], false))
  }

  /** Drops what is in the transmit FIFO. */
  function FlushTx(r: Radio): Radio {
    r.(txFifo := [], air := r.air + Unacked(r.txFifo))
  }

  function Load(r: Radio, p: Packet): Radio {
    r.(txFifo := r.txFifo + [p], handed := r.handed + [p])
  }

  predicate CanTransmit(r: Radio) { r.txFifo != [] && r.event != Some(false) }

  /** One attempt on the packet at the head of the FIFO comes to its end. */
  function Transmit(r: Radio, acked: bool): Radio
    requires CanTransmit(r)
  {
    if acked
    then r.(txFifo := r.txFifo[1..], air := r.air + [OnAir(r.txFifo[0], true)], event := Some(true))
    else r.(event := Some(false))
  }

  function Receive(r: Radio, p: Packet): Radio {
    r.(rxFifo := r.rxFifo + [p], arrived := r.arrived + [p])
  }

  // The firmware

  function ReportOf(d: Dongle): Status {
    Status(|d.cb| % 256, d.cbSize % 256, |d.acb| % 256, d.acbSize % 256, d.lastTxFailed, d.radio.txFifo == [])
  }

  function Post(d: Dongle): Dongle { d.(posted := ReportOf(d)) }

  /** Everything queued on the dongle goes; the histories start anew. */
  function FlushEverything(d: Dongle): Dongle {
    d.(cb := [], acb := [], writing := false, radio := Radio([], None, [], [], [], []))
  }

  function FillCb(d: Dongle): Dongle
    decreases |d.radio.rxFifo|
  {
    if |d.cb| < d.cbSize && d.radio.rxFifo != [] then
      FillCb(d.(cb := d.cb + [d.radio.rxFifo[0]], radio := d.radio.(rxFifo := d.radio.rxFifo[1..])))
    else d
  }

  /** A stream write that has come to its end is accounted for and its packet leaves the ring. */
  function StreamFinish(d: Dongle): Dongle {
    if d.writing && d.radio.event.Some? then
      var failed := !d.radio.event.value;
      var d1 := Post(d.(writing := false, lastTxFailed := if failed then 1 else 0));
      var r := d1.radio.(event := None);
      d1.(radio := if failed then FlushTx(r) else r, cb := Rest(d1.cb))
    else d
  }

  function StreamStart(d: Dongle): Dongle {
    if !d.writing && d.cb != [] then d.(radio := Load(d.radio, d.cb[0]), writing := true) else d
  }

  /** Bulk mode gives the radio packets until it has none left or the radio, after `room` packets, says -EAGAIN. */
  function DrainBulk(d: Dongle, room: nat): Dongle
    decreases room
  {
    if d.cb == [] || room == 0 then d
    else DrainBulk(d.(radio := Load(d.radio, d.cb[0]), cb := d.cb[1..]), room - 1)
  }

  function ProcessRadio(d: Dongle, room: nat): Dongle {
    match d.mode
    case ModeRead => FillCb(d)
    case ModeWriteStream => StreamStart(StreamFinish(d))
    case ModeWriteBulk => var d1 := DrainBulk(d, room); d1.(radio := d1.radio.(event := None))
    case _ => d
  }

  predicate CanStore(d: Dongle) { if d.mode == ModeRead then d.acbSize > 0 else d.cbSize > 0 }

  /** The data stage of RQ_WRITE is complete. */
  function ExecWrite(d: Dongle, p: Packet): Dongle
    requires CanStore(d)
  {
    Post((if d.mode == ModeRead then d.(acb := PushDropping(d.acb, d.acbSize, p))
          else d.(cb := PushDropping(d.cb, d.cbSize, p))).(lastTxFailed := 255))
  }

  /** RQ_READ. The reply is the packet and the "more" bit, or nothing when the ring is empty. */
  function ExecRead(d: Dongle): (r: (Dongle, Option<(Packet, bool)>)) {
    var q := if d.mode == ModeRead then d.cb else d.acb;
    if q == [] then (d, None)
    else
      (Post(if d.mode == ModeRead then d.(cb := q[1..]) else d.(acb := q[1..])), Some((q[0], |q| > 1)))
  }

  function ExecMode(d: Dongle, m: Mode): Dongle { FlushEverything(d.(mode := m)) }
}
