/** The dongle firmware of src/uisp-app.c: static state changed in place, and how it carries out
    what module Dongles says a dongle does. */
module UsbApplication {
  import opened Types
  import opened Dongles
  import opened Rings
  import SharedPool

  datatype Request = RqConfig | RqOpenPipe | RqMode(mode: Mode) | RqRead | RqWrite | RqFlush

  /** The bytes of one packet on the USB pipe: its pipe number, then the payload. */
  function Encode(p: Packet): seq<byte> { [p.pipe] + p.payload }

  /** The reply to RQ_READ: as above, with the top bit of the first byte saying that there is more. */
  function EncodeReply(p: Packet, more: bool): seq<byte>
    requires p.pipe < 128
  {
    [if more then p.pipe + 128 else p.pipe] + p.payload
  }

  /** How the host reads a reply. */
  function DecodeReply(bytes: seq<byte>): (Packet, bool)
    requires bytes != []
  {
    (Packet(bytes[0] % 16, bytes[1..]), bytes[0] >= 128)
  }

  lemma ReplyRoundTrip(p: Packet, more: bool)
    requires p.pipe < 16
    ensures DecodeReply(EncodeReply(p, more)) == (p, more)
  {
  }

  function Concat(chunks: seq<seq<byte>>): seq<byte> {
    if chunks == [] then [] else Concat(chunks[..|chunks| - 1]) + chunks[|chunks| - 1]
  }

  class UsbApp {
    var systemState: Mode
    var writing: bool
    var lastRq: Request
    var rqLen: nat
    var pos: nat
    var lastTxFailed: byte
    var posted: Status
    var radio: Radio
    const msg: array<byte>
    const pcks: array<Packet>
    const cb: RingBuffer
    const acb: RingBuffer

    ghost predicate Valid()
      reads this, cb, acb, pcks, cb.elems, acb.elems
    {
      && SharedPool.Apart(cb, acb) && cb.elems == pcks && msg.Length == 128 && pos <= 128
      && cb.first == 0 && cb.size + acb.size <= pcks.Length && (acb.size > 0 ==> acb.first == cb.size)
    }

    ghost function View(): Dongle
      requires Valid()
      reads this, cb, acb, pcks, cb.elems, acb.elems
    {
      Dongle(systemState, cb.contents, cb.size, acb.contents, acb.size, writing, lastTxFailed, posted, radio)
    }

    constructor (bufferSize: nat, filler: Packet)
      ensures Valid() && pcks.Length == bufferSize && fresh(cb) && fresh(acb) && fresh(pcks) && fresh(msg)
      ensures View() == Dongle(ModeIdle, [], 0, [], 0, false, 0, posted, Radio([], None, [], [], [], []))
    {
      var pool := new Packet[bufferSize](_ => filler);
      pcks := pool;
      cb := new RingBuffer(pool);
      acb := new RingBuffer(pool);
      msg := new byte[128](_ => 0);
      systemState, writing, lastRq, rqLen, pos, lastTxFailed := ModeIdle, false, RqFlush, 0, 0, 0;
      radio := Radio([], None, [], [], [], []);
    }

    method PostInterruptMessage()
      requires Valid()
      modifies this`posted
      ensures Valid() && View() == Post(old(View()))
    {
      posted := Status(cb.count % 256, cb.size % 256, acb.count % 256, acb.size % 256,
                       lastTxFailed, radio.txFifo == []);
    }

    method FlushEverything()
      requires Valid()
      modifies this`writing, this`radio, cb`count, cb`contents, acb`count, acb`contents
      ensures Valid() && View() == Dongles.FlushEverything(old(View()))
    {
      radio := Radio([], None, [], [], [], []);
      cb.Flush();
      acb.Flush();
      writing := false;
    }

    method FillFromRadio()
      requires Valid()
      modifies this`radio, cb`start, cb`count, cb`contents, pcks
      ensures Valid() && View() == FillCb(old(View()))
    {
      while !cb.IsFull() && radio.rxFifo != []
        invariant Valid()
        invariant FillCb(View()) == FillCb(old(View()))
        decreases |radio.rxFifo|
      {
        TakeFromRadio();
      }
    }

    method TakeFromRadio()
      requires Valid() && !cb.IsFull() && radio.rxFifo != []
      modifies this`radio, cb`start, cb`count, cb`contents, pcks
      ensures Valid() && radio == old(radio).(rxFifo := old(radio).rxFifo[1..])
      ensures View() == old(View()).(cb := old(View()).cb + [old(radio).rxFifo[0]], radio := radio)
    {
      var p, rest := radio.rxFifo[0], radio.rxFifo[1..];
      PutCb(p);
      radio := radio.(rxFifo := rest);
    }

    method PutCb(p: Packet)
      requires Valid() && cb.size > 0
      modifies cb`start, cb`count, cb`contents, pcks
      ensures Valid() && View() == old(View()).(cb := PushDropping(old(View()).cb, cb.size, p))
    {
      SharedPool.Put(cb, acb, p);
    }

    method PutAcb(p: Packet)
      requires Valid() && acb.size > 0
      modifies acb`start, acb`count, acb`contents, pcks
      ensures Valid() && View() == old(View()).(acb := PushDropping(old(View()).acb, acb.size, p))
    {
      SharedPool.Put(acb, cb, p);
    }

    method ServeStream()
      requires Valid()
      modifies this`radio, this`writing, this`lastTxFailed, this`posted, cb`start, cb`count, cb`contents
      ensures Valid() && View() == StreamStart(StreamFinish(old(View())))
    {
      if writing && radio.event.Some? {
        FinishWrite();
      }
      if !writing {
        StartWrite();
      }
    }

    method FinishWrite()
      requires Valid() && writing && radio.event.Some?
      modifies this`radio, this`writing, this`lastTxFailed, this`posted, cb`start, cb`count, cb`contents
      ensures Valid() && View() == StreamFinish(old(View()))
    {
      writing := false;
      var failed := !radio.event.value;
      radio := radio.(event := None);
      lastTxFailed := if failed then 1 else 0;
      PostInterruptMessage();
      if failed {
        radio := FlushTx(radio);
      }
      var _ := cb.Read();
    }

    method StartWrite()
      requires Valid() && !writing
      modifies this`radio, this`writing
      ensures Valid() && View() == StreamStart(old(View()))
    {
      var p := cb.Peek();
      if p.Some? {
        radio := Load(radio, p.value);
        writing := true;
      }
    }

    /** `room` is how many packets the radio takes before it answers -EAGAIN. */
    method ServeBulk(room: nat)
      requires Valid()
      modifies this`radio, cb`start, cb`count, cb`contents
      ensures Valid() && View() == DrainBulk(old(View()), room)
    {
      var left := room;
      var again := false;
      while !again
        invariant Valid() && cb.size == old(cb.size)
        invariant DrainBulk(View(), left) == DrainBulk(old(View()), room)
        invariant again ==> left == 0
        decreases left, !again
      {
        var p := cb.Peek();
        if p.None? {
          break;
        }
        if left == 0 {
          again := true;
        } else {
          radio := Load(radio, p.value);
          var _ := cb.Read();
          left := left - 1;
        }
      }
    }

    /** The main loop's service of the radio. */
    method ProcessRadioTransfers(room: nat)
      requires Valid()
      modifies this`radio, this`writing, this`lastTxFailed, this`posted, cb`start, cb`count, cb`contents, pcks
      ensures Valid() && View() == ProcessRadio(old(View()), room)
    {
      match systemState
      case ModeRead => FillFromRadio();
      case ModeWriteStream => ServeStream();
      case ModeWriteBulk =>
        ServeBulk(room);
        radio := radio.(event := None);
      case _ =>
    }

    /** A setup packet. Some(bytes) is the whole reply; None means that a data stage follows. */
    method UsbFunctionSetup(rq: Request, length: nat) returns (reply: Option<seq<byte>>)
      requires Valid()
      requires rq == RqRead ==>
        forall p :: p in cb.contents || p in acb.contents ==> p.pipe < 128 && |p.payload| <= 32
      modifies this, cb`count, cb`start, cb`contents, acb`count, acb`start, acb`contents, msg
      ensures Valid()
      ensures rq.RqMode? ==> reply == Some([]) && View() == ExecMode(old(View()), rq.mode)
      ensures rq == RqFlush ==> reply == Some([]) && View() == Dongles.FlushEverything(old(View()))
      ensures rq == RqRead ==>
        var (d, r) := ExecRead(old(View()));
        View() == d && reply == Some(if r.None? then [] else EncodeReply(r.value.0, r.value.1))
      ensures !rq.RqMode? && rq != RqFlush && rq != RqRead ==>
        reply == None && View() == old(View()) && lastRq == rq && rqLen == length && pos == 0
    {
      match rq
      case RqMode(m) =>
        systemState := m;
        FlushEverything();
        reply := Some([]);
      case RqFlush =>
        FlushEverything();
        reply := Some([]);
      case RqRead =>
        reply := ReadPacket();
      case _ =>
        lastRq, rqLen, pos := rq, length, 0;
        reply := None;
    }

    method ReadPacket() returns (reply: Option<seq<byte>>)
      requires Valid()
      requires forall p :: p in cb.contents || p in acb.contents ==> p.pipe < 128 && |p.payload| <= 32
      modifies this`posted, cb`count, cb`start, cb`contents, acb`count, acb`start, acb`contents, msg
      ensures Valid()
      ensures var (d, r) := ExecRead(old(View()));
        View() == d && reply == Some(if r.None? then [] else EncodeReply(r.value.0, r.value.1))
    {
      var buf := if systemState == ModeRead then cb else acb;
      ghost var held := buf.contents;
      var q := buf.Read();
      if q.None? {
        return Some([]);
      }
      assert q.value in held;
      var bytes := ComposeReply(q.value, !buf.IsEmpty());
      PostInterruptMessage();
      reply := Some(bytes);
    }

    method ComposeReply(p: Packet, more: bool) returns (bytes: seq<byte>)
      requires msg.Length == 128 && p.pipe < 128 && |p.payload| <= 32
      modifies msg
      ensures bytes == EncodeReply(p, more)
    {
      msg[0] := p.pipe;
      if more {
        msg[0] := msg[0] + 128;
      }
      forall i | 0 <= i < |p.payload| {
        msg[1 + i] := p.payload[i];
      }
      bytes := msg[..|p.payload| + 1];
    }

    /** A chunk of the data stage of RQ_WRITE. Only the last chunk has an effect outside the message buffer. */
    method UsbFunctionWrite(data: seq<byte>) returns (finished: bool)
      requires Valid() && lastRq == RqWrite && 0 < rqLen <= 33 && pos + |data| <= rqLen
      requires CanStore(View())
      modifies this`pos, this`posted, this`lastTxFailed, pcks, msg
      modifies cb`count, cb`start, cb`contents, acb`count, acb`start, acb`contents
      ensures Valid() && finished == (old(pos) + |data| == rqLen)
      ensures !finished ==> View() == old(View()) && pos == old(pos) + |data| && msg[..pos] == old(msg[..pos]) + data
      ensures finished ==>
        var bytes := old(msg[..pos]) + data;
        View() == ExecWrite(old(View()), Packet(bytes[0], bytes[1..]))
    {
      Append(data);
      if pos != rqLen {
        return false;
      }
      EndOfWrite();
      finished := true;
    }

    method Append(data: seq<byte>)
      requires Valid() && pos + |data| <= 128
      modifies this`pos, msg
      ensures Valid() && View() == old(View()) && pos == old(pos) + |data|
      ensures msg[..pos] == old(msg[..pos]) + data
    {
      forall i | 0 <= i < |data| {
        msg[pos + i] := data[i];
      }
      pos := pos + |data|;
    }

    method EndOfWrite()
      requires Valid() && 0 < pos <= 33 && CanStore(View())
      modifies this`posted, this`lastTxFailed, pcks, msg
      modifies cb`count, cb`start, cb`contents, acb`count, acb`start, acb`contents
      ensures Valid() && View() == ExecWrite(old(View()), Packet(old(msg[0]), old(msg[1..pos])))
    {
      StorePacket(Packet(msg[0], msg[1..pos]));
      lastTxFailed := 255;
      PostInterruptMessage();
      msg[0], msg[1] := 79, 0;
    }

    method StorePacket(p: Packet)
      requires Valid() && CanStore(View())
      modifies cb`count, cb`start, cb`contents, acb`count, acb`start, acb`contents, pcks
      ensures Valid()
      ensures View() == if systemState == ModeRead
                        then old(View()).(acb := PushDropping(old(View()).acb, acb.size, p))
                        else old(View()).(cb := PushDropping(old(View()).cb, cb.size, p))
    {
      if systemState == ModeRead {
        PutAcb(p);
      } else {
        PutCb(p);
      }
    }

    /** However the USB stack cuts the data stage into chunks, the packet stored is the one sent. */
    method WriteInChunks(p: Packet, chunks: seq<seq<byte>>)
      requires Valid() && CanStore(View()) && |p.payload| <= 32
      requires Concat(chunks) == Encode(p) && chunks[|chunks| - 1] != []
      modifies this, cb`count, cb`start, cb`contents, acb`count, acb`start, acb`contents, pcks, msg
      ensures Valid() && View() == ExecWrite(old(View()), p)
    {
      var _ := UsbFunctionSetup(RqWrite, |p.payload| + 1);
      for k := 0 to |chunks| - 1
        invariant Valid() && View() == old(View()) && lastRq == RqWrite && rqLen == |p.payload| + 1
        invariant msg[..pos] == Concat(chunks[..k])
      {
        ConcatSplit(chunks, k);
        var finished := UsbFunctionWrite(chunks[k]);
      }
      ConcatSplit(chunks, |chunks| - 1);
      var finished := UsbFunctionWrite(chunks[|chunks| - 1]);
    }

    /** RQ_CONFIG: everything is flushed and posted, then the rings get their sizes. `start` stays as it
        was, so the rings remain well formed exactly when each old `start` lies within its new size. */
    method Configure(ackPayloads: bool)
      requires Valid()
      modifies this`writing, this`radio, this`lastTxFailed, this`posted, cb, acb
      ensures cb.contents == [] && acb.contents == [] && radio == Radio([], None, [], [], [], [])
      ensures cb.size == if ackPayloads then pcks.Length / 2 else pcks.Length
      ensures acb.size == if ackPayloads then pcks.Length / 2 else 0
      ensures posted == Status(0, old(cb.size) % 256, 0, old(acb.size) % 256, 0, true)
      ensures Valid() <==>
        (cb.size > 0 ==> old(cb.start) < cb.size) && (acb.size > 0 ==> old(acb.start) < acb.size)
    {
      FlushEverything();
      lastTxFailed := 0;
      PostInterruptMessage();
      if ackPayloads {
        cb.size, acb.size := pcks.Length / 2, pcks.Length / 2;
        cb.first, acb.first := 0, pcks.Length / 2;
      } else {
        cb.size, cb.first, acb.size := pcks.Length, 0, 0;
      }
    }
  }

  lemma ConcatSplit(chunks: seq<seq<byte>>, k: nat)
    requires k < |chunks| && chunks[|chunks| - 1] != []
    ensures Concat(chunks[..k + 1]) == Concat(chunks[..k]) + chunks[k]
    ensures |Concat(chunks[..k + 1])| <= |Concat(chunks)|
    ensures k < |chunks| - 1 ==> |Concat(chunks[..k + 1])| < |Concat(chunks)|
    ensures Concat(chunks[..k + 1]) <= Concat(chunks)
    decreases |chunks| - k
  {
    assert chunks[..k + 1][..k] == chunks[..k];
    if k + 1 < |chunks| {
      ConcatSplit(chunks, k + 1);
    } else {
      assert chunks[..k + 1] == chunks;
    }
  }
}
