/** The transfer object of librf24pp/rf24iotransfer.cpp. Where the original calls
    `updateStatus(..., true)`, which makes the adaptor forget the transfer, the methods here
    say so in their result and the adaptor acts on it. */
module IOTransfers {
  import opened Types
  import Transfers

  const MAX_PAYLOAD := 32

  /** A buffer cut into packets. */
  function Pieces(pipe: byte, buf: seq<byte>): seq<Packet> {
    if buf == [] then []
    else [Packet(pipe, buf[..Min(MAX_PAYLOAD, |buf|)])] + Pieces(pipe, buf[Min(MAX_PAYLOAD, |buf|)..])
  }

  function Payloads(ps: seq<Packet>): seq<byte> {
    if ps == [] then [] else ps[0].payload + Payloads(ps[1..])
  }

  /** The pieces join to the buffer again, none is empty or too long, and only the last may be short. */
  lemma {:induction false} PiecesJoin(pipe: byte, buf: seq<byte>)
    ensures Payloads(Pieces(pipe, buf)) == buf
    ensures var ps := Pieces(pipe, buf);
      forall i :: 0 <= i < |ps| ==>
        && ps[i].pipe == pipe && 0 < |ps[i].payload| <= MAX_PAYLOAD
        && (i < |ps| - 1 ==> |ps[i].payload| == MAX_PAYLOAD)
    ensures |Pieces(pipe, buf)| == (|buf| + MAX_PAYLOAD - 1) / MAX_PAYLOAD
    decreases |buf|
  {
    if buf != [] {
      var n := Min(MAX_PAYLOAD, |buf|);
      PiecesJoin(pipe, buf[n..]);
      assert buf == buf[..n] + buf[n..];
      assert Pieces(pipe, buf)[1..] == Pieces(pipe, buf[n..]);
    }
  }

  class IOTransfer {
    var transferMode: Mode
    var isSync: bool
    var sendQueue: seq<Packet>
    var nextToSend: nat
    var numWriting: int
    var recvQueue: seq<Packet>
    var countToRead: nat
    var currentStatus: TransferStatus
    var lastWriteOk: bool

    function View(): Transfers.Transfer
      reads this
    {
      Transfers.Transfer(transferMode, isSync, sendQueue, nextToSend, numWriting,
                         recvQueue, countToRead, currentStatus, lastWriteOk)
    }

    ghost predicate Valid()
      reads this
    {
      View().Valid()
    }

    constructor ()
      ensures Valid()
      ensures View() == Transfers.Transfer(ModeAny, false, [], 0, 0, [], 1, TransferIdle, false)
    {
      transferMode, isSync, sendQueue, nextToSend, numWriting := ModeAny, false, [], 0, 0;
      recvQueue, countToRead, currentStatus, lastWriteOk := [], 1, TransferIdle, false;
    }

    method Submit()
      modifies this`nextToSend, this`currentStatus
      ensures Valid() && View() == old(View()).(nextToSend := 0, status := TransferQueued)
    {
      nextToSend := 0;
      currentStatus := TransferQueued;
    }

    method MakeWriteBulk(sync: bool)
      modifies this
      ensures View() == old(View()).(sendQueue := [], recvQueue := [], nextToSend := 0,
                                     mode := ModeWriteBulk, isSync := sync)
    {
      Clear();
      transferMode, isSync := ModeWriteBulk, sync;
    }

    /** Emptying the queue also invalidates `nextToSend`; the next `Submit` sets it. */
    method Clear()
      modifies this`sendQueue, this`recvQueue, this`nextToSend
      ensures View() == old(View()).(sendQueue := [], recvQueue := [], nextToSend := 0)
    {
      sendQueue, recvQueue, nextToSend := [], [], 0;
    }

    method AppendFromBuffer(pipe: byte, buf: seq<byte>)
      modifies this`sendQueue
      ensures sendQueue == old(sendQueue) + Pieces(pipe, buf)
    {
      var rest := buf;
      while |rest| > 0
        invariant sendQueue + Pieces(pipe, rest) == old(sendQueue) + Pieces(pipe, buf)
      {
        var tocopy := Min(MAX_PAYLOAD, |rest|);
        sendQueue := sendQueue + [Packet(pipe, rest[..tocopy])];
        rest := rest[tocopy..];
      }
    }

    method TransferStarted() returns (over: bool)
      modifies this`currentStatus
      ensures over == Transfers.EndsAtStart(old(View()))
      ensures View() == if over then Transfers.Finish(old(View()), TransferCompleted) else old(View())
    {
      over := transferMode != ModeRead && nextToSend == |sendQueue|;
      if over {
        currentStatus := TransferCompleted;
      }
    }

    method NextForWrite() returns (p: Option<Packet>)
      requires Valid()
      modifies this`numWriting, this`nextToSend
      ensures Valid() && p.None? == (old(nextToSend) == |sendQueue|)
      ensures p.None? ==> View() == old(View())
      ensures p.Some? ==> (View(), p.value) == Transfers.TakeForWrite(old(View()))
    {
      if nextToSend == |sendQueue| {
        return None;
      }
      numWriting := numWriting + 1;
      p := Some(sendQueue[nextToSend]);
      nextToSend := nextToSend + 1;
    }

    method BufferWriteDone() returns (over: bool)
      modifies this`numWriting, this`currentStatus
      ensures (View(), over) == Transfers.WriteDone(old(View()))
    {
      numWriting := numWriting - 1;
      over := !isSync && numWriting == 0 && nextToSend == |sendQueue|;
      if over {
        currentStatus := TransferCompleted;
      }
    }

    method BufferReadDone(p: Packet) returns (over: bool)
      modifies this`recvQueue, this`currentStatus
      ensures (View(), over) == Transfers.ReadDone(old(View()), p)
    {
      recvQueue := recvQueue + [p];
      over := |recvQueue| == countToRead;
      if over {
        currentStatus := TransferCompleted;
      }
    }

    /** `expired` is the clock's answer to `checkTransferTimeout`. */
    method AdaptorNowIdle(lastOk: bool, expired: bool) returns (over: bool)
      modifies this`lastWriteOk, this`currentStatus
      ensures (View(), over) == Transfers.NowIdle(old(View()), lastOk, expired)
    {
      over := false;
      if transferMode != ModeRead && isSync && numWriting == 0 && nextToSend == |sendQueue| {
        lastWriteOk := lastOk;
        currentStatus := TransferCompleted;
        over := true;
      }
      if expired && currentStatus == TransferQueued {
        currentStatus := TransferTimedOut;
        over := true;
      }
    }
  }
}
