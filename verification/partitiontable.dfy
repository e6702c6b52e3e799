/** The partition table object of librf24pp/rf24ptable.cpp while it writes a file. */
module PartitionTables {
  import opened Types
  import opened Framing
  import opened Chips
  import opened RestoreJobs
  import opened IOTransfers
  import Transfers
  import Conservation
  import Multiples

  const PIPE_WRITE: byte := 6

  /** Commands as the packets that carry them. */
  function Pack(cs: seq<Command>): (ps: seq<Packet>)
    requires Sized(cs)
    ensures |ps| == |cs|
  {
    seq(|cs|, i requires 0 <= i < |cs| => Packet(PIPE_WRITE, Frame(cs[i], SENT_DATA)))
  }

  lemma PackAppend(a: seq<Command>, b: seq<Command>)
    requires Sized(a) && Sized(b)
    ensures Sized(a + b) && Pack(a + b) == Pack(a) + Pack(b)
  {
  }

  lemma OnePiece(buf: seq<byte>)
    requires 0 < |buf| <= MAX_PAYLOAD
    ensures Pieces(PIPE_WRITE, buf) == [Packet(PIPE_WRITE, buf)]
  {
    assert buf[..|buf|] == buf;
    assert Pieces(PIPE_WRITE, buf[|buf|..]) == [];
  }

  /** A bulk transfer that waits for nothing. */
  ghost predicate Asynchronous(t: Transfers.Transfer) {
    Transfers.Fresh(t, ModeWriteBulk) && !t.isSync && t.sendQueue != []
  }

  /** Transfers that bring a job to the device: bulk transfers that carry all of it, of which only the last one
      waits until everything is delivered. */
  ghost predicate Carries(ts: seq<Transfers.Transfer>, job: Job)
    requires job.Valid()
  {
    && Conservation.Flatten(Transfers.Loads(ts)) == Pack(job.Emission())
    && ts != [] && (forall i :: 0 <= i < |ts| - 1 ==> Asynchronous(ts[i]))
    && Transfers.Fresh(ts[|ts| - 1], ModeWriteBulk) && ts[|ts| - 1].isSync
    && (ts[|ts| - 1].sendQueue == [] <==> job.pad <= 1)
  }

  class PartitionTable {
    const part: byte
    const size: nat
    const ioSize: nat
    const pad: nat
    const file: seq<byte>
    var filePos: nat                 // where the next read starts
    var addr: nat                    // the command under construction
    var data: seq<byte>
    var io: IOTransfer
    var executed: seq<Transfers.Transfer>  // the transfers as they were submitted

    ghost const plan: Job            // the same as a job, with what the data bytes held at first

    ghost predicate Valid()
      reads this
    {
      && plan.Valid() && plan.file == file && plan.q == ioSize && plan.Size() == size
      && plan.pad == pad && plan.part == part
      && filePos <= |file| && |data| == DATA_SIZE
    }

    /** Chunk k is next. */
    ghost predicate At(k: nat)
      reads this
    {
      && Valid() && k <= plan.Count() && addr == k * ioSize
      && filePos == Min(k * ioSize, |file|) && data == plan.Buffer(k)
    }

    constructor (part: byte, size: nat, ioSize: nat, pad: nat, file: seq<byte>, memory: seq<byte>, ghost rooms: nat)
      requires Job(file, ioSize, rooms, pad, part, memory).Valid() && size == rooms * ioSize
      ensures At(0) && executed == [] && fresh(io) && plan == Job(file, ioSize, rooms, pad, part, memory)
    {
      this.part, this.size, this.ioSize, this.pad, this.file := part, size, ioSize, pad, file;
      filePos, addr, data, executed := 0, 0, memory, [];
      plan := Job(file, ioSize, rooms, pad, part, memory);
      io := new IOTransfer();
    }

    function NumToQueue(currentAddr: nat): nat
      requires ioSize > 0
    {
      if currentAddr >= size then 0 else Min(PACKETS_PER_RUN, (size - currentAddr) / ioSize)
    }

    lemma RoomsLeft(k: nat)
      requires Valid() && k <= plan.rooms
      ensures k * ioSize >= size <==> k == plan.rooms
      ensures NumToQueue(k * ioSize) == Min(PACKETS_PER_RUN, plan.rooms - k)
    {
      var left := plan.rooms - k;
      assert size - k * ioSize == left * ioSize;
      Multiples.MultipleOf(left, ioSize);
      if left > 0 {
        Multiples.Monotone(1, left, ioSize);
      }
    }

    /** `fread` of one chunk over the front of the command's data. */
    method ReadChunk(ghost k: nat) returns (count: nat)
      requires At(k) && k < plan.rooms
      modifies this`data, this`filePos
      ensures count == 0 <==> k == plan.Count()
      ensures count == 0 ==> At(k)
      ensures count > 0 ==> Valid() && data == plan.Buffer(k + 1) && filePos == Min(k * ioSize + ioSize, |file|)
    {
      plan.EndOfFile(k);
      count := Min(ioSize, |file| - filePos);
      var slice := file[filePos..filePos + count];
      assert slice == plan.Slice(k);
      data := slice + data[count..];
      assert data == Overlay(plan.Buffer(k), 0, slice);
      filePos := filePos + count;
    }

    /** Queues the command as one packet. */
    method Queue()
      requires Valid() && addr < ADDRESS_LIMIT
      modifies io`sendQueue
      ensures Sized([Command(OP_WRITE, part, addr, data)])
      ensures io.sendQueue == old(io.sendQueue) + Pack([Command(OP_WRITE, part, addr, data)])
    {
      var bytes := Frame(Command(OP_WRITE, part, addr, data), SENT_DATA);
      OnePiece(bytes);
      io.AppendFromBuffer(PIPE_WRITE, bytes);
    }

    /** On to the next address. */
    method Advance(ghost k: nat)
      requires Valid() && k < plan.Count() && addr == k * ioSize
      requires data == plan.Buffer(k + 1) && filePos == Min(k * ioSize + ioSize, |file|)
      modifies this`addr
      ensures At(k + 1)
    {
      assert (k + 1) * ioSize == k * ioSize + ioSize;
      addr := addr + ioSize;
    }

    /** The bound of the loop as it is tested at chunk j. */
    function TestedAt(j: nat): nat
      requires ioSize > 0
    {
      NumToQueue(j * ioSize)
    }

    /** A batch from chunk k to chunk `next`, with so many packets: each turn passed the test that was made for it,
        and the next one would not, unless the file ended there, which costs one packet more. */
    ghost predicate StopsAsTested(k: nat, next: nat, packets: nat)
      requires Valid()
      reads this
    {
      && (forall j :: k <= j < next ==> j - k < TestedAt(j))
      && (next < plan.Count() ==> next - k >= TestedAt(next))
      && packets == next - k + if next - k < TestedAt(next) then 1 else 0
    }

    lemma BatchStops(k: nat, next: nat)
      requires Valid() && k < plan.Count() && next == Min(k + plan.Batch(k), plan.Count())
      ensures StopsAsTested(k, next, |plan.Data(k, next) + plan.Tail(k, next)|)
      ensures next == k + plan.Batch(k) ==> plan.Data(k, next) + plan.Tail(k, next) == plan.Data(k, next)
    {
      plan.BatchIsFirstStop(k);
      forall j | k <= j <= next ensures TestedAt(j) == plan.BoundAt(j) {
        RoomsLeft(j);
      }
    }

    lemma OneChunkMore(k: nat, next: nat)
      requires Valid() && k <= next
      ensures Pack(plan.Data(k, next)) + Pack([plan.Write(next, plan.Buffer(next + 1))]) == Pack(plan.Data(k, next + 1))
    {
      PackAppend(plan.Data(k, next), [plan.Write(next, plan.Buffer(next + 1))]);
      assert plan.Data(k, next + 1) == plan.Data(k, next) + [plan.Write(next, plan.Buffer(next + 1))];
    }

    /** One batch. Its end is where the job says, and the leftover command follows if the file ended inside. */
    method ReadSome(ghost k: nat) returns (more: bool, ghost next: nat)
      requires At(k)
      modifies this`data, this`filePos, this`addr, io`sendQueue, io`recvQueue, io`nextToSend
      ensures At(next) && io.recvQueue == [] && more == (k < plan.Count())
      ensures !more ==> next == k && io.sendQueue == []
      ensures more ==> next == Min(k + plan.Batch(k), plan.Count())
      ensures more ==> StopsAsTested(k, next, |io.sendQueue|)
      ensures more ==> io.sendQueue == Pack(plan.Data(k, next) + plan.Tail(k, next))
    {
      plan.BatchIsFirstStop(k);
      assert ioSize > 0 && plan.rooms > 0 && plan.Size() < ADDRESS_LIMIT;
      hide StopsAsTested, NumToQueue, Job.Valid, Job.Size, Job.Batch, Job.Buffer, Job.Slice, Job.Count, Pack, Overlay;
      io.Clear();
      next := k;
      RoomsLeft(k);
      if NumToQueue(addr) == 0 {
        return false, next;
      }
      var i := 0;
      while i < NumToQueue(addr)
        invariant At(next) && next == k + i && i <= plan.Batch(k) && k < plan.rooms
        invariant io.sendQueue == Pack(plan.Data(k, next)) && io.recvQueue == []
        invariant NumToQueue(addr) == Min(PACKETS_PER_RUN, plan.rooms - next)
        decreases plan.Batch(k) - i
      {
        plan.EndOfFile(next);
        var ret := ReadChunk(next);
        if ret == 0 && i == 0 {
          return false, next;
        }
        Queue();
        if ret == 0 {
          PackAppend(plan.Data(k, next), [plan.Write(next, plan.Buffer(next))]);
          BatchStops(k, next);
          return true, next;
        }
        OneChunkMore(k, next);
        Advance(next);
        next := next + 1;
        i := i + 1;
        RoomsLeft(next);
        if addr >= size {
          BatchStops(k, next);
          return true, next;
        }
      }
      BatchStops(k, next);
      more := true;
    }

    /** The transfer has been set up for bulk writing and nothing has happened to it. */
    ghost predicate Prepared(sync: bool)
      reads this, io
    {
      && io.transferMode == ModeWriteBulk && io.isSync == sync && io.numWriting == 0 && io.recvQueue == []
    }

    /** Runs the transfer; it takes what is queued. */
    method Execute()
      modifies this`executed, io`nextToSend, io`currentStatus
      ensures executed == old(executed) + [io.View()]
      ensures io.View() == old(io.View()).(nextToSend := 0, status := TransferQueued)
    {
      io.Submit();
      executed := executed + [io.View()];
    }

    /** What went out while chunk k is next: whole batches, or everything with the leftover command. */
    ghost predicate SoFar(k: nat)
      requires Valid() && k <= plan.Count()
      reads this
    {
      var sent := Conservation.Flatten(Transfers.Loads(executed));
      || (plan.Boundary(0, k) && sent == Pack(plan.Data(0, k)))
      || (k == plan.Count() && !plan.Boundary(0, k) && sent == Pack(plan.Data(0, k) + plan.Leftover()))
    }

    lemma BatchSent(k: nat, next: nat, before: seq<Transfers.Transfer>, t: Transfers.Transfer)
      requires Valid() && k < plan.Count() && next == Min(k + plan.Batch(k), plan.Count())
      requires plan.Boundary(0, k) && Conservation.Flatten(Transfers.Loads(before)) == Pack(plan.Data(0, k))
      requires executed == before + [t] && t.sendQueue == Pack(plan.Data(k, next) + plan.Tail(k, next))
      ensures SoFar(next)
    {
      OneMoreLoad(before, t);
      PackAppend(plan.Data(0, k), plan.Data(k, next) + plan.Tail(k, next));
      assert plan.Data(0, next) == plan.Data(0, k) + plan.Data(k, next);
      assert plan.Data(0, k) + (plan.Data(k, next) + plan.Tail(k, next)) == plan.Data(0, next) + plan.Tail(k, next);
      plan.BoundaryThrough(0, k, next);
      assert plan.Data(0, next) + [] == plan.Data(0, next);
    }

    /** Sends all the file. */
    method SendFile()
      requires At(0) && executed == [] && Prepared(false)
      modifies this`data, this`filePos, this`addr, this`executed
      modifies io`sendQueue, io`recvQueue, io`nextToSend, io`currentStatus
      ensures At(plan.Count()) && Prepared(false)
      ensures Conservation.Flatten(Transfers.Loads(executed)) == Pack(plan.Data(0, plan.Count()) + plan.Leftover())
      ensures forall i :: 0 <= i < |executed| ==> Asynchronous(executed[i])
    {
      ghost var k := 0;
      var more := true;
      while more
        invariant At(k) && SoFar(k) && Prepared(false)
        invariant forall i :: 0 <= i < |executed| ==> Asynchronous(executed[i])
        invariant !more ==> k == plan.Count()
        decreases plan.Count() - k, more
      {
        ghost var next;
        more, next := ReadSome(k);
        if more {
          ghost var before := executed;
          Execute();
          BatchSent(k, next, before, io.View());
        }
        k := next;
      }
      assert plan.Boundary(0, k) ==> plan.Data(0, k) + plan.Leftover() == plan.Data(0, k);
    }

    /** The padding loop: filler from the current address to the next page start. */
    method QueuePadding()
      requires Valid() && pad > 1 && addr == plan.Count() * ioSize && data == plan.Fill() && io.sendQueue == []
      modifies this`addr, io`sendQueue
      ensures io.sendQueue == Pack(plan.Padding(plan.Count(), plan.PageEnd(plan.Count())))
      ensures addr == plan.PageEnd(plan.Count()) * ioSize
    {
      ghost var n := plan.Count();
      ghost var j := n;
      plan.EndWithinLimit();
      var more := true;
      while more
        invariant Valid() && n <= j <= plan.PageEnd(n) && addr == j * ioSize && data == plan.Fill()
        invariant more == (j < plan.PageEnd(n))
        invariant io.sendQueue == Pack(plan.Padding(n, j))
        decreases plan.PageEnd(n) - j
      {
        Multiples.Monotone(j + 1, plan.PageEnd(n), ioSize);
        assert (j + 1) * ioSize == j * ioSize + ioSize;
        Queue();
        PackAppend(plan.Padding(n, j), [plan.Write(j, data)]);
        assert plan.Padding(n, j + 1) == plan.Padding(n, j) + [plan.Write(j, data)];
        addr := addr + ioSize;
        j := j + 1;
        plan.PageEndIsNext(n, j);
        more := addr % pad != 0;
      }
    }

    /** `restore`: the file, then padding, in a transfer that also makes the dongle deliver everything.
        Without padding that transfer is empty. */
    method Restore()
      requires At(0) && executed == []
      modifies this
      ensures Carries(executed, plan)
    {
      hide Job.Emission, Job.Padding, Job.Data, Job.Leftover, Job.PageEnd, Job.Buffer, Conservation.Flatten;
      var toWrite := Min(|file|, size);
      var paddedSize := toWrite;
      if pad > 1 {
        toWrite := toWrite + (pad - toWrite % pad);
      }
      io := new IOTransfer();
      io.MakeWriteBulk(false);
      SendFile();
      io.Clear();
      io.MakeWriteBulk(true);
      data := seq(ioSize, _ => FILLER) + data[ioSize..];
      assert data == plan.Fill();
      if paddedSize != toWrite {
        QueuePadding();
      }
      ghost var sent := executed;
      Execute();
      LastSent(sent, io.View());
    }

    lemma LastSent(sent: seq<Transfers.Transfer>, last: Transfers.Transfer)
      requires Valid()
      requires Conservation.Flatten(Transfers.Loads(sent)) == Pack(plan.Data(0, plan.Count()) + plan.Leftover())
      requires last.sendQueue == if pad > 1 then Pack(plan.Padding(plan.Count(), plan.PageEnd(plan.Count()))) else []
      ensures Conservation.Flatten(Transfers.Loads(sent + [last])) == Pack(plan.Emission())
    {
      OneMoreLoad(sent, last);
      var file := plan.Data(0, plan.Count()) + plan.Leftover();
      if pad > 1 {
        PackAppend(file, plan.Padding(plan.Count(), plan.PageEnd(plan.Count())));
      } else {
        assert file + [] == file;
      }
    }
  }

  lemma OneMoreLoad(sent: seq<Transfers.Transfer>, t: Transfers.Transfer)
    ensures Conservation.Flatten(Transfers.Loads(sent + [t])) ==
      Conservation.Flatten(Transfers.Loads(sent)) + t.sendQueue
  {
    assert Transfers.Loads(sent + [t]) == Transfers.Loads(sent) + [t.sendQueue];
    Conservation.FlattenAppend(Transfers.Loads(sent), [t.sendQueue]);
    Conservation.FlattenOne(t.sendQueue);
  }
}
