/** From the file on the host to the memory of the device. */
module EndToEnd {
  import opened Types
  import opened Framing
  import opened Chips
  import opened RestoreJobs
  import opened Restored
  import opened PartitionTables
  import opened Devices
  import Protocol
  import Transfers
  import FlowControl
  import Retirement
  import Conservation
  import WritePhase
  import Readback
  import Multiples

  // On flash

  /** The k-th command addresses chunk ChunkNo(k). */
  ghost function ChunkNo(job: Job, k: nat): nat
    requires job.Valid()
  {
    if k < job.Count() + |job.Leftover()| then k else k - |job.Leftover()|
  }

  lemma EmissionAddress(job: Job, k: nat)
    requires job.Valid() && k < |job.Emission()|
    ensures job.Emission()[k].addr == ChunkNo(job, k) * job.q
    ensures job.pad > 1 ==> ChunkNo(job, k) < job.PageEnd(job.Count())
    ensures job.pad <= 1 ==> ChunkNo(job, k) < job.Count() + |job.Leftover()|
  {
    var n := job.Count();
    if k < n {
      assert job.Emission()[k] == job.Data(0, n)[k];
    } else if k < n + |job.Leftover()| {
      assert job.Emission()[k] == job.Leftover()[k - n];
    } else {
      assert job.Emission()[k] == Padded(job)[k - n - |job.Leftover()|];
    }
  }

  lemma NextAddress(job: Job, k: nat)
    requires job.Valid() && k + 1 < |job.Emission()|
    ensures var a, b := job.Emission()[k].addr, job.Emission()[k + 1].addr;
      b == a || b == a + job.q
  {
    EmissionAddress(job, k);
    EmissionAddress(job, k + 1);
    Multiples.Succ(ChunkNo(job, k), job.q);
    assert ChunkNo(job, k + 1) == ChunkNo(job, k) || ChunkNo(job, k + 1) == ChunkNo(job, k) + 1;
  }

  lemma EmissionSteady(job: Job)
    requires job.Valid()
    ensures Steady(Writes(job.Emission(), job.q), 0, job.q)
  {
    var ws := Writes(job.Emission(), job.q);
    if ws != [] {
      EmissionAddress(job, 0);
      assert ChunkNo(job, 0) == 0;
    }
    forall i | 0 <= i < |ws| - 1
      ensures ws[i + 1].addr == ws[i].addr || ws[i + 1].addr == ws[i].addr + job.q
    {
      NextAddress(job, i);
    }
  }

  /** Padding ends at the start of a page: the first one above the last chunk with data. */
  lemma EndIsNextPage(job: Job)
    requires job.Valid() && job.pad > 1
    ensures End(job) == (job.Count() * job.q / job.pad + 1) * job.pad && End(job) % job.pad == 0
  {
    var n := job.Count();
    hide Job.Count, Job.PageEnd;
    job.PageEndIsNext(n, job.PageEnd(n));
    job.EndWithinLimit();
    Multiples.Monotone(n + 1, job.PageEnd(n), job.q);
    Multiples.Succ(n, job.q);
    Multiples.NextMultiple(n * job.q, End(job), job.pad);
  }

  lemma AddressFits(job: Job, i: nat)
    requires job.Valid() && job.pad > 1 && i < |job.Emission()|
    ensures var addr := job.Emission()[i].addr;
      addr % job.q == 0 && addr + job.q <= End(job) && PageOf(addr, job.pad) + job.pad <= End(job)
  {
    EmissionAddress(job, i);
    var k, addr := ChunkNo(job, i), job.Emission()[i].addr;
    Multiples.MultipleOf(k, job.q);
    Multiples.Monotone(k + 1, job.PageEnd(job.Count()), job.q);
    Multiples.Succ(k, job.q);
    EndIsNextPage(job);
    PageBounds(addr, job.pad, job.q);
    Multiples.Room(PageOf(addr, job.pad), End(job), job.pad);
  }

  lemma EmissionFits(job: Job, size: nat)
    requires job.Valid() && job.pad > 1 && End(job) <= size
    ensures Fits(Writes(job.Emission(), job.q), job.q, job.pad, size)
  {
    var ws := Writes(job.Emission(), job.q);
    forall i | 0 <= i < |ws|
      ensures |ws[i].data| == job.q && ws[i].addr % job.q == 0 && PageOf(ws[i].addr, job.pad) + job.pad <= size
    {
      AddressFits(job, i);
    }
  }

  lemma LastWrite(job: Job)
    requires job.Valid() && job.pad > 1
    ensures job.Emission() != [] && job.Emission()[|job.Emission()| - 1].addr + job.q == End(job)
  {
    var k := |job.Emission()| - 1;
    var e := job.PageEnd(job.Count());
    EmissionLength(job);
    EmissionAddress(job, k);
    Multiples.Succ(e - 1, job.q);
  }

  lemma EmissionLength(job: Job)
    requires job.Valid() && job.pad > 1
    ensures |job.Emission()| == |job.Leftover()| + job.PageEnd(job.Count())
  {
  }

  /** Up to the end of the job, flash and direct memory are the same afterwards; above, flash is untouched. */
  lemma EmissionOnFlash(job: Job, c: Chip)
    requires job.Valid() && job.pad > 1 && |c.pbuf| == job.pad && End(job) <= |c.flash|
    ensures var ws := Writes(job.Emission(), job.q);
      && Fits(ws, job.q, |c.pbuf|, |c.flash|) && Inside(ws, |c.flash|)
      && forall i :: 0 <= i < |c.flash| ==>
           WriteAll(c, ws, job.q).flash[i] == if i < End(job) then WriteAllDirect(c.flash, ws)[i] else c.flash[i]
  {
    EmissionFits(job, |c.flash|);
    EmissionSteady(job);
    LastWrite(job);
    EndIsNextPage(job);
    hide *;
    WholePages(c, Writes(job.Emission(), job.q), job.q);
  }

  /** On flash a job leaves the same image, whatever flash and page buffer held before. */
  lemma FlashImage(job: Job, c: Chip)
    requires job.Valid() && job.pad > 1 && |c.pbuf| == job.pad && End(job) <= |c.flash|
    ensures var ws := Writes(job.Emission(), job.q);
      Fits(ws, job.q, |c.pbuf|, |c.flash|) && Image(job, c.flash, WriteAll(c, ws, job.q).flash)
  {
    var ws := Writes(job.Emission(), job.q);
    EmissionOnFlash(job, c);
    DirectImage(job, c.flash);
    LengthBelow(job);
    Ends(job);
    SameImage(job, c.flash, WriteAllDirect(c.flash, ws), WriteAll(c, ws, job.q).flash);
  }

  lemma SameImage(job: Job, mem: seq<byte>, direct: seq<byte>, flash: seq<byte>)
    requires job.Valid() && Image(job, mem, direct) && |flash| == |mem| && job.Length() <= End(job)
    requires forall i :: 0 <= i < |mem| ==> flash[i] == if i < End(job) then direct[i] else mem[i]
    ensures Image(job, mem, flash)
  {
  }

  lemma EndInside(job: Job)
    requires job.Valid() && job.pad > 1 && job.Size() % job.pad == 0 && job.Count() < job.rooms
    ensures End(job) <= job.Size()
  {
    EndIsNextPage(job);
    Multiples.Monotone(job.Count() + 1, job.rooms, job.q);
    Multiples.Succ(job.Count(), job.q);
    Multiples.NextPageWithin(job.Count() * job.q, job.Size(), job.pad);
  }

  /** Every write stays inside the partition exactly when the file leaves at least one chunk of it free. */
  lemma InsideExactlyWhenRoomLeft(job: Job)
    requires job.Valid() && job.pad > 1 && job.Size() % job.pad == 0
    ensures (forall i :: 0 <= i < |job.Emission()| ==> job.Emission()[i].addr + job.q <= job.Size())
            <==> job.Count() < job.rooms
  {
    EmissionLength(job);
    if job.Count() < job.rooms {
      EndInside(job);
      forall i | 0 <= i < |job.Emission()| ensures job.Emission()[i].addr + job.q <= job.Size() {
        AddressFits(job, i);
      }
    } else {
      var k := job.Count() + |job.Leftover()|;
      EmissionAddress(job, k);
      assert ChunkNo(job, k) == job.Count();
    }
  }

  // Over the air

  /** What a device makes of the packets, when before packet i its command memory held stale(i). */
  ghost function Heard(ps: seq<Packet>, stale: nat -> seq<byte>): (cs: seq<Command>)
    requires forall i :: 0 <= i < |ps| ==> 6 <= |ps[i].payload| <= 6 + DATA_SIZE
    requires forall i :: |stale(i)| == DATA_SIZE
    ensures |cs| == |ps| && forall i :: 0 <= i < |ps| ==> cs[i] == Unframe(ps[i].payload, stale(i))
    ensures Sized(cs)
  {
    seq(|ps|, i requires 0 <= i < |ps| => Unframe(ps[i].payload, stale(i)))
  }

  /** Chunks of up to 25 bytes get through exactly as they were meant. */
  lemma HeardAsMeant(job: Job, stale: nat -> seq<byte>)
    requires job.Valid() && job.q <= SENT_DATA && forall i :: |stale(i)| == DATA_SIZE
    ensures var cs := Heard(Pack(job.Emission()), stale);
      && Writes(cs, job.q) == Writes(job.Emission(), job.q)
      && forall i :: 0 <= i < |cs| ==> cs[i].op == OP_WRITE && cs[i].part == job.part && cs[i].addr < ADDRESS_LIMIT
  {
    var es := job.Emission();
    var cs := Heard(Pack(es), stale);
    forall i | 0 <= i < |cs|
      ensures cs[i].op == OP_WRITE && cs[i].part == job.part && cs[i].addr == es[i].addr < ADDRESS_LIMIT
      ensures cs[i].data[..job.q] == es[i].data[..job.q]
    {
      AddressInRange(job, i);
      EmissionWritesOnly(job, i);
      FrameRoundTrip(es[i], SENT_DATA, stale(i));
    }
  }

  lemma AddressInRange(job: Job, i: nat)
    requires job.Valid() && i < |job.Emission()|
    ensures job.Emission()[i].addr < ADDRESS_LIMIT
  {
    if job.pad > 1 {
      AddressFits(job, i);
      job.EndWithinLimit();
    } else {
      EmissionAddress(job, i);
      Multiples.Monotone(ChunkNo(job, i), job.rooms, job.q);
    }
  }

  lemma EmissionWritesOnly(job: Job, i: nat)
    requires job.Valid() && i < |job.Emission()|
    ensures job.Emission()[i].op == OP_WRITE && job.Emission()[i].part == job.part
  {
    var n := job.Count();
    if i < n {
      assert job.Emission()[i] == job.Data(0, n)[i];
    } else if i < n + |job.Leftover()| {
      assert job.Emission()[i] == job.Leftover()[i - n];
    } else {
      assert job.Emission()[i] == Padded(job)[i - n - |job.Leftover()|];
    }
  }

  /** The device's memory can take what the job writes: flash pages, or EEPROM without padding. */
  ghost predicate Suits(job: Job, c: Chip)
    requires job.Valid()
  {
    if job.pad > 1 then |c.pbuf| == job.pad && End(job) <= |c.flash| else job.Size() <= |c.flash|
  }

  /** What such writes make of it. */
  ghost function After(job: Job, c: Chip, ws: seq<Chunk>): (r: Chip)
    requires if job.pad > 1 then Fits(ws, job.q, |c.pbuf|, |c.flash|) else Inside(ws, |c.flash|)
    ensures |r.flash| == |c.flash| && |r.pbuf| == |c.pbuf|
  {
    if job.pad > 1 then WriteAll(c, ws, job.q) else c.(flash := WriteAllDirect(c.flash, ws))
  }

  /** A job leaves its image in flash and in EEPROM. */
  lemma JobImage(job: Job, c: Chip)
    requires job.Valid() && Suits(job, c)
    ensures var ws := Writes(job.Emission(), job.q);
      && (if job.pad > 1 then Fits(ws, job.q, |c.pbuf|, |c.flash|) else Inside(ws, |c.flash|))
      && Image(job, c.flash, After(job, c, ws).flash)
  {
    if job.pad > 1 {
      FlashImage(job, c);
    } else {
      UnpaddedInside(job);
      DirectImage(job, c.flash);
    }
  }

  lemma {:induction false} BufferBeyond(job: Job, k: nat)
    requires job.Valid()
    ensures job.Buffer(k)[job.q..] == job.init[job.q..]
  {
    if k > 0 {
      BufferBeyond(job, k - 1);
    }
  }

  /** Behind the chunk each command carries what its memory held at first, filler commands included. */
  lemma BeyondChunk(job: Job, i: nat)
    requires job.Valid() && i < |job.Emission()|
    ensures job.Emission()[i].data[job.q..] == job.init[job.q..]
  {
    var n := job.Count();
    if i < n {
      assert job.Emission()[i] == job.Data(0, n)[i];
      BufferBeyond(job, i + 1);
    } else if i < n + |job.Leftover()| {
      assert job.Emission()[i] == job.Leftover()[i - n];
      BufferBeyond(job, n);
    } else {
      assert job.Emission()[i] == Padded(job)[i - n - |job.Leftover()|];
      BufferBeyond(job, n);
    }
  }

  /** A loss-free, in-order radio between `restore` and the device's memory: afterwards it holds the file,
      whatever memory, page buffer and command memory held before. */
  lemma RestoredOverTheAir(job: Job, c: Chip, stale: nat -> seq<byte>)
    requires job.Valid() && job.q <= SENT_DATA && forall i :: |stale(i)| == DATA_SIZE
    requires Suits(job, c)
    ensures var ws := Writes(Heard(Pack(job.Emission()), stale), job.q);
      && (if job.pad > 1 then Fits(ws, job.q, |c.pbuf|, |c.flash|) else Inside(ws, |c.flash|))
      && Image(job, c.flash, After(job, c, ws).flash)
  {
    HeardAsMeant(job, stale);
    JobImage(job, c);
  }

  /** Host and dongle together: an application submits the transfers of a padded restore. In the step in which
      the last of them leaves the adaptor, dongle and radio are drained, and what has gone over the air and been
      acknowledged, packet by packet and in order, is the whole job. */
  lemma JobGoesOverTheAir(job: Job, ts: seq<Transfers.Transfer>, trace: seq<Protocol.State>, steps: seq<Protocol.Step>,
                          n: nat)
    requires job.Valid() && job.pad > 1 && Carries(ts, job)
    requires FlowControl.ProperRun(trace, steps, ModeWriteBulk) && n < |steps|
    requires Protocol.Reported(true) !in steps[..n + 1]
    requires Conservation.SubmittedIn(steps[..n]) == Transfers.Orders(ts)
    requires |trace[n].host.finished| < |ts| == |trace[n + 1].host.finished|
    ensures Conservation.Drained(trace[n])
    ensures WritePhase.OnAirPackets(trace[n].dongle.radio.air) == Pack(job.Emission())
    ensures forall a :: a in trace[n].dongle.radio.air ==> a.acked
  {
    var t := Retirement.LastOneOver(trace, steps, ModeWriteBulk, n, ts);
    Conservation.OneStepMore(steps, n);
    Conservation.SyncMeansDrained(trace, steps, ModeWriteBulk, n, t);
    Conservation.BulkSyncDelivers(trace, steps, n, t);
    assert Transfers.Loads(Transfers.Orders(ts)) == Transfers.Loads(ts);
  }

  // Back again

  /** After a restore over the air a dump gives the file back as far as it was written, and a
      verification finds nothing to complain about. */
  lemma RestoreThenReadBack(job: Job, c: Chip, stale: nat -> seq<byte>)
    requires job.Valid() && job.q <= SENT_DATA && forall i :: |stale(i)| == DATA_SIZE
    requires Suits(job, c) && job.Size() <= |c.flash|
    ensures var ws := Writes(Heard(Pack(job.Emission()), stale), job.q);
      && (if job.pad > 1 then Fits(ws, job.q, |c.pbuf|, |c.flash|) else Inside(ws, |c.flash|))
      && var image := After(job, c, ws).flash[..job.Size()];
         && image[..job.Length()] == job.file[..job.Length()]
         && !exists k {:trigger job.file[k]} :: 0 <= k < job.Length() - job.q && job.file[k] != image[k]
  {
    RestoredOverTheAir(job, c, stale);
  }

  /** Without padding (EEPROM) a job stays inside the partition, leftover chunk and all. */
  lemma UnpaddedInside(job: Job)
    requires job.Valid() && job.pad <= 1
    ensures End(job) <= job.Size()
  {
    WholeBatches(job, 0);
    Multiples.Monotone(job.Count() + |job.Leftover()|, job.rooms, job.q);
  }

  /** Whole batches always lead to the end of the partition. */
  lemma {:induction false} WholeBatches(job: Job, k: nat)
    requires k <= job.rooms
    ensures job.Boundary(k, job.rooms)
    decreases job.rooms - k
  {
    if k < job.rooms {
      WholeBatches(job, k + job.Batch(k));
    }
  }

  /** The partition the job is meant for. */
  ghost predicate Target(p: Partition, job: Job)
    requires job.Valid()
    reads p
  {
    && p.Valid() && p.ioSize == job.q
    && if job.pad > 1 then p.paged && p.pbuf.Length == job.pad && End(job) <= p.mem.Length
       else !p.paged && p.size == job.Size()
  }

  /** The device runs every command it hears. */
  method Listen(slave: Slave, ps: seq<Packet>, stale: seq<byte>, ghost job: Job)
    requires slave.Valid() && job.Valid() && job.q <= SENT_DATA && |stale| == DATA_SIZE
    requires ps == Pack(job.Emission()) && job.part < |slave.parts| && Target(slave.parts[job.part], job)
    modifies Cells(slave.parts)
    ensures var p := slave.parts[job.part];
      && Image(job, old(p.mem[..]), p.mem[..])
      && forall o :: o in slave.parts && o.mem != p.mem && o.mem != p.pbuf ==> o.mem[..] == old(o.mem[..])
  {
    ghost var p := slave.parts[job.part];
    ghost var c := p.View();
    ghost var ws := Writes(job.Emission(), job.q);
    JobImage(job, c);
    hide Image, Job.Emission, Writes, Fits, Inside, WriteAll, WriteAllDirect, Unframe;
    assert p.View() == After(job, c, ws[..0]);
    for i := 0 to |ps|
      invariant p.View() == After(job, c, ws[..i])
      invariant forall o :: o in slave.parts && o.mem != p.mem && o.mem != p.pbuf ==> o.mem[..] == old(o.mem[..])
    {
      CommandHeard(job, i, stale);
      Accepted(job, i, p);
      AfterNext(job, i, p, c);
      HearOne(slave, ps[i].payload, stale, ws[i], job);
    }
    assert ws[..|ps|] == ws;
  }

  /** The partition takes every write of the job. */
  lemma Accepted(job: Job, i: nat, p: Partition)
    requires job.Valid() && Target(p, job) && i < |job.Emission()|
    ensures p.Accepts(job.Emission()[i].addr)
    ensures !p.paged ==> p.Where(job.Emission()[i].addr) == job.Emission()[i].addr
  {
    var addr := job.Emission()[i].addr;
    if job.pad > 1 {
      AddressFits(job, i);
      PageBounds(addr, job.pad, job.q);
      hide Job.Emission, Job.Valid, End;
      assert addr + job.q <= addr - addr % job.pad + job.pad;
    } else {
      InsideUnpadded(job, i);
    }
  }

  lemma InsideUnpadded(job: Job, i: nat)
    requires job.Valid() && job.pad <= 1 && i < |job.Emission()|
    ensures job.Emission()[i].addr + job.q <= End(job) <= job.Size()
  {
    UnpaddedInside(job);
    EmissionAddress(job, i);
    Multiples.Succ(ChunkNo(job, i), job.q);
    Multiples.Monotone(ChunkNo(job, i) + 1, job.Count() + |job.Leftover()|, job.q);
  }

  lemma AfterNext(job: Job, i: nat, p: Partition, c: Chip)
    requires job.Valid() && Target(p, job) && i < |job.Emission()|
    requires |c.flash| == p.mem.Length && |c.pbuf| == p.pbuf.Length
    requires p.Accepts(job.Emission()[i].addr)
    requires !p.paged ==> p.Where(job.Emission()[i].addr) == job.Emission()[i].addr
    requires var ws := Writes(job.Emission(), job.q);
      if job.pad > 1 then Fits(ws, job.q, |c.pbuf|, |c.flash|) else Inside(ws, |c.flash|)
    ensures var ws := Writes(job.Emission(), job.q);
      After(job, c, ws[..i + 1]) == p.Written(After(job, c, ws[..i]), ws[i])
  {
    var ws := Writes(job.Emission(), job.q);
    assert ws[..i + 1][..i] == ws[..i];
  }

  method HearOne(slave: Slave, payload: seq<byte>, stale: seq<byte>, ghost w: Chunk, ghost job: Job)
    requires slave.Valid() && |stale| == DATA_SIZE && 6 <= |payload| <= 6 + DATA_SIZE && job.part < |slave.parts|
    requires var p := slave.parts[job.part]; p.ioSize == job.q && |w.data| == job.q && p.Accepts(w.addr)
    requires var cmd := Unframe(payload, stale);
      cmd.Valid() && cmd.op == OP_WRITE && cmd.part == job.part && Chunk(cmd.addr, cmd.data[..job.q]) == w
    modifies Cells(slave.parts)
    ensures var p := slave.parts[job.part];
      && p.View() == p.Written(old(p.View()), w)
      && forall o :: o in slave.parts && o.mem != p.mem && o.mem != p.pbuf ==> o.mem[..] == old(o.mem[..])
  {
    var cmd := Unframe(payload, stale);
    var _, _, _ := slave.HandleCmd(cmd);
  }

  lemma CommandHeard(job: Job, i: nat, stale: seq<byte>)
    requires job.Valid() && job.q <= SENT_DATA && |stale| == DATA_SIZE && i < |job.Emission()|
    ensures var cmd := Unframe(Pack(job.Emission())[i].payload, stale);
      && cmd.Valid() && cmd.op == OP_WRITE && cmd.part == job.part
      && Chunk(cmd.addr, cmd.data[..job.q]) == Writes(job.Emission(), job.q)[i]
  {
    AddressInRange(job, i);
    EmissionWritesOnly(job, i);
    FrameRoundTrip(job.Emission()[i], SENT_DATA, stale);
  }

  /** `restore` on the host, a loss-free radio, the boot loader on the device: the memory holds the image of
      the file. */
  method WriteOverTheAir(table: PartitionTable, slave: Slave, stale: seq<byte>)
    requires table.At(0) && table.executed == [] && table.ioSize <= SENT_DATA && |stale| == DATA_SIZE
    requires slave.Valid() && table.part < |slave.parts| && Target(slave.parts[table.part], table.plan)
    modifies table, Cells(slave.parts)
    ensures var p := slave.parts[table.part];
      && Image(table.plan, old(p.mem[..]), p.mem[..])
      && forall o :: o in slave.parts && o.mem != p.mem && o.mem != p.pbuf ==> o.mem[..] == old(o.mem[..])
  {
    table.Restore();
    var ps := Conservation.Flatten(Transfers.Loads(table.executed));
    Listen(slave, ps, stale, table.plan);
  }

  /** A way for replies to arrive in batches. */
  ghost predicate Cuts(cut: seq<seq<byte>> -> seq<seq<seq<byte>>>) {
    forall rs :: Conservation.Flatten(cut(rs)) == rs && [] !in cut(rs)
  }

  /** The host asks for some bytes, and the device answers. */
  method Ask(slave: Slave, part: byte, toread: nat, memory: seq<byte>, stale: seq<byte>)
    returns (replies: seq<seq<byte>>)
    requires slave.Valid() && part < |slave.parts| && toread <= slave.parts[part].size < ADDRESS_LIMIT
    requires |memory| == DATA_SIZE && |stale| == DATA_SIZE
    modifies Cells(slave.parts)
    ensures forall p :: p in slave.parts ==> p.View() == old(p.View())
    ensures var p := slave.parts[part];
      Readback.IsStream(replies, p.mem[..p.size], p.ioSize, toread)
  {
    var request := Command(OP_READ, part, toread, memory);
    FrameRoundTrip(request, SENT_DATA, stale);
    var cmd := Unframe(Frame(request, SENT_DATA), stale);
    var boots, ends;
    replies, boots, ends := slave.HandleCmd(cmd);
    ghost var p := slave.parts[part];
    assert p.View() == old(p.View());
    Readback.RepliesAreStream(cmd.op, part, p.mem[..p.size], p.ioSize, toread);
  }

  /** Dump a partition and verify it against a file, however the replies arrive. */
  method DumpAndVerify(slave: Slave, part: byte, file: seq<byte>, stale: seq<byte>,
                       cut: seq<seq<byte>> -> seq<seq<seq<byte>>>, memory: seq<byte>)
    returns (dump: seq<byte>, failed: bool)
    requires slave.Valid() && part < |slave.parts| && slave.parts[part].size < ADDRESS_LIMIT
    requires |stale| == DATA_SIZE && |memory| == 32 && Cuts(cut)
    modifies Cells(slave.parts)
    ensures forall p :: p in slave.parts ==> p.View() == old(p.View())
    ensures var p := slave.parts[part];
      && dump == p.View().flash[..p.size]
      && (failed <==> exists k {:trigger file[k]} :: 0 <= k < Min(p.size, |file|) - p.ioSize && file[k] != dump[k])
  {
    ghost var p := slave.parts[part];
    ghost var image := p.mem[..p.size];
    var size, ioSize := slave.parts[part].size, slave.parts[part].ioSize;
    hide Readback.IsStream, Conservation.Flatten;
    var replies := Ask(slave, part, size, stale, stale);
    assert p.View().flash[..p.size] == image;
    var reader := new Readback.PartitionReader(size, ioSize, file);
    reader.Save(cut(replies), image);
    dump := reader.written;
    replies := Ask(slave, part, Min(size, |file|), stale, stale);
    assert p.View().flash[..p.size] == image;
    failed := reader.Verify(cut(replies), memory, image);
  }

  /** Write a file, dump the partition, verify it: the dump begins with the file and the verification passes,
      however the replies arrive; partitions with other memory keep what they hold. */
  method WriteDumpVerify(table: PartitionTable, slave: Slave, stale: seq<byte>,
                         cut: seq<seq<byte>> -> seq<seq<seq<byte>>>, memory: seq<byte>)
    returns (dump: seq<byte>, failed: bool)
    requires table.At(0) && table.executed == [] && table.ioSize <= SENT_DATA
    requires slave.Valid() && table.part < |slave.parts| && |stale| == DATA_SIZE && |memory| == 32 && Cuts(cut)
    requires Target(slave.parts[table.part], table.plan) && slave.parts[table.part].size == table.size < ADDRESS_LIMIT
    modifies table, Cells(slave.parts)
    ensures |dump| == table.size && !failed
    ensures forall i :: 0 <= i < |table.file| && i < table.size ==> dump[i] == table.file[i]
    ensures var p := slave.parts[table.part];
      forall o :: o in slave.parts && o.mem != p.mem && o.mem != p.pbuf ==> o.mem[..] == old(o.mem[..])
  {
    LengthBelow(table.plan);
    WriteOverTheAir(table, slave, stale);
    ghost var p := slave.parts[table.part];
    assert forall i :: 0 <= i < |table.file| && i < table.size ==> p.mem[i] == table.file[i];
    label Written:
    hide Image, Job.Valid, Target, Cuts;
    dump, failed := DumpAndVerify(slave, table.part, table.file, stale, cut, memory);
    assert p.View() == old@Written(p.View());
    forall o | o in slave.parts && o.mem != p.mem && o.mem != p.pbuf ensures o.mem[..] == old(o.mem[..]) {
      assert o.View() == old@Written(o.View());
    }
  }
}
