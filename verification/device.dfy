/** The boot loader on the device: partitions (src/avr/avr-boot-common.c) and commands (src/slave.c). */
module Devices {
  import opened Types
  import opened Chips
  import opened Framing
  import Multiples

  const MAX_PARTS := 3  // CONFIG_BOOT_MAX_PARTS
  const POINTER_LIMIT := 0x1_0000  // EEPROM pointers have 16 bits

  // What the device sends when asked to read

  /** The reply carrying the chunk at `addr`. */
  function Reply(op: byte, part: byte, addr: nat, image: seq<byte>, q: nat): (bytes: seq<byte>)
    requires addr + q <= |image|
    ensures |bytes| == 6 + q && bytes[..2] == [op, part]
  {
    [op, part] + LittleEndian(addr) + image[addr..addr + q]
  }

  /** How many replies a request for `toread` bytes takes: at least one. */
  function ReplyCount(toread: nat, q: nat): (n: nat)
    requires 0 < q
    ensures n >= 1
  {
    if toread == 0 then 1 else (toread - 1) / q + 1
  }

  lemma CountBounds(toread: nat, q: nat, size: nat)
    requires 0 < q && 0 < size && size % q == 0 && toread <= size
    ensures ReplyCount(toread, q) * q <= size
    ensures toread <= ReplyCount(toread, q) * q
    ensures forall k: nat :: k < ReplyCount(toread, q) ==> k * q + q <= size && (0 < k ==> k * q < toread)
  {
    var n := ReplyCount(toread, q);
    if toread == 0 {
      Multiples.Room(0, size, q);
    } else {
      var d := (toread - 1) / q;
      assert toread - 1 == d * q + (toread - 1) % q;
      assert n * q == d * q + q;
      Multiples.MultipleOf(d, q);
      Multiples.Room(d * q, size, q);
      forall k: nat | k < n ensures k * q + q <= size && (0 < k ==> k * q < toread) {
        Multiples.Monotone(k, d, q);
      }
    }
  }

  /** The whole answer: chunk k at address k * q, and its bytes. */
  ghost function Replies(op: byte, part: byte, image: seq<byte>, q: nat, toread: nat): (rs: seq<seq<byte>>)
    requires 0 < q && 0 < |image| && |image| % q == 0 && toread <= |image|
    ensures |rs| == ReplyCount(toread, q)
  {
    CountBounds(toread, q, |image|);
    seq(ReplyCount(toread, q), k requires 0 <= k < ReplyCount(toread, q) => Reply(op, part, k * q, image, q))
  }

  /** The reply when there is nothing to read. */
  function EmptyReply(op: byte, part: byte, addr: nat): seq<byte> { [op, part] + LittleEndian(addr) }

  /** What the device sends for any request, up to the first empty reply. */
  ghost function Answer(op: byte, part: byte, image: seq<byte>, q: nat, toread: nat): seq<seq<byte>>
    requires 0 < q && 0 < |image| && |image| % q == 0
  {
    if toread <= |image| then Replies(op, part, image, q, toread)
    else Replies(op, part, image, q, |image|) + [EmptyReply(op, part, |image|)]
  }

  /** The address after n turns of the loop that answers a request: beyond the end it stays where it is. */
  function AddressAfter(n: nat, size: nat, q: nat): nat {
    if n == 0 then 0
    else
      var addr := AddressAfter(n - 1, size, q);
      if addr >= size then addr else addr + q
  }

  lemma {:induction false} AddressGrows(n: nat, size: nat, q: nat)
    requires 0 < q && size % q == 0
    ensures AddressAfter(n, size, q) == Min(n * q, size)
  {
    if n > 0 {
      AddressGrows(n - 1, size, q);
      Multiples.Succ(n - 1, q);
      if (n - 1) * q < size {
        Multiples.MultipleOf(n - 1, q);
        Multiples.Room((n - 1) * q, size, q);
      }
    }
  }

  /** The turn after k turns: a chunk is read until the answer is complete. */
  lemma TurnOf(toread: nat, q: nat, size: nat, k: nat)
    requires 0 < q && 0 < size && size % q == 0
    requires k <= ReplyCount(Min(toread, size), q) && (k < ReplyCount(Min(toread, size), q) || toread > size)
    ensures var n, addr := ReplyCount(Min(toread, size), q), AddressAfter(k, size, q);
      if k < n then
        && addr == k * q && addr + q == AddressAfter(k + 1, size, q) <= size
        && (addr + q < toread <==> k + 1 < n || toread > size)
      else addr == size
  {
    var n := ReplyCount(Min(toread, size), q);
    CountBounds(Min(toread, size), q, size);
    AddressGrows(k, size, q);
    AddressGrows(k + 1, size, q);
    Multiples.Succ(k, q);
    if k + 1 < n {
      assert 0 < k + 1 ==> (k + 1) * q < Min(toread, size);
    }
  }

  lemma ReplyAt(op: byte, part: byte, image: seq<byte>, q: nat, toread: nat, k: nat, addr: nat)
    requires 0 < q && 0 < |image| && |image| % q == 0 && toread <= |image| && k < ReplyCount(toread, q)
    requires addr == k * q
    ensures addr + q <= |image|
    ensures Replies(op, part, image, q, toread)[k] == [op, part] + LittleEndian(addr) + image[addr..addr + q]
  {
    CountBounds(toread, q, |image|);
  }

  /** The loop, which makes at least one turn, comes to its end exactly when the request stays inside
      the partition. */
  lemma AnswerEndsExactlyWhen(size: nat, q: nat, toread: nat)
    requires 0 < q && 0 < size && size % q == 0
    ensures (exists n: nat :: n >= 1 && AddressAfter(n, size, q) >= toread) <==> toread <= size
  {
    if toread <= size {
      var n := size / q;
      AddressGrows(n, size, q);
      assert n * q == size;
    } else {
      forall n: nat ensures AddressAfter(n, size, q) <= size {
        AddressGrows(n, size, q);
      }
    }
  }

  /** Two bytes as the word that is programmed, the low one first. */
  function Word(low: byte, high: byte): (w: nat)
    ensures w % 0x100 == low && w / 0x100 == high
  {
    low as nat + 0x100 * (high as nat)
  }

  /** A partition. Flash is `paged`: writes collect in a page buffer. EEPROM is written byte by byte. */
  class Partition {
    const paged: bool
    const ioSize: nat
    const size: nat
    const info: seq<byte>         // the packed header sent to the host
    const mem: array<byte>        // the whole memory, which may go on beyond the partition
    const pbuf: array<byte>

    ghost predicate Valid()
      reads this
    {
      && 0 < ioSize <= DATA_SIZE && 0 < size && size % ioSize == 0
      && size <= mem.Length && mem != pbuf && (!paged ==> size < POINTER_LIMIT)
      && (paged ==> 0 < pbuf.Length && pbuf.Length % 2 == 0 && pbuf.Length % ioSize == 0)
    }

    ghost function View(): Chip
      reads this, mem, pbuf
    {
      Chip(mem[..], pbuf[..])
    }

    /** Where an address leads: EEPROM addresses are cut to the width of a pointer. */
    function Where(addr: nat): nat { if paged then addr else addr % POINTER_LIMIT }

    lemma NoCut(addr: nat)
      requires Valid() && addr <= size
      ensures Where(addr) == addr
    {
    }

    /** The chunk lies in memory; on flash, in one page. */
    ghost predicate Accepts(addr: nat)
      requires Valid()
      reads this
    {
      if paged then addr % pbuf.Length + ioSize <= pbuf.Length && PageOf(addr, pbuf.Length) + pbuf.Length <= mem.Length
      else Where(addr) + ioSize <= mem.Length
    }

    ghost function Written(c: Chip, w: Chunk): Chip
      requires Valid() && Accepts(w.addr) && |w.data| == ioSize
      requires |c.flash| == mem.Length && |c.pbuf| == pbuf.Length
      reads this
    {
      if paged then WriteChunk(c, w) else c.(flash := Overlay(c.flash, Where(w.addr), w.data))
    }

    constructor (paged: bool, ioSize: nat, size: nat, info: seq<byte>, mem: array<byte>, pbuf: array<byte>)
      requires 0 < ioSize <= DATA_SIZE && 0 < size && size % ioSize == 0 && size <= mem.Length && mem != pbuf
      requires paged ==> 0 < pbuf.Length && pbuf.Length % 2 == 0 && pbuf.Length % ioSize == 0
      requires !paged ==> size < POINTER_LIMIT
      ensures Valid() && this.mem == mem && this.pbuf == pbuf && this.paged == paged
      ensures this.size == size && this.ioSize == ioSize && this.info == info
    {
      this.paged, this.ioSize, this.size, this.info, this.mem, this.pbuf := paged, ioSize, size, info, mem, pbuf;
    }

    /** Erases a page and programs it from the page buffer, one little-endian word at a time. */
    method BootProgramPage(page: nat)
      requires Valid() && paged && page + pbuf.Length <= mem.Length
      modifies mem
      ensures mem[..] == Overlay(old(mem[..]), page, pbuf[..])
    {
      forall i | 0 <= i < pbuf.Length {
        mem[page + i] := 0xff;
      }
      var words := CollectWords();
      forall j | 0 <= j < pbuf.Length {
        mem[page + j] := if j % 2 == 0 then words[j / 2] % 0x100 else words[j / 2] / 0x100;
      }
      forall j | page <= j < page + pbuf.Length ensures mem[j] == pbuf[j - page] {
        var k := j - page;
        assert words[k / 2] == Word(pbuf[2 * (k / 2)], pbuf[2 * (k / 2) + 1]);
      }
    }

    method CollectWords() returns (words: seq<nat>)
      requires pbuf.Length % 2 == 0
      ensures |words| == pbuf.Length / 2
      ensures forall j :: 0 <= j < |words| ==> words[j] == Word(pbuf[2 * j], pbuf[2 * j + 1])
    {
      words := [];
      var i := 0;
      while i < pbuf.Length
        invariant 0 <= i <= pbuf.Length && i % 2 == 0 && |words| == i / 2
        invariant forall j :: 0 <= j < |words| ==> words[j] == Word(pbuf[2 * j], pbuf[2 * j + 1])
      {
        words := words + [Word(pbuf[i], pbuf[i + 1])];
        i := i + 2;
      }
    }

    method BufferChunk(offset: nat, buf: seq<byte>)
      requires offset + |buf| <= pbuf.Length
      modifies pbuf
      ensures pbuf[..] == Overlay(old(pbuf[..]), offset, buf)
    {
      forall i | 0 <= i < |buf| {
        pbuf[offset + i] := buf[i];
      }
    }

    method ProgramIf(complete: bool, offset: nat, start: nat, buf: seq<byte>)
      requires Valid() && paged && offset + |buf| <= pbuf.Length && start + pbuf.Length <= mem.Length
      modifies mem, pbuf
      ensures pbuf[..] == Overlay(old(pbuf[..]), offset, buf)
      ensures mem[..] == if complete then Overlay(old(mem[..]), start, pbuf[..]) else old(mem[..])
    {
      BufferChunk(offset, buf);
      if complete {
        BootProgramPage(start);
      }
    }

    method DoFlashWrite(addr: nat, buf: seq<byte>)
      requires Valid() && paged && Accepts(addr) && |buf| == ioSize
      modifies mem, pbuf
      ensures View() == WriteChunk(old(View()), Chunk(addr, buf))
    {
      var offset, start := addr % pbuf.Length, PageOf(addr, pbuf.Length);
      var complete := (addr + ioSize) % pbuf.Length == 0;
      ghost var buffered := Overlay(pbuf[..], offset, buf);
      assert WriteChunk(View(), Chunk(addr, buf)) ==
        Chip(if complete then Overlay(mem[..], start, buffered) else mem[..], buffered);
      ProgramIf(complete, offset, start, buf);
    }

    method DoEepromWrite(addr: nat, buf: seq<byte>)
      requires Valid() && !paged && Accepts(addr) && |buf| == ioSize
      modifies mem
      ensures View() == old(View()).(flash := Overlay(old(View()).flash, Where(addr), buf))
    {
      var pointer := addr % POINTER_LIMIT;
      forall i | 0 <= i < ioSize {
        mem[pointer + i] := buf[i];
      }
      assert mem[..] == Overlay(old(mem[..]), Where(addr), buf);
    }

    method Write(addr: nat, buf: seq<byte>)
      requires Valid() && Accepts(addr) && |buf| == ioSize
      modifies mem, pbuf
      ensures View() == Written(old(View()), Chunk(addr, buf))
    {
      if paged {
        DoFlashWrite(addr, buf);
      } else {
        DoEepromWrite(addr, buf);
      }
    }

    /** A chunk, or nothing beyond the end. Only the start of the chunk is tested. */
    method Read(addr: nat) returns (data: seq<byte>)
      requires Valid() && (Where(addr) < size ==> Where(addr) + ioSize <= mem.Length)
      ensures data == if Where(addr) >= size then [] else mem[Where(addr)..Where(addr) + ioSize]
    {
      var start := if paged then addr else addr % POINTER_LIMIT;
      if start >= size {
        return [];
      }
      data := mem[start..start + ioSize];
    }
  }

  /** The memories behind some partitions. */
  ghost function Cells(parts: seq<Partition>): set<object> {
    (set p | p in parts :: p.mem as object) + (set p | p in parts :: p.pbuf as object)
  }

  /** The partition table as it is sent. */
  function Headers(op: byte, parts: seq<Partition>): (rs: seq<seq<byte>>)
    ensures |rs| == |parts| && forall i :: 0 <= i < |parts| ==> rs[i] == [op] + parts[i].info
  {
    if parts == [] then [] else Headers(op, parts[..|parts| - 1]) + [[op] + parts[|parts| - 1].info]
  }

  class Slave {
    var parts: seq<Partition>
    const id: seq<byte>

    ghost predicate Valid()
      reads this, parts
    {
      |parts| <= MAX_PARTS && |id| == 28 && forall i :: 0 <= i < |parts| ==> parts[i].Valid()
    }

    constructor (id: seq<byte>)
      requires |id| == 28
      ensures Valid() && parts == [] && this.id == id
    {
      parts := [];
      this.id := id;
    }

    /** The original stops with BUG_ON when there is no room left. */
    method AddPart(part: Partition)
      requires Valid() && part.Valid() && |parts| < MAX_PARTS
      modifies this
      ensures Valid() && parts == old(parts) + [part]
    {
      parts := parts + [part];
    }

    method ReadTurn(cmd: Command, p: Partition, addr: nat) returns (data: seq<byte>, reply: seq<byte>)
      requires p.Valid() && addr <= p.size && (addr < p.size ==> addr + p.ioSize <= p.size)
      ensures addr == p.size ==> data == [] && reply == EmptyReply(cmd.op, cmd.part, addr)
      ensures addr < p.size ==>
        |data| == p.ioSize
        && reply == [cmd.op, cmd.part] + LittleEndian(addr) + p.mem[..p.size][addr..addr + p.ioSize]
    {
      p.NoCut(addr);
      hide Partition.Where, LittleEndian;
      data := p.Read(addr);
      reply := [cmd.op, cmd.part] + LittleEndian(addr) + data;
      assert addr < p.size ==> data == p.mem[..p.size][addr..addr + p.ioSize];
      assert data == [] ==> reply == [cmd.op, cmd.part] + LittleEndian(addr);
    }

    /** The replies to a READ. A request beyond the partition is never done with: after the whole partition
        the device sends empty replies for good, of which the first is given here. */
    method AnswerRead(cmd: Command) returns (replies: seq<seq<byte>>, ends: bool)
      requires Valid() && cmd.Valid() && cmd.part < |parts|
      ensures var p := parts[cmd.part];
        && replies == Answer(cmd.op, cmd.part, p.mem[..p.size], p.ioSize, cmd.addr)
        && (ends <==> cmd.addr <= p.size)
    {
      var p := parts[cmd.part];
      ends := true;
      ghost var image, limit := p.mem[..p.size], Min(cmd.addr, p.size);
      ghost var rs := Replies(cmd.op, cmd.part, image, p.ioSize, limit);
      ghost var k := 0;
      assert AddressAfter(k, p.size, p.ioSize) == 0 && 0 < p.size && 0 < p.ioSize;
      hide ReplyCount, Replies, EmptyReply, LittleEndian, AddressAfter, Partition.Valid;
      var addr := 0;
      replies := [];
      var more := true;
      while more
        invariant 0 <= k <= |rs| && addr == AddressAfter(k, p.size, p.ioSize) <= p.size && replies == rs[..k] && ends
        invariant more <==> k < |rs| || cmd.addr > p.size
        decreases |rs| - k, ends
      {
        TurnOf(cmd.addr, p.ioSize, p.size, k);
        var data, reply := ReadTurn(cmd, p, addr);
        replies := replies + [reply];
        if |data| == 0 {
          assert rs[..k] == rs;
          ends := false;
          return;
        }
        ReplyAt(cmd.op, cmd.part, image, p.ioSize, limit, k, addr);
        assert rs[..k + 1] == rs[..k] + [rs[k]];
        addr := addr + |data|;
        k := k + 1;
        more := addr < cmd.addr;
      }
      assert rs[..k] == rs;
    }

    /** `handle_cmd`. The flags say that the device leaves for the application, and that it comes back at all. */
    method HandleCmd(cmd: Command) returns (replies: seq<seq<byte>>, boots: bool, ends: bool)
      requires Valid() && cmd.Valid()
      requires cmd.part < |parts| && cmd.op % 16 == OP_WRITE ==> parts[cmd.part].Accepts(cmd.addr)
      modifies Cells(parts)
      ensures Valid() && boots == (cmd.op % 16 == OP_BOOT && cmd.part < |parts|)
      ensures cmd.op % 16 == OP_HELLO ==>
        && |replies| == |parts| + 1 && replies[0] == [cmd.op, |parts|, 0] + id + [0]
        && forall i :: 0 <= i < |parts| ==> replies[i + 1] == [cmd.op] + parts[i].info
      ensures cmd.op % 16 == OP_READ && cmd.part < |parts| ==>
        var p := parts[cmd.part];
        replies == Answer(cmd.op, cmd.part, old(p.mem[..p.size]), p.ioSize, cmd.addr)
      ensures ends <==> !(cmd.op % 16 == OP_READ && cmd.part < |parts| && cmd.addr > parts[cmd.part].size)
      ensures cmd.op % 16 == OP_WRITE && cmd.part < |parts| ==>
        var p := parts[cmd.part];
        replies == [] && p.View() == p.Written(old(p.View()), Chunk(cmd.addr, cmd.data[..p.ioSize]))
      ensures cmd.op % 16 == OP_WRITE && cmd.part < |parts| ==>
        var p := parts[cmd.part];
        forall o :: o in parts ==>
          && (o.mem != p.mem && o.mem != p.pbuf ==> o.mem[..] == old(o.mem[..]))
          && (o.pbuf != p.mem && o.pbuf != p.pbuf ==> o.pbuf[..] == old(o.pbuf[..]))
      ensures cmd.op % 16 != OP_WRITE || cmd.part >= |parts| ==>
        forall p :: p in parts ==> p.View() == old(p.View())
      ensures cmd.part >= |parts| && cmd.op % 16 != OP_HELLO ==> replies == []
    {
      var code := cmd.op % 16;
      replies, boots, ends := [], false, true;
      if code == OP_HELLO {
        replies := [[cmd.op, |parts|, 0] + id + [0]];
        for i := 0 to |parts|
          invariant replies == [[cmd.op, |parts|, 0] + id + [0]] + Headers(cmd.op, parts[..i])
        {
          replies := replies + [[cmd.op] + parts[i].info];
          assert parts[..i + 1][..i] == parts[..i];
        }
        assert parts[..|parts|] == parts;
        assert forall i :: 0 <= i < |parts| ==> replies[i + 1] == Headers(cmd.op, parts)[i];
        return;
      }
      if cmd.part >= |parts| {
        return;
      }
      if code == OP_READ {
        replies, ends := AnswerRead(cmd);
      } else if code == OP_WRITE {
        var p := parts[cmd.part];
        p.Write(cmd.addr, cmd.data[..p.ioSize]);
      } else if code == OP_BOOT {
        boots := true;
      }
    }
  }
}
