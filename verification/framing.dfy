/** Command packets of include/rf24boot.h: an opcode, a partition number, a 32-bit little-endian address, data. */
module Framing {
  import opened Types

  const OP_HELLO: byte := 0
  const OP_BOOT: byte := 2
  const OP_READ: byte := 3
  const OP_WRITE: byte := 4

  const DATA_SIZE := 26   // RF24BOOT_MAX_IOSIZE
  // what is left of the data when the host sends sizeof(struct rf24boot_data) bytes of a command
  const SENT_DATA := 25

  const ADDRESS_LIMIT := 0x1_0000_0000

  datatype Command = Command(op: byte, part: byte, addr: nat, data: seq<byte>) {
    ghost predicate Valid() { addr < ADDRESS_LIMIT && |data| == DATA_SIZE }
  }

  function LittleEndian(n: nat): (r: seq<byte>)
    ensures |r| == 4
  {
    [n % 256, n / 0x100 % 256, n / 0x1_0000 % 256, n / 0x100_0000 % 256]
  }

  function FromLittleEndian(b: seq<byte>): nat
    requires |b| == 4
  {
    b[0] as nat + 0x100 * (b[1] as nat) + 0x1_0000 * (b[2] as nat) + 0x100_0000 * (b[3] as nat)
  }

  lemma LittleEndianRoundTrip(n: nat)
    ensures FromLittleEndian(LittleEndian(n)) == n % ADDRESS_LIMIT
  {
    var a := n / 0x100;
    var b := a / 0x100;
    var c := b / 0x100;
    var d := c / 0x100;
    assert b == n / 0x1_0000 && c == n / 0x100_0000;
    var low := n % 0x100 + 0x100 * (a % 0x100) + 0x1_0000 * (b % 0x100) + 0x100_0000 * (c % 0x100);
    assert n == low + ADDRESS_LIMIT * d;
    assert 0 <= low < ADDRESS_LIMIT;
  }

  /** The first bytes of a command as they lie in memory, `n` data bytes of them. */
  function Frame(c: Command, n: nat): (bytes: seq<byte>)
    requires n <= |c.data|
    ensures |bytes| == 6 + n
  {
    [c.op, c.part] + LittleEndian(c.addr) + c.data[..n]
  }

  /** How a receiver reads bytes laid over the front of a command whose memory held `stale` data bytes before. */
  function Unframe(bytes: seq<byte>, stale: seq<byte>): (c: Command)
    requires |stale| == DATA_SIZE && 6 <= |bytes| <= 6 + DATA_SIZE
    ensures |c.data| == DATA_SIZE
  {
    Command(bytes[0], bytes[1], FromLittleEndian(bytes[2..6]), bytes[6..] + stale[|bytes| - 6..])
  }

  lemma FrameRoundTrip(c: Command, n: nat, stale: seq<byte>)
    requires c.Valid() && n <= DATA_SIZE && |stale| == DATA_SIZE
    ensures Unframe(Frame(c, n), stale) == c.(data := c.data[..n] + stale[n..])
  {
    LittleEndianRoundTrip(c.addr);
    assert Frame(c, n)[2..6] == LittleEndian(c.addr);
    assert Frame(c, n)[6..] == c.data[..n];
  }

  /** A chunk of q bytes survives the host's framing, whatever the receiver's memory held. */
  ghost predicate ChunkSurvives(q: nat)
    requires q <= DATA_SIZE
  {
    forall c: Command, stale: seq<byte> :: c.Valid() && |stale| == DATA_SIZE ==>
      var r := Unframe(Frame(c, SENT_DATA), stale);
      r.op == c.op && r.part == c.part && r.addr == c.addr && r.data[..q] == c.data[..q]
  }

  /** The last byte of the largest chunk is never sent. */
  lemma ChunksSurviveUpTo25(q: nat)
    requires q <= DATA_SIZE
    ensures ChunkSurvives(q) <==> q <= SENT_DATA
  {
    if q <= SENT_DATA {
      forall c: Command, stale: seq<byte> | c.Valid() && |stale| == DATA_SIZE
        ensures var r := Unframe(Frame(c, SENT_DATA), stale);
          r.op == c.op && r.part == c.part && r.addr == c.addr && r.data[..q] == c.data[..q]
      {
        FrameRoundTrip(c, SENT_DATA, stale);
      }
    } else {
      var ones := seq<byte>(DATA_SIZE, _ => 1);
      var zeros := seq<byte>(DATA_SIZE, _ => 0);
      var c := Command(OP_WRITE, 0, 0, ones);
      FrameRoundTrip(c, SENT_DATA, zeros);
      assert Unframe(Frame(c, SENT_DATA), zeros).data[..q][25] == 0;
    }
  }
}
