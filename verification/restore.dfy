/** Writing a file to a partition (librf24pp/rf24ptable.cpp): which commands go out, as a closed form. */
module RestoreJobs {
  import opened Types
  import opened Framing
  import opened Chips
  import Multiples

  const PACKETS_PER_RUN := 8  // numPacketsPerRun
  const FILLER: byte := 0xaa

  /** Commands with all their data bytes. */
  predicate Sized(cs: seq<Command>) { forall i :: 0 <= i < |cs| ==> |cs[i].data| == DATA_SIZE }

  /** A file to be written to a partition of `rooms` chunks of `q` bytes, padded to multiples of `pad`.
      `init` is what the command's data bytes hold at first. */
  datatype Job = Job(file: seq<byte>, q: nat, rooms: nat, pad: nat, part: byte, init: seq<byte>) {
    predicate Valid() {
      && 0 < q <= DATA_SIZE && 0 < rooms && (pad > 1 ==> pad % q == 0)
      && rooms * q + pad + q <= ADDRESS_LIMIT && |init| == DATA_SIZE
    }

    function Size(): nat { rooms * q }

    /** How much of the file is written. */
    function Length(): nat { Min(|file|, Size()) }

    /** The part of the file that belongs to chunk k. */
    function Slice(k: nat): (s: seq<byte>)
      ensures |s| <= q
    {
      Multiples.Monotone(k, k + 1, q);
      assert (k + 1) * q == k * q + q;
      file[Min(k * q, |file|)..Min(k * q + q, |file|)]
    }

    /** The data bytes of the command after k chunks were read into it, each over the one before. */
    function Buffer(k: nat): (b: seq<byte>)
      requires Valid()
      ensures |b| == DATA_SIZE
    {
      if k == 0 then init else Overlay(Buffer(k - 1), 0, Slice(k - 1))
    }

    /** The number of chunks with something of the file in them. */
    function Count(): nat
      requires Valid()
    {
      Min((|file| + q - 1) / q, rooms)
    }

    function Write(k: nat, data: seq<byte>): Command { Command(OP_WRITE, part, k * q, data) }

    /** The commands for chunks a to b, each with its own bytes. */
    function Data(a: nat, b: nat): (cs: seq<Command>)
      requires Valid() && a <= b
      ensures |cs| == b - a && forall i :: 0 <= i < |cs| ==> cs[i] == Write(a + i, Buffer(a + i + 1))
      ensures Sized(cs)
    {
      seq(b - a, i requires 0 <= i < b - a => Write(a + i, Buffer(a + i + 1)))
    }

    /** How many chunks a batch that starts at chunk k has. Its bound shrinks while it grows. */
    function Batch(k: nat): nat
      requires k <= rooms
    {
      Min(PACKETS_PER_RUN, (rooms - k + 1) / 2)
    }

    /** Do whole batches lead from chunk k to chunk n? */
    predicate Boundary(k: nat, n: nat)
      requires n <= rooms
      decreases if k <= n then n - k else 0
    {
      n == k || (k < n && Boundary(k + Batch(k), n))
    }

    /** What a batch from chunk k that stopped at chunk n has at its end. */
    function Tail(k: nat, n: nat): (cs: seq<Command>)
      requires Valid() && k <= rooms
      ensures Sized(cs)
    {
      if n < k + Batch(k) then [Write(n, Buffer(n))] else []
    }

    /** When the file ends inside a batch, the last chunk's bytes go out once more, for the next address. */
    function Leftover(): (cs: seq<Command>)
      requires Valid()
      ensures Sized(cs)
    {
      if Boundary(0, Count()) then [] else [Write(Count(), Buffer(Count()))]
    }

    /** The chunk at which padding stops: the first page start above chunk k. */
    function PageEnd(k: nat): (e: nat)
      requires Valid() && pad > 1
      ensures k < e
    {
      Pages();
      var r := pad / q;
      Multiples.StartOfPage(k, r);
      k - k % r + r
    }

    lemma Pages()
      requires Valid() && pad > 1
      ensures pad / q > 0 && pad == pad / q * q
    {
    }

    function Fill(): (b: seq<byte>)
      requires Valid()
      ensures |b| == DATA_SIZE
    {
      Overlay(Buffer(Count()), 0, seq(q, _ => FILLER))
    }

    function Padding(a: nat, b: nat): (cs: seq<Command>)
      requires Valid() && a <= b
      ensures |cs| == b - a && forall i :: 0 <= i < |cs| ==> cs[i] == Write(a + i, Fill())
      ensures Sized(cs)
    {
      seq(b - a, i requires 0 <= i < b - a => Write(a + i, Fill()))
    }

    /** Everything that goes out, in order. */
    function Emission(): (cs: seq<Command>)
      requires Valid()
      ensures Sized(cs)
    {
      Data(0, Count()) + Leftover() + if pad > 1 then Padding(Count(), PageEnd(Count())) else []
    }

    // Facts about the parts

    lemma EndOfFile(k: nat)
      requires Valid() && k <= rooms
      ensures k * q >= |file| || k == rooms <==> k >= Count()
      ensures k < Count() ==> k * q < |file| && Slice(k) != []
      ensures k >= Count() && k < rooms ==> Slice(k) == []
      ensures k * q <= Size()
    {
      Multiples.Monotone(k, rooms, q);
      var d := (|file| + q - 1) / q;
      assert |file| + q - 1 == d * q + (|file| + q - 1) % q;
      if k >= d {
        Multiples.Monotone(d, k, q);
      } else {
        Multiples.Monotone(k + 1, d, q);
        assert (k + 1) * q == k * q + q;
      }
    }

    /** The bound on a batch as it is seen at chunk j. */
    function BoundAt(j: int): int { Min(PACKETS_PER_RUN, rooms - j) }

    /** A batch ends at the first chunk where the bound, taken anew at each chunk, is reached. */
    lemma BatchIsFirstStop(k: nat)
      requires k <= rooms
      ensures k + Batch(k) <= rooms && Batch(k) >= BoundAt(k + Batch(k))
      ensures forall j :: k <= j < k + Batch(k) ==> j - k < BoundAt(j)
    {
    }

    lemma {:induction false} BoundaryThrough(a: nat, k: nat, n: nat)
      requires k <= n <= rooms && Boundary(a, k)
      ensures Boundary(a, n) <==> Boundary(k, n)
      decreases if a <= k then k - a else 0
    {
      if a < k {
        BoundaryThrough(a + Batch(a), k, n);
        BoundaryGrows(a + Batch(a), k);
      }
    }

    lemma BoundaryGrows(k: nat, n: nat)
      requires n <= rooms && Boundary(k, n)
      ensures k <= n
    {
    }

    /** Chunk numbers and addresses agree about pages. */
    lemma AtPage(k: nat)
      requires Valid() && pad > 1
      ensures pad / q > 0
      ensures (k * q) % pad == 0 <==> k % (pad / q) == 0
    {
      Pages();
      Multiples.Scale(k, pad / q, q);
    }

    lemma PageEndIsNext(k: nat, j: nat)
      requires Valid() && pad > 1 && k < j <= PageEnd(k)
      ensures (j * q) % pad == 0 <==> j == PageEnd(k)
    {
      AtPage(j);
      Pages();
      var r := pad / q;
      var start := k - k % r;
      Multiples.StartOfPage(k, r);
      if j < start + r {
        Multiples.InPage(j, start, r);
      } else {
        Multiples.Step(start, r);
      }
    }

    /** Padding ends less than a page above the end of the data, within the address range. */
    lemma EndWithinLimit()
      requires Valid() && pad > 1
      ensures PageEnd(Count()) * q <= Count() * q + pad
      ensures PageEnd(Count()) * q <= Size() + pad < ADDRESS_LIMIT
    {
      Pages();
      var n, r := Count(), pad / q;
      Multiples.Monotone(PageEnd(n), n + r, q);
      assert (n + r) * q == n * q + r * q;
      Multiples.Monotone(n, rooms, q);
    }
  }
}
