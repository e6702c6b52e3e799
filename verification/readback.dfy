/** Dumping and verifying a partition (librf24pp/rf24ptable.cpp). The device's replies reach the host in
    batches whose sizes depend on timing; any cut of the stream into non-empty batches will do. */
module Readback {
  import opened Types
  import opened Framing
  import opened Devices
  import Conservation
  import Multiples

  /** Both hold the same bytes up to n. */
  ghost predicate SameUpTo(a: seq<byte>, b: seq<byte>, n: nat)
    requires n <= |a| && n <= |b|
  {
    forall k :: 0 <= k < n ==> a[k] == b[k]
  }

  function AddressOf(reply: seq<byte>): nat
    requires |reply| >= 6
  {
    FromLittleEndian(reply[2..6])
  }

  lemma ReplyCarries(op: byte, part: byte, addr: nat, image: seq<byte>, q: nat)
    requires addr + q <= |image| && addr < ADDRESS_LIMIT
    ensures AddressOf(Reply(op, part, addr, image, q)) == addr
    ensures Reply(op, part, addr, image, q)[6..] == image[addr..addr + q]
  {
    LittleEndianRoundTrip(addr);
    assert Reply(op, part, addr, image, q)[2..6] == LittleEndian(addr);
  }

  predicate IsReply(r: seq<byte>, image: seq<byte>, q: nat, addr: nat) {
    && |r| == 6 + q && addr + q <= |image|
    && AddressOf(r) == addr && r[6..] == image[addr..addr + q]
  }

  /** The stream a device sends for `toread` bytes of an image, packet by packet. */
  ghost predicate IsStream(rs: seq<seq<byte>>, image: seq<byte>, q: nat, toread: nat) {
    && 0 < q && |rs| == ReplyCount(toread, q)
    && forall k :: 0 <= k < |rs| ==> IsReply(rs[k], image, q, k * q)
  }

  lemma RepliesAreStream(op: byte, part: byte, image: seq<byte>, q: nat, toread: nat)
    requires 0 < q && 0 < |image| < ADDRESS_LIMIT && |image| % q == 0 && toread <= |image|
    ensures IsStream(Replies(op, part, image, q, toread), image, q, toread)
    ensures forall r :: r in Replies(op, part, image, q, toread) ==> r[..2] == [op, part]
  {
    CountBounds(toread, q, |image|);
    forall k: nat | k < ReplyCount(toread, q)
      ensures AddressOf(Reply(op, part, k * q, image, q)) == k * q
      ensures Reply(op, part, k * q, image, q)[6..] == image[k * q..k * q + q]
    {
      ReplyCarries(op, part, k * q, image, q);
    }
  }

  /** The batch that is next lies at the front of what is left of the stream. */
  lemma BatchOf(batches: seq<seq<seq<byte>>>, j: nat)
    requires j < |batches|
    ensures var before, all := Conservation.Flatten(batches[..j]), Conservation.Flatten(batches);
      && |before| + |batches[j]| <= |all| && all[|before|..|before| + |batches[j]|] == batches[j]
      && Conservation.Flatten(batches[..j + 1]) == before + batches[j]
  {
    assert batches[..j + 1][..j] == batches[..j];
    assert batches == batches[..j + 1] + batches[j + 1..];
    Conservation.FlattenAppend(batches[..j + 1], batches[j + 1..]);
  }

  class PartitionReader {
    const size: nat
    const ioSize: nat
    const file: seq<byte>     // what a verification compares with
    var filePos: nat
    var written: seq<byte>    // what a dump has written
    var verifyFailed: bool

    constructor (size: nat, ioSize: nat, file: seq<byte>)
      ensures this.size == size && this.ioSize == ioSize && this.file == file && filePos == 0 && written == []
    {
      this.size, this.ioSize, this.file := size, ioSize, file;
      filePos, written, verifyFailed := 0, [], false;
    }

    /** Writes out one batch, which begins with packet `from` of the stream. */
    method SaveSome(batch: seq<seq<byte>>, ghost image: seq<byte>, ghost rs: seq<seq<byte>>, ghost from: nat)
      returns (retaddr: nat)
      requires |image| == size && IsStream(rs, image, ioSize, size) && size == |rs| * ioSize
      requires batch != [] && from + |batch| <= |rs| && batch == rs[from..from + |batch|]
      requires Saved(image, from)
      modifies this`written
      ensures Saved(image, from + |batch|)
      ensures retaddr == size <==> from + |batch| == |rs|
    {
      retaddr := 0;
      var i := 0;
      while i < |batch|
        invariant 0 <= i <= |batch| && Saved(image, from + i)
        invariant i > 0 ==> retaddr < size && from + i < |rs|
      {
        assert batch[i] == rs[from + i];
        LastPacket(from + i, |rs|, ioSize);
        retaddr := AddressOf(batch[i]);
        SavePacket(batch[i], image, from + i);
        if retaddr == size - ioSize {
          return size;
        }
        i := i + 1;
      }
    }

    /** The first k chunks have been written out. */
    ghost predicate Saved(image: seq<byte>, k: nat)
      reads this`written
    {
      k * ioSize <= |image| && written == image[..k * ioSize]
    }

    method SavePacket(packet: seq<byte>, ghost image: seq<byte>, ghost k: nat)
      requires IsReply(packet, image, ioSize, k * ioSize) && Saved(image, k)
      modifies this`written
      ensures Saved(image, k + 1)
    {
      Multiples.Succ(k, ioSize);
      written := written + packet[6..6 + ioSize];
    }

    /** `save`: the file written is the partition's image. */
    method Save(batches: seq<seq<seq<byte>>>, ghost image: seq<byte>)
      requires 0 < size == |image| && 0 < ioSize && size % ioSize == 0 && [] !in batches && written == []
      requires IsStream(Conservation.Flatten(batches), image, ioSize, size)
      modifies this`written
      ensures written == image
    {
      ghost var rs := Conservation.Flatten(batches);
      ghost var from := 0;
      WholeCount(size, ioSize);
      var j := 0;
      var addr := 0;
      while addr != size
        invariant 0 <= j <= |batches| && from == |Conservation.Flatten(batches[..j])| <= |rs|
        invariant Saved(image, from) && (addr == size <==> from == |rs|)
        decreases |batches| - j
      {
        assert batches[..|batches|] == batches;
        BatchOf(batches, j);
        addr := SaveSome(batches[j], image, rs, from);
        from := from + |batches[j]|;
        j := j + 1;
      }
    }

    /** The verdict once the comparison is over: the last `ioSize` bytes have no say in it. */
    ghost predicate Decided(image: seq<byte>, toverify: nat)
      requires toverify <= |file| && toverify <= |image|
      reads this`verifyFailed
    {
      verifyFailed <==> !SameUpTo(file, image, if toverify > ioSize then toverify - ioSize else 0)
    }

    /** The state in which packet k comes next: all before it has been compared in full. */
    ghost predicate Compared(image: seq<byte>, toverify: nat, k: nat)
      requires toverify <= |file| && toverify <= |image|
      reads this`verifyFailed, this`filePos
    {
      && filePos == k * ioSize
      && (k > 0 ==> filePos + ioSize <= toverify)
      && (verifyFailed <==> k > 0 && !SameUpTo(file, image, filePos))
    }

    /** Compares one batch, which begins with packet `from` of the stream. */
    method VerifySome(batch: seq<seq<byte>>, toverify: nat, memory: seq<byte>,
                      ghost image: seq<byte>, ghost rs: seq<seq<byte>>, ghost from: nat)
      returns (retaddr: nat)
      requires toverify == Min(size, |file|) && |image| == size && |memory| == 32 && ioSize <= 32
      requires IsStream(rs, image, ioSize, toverify)
      requires batch != [] && from + |batch| <= |rs| && batch == rs[from..from + |batch|]
      requires Compared(image, toverify, from)
      modifies this`filePos, this`verifyFailed
      ensures retaddr == toverify ==> Decided(image, toverify)
      ensures retaddr != toverify ==> Compared(image, toverify, from + |batch|)
    {
      retaddr := 0;
      var tmp := memory;
      var i := 0;
      while i < |batch|
        invariant 0 <= i <= |batch| && |tmp| == 32 && Compared(image, toverify, from + i)
        invariant i > 0 ==> retaddr < toverify
      {
        assert batch[i] == rs[from + i];
        retaddr := AddressOf(batch[i]);
        var done;
        done, tmp := VerifyPacket(batch[i], tmp, toverify, image, from + i);
        if done {
          return toverify;
        }
        i := i + 1;
      }
    }

    /** Reads the file's next chunk over the front of `memory` and compares it with a packet. */
    method VerifyPacket(packet: seq<byte>, memory: seq<byte>, toverify: nat, ghost image: seq<byte>, ghost k: nat)
      returns (done: bool, tmp: seq<byte>)
      requires toverify == Min(size, |file|) && |image| == size && |memory| == 32 && 0 < ioSize <= 32
      requires IsReply(packet, image, ioSize, k * ioSize) && Compared(image, toverify, k)
      modifies this`filePos, this`verifyFailed
      ensures |tmp| == 32
      ensures done ==> Decided(image, toverify)
      ensures !done ==> Compared(image, toverify, k + 1) && k * ioSize < toverify
    {
      Multiples.Succ(k, ioSize);
      ghost var addr := k * ioSize;
      assert k == 0 ==> addr == 0;
      tmp := memory;
      var ret := Min(ioSize, |file| - filePos);
      if ret == 0 {
        return true, tmp;
      }
      tmp := file[filePos..filePos + ret] + memory[ret..];
      filePos := filePos + ret;
      done := CompareChunk(tmp, packet[6..], AddressOf(packet), toverify, image);
    }

    /** Compares one chunk, byte by byte, until `ioSize` bytes before the end. */
    method CompareChunk(tmp: seq<byte>, data: seq<byte>, addr: nat, toverify: nat, ghost image: seq<byte>)
      returns (done: bool)
      requires |tmp| == 32 && 0 < ioSize <= 32 && |data| == ioSize && toverify <= |file| && toverify <= |image|
      requires addr + ioSize <= |image| && data == image[addr..addr + ioSize] && addr < |file|
      requires forall o :: 0 <= o < ioSize && addr + o < |file| ==> tmp[o] == file[addr + o]
      requires addr > 0 ==> addr + ioSize <= toverify
      requires verifyFailed <==> addr > 0 && !SameUpTo(file, image, addr)
      modifies this`verifyFailed
      ensures done ==> (verifyFailed <==> !SameUpTo(file, image, if toverify > ioSize then toverify - ioSize else 0))
      ensures !done ==> addr + ioSize + ioSize <= toverify && (verifyFailed <==> !SameUpTo(file, image, addr + ioSize))
    {
      var j := 0;
      while j < ioSize
        invariant 0 <= j <= ioSize && (j > 0 ==> addr + ioSize + j <= toverify)
        invariant verifyFailed <==> addr + j > 0 && !(addr + j <= |file| && SameUpTo(file, image, addr + j))
      {
        if addr + ioSize + j >= toverify {
          return true;
        }
        if tmp[j] != data[j] {
          verifyFailed := true;
        }
        j := j + 1;
      }
      done := false;
    }

    /** `verify`. It reports failure exactly when the device differs from the file somewhere before
        the last `ioSize` bytes to be verified. */
    method Verify(batches: seq<seq<seq<byte>>>, memory: seq<byte>, ghost image: seq<byte>) returns (failed: bool)
      requires 0 < size == |image| && 0 < ioSize <= 32 && size % ioSize == 0 && [] !in batches && |memory| == 32
      requires filePos == 0 && IsStream(Conservation.Flatten(batches), image, ioSize, Min(size, |file|))
      modifies this`filePos, this`verifyFailed
      ensures failed <==> exists k {:trigger file[k]} :: 0 <= k < Min(size, |file|) - ioSize && file[k] != image[k]
    {
      var toverify := Min(size, |file|);
      ghost var rs := Conservation.Flatten(batches);
      ghost var from := 0;
      verifyFailed := false;
      CountBounds(toverify, ioSize, size);
      assert batches[..|batches|] == batches;
      var j := 0;
      var done := false;
      while !done
        invariant 0 <= j <= |batches| && from == |Conservation.Flatten(batches[..j])| <= |rs|
        invariant if done then Decided(image, toverify) else Compared(image, toverify, from)
        decreases |batches| - j, !done
      {
        assert from < |rs|;
        BatchOf(batches, j);
        var addr := VerifySome(batches[j], toverify, memory, image, rs, from);
        from := from + |batches[j]|;
        j := j + 1;
        done := addr == toverify;
      }
      failed := verifyFailed;
    }
  }

  lemma LastPacket(k: nat, n: nat, q: nat)
    requires 0 < q && k < n
    ensures k * q + q <= n * q
    ensures k * q == n * q - q <==> k + 1 == n
  {
    Multiples.Succ(k, q);
    Multiples.Monotone(k + 1, n, q);
    if k + 1 < n {
      Multiples.Monotone(k + 2, n, q);
      Multiples.Succ(k + 1, q);
    }
  }

  lemma WholeCount(size: nat, q: nat)
    requires 0 < q && 0 < size && size % q == 0
    ensures size == ReplyCount(size, q) * q
  {
    CountBounds(size, q, size);
  }
}
