/** What a restore leaves in the device's memory. */
module Restored {
  import opened Types
  import opened Framing
  import opened Chips
  import opened RestoreJobs
  import Multiples

  /** Commands as the writes they ask for. */
  function Writes(cs: seq<Command>, q: nat): (ws: seq<Chunk>)
    requires Sized(cs) && q <= DATA_SIZE
    ensures |ws| == |cs|
  {
    seq(|cs|, i requires 0 <= i < |cs| => Chunk(cs[i].addr, cs[i].data[..q]))
  }

  lemma {:induction false} DirectAppend(mem: seq<byte>, a: seq<Chunk>, b: seq<Chunk>)
    requires Inside(a, |mem|) && Inside(b, |mem|)
    ensures Inside(a + b, |mem|)
    ensures WriteAllDirect(mem, a + b) == WriteAllDirect(WriteAllDirect(mem, a), b)
  {
    hide Overlay;
    if b == [] {
      assert a + b == a;
    } else {
      var n := |b| - 1;
      DirectAppend(mem, a, b[..n]);
      assert (a + b)[..|a| + n] == a + b[..n];
      assert (a + b)[|a| + n] == b[n];
    }
  }

  /** Consecutive chunks from chunk k on. */
  ghost predicate Consecutive(ws: seq<Chunk>, k: nat, q: nat) {
    forall i :: 0 <= i < |ws| ==> ws[i].addr == (k + i) * q && |ws[i].data| == q
  }

  /** The data of some chunks, one after the other. */
  function Bytes(ws: seq<Chunk>): seq<byte> {
    if ws == [] then [] else Bytes(ws[..|ws| - 1]) + ws[|ws| - 1].data
  }

  /** Each chunk begins where the one before it ends. */
  ghost predicate Follows(ws: seq<Chunk>, at: nat) {
    ws != [] ==>
      var before := ws[..|ws| - 1];
      Follows(before, at) && ws[|ws| - 1].addr == at + |Bytes(before)|
  }

  lemma {:induction false} ConsecutiveFollows(ws: seq<Chunk>, k: nat, q: nat)
    requires Consecutive(ws, k, q)
    ensures Follows(ws, k * q) && |Bytes(ws)| == |ws| * q && k * q + |Bytes(ws)| == (k + |ws|) * q
  {
    if ws != [] {
      var n := |ws| - 1;
      ConsecutiveFollows(ws[..n], k, q);
      assert (k + n) * q + q == (k + |ws|) * q && n * q + q == |ws| * q;
    }
  }

  /** Writing such chunks is one long write. */
  lemma {:induction false} DirectRun(mem: seq<byte>, ws: seq<Chunk>, at: nat)
    requires Follows(ws, at) && at + |Bytes(ws)| <= |mem|
    ensures Inside(ws, |mem|)
    ensures WriteAllDirect(mem, ws) == Overlay(mem, at, Bytes(ws))
  {
    if ws != [] {
      DirectRun(mem, ws[..|ws| - 1], at);
    }
  }

  // The image a job leaves behind when every write goes straight to memory

  /** Where the job's writes end. */
  function End(job: Job): nat
    requires job.Valid()
  {
    if job.pad > 1 then job.PageEnd(job.Count()) * job.q
    else (job.Count() + |job.Leftover()|) * job.q
  }

  lemma Ends(job: Job)
    requires job.Valid()
    ensures job.Count() * job.q <= End(job)
    ensures (job.Count() + |job.Leftover()|) * job.q <= End(job)
  {
    var n := job.Count();
    Multiples.Monotone(n, n + |job.Leftover()|, job.q);
    if job.pad > 1 {
      Multiples.Monotone(n + |job.Leftover()|, job.PageEnd(n), job.q);
    }
  }

  /** Every byte of memory `m` after the job, given `mem` before it: the file; in the last chunk whatever
      the command still held of earlier chunks; then filler or, without padding, at most the same chunk once
      more; the rest as it was. */
  ghost predicate Image(job: Job, mem: seq<byte>, m: seq<byte>)
    requires job.Valid()
  {
    var n, q := job.Count() * job.q, job.q;
    && |m| == |mem|
    && (forall i :: 0 <= i < job.Length() && i < |m| ==> m[i] == job.file[i])
    && (forall i :: 0 <= i && n - q <= i < n && i < |m| ==> m[i] == job.Buffer(job.Count())[i - (n - q)])
    && (job.pad > 1 ==> forall i :: n <= i < End(job) && i < |m| ==> m[i] == FILLER)
    && (job.pad <= 1 ==> forall i :: n <= i < n + q && i < End(job) && i < |m| ==>
          m[i] == job.Buffer(job.Count())[i - n])
    && (forall i :: End(job) <= i < |m| ==> m[i] == mem[i])
  }

  /** Those parts leave out no byte. Without padding a chunk behind the data is overwritten exactly when the
      file ends inside a batch. */
  lemma ImageIsWhole(job: Job)
    requires job.Valid()
    ensures job.Count() * job.q - job.q <= job.Length() <= job.Count() * job.q <= End(job)
    ensures job.pad <= 1 ==>
      End(job) == job.Count() * job.q + if job.Boundary(0, job.Count()) then 0 else job.q
  {
    LengthBelow(job);
    Ends(job);
    Multiples.Succ(job.Count(), job.q);
    if job.Count() > 0 {
      job.EndOfFile(job.Count() - 1);
      Multiples.Succ(job.Count() - 1, job.q);
      Multiples.Monotone(job.Count(), job.rooms, job.q);
    }
  }

  /** The bytes of the data commands begin with the file. */
  lemma {:induction false} FileBytes(job: Job, k: nat)
    requires job.Valid() && k <= job.Count()
    ensures var ws := Writes(job.Data(0, k), job.q);
      && Consecutive(ws, 0, job.q) && |Bytes(ws)| == k * job.q && StartsLike(Bytes(ws), job.file)
  {
    hide Job.Count, Job.Buffer, Job.Slice, Follows;
    var ws := Writes(job.Data(0, k), job.q);
    ConsecutiveFollows(ws, 0, job.q);
    if k > 0 {
      FileBytes(job, k - 1);
      SliceOf(job, k - 1);
      assert ws[..k - 1] == Writes(job.Data(0, k - 1), job.q);
      assert ws[k - 1].data == job.Buffer(k)[..job.q];
      NextSlice(Bytes(ws[..k - 1]), ws[k - 1].data, job.Slice(k - 1), job.file);
    }
  }

  lemma LastChunkBytes(job: Job, k: nat)
    requires job.Valid() && 0 < k <= job.Count()
    ensures var bytes := Bytes(Writes(job.Data(0, k), job.q));
      |bytes| >= job.q && bytes[|bytes| - job.q..] == job.Buffer(k)[..job.q]
  {
    hide Job.Count, Job.Buffer;
    var ws := Writes(job.Data(0, k), job.q);
    assert ws[k - 1].data == job.Buffer(k)[..job.q];
    assert Bytes(ws) == Bytes(ws[..k - 1]) + ws[k - 1].data;
  }

  /** A chunk that is sent begins with its slice of the file. */
  lemma SliceOf(job: Job, k: nat)
    requires job.Valid() && k < job.Count()
    ensures k * job.q <= |job.file| && job.Slice(k) == job.file[k * job.q..Min(k * job.q + job.q, |job.file|)]
    ensures job.Slice(k) == job.Buffer(k + 1)[..job.q][..|job.Slice(k)|]
  {
    job.EndOfFile(k);
  }

  /** As far as both go, `b` and `file` are the same. */
  ghost predicate StartsLike(b: seq<byte>, file: seq<byte>) {
    forall i :: 0 <= i < |b| && i < |file| ==> b[i] == file[i]
  }

  lemma NextSlice(b: seq<byte>, data: seq<byte>, slice: seq<byte>, file: seq<byte>)
    requires StartsLike(b, file) && |b| <= |file|
    requires slice == file[|b|..Min(|b| + |data|, |file|)] && slice == data[..|slice|]
    ensures StartsLike(b + data, file)
  {
    forall i | |b| <= i < |b + data| && i < |file| ensures (b + data)[i] == file[i] {
      assert (b + data)[i] == data[..|slice|][i - |b|];
    }
  }

  lemma {:induction false} PaddingBytes(job: Job, a: nat, b: nat)
    requires job.Valid() && a <= b
    ensures var ws := Writes(job.Padding(a, b), job.q);
      && Consecutive(ws, a, job.q) && |Bytes(ws)| == (b - a) * job.q
      && forall i :: 0 <= i < |Bytes(ws)| ==> Bytes(ws)[i] == FILLER
  {
    var ws := Writes(job.Padding(a, b), job.q);
    ConsecutiveFollows(ws, a, job.q);
    if a < b {
      PaddingBytes(job, a, b - 1);
      assert ws[..b - a - 1] == Writes(job.Padding(a, b - 1), job.q);
      assert ws[b - a - 1].data == job.Fill()[..job.q];
    }
  }

  /** The padding of a job, if it has any. */
  function Padded(job: Job): (cs: seq<Command>)
    requires job.Valid()
    ensures Sized(cs)
  {
    if job.pad > 1 then job.Padding(job.Count(), job.PageEnd(job.Count())) else []
  }

  lemma EmissionWrites(job: Job)
    requires job.Valid()
    ensures Writes(job.Emission(), job.q) ==
            Writes(job.Data(0, job.Count()), job.q) + Writes(job.Leftover(), job.q) + Writes(Padded(job), job.q)
    ensures Consecutive(Writes(job.Leftover(), job.q), job.Count(), job.q)
  {
  }

  /** Written straight to memory, a job leaves its image. */
  lemma DirectImage(job: Job, mem: seq<byte>)
    requires job.Valid() && End(job) <= |mem|
    ensures var ws := Writes(job.Emission(), job.q);
      Inside(ws, |mem|) && Image(job, mem, WriteAllDirect(mem, ws))
  {
    hide End, Job.Count, Job.Emission, Job.Buffer, Job.Length, Job.Boundary, WriteAllDirect, StartsLike, Image;
    var q, n := job.q, job.Count();
    var data, extra, padding := Writes(job.Data(0, n), q), Writes(job.Leftover(), q), Writes(Padded(job), q);
    DataRuns(job);
    LeftoverRuns(job);
    PaddingRuns(job);
    DirectRun(mem, data, 0);
    var m1 := WriteAllDirect(mem, data);
    DirectRun(m1, extra, n * q);
    var m2 := WriteAllDirect(m1, extra);
    DirectRun(m2, padding, n * q);
    DirectAppend(mem, data, extra);
    DirectAppend(mem, data + extra, padding);
    OverlaidImage(job, mem, Bytes(data), Bytes(extra), Bytes(padding));
    EmissionWrites(job);
  }

  // How the parts of an emission lie in memory

  lemma DataRuns(job: Job)
    requires job.Valid()
    ensures var ws := Writes(job.Data(0, job.Count()), job.q);
      Follows(ws, 0) && |Bytes(ws)| == job.Count() * job.q && StartsLike(Bytes(ws), job.file)
    ensures job.Length() <= job.Count() * job.q <= End(job)
    ensures job.Count() > 0 ==>
      var bytes := Bytes(Writes(job.Data(0, job.Count()), job.q));
      |bytes| >= job.q && bytes[|bytes| - job.q..] == job.Buffer(job.Count())[..job.q]
  {
    FileBytes(job, job.Count());
    if job.Count() > 0 {
      LastChunkBytes(job, job.Count());
    }
    ConsecutiveFollows(Writes(job.Data(0, job.Count()), job.q), 0, job.q);
    LengthBelow(job);
    Ends(job);
  }

  lemma LeftoverRuns(job: Job)
    requires job.Valid()
    ensures var ws := Writes(job.Leftover(), job.q);
      && Follows(ws, job.Count() * job.q) && job.Count() * job.q + |Bytes(ws)| <= End(job)
      && (Bytes(ws) == [] || Bytes(ws) == job.Buffer(job.Count())[..job.q])
      && (job.pad <= 1 ==> job.Count() * job.q + |Bytes(ws)| == End(job))
  {
    EmissionWrites(job);
    OneChunk(Writes(job.Leftover(), job.q));
    ConsecutiveFollows(Writes(job.Leftover(), job.q), job.Count(), job.q);
    Ends(job);
  }

  lemma OneChunk(ws: seq<Chunk>)
    requires |ws| <= 1
    ensures Bytes(ws) == if ws == [] then [] else ws[0].data
  {
    if ws != [] {
      assert ws[..0] == [];
    }
  }

  lemma PaddingRuns(job: Job)
    requires job.Valid()
    ensures var ws := Writes(Padded(job), job.q);
      && Follows(ws, job.Count() * job.q)
      && job.Count() * job.q + |Bytes(ws)| == (if job.pad > 1 then End(job) else job.Count() * job.q)
      && forall i :: 0 <= i < |Bytes(ws)| ==> Bytes(ws)[i] == FILLER
  {
    if job.pad > 1 {
      PaddingBytes(job, job.Count(), job.PageEnd(job.Count()));
      ConsecutiveFollows(Writes(Padded(job), job.q), job.Count(), job.q);
    }
  }

  /** Data, then the leftover chunk, then the filler over it. */
  lemma OverlaidImage(job: Job, mem: seq<byte>, data: seq<byte>, extra: seq<byte>, filler: seq<byte>)
    requires job.Valid() && End(job) <= |mem|
    requires var n := job.Count() * job.q;
      && |data| == n && n + |extra| <= End(job)
      && n + |filler| == if job.pad > 1 then End(job) else n
    requires job.Length() <= |data|
    requires StartsLike(data, job.file)
    requires job.Count() > 0 ==> 0 <= |data| - job.q && data[|data| - job.q..] == job.Buffer(job.Count())[..job.q]
    requires job.Count() == 0 ==> data == []
    requires extra == [] || extra == job.Buffer(job.Count())[..job.q]
    requires job.pad <= 1 ==> |data| + |extra| == End(job)
    requires forall i :: 0 <= i < |filler| ==> filler[i] == FILLER
    ensures Image(job, mem, Overlay(Overlay(Overlay(mem, 0, data), |data|, extra), |data|, filler))
  {
    hide End, Job.Count, Job.Buffer, Job.Size;
  }

  /** What is written of the file lies in the data chunks. */
  lemma LengthBelow(job: Job)
    requires job.Valid()
    ensures job.Length() <= job.Count() * job.q
  {
    job.EndOfFile(job.Count());
  }
}
