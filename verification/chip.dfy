/** Multiples of a chunk or page size. */
module Multiples {
  lemma Monotone(a: nat, b: nat, c: nat)
    requires a <= b
    ensures a * c <= b * c
  {
  }

  lemma Succ(k: nat, q: nat)
    ensures (k + 1) * q == k * q + q
  {
  }

  /** Quotient and remainder are unique. */
  lemma DivMod(x: nat, q: nat, d: nat, r: nat)
    requires 0 < q && x == d * q + r && r < q
    ensures x / q == d && x % q == r
  {
    var e := x / q;
    assert x == e * q + x % q;
    assert (e + 1) * q == e * q + q && (d + 1) * q == d * q + q;
    if e < d {
      Monotone(e + 1, d, q);
    } else if d < e {
      Monotone(d + 1, e, q);
    }
  }

  lemma MultipleOf(k: nat, q: nat)
    requires 0 < q
    ensures (k * q) % q == 0 && k * q / q == k
  {
    DivMod(k * q, q, k, 0);
  }

  lemma Step(x: nat, q: nat)
    requires 0 < q && x % q == 0
    ensures (x + q) % q == 0
  {
    var k := x / q;
    assert x + q == k * q + q == (k + 1) * q;
    MultipleOf(k + 1, q);
  }

  /** Between two multiples there is room for one more step. */
  lemma Room(x: nat, y: nat, q: nat)
    requires 0 < q && x % q == 0 && y % q == 0 && x < y
    ensures x + q <= y
  {
    var i, j := x / q, y / q;
    assert x == i * q && y == j * q;
    if j <= i {
      Monotone(j, i, q);
    } else {
      Monotone(i + 1, j, q);
      assert (i + 1) * q == i * q + q;
    }
  }

  /** The page behind the one a position lies in begins within a whole number of pages. */
  lemma NextPageWithin(a: nat, size: nat, page: nat)
    requires 0 < page && size % page == 0 && a < size
    ensures (a / page + 1) * page <= size
  {
    var start := a / page * page;
    Succ(a / page, page);
    MultipleOf(a / page, page);
    assert start <= a;
    Room(start, size, page);
  }

  /** The only multiple just above a position. */
  lemma NextMultiple(a: nat, end: nat, page: nat)
    requires 0 < page && end % page == 0 && a < end <= a + page
    ensures end == (a / page + 1) * page
  {
    var d := end / page;
    assert end == d * page;
    if d > 0 {
      Succ(d - 1, page);
      DivMod(a, page, d - 1, a - (end - page));
    }
  }

  /** A multiple of a multiple of q is a multiple of q. */
  lemma Through(x: nat, page: nat, q: nat)
    requires 0 < q && 0 < page && page % q == 0 && x % page == 0
    ensures x % q == 0
  {
    var i, j := x / page, page / q;
    assert x == i * page && page == j * q;
    assert i * (j * q) == (i * j) * q;
    MultipleOf(i * j, q);
  }

  lemma Distribute(d: nat, r: nat, m: nat, q: nat)
    ensures (d * r + m) * q == d * (r * q) + m * q
  {
  }

  /** Scaling both sides does not change divisibility. */
  lemma Scale(k: nat, r: nat, q: nat)
    requires 0 < q && 0 < r
    ensures 0 < r * q && ((k * q) % (r * q) == 0 <==> k % r == 0)
  {
    var d, m := k / r, k % r;
    Distribute(d, r, m, q);
    assert k * q == d * (r * q) + m * q;
    Monotone(m + 1, r, q);
    assert (m + 1) * q == m * q + q;
    DivMod(k * q, r * q, d, m * q);
    if m > 0 {
      Monotone(1, m, q);
    }
  }

  lemma InPage(a: nat, start: nat, page: nat)
    requires 0 < page && start % page == 0 && start <= a < start + page
    ensures a % page == a - start
  {
    assert start == start / page * page;
    DivMod(a, page, start / page, a - start);
  }

  lemma StartOfPage(a: nat, page: nat)
    requires 0 < page
    ensures a % page <= a && (a - a % page) % page == 0
  {
    var k := a / page;
    assert a == k * page + a % page;
    MultipleOf(k, page);
  }
}

/** Program memory behind its page buffer: src/avr/avr-boot-common.c. */
module Chips {
  import opened Types
  import Multiples

  /** A write of one chunk. */
  datatype Chunk = Chunk(addr: nat, data: seq<byte>)

  datatype Chip = Chip(flash: seq<byte>, pbuf: seq<byte>)

  function Overlay<T>(mem: seq<T>, at: nat, data: seq<T>): (r: seq<T>)
    requires at + |data| <= |mem|
    ensures |r| == |mem|
    ensures forall i :: 0 <= i < |mem| ==> r[i] == if at <= i < at + |data| then data[i - at] else mem[i]
  {
    seq(|mem|, i requires 0 <= i < |mem| => if at <= i < at + |data| then data[i - at] else mem[i])
  }

  function PageOf(addr: nat, page: nat): nat
    requires 0 < page
  {
    Multiples.StartOfPage(addr, page);
    addr - addr % page
  }

  lemma PageBounds(addr: nat, page: nat, q: nat)
    requires 0 < q && 0 < page && page % q == 0 && addr % q == 0
    ensures PageOf(addr, page) % page == 0
    ensures addr + q <= PageOf(addr, page) + page
    ensures (addr + q) % page == 0 <==> addr + q == PageOf(addr, page) + page
  {
    var start := PageOf(addr, page);
    Multiples.StartOfPage(addr, page);
    Multiples.Step(start, page);
    Multiples.Through(start + page, page, q);
    Multiples.Room(addr, start + page, q);
    if addr + q < start + page {
      Multiples.InPage(addr + q, start, page);
    }
  }

  /** `do_flash_write`: into the page buffer, and on to the flash once the page is complete. */
  function WriteChunk(c: Chip, w: Chunk): (r: Chip)
    requires 0 < |c.pbuf| && w.addr % |c.pbuf| + |w.data| <= |c.pbuf|
    requires PageOf(w.addr, |c.pbuf|) + |c.pbuf| <= |c.flash|
    ensures |r.flash| == |c.flash| && |r.pbuf| == |c.pbuf|
  {
    var pbuf := Overlay(c.pbuf, w.addr % |c.pbuf|, w.data);
    var done := (w.addr + |w.data|) % |c.pbuf| == 0;
    Chip(if done then Overlay(c.flash, PageOf(w.addr, |c.pbuf|), pbuf) else c.flash, pbuf)
  }

  /** Chunks of q bytes at multiples of q, in pages that the memory has. */
  ghost predicate Fits(ws: seq<Chunk>, q: nat, page: nat, size: nat) {
    && 0 < q && 0 < page && page % q == 0
    && forall i :: 0 <= i < |ws| ==>
         |ws[i].data| == q && ws[i].addr % q == 0 && PageOf(ws[i].addr, page) + page <= size
  }

  ghost function WriteAll(c: Chip, ws: seq<Chunk>, q: nat): (r: Chip)
    requires Fits(ws, q, |c.pbuf|, |c.flash|)
    ensures |r.flash| == |c.flash| && |r.pbuf| == |c.pbuf|
  {
    if ws == [] then c
    else
      var w := ws[|ws| - 1];
      PageBounds(w.addr, |c.pbuf|, q);
      WriteChunk(WriteAll(c, ws[..|ws| - 1], q), w)
  }

  // The reference: every byte goes to its address at once.

  ghost predicate Inside(ws: seq<Chunk>, size: nat) {
    forall i :: 0 <= i < |ws| ==> ws[i].addr + |ws[i].data| <= size
  }

  function WriteAllDirect(mem: seq<byte>, ws: seq<Chunk>): (r: seq<byte>)
    requires Inside(ws, |mem|)
    ensures |r| == |mem|
  {
    if ws == [] then mem
    else Overlay(WriteAllDirect(mem, ws[..|ws| - 1]), ws[|ws| - 1].addr, ws[|ws| - 1].data)
  }

  lemma FitsInside(ws: seq<Chunk>, q: nat, page: nat, size: nat)
    requires Fits(ws, q, page, size)
    ensures Inside(ws, size)
  {
    forall i | 0 <= i < |ws| ensures ws[i].addr + |ws[i].data| <= size {
      PageBounds(ws[i].addr, page, q);
    }
  }

  /** The highest chunk so far. */
  ghost function High(ws: seq<Chunk>, from: nat): nat {
    if ws == [] then from
    else
      var before, last := High(ws[..|ws| - 1], from), ws[|ws| - 1].addr;
      if last > before then last else before
  }

  /** After chunk `a`, the highest so far: the next one, the same one again, or, as long as its page is not
      complete, any earlier one of that page. */
  ghost predicate Admits(a: nat, addr: nat, q: nat, page: nat)
    requires 0 < page
  {
    || addr == a + q
    || addr == a
    || (PageOf(a, page) <= addr < a && a + q < PageOf(a, page) + page)
  }

  /** Page after page without a gap, with rewrites anywhere in the page under way. */
  ghost predicate InOrder(ws: seq<Chunk>, from: nat, q: nat, page: nat)
    requires 0 < page
  {
    ws != [] ==>
      var n := |ws| - 1;
      if n == 0 then ws[0].addr == from
      else InOrder(ws[..n], from, q, page) && Admits(High(ws[..n], from), ws[n].addr, q, page)
  }

  /** Each chunk at its predecessor's address, or right behind it. */
  ghost predicate Steady(ws: seq<Chunk>, from: nat, q: nat) {
    && (ws != [] ==> ws[0].addr == from)
    && forall i :: 0 <= i < |ws| - 1 ==> ws[i + 1].addr == ws[i].addr || ws[i + 1].addr == ws[i].addr + q
  }

  lemma {:induction false} SteadyInOrder(ws: seq<Chunk>, from: nat, q: nat, page: nat)
    requires Steady(ws, from, q) && 0 < page && ws != []
    ensures InOrder(ws, from, q, page) && High(ws, from) == ws[|ws| - 1].addr
  {
    var n := |ws| - 1;
    if n > 0 {
      assert Steady(ws[..n], from, q);
      SteadyInOrder(ws[..n], from, q, page);
      assert ws[n - 1 + 1].addr == ws[n - 1].addr || ws[n - 1 + 1].addr == ws[n - 1].addr + q;
    } else {
      assert ws[..0] == [];
    }
  }

  // Refinement, one chunk at a time. `a` is the highest chunk so far, `start` its page.

  function Border(start: nat, a: nat, q: nat, page: nat): nat {
    if a + q == start + page then a + q else start
  }

  /** Chip `c`, which held `flash0`, against memory `direct`. */
  ghost predicate Agrees(c: Chip, flash0: seq<byte>, direct: seq<byte>, start: nat, a: nat, q: nat) {
    var page := |c.pbuf|;
    && start <= a && a + q <= start + page <= |flash0| && |c.flash| == |direct| == |flash0|
    && (forall i :: 0 <= i < |flash0| ==>
          c.flash[i] == if i < Border(start, a, q, page) then direct[i] else flash0[i])
    && (forall i :: start <= i < a + q ==> c.pbuf[i - start] == direct[i])
    && (forall i :: a + q <= i < |flash0| ==> direct[i] == flash0[i])
  }

  /** What `WriteChunk` does, with the page worked out. */
  function Program(c: Chip, start: nat, w: Chunk): (r: Chip)
    requires start <= w.addr && w.addr + |w.data| <= start + |c.pbuf| <= |c.flash|
  {
    var pbuf := Overlay(c.pbuf, w.addr - start, w.data);
    Chip(if w.addr + |w.data| == start + |c.pbuf| then Overlay(c.flash, start, pbuf) else c.flash, pbuf)
  }

  lemma WriteIsProgram(c: Chip, w: Chunk, q: nat)
    requires 0 < q == |w.data| && 0 < |c.pbuf| && |c.pbuf| % q == 0 && w.addr % q == 0
    requires PageOf(w.addr, |c.pbuf|) + |c.pbuf| <= |c.flash|
    ensures var start := PageOf(w.addr, |c.pbuf|);
      && start <= w.addr && w.addr + q <= start + |c.pbuf| && w.addr % |c.pbuf| + q <= |c.pbuf|
      && WriteChunk(c, w) == Program(c, start, w)
  {
    PageBounds(w.addr, |c.pbuf|, q);
  }

  /** A chunk in the page under way. */
  lemma SamePageAgrees(c: Chip, flash0: seq<byte>, direct: seq<byte>, start: nat, a: nat, w: Chunk)
    requires 0 < |w.data| && Agrees(c, flash0, direct, start, a, |w.data|)
    requires w.addr == a || w.addr == a + |w.data|
             || (start <= w.addr < a && a + |w.data| < start + |c.pbuf|)
    requires w.addr + |w.data| <= start + |c.pbuf|
    ensures Agrees(Program(c, start, w), flash0, Overlay(direct, w.addr, w.data), start,
                   if w.addr > a then w.addr else a, |w.data|)
  {
    var r, d, q := Program(c, start, w), Overlay(direct, w.addr, w.data), |w.data|;
    var high := if w.addr > a then w.addr else a;
    assert forall i :: start <= i < high + q ==> r.pbuf[i - start] == d[i];
    if w.addr + q == start + |c.pbuf| {
      assert forall i :: start <= i < start + |c.pbuf| ==> r.flash[i] == r.pbuf[i - start];
    }
  }

  /** The first chunk of the next page. */
  lemma NewPageAgrees(c: Chip, flash0: seq<byte>, direct: seq<byte>, start: nat, a: nat, w: Chunk)
    requires 0 < |w.data| <= |c.pbuf| && Agrees(c, flash0, direct, start, a, |w.data|)
    requires w.addr == a + |w.data| == start + |c.pbuf| && w.addr + |c.pbuf| <= |flash0|
    ensures Agrees(Program(c, w.addr, w), flash0, Overlay(direct, w.addr, w.data), w.addr, w.addr, |w.data|)
  {
    var r, d, q := Program(c, w.addr, w), Overlay(direct, w.addr, w.data), |w.data|;
    assert forall i :: w.addr <= i < w.addr + q ==> r.pbuf[i - w.addr] == d[i];
    if q == |c.pbuf| {
      assert forall i :: w.addr <= i < w.addr + q ==> r.flash[i] == r.pbuf[i - w.addr];
    }
  }

  lemma FirstAgrees(c: Chip, w: Chunk)
    requires 0 < |w.data| <= |c.pbuf| && w.addr + |c.pbuf| <= |c.flash|
    ensures Agrees(Program(c, w.addr, w), c.flash, Overlay(c.flash, w.addr, w.data), w.addr, w.addr, |w.data|)
  {
    var r, d, q := Program(c, w.addr, w), Overlay(c.flash, w.addr, w.data), |w.data|;
    assert forall i :: w.addr <= i < w.addr + q ==> r.pbuf[i - w.addr] == d[i];
    if q == |c.pbuf| {
      assert forall i :: w.addr <= i < w.addr + q ==> r.flash[i] == r.pbuf[i - w.addr];
    }
  }

  lemma PagesInOrder(prev: nat, next: nat, page: nat, q: nat)
    requires 0 < q && 0 < page && page % q == 0 && prev % q == 0 && next == prev + q
    ensures next <= PageOf(prev, page) + page
    ensures PageOf(next, page) == if next < PageOf(prev, page) + page then PageOf(prev, page) else next
  {
    PageBounds(prev, page, q);
    var start := PageOf(prev, page);
    if next < start + page {
      Multiples.InPage(next, start, page);
    } else {
      Multiples.InPage(next, next, page);
    }
  }

  lemma StepAgrees(c: Chip, flash0: seq<byte>, direct: seq<byte>, a: nat, w: Chunk, q: nat)
    requires 0 < q == |w.data| && 0 < |c.pbuf| && |c.pbuf| % q == 0 && a % q == 0 && w.addr % q == 0
    requires Admits(a, w.addr, q, |c.pbuf|)
    requires PageOf(w.addr, |c.pbuf|) + |c.pbuf| <= |c.flash|
    requires Agrees(c, flash0, direct, PageOf(a, |c.pbuf|), a, q)
    ensures w.addr % |c.pbuf| + q <= |c.pbuf| && w.addr + q <= |direct|
    ensures var high := if w.addr > a then w.addr else a;
      Agrees(WriteChunk(c, w), flash0, Overlay(direct, w.addr, w.data), PageOf(high, |c.pbuf|), high, q)
  {
    var page, start := |c.pbuf|, PageOf(a, |c.pbuf|);
    WriteIsProgram(c, w, q);
    PagesInOrder(a, a + q, page, q);
    if w.addr < a {
      PageBounds(a, page, q);
      Multiples.InPage(w.addr, start, page);
    }
    if PageOf(w.addr, page) == start {
      SamePageAgrees(c, flash0, direct, start, a, w);
    } else {
      NewPageAgrees(c, flash0, direct, start, a, w);
    }
  }

  /** With the last page complete, flash and memory are the same up to its end. */
  lemma CompletedPages(c: Chip, flash0: seq<byte>, direct: seq<byte>, start: nat, a: nat, q: nat)
    requires 0 < q && Agrees(c, flash0, direct, start, a, q) && a + q == start + |c.pbuf|
    ensures forall i :: 0 <= i < |flash0| ==> c.flash[i] == if i < a + q then direct[i] else flash0[i]
  {
  }

  /** Why a completed page admits no earlier chunk: it would only go to the page buffer, and the flash keeps
      agreeing with memory exactly when the chunk changes nothing. */
  lemma LateChunkIsLost(c: Chip, flash0: seq<byte>, direct: seq<byte>, start: nat, a: nat, w: Chunk)
    requires 0 < |w.data| && Agrees(c, flash0, direct, start, a, |w.data|) && a + |w.data| == start + |c.pbuf|
    requires start <= w.addr < a
    ensures var r, d := Program(c, start, w), Overlay(direct, w.addr, w.data);
      (forall i :: 0 <= i < start + |c.pbuf| ==> r.flash[i] == d[i]) <==> d == direct
  {
    var r, d := Program(c, start, w), Overlay(direct, w.addr, w.data);
    if forall i :: 0 <= i < start + |c.pbuf| ==> r.flash[i] == d[i] {
      assert forall i :: 0 <= i < |d| ==> d[i] == direct[i];
    }
  }

  /** The page buffer is invisible: below the last completed page the flash holds what direct writes
      would have put there, the page under way is in the buffer, and all above is as it was. */
  lemma {:induction false} PageBufferRefinesDirectWrites(c: Chip, ws: seq<Chunk>, from: nat, q: nat)
    requires Fits(ws, q, |c.pbuf|, |c.flash|) && InOrder(ws, from, q, |c.pbuf|) && from % |c.pbuf| == 0 && ws != []
    ensures Inside(ws, |c.flash|)
    ensures var a := High(ws, from);
      a % q == 0
      && Agrees(WriteAll(c, ws, q), c.flash, WriteAllDirect(c.flash, ws), PageOf(a, |c.pbuf|), a, q)
  {
    var n := |ws| - 1;
    var before := ws[..n];
    FitsInside(ws, q, |c.pbuf|, |c.flash|);
    if n > 0 {
      PageBufferRefinesDirectWrites(c, before, from, q);
      StepAgrees(WriteAll(c, before, q), c.flash, WriteAllDirect(c.flash, before), High(before, from), ws[n], q);
    } else {
      assert before == [];
      Multiples.InPage(from, from, |c.pbuf|);
      WriteIsProgram(c, ws[0], q);
      FirstAgrees(c, ws[0]);
    }
  }

  /** Chunks in order, without rewrites but of the last one, up to the end of a page: the flash is as memory would
      be, and above it is as it was. */
  lemma WholePages(c: Chip, ws: seq<Chunk>, q: nat)
    requires ws != [] && Fits(ws, q, |c.pbuf|, |c.flash|) && Steady(ws, 0, q)
    requires (ws[|ws| - 1].addr + q) % |c.pbuf| == 0
    ensures Inside(ws, |c.flash|)
    ensures forall i :: 0 <= i < |c.flash| ==>
      WriteAll(c, ws, q).flash[i] ==
        if i < ws[|ws| - 1].addr + q then WriteAllDirect(c.flash, ws)[i] else c.flash[i]
  {
    var last, page := ws[|ws| - 1].addr, |c.pbuf|;
    PageBounds(last, page, q);
    hide Steady, InOrder, High, PageOf, WriteAll, WriteAllDirect, Agrees;
    SteadyInOrder(ws, 0, q, page);
    PageBufferRefinesDirectWrites(c, ws, 0, q);
    CompletedPages(WriteAll(c, ws, q), c.flash, WriteAllDirect(c.flash, ws), PageOf(last, page), last, q);
  }
}
