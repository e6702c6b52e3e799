/** Both rings at once: what a report promises when ack payloads are on. */
module AckPayloads {
  import opened Types
  import opened Transfers
  import opened Host
  import opened Dongles

  /** The ring that RQ_WRITE fills and the one that RQ_READ empties: their roles depend on the mode. */
  function Filled(d: Dongle): seq<Packet> { if d.mode == ModeRead then d.acb else d.cb }
  function FilledSize(d: Dongle): nat { if d.mode == ModeRead then d.acbSize else d.cbSize }
  function Emptied(d: Dongle): seq<Packet> { if d.mode == ModeRead then d.cb else d.acb }

  ghost predicate Sound(d: Dongle) { |d.cb| <= d.cbSize < 256 && |d.acb| <= d.acbSize < 256 }

  /** The host has nothing to do, and is in the dongle's mode. */
  ghost predicate Waiting(h: Adaptor, d: Dongle) {
    h.current.None? && h.queue == [] && h.currentMode == d.mode && Sound(d)
  }

  function WriteAll(d: Dongle, ps: seq<Packet>): Dongle
    requires CanStore(d)
    decreases |ps|
  {
    if ps == [] then d else WriteAll(ExecWrite(d, ps[0]), ps[1..])
  }

  function ReadMany(d: Dongle, n: nat): (r: (Dongle, seq<Option<(Packet, bool)>>))
    ensures |r.1| == n
    decreases n
  {
    if n == 0 then (d, [])
    else
      var (e, reply) := ExecRead(d);
      var (f, replies) := ReadMany(e, n - 1);
      (f, [reply] + replies)
  }

  /** A fresh report leaves the host with a credit for each free slot of the one ring and for each packet in the
      other. */
  lemma FreshCredits(h: Adaptor, d: Dongle, expired: bool)
    requires Waiting(h, d)
    ensures var r := StatusArrived(h, ReportOf(d), expired);
      r.countToWrite == FilledSize(d) - |Filled(d)| && r.countToRead == |Emptied(d)|
  {
  }

  /** So many writes, and not one more, drop nothing; the ring for reading stays as it is, and the report is true. */
  lemma {:induction false} WritesFit(d: Dongle, ps: seq<Packet>)
    requires Sound(d) && CanStore(d)
    ensures var e := WriteAll(d, ps);
      && Emptied(e) == Emptied(d) && e.mode == d.mode && Sound(e) && FilledSize(e) == FilledSize(d)
      && (Filled(e) == Filled(d) + ps <==> |ps| <= FilledSize(d) - |Filled(d)|)
      && (ps != [] ==> e.posted == ReportOf(e))
    decreases |ps|
  {
    if ps != [] {
      var e := ExecWrite(d, ps[0]);
      WritesFit(e, ps[1..]);
      if |Filled(d)| < FilledSize(d) {
        assert Filled(d) + ps == Filled(e) + ps[1..];
      }
    }
  }

  /** So many reads, and not one more, find a packet each, the oldest first; each reply but the last says "more". The
      ring for writing stays as it is. */
  lemma {:induction false} ReadsFind(d: Dongle, n: nat)
    ensures var (e, replies) := ReadMany(d, n);
      && Filled(e) == Filled(d) && e.mode == d.mode
      && (0 < n <= |Emptied(d)| ==> e.posted == ReportOf(e))
      && forall i :: 0 <= i < n ==>
           replies[i] == if i < |Emptied(d)| then Some((Emptied(d)[i], i < |Emptied(d)| - 1)) else None
    decreases n
  {
    if n > 0 {
      ReadsFind(ExecRead(d).0, n - 1);
    }
  }

  /** The host takes a report for idle exactly when there is nothing in either ring and nothing in the radio. */
  lemma IdleMeansEmpty(d: Dongle)
    requires Sound(d)
    ensures ReportsIdle(ReportOf(d)) <==> d.cb == [] && d.acb == [] && d.radio.txFifo == []
  {
  }

  /** Credits are exact with ack payloads on or off: a waiting host that handles a fresh report may send just as
      many writes as drop nothing, and just as many reads as find a packet. */
  lemma CreditsAreExact(h: Adaptor, d: Dongle, expired: bool, ps: seq<Packet>, n: nat)
    requires Waiting(h, d)
    ensures var r := StatusArrived(h, ReportOf(d), expired);
      && (CanStore(d) ==> (|ps| <= r.countToWrite <==> Filled(WriteAll(d, ps)) == Filled(d) + ps))
      && (!CanStore(d) ==> r.countToWrite == 0)
      && (n <= r.countToRead <==> None !in ReadMany(d, n).1)
  {
    FreshCredits(h, d, expired);
    if CanStore(d) {
      WritesFit(d, ps);
    }
    ReadsFind(d, n);
    if n > |Emptied(d)| {
      assert ReadMany(d, n).1[|Emptied(d)|] == None;
    }
  }
}
