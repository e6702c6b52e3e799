/** The protocol never gets stuck: whatever has happened, the current transfer can still complete. */
module Progress {
  import opened Types
  import opened Transfers
  import opened Host
  import opened Dongles
  import opened Protocol
  import opened FlowControl
  import WritePhase
  import ReadPhase
  import Exactness

  /** In every state of every run the number of pending I/Os is the number of operations under way, for a write
      transfer in its mode also its own count; and a current transfer has I/O pending or a status request out. */
  lemma PendingIsReal(trace: seq<State>, steps: seq<Step>, m: Mode, n: nat)
    requires ProperRun(trace, steps, m) && n < |trace|
    ensures var s := trace[n];
      && s.host.numIosPending == |s.host.outbox| + |s.done|
      && (s.host.current.Some? ==> s.host.numIosPending > 0 || s.host.interruptIsRunning)
      && (IsWriteMode(m) && s.host.currentMode == m && s.host.current.Some? ==>
            s.host.current.value.numWriting == s.host.numIosPending)
  {
    RunKeeps(trace, steps, m, n);
  }

  /** A current transfer always has a step ahead that neither the application nor the radio must take. */
  lemma NeverStuck(trace: seq<State>, steps: seq<Step>, m: Mode, n: nat)
    requires ProperRun(trace, steps, m) && n < |trace| && trace[n].host.current.Some?
    ensures var s := trace[n];
      Enabled(s, Executed) || Enabled(s, Called) || Enabled(s, Polled) || Enabled(s, Reported(false))
  {
    RunKeeps(trace, steps, m, n);
    InvMoves(trace[n], m);
  }

  lemma InvMoves(s: State, m: Mode)
    requires Inv(s, m) && s.host.current.Some?
    ensures Enabled(s, Executed) || Enabled(s, Called) || Enabled(s, Polled) || Enabled(s, Reported(false))
  {
    if Settled(s, m) && s.host.outbox != [] {
      if IsWriteMode(m) { WritePhase.ExecutedKeeps(s, m); } else { ReadPhase.ExecutedKeeps(s); }
    }
  }

  // Towards completion

  ghost predicate Reaches(s: State, r: State, m: Mode) { Reachable(s, r, Careful(m)) }

  lemma Go(s: State, u: State, step: Step, m: Mode) returns (r: State)
    requires Reaches(s, u, m) && WritePhase.Settled(u, m) && Enabled(u, step) && !step.Submitted?
    ensures r == Apply(u, step) && Reaches(s, r, m) && WritePhase.Settled(r, m)
  {
    r := Apply(u, step);
    ReachNext(s, u, step, Careful(m));
    WritePhase.StepKeeps(u, m, step);
  }

  /** From `h` to `r` the transfer that was current has completed. */
  ghost predicate Completed(h: Adaptor, r: Adaptor) {
    && h.current.Some? && |r.finished| > |h.finished|
    && var t := r.finished[|h.finished|];
       t.status == TransferCompleted && SameTransfer(h.current.value, t)
  }

  /** Two stages of one transfer. */
  predicate SameTransfer(t: Transfer, u: Transfer) {
    u.mode == t.mode && u.isSync == t.isSync && u.sendQueue == t.sendQueue && u.countToRead == t.countToRead
  }

  /** Only the dongle differs. */
  ghost predicate SameHost(s: State, r: State) { r.host == s.host && r.done == s.done && r.snapshot == s.snapshot }

  /** How much a streaming dongle has left to do. */
  function StreamWork(d: Dongle): nat {
    if !d.writing then if d.cb == [] then 0 else 2 * |d.cb| + 1
    else if d.radio.event.None? || d.cb == [] then 2 * |d.cb|
    else 2 * |d.cb| - 1
  }

  /** Radio and main loop, between them, always have something to do and less of it afterwards. */
  lemma StreamStep(d: Dongle)
    requires WritePhase.DongleInv(d, ModeWriteStream) && (d.writing || d.cb != [])
    ensures d.writing && d.radio.event.None? ==>
      CanTransmit(d.radio) && StreamWork(d.(radio := Transmit(d.radio, true))) < StreamWork(d)
    ensures !(d.writing && d.radio.event.None?) ==> StreamWork(ProcessRadio(d, 0)) < StreamWork(d)
  {
  }

  lemma {:induction false} DrainStream(s: State, u: State) returns (r: State)
    requires Reaches(s, u, ModeWriteStream) && WritePhase.Settled(u, ModeWriteStream)
    ensures Reaches(s, r, ModeWriteStream) && WritePhase.Settled(r, ModeWriteStream) && SameHost(u, r)
    ensures r.dongle.cb == [] && r.dongle.radio.txFifo == []
    decreases StreamWork(u.dongle)
  {
    if !u.dongle.writing && u.dongle.cb == [] {
      r := u;
    } else {
      StreamStep(u.dongle);
      var step := if u.dongle.writing && u.dongle.radio.event.None? then Transmitted(true) else Processed(0);
      r := Go(s, u, step, ModeWriteStream);
      r := DrainStream(s, r);
    }
  }

  lemma {:induction false} DrainAll(d: Dongle)
    ensures DrainBulk(d, |d.cb|).cb == [] && DrainBulk(d, |d.cb|).mode == d.mode
    decreases |d.cb|
  {
    if d.cb != [] {
      DrainAll(d.(radio := Load(d.radio, d.cb[0]), cb := d.cb[1..]));
    }
  }

  lemma {:induction false} EmptyFifo(s: State, u: State) returns (r: State)
    requires Reaches(s, u, ModeWriteBulk) && WritePhase.Settled(u, ModeWriteBulk)
    requires u.dongle.cb == [] && u.dongle.radio.event != Some(false)
    ensures Reaches(s, r, ModeWriteBulk) && WritePhase.Settled(r, ModeWriteBulk) && SameHost(u, r)
    ensures r.dongle.cb == [] && r.dongle.radio.txFifo == []
    decreases |u.dongle.radio.txFifo|
  {
    r := u;
    if u.dongle.radio.txFifo != [] {
      r := Go(s, u, Transmitted(true), ModeWriteBulk);
      r := EmptyFifo(s, r);
    }
  }

  lemma DrainDongle(s: State, u: State, m: Mode) returns (r: State)
    requires Reaches(s, u, m) && WritePhase.Settled(u, m)
    ensures Reaches(s, r, m) && WritePhase.Settled(r, m) && SameHost(u, r)
    ensures r.dongle.cb == [] && r.dongle.radio.txFifo == []
  {
    if m == ModeWriteStream {
      r := DrainStream(s, u);
    } else {
      DrainAll(u.dongle);
      r := Go(s, u, Processed(|u.dongle.cb|), m);
      r := EmptyFifo(s, r);
    }
  }

  /** What the current transfer has not given to the adaptor yet. */
  function Remaining(h: Adaptor): nat {
    if h.current.Some? && h.current.value.nextToSend <= |h.current.value.sendQueue|
    then |h.current.value.sendQueue| - h.current.value.nextToSend else 0
  }

  predicate EmptyReport(st: Status) { st.cbCount == 0 && st.fifoIsEmpty && st.cbSize > 0 }

  /** A report leads to completion, or to more packets on the wire, or at least uses itself up. */
  lemma AfterReport(s: State, m: Mode)
    requires WritePhase.Settled(s, m) && s.snapshot.Some?
    ensures var r := Apply(s, Reported(false));
      || Completed(s.host, r.host)
      || (|r.host.finished| == |s.host.finished| && r.host.current.Some? && r.snapshot.None?
          && SameTransfer(s.host.current.value, r.host.current.value)
          && Remaining(r.host) <= Remaining(s.host)
          && (Remaining(r.host) == Remaining(s.host) ==> r.host.outbox == [] && r.done == []))
    ensures var r := Apply(s, Reported(false));
      Remaining(r.host) == Remaining(s.host) && EmptyReport(s.snapshot.value) ==>
        Completed(s.host, r.host)
  {
    var h, st := s.host, s.snapshot.value;
    var t := h.current.value;
    var h0 := h.(interruptIsRunning := false);
    var lastOk := LastTxOk(h, st);
    if !ReportsIdle(st) || !NowIdle(t, lastOk, false).1 {
      var h2 := h0.(countToWrite := WritePhase.Credits(h, st), countToRead := 0);
      assert StatusArrived(h, st, false) == StartTransfers(h2);
      var news := WritePhase.IssueAllWrites(h2, m);
      KeepsTransfer(h2);
    } else {
      ReportRetires(h, m, st);
    }
  }

  /** Issuing leaves the transfer the same but for what it has given away. */
  lemma {:induction false} KeepsTransfer(h: Adaptor)
    requires h.current.Some? && h.countToRead == 0
    ensures var r := IssueAll(h);
      r.current.Some? && SameTransfer(h.current.value, r.current.value)
      && r.current.value.nextToSend >= h.current.value.nextToSend
      && (r.current.value.nextToSend == h.current.value.nextToSend ==> r == h && !CanWrite(h))
    decreases h.countToWrite
  {
    if CanWrite(h) {
      assert IssueRound(h) == IssueWrite(h);
      KeepsTransfer(IssueWrite(h));
    }
  }

  lemma ReportRetires(h: Adaptor, m: Mode, st: Status)
    requires WritePhase.HostInv(h, m) && h.current.Some? && h.numIosPending == 0 && WritePhase.Exhausted(h)
    requires ReportsIdle(st) && NowIdle(h.current.value, LastTxOk(h, st), false).1
    ensures Completed(h, StatusArrived(h, st, false))
  {
    var h0 := h.(interruptIsRunning := false);
    WritePhase.IdleKeeps(h0, m, LastTxOk(h, st), false);
    var h1 := UpdateIdleStatus(h0, LastTxOk(h, st), false);
    var h2 := h1.(countToWrite := WritePhase.Credits(h1, st), countToRead := 0);
    assert StatusArrived(h, st, false) == StartTransfers(h2);
    var news := WritePhase.StartWrites(h2, m);
  }

  /** Closer to completion, in this order: packets still to take, requests to execute, callbacks to run,
      a report to handle. */
  ghost predicate Closer(s: State, r: State) {
    || Remaining(r.host) < Remaining(s.host)
    || (Remaining(r.host) == Remaining(s.host)
        && (|r.host.outbox| < |s.host.outbox|
            || (|r.host.outbox| == |s.host.outbox|
                && (|r.done| < |s.done| || (|r.done| == |s.done| && r.snapshot.None? && s.snapshot.Some?)))))
  }

  ghost predicate OverOrCloser(s: State, r: State) {
    || Completed(s.host, r.host)
    || (|r.host.finished| == |s.host.finished| && s.host.current.Some? && r.host.current.Some?
        && SameTransfer(s.host.current.value, r.host.current.value) && Closer(s, r))
  }

  lemma ExecutedCloser(u: State, m: Mode)
    requires WritePhase.Settled(u, m) && u.host.outbox != [] && u.host.current.Some?
    ensures Enabled(u, Executed) && OverOrCloser(u, Apply(u, Executed))
  {
    WritePhase.ExecutedKeeps(u, m);
  }

  lemma CalledCloser(u: State, m: Mode)
    requires WritePhase.Settled(u, m) && u.done != [] && u.host.outbox == []
    ensures Enabled(u, Called) && OverOrCloser(u, Apply(u, Called))
  {
  }

  lemma PendingFirst(s: State, u: State, m: Mode) returns (r: State)
    requires Reaches(s, u, m) && WritePhase.Settled(u, m) && u.host.current.Some?
    requires u.host.outbox != [] || u.done != []
    ensures Reaches(s, r, m) && WritePhase.Settled(r, m) && OverOrCloser(u, r)
  {
    hide Reaches, WritePhase.Settled;
    if u.host.outbox != [] {
      ExecutedCloser(u, m);
      r := Go(s, u, Executed, m);
    } else {
      CalledCloser(u, m);
      r := Go(s, u, Called, m);
    }
  }

  lemma ReportNext(s: State, u: State, m: Mode) returns (r: State)
    requires Reaches(s, u, m) && WritePhase.Settled(u, m) && u.snapshot.Some?
    ensures Reaches(s, r, m) && WritePhase.Settled(r, m) && OverOrCloser(u, r)
    ensures Remaining(r.host) == Remaining(u.host) && EmptyReport(u.snapshot.value) ==>
      Completed(u.host, r.host)
  {
    AfterReport(u, m);
    r := Go(s, u, Reported(false), m);
  }

  /** With nothing pending, a drained dongle's next report decides. */
  lemma FreshReport(s: State, u: State, m: Mode) returns (r: State)
    requires Reaches(s, u, m) && WritePhase.Settled(u, m) && u.host.current.Some?
    requires u.host.outbox == [] && u.done == [] && u.snapshot.None?
    ensures Reaches(s, r, m) && WritePhase.Settled(r, m) && OverOrCloser(u, r)
  {
    hide Reaches;
    var u1 := DrainDongle(s, u, m);
    var u2 := Go(s, u1, Posted, m);
    var u3 := Go(s, u2, Polled, m);
    assert u3.host == u.host && EmptyReport(u3.snapshot.value);
    r := ReportNext(s, u3, m);
  }

  /** From every state of a settled write phase the current transfer can still complete: no status
      request and no acknowledgement is ever lost on the way. */
  lemma {:induction false} CanComplete(s: State, u: State, m: Mode) returns (r: State)
    requires Reaches(s, u, m) && WritePhase.Settled(u, m) && u.host.current.Some?
    ensures Reaches(s, r, m) && Completed(u.host, r.host)
    decreases Remaining(u.host), |u.host.outbox|, |u.done|, if u.snapshot.Some? then 1 else 0
  {
    var next: State;
    if u.host.outbox != [] || u.done != [] {
      next := PendingFirst(s, u, m);
    } else if u.snapshot.Some? {
      next := ReportNext(s, u, m);
    } else {
      next := FreshReport(s, u, m);
    }
    if Completed(u.host, next.host) {
      r := next;
    } else {
      r := CanComplete(s, next, m);
    }
  }

  lemma Advance(s: State, u: State, step: Step, m: Mode)
    requires Reaches(s, u, m) && Inv(u, m) && Allowed(u, step, Careful(m))
    ensures Reaches(s, Apply(u, step), m) && Inv(Apply(u, step), m)
  {
    ReachNext(s, u, step, Careful(m));
    StepKeeps(u, m, step);
  }

  /** From the middle of the switch to the settled phase, with the transfers as they are. */
  lemma IntoPhase(s: State, u: State, m: Mode) returns (r: State)
    requires IsWriteMode(m) && Reaches(s, u, m) && Inv(u, m) && u.host.current.Some?
    ensures Reaches(s, r, m) && WritePhase.Settled(r, m)
    ensures r.host.current == u.host.current && r.host.finished == u.host.finished
  {
    hide Reaches;
    r := u;
    if Switching(r, m) {
      Advance(s, r, Executed, m);
      r := Apply(r, Executed);
      assert Switched(r, m);
    }
    if Switched(r, m) {
      Advance(s, r, Called, m);
      r := Apply(r, Called);
    }
  }

  /** In every reachable state with a current write transfer, some continuation completes it. */
  lemma AlwaysCompletable(start: State, s: State, m: Mode) returns (r: State)
    requires IsWriteMode(m) && Quiet(start, m) && Reaches(start, s, m) && s.host.current.Some?
    ensures Reaches(s, r, m) && Completed(s.host, r.host)
  {
    Exactness.ReachableKeeps(start, s, m, Careful(m));
    ReachSelf(s, Careful(m));
    var u := IntoPhase(s, s, m);
    r := CanComplete(s, u, m);
  }

  // The same for reading

  lemma GoReading(s: State, u: State, step: Step) returns (r: State)
    requires Reaches(s, u, ModeRead) && ReadPhase.Settled(u) && Enabled(u, step) && !step.Submitted?
    ensures r == Apply(u, step) && Reaches(s, r, ModeRead) && ReadPhase.Settled(r)
  {
    r := Apply(u, step);
    ReachNext(s, u, step, Careful(ModeRead));
    ReadPhase.StepKeeps(u, step);
  }

  /** How many packets the current read transfer still waits for. */
  function Wanted(h: Adaptor): int {
    if h.current.Some? then h.current.value.countToRead - |h.current.value.recvQueue| else 0
  }

  ghost predicate OverOrFewer(s: State, r: State) {
    || Completed(s.host, r.host)
    || (|r.host.finished| == |s.host.finished| && s.host.current.Some? && r.host.current.Some?
        && SameTransfer(s.host.current.value, r.host.current.value) && 0 < Wanted(r.host) < Wanted(s.host))
  }

  /** A reply counts for the current transfer. */
  lemma ReplyCounts(s: State)
    requires ReadPhase.Settled(s) && s.done != [] && s.host.current.Some? && Wanted(s.host) > 0
    ensures Enabled(s, Called) && OverOrFewer(s, Apply(s, Called))
  {
    var h := s.host;
    var (p, more) := s.done[0].reply.value;
    if more && h.numIosPending == 1 {
      ReadPhase.StartReads(h.(countToRead := 1));
      assert UpdateStatus(h, -1, 1).finished == h.finished by {
        StartKeepsReceived(h.(countToRead := 1));
      }
    }
  }

  /** A report that counts packets makes the host read them. */
  lemma ReportReads(s: State)
    requires ReadPhase.Settled(s) && s.snapshot.Some?
    ensures var r := Apply(s, Reported(false));
      && r.host.current == s.host.current && r.host.finished == s.host.finished && r.done == s.done
      && |r.host.outbox| == |s.host.outbox| + s.snapshot.value.cbCount && r.snapshot.None?
  {
    var h, st := s.host, s.snapshot.value;
    var h0 := h.(interruptIsRunning := false);
    assert UpdateIdleStatus(h0, LastTxOk(h, st), false) == h0;
    var h1 := h0.(countToWrite := 0, countToRead := st.cbCount);
    assert StatusArrived(h, st, false) == StartTransfers(h1);
    ReadPhase.StartReads(h1);
    StartKeepsReceived(h1);
  }

  /** With nothing pending, a packet heard by the radio gets the transfer going again. */
  lemma HearPacket(s: State, u: State) returns (r: State)
    requires Reaches(s, u, ModeRead) && ReadPhase.Settled(u) && u.host.current.Some?
    requires u.host.outbox == [] && u.done == []
    ensures Reaches(s, r, ModeRead) && ReadPhase.Settled(r)
    ensures r.host.current == u.host.current && r.host.finished == u.host.finished
    ensures r.host.outbox != [] && r.done == []
  {
    r := u;
    if r.snapshot.Some? {
      ReportReads(r);
      r := GoReading(s, r, Reported(false));
    }
    if r.host.outbox == [] {
      r := FillRing(s, r);
      r := GoReading(s, r, Polled);
      ReportReads(r);
      r := GoReading(s, r, Reported(false));
    }
  }

  /** The main loop fills the ring and a report is posted. */
  function Filled(d: Dongle): Dongle { Post(FillCb(d)) }

  lemma FillRing(s: State, u: State) returns (r: State)
    requires Reaches(s, u, ModeRead) && ReadPhase.Settled(u)
    ensures Reaches(s, r, ModeRead) && ReadPhase.Settled(r) && SameHost(u, r) && r.dongle.posted.cbCount > 0
  {
    var heard := GoReading(s, u, Received(Packet(0, [])));
    r := FillAndPost(s, heard);
    FilledCounts(heard.dongle);
  }

  lemma FillAndPost(s: State, u: State) returns (r: State)
    requires Reaches(s, u, ModeRead) && ReadPhase.Settled(u)
    ensures Reaches(s, r, ModeRead) && ReadPhase.Settled(r) && r == u.(dongle := Filled(u.dongle))
  {
    assert u.dongle.mode == ModeRead;
    hide Reaches, ReadPhase.Settled, FillCb, Post;
    r := GoReading(s, u, Processed(0));
    assert r == u.(dongle := FillCb(u.dongle));
    r := GoReading(s, r, Posted);
  }

  lemma FilledCounts(d: Dongle)
    requires RingsOk(d) && d.radio.rxFifo != []
    ensures Filled(d).posted.cbCount > 0
  {
    ReadPhase.FillKeeps(d);
    if |d.cb| < d.cbSize {
      ReadPhase.FillKeeps(d.(cb := d.cb + [d.radio.rxFifo[0]], radio := d.radio.(rxFifo := d.radio.rxFifo[1..])));
    }
  }

  /** A read transfer that still waits for packets can still get them all, if only the radio hears enough. */
  lemma {:induction false} CanRead(s: State, u: State) returns (r: State)
    requires Reaches(s, u, ModeRead) && ReadPhase.Settled(u) && u.host.current.Some? && Wanted(u.host) > 0
    ensures Reaches(s, r, ModeRead) && Completed(u.host, r.host)
    decreases Wanted(u.host)
  {
    var v := u;
    if v.done == [] {
      if v.host.outbox == [] {
        v := HearPacket(s, v);
      }
      if v.done == [] {
        ReadPhase.ExecutedKeeps(v);
        v := GoReading(s, v, Executed);
      }
    }
    ReplyCounts(v);
    r := GoReading(s, v, Called);
    if !Completed(v.host, r.host) {
      r := CanRead(s, r);
    }
  }

  /** A read for no packets at all, on the other hand, never completes: what it receives is never none. */
  lemma ReadOfNothing(s: State, step: Step)
    requires ReadPhase.Settled(s) && Enabled(s, step) && s.host.current.Some? && Wanted(s.host) <= 0
    requires step != Reported(true)
    ensures Apply(s, step).host.current.Some? && Wanted(Apply(s, step).host) <= 0
    ensures Apply(s, step).host.finished == s.host.finished
  {
    var h := s.host;
    match step
    case Submitted(t) =>
      StartKeepsReceived(h.(queue := h.queue + [t.(nextToSend := 0, status := TransferQueued)]));
    case Called =>
      StartKeepsReceived(h.(countToRead := 1));
    case Reported(_) => ReportReads(s);
    case _ =>
  }

  /** While a transfer is current, starting transfers leaves it what it has received. */
  lemma StartKeepsReceived(h: Adaptor)
    requires h.current.Some?
    ensures var r := StartTransfers(h);
      && r.finished == h.finished && r.current.Some?
      && r.current.value.recvQueue == h.current.value.recvQueue
      && r.current.value.countToRead == h.current.value.countToRead
  {
    IssueKeepsReceived(h);
  }

  lemma {:induction false} IssueKeepsReceived(h: Adaptor)
    requires h.current.Some?
    ensures var r := IssueAll(h);
      && r.finished == h.finished && r.current.Some?
      && r.current.value.recvQueue == h.current.value.recvQueue
      && r.current.value.countToRead == h.current.value.countToRead
    decreases h.countToWrite + h.countToRead
  {
    if CanWrite(h) || h.countToRead > 0 {
      IssueKeepsReceived(IssueRound(h));
    }
  }
}
