/** What every step keeps while the dongle listens. */
module ReadPhase {
  import opened Types
  import opened Transfers
  import opened Host
  import opened Dongles
  import opened Protocol

  // Ledgers

  /** What a list of transfers received, in order. */
  ghost function ReceivedBy(ts: seq<Transfer>): seq<Packet> {
    if ts == [] then [] else ReceivedBy(ts[..|ts| - 1]) + ts[|ts| - 1].recvQueue
  }

  ghost function Delivered(h: Adaptor): seq<Packet> {
    ReceivedBy(h.finished) + if h.current.Some? then h.current.value.recvQueue else []
  }

  predicate AllReads(cs: seq<Control>) { forall i :: 0 <= i < |cs| ==> cs[i] == ReadReq }

  predicate AllReplies(cs: seq<Completion>) {
    forall i :: 0 <= i < |cs| ==> cs[i].Obtained? && cs[i].reply.Some?
  }

  function Replies(cs: seq<Completion>): (ps: seq<Packet>)
    requires AllReplies(cs)
  {
    seq(|cs|, i requires 0 <= i < |cs| => cs[i].reply.value.0)
  }

  // The host

  ghost predicate Reading(t: Transfer) {
    && t.mode == ModeRead && t.sendQueue == [] && t.nextToSend == 0 && t.status == TransferQueued
    && (t.recvQueue != [] ==> |t.recvQueue| != t.countToRead)
  }

  ghost predicate HostInv(h: Adaptor) {
    && h.currentMode == ModeRead && h.canXfer && h.countToWrite == 0 && AllReads(h.outbox)
    && (forall i :: 0 <= i < |h.queue| ==> Fresh(h.queue[i], ModeRead))
    && (h.current.Some? ==> Reading(h.current.value))
    && h.numIosPending >= 0
  }

  ghost predicate Asking(h: Adaptor) {
    h.interruptIsRunning <==> h.current.Some? && h.numIosPending == 0
  }

  /** From `h` to `r` all read credits became reads on the wire; nothing else changed. */
  ghost predicate Issued(h: Adaptor, r: Adaptor) {
    && HostInv(r) && r.countToRead == 0
    && |r.outbox| == |h.outbox| + h.countToRead
    && r.numIosPending == h.numIosPending + h.countToRead
    && r.finished == h.finished && r.interruptIsRunning == h.interruptIsRunning
    && Delivered(r) == Delivered(h)
  }

  lemma {:induction false} IssueAllReads(h: Adaptor)
    requires HostInv(h) && h.current.Some?
    ensures Issued(h, IssueAll(h)) && IssueAll(h).current == h.current
    decreases h.countToRead
  {
    if h.countToRead > 0 {
      assert !CanWrite(h);
      IssueAllReads(IssueRead(h));
    }
  }

  /** What `startTransfers` does in a settled read phase. */
  lemma StartReads(h: Adaptor)
    requires HostInv(h)
    requires h.interruptIsRunning ==> h.current.Some? && h.numIosPending == 0 && h.countToRead == 0
    requires h.current.None? && h.queue == [] ==> h.countToRead == 0
    ensures var r := StartTransfers(h);
      && HostInv(r) && Asking(r) && r.countToRead == 0
      && |r.outbox| == |h.outbox| + h.countToRead
      && r.numIosPending == h.numIosPending + h.countToRead
      && Delivered(r) == Delivered(h)
      && (h.current.Some? ==> r.current == h.current)
  {
    var h1 := PickNext(h);
    assert HostInv(h1) && Delivered(h1) == Delivered(h);
    if h1.current.Some? {
      IssueAllReads(h1);
    }
  }

  // The dongle

  /** A report never promises more packets than there are. */
  ghost predicate Covered(st: Status, d: Dongle) {
    st.cbCount <= |d.cb| && st.acbCount == 0 && st.acbSize == 0
  }

  ghost predicate DongleInv(d: Dongle) {
    d.mode == ModeRead && RingsOk(d) && Covered(d.posted, d)
  }

  lemma {:induction false} FillKeeps(d: Dongle)
    requires RingsOk(d)
    ensures var e := FillCb(d);
      && RingsOk(e) && e.cbSize == d.cbSize && |e.cb| >= |d.cb|
      && e.mode == d.mode && e.posted == d.posted
      && e.radio.arrived == d.radio.arrived
      && e.cb + e.radio.rxFifo == d.cb + d.radio.rxFifo
      && (|e.cb| == e.cbSize || e.radio.rxFifo == [])
    decreases |d.radio.rxFifo|
  {
    if |d.cb| < d.cbSize && d.radio.rxFifo != [] {
      var p := d.radio.rxFifo[0];
      var e := d.(cb := d.cb + [p], radio := d.radio.(rxFifo := d.radio.rxFifo[1..]));
      assert d.radio.rxFifo == [p] + e.radio.rxFifo;
      FillKeeps(e);
    }
  }

  // The whole

  ghost predicate Settled(s: State) {
    var h, d := s.host, s.dongle;
    && HostInv(h) && Asking(h) && h.countToRead == 0
    && AllReplies(s.done)
    && h.numIosPending == |h.outbox| + |s.done|
    && DongleInv(d)
    && |h.outbox| <= |d.cb|
    && (s.done != [] && s.done[|s.done| - 1].reply.value.1 ==> d.cb != [])
    && (s.snapshot.Some? ==> h.interruptIsRunning && Covered(s.snapshot.value, d))
    && Delivered(h) + Replies(s.done) + (d.cb + d.radio.rxFifo) == d.radio.arrived
  }

  lemma SubmitKeeps(s: State, t: Transfer)
    requires Settled(s) && Fresh(t, ModeRead)
    ensures Settled(Apply(s, Submitted(t)))
  {
    var h := s.host.(queue := s.host.queue + [t]);
    assert Delivered(h) == Delivered(s.host);
    StartReads(h);
  }

  /** A read finds a packet. Its reply has the oldest one, and says "more" exactly when another is left. */
  lemma ReadFinds(s: State)
    requires Settled(s) && s.host.outbox != []
    ensures Enabled(s, Executed) && s.dongle.cb != []
    ensures var r := Apply(s, Executed);
      && r.done == s.done + [Obtained(Some((s.dongle.cb[0], r.dongle.cb != [])))]
      && s.dongle.cb == [s.dongle.cb[0]] + r.dongle.cb
      && r.host == s.host.(outbox := s.host.outbox[1..])
      && r.dongle == Post(s.dongle.(cb := s.dongle.cb[1..]))
  {
  }

  lemma ExecutedKeeps(s: State)
    requires Settled(s) && s.host.outbox != []
    ensures Enabled(s, Executed) && s.dongle.cb != []
    ensures Settled(Apply(s, Executed))
  {
    ReadFinds(s);
    assert Replies(Apply(s, Executed).done) == Replies(s.done) + [s.dongle.cb[0]];
    assert !s.host.interruptIsRunning;
  }

  lemma DoneKeeps(h: Adaptor, p: Packet)
    requires HostInv(h) && h.current.Some? && h.countToRead == 0 && h.numIosPending > 0 && Asking(h)
    ensures var r := BufferReadDone(h, p);
      && HostInv(r) && Asking(r) && r.countToRead == 0 && r.outbox == h.outbox
      && r.numIosPending == h.numIosPending - 1
      && Delivered(r) == Delivered(h) + [p]
  {
    var (t, over) := ReadDone(h.current.value, p);
    if over {
      assert (h.finished + [t])[..|h.finished|] == h.finished;
    }
  }

  lemma CalledKeeps(s: State)
    requires Settled(s) && s.done != [] && s.host.current.Some?
    ensures Enabled(s, Called) && Settled(Apply(s, Called))
  {
    var h := s.host;
    var (p, more) := s.done[0].reply.value;
    var r := Apply(s, Called);
    assert Replies(s.done) == [p] + Replies(r.done);
    if more && h.numIosPending == 1 {
      StartReads(h.(countToRead := 1));
      DoneKeeps(UpdateStatus(h, -1, 1), p);
    } else {
      DoneKeeps(h, p);
    }
  }

  lemma ReportedKeeps(s: State, expired: bool)
    requires Settled(s) && s.snapshot.Some?
    ensures Settled(Apply(s, Reported(expired)))
  {
    var h, st := s.host, s.snapshot.value;
    var h0 := h.(interruptIsRunning := false);
    var h1 := if ReportsIdle(st) then UpdateIdleStatus(h0, LastTxOk(h, st), expired) else h0;
    if h1.current.None? {
      var t := NowIdle(h.current.value, LastTxOk(h, st), expired).0;
      assert (h.finished + [t])[..|h.finished|] == h.finished;
    }
    assert HostInv(h1) && Delivered(h1) == Delivered(h);
    StartReads(h1.(countToWrite := 0, countToRead := st.cbCount));
  }

  /** Every step keeps the settled phase settled. */
  lemma StepKeeps(s: State, step: Step)
    requires Settled(s) && Enabled(s, step)
    requires step.Submitted? ==> Fresh(step.transfer, ModeRead)
    ensures Settled(Apply(s, step))
  {
    match step
    case Submitted(t) => SubmitKeeps(s, t);
    case Executed => ExecutedKeeps(s);
    case Called => CalledKeeps(s);
    case Processed(room) => FillKeeps(s.dongle);
    case Posted =>
    case Transmitted(acked) =>
    case Received(p) =>
    case Polled =>
    case Reported(expired) => ReportedKeeps(s, expired);
  }
}
