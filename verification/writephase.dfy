/** What every step keeps while the dongle is in one of the two transmitting modes. */
module WritePhase {
  import opened Types
  import opened Transfers
  import opened Host
  import opened Dongles
  import opened Protocol

  // Ledgers

  ghost predicate AllValid(ts: seq<Transfer>) { forall i :: 0 <= i < |ts| ==> ts[i].Valid() }

  /** What a list of transfers gave to the adaptor, in order. */
  ghost function SentBy(ts: seq<Transfer>): seq<Packet>
    requires AllValid(ts)
  {
    if ts == [] then [] else SentBy(ts[..|ts| - 1]) + ts[|ts| - 1].Sent()
  }

  /** Every packet the adaptor has taken from a transfer. */
  ghost function Accepted(h: Adaptor): seq<Packet>
    requires AllValid(h.finished) && h.Valid()
  {
    SentBy(h.finished) + if h.current.Some? then h.current.value.Sent() else []
  }

  predicate AllWrites(cs: seq<Control>) { forall i :: 0 <= i < |cs| ==> cs[i].WriteReq? }

  function PacketsOf(cs: seq<Control>): (ps: seq<Packet>)
    requires AllWrites(cs)
  {
    seq(|cs|, i requires 0 <= i < |cs| => cs[i].packet)
  }

  function OnAirPackets(air: seq<OnAir>): seq<Packet> {
    seq(|air|, i requires 0 <= i < |air| => air[i].packet)
  }

  /** Ring contents not yet given to the radio: in stream mode the head stays while it is being sent. */
  function Waiting(d: Dongle): seq<Packet> { if d.writing then Rest(d.cb) else d.cb }

  // The host

  ghost predicate Writer(t: Transfer, m: Mode) { Fresh(t, m) && t.sendQueue != [] }

  ghost predicate HostInv(h: Adaptor, m: Mode) {
    && IsWriteMode(m) && h.currentMode == m && h.canXfer && h.countToRead == 0 && AllWrites(h.outbox)
    && (forall i :: 0 <= i < |h.queue| ==> Writer(h.queue[i], m))
    && (forall i :: 0 <= i < |h.finished| ==>
          && h.finished[i].Valid()
          && (h.finished[i].status == TransferCompleted ==> h.finished[i].AllSent()))
    && h.numIosPending >= 0
    && (h.current.None? ==> h.numIosPending == 0)
    && (h.current.Some? ==>
          var t := h.current.value;
          && t.Valid() && t.mode == m && t.status == TransferQueued && t.sendQueue != []
          && t.numWriting == h.numIosPending
          && (t.numWriting == 0 && t.AllSent() ==> t.isSync))
  }

  /** Nothing more can be issued now. */
  ghost predicate Exhausted(h: Adaptor) {
    h.current.Some? ==> h.countToWrite == 0 || h.current.value.AllSent()
  }

  /** A status request is out exactly when there is a current transfer and no I/O to wait for. */
  ghost predicate Asking(h: Adaptor) {
    h.interruptIsRunning <==> h.current.Some? && h.numIosPending == 0
  }

  /** From `h` to `r` the adaptor took `news` from its transfers and put them on the wire, for credits. */
  ghost predicate Issued(h: Adaptor, r: Adaptor, news: seq<Packet>, m: Mode) {
    && HostInv(h, m) && HostInv(r, m)
    && PacketsOf(r.outbox) == PacketsOf(h.outbox) + news
    && Accepted(r) == Accepted(h) + news
    && r.countToWrite + |news| == h.countToWrite
    && r.numIosPending == h.numIosPending + |news|
    && r.finished == h.finished
  }

  lemma {:induction false} IssueAllWrites(h: Adaptor, m: Mode) returns (news: seq<Packet>)
    requires HostInv(h, m) && h.current.Some?
    ensures Issued(h, IssueAll(h), news, m) && Exhausted(IssueAll(h))
    ensures IssueAll(h).current.Some? && IssueAll(h).queue == h.queue
    ensures IssueAll(h).interruptIsRunning == h.interruptIsRunning
    ensures Exhausted(h) ==> IssueAll(h) == h
    decreases h.countToWrite
  {
    news := [];
    if CanWrite(h) {
      var t := h.current.value;
      var p := t.sendQueue[t.nextToSend];
      var h1 := IssueWrite(h);
      assert IssueRound(h) == h1;
      assert t.sendQueue[..t.nextToSend + 1] == t.Sent() + [p];
      assert Accepted(h1) == Accepted(h) + [p];
      assert PacketsOf(h1.outbox) == PacketsOf(h.outbox) + [p];
      news := IssueAllWrites(h1, m);
      news := [p] + news;
    }
  }

  /** What `startTransfers` does in a settled write phase. */
  lemma StartWrites(h: Adaptor, m: Mode) returns (news: seq<Packet>)
    requires HostInv(h, m)
    requires h.interruptIsRunning ==> h.current.Some? && h.numIosPending == 0 && Exhausted(h)
    ensures Issued(h, StartTransfers(h), news, m)
    ensures Exhausted(StartTransfers(h)) && Asking(StartTransfers(h))
  {
    var h1 := PickNext(h);
    assert HostInv(h1, m) && Accepted(h1) == Accepted(h);
    news := [];
    if h1.current.Some? {
      news := IssueAllWrites(h1, m);
    }
  }

  // The dongle

  /** A report never promises more room than there is, and never calls a busy dongle idle. */
  ghost predicate Truthful(st: Status, d: Dongle) {
    && st.cbCount >= |d.cb| && st.cbSize - st.cbCount <= d.cbSize - |d.cb|
    && st.acbCount == 0 && st.acbSize == 0
    && (ReportsIdle(st) ==> d.cb == [] && d.radio.txFifo == [])
    && (st.cbCount == 0 && d.radio.handed != [] ==> st.lastTxFailed == d.lastTxFailed)
  }

  /** Stream mode: the packet being sent is the head of the ring and the newest one handed over. */
  ghost predicate StreamOk(d: Dongle) {
    var r := d.radio;
    && (d.writing ==>
          && d.cb != [] && r.handed != [] && r.handed[|r.handed| - 1] == d.cb[0]
          && r.txFifo == if r.event == Some(true) then [] else [d.cb[0]])
    && (d.writing && r.event == Some(true) ==> r.air != [] && r.air[|r.air| - 1].acked)
    && (!d.writing ==> r.txFifo == [] && r.event.None?)
    && (d.cb == [] && r.handed != [] ==>
          r.air != [] && (d.lastTxFailed == 0 <==> r.air[|r.air| - 1].acked))
  }

  /** Bulk mode: a packet leaves the radio's FIFO only by being acknowledged. */
  ghost predicate BulkOk(d: Dongle) {
    !d.writing && forall i :: 0 <= i < |d.radio.air| ==> d.radio.air[i].acked
  }

  ghost predicate DongleInv(d: Dongle, m: Mode) {
    && IsWriteMode(m) && d.mode == m && RingsOk(d) && Truthful(d.posted, d)
    && d.radio.handed == OnAirPackets(d.radio.air) + d.radio.txFifo
    && (if m == ModeWriteStream then StreamOk(d) else BulkOk(d))
  }

  /** The dongle moved on by itself: nothing was lost or reordered, reports remain truthful. */
  ghost predicate Progress(d: Dongle, e: Dongle, m: Mode) {
    && DongleInv(e, m) && |e.cb| <= |d.cb| && e.cbSize == d.cbSize
    && e.radio.handed + Waiting(e) == d.radio.handed + Waiting(d)
    && forall st :: Truthful(st, d) ==> Truthful(st, e)
  }

  lemma TransmitKeeps(d: Dongle, m: Mode, acked: bool)
    requires DongleInv(d, m) && CanTransmit(d.radio)
    ensures Progress(d, d.(radio := Transmit(d.radio, acked)), m)
  {
    var r := Transmit(d.radio, acked);
    if acked {
      var p := d.radio.txFifo[0];
      assert OnAirPackets(r.air) == OnAirPackets(d.radio.air) + [p];
      assert d.radio.txFifo == [p] + r.txFifo;
    }
  }

  lemma StreamFinishKeeps(d: Dongle)
    requires DongleInv(d, ModeWriteStream)
    ensures Progress(d, StreamFinish(d), ModeWriteStream)
    ensures d.writing && d.radio.event.Some? ==>
      var e := StreamFinish(d);
      d.cb == [d.cb[0]] + e.cb && e.posted.cbCount == |d.cb| && (e.posted.lastTxFailed == 0 <==> d.radio.event.value)
  {
    var e := StreamFinish(d);
    if d.writing && d.radio.event.Some? {
      var p := d.cb[0];
      if !d.radio.event.value {
        assert e.radio.air == d.radio.air + [OnAir(p, false)];
        assert OnAirPackets(e.radio.air) == OnAirPackets(d.radio.air) + [p];
      }
      assert e.radio.air != [];
    }
  }

  lemma StreamStartKeeps(d: Dongle)
    requires DongleInv(d, ModeWriteStream)
    ensures Progress(d, StreamStart(d), ModeWriteStream)
  {
    if !d.writing && d.cb != [] {
      assert d.cb == [d.cb[0]] + Rest(d.cb);
    }
  }

  lemma {:induction false} DrainBulkKeeps(d: Dongle, room: nat)
    requires DongleInv(d, ModeWriteBulk)
    ensures Progress(d, DrainBulk(d, room), ModeWriteBulk)
    decreases room
  {
    if d.cb != [] && room != 0 {
      var e := d.(radio := Load(d.radio, d.cb[0]), cb := d.cb[1..]);
      assert d.cb == [d.cb[0]] + e.cb;
      assert Progress(d, e, ModeWriteBulk);
      DrainBulkKeeps(e, room - 1);
    }
  }

  lemma ProcessKeeps(d: Dongle, m: Mode, room: nat)
    requires DongleInv(d, m)
    ensures Progress(d, ProcessRadio(d, room), m)
  {
    if m == ModeWriteStream {
      StreamFinishKeeps(d);
      StreamStartKeeps(StreamFinish(d));
    } else {
      DrainBulkKeeps(d, room);
      var e := DrainBulk(d, room);
      assert Progress(e, e.(radio := e.radio.(event := None)), m);
    }
  }

  lemma ExecWriteKeeps(d: Dongle, m: Mode, p: Packet)
    requires DongleInv(d, m) && |d.cb| < d.cbSize
    ensures DongleInv(ExecWrite(d, p), m)
    ensures ExecWrite(d, p).cb == d.cb + [p] && ExecWrite(d, p).cbSize == d.cbSize
    ensures ExecWrite(d, p).radio == d.radio && Waiting(ExecWrite(d, p)) == Waiting(d) + [p]
  {
  }

  // The whole

  ghost predicate Settled(s: State, m: Mode) {
    var h, d := s.host, s.dongle;
    && HostInv(h, m) && Exhausted(h) && Asking(h)
    && (forall i :: 0 <= i < |s.done| ==> s.done[i].Written?)
    && h.numIosPending == |h.outbox| + |s.done|
    && DongleInv(d, m)
    && h.countToWrite + |h.outbox| + |d.cb| <= d.cbSize
    && (s.snapshot.Some? ==> h.interruptIsRunning && Truthful(s.snapshot.value, d))
    && d.radio.handed + Waiting(d) + PacketsOf(h.outbox) == Accepted(h)
  }

  lemma SubmitKeeps(s: State, m: Mode, t: Transfer)
    requires Settled(s, m) && Writer(t, m)
    ensures Settled(Apply(s, Submitted(t)), m)
  {
    var news := SubmitWrites(s.host, m, t);
  }

  lemma SubmitWrites(h: Adaptor, m: Mode, t: Transfer) returns (news: seq<Packet>)
    requires HostInv(h, m) && Exhausted(h) && Asking(h) && Writer(t, m)
    ensures Issued(h, Submit(h, t), news, m)
    ensures Exhausted(Submit(h, t)) && Asking(Submit(h, t))
  {
    var h1 := h.(queue := h.queue + [t]);
    assert HostInv(h1, m) && Accepted(h1) == Accepted(h);
    assert Submit(h, t) == StartTransfers(h1);
    news := StartWrites(h1, m);
  }

  lemma ExecutedKeeps(s: State, m: Mode)
    requires Settled(s, m) && s.host.outbox != []
    ensures s.host.outbox[0].WriteReq? && |s.dongle.cb| < s.dongle.cbSize
    ensures Settled(Apply(s, Executed), m)
  {
    hide StreamOk, BulkOk, Truthful, SentBy, OnAirPackets, Waiting, Post;
    var p, h, d := s.host.outbox[0].packet, s.host.(outbox := s.host.outbox[1..]), s.dongle;
    ExecWriteKeeps(d, m, p);
    assert PacketsOf(s.host.outbox) == [p] + PacketsOf(h.outbox);
    assert Apply(s, Executed) == State(h, s.done + [Written], s.snapshot, ExecWrite(d, p));
    assert HostInv(h, m) && Accepted(h) == Accepted(s.host);
    assert d.radio.handed + Waiting(d) + ([p] + PacketsOf(h.outbox))
        == d.radio.handed + (Waiting(d) + [p]) + PacketsOf(h.outbox);
  }

  lemma CalledKeeps(s: State, m: Mode)
    requires Settled(s, m) && s.done != []
    ensures Enabled(s, Called) && Settled(Apply(s, Called), m)
  {
    hide StreamOk, BulkOk, Truthful, OnAirPackets;
    var h := s.host;
    var (t, over) := WriteDone(h.current.value);
    if over {
      assert (h.finished + [t])[..|h.finished|] == h.finished;
    }
    assert Accepted(BufferWriteDone(h)) == Accepted(h);
  }

  /** The host between learning that the dongle is idle and taking the new credits. */
  lemma IdleKeeps(h: Adaptor, m: Mode, lastOk: bool, expired: bool)
    requires HostInv(h, m) && h.numIosPending == 0 && Exhausted(h)
    ensures HostInv(UpdateIdleStatus(h, lastOk, expired), m)
    ensures Accepted(UpdateIdleStatus(h, lastOk, expired)) == Accepted(h)
  {
    if h.current.Some? {
      var (t, over) := NowIdle(h.current.value, lastOk, expired);
      if over {
        assert (h.finished + [t])[..|h.finished|] == h.finished;
      }
    }
  }

  /** The credits a report leaves the host with. */
  function Credits(h: Adaptor, st: Status): nat {
    if st.cbSize >= st.cbCount then st.cbSize - st.cbCount else h.countToWrite
  }

  lemma StatusArrivedKeeps(h: Adaptor, m: Mode, st: Status, expired: bool) returns (news: seq<Packet>)
    requires HostInv(h, m) && Exhausted(h) && Asking(h) && h.interruptIsRunning && st.acbCount == 0
    ensures var r := StatusArrived(h, st, expired);
      && HostInv(r, m) && Exhausted(r) && Asking(r)
      && PacketsOf(r.outbox) == PacketsOf(h.outbox) + news
      && Accepted(r) == Accepted(h) + news
      && r.countToWrite + |news| == Credits(h, st) && r.numIosPending == |news|
  {
    hide StartTransfers, SentBy, OnAirPackets;
    var h0 := h.(interruptIsRunning := false);
    assert Accepted(h0) == Accepted(h);
    IdleKeeps(h0, m, LastTxOk(h, st), expired);
    var h1 := if ReportsIdle(st) then UpdateIdleStatus(h0, LastTxOk(h, st), expired) else h0;
    var h2 := h1.(countToWrite := Credits(h1, st), countToRead := 0);
    assert Accepted(h2) == Accepted(h);
    assert StatusArrived(h, st, expired) == StartTransfers(h2);
    news := StartWrites(h2, m);
  }

  lemma ReportedKeeps(s: State, m: Mode, expired: bool)
    requires Settled(s, m) && s.snapshot.Some?
    ensures Settled(Apply(s, Reported(expired)), m)
  {
    hide StreamOk, BulkOk, Accepted, StatusArrived;
    var news := StatusArrivedKeeps(s.host, m, s.snapshot.value, expired);
  }

  /** Every step keeps the settled phase settled. */
  lemma StepKeeps(s: State, m: Mode, step: Step)
    requires Settled(s, m) && Enabled(s, step)
    requires step.Submitted? ==> Writer(step.transfer, m)
    ensures Settled(Apply(s, step), m)
  {
    hide HostInv, Accepted, PacketsOf, Submit, StatusArrived;
    match step
    case Submitted(t) => SubmitKeeps(s, m, t);
    case Executed => ExecutedKeeps(s, m);
    case Called => CalledKeeps(s, m);
    case Processed(room) => ProcessKeeps(s.dongle, m, room);
    case Posted =>
    case Transmitted(acked) => TransmitKeeps(s.dongle, m, acked);
    case Received(_) =>
    case Polled =>
    case Reported(expired) => ReportedKeeps(s, m, expired);
  }
}
