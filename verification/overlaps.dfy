/** Runs in which an application submits while a mode switch is under way, and what falls then. */
module Overlaps {
  import opened Types
  import opened Transfers
  import opened Host
  import opened Dongles
  import opened Protocol
  import opened FlowControl
  import opened Conservation
  import opened Overruns
  import ReadPhase

  // Writing

  /** k mode requests are still out, and w packets of the current transfer behind them. */
  ghost predicate StillTurning(u: State, t: Transfer, size: byte, k: nat, w: nat, p: Packet) {
    && u.host == Adaptor(u.host.queue, Some(t.(nextToSend := w, numWriting := w)), [], k + w, u.host.countToWrite, 0,
                         u.host.canXfer, u.host.currentMode, t.mode, false,
                         Copies(k, ModeReq(t.mode)) + Copies(w, WriteReq(p)))
    && u.done == [] && u.snapshot.None?
    && RingsOk(u.dongle) && u.dongle.cbSize == size
    && u.dongle.posted.cbCount == 0 && u.dongle.posted.cbSize == size && u.dongle.posted.acbCount == 0
  }

  lemma Overlapping(t: Transfer, size: byte, n: nat, p: Packet, rules: Rules) returns (r: State)
    requires IsWriteMode(t.mode) && Fresh(t, t.mode) && t.sendQueue != [] && 0 < size
    requires n > 0 && rules.overlappingSwitches && rules.mode == t.mode
    ensures Reachable(StartState(size), r, rules) && StillTurning(r, t, size, n, 0, p)
    ensures r.host.queue == Copies(n - 1, t) && ReportsIdle(r.dongle.posted)
  {
    var s := StartState(size);
    TurnMany(s, t, n, rules);
    r := s.(host := Turning(s.host, t, n));
    assert Copies(n, ModeReq(t.mode)) + Copies(0, WriteReq(p)) == Copies(n, ModeReq(t.mode));
  }

  lemma TurnStill(s: State, u: State, t: Transfer, size: byte, k: nat, w: nat, p: Packet, rules: Rules)
    requires Reachable(s, u, rules) && StillTurning(u, t, size, k, w, p) && k > 0
    ensures u.host.outbox != [] && Reachable(s, Turned(u, t.mode), rules)
    ensures Turned(u, t.mode).host.outbox == Copies(k - 1, ModeReq(t.mode)) + Copies(w, WriteReq(p))
  {
    CopiesAdd(1, k - 1, ModeReq(t.mode));
    assert Copies(1, ModeReq(t.mode)) == [ModeReq(t.mode)];
    Turns(s, u, t.mode, rules);
  }

  /** A mode request is executed: the host asks for a report although writes are pending, and the report
      of the flushed dongle grants the whole ring again. */
  lemma OneTurnMore(s: State, u: State, t: Transfer, size: byte, k: nat, w: nat, p: Packet, rules: Rules)
    returns (r: State, x: nat)
    requires IsWriteMode(t.mode) && t.sendQueue == Copies(|t.sendQueue|, p) && w < |t.sendQueue|
    requires Reachable(s, u, rules) && StillTurning(u, t, size, k, w, p) && k > 0
    requires ReportsIdle(u.dongle.posted)
    ensures Reachable(s, r, rules) && StillTurning(r, t, size, k - 1, x, p)
    ensures x == w + Share(t.(nextToSend := w), size) && x <= |t.sendQueue| && r.host.queue == u.host.queue
    ensures ReportsIdle(r.dongle.posted) && Jammed(r.dongle, t.mode, size) && Held(r.dongle, t.mode) == 0
  {
    hide Reachable, Apply, IssueAll, StatusArrived, Submit;
    TurnStill(s, u, t, size, k, w, p, rules);
    var v := Turned(u, t.mode);
    ReportsIt(s, v, rules);
    ReportGives(v.host, v.dongle.posted, p);
    r := Reports(v);
    x := w + Share(t.(nextToSend := w), size);
    CopiesAdd(w, x - w, WriteReq(p));
    assert Copies(k - 1, ModeReq(t.mode)) + Copies(w, WriteReq(p)) + Copies(x - w, WriteReq(p))
        == Copies(k - 1, ModeReq(t.mode)) + (Copies(w, WriteReq(p)) + Copies(x - w, WriteReq(p)));
  }

  /** Five submissions of five rings full of packets each put five rings full of writes on the wire. */
  lemma OverlappingSwitchDrops(m: Mode, size: byte, rules: Rules) returns (r: State)
    requires IsWriteMode(m) && rules.mode == m && rules.overlappingSwitches && 0 < size
    ensures Reachable(StartState(size), r, rules) && !RoomForNext(r)
  {
    hide Reachable, IssueAll, Held, Turned;
    var s, p := StartState(size), Packet(6, []);
    var t := Writing(m, Copies(5 * size, p), false);
    var u := Overlapping(t, size, 5, p, rules);
    var w: nat;
    u, w := OneTurnMore(s, u, t, size, 5, 0, p, rules);
    u, w := OneTurnMore(s, u, t, size, 4, w, p, rules);
    u, w := OneTurnMore(s, u, t, size, 3, w, p, rules);
    u, w := OneTurnMore(s, u, t, size, 2, w, p, rules);
    u, w := OneTurnMore(s, u, t, size, 1, w, p, rules);
    assert Copies(0, ModeReq(m)) + Copies(w, WriteReq(p)) == Copies(w, WriteReq(p));
    r := WritesOverrun(s, u, m, size, w, p, rules);
  }

  /** The packet of a synchronous transfer is on the wire; the mode request before it has been answered, and
      has left the host asking for a report of the flushed dongle. */
  lemma StaleIdle(m: Mode, size: byte, p: Packet, rules: Rules) returns (r: State)
    requires IsWriteMode(m) && rules.mode == m && rules.overlappingSwitches && 0 < size
    ensures Reachable(StartState(size), r, rules)
    ensures var t := Writing(m, [p], true);
      && r.host.queue == [t] && r.host.current == Some(t.(nextToSend := 1, numWriting := 1))
      && r.host.numIosPending == 1 && r.host.currentMode == m && r.host.canXfer && r.host.interruptIsRunning
      && r.host.outbox == [WriteReq(p)]
    ensures r.done == [] && r.snapshot.None? && Jammed(r.dongle, m, size) && Held(r.dongle, m) == 0
    ensures ReportsIdle(r.dongle.posted) && r.dongle.posted.cbSize == size
  {
    hide Reachable;
    var s := StartState(size);
    var t := Writing(m, [p], true);
    assert t.sendQueue == Copies(1, p);
    var u := Overlapping(t, size, 2, p, rules);
    var w, x := OneTurnMore(s, u, t, size, 2, 0, p, rules);
    TurnStill(s, w, t, size, 1, 1, p, rules);
    r := Turned(w, m);
    assert Copies(0, ModeReq(m)) + Copies(1, WriteReq(p)) == [WriteReq(p)];
  }

  /** The report is picked up before the dongle gets the packet. */
  lemma SentMeanwhile(s: State, u: State, m: Mode, size: byte, p: Packet, rules: Rules) returns (r: State)
    requires Reachable(s, u, rules) && u.host.interruptIsRunning && u.host.outbox == [WriteReq(p)]
    requires u.host.current == Some(Writing(m, [p], true).(nextToSend := 1, numWriting := 1))
    requires u.host.numIosPending == 1
    requires u.done == [] && u.snapshot.None? && Jammed(u.dongle, m, size) && Held(u.dongle, m) == 0 && 0 < size
    ensures Reachable(s, r, rules) && r.snapshot == Some(u.dongle.posted)
    ensures r.host == u.host.(current := Some(Writing(m, [p], true).(nextToSend := 1)),
                              numIosPending := 0, outbox := [])
    ensures !Drained(r)
  {
    hide Reachable, DrainBulk;
    ReachNext(s, u, Polled, rules);
    var v := u.(snapshot := Some(u.dongle.posted));
    JammedTakes(v, m, size, p);
    ReachServed(s, v, rules);
    var w := Served(v);
    assert w.done == [Written] && w.host.outbox == [];
    ReachNext(s, w, Called, rules);
    r := w.(host := BufferWriteDone(w.host), done := []);
    assert r == Apply(w, Called);
  }

  lemma LateReport(h: Adaptor, st: Status, t: Transfer, p: Packet) returns (u: Transfer)
    requires IsWriteMode(t.mode) && h.currentMode == t.mode && h.canXfer && h.queue == [t] && Fresh(t, t.mode)
    requires t.sendQueue == [p] && t.isSync && h.current == Some(t.(nextToSend := 1)) && h.numIosPending == 0
    requires ReportsIdle(st) && st.cbSize > 0
    ensures u.isSync && u.status == TransferCompleted
    ensures StatusArrived(h, st, false).finished == h.finished + [u]
  {
    u := NowIdle(t.(nextToSend := 1), LastTxOk(h, st), false).0;
    var h1 := h.(interruptIsRunning := false, current := None, finished := h.finished + [u],
                 countToWrite := st.cbSize, countToRead := 0);
    assert StatusArrived(h, st, false) == StartTransfers(h1);
    assert PickNext(h1) == h1.(queue := [], current := Some(t));
    assert t.sendQueue == Copies(1, p);
    IssueMany(PickNext(h1), p);
  }

  /** The same synchronous transfer submitted twice during the switch completes on a report that is older
      than its packet. */
  lemma OverlappingSyncCompletes(m: Mode, size: byte, rules: Rules) returns (r: State, t: Transfer)
    requires IsWriteMode(m) && rules.mode == m && rules.overlappingSwitches && 0 < size
    ensures Reachable(StartState(size), r, rules) && t.isSync && !Drained(r)
    ensures Allowed(r, Reported(false), rules) && Completes(r, Reported(false), t)
  {
    hide Reachable, Drained, StatusArrived;
    var s, p := StartState(size), Packet(6, []);
    var u := StaleIdle(m, size, p, rules);
    r := SentMeanwhile(s, u, m, size, p, rules);
    t := LateReport(r.host, r.snapshot.value, Writing(m, [p], true), p);
    assert (r.host.finished + [t])[|r.host.finished|..] == [t];
  }

  // Reading

  /** A packet arrives, goes into the ring and is reported. */
  function Heard(d: Dongle, p: Packet): Dongle { Post(FillCb(d.(radio := Dongles.Receive(d.radio, p)))) }

  lemma HearsOne(s: State, u: State, p: Packet, rules: Rules)
    requires Reachable(s, u, rules) && u.dongle.mode == ModeRead
    ensures Reachable(s, u.(dongle := Heard(u.dongle, p)), rules)
  {
    ReachNext(s, u, Received(p), rules);
    var v := Apply(u, Received(p));
    ReachNext(s, v, Processed(0), rules);
    PostsIt(s, Apply(v, Processed(0)), rules);
  }

  lemma HeardIs(d: Dongle, p: Packet)
    requires d.cb == [] && RingsOk(d)
    ensures var e := Heard(d, p);
      RingsOk(e) && e.mode == d.mode && e.posted == ReportOf(e) && e.posted.cbCount > 0
    ensures d.radio.rxFifo == [] ==> Heard(d, p).cb == [p]
  {
    var e := d.(radio := Dongles.Receive(d.radio, p));
    ReadPhase.FillKeeps(e);
    FillTakes(e);
  }

  lemma FillTakes(d: Dongle)
    requires RingsOk(d) && d.cb == [] && d.radio.rxFifo != []
    ensures FillCb(d).cb != [] && (|d.radio.rxFifo| == 1 ==> FillCb(d).cb == d.radio.rxFifo)
  {
    var e := d.(cb := [d.radio.rxFifo[0]], radio := d.radio.(rxFifo := d.radio.rxFifo[1..]));
    assert d.cb + [d.radio.rxFifo[0]] == e.cb;
    assert FillCb(d) == FillCb(e);
    ReadPhase.FillKeeps(e);
  }

  /** A report of one packet makes the host read it. */
  lemma ReportReads(h: Adaptor, st: Status)
    requires h.canXfer && h.currentMode == ModeRead && h.current.Some? && h.current.value.mode == ModeRead
    requires h.numIosPending > 0 && st.cbCount == 1 && st.acbCount == 0 && st.acbSize == 0
    ensures StatusArrived(h, st, false) ==
      h.(interruptIsRunning := false, countToWrite := 0, countToRead := 0,
         outbox := h.outbox + [ReadReq], numIosPending := h.numIosPending + 1)
  {
    var h1 := h.(interruptIsRunning := false, countToWrite := 0, countToRead := 1);
    assert StatusArrived(h, st, false) == StartTransfers(h1);
    assert IssueAll(h1) == IssueAll(IssueRead(h1)) == IssueRead(h1);
  }

  /** A read transfer submitted twice during the switch: the second mode request empties the ring under a read
      that is already on the wire. */
  lemma OverlappingReadFails(s: State, rules: Rules) returns (r: State)
    requires Quiet(s, ModeRead) && rules.mode == ModeRead && rules.overlappingSwitches
    ensures Reachable(s, r, rules) && r.host.outbox != [] && r.host.outbox[0] == ReadReq
    ensures r.dongle.mode == ModeRead && r.dongle.cb == []
  {
    hide Reachable, Apply, IssueAll, FillCb;
    var t, p := Transfer(ModeRead, true, [], 0, 0, [], 2, TransferQueued, false), Packet(1, []);
    TurnMany(s, t, 2, rules);
    var u := s.(host := Turning(s.host, t, 2));
    Turns(s, u, ModeRead, rules);
    var v := Turned(u, ModeRead);
    HearsOne(s, v, p, rules);
    HeardIs(v.dongle, p);
    v := v.(dongle := Heard(v.dongle, p));
    ReportsIt(s, v, rules);
    var w := Reports(v);
    assert w.host.outbox == [ModeReq(ModeRead), ReadReq] by {
      assert v.host.outbox == [ModeReq(ModeRead)];
      ReportReads(v.host, v.dongle.posted);
    }
    ServedMode(w, ModeRead);
    ReachServed(s, w, rules);
    r := Served(w);
  }
}
