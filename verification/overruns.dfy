/** Runs in which an application submits empty transfers, and what falls then: for every ring size, with a
    main-loop pass after every control request and a radio that takes three packets. */
module Overruns {
  import opened Types
  import opened Transfers
  import opened Host
  import opened Dongles
  import opened Protocol
  import opened FlowControl
  import opened Conservation

  // Material

  function StartState(size: byte): State {
    var nothing := Radio([], None, [], [], [], []);
    State(
      Adaptor([], None, [], 0, 0, 0, true, ModeIdle, ModeIdle, false, []), [], None,
      Dongle(ModeIdle, [], size, [], 0, false, 0, Status(0, size, 0, 0, 0, true), nothing))
  }

  function Copies<T>(n: nat, x: T): (xs: seq<T>)
    ensures |xs| == n
  {
    seq(n, _ => x)
  }

  lemma CopiesAdd<T>(a: nat, b: nat, x: T)
    ensures Copies(a, x) + Copies(b, x) == Copies(a + b, x)
  {
  }

  function Writing(m: Mode, ps: seq<Packet>, sync: bool): Transfer {
    Transfer(m, sync, ps, 0, 0, [], 1, TransferQueued, false)
  }

  // What the host issues

  /** The host after its current transfer gave it k packets more. */
  function Given(h: Adaptor, k: nat, p: Packet): Adaptor
    requires h.current.Some? && k <= h.countToWrite
  {
    var t := h.current.value;
    h.(current := Some(t.(nextToSend := t.nextToSend + k, numWriting := t.numWriting + k)),
       outbox := h.outbox + Copies(k, WriteReq(p)),
       numIosPending := h.numIosPending + k, countToWrite := h.countToWrite - k)
  }

  /** How many packets a transfer has left for so many credits. */
  function Share(t: Transfer, credits: nat): nat
    requires t.nextToSend <= |t.sendQueue|
  {
    if credits <= |t.sendQueue| - t.nextToSend then credits else |t.sendQueue| - t.nextToSend
  }

  ghost predicate AllAre(t: Transfer, p: Packet) {
    t.nextToSend <= |t.sendQueue| && t.sendQueue == Copies(|t.sendQueue|, p)
  }

  lemma {:induction false} IssueMany(h: Adaptor, p: Packet)
    requires h.current.Some? && AllAre(h.current.value, p) && h.countToRead == 0
    ensures IssueAll(h) == Given(h, Share(h.current.value, h.countToWrite), p)
    decreases h.countToWrite
  {
    if CanWrite(h) {
      var h1 := IssueWrite(h);
      var k := Share(h1.current.value, h1.countToWrite);
      assert IssueRound(h) == h1 == Given(h, 1, p);
      IssueMany(h1, p);
      assert h.outbox + Copies(1, WriteReq(p)) + Copies(k, WriteReq(p)) == h.outbox + Copies(k + 1, WriteReq(p)) by {
        CopiesAdd(1, k, WriteReq(p));
      }
    } else {
      assert h.outbox + Copies(0, WriteReq(p)) == h.outbox;
    }
  }

  /** A report that does not end the transfer. */
  lemma ReportGives(h: Adaptor, st: Status, p: Packet)
    requires h.current.Some? && AllAre(h.current.value, p) && !h.current.value.AllSent()
    requires h.canXfer && IsWriteMode(h.currentMode) && h.current.value.mode == h.currentMode
    requires st.cbSize > st.cbCount && st.acbCount == 0 && h.numIosPending >= 0
    ensures var h1 := h.(interruptIsRunning := false, countToWrite := st.cbSize - st.cbCount, countToRead := 0);
      StatusArrived(h, st, false) == Given(h1, Share(h.current.value, h1.countToWrite), p)
  {
    var h0 := h.(interruptIsRunning := false);
    assert UpdateIdleStatus(h0, LastTxOk(h, st), false) == h0;
    var h1 := h0.(countToWrite := st.cbSize - st.cbCount, countToRead := 0);
    assert StatusArrived(h, st, false) == StartTransfers(h1);
    IssueMany(h1, p);
  }

  /** A transfer submitted to a host that has credits and nothing to do. */
  lemma SubmitGives(h: Adaptor, t: Transfer, p: Packet)
    requires h.current.None? && h.queue == [] && h.canXfer && h.currentMode == t.mode && IsWriteMode(t.mode)
    requires Fresh(t, t.mode) && t.sendQueue != [] && AllAre(t, p)
    requires h.countToWrite > 0 && h.countToRead == 0 && h.numIosPending >= 0
    ensures Submit(h, t) == Given(h.(current := Some(t)), Share(t, h.countToWrite), p)
  {
    var h1 := h.(queue := [t]);
    assert h.queue + [t] == [t];
    assert PickNext(h1) == h.(current := Some(t));
    IssueMany(h.(current := Some(t)), p);
  }

  // What the dongle can take

  /** A transmitting dongle whose radio makes no progress: the ring fills only when the radio is full. */
  ghost predicate Jammed(d: Dongle, m: Mode, size: byte) {
    && IsWriteMode(m) && d.mode == m && d.cbSize == size && RingsOk(d) && d.radio.event.None?
    && (if m == ModeWriteBulk
        then !d.writing && |d.radio.txFifo| <= 3 && (d.cb != [] ==> |d.radio.txFifo| == 3)
        else (d.writing <==> d.cb != []) && d.radio.txFifo == (if d.writing then d.cb[..1] else []))
  }

  /** Packets in the dongle and its radio. */
  function Held(d: Dongle, m: Mode): nat {
    if m == ModeWriteBulk then |d.cb| + |d.radio.txFifo| else |d.cb|
  }

  function Capacity(m: Mode, size: byte): nat { if m == ModeWriteBulk then size + 3 else size }

  lemma JammedTakes(s: State, m: Mode, size: byte, p: Packet)
    requires Jammed(s.dongle, m, size) && Held(s.dongle, m) < Capacity(m, size)
    requires s.host.outbox != [] && s.host.outbox[0] == WriteReq(p)
    ensures Enabled(s, Executed)
    ensures Served(s) == s.(host := s.host.(outbox := s.host.outbox[1..]), done := s.done + [Written],
                            dongle := Served(s).dongle)
    ensures Jammed(Served(s).dongle, m, size) && Held(Served(s).dongle, m) == Held(s.dongle, m) + 1
    ensures Served(s).dongle.posted.cbSize == size && Served(s).dongle.posted.acbCount == 0
  {
    var d := ExecWrite(s.dongle, p);
    assert |s.dongle.cb| < size && d.cb == s.dongle.cb + [p];
    if m == ModeWriteBulk && s.dongle.cb == [] && |d.radio.txFifo| < 3 {
      var e := d.(radio := Load(d.radio, p), cb := []);
      assert DrainBulk(d, 3 - |d.radio.txFifo|) == e by {
        assert d.cb[1..] == [];
        assert DrainBulk(d, 3 - |d.radio.txFifo|) == DrainBulk(e, 3 - |d.radio.txFifo| - 1);
      }
    }
  }

  /** More writes on the wire than there is room for: sooner or later one finds the ring full. */
  lemma {:induction false} WritesOverrun(s: State, u: State, m: Mode, size: byte, k: nat, p: Packet, rules: Rules)
    returns (r: State)
    requires Reachable(s, u, rules) && Jammed(u.dongle, m, size)
    requires u.host.outbox == Copies(k, WriteReq(p)) && Held(u.dongle, m) + k > Capacity(m, size)
    ensures Reachable(s, r, rules) && !RoomForNext(r)
    decreases k
  {
    if |u.dongle.cb| == size {
      r := u;
    } else {
      assert Held(u.dongle, m) < Capacity(m, size);
      JammedTakes(u, m, size, p);
      ReachServed(s, u, rules);
      assert u.host.outbox[1..] == Copies(k - 1, WriteReq(p));
      r := WritesOverrun(s, Served(u), m, size, k - 1, p, rules);
    }
  }

  // The mode switch

  /** The host after n submissions of the same transfer during the switch to its mode. */
  function Turning(h: Adaptor, t: Transfer, n: nat): Adaptor
    requires n > 0
  {
    h.(queue := Copies(n - 1, t), current := Some(t), numIosPending := n, countToWrite := 0, countToRead := 0,
       canXfer := false, nextMode := t.mode, outbox := Copies(n, ModeReq(t.mode)))
  }

  /** Submitting in another mode than the current one sends the mode request, every time. */
  lemma {:induction false} TurnMany(s: State, t: Transfer, n: nat, rules: Rules)
    requires n > 0 && (n > 1 ==> rules.overlappingSwitches)
    requires IsWriteMode(t.mode) || t.mode == ModeRead
    requires Quiet(s, t.mode) && rules.mode == t.mode && Fresh(t, t.mode) && !EndsAtStart(t)
    ensures Reachable(s, s.(host := Turning(s.host, t, n)), rules)
  {
    if n == 1 {
      ReachSelf(s, rules);
      var h := s.host.(queue := [t]);
      assert PickNext(h) == s.host.(current := Some(t));
      assert Submit(s.host, t) == Turning(s.host, t, 1) by {
        assert s.host.queue + [t] == [t] && [] + [ModeReq(t.mode)] == Copies(1, ModeReq(t.mode));
      }
      ReachNext(s, s, Submitted(t), rules);
    } else {
      TurnMany(s, t, n - 1, rules);
      var u := s.(host := Turning(s.host, t, n - 1));
      CopiesAdd(n - 2, 1, t);
      CopiesAdd(n - 1, 1, ModeReq(t.mode));
      assert Submit(u.host, t) == Turning(s.host, t, n);
      ReachNext(s, u, Submitted(t), rules);
    }
  }

  lemma ServedMode(s: State, m: Mode)
    requires s.host.outbox != [] && s.host.outbox[0] == ModeReq(m)
    ensures Enabled(s, Executed)
    ensures Served(s) == State(s.host.(outbox := s.host.outbox[1..]), s.done + [ModeSwitched], s.snapshot,
                               ExecMode(s.dongle, m))
  {
  }

  /** The dongle changes over and the host hears of it. */
  function Turned(u: State, m: Mode): State
    requires u.host.outbox != []
  {
    State(u.host.(outbox := u.host.outbox[1..], canXfer := true, numIosPending := u.host.numIosPending - 1,
                  currentMode := m, interruptIsRunning := true),
          [], u.snapshot, ExecMode(u.dongle, m))
  }

  lemma Turns(s: State, u: State, m: Mode, rules: Rules)
    requires Reachable(s, u, rules) && u.done == [] && u.host.nextMode == m
    requires u.host.outbox != [] && u.host.outbox[0] == ModeReq(m)
    ensures Reachable(s, Turned(u, m), rules)
  {
    ServedMode(u, m);
    ReachServed(s, u, rules);
    ReachNext(s, Served(u), Called, rules);
    assert Apply(Served(u), Called) == Turned(u, m);
  }

  /** The report is picked up and handled. */
  function Reports(u: State): State {
    u.(host := StatusArrived(u.host, u.dongle.posted, false))
  }

  lemma ReportsIt(s: State, u: State, rules: Rules)
    requires Reachable(s, u, rules) && u.host.interruptIsRunning && u.snapshot.None?
    ensures Reachable(s, Reports(u), rules)
  {
    ReachNext(s, u, Polled, rules);
    var v := Apply(u, Polled);
    ReachNext(s, v, Reported(false), rules);
    assert Apply(v, Reported(false)) == Reports(u);
  }

  lemma PostsIt(s: State, u: State, rules: Rules)
    requires Reachable(s, u, rules)
    ensures Reachable(s, u.(dongle := Post(u.dongle)), rules)
  {
    ReachNext(s, u, Posted, rules);
  }

  lemma Submits(s: State, u: State, t: Transfer, rules: Rules)
    requires Reachable(s, u, rules) && Allowed(u, Submitted(t), rules)
    ensures Reachable(s, u.(host := Submit(u.host, t)), rules)
  {
    ReachNext(s, u, Submitted(t), rules);
  }

  // Empty transfers

  /** No transfer, nothing under way; the dongle may hold packets. */
  ghost predicate AtRest(u: State, m: Mode, size: byte) {
    && u.host == Adaptor([], None, u.host.finished, 0, u.host.countToWrite, 0, true, m, m, false, [])
    && u.done == [] && u.snapshot.None? && Jammed(u.dongle, m, size)
    && u.dongle.posted.cbSize == size && u.dongle.posted.acbCount == 0
  }

  /** The only packet of an asynchronous transfer is on the wire. */
  ghost predicate OnTheWire(u: State, m: Mode, size: byte, p: Packet) {
    var t := Writing(m, [p], false).(nextToSend := 1, numWriting := 1);
    && u.host == Adaptor([], Some(t), u.host.finished, 1, u.host.countToWrite, 0, true, m, m, false, [WriteReq(p)])
    && u.done == [] && u.snapshot.None? && Jammed(u.dongle, m, size)
  }

  lemma LastAnswer(h: Adaptor)
    requires h.current.Some? && !h.current.value.isSync && h.current.value.AllSent()
    requires h.current.value.numWriting == 1 && h.numIosPending == 1
    ensures var r := BufferWriteDone(h);
      r == h.(current := None, finished := r.finished, numIosPending := 0)
  {
  }

  lemma SentOne(s: State, u: State, m: Mode, size: byte, p: Packet, rules: Rules) returns (r: State)
    requires Reachable(s, u, rules) && OnTheWire(u, m, size, p) && Held(u.dongle, m) < Capacity(m, size)
    ensures Reachable(s, r, rules) && AtRest(r, m, size) && Held(r.dongle, m) == Held(u.dongle, m) + 1
  {
    JammedTakes(u, m, size, p);
    ReachServed(s, u, rules);
    var v := Served(u);
    assert v.done == [Written] && v.host.outbox == [];
    ReachNext(s, v, Called, rules);
    r := v.(host := BufferWriteDone(v.host), done := []);
    assert Apply(v, Called) == r;
    LastAnswer(v.host);
  }

  /** A quiet host and a dongle with nothing in it, whatever the ring size. */
  lemma First(m: Mode, size: byte, p: Packet, rules: Rules) returns (r: State)
    requires IsWriteMode(m) && rules.mode == m && 0 < size
    ensures Reachable(StartState(size), r, rules) && AtRest(r, m, size) && Held(r.dongle, m) == 1
  {
    hide Reachable, IssueAll, StatusArrived, Submit, DrainBulk;
    var s := StartState(size);
    var t := Writing(m, [p], false);
    TurnMany(s, t, 1, rules);
    var u := s.(host := Turning(s.host, t, 1));
    Turns(s, u, m, rules);
    var v := Turned(u, m);
    ReportsIt(s, v, rules);
    var w := Reports(v);
    assert OnTheWire(w, m, size, p) by {
      assert t.sendQueue == Copies(1, p) && v.host.outbox == [];
      ReportGives(v.host, v.dongle.posted, p);
      assert [] + Copies(1, WriteReq(p)) == [WriteReq(p)];
    }
    r := SentOne(s, w, m, size, p, rules);
  }

  /** One packet more goes to the dongle, on a credit at hand or after asking for one. */
  lemma OneMore(s: State, u: State, m: Mode, size: byte, p: Packet, rules: Rules) returns (r: State)
    requires Reachable(s, u, rules) && rules.mode == m && AtRest(u, m, size)
    requires Held(u.dongle, m) < Capacity(m, size)
    ensures Reachable(s, r, rules) && AtRest(r, m, size) && Held(r.dongle, m) == Held(u.dongle, m) + 1
  {
    var t := Writing(m, [p], false);
    assert t.sendQueue == Copies(1, p) && [] + Copies(1, WriteReq(p)) == [WriteReq(p)];
    Submits(s, u, t, rules);
    var v := u.(host := Submit(u.host, t));
    if u.host.countToWrite > 0 {
      SubmitGives(u.host, t, p);
    } else {
      SubmitAsks(u.host, t);
      v := AskAndSend(s, v, m, size, p, rules);
    }
    r := SentOne(s, v, m, size, p, rules);
  }

  lemma AskAndSend(s: State, u: State, m: Mode, size: byte, p: Packet, rules: Rules) returns (r: State)
    requires Reachable(s, u, rules) && u.done == [] && u.snapshot.None?
    requires Jammed(u.dongle, m, size) && Held(u.dongle, m) < Capacity(m, size)
    requires u.host == Adaptor([], Some(Writing(m, [p], false)), u.host.finished, 0, 0, 0, true, m, m, true, [])
    ensures Reachable(s, r, rules) && OnTheWire(r, m, size, p) && r.dongle == Post(u.dongle)
  {
    hide Reachable, IssueAll, StatusArrived, Submit, DrainBulk;
    assert [p] == Copies(1, p) && [] + Copies(1, WriteReq(p)) == [WriteReq(p)];
    PostsIt(s, u, rules);
    var w := u.(dongle := Post(u.dongle));
    ReportsIt(s, w, rules);
    ReportGives(w.host, w.dongle.posted, p);
    r := Reports(w);
  }

  lemma SubmitAsks(h: Adaptor, t: Transfer)
    requires h.current.None? && h.queue == [] && h.canXfer && h.currentMode == t.mode && IsWriteMode(t.mode)
    requires Fresh(t, t.mode) && t.sendQueue != []
    requires h.countToWrite == 0 && h.countToRead == 0 && h.numIosPending == 0
    ensures Submit(h, t) == h.(current := Some(t), interruptIsRunning := true)
  {
    assert h.queue + [t] == [t];
    assert PickNext(h.(queue := [t])) == h.(current := Some(t));
  }

  /** The ring is empty, and what the radio can hold it holds: a stream packet has been sent, or the radio's
      FIFO is full. */
  lemma Blocked(m: Mode, size: byte, p: Packet, rules: Rules) returns (r: State)
    requires IsWriteMode(m) && rules.mode == m && 0 < size
    ensures Reachable(StartState(size), r, rules) && AtRest(r, m, size)
    ensures r.dongle.cb == [] && Held(r.dongle, m) + size == Capacity(m, size)
  {
    hide Reachable;
    var s := StartState(size);
    r := First(m, size, p, rules);
    if m == ModeWriteBulk {
      r := OneMore(s, r, m, size, p, rules);
      r := OneMore(s, r, m, size, p, rules);
    } else {
      ReachNext(s, r, Transmitted(true), rules);
      r := Apply(r, Transmitted(true));
      ReachNext(s, r, Processed(0), rules);
      r := Apply(r, Processed(0));
    }
  }

  /** An empty transfer is over at once, and has the host ask for a report. */
  lemma AskForNothing(s: State, u: State, m: Mode, size: byte, sync: bool, rules: Rules) returns (r: State)
    requires Reachable(s, u, rules) && rules.mode == m && rules.emptyTransfers && AtRest(u, m, size)
    ensures Reachable(s, r, rules) && r == Apply(u, Submitted(Writing(m, [], sync)))
    ensures r.host.finished == u.host.finished + [Finish(Writing(m, [], sync), TransferCompleted)]
    ensures r == u.(host := u.host.(interruptIsRunning := true, finished := r.host.finished))
  {
    var nothing := Writing(m, [], sync);
    assert PickedEmpty(u.host.(queue := [nothing]));
    ReachNext(s, u, Submitted(nothing), rules);
    r := Apply(u, Submitted(nothing));
  }

  /** A report of an empty ring gives the idle host a credit for every slot. */
  lemma GetCredits(s: State, u: State, m: Mode, size: byte, rules: Rules) returns (r: State)
    requires Reachable(s, u, rules) && rules.mode == m && rules.emptyTransfers && AtRest(u, m, size)
    requires u.dongle.cb == []
    ensures Reachable(s, r, rules) && AtRest(r, m, size) && r.host.countToWrite == size
    ensures r.dongle == Post(u.dongle)
  {
    hide Reachable;
    var v := AskForNothing(s, u, m, size, false, rules);
    PostsIt(s, v, rules);
    var w := v.(dongle := Post(v.dongle));
    ReportsIt(s, w, rules);
    r := Reports(w);
    assert r.host == w.host.(interruptIsRunning := false, countToWrite := size, countToRead := 0);
  }

  /** Credits are spent while a report that grants them again is under way. */
  lemma SpentTwice(s: State, u: State, m: Mode, size: byte, p: Packet, rules: Rules) returns (r: State)
    requires IsWriteMode(m) && rules.mode == m && 0 < size && Reachable(s, u, rules)
    requires u.host == Adaptor([], None, u.host.finished, 0, size, 0, true, m, m, true, [])
    requires u.snapshot.None? && u.dongle.posted.cbCount == 0 && u.dongle.posted.cbSize == size
    requires u.dongle.posted.acbCount == 0
    ensures Reachable(s, r, rules) && r.host.outbox == Copies(size + 1, WriteReq(p)) && r.dongle == u.dongle
  {
    hide Reachable;
    var t := Writing(m, Copies(size + 1, p), false);
    Submits(s, u, t, rules);
    SubmitGives(u.host, t, p);
    var v := u.(host := Submit(u.host, t));
    assert v.host.outbox == Copies(size, WriteReq(p)) by {
      CopiesAdd(0, size, WriteReq(p));
    }
    ReportsIt(s, v, rules);
    ReportGives(v.host, v.dongle.posted, p);
    r := Reports(v);
    CopiesAdd(size, 1, WriteReq(p));
  }

  lemma EmptyTransferDrops(m: Mode, size: byte, rules: Rules) returns (r: State)
    requires IsWriteMode(m) && rules.mode == m && rules.emptyTransfers && 0 < size
    ensures Reachable(StartState(size), r, rules) && !RoomForNext(r)
  {
    hide Reachable;
    var s, p := StartState(size), Packet(6, []);
    var a := Blocked(m, size, p, rules);
    var b := GetCredits(s, a, m, size, rules);
    var c := AskForNothing(s, b, m, size, false, rules);
    var d := SpentTwice(s, c, m, size, p, rules);
    r := WritesOverrun(s, d, m, size, size + 1, p, rules);
  }

  /** A synchronous transfer without packets completes while the dongle still has a packet to send. */
  lemma EmptySyncCompletes(m: Mode, size: byte, rules: Rules) returns (r: State, t: Transfer)
    requires IsWriteMode(m) && rules.mode == m && rules.emptyTransfers && 0 < size
    ensures Reachable(StartState(size), r, rules) && t.isSync && !Drained(r)
    ensures Allowed(r, Submitted(Writing(m, [], true)), rules)
    ensures Completes(r, Submitted(Writing(m, [], true)), t)
  {
    r := First(m, size, Packet(6, []), rules);
    var v := AskForNothing(StartState(size), r, m, size, true, rules);
    t := Finish(Writing(m, [], true), TransferCompleted);
    assert v.host.finished[|r.host.finished|..] == [t];
  }
}
