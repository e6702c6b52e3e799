/** Where the protocol's guarantees end: exactly which uses keep them, whether or not the dongle's main loop
    serves the radio after every request. */
module Exactness {
  import opened Types
  import opened Transfers
  import opened Host
  import opened Dongles
  import opened Protocol
  import opened FlowControl
  import opened Conservation
  import opened Overruns
  import opened Overlaps
  import WritePhase
  import ReadPhase

  lemma ReachableKeeps(s: State, r: State, m: Mode, rules: Rules)
    requires Inv(s, m) && Reachable(s, r, rules) && Looser(rules, Careful(m))
    ensures Inv(r, m)
  {
    var trace: seq<State>, steps: seq<Step> :|
      IsRun(trace, steps, rules) && trace[0] == s && trace[|steps|] == r;
    RunMore(trace, steps, rules, Careful(m));
    RunKeeps(trace, steps, m, |steps|);
  }

  // Writing

  /** Under these rules no write ever finds a ring of this size full, wherever the run starts. */
  ghost predicate NeverDrops(size: byte, rules: Rules) {
    forall s, r ::
      Quiet(s, rules.mode) && s.dongle.cbSize == size && Reachable(s, r, rules) ==> RoomForNext(r)
  }

  /** A ring of any size never overflows exactly when applications submit no empty transfer
      and nothing while the mode switch is under way. */
  lemma NeverDropsExactlyWhen(size: byte, rules: Rules)
    requires IsWriteMode(rules.mode) && 0 < size
    ensures NeverDrops(size, rules) <==> !rules.emptyTransfers && !rules.overlappingSwitches
  {
    var m := rules.mode;
    if rules.emptyTransfers {
      var r := EmptyTransferDrops(m, size, rules);
    } else if rules.overlappingSwitches {
      var r := OverlappingSwitchDrops(m, size, rules);
    } else {
      forall s, r | Quiet(s, m) && s.dongle.cbSize == size && Reachable(s, r, rules) ensures RoomForNext(r) {
        ReachableKeeps(s, r, m, rules);
        if WritePhase.Settled(r, m) && r.host.outbox != [] {
          WritePhase.ExecutedKeeps(r, m);
        }
      }
    }
  }

  /** In every run a synchronous transfer completes only when nothing is left in dongle and radio. */
  ghost predicate SyncSafe(size: byte, rules: Rules) {
    forall trace: seq<State>, steps: seq<Step>, n: nat, t: Transfer ::
      && IsRun(trace, steps, rules) && Quiet(trace[0], rules.mode) && trace[0].dongle.cbSize == size
      && n < |steps| && Completes(trace[n], steps[n], t) && t.isSync
      ==> Drained(trace[n])
  }

  /** One completion too early in a reachable state is enough. */
  lemma TooEarly(s: State, r: State, step: Step, t: Transfer, rules: Rules)
    requires Quiet(s, rules.mode) && Reachable(s, r, rules) && Allowed(r, step, rules) && step != Executed
    requires Completes(r, step, t) && t.isSync && !Drained(r) && s.dongle.cbSize < 256
    ensures !SyncSafe(s.dongle.cbSize, rules)
  {
    var trace, steps := RunTo(s, r, step, rules);
    assert Completes(trace[|steps| - 1], steps[|steps| - 1], t);
  }

  /** Synchronous completion means drained exactly when the same two doors stay closed. */
  lemma SyncSafeExactlyWhen(size: byte, rules: Rules)
    requires IsWriteMode(rules.mode) && 0 < size
    ensures SyncSafe(size, rules) <==> !rules.emptyTransfers && !rules.overlappingSwitches
  {
    var m := rules.mode;
    if rules.emptyTransfers {
      var r, t := EmptySyncCompletes(m, size, rules);
      TooEarly(StartState(size), r, Submitted(Writing(m, [], true)), t, rules);
    } else if rules.overlappingSwitches {
      var r, t := OverlappingSyncCompletes(m, size, rules);
      TooEarly(StartState(size), r, Reported(false), t, rules);
    } else {
      forall trace: seq<State>, steps: seq<Step>, n: nat, t: Transfer |
        && IsRun(trace, steps, rules) && Quiet(trace[0], m) && trace[0].dongle.cbSize == size
        && n < |steps| && Completes(trace[n], steps[n], t) && t.isSync
        ensures Drained(trace[n])
      {
        RunMore(trace, steps, rules, Careful(m));
        SyncMeansDrained(trace, steps, m, n, t);
      }
    }
  }

  // Reading

  /** The next read, if any, finds a packet. */
  predicate PacketForNext(s: State) {
    s.host.outbox != [] && s.host.outbox[0] == ReadReq && s.dongle.mode == ModeRead ==> s.dongle.cb != []
  }

  /** Whatever the application and the radio do, no read comes back empty. */
  ghost predicate ReadsSafely(s: State, rules: Rules) {
    forall r :: Reachable(s, r, rules) ==> PacketForNext(r)
  }

  /** In a read phase each outstanding read is covered by a packet in the ring, and what transfers have
      received, what is on its way to them, the ring and the radio's FIFO add up to what was heard. */
  lemma ReadCredits(trace: seq<State>, steps: seq<Step>, n: nat)
    requires IsRun(trace, steps, Careful(ModeRead)) && Quiet(trace[0], ModeRead) && n < |trace|
    requires ReadReady(trace[0].dongle) && trace[n].host.currentMode == ModeRead
    ensures var h, d := trace[n].host, trace[n].dongle;
      && h.countToRead + |h.outbox| <= |d.cb|
      && ReadPhase.AllReplies(trace[n].done)
      && ReadPhase.Delivered(h) + ReadPhase.Replies(trace[n].done) + (d.cb + d.radio.rxFifo) == d.radio.arrived
  {
    RunKeeps(trace, steps, ModeRead, n);
  }

  /** A report that counts packets puts reads on the wire. */
  lemma CountsAreRead(h: Adaptor, st: Status)
    requires h.canXfer && h.currentMode == ModeRead && h.current.Some? && ReadPhase.Reading(h.current.value)
    requires h.queue == [] && h.outbox == [] && h.numIosPending == 0
    requires st.cbCount > 0 && st.acbCount == 0 && st.acbSize == 0
    ensures var r := StatusArrived(h, st, false);
      r.outbox != [] && r.outbox[0] == ReadReq
  {
    var h1 := h.(interruptIsRunning := false, countToWrite := 0, countToRead := st.cbCount);
    assert StatusArrived(h, st, false) == StartTransfers(h1);
    ReadPhase.StartReads(h1);
  }

  /** A stale report that still counts packets lures the host into reads the ring cannot serve. */
  lemma StaleReport(s: State, u: State, rules: Rules) returns (r: State)
    requires Quiet(u, ModeRead) && u.dongle.posted.cbCount > 0
    requires Reachable(s, u, rules) && rules.mode == ModeRead
    ensures Reachable(s, r, rules) && !PacketForNext(r)
  {
    hide Reachable, StatusArrived;
    var t := Transfer(ModeRead, true, [], 0, 0, [], 1, TransferQueued, false);
    TurnMany(u, t, 1, rules);
    var v := u.(host := Turning(u.host, t, 1));
    ReachJoin(s, u, v, rules);
    Turns(s, v, ModeRead, rules);
    var w := Turned(v, ModeRead);
    assert w.host.outbox == [] && w.dongle.cb == [];
    ReportsIt(s, w, rules);
    r := Reports(w);
    CountsAreRead(w.host, w.dongle.posted);
  }

  /** A dongle that is not ready can come to post such a report before the switch. */
  lemma BecomesStale(s: State, rules: Rules) returns (u: State)
    requires Quiet(s, ModeRead) && !ReadReady(s.dongle)
    ensures Quiet(u, ModeRead) && u.dongle.posted.cbCount > 0
    ensures Reachable(s, u, rules)
  {
    hide Reachable, FillCb;
    ReachSelf(s, rules);
    u := s;
    if s.dongle.posted.cbCount == 0 {
      if s.dongle.cb == [] {
        var p := Packet(0, []);
        HearsOne(s, s, p, rules);
        HeardIs(s.dongle, p);
        u := s.(dongle := Heard(s.dongle, p));
      } else {
        PostsIt(s, s, rules);
        u := s.(dongle := Post(s.dongle));
      }
    }
  }

  /** Reads are safe exactly when the dongle's ring and its last posted report are empty at the moment the
      host turns to reading, and nothing is submitted while it turns. */
  lemma ReadsSafelyExactlyWhen(s: State, rules: Rules)
    requires Quiet(s, ModeRead) && rules.mode == ModeRead
    ensures ReadsSafely(s, rules) <==> ReadReady(s.dongle) && !rules.overlappingSwitches
  {
    if !ReadReady(s.dongle) {
      var u := BecomesStale(s, rules);
      var r := StaleReport(s, u, rules);
    } else if rules.overlappingSwitches {
      var r := OverlappingReadFails(s, rules);
    } else {
      forall r | Reachable(s, r, rules) ensures PacketForNext(r) {
        ReachableKeeps(s, r, ModeRead, rules);
      }
    }
  }
}
