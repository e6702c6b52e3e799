/** How transfers leave the adaptor: which step retires which transfer, with what in it and in what status. */
module Retirement {
  import opened Types
  import opened Transfers
  import opened Host
  import opened Protocol
  import opened FlowControl
  import opened Conservation
  import WritePhase
  import ReadPhase

  // Starting transfers retires none, once empty ones are ruled out

  /** The transfer at work is the same one, perhaps further on. */
  ghost predicate StillAtWork(h: Adaptor, r: Adaptor) {
    && r.finished == h.finished && h.current.Some? && r.current.Some?
    && AsSubmitted(r.current.value) == AsSubmitted(h.current.value)
    && r.current.value.recvQueue == h.current.value.recvQueue
  }

  ghost predicate NoneEndsAtStart(h: Adaptor) { forall i :: 0 <= i < |h.queue| ==> !EndsAtStart(h.queue[i]) }

  lemma {:induction false} IssueRetiresNothing(h: Adaptor)
    requires h.current.Some?
    ensures StillAtWork(h, IssueAll(h))
    decreases h.countToWrite + h.countToRead
  {
    if CanWrite(h) || h.countToRead > 0 {
      IssueRetiresNothing(IssueRound(h));
    }
  }

  lemma StartRetiresNothing(h: Adaptor)
    requires NoneEndsAtStart(h)
    ensures StartTransfers(h).finished == h.finished
    ensures h.current.Some? ==> StillAtWork(h, StartTransfers(h))
  {
    if PickNext(h).current.Some? {
      IssueRetiresNothing(PickNext(h));
    }
  }

  // Status reports and deadlines

  /** A synchronous write with every packet sent and acknowledged by the dongle. */
  predicate SyncOver(t: Transfer) { t.mode != ModeRead && t.isSync && t.AllSent() && t.numWriting == 0 }

  /** What a report retires. */
  function Retired(h: Adaptor, st: Status, expired: bool): seq<Transfer> {
    if h.current.None? || !(st.cbCount == 0 && st.acbCount == 0 && st.fifoIsEmpty) then []
    else if SyncOver(h.current.value) then
      [h.current.value.(status := TransferCompleted, lastWriteOk := LastTxOk(h, st))]
    else if expired then [h.current.value.(status := TransferTimedOut)]
    else []
  }

  lemma ReportRetires(h: Adaptor, st: Status, expired: bool)
    requires h.current.Some? && h.current.value.status == TransferQueued && NoneEndsAtStart(h)
    ensures var r := StatusArrived(h, st, expired);
      && r.finished == h.finished + Retired(h, st, expired)
      && (Retired(h, st, expired) == [] ==> StillAtWork(h, r))
  {
    var h0 := h.(interruptIsRunning := false);
    var h1 := if ReportsIdle(st) then UpdateIdleStatus(h0, LastTxOk(h, st), expired) else h0;
    var canWrite := if h.currentMode == ModeRead then st.acbSize - st.acbCount else st.cbSize - st.cbCount;
    var canRead := if h.currentMode == ModeRead then st.cbCount else st.acbCount;
    var h2 := h1.(countToWrite := if canWrite >= 0 then canWrite else h1.countToWrite, countToRead := canRead);
    assert StatusArrived(h, st, expired) == StartTransfers(h2);
    StartRetiresNothing(h2);
  }

  /** In every run: an idle report retires the transfer at work when it is a synchronous write that is through,
      completed, and otherwise when its deadline has passed, timed out. A report that is not idle retires
      nothing, whatever the clock says. */
  lemma DeadlineRetires(trace: seq<State>, steps: seq<Step>, m: Mode, n: nat, expired: bool)
    requires ProperRun(trace, steps, m) && n < |steps| && steps[n] == Reported(expired)
    ensures trace[n].snapshot.Some? && trace[n].host.current.Some? && trace[n].host.current.value.mode == m
    ensures var h, r := trace[n].host, trace[n + 1].host;
      var gone := Retired(h, trace[n].snapshot.value, expired);
      r.finished == h.finished + gone && (gone == [] ==> StillAtWork(h, r))
  {
    RunKeeps(trace, steps, m, n);
    assert Linked(trace[n], steps[n], trace[n + 1], Careful(m));
    ReportRetires(trace[n].host, trace[n].snapshot.value, expired);
  }

  // Replies to reads

  /** The transfer at work with one packet more. */
  function WithPacket(t: Transfer, p: Packet): Transfer { t.(recvQueue := t.recvQueue + [p]) }

  /** A reply completes the transfer at work exactly when it brings the last packet asked for. The dongle's
      "more" bit makes the host read on at once, without a report, exactly when nothing else is pending. */
  lemma ReplyArrives(h: Adaptor, p: Packet, more: bool)
    requires ReadPhase.HostInv(h) && h.current.Some? && h.countToRead == 0
    ensures var t, r := WithPacket(h.current.value, p), PacketObtained(h, p, more);
      && (if |t.recvQueue| == t.countToRead
          then r.finished == h.finished + [t.(status := TransferCompleted)] && r.current.None?
          else r.finished == h.finished && r.current == Some(t))
      && r.queue == h.queue && r.countToWrite == h.countToWrite && r.countToRead == 0
      && r.outbox == h.outbox + (if more && h.numIosPending == 1 then [ReadReq] else [])
      && r.numIosPending == h.numIosPending - if more && h.numIosPending == 1 then 0 else 1
  {
    if more && h.numIosPending == 1 {
      OneReadMore(h);
    }
  }

  lemma OneReadMore(h: Adaptor)
    requires ReadPhase.HostInv(h) && h.current.Some? && h.countToRead == 0 && h.numIosPending == 1
    ensures UpdateStatus(h, -1, 1) == h.(outbox := h.outbox + [ReadReq], numIosPending := 2)
  {
    var h1 := h.(countToRead := 1);
    assert UpdateStatus(h, -1, 1) == StartTransfers(h1);
    assert IssueAll(h1) == IssueAll(IssueRead(h1)) == IssueRead(h1);
  }

  /** In every run: what a read reply does. */
  lemma ReplyDecides(trace: seq<State>, steps: seq<Step>, n: nat)
    requires ProperRun(trace, steps, ModeRead) && n < |steps| && steps[n] == Called
    requires trace[n].host.currentMode == ModeRead
    ensures var s, r := trace[n], trace[n + 1].host;
      && s.done != [] && s.done[0].Obtained? && s.done[0].reply.Some? && s.host.current.Some?
      && var (p, more) := s.done[0].reply.value;
         var t := WithPacket(s.host.current.value, p);
         var alone := |s.host.outbox| + |s.done| == 1;
         && (if |t.recvQueue| == t.countToRead
             then r.finished == s.host.finished + [t.(status := TransferCompleted)] && r.current.None?
             else r.finished == s.host.finished && r.current == Some(t))
         && r.outbox == s.host.outbox + (if more && alone then [ReadReq] else [])
         && (r.interruptIsRunning <==> !more && alone && |t.recvQueue| != t.countToRead)
  {
    RunKeeps(trace, steps, ModeRead, n);
    assert Linked(trace[n], steps[n], trace[n + 1], Careful(ModeRead));
    var s := trace[n];
    var (p, more) := s.done[0].reply.value;
    ReplyArrives(s.host, p, more);
    ReadPhase.CalledKeeps(s);
  }

  // Every step

  /** What one step may do to the list of retired transfers. */
  ghost predicate RetiresAtMostOne(s: State, step: Step, r: State) {
    || r.host.finished == s.host.finished
    || (s.host.current.Some? && |r.host.finished| == |s.host.finished| + 1
        && r.host.finished[..|s.host.finished|] == s.host.finished
        && var t := r.host.finished[|s.host.finished|];
           && AsSubmitted(t) == AsSubmitted(s.host.current.value)
           && (t.status == TransferCompleted
               || (t.status == TransferTimedOut && step == Reported(true)
                   && s.snapshot.Some? && ReportsIdle(s.snapshot.value))))
  }

  lemma WriteStepRetires(s: State, step: Step, m: Mode)
    requires WritePhase.Settled(s, m) && Allowed(s, step, Careful(m))
    ensures RetiresAtMostOne(s, step, Apply(s, step))
  {
    match step
    case Submitted(t) => var news := WritePhase.SubmitWrites(s.host, m, t);
    case Reported(expired) => ReportRetires(s.host, s.snapshot.value, expired);
    case _ =>
  }

  lemma ReadStepRetires(s: State, step: Step)
    requires ReadPhase.Settled(s) && Allowed(s, step, Careful(ModeRead))
    ensures RetiresAtMostOne(s, step, Apply(s, step))
  {
    match step
    case Submitted(t) => StartRetiresNothing(s.host.(queue := s.host.queue + [t]));
    case Called => ReplyArrives(s.host, s.done[0].reply.value.0, s.done[0].reply.value.1);
    case Reported(expired) => ReportRetires(s.host, s.snapshot.value, expired);
    case _ =>
  }

  lemma EarlyStepRetires(s: State, step: Step, m: Mode)
    requires Inv(s, m) && !Settled(s, m) && Allowed(s, step, Careful(m))
    ensures Apply(s, step).host.finished == s.host.finished
  {
    if Quiet(s, m) && step.Submitted? {
      assert PickNext(s.host.(queue := [step.transfer])).current == Some(step.transfer);
    }
  }

  /** In every run each step retires at most the transfer at work, and a transfer times out only on an idle
      report after its deadline. */
  lemma StepRetires(trace: seq<State>, steps: seq<Step>, m: Mode, n: nat)
    requires ProperRun(trace, steps, m) && n < |steps|
    ensures RetiresAtMostOne(trace[n], steps[n], trace[n + 1])
  {
    RunKeeps(trace, steps, m, n);
    assert Linked(trace[n], steps[n], trace[n + 1], Careful(m));
    if !Settled(trace[n], m) {
      EarlyStepRetires(trace[n], steps[n], m);
    } else if m == ModeRead {
      ReadStepRetires(trace[n], steps[n]);
    } else {
      WriteStepRetires(trace[n], steps[n], m);
    }
  }

  lemma RetiredIsLast(s: State, step: Step, r: State, t: Transfer)
    requires RetiresAtMostOne(s, step, r) && |r.host.finished| >= |s.host.finished|
    requires t in r.host.finished[|s.host.finished|..]
    ensures s.host.current.Some? && r.host.finished == s.host.finished + [t]
  {
    assert r.host.finished[|s.host.finished|..] == [t];
    assert r.host.finished == r.host.finished[..|s.host.finished|] + [t];
  }

  /** In every run a read transfer completes only on a reply, with exactly as many packets as it asked for: those
      it had, and the one in the reply. */
  lemma ReadMeansComplete(trace: seq<State>, steps: seq<Step>, n: nat, t: Transfer)
    requires ProperRun(trace, steps, ModeRead) && n < |steps| && Completes(trace[n], steps[n], t)
    ensures var s := trace[n];
      && steps[n] == Called && s.host.current.Some?
      && s.done != [] && s.done[0].Obtained? && s.done[0].reply.Some?
      && |t.recvQueue| == t.countToRead == s.host.current.value.countToRead
      && t.recvQueue == s.host.current.value.recvQueue + [s.done[0].reply.value.0]
  {
    var s, r := trace[n], trace[n + 1];
    RunKeeps(trace, steps, ModeRead, n);
    StepRetires(trace, steps, ModeRead, n);
    assert Linked(s, steps[n], r, Careful(ModeRead));
    assert r == Apply(s, steps[n]);
    hide Apply, RetiresAtMostOne, IsRun, Quiet;
    RetiredIsLast(s, steps[n], r, t);
    ReadCompletesOn(s, steps[n], t);
    LastReply(trace, steps, n, t);
  }

  lemma LastReply(trace: seq<State>, steps: seq<Step>, n: nat, t: Transfer)
    requires ProperRun(trace, steps, ModeRead) && n < |steps| && steps[n] == Called
    requires trace[n].host.currentMode == ModeRead && trace[n + 1].host.finished == trace[n].host.finished + [t]
    ensures var s := trace[n];
      && s.host.current.Some? && s.done != [] && s.done[0].Obtained? && s.done[0].reply.Some?
      && |t.recvQueue| == t.countToRead == s.host.current.value.countToRead
      && t.recvQueue == s.host.current.value.recvQueue + [s.done[0].reply.value.0]
  {
    var f := trace[n].host.finished;
    ReplyDecides(trace, steps, n);
    assert (f + [t])[|f|] == t;
  }

  lemma ReadCompletesOn(s: State, step: Step, t: Transfer)
    requires ReadPhase.Settled(s) && Allowed(s, step, Careful(ModeRead)) && t.status == TransferCompleted
    requires Apply(s, step).host.finished == s.host.finished + [t]
    ensures step == Called
  {
    match step
    case Submitted(u) => StartRetiresNothing(s.host.(queue := s.host.queue + [u]));
    case Reported(expired) => ReportCompletesNoRead(s, expired, t);
    case _ =>
  }

  lemma ReportCompletesNoRead(s: State, expired: bool, t: Transfer)
    requires ReadPhase.Settled(s) && s.snapshot.Some? && t.status == TransferCompleted
    ensures Apply(s, Reported(expired)).host.finished != s.host.finished + [t]
  {
    var f, gone := s.host.finished, Retired(s.host, s.snapshot.value, expired);
    ReportRetires(s.host, s.snapshot.value, expired);
    assert (f + [t])[|f|] == t;
    if gone != [] {
      assert (f + gone)[|f|].status == TransferTimedOut;
    }
  }

  /** The step in which the last of the submitted transfers is retired completes just that one, with none waiting. */
  lemma LastOneOver(trace: seq<State>, steps: seq<Step>, m: Mode, n: nat, ts: seq<Transfer>) returns (t: Transfer)
    requires ProperRun(trace, steps, m) && n < |steps| && Reported(true) !in steps[..n + 1]
    requires SubmittedIn(steps[..n]) == Orders(ts)
    requires |trace[n].host.finished| < |ts| == |trace[n + 1].host.finished|
    ensures Completes(trace[n], steps[n], t) && AsSubmitted(t) == AsSubmitted(ts[|ts| - 1])
    ensures trace[n].host.queue == []
  {
    var s, r := trace[n], trace[n + 1];
    OneStepMore(steps, n);
    StepRetires(trace, steps, m, n);
    RunBook(trace, steps, Careful(m), n);
    assert Linked(s, steps[n], r, Careful(m));
    assert |Entrusted(s.host)| == |Orders(ts)| == |ts|;
    t := r.host.finished[|s.host.finished|];
    assert t in r.host.finished[|s.host.finished|..];
    assert Entrusted(s.host)[|s.host.finished|] == AsSubmitted(s.host.current.value);
  }
}
