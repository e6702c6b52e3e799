/** Nothing the application submits is lost, doubled or reordered on its way to the radio,
    and what it means that a write transfer has completed. */
module Conservation {
  import opened Types
  import opened Transfers
  import opened Host
  import opened Dongles
  import opened Protocol
  import opened FlowControl
  import WritePhase

  function Flatten<T>(xs: seq<seq<T>>): seq<T> {
    if xs == [] then [] else Flatten(xs[..|xs| - 1]) + xs[|xs| - 1]
  }

  lemma {:induction false} FlattenAppend<T>(xs: seq<seq<T>>, ys: seq<seq<T>>)
    ensures Flatten(xs + ys) == Flatten(xs) + Flatten(ys)
  {
    if ys == [] {
      assert xs + ys == xs;
    } else {
      var n := |ys| - 1;
      assert (xs + ys)[..|xs| + n] == xs + ys[..n];
      FlattenAppend(xs, ys[..n]);
    }
  }

  /** All transfers the adaptor has ever been given: retired, current, waiting. */
  function Book(h: Adaptor): seq<Transfer> {
    h.finished + (if h.current.Some? then [h.current.value] else []) + h.queue
  }

  /** The same list as it was submitted. */
  function Entrusted(h: Adaptor): seq<Transfer> { Orders(Book(h)) }

  ghost predicate AllCompleted(ts: seq<Transfer>) {
    forall i :: 0 <= i < |ts| ==> ts[i].status == TransferCompleted
  }

  /** The handlers move transfers along the book without touching what they are. */
  ghost predicate SameBook(h: Adaptor, r: Adaptor) {
    Entrusted(r) == Entrusted(h) && (AllCompleted(h.finished) ==> AllCompleted(r.finished))
  }

  lemma EntrustedParts(h: Adaptor)
    ensures Entrusted(h) == Orders(h.finished) +
              (if h.current.Some? then [AsSubmitted(h.current.value)] else []) + Orders(h.queue)
  {
  }

  lemma StoreKeepsBook(h: Adaptor, r: (Transfer, bool))
    requires h.current.Some? && AsSubmitted(r.0) == AsSubmitted(h.current.value)
    requires r.1 ==> r.0.status == TransferCompleted
    ensures SameBook(h, StoreCurrent(h, r))
  {
  }

  lemma {:induction false} IssueKeepsBook(h: Adaptor)
    ensures SameBook(h, IssueAll(h))
    decreases h.countToWrite + h.countToRead
  {
    if CanWrite(h) || h.countToRead > 0 {
      IssueKeepsBook(IssueRound(h));
    }
  }

  lemma PickKeepsBook(h: Adaptor)
    ensures SameBook(h, PickNext(h))
  {
    var r := PickNext(h);
    EntrustedParts(h);
    EntrustedParts(r);
    if h.current.None? && h.queue != [] {
      var first := AsSubmitted(h.queue[0]);
      assert Orders(h.queue) == [first] + Orders(h.queue[1..]);
      assert Orders(r.finished) + (if r.current.Some? then [first] else []) == Orders(h.finished) + [first];
    }
  }

  lemma StartKeepsBook(h: Adaptor)
    ensures SameBook(h, StartTransfers(h))
  {
    PickKeepsBook(h);
    IssueKeepsBook(PickNext(h));
  }

  lemma WrittenBook(h: Adaptor)
    requires h.current.Some?
    ensures SameBook(h, BufferWriteDone(h))
  {
    StoreKeepsBook(h, WriteDone(h.current.value));
  }

  lemma ObtainedBook(h: Adaptor, p: Packet, haveMore: bool)
    requires h.current.Some?
    ensures SameBook(h, PacketObtained(h, p, haveMore))
  {
    UpdateKeepsBook(h, -1, 1);
    var h1 := if haveMore && h.numIosPending == 1 then UpdateStatus(h, -1, 1) else h;
    StoreKeepsBook(h1, ReadDone(h1.current.value, p));
  }

  lemma StepBook(s: State, step: Step)
    requires Enabled(s, step)
    ensures Entrusted(Apply(s, step).host) ==
            Entrusted(s.host) + if step.Submitted? then [AsSubmitted(step.transfer)] else []
    ensures step != Reported(true) && AllCompleted(s.host.finished) ==> AllCompleted(Apply(s, step).host.finished)
  {
    var h := s.host;
    match step
    case Submitted(t) =>
      StartKeepsBook(h.(queue := h.queue + [t.(nextToSend := 0, status := TransferQueued)]));
    case Called =>
      match s.done[0] {
        case Written => WrittenBook(h);
        case Obtained(reply) => ObtainedBook(h, reply.value.0, reply.value.1);
        case ModeSwitched =>
      }
    case Reported(expired) => ReportBook(h, s.snapshot.value, expired);
    case _ =>
  }

  lemma UpdateKeepsBook(h: Adaptor, canWrite: int, canRead: int)
    ensures SameBook(h, UpdateStatus(h, canWrite, canRead))
  {
    StartKeepsBook(h.(countToWrite := if canWrite >= 0 then canWrite else h.countToWrite,
                      countToRead := if canRead >= 0 then canRead else h.countToRead));
  }

  lemma IdleBook(h: Adaptor, lastOk: bool, expired: bool)
    ensures var r := UpdateIdleStatus(h, lastOk, expired);
      Entrusted(r) == Entrusted(h) && (!expired && AllCompleted(h.finished) ==> AllCompleted(r.finished))
  {
  }

  lemma ReportBook(h: Adaptor, st: Status, expired: bool)
    ensures Entrusted(StatusArrived(h, st, expired)) == Entrusted(h)
    ensures !expired && AllCompleted(h.finished) ==> AllCompleted(StatusArrived(h, st, expired).finished)
  {
    var h0 := h.(interruptIsRunning := false);
    IdleBook(h0, LastTxOk(h, st), expired);
    var h1 := if ReportsIdle(st) then UpdateIdleStatus(h0, LastTxOk(h, st), expired) else h0;
    assert Entrusted(h1) == Entrusted(h);
    var canWrite := if h.currentMode == ModeRead then st.acbSize - st.acbCount else st.cbSize - st.cbCount;
    var canRead := if h.currentMode == ModeRead then st.cbCount else st.acbCount;
    assert StatusArrived(h, st, expired) == UpdateStatus(h1, canWrite, canRead);
    UpdateKeepsBook(h1, canWrite, canRead);
  }

  /** What the application submitted during some steps. */
  function SubmittedIn(steps: seq<Step>): seq<Transfer> {
    if steps == [] then []
    else SubmittedIn(steps[..|steps| - 1]) +
         if steps[|steps| - 1].Submitted? then [AsSubmitted(steps[|steps| - 1].transfer)] else []
  }

  lemma OneStepMore(steps: seq<Step>, n: nat)
    requires n < |steps|
    ensures SubmittedIn(steps[..n + 1]) ==
            SubmittedIn(steps[..n]) + if steps[n].Submitted? then [AsSubmitted(steps[n].transfer)] else []
    ensures Reported(true) !in steps[..n + 1] <==> Reported(true) !in steps[..n] && steps[n] != Reported(true)
  {
    assert steps[..n + 1] == steps[..n] + [steps[n]];
    assert steps[..n + 1][..n] == steps[..n];
  }

  lemma {:induction false} RunBook(trace: seq<State>, steps: seq<Step>, rules: Rules, n: nat)
    requires IsRun(trace, steps, rules) && Quiet(trace[0], rules.mode) && n <= |steps|
    ensures Entrusted(trace[n].host) == SubmittedIn(steps[..n])
    ensures Reported(true) !in steps[..n] ==> AllCompleted(trace[n].host.finished)
  {
    hide Apply, Enabled;
    if n > 0 {
      RunBook(trace, steps, rules, n - 1);
      assert Linked(trace[n - 1], steps[n - 1], trace[n - 1 + 1], rules);
      StepBook(trace[n - 1], steps[n - 1]);
      OneStepMore(steps, n - 1);
    }
  }

  /** What the adaptor still has to take from its transfers. */
  ghost function Unsent(h: Adaptor): seq<Packet>
    requires h.Valid()
  {
    (if h.current.Some? then h.current.value.sendQueue[h.current.value.nextToSend..] else [])
    + Flatten(Loads(h.queue))
  }

  lemma {:induction false} SentIsLoad(ts: seq<Transfer>)
    requires WritePhase.AllValid(ts) && forall i :: 0 <= i < |ts| ==> ts[i].AllSent()
    ensures WritePhase.SentBy(ts) == Flatten(Loads(ts))
  {
    if ts != [] {
      var n := |ts| - 1;
      SentIsLoad(ts[..n]);
      assert Loads(ts)[..n] == Loads(ts[..n]);
    }
  }

  lemma FlattenOne<T>(x: seq<T>)
    ensures Flatten([x]) == x
  {
    assert [x][..0] == [] && Flatten([x]) == Flatten([x][..0]) + x;
  }

  lemma FlattenAround<T>(past: seq<seq<T>>, x: seq<T>, k: nat, later: seq<seq<T>>)
    requires k <= |x|
    ensures Flatten(past + [x] + later) == Flatten(past) + x[..k] + (x[k..] + Flatten(later))
  {
    FlattenAppend(past + [x], later);
    FlattenAppend(past, [x]);
    FlattenOne(x);
    assert x == x[..k] + x[k..];
  }

  lemma LoadsOfBook(h: Adaptor)
    ensures Loads(Entrusted(h)) == Loads(h.finished) +
              (if h.current.Some? then [h.current.value.sendQueue] else []) + Loads(h.queue)
  {
    EntrustedParts(h);
  }

  lemma AcceptedPlusUnsent(h: Adaptor)
    requires h.Valid() && WritePhase.AllValid(h.finished)
    requires forall i :: 0 <= i < |h.finished| ==> h.finished[i].AllSent()
    ensures WritePhase.Accepted(h) + Unsent(h) == Flatten(Loads(Entrusted(h)))
  {
    SentIsLoad(h.finished);
    LoadsOfBook(h);
    if h.current.Some? {
      FlattenAround(Loads(h.finished), h.current.value.sendQueue, h.current.value.nextToSend, Loads(h.queue));
    } else {
      assert Loads(Entrusted(h)) == Loads(h.finished) + Loads(h.queue);
      FlattenAppend(Loads(h.finished), Loads(h.queue));
    }
  }

  /** Handed to the radio, waiting in the ring, on the wire: exactly what was taken from the transfers,
      in order; and, when no deadline passed, with what is still to be taken exactly what was submitted. */
  lemma Conserved(trace: seq<State>, steps: seq<Step>, m: Mode, n: nat)
    requires IsWriteMode(m) && IsRun(trace, steps, Careful(m)) && Quiet(trace[0], m) && n <= |steps|
    requires trace[n].host.currentMode == m
    ensures var h, d := trace[n].host, trace[n].dongle;
      && WritePhase.AllValid(h.finished) && h.Valid() && WritePhase.AllWrites(h.outbox)
      && d.radio.handed + WritePhase.Waiting(d) + WritePhase.PacketsOf(h.outbox) == WritePhase.Accepted(h)
      && (Reported(true) !in steps[..n] ==>
            d.radio.handed + WritePhase.Waiting(d) + WritePhase.PacketsOf(h.outbox) + Unsent(h)
            == Flatten(Loads(SubmittedIn(steps[..n]))))
  {
    RunKeeps(trace, steps, m, n);
    var h := trace[n].host;
    if Reported(true) !in steps[..n] {
      RunBook(trace, steps, Careful(m), n);
      AcceptedPlusUnsent(h);
    }
  }

  // Completion

  /** The dongle holds nothing, the radio holds nothing, nothing is under way. */
  predicate Drained(s: State) {
    s.host.outbox == [] && s.done == [] && s.dongle.cb == [] && s.dongle.radio.txFifo == []
  }

  /** In this step transfer `t` was retired as completed. */
  ghost predicate Completes(s: State, step: Step, t: Transfer) {
    && Enabled(s, step) && t.status == TransferCompleted
    && var f := Apply(s, step).host.finished;
       |f| >= |s.host.finished| && t in f[|s.host.finished|..]
  }

  /** Before a phase has settled nothing completes. */
  lemma OnlySettledCompletes(s: State, step: Step, m: Mode)
    requires IsWriteMode(m) && Inv(s, m) && Allowed(s, step, Careful(m))
    ensures !Settled(s, m) ==> Apply(s, step).host.finished == s.host.finished
  {
    if Quiet(s, m) && step.Submitted? {
      assert PickNext(s.host.(queue := [step.transfer])).current == Some(step.transfer);
    }
  }

  /** Which transfer a status report can complete. */
  lemma ReportFinishes(h: Adaptor, m: Mode, st: Status, expired: bool)
    requires WritePhase.HostInv(h, m) && WritePhase.Exhausted(h) && WritePhase.Asking(h) && h.interruptIsRunning
    requires st.acbCount == 0
    ensures var r := StatusArrived(h, st, expired);
      || r.finished == h.finished
      || (|r.finished| == |h.finished| + 1 && r.finished[..|h.finished|] == h.finished
          && var t := r.finished[|h.finished|];
             t.status == TransferCompleted ==>
               ReportsIdle(st) && h.current.value.AllSent() && h.current.value.isSync
               && t == Finish(h.current.value.(lastWriteOk := LastTxOk(h, st)), TransferCompleted))
  {
    hide WritePhase.Accepted, WritePhase.PacketsOf, IssueAll;
    var h0 := h.(interruptIsRunning := false);
    WritePhase.IdleKeeps(h0, m, LastTxOk(h, st), expired);
    var h1 := if ReportsIdle(st) then UpdateIdleStatus(h0, LastTxOk(h, st), expired) else h0;
    var h2 := h1.(countToWrite := WritePhase.Credits(h1, st), countToRead := 0);
    assert StatusArrived(h, st, expired) == StartTransfers(h2);
    var news := WritePhase.StartWrites(h2, m);
  }

  /** In a settled phase a transfer completes in one of two ways. */
  lemma CompletesHow(s: State, step: Step, m: Mode, t: Transfer)
    requires WritePhase.Settled(s, m) && (step.Submitted? ==> WritePhase.Writer(step.transfer, m))
    requires Completes(s, step, t)
    ensures s.host.current.Some? && t.AllSent() && t.sendQueue == s.host.current.value.sendQueue
    ensures s.host.current.value.AllSent()
    ensures t.isSync ==> step.Reported? && s.snapshot.Some? && ReportsIdle(s.snapshot.value)
                         && t.lastWriteOk == LastTxOk(s.host, s.snapshot.value)
    ensures !t.isSync ==> step == Called && s.host.outbox == [] && s.done == [Written]
  {
    var h := s.host;
    match step {
      case Submitted(u) => var news := WritePhase.SubmitWrites(h, m, u);
      case Reported(expired) => ReportFinishes(h, m, s.snapshot.value, expired);
      case Called => assert Apply(s, step).host.finished[|h.finished|..] == [t];
      case _ =>
    }
  }

  lemma SentNonEmpty(h: Adaptor)
    requires WritePhase.AllValid(h.finished) && h.Valid()
    requires h.current.Some? && h.current.value.AllSent() && h.current.value.sendQueue != []
    ensures WritePhase.Accepted(h) != []
  {
    var t := h.current.value;
    assert t.Sent() == t.sendQueue;
  }

  lemma SettledIdle(s: State, m: Mode)
    requires WritePhase.Settled(s, m) && s.snapshot.Some? && ReportsIdle(s.snapshot.value)
    ensures Drained(s) && WritePhase.OnAirPackets(s.dongle.radio.air) == WritePhase.Accepted(s.host)
  {
    assert s.host.outbox == [] && s.done == [];
    assert WritePhase.PacketsOf(s.host.outbox) == [] && WritePhase.Waiting(s.dongle) == [];
  }

  /** A report that says idle is never out of date: until the host handles it the dongle has nothing left,
      and all that was taken from the transfers has gone over the air. */
  lemma IdleIsDrained(trace: seq<State>, steps: seq<Step>, m: Mode, n: nat)
    requires IsWriteMode(m) && IsRun(trace, steps, Careful(m)) && Quiet(trace[0], m) && n < |trace|
    requires trace[n].snapshot.Some? && ReportsIdle(trace[n].snapshot.value)
    ensures WritePhase.AllValid(trace[n].host.finished) && trace[n].host.Valid()
    ensures Drained(trace[n])
    ensures WritePhase.OnAirPackets(trace[n].dongle.radio.air) == WritePhase.Accepted(trace[n].host)
  {
    RunKeeps(trace, steps, m, n);
    SettledIdle(trace[n], m);
  }

  /** What is known of a state in which a transfer completes. */
  lemma SettledAt(trace: seq<State>, steps: seq<Step>, m: Mode, n: nat, t: Transfer)
    requires IsWriteMode(m) && IsRun(trace, steps, Careful(m)) && Quiet(trace[0], m) && n < |steps|
    requires Completes(trace[n], steps[n], t)
    ensures WritePhase.Settled(trace[n], m) && Allowed(trace[n], steps[n], Careful(m))
  {
    RunKeeps(trace, steps, m, n);
    assert Linked(trace[n], steps[n], trace[n + 1], Careful(m));
    OnlySettledCompletes(trace[n], steps[n], m);
  }

  /** A synchronous transfer completes only on a status report, with all its packets off the radio;
      in stream mode the result it keeps is the fate of the very last packet. */
  lemma SyncMeansDrained(trace: seq<State>, steps: seq<Step>, m: Mode, n: nat, t: Transfer)
    requires IsWriteMode(m) && IsRun(trace, steps, Careful(m)) && Quiet(trace[0], m) && n < |steps|
    requires Completes(trace[n], steps[n], t) && t.isSync
    ensures WritePhase.AllValid(trace[n].host.finished) && trace[n].host.Valid()
    ensures steps[n].Reported? && Drained(trace[n])
    ensures t.AllSent() && trace[n].host.current.Some? && t.sendQueue == trace[n].host.current.value.sendQueue
    ensures var air := trace[n].dongle.radio.air;
      && WritePhase.OnAirPackets(air) == WritePhase.Accepted(trace[n].host)
      && air != [] && (t.lastWriteOk <==> air[|air| - 1].acked)
      && (m == ModeWriteBulk ==> forall a :: a in air ==> a.acked)
  {
    SettledAt(trace, steps, m, n, t);
    CompletesHow(trace[n], steps[n], m, t);
    SettledIdle(trace[n], m);
    SentNonEmpty(trace[n].host);
  }

  /** An asynchronous transfer completes when the dongle has taken its last packet, not before. */
  lemma AsyncMeansTaken(trace: seq<State>, steps: seq<Step>, m: Mode, n: nat, t: Transfer)
    requires IsWriteMode(m) && IsRun(trace, steps, Careful(m)) && Quiet(trace[0], m) && n < |steps|
    requires Completes(trace[n], steps[n], t) && !t.isSync
    ensures WritePhase.AllValid(trace[n].host.finished) && trace[n].host.Valid()
    ensures steps[n] == Called && trace[n].host.outbox == [] && trace[n].done == [Written]
    ensures t.AllSent() && trace[n].host.current.Some? && t.sendQueue == trace[n].host.current.value.sendQueue
    ensures trace[n].dongle.radio.handed + WritePhase.Waiting(trace[n].dongle) == WritePhase.Accepted(trace[n].host)
  {
    SettledAt(trace, steps, m, n, t);
    CompletesHow(trace[n], steps[n], m, t);
    assert WritePhase.PacketsOf(trace[n].host.outbox) == [];
  }

  /** Once a synchronous bulk transfer that was the last one submitted completes, and no deadline has
      passed, the packets acknowledged over the air are all the packets ever submitted, in order. */
  lemma BulkSyncDelivers(trace: seq<State>, steps: seq<Step>, n: nat, t: Transfer)
    requires IsRun(trace, steps, Careful(ModeWriteBulk)) && Quiet(trace[0], ModeWriteBulk) && n < |steps|
    requires Reported(true) !in steps[..n] && trace[n].host.queue == []
    requires Completes(trace[n], steps[n], t) && t.isSync
    ensures WritePhase.OnAirPackets(trace[n].dongle.radio.air) == Flatten(Loads(SubmittedIn(steps[..n])))
    ensures forall a :: a in trace[n].dongle.radio.air ==> a.acked
  {
    SettledAt(trace, steps, ModeWriteBulk, n, t);
    CompletesHow(trace[n], steps[n], ModeWriteBulk, t);
    SyncMeansDrained(trace, steps, ModeWriteBulk, n, t);
    Conserved(trace, steps, ModeWriteBulk, n);
    assert Unsent(trace[n].host) == [];
  }
}
