/** Main results about the host-to-dongle protocol, for whole runs. A run starts quiet in another mode,
    so the mode switch itself is part of it. */
module FlowControl {
  import opened Types
  import opened Transfers
  import opened Host
  import opened Dongles
  import opened Protocol
  import WritePhase
  import ReadPhase

  // From a quiet host to a settled phase

  /** The dongle before the switch. A read phase also needs an empty ring and an empty last report. */
  ghost predicate Before(d: Dongle, m: Mode) {
    && RingsOk(d) && d.posted.cbSize <= d.cbSize && d.posted.acbCount == 0 && d.posted.acbSize == 0
    && (m == ModeRead ==> ReadReady(d))
  }

  predicate ReadReady(d: Dongle) { d.cb == [] && d.posted.cbCount == 0 && d.mode != ModeRead }

  ghost predicate Working(t: Transfer, m: Mode) {
    if m == ModeRead then ReadPhase.Reading(t) && t.recvQueue == [] else WritePhase.Writer(t, m)
  }

  ghost predicate HostSwitching(h: Adaptor, m: Mode) {
    && h.queue == [] && h.current.Some? && Working(h.current.value, m) && h.finished == []
    && h.numIosPending == 1 && h.countToWrite == 0 && h.countToRead == 0
    && !h.canXfer && h.currentMode != m && h.nextMode == m && !h.interruptIsRunning
  }

  /** The mode request is on the wire. */
  ghost predicate Switching(s: State, m: Mode) {
    && HostSwitching(s.host, m) && s.host.outbox == [ModeReq(m)] && s.done == [] && s.snapshot.None?
    && Before(s.dongle, m)
  }

  /** The dongle has changed over, the host has not heard of it yet. */
  ghost predicate Switched(s: State, m: Mode) {
    && HostSwitching(s.host, m) && s.host.outbox == [] && s.done == [ModeSwitched] && s.snapshot.None?
    && if m == ModeRead
       then ReadPhase.DongleInv(s.dongle) && s.dongle.cb + s.dongle.radio.rxFifo == s.dongle.radio.arrived
       else WritePhase.DongleInv(s.dongle, m) && s.dongle.radio.handed == [] && s.dongle.cb == []
  }

  ghost predicate Settled(s: State, m: Mode) {
    if m == ModeRead then ReadPhase.Settled(s) else WritePhase.Settled(s, m)
  }

  ghost predicate Inv(s: State, m: Mode) {
    && (IsWriteMode(m) || m == ModeRead)
    && ((Quiet(s, m) && Before(s.dongle, m)) || Switching(s, m) || Switched(s, m) || Settled(s, m))
  }

  // Each step keeps the invariant

  lemma DongleKeepsBefore(d: Dongle, m: Mode, room: nat)
    requires Before(d, m)
    ensures Before(Post(d), m) && Before(ProcessRadio(d, room), m)
  {
    match d.mode
    case ModeRead => ReadPhase.FillKeeps(d);
    case ModeWriteBulk => DrainKeepsBefore(d, m, room);
    case _ =>
  }

  lemma {:induction false} DrainKeepsBefore(d: Dongle, m: Mode, room: nat)
    requires Before(d, m) && d.mode == ModeWriteBulk
    ensures Before(DrainBulk(d, room), m)
    decreases room
  {
    if d.cb != [] && room != 0 {
      DrainKeepsBefore(d.(radio := Load(d.radio, d.cb[0]), cb := d.cb[1..]), m, room - 1);
    }
  }

  lemma QuietKeeps(s: State, m: Mode, step: Step)
    requires Quiet(s, m) && Inv(s, m) && Before(s.dongle, m) && Allowed(s, step, Careful(m))
    ensures Inv(Apply(s, step), m)
  {
    match step
    case Submitted(t) =>
      assert PickNext(s.host.(queue := [t])).current == Some(t);
      assert Switching(Apply(s, step), m);
    case Processed(room) => DongleKeepsBefore(s.dongle, m, room);
    case Posted => DongleKeepsBefore(s.dongle, m, 0);
    case _ =>
  }

  lemma SwitchingKeeps(s: State, m: Mode, step: Step)
    requires Switching(s, m) && Inv(s, m) && Allowed(s, step, Careful(m))
    ensures Inv(Apply(s, step), m)
  {
    match step
    case Executed =>
      var d := Apply(s, step).dongle;
      assert d.radio.handed == WritePhase.OnAirPackets(d.radio.air) + d.radio.txFifo;
      assert Switched(Apply(s, step), m);
    case Processed(room) => DongleKeepsBefore(s.dongle, m, room);
    case Posted => DongleKeepsBefore(s.dongle, m, 0);
    case _ =>
  }

  lemma SwitchedKeeps(s: State, m: Mode, step: Step)
    requires Switched(s, m) && Inv(s, m) && Allowed(s, step, Careful(m))
    ensures Inv(Apply(s, step), m)
  {
    match step
    case Called =>
      var h := Apply(s, step).host;
      if m == ModeRead {
        assert ReadPhase.Delivered(h) == [];
      } else {
        assert WritePhase.Accepted(h) == [];
      }
      assert Settled(Apply(s, step), m);
    case Processed(room) =>
      if m == ModeRead { ReadPhase.FillKeeps(s.dongle); } else { WritePhase.ProcessKeeps(s.dongle, m, room); }
      assert Switched(Apply(s, step), m);
    case Transmitted(acked) =>
      if m != ModeRead { WritePhase.TransmitKeeps(s.dongle, m, acked); }
      assert Switched(Apply(s, step), m);
    case Posted => assert Switched(Apply(s, step), m);
    case Received(_) => assert Switched(Apply(s, step), m);
    case _ =>
  }

  lemma StepKeeps(s: State, m: Mode, step: Step)
    requires Inv(s, m) && Allowed(s, step, Careful(m))
    ensures Inv(Apply(s, step), m)
  {
    if Settled(s, m) {
      if m == ModeRead { ReadPhase.StepKeeps(s, step); } else { WritePhase.StepKeeps(s, m, step); }
    } else if Switching(s, m) {
      SwitchingKeeps(s, m, step);
    } else if Switched(s, m) {
      SwitchedKeeps(s, m, step);
    } else {
      QuietKeeps(s, m, step);
    }
  }

  /** The invariant holds in every state of every run. */
  lemma {:induction false} RunKeeps(trace: seq<State>, steps: seq<Step>, m: Mode, n: nat)
    requires IsRun(trace, steps, Careful(m)) && Inv(trace[0], m) && n < |trace|
    ensures Inv(trace[n], m)
  {
    if n > 0 {
      RunKeeps(trace, steps, m, n - 1);
      assert Linked(trace[n - 1], steps[n - 1], trace[n - 1 + 1], Careful(m));
      StepKeeps(trace[n - 1], m, steps[n - 1]);
    }
  }

  /** What a run needs to keep the invariant from the start. */
  ghost predicate ProperRun(trace: seq<State>, steps: seq<Step>, m: Mode) {
    && (IsWriteMode(m) || m == ModeRead) && IsRun(trace, steps, Careful(m)) && Quiet(trace[0], m)
    && (m == ModeRead ==> ReadReady(trace[0].dongle))
  }

  // No overflow

  /** The next write, if any, finds a free slot in the ring. */
  predicate RoomForNext(s: State) {
    s.host.outbox != [] && s.host.outbox[0].WriteReq? ==> |s.dongle.cb| < s.dongle.cbSize
  }

  /** Credits, writes on the wire and ring contents together never exceed the ring. */
  predicate WithinRing(s: State) {
    s.host.countToWrite + |s.host.outbox| + |s.dongle.cb| <= s.dongle.cbSize
  }

  lemma NoOverflow(trace: seq<State>, steps: seq<Step>, m: Mode, n: nat)
    requires IsWriteMode(m) && IsRun(trace, steps, Careful(m)) && Quiet(trace[0], m) && n < |trace|
    ensures RoomForNext(trace[n])
    ensures trace[n].host.currentMode == m ==> WithinRing(trace[n])
  {
    RunKeeps(trace, steps, m, n);
    var s := trace[n];
    if Settled(s, m) && s.host.outbox != [] {
      WritePhase.ExecutedKeeps(s, m);
    }
  }
}
