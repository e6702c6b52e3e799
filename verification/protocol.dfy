/** Host, dongle and the USB pipe between them as one state machine. */
module Protocol {
  import opened Types
  import opened Transfers
  import opened Host
  import opened Dongles

  /** An executed control transfer whose callback has not run yet. */
  datatype Completion = Written | Obtained(reply: Option<(Packet, bool)>) | ModeSwitched

  /** `snapshot` is the report an outstanding interrupt transfer has picked up. */
  datatype State = State(host: Adaptor, done: seq<Completion>, snapshot: Option<Status>, dongle: Dongle)

  datatype Step =
    | Submitted(transfer: Transfer)   // the application submits
    | Executed                        // the dongle runs the oldest control transfer
    | Called                          // the host runs the oldest completion callback
    | Processed(room: nat)            // the dongle's main loop serves the radio
    | Posted                          // the dongle's main loop posts a report
    | Transmitted(acked: bool)        // the radio is done with the head of its FIFO
    | Received(packet: Packet)        // the radio hears a packet
    | Polled                          // the interrupt endpoint is polled
    | Reported(expired: bool)         // the host handles the report

  /** Which steps make sense. A read reply with nothing in it, or one that arrives when no transfer
      is current, has no successor: the callback would use what is not there. */
  predicate Enabled(s: State, step: Step) {
    match step
    case Submitted(_) => true
    case Executed => s.host.outbox != [] && (s.host.outbox[0].WriteReq? ==> CanStore(s.dongle))
    case Called =>
      && s.done != []
      && (match s.done[0]
          case Written => s.host.current.Some?
          case Obtained(reply) => reply.Some? && s.host.current.Some?
          case ModeSwitched => true)
    case Processed(_) => true
    case Posted => true
    case Transmitted(_) => CanTransmit(s.dongle.radio)
    case Received(_) => s.dongle.mode == ModeRead
    case Polled => s.host.interruptIsRunning && s.snapshot.None?
    case Reported(_) => s.snapshot.Some?
  }

  function Execute(s: State): State
    requires Enabled(s, Executed)
  {
    var h := s.host.(outbox := s.host.outbox[1..]);
    match s.host.outbox[0]
    case WriteReq(p) => s.(host := h, dongle := ExecWrite(s.dongle, p), done := s.done + [Written])
    case ReadReq =>
      var (d, reply) := ExecRead(s.dongle);
      s.(host := h, dongle := d, done := s.done + [Obtained(reply)])
    case ModeReq(m) => s.(host := h, dongle := ExecMode(s.dongle, m), done := s.done + [ModeSwitched])
  }

  function Call(s: State): State
    requires Enabled(s, Called)
  {
    var rest := s.done[1..];
    match s.done[0]
    case Written => s.(host := BufferWriteDone(s.host), done := rest)
    case Obtained(reply) => s.(host := PacketObtained(s.host, reply.value.0, reply.value.1), done := rest)
    case ModeSwitched => s.(host := SwitchModeDone(s.host), done := rest)
  }

  function Apply(s: State, step: Step): State
    requires Enabled(s, step)
  {
    match step
    case Submitted(t) => s.(host := Submit(s.host, t))
    case Executed => Execute(s)
    case Called => Call(s)
    case Processed(room) => s.(dongle := ProcessRadio(s.dongle, room))
    case Posted => s.(dongle := Post(s.dongle))
    case Transmitted(acked) => s.(dongle := s.dongle.(radio := Transmit(s.dongle.radio, acked)))
    case Received(p) => s.(dongle := s.dongle.(radio := Dongles.Receive(s.dongle.radio, p)))
    case Polled => s.(snapshot := Some(s.dongle.posted))
    case Reported(expired) =>
      s.(host := StatusArrived(s.host, s.snapshot.value, expired), snapshot := None)
  }

  /** What an application may do, and how the dongle is scheduled. The first two flags open the two doors
      that README.md names. With `attentive` set the dongle's main loop serves the radio after every
      control request, as the firmware does. */
  datatype Rules = Rules(mode: Mode, emptyTransfers: bool, overlappingSwitches: bool, attentive: bool)

  /** Both doors closed, any schedule. */
  function Careful(m: Mode): Rules { Rules(m, false, false, false) }

  ghost predicate Allowed(s: State, step: Step, rules: Rules) {
    && Enabled(s, step)
    && (step.Submitted? ==>
          && Fresh(step.transfer, rules.mode)
          && (rules.mode == ModeRead || rules.emptyTransfers || step.transfer.sendQueue != [])
          && (rules.overlappingSwitches || s.host.canXfer))
  }

  /** The host is quiet and in another mode; the dongle holds whatever it holds.
      Ack payloads are off, so the second ring has no room. */
  ghost predicate Quiet(s: State, m: Mode) {
    && s.host.queue == [] && s.host.current.None? && s.host.finished == []
    && s.host.numIosPending == 0 && s.host.canXfer && s.host.currentMode != m
    && !s.host.interruptIsRunning && s.host.outbox == [] && s.done == [] && s.snapshot.None?
    && RingsOk(s.dongle)
    && s.dongle.posted.cbSize <= s.dongle.cbSize
    && s.dongle.posted.acbCount == 0 && s.dongle.posted.acbSize == 0
  }

  ghost predicate RingsOk(d: Dongle) {
    && 0 < d.cbSize < 256 && |d.cb| <= d.cbSize && d.acb == [] && d.acbSize == 0
  }

  /** A pass of the main loop, with a radio whose transmit FIFO has three places. */
  function MainLoop(d: Dongle): Step { Processed(if |d.radio.txFifo| < 3 then 3 - |d.radio.txFifo| else 0) }

  ghost predicate Attentive(trace: seq<State>, steps: seq<Step>)
    requires |trace| == |steps| + 1
  {
    forall i :: 0 <= i < |steps| && steps[i] == Executed ==>
      i + 1 < |steps| && steps[i + 1] == MainLoop(trace[i + 1].dongle)
  }

  ghost predicate Linked(s: State, step: Step, r: State, rules: Rules) {
    Allowed(s, step, rules) && r == Apply(s, step)
  }

  /** States visited by the steps, the first one included. */
  ghost predicate IsRun(trace: seq<State>, steps: seq<Step>, rules: Rules) {
    && |trace| == |steps| + 1
    && (forall i :: 0 <= i < |steps| ==> Linked(trace[i], steps[i], trace[i + 1], rules))
    && (rules.attentive ==> Attentive(trace, steps))
  }

  ghost predicate Reachable(s: State, r: State, rules: Rules) {
    exists trace: seq<State>, steps: seq<Step> ::
      IsRun(trace, steps, rules) && trace[0] == s && trace[|steps|] == r
  }

  lemma ReachSelf(s: State, rules: Rules)
    ensures Reachable(s, s, rules)
  {
    assert IsRun([s], [], rules);
  }

  /** Runs can be put together. */
  lemma Join(a: seq<State>, xs: seq<Step>, b: seq<State>, ys: seq<Step>, rules: Rules)
    requires IsRun(a, xs, rules) && IsRun(b, ys, rules) && a[|xs|] == b[0]
    ensures IsRun(a + b[1..], xs + ys, rules) && (a + b[1..])[0] == a[0] && (a + b[1..])[|xs + ys|] == b[|ys|]
  {
    var c, zs := a + b[1..], xs + ys;
    forall i | 0 <= i < |zs|
      ensures Linked(c[i], zs[i], c[i + 1], rules)
      ensures rules.attentive && zs[i] == Executed ==> i + 1 < |zs| && zs[i + 1] == MainLoop(c[i + 1].dongle)
    {
      if i < |xs| {
        assert c[i] == a[i] && c[i + 1] == a[i + 1] && zs[i] == xs[i];
        assert Linked(a[i], xs[i], a[i + 1], rules);
      } else {
        var k := i - |xs|;
        assert c[i] == b[k] && c[i + 1] == b[k + 1] && zs[i] == ys[k];
        assert Linked(b[k], ys[k], b[k + 1], rules);
      }
    }
  }

  lemma ReachJoin(s: State, u: State, r: State, rules: Rules)
    requires Reachable(s, u, rules) && Reachable(u, r, rules)
    ensures Reachable(s, r, rules)
  {
    var a: seq<State>, xs: seq<Step> :| IsRun(a, xs, rules) && a[0] == s && a[|xs|] == u;
    var b: seq<State>, ys: seq<Step> :| IsRun(b, ys, rules) && b[0] == u && b[|ys|] == r;
    Join(a, xs, b, ys, rules);
  }

  lemma ReachNext(s: State, r: State, step: Step, rules: Rules)
    requires Reachable(s, r, rules) && Allowed(r, step, rules) && !(rules.attentive && step == Executed)
    ensures Reachable(s, Apply(r, step), rules)
  {
    var b, ys := [r, Apply(r, step)], [step];
    assert Linked(b[0], ys[0], b[1], rules);
    assert IsRun(b, ys, rules) && b[0] == r && b[|ys|] == Apply(r, step);
    ReachJoin(s, r, Apply(r, step), rules);
  }

  /** A control request is executed and the main loop makes a pass. */
  function Served(r: State): State
    requires Enabled(r, Executed)
  {
    var u := Execute(r);
    Apply(u, MainLoop(u.dongle))
  }

  lemma ReachServed(s: State, r: State, rules: Rules)
    requires Reachable(s, r, rules) && Enabled(r, Executed)
    ensures Reachable(s, Served(r), rules)
  {
    var u := Execute(r);
    var b, ys := [r, u, Served(r)], [Executed, MainLoop(u.dongle)];
    assert Linked(b[0], ys[0], b[1], rules) && Linked(b[1], ys[1], b[2], rules);
    assert IsRun(b, ys, rules) && b[0] == r && b[|ys|] == Served(r);
    ReachJoin(s, r, Served(r), rules);
  }

  /** Looser rules allow every run of stricter ones. Whether empty transfers are allowed makes no difference
      to a reading application. */
  ghost predicate Looser(strict: Rules, loose: Rules) {
    && strict.mode == loose.mode
    && (strict.emptyTransfers && strict.mode != ModeRead ==> loose.emptyTransfers)
    && (strict.overlappingSwitches ==> loose.overlappingSwitches)
    && (loose.attentive ==> strict.attentive)
  }

  lemma RunMore(trace: seq<State>, steps: seq<Step>, strict: Rules, loose: Rules)
    requires IsRun(trace, steps, strict) && Looser(strict, loose)
    ensures IsRun(trace, steps, loose)
  {
    forall i | 0 <= i < |steps| ensures Linked(trace[i], steps[i], trace[i + 1], loose) {
      assert Linked(trace[i], steps[i], trace[i + 1], strict);
    }
  }

  /** A reachable state and one step more, as a run. */
  lemma RunTo(s: State, r: State, step: Step, rules: Rules) returns (trace: seq<State>, steps: seq<Step>)
    requires Reachable(s, r, rules) && Allowed(r, step, rules) && step != Executed
    ensures IsRun(trace, steps, rules) && trace[0] == s && |steps| > 0
    ensures trace[|steps| - 1] == r && steps[|steps| - 1] == step
  {
    var a: seq<State>, xs: seq<Step> :| IsRun(a, xs, rules) && a[0] == s && a[|xs|] == r;
    var b, ys := [r, Apply(r, step)], [step];
    assert Linked(b[0], ys[0], b[1], rules);
    Join(a, xs, b, ys, rules);
    trace, steps := a + b[1..], xs + ys;
  }
}
