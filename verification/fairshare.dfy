/** The order in which the adaptor puts its transfers' packets on the wire. */
module FairShare {
  import opened Types
  import opened Transfers
  import opened Host

  /** One write, one read, and so on; what is left of the longer kind goes last. */
  function Alternating(ps: seq<Packet>, credits: nat): (cs: seq<Control>)
    ensures |cs| == |ps| + credits
  {
    seq(|ps| + credits, i requires 0 <= i < |ps| + credits =>
      if i < 2 * |ps| && i < 2 * credits then (if i % 2 == 0 then WriteReq(ps[i / 2]) else ReadReq)
      else if credits < |ps| then WriteReq(ps[i - credits])
      else ReadReq)
  }

  lemma AlternatingStarts(ps: seq<Packet>, credits: nat)
    ensures ps != [] && credits > 0 ==>
      Alternating(ps, credits) == [WriteReq(ps[0]), ReadReq] + Alternating(ps[1..], credits - 1)
    ensures ps != [] && credits == 0 ==> Alternating(ps, credits) == [WriteReq(ps[0])] + Alternating(ps[1..], 0)
    ensures ps == [] && credits > 0 ==> Alternating(ps, credits) == [ReadReq] + Alternating([], credits - 1)
    ensures ps == [] && credits == 0 ==> Alternating(ps, credits) == []
  {
  }

  /** The packets that the credits are enough for. */
  ghost function Affordable(h: Adaptor): (ps: seq<Packet>)
    requires h.current.Some? && h.current.value.Valid()
    ensures |ps| <= h.countToWrite
  {
    var rest := h.current.value.sendQueue[h.current.value.nextToSend..];
    rest[..Min(h.countToWrite, |rest|)]
  }

  /** The host after k writes and n reads more. */
  function Spent(h: Adaptor, k: nat, n: nat, sent: seq<Control>): (r: Adaptor)
    requires h.current.Some? && k <= h.countToWrite && n <= h.countToRead
    ensures r.current.Some? && r.countToWrite == h.countToWrite - k && r.countToRead == h.countToRead - n
  {
    var t := h.current.value;
    h.(current := Some(t.(nextToSend := t.nextToSend + k, numWriting := t.numWriting + k)),
       outbox := h.outbox + sent, numIosPending := h.numIosPending + k + n,
       countToWrite := h.countToWrite - k, countToRead := h.countToRead - n)
  }

  /** One turn of the loop. */
  lemma RoundIs(h: Adaptor, ps: seq<Packet>)
    requires h.current.Some? && h.current.value.Valid() && ps == Affordable(h)
    ensures CanWrite(h) <==> ps != []
    ensures ps != [] && h.countToRead > 0 ==> IssueRound(h) == Spent(h, 1, 1, [WriteReq(ps[0]), ReadReq])
    ensures ps != [] && h.countToRead == 0 ==> IssueRound(h) == Spent(h, 1, 0, [WriteReq(ps[0])])
    ensures ps == [] && h.countToRead > 0 ==> IssueRound(h) == Spent(h, 0, 1, [ReadReq])
  {
    var t := h.current.value;
    if CanWrite(h) {
      var p := t.sendQueue[t.nextToSend];
      assert h.outbox + [WriteReq(p)] + [ReadReq] == h.outbox + [WriteReq(p), ReadReq];
    }
  }

  lemma NextAffordable(h: Adaptor, n: nat, sent: seq<Control>)
    requires h.current.Some? && h.current.value.Valid() && n <= h.countToRead
    ensures var ps := Affordable(h);
      var k := if ps != [] then 1 else 0;
      Spent(h, k, n, sent).current.value.Valid() && Affordable(Spent(h, k, n, sent)) == ps[k..]
  {
    var t := h.current.value;
    if Affordable(h) != [] {
      assert t.sendQueue[t.nextToSend..] == [t.sendQueue[t.nextToSend]] + t.sendQueue[t.nextToSend + 1..];
    }
  }

  lemma SpentTwice(h: Adaptor, k: nat, n: nat, a: seq<Control>, i: nat, j: nat, b: seq<Control>)
    requires h.current.Some? && k + i <= h.countToWrite && n + j <= h.countToRead
    ensures Spent(Spent(h, k, n, a), i, j, b) == Spent(h, k + i, n + j, a + b)
  {
    assert h.outbox + a + b == h.outbox + (a + b);
  }

  /** The loop spends the credits of both kinds in turn, on the next packets of the transfer. */
  lemma {:induction false} IssuesAlternately(h: Adaptor)
    requires h.current.Some? && h.current.value.Valid()
    ensures var ps := Affordable(h);
      IssueAll(h) == Spent(h, |ps|, h.countToRead, Alternating(ps, h.countToRead))
    decreases h.countToWrite + h.countToRead, 1
  {
    var ps, n := Affordable(h), h.countToRead;
    AlternatingStarts(ps, n);
    RoundIs(h, ps);
    if ps == [] && n == 0 {
      assert h.outbox + [] == h.outbox;
    } else if ps == [] {
      RoundsLeft(h, 0, 1, [ReadReq]);
    } else if n == 0 {
      RoundsLeft(h, 1, 0, [WriteReq(ps[0])]);
    } else {
      RoundsLeft(h, 1, 1, [WriteReq(ps[0]), ReadReq]);
    }
  }

  lemma RoundsLeft(h: Adaptor, k: nat, j: nat, first: seq<Control>)
    requires h.current.Some? && h.current.value.Valid() && j <= h.countToRead && k + j > 0
    requires k == (if Affordable(h) != [] then 1 else 0)
    requires IssueRound(h) == Spent(h, k, j, first) && IssueAll(h) == IssueAll(IssueRound(h))
    ensures IssueAll(h) ==
      Spent(h, |Affordable(h)|, h.countToRead, first + Alternating(Affordable(h)[k..], h.countToRead - j))
    decreases h.countToWrite + h.countToRead, 0
  {
    hide *;
    var h1, i, n := IssueRound(h), |Affordable(h)| - k, h.countToRead - j;
    NextAffordable(h, j, first);
    IssuesAlternately(h1);
    SpentTwice(h, k, j, first, i, n, Alternating(Affordable(h)[k..], n));
  }

  /** Starting transfers sends nothing but a mode request when the next transfer needs another mode, and nothing
      at all while a mode switch is under way. A transfer for any mode is served in the mode there is. */
  lemma StartSends(h: Adaptor)
    requires h.current.Some? && h.current.value.Valid()
    ensures var t, sent := h.current.value, StartTransfers(h).outbox;
      sent == h.outbox +
        if t.mode != h.currentMode && t.mode != ModeAny then [ModeReq(t.mode)]
        else if !h.canXfer then []
        else Alternating(Affordable(h), h.countToRead)
  {
    IssuesAlternately(h);
  }
}
