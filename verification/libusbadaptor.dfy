/** The adaptor object of librf24pp/rf24adaptor.cpp and rf24libusbadaptor.cpp: its methods carry out
    the handlers of module Host. */
module LibUsbAdaptors {
  import opened Types
  import opened IOTransfers
  import Transfers
  import Host

  class LibUsbAdaptor {
    var queue: seq<IOTransfer>
    var currentTransfer: IOTransfer?
    ghost var finished: seq<Transfers.Transfer>
    var numIosPending: int
    var countToWrite: nat
    var countToRead: nat
    var canXfer: bool
    var currentMode: Mode
    var nextMode: Mode
    var interruptIsRunning: bool
    var outbox: seq<Host.Control>  // control transfers given to the USB stack

    ghost predicate Valid()
      reads this, queue, currentTransfer
    {
      && (forall i :: 0 <= i < |queue| ==> queue[i].Valid())
      && (forall i, j :: 0 <= i < j < |queue| ==> queue[i] != queue[j])
      && (currentTransfer != null ==> currentTransfer.Valid() && currentTransfer !in queue)
    }

    ghost function View(): Host.Adaptor
      reads this, queue, currentTransfer
    {
      Host.Adaptor(
        seq(|queue|, i requires 0 <= i < |queue| reads this, queue => queue[i].View()),
        if currentTransfer == null then None else Some(currentTransfer.View()),
        finished, numIosPending, countToWrite, countToRead, canXfer,
        currentMode, nextMode, interruptIsRunning, outbox)
    }

    constructor ()
      ensures Valid()
      ensures View() == Host.Adaptor([], None, [], 0, 0, 0, true, ModeIdle, ModeIdle, false, [])
    {
      queue, currentTransfer, finished, outbox := [], null, [], [];
      numIosPending, countToWrite, countToRead, canXfer := 0, 0, 0, true;
      currentMode, nextMode, interruptIsRunning := ModeIdle, ModeIdle, false;
    }

    method TransferCompleted()
      requires Valid() && currentTransfer != null
      modifies this`currentTransfer, this`finished
      ensures Valid()
      ensures View() == old(View()).(current := None, finished := old(finished) + [old(currentTransfer.View())])
    {
      finished := finished + [currentTransfer.View()];
      currentTransfer := null;
    }

    method RequestStatus()
      requires Valid()
      modifies this`interruptIsRunning
      ensures Valid() && View() == Host.RequestStatus(old(View()))
    {
      if !interruptIsRunning {
        interruptIsRunning := true;
      }
    }

    method RequestIfQuiet()
      requires Valid()
      modifies this`interruptIsRunning
      ensures Valid() && View() == Host.RequestIfQuiet(old(View()))
    {
      if numIosPending == 0 && currentTransfer != null {
        RequestStatus();
      }
    }

    method TryWrite() returns (something: bool)
      requires Valid() && currentTransfer != null
      modifies this`outbox, this`numIosPending, this`countToWrite, currentTransfer
      ensures Valid() && something == Host.CanWrite(old(View()))
      ensures View() == if something then Host.IssueWrite(old(View())) else old(View())
    {
      something := false;
      if countToWrite != 0 {
        var p := currentTransfer.NextForWrite();
        if p.Some? {
          outbox := outbox + [Host.WriteReq(p.value)];
          something := true;
          numIosPending := numIosPending + 1;
          countToWrite := countToWrite - 1;
        }
      }
    }

    method TryRead() returns (something: bool)
      requires Valid()
      modifies this`outbox, this`numIosPending, this`countToRead
      ensures Valid() && something == (old(countToRead) > 0)
      ensures View() == if something then Host.IssueRead(old(View())) else old(View())
    {
      something := countToRead != 0;
      if something {
        outbox := outbox + [Host.ReadReq];
        numIosPending := numIosPending + 1;
        countToRead := countToRead - 1;
      }
    }

    /** The fair-share loop. */
    method IssueAll()
      requires Valid() && currentTransfer != null
      modifies this`outbox, this`numIosPending, this`countToWrite, this`countToRead, currentTransfer
      ensures Valid() && View() == Host.IssueAll(old(View()))
    {
      var somethingGoingOn := true;
      while somethingGoingOn
        invariant Valid() && Host.IssueAll(View()) == Host.IssueAll(old(View()))
        invariant !somethingGoingOn ==> !Host.CanWrite(View()) && countToRead == 0
        decreases countToWrite + countToRead, somethingGoingOn
      {
        ghost var before := View();
        var wrote := TryWrite();
        var read := TryRead();
        somethingGoingOn := wrote || read;
        assert somethingGoingOn ==> View() == Host.IssueRound(before);
      }
    }

    method SwitchMode(mode: Mode)
      requires Valid()
      modifies this
      ensures Valid() && View() == Host.SwitchMode(old(View()), mode)
      ensures queue == old(queue) && currentTransfer == old(currentTransfer)
    {
      canXfer := false;
      numIosPending := numIosPending + 1;
      countToRead, countToWrite := 0, 0;
      nextMode := mode;
      outbox := outbox + [Host.ModeReq(mode)];
    }

    /** Takes the oldest queued transfer. The result says that it was over at once. */
    method PickNext() returns (over: bool)
      requires Valid()
      modifies this`queue, this`currentTransfer, this`finished, queue
      ensures Valid() && over == Host.PickedEmpty(old(View())) && View() == Host.PickNext(old(View()))
      ensures over ==> currentTransfer == null
      ensures currentTransfer != null ==> currentTransfer == old(currentTransfer) || currentTransfer in old(queue)
      ensures old(currentTransfer) != null ==> currentTransfer == old(currentTransfer)
    {
      over := false;
      if currentTransfer == null && queue != [] {
        currentTransfer := queue[0];
        queue := queue[1..];
        over := currentTransfer.TransferStarted();
        if over {
          TransferCompleted();
        }
      }
    }

    method Serve()
      requires Valid()
      modifies this, currentTransfer
      ensures Valid() && View() == Host.Serve(old(View())) && currentTransfer == old(currentTransfer)
    {
      if currentTransfer != null {
        if currentTransfer.transferMode != ModeAny && currentTransfer.transferMode != currentMode {
          SwitchMode(currentTransfer.transferMode);
          return;
        }
        if canXfer {
          IssueAll();
        }
      }
      RequestIfQuiet();
    }

    method StartTransfers()
      requires Valid()
      modifies this, currentTransfer, queue
      ensures Valid() && View() == Host.StartTransfers(old(View()))
      ensures old(currentTransfer) != null ==> currentTransfer == old(currentTransfer)
    {
      var over := PickNext();
      if over {
        RequestStatus();
        return;
      }
      Serve();
    }

    method Submit(t: IOTransfer)
      requires Valid() && t !in queue && t != currentTransfer
      modifies this, currentTransfer, queue, t
      ensures Valid() && View() == Host.Submit(old(View()), old(t.View()))
    {
      t.Submit();
      assert View() == old(View());
      queue := queue + [t];
      assert View() == old(View()).(queue := old(View()).queue + [t.View()]);
      StartTransfers();
    }

    method UpdateStatus(countCanWrite: int, countCanRead: int)
      requires Valid()
      modifies this, currentTransfer, queue
      ensures Valid() && View() == Host.UpdateStatus(old(View()), countCanWrite, countCanRead)
      ensures old(currentTransfer) != null ==> currentTransfer == old(currentTransfer)
    {
      if countCanWrite >= 0 {
        countToWrite := countCanWrite;
      }
      if countCanRead >= 0 {
        countToRead := countCanRead;
      }
      assert View() == old(View()).(countToWrite := countToWrite, countToRead := countToRead);
      StartTransfers();
    }

    method BufferWriteDone()
      requires Valid() && currentTransfer != null
      modifies this, currentTransfer
      ensures Valid() && View() == Host.BufferWriteDone(old(View()))
    {
      var over := currentTransfer.BufferWriteDone();
      if over {
        TransferCompleted();
      }
      numIosPending := numIosPending - 1;
      RequestIfQuiet();
    }

    method BufferReadDone(p: Packet)
      requires Valid() && currentTransfer != null
      modifies this, currentTransfer
      ensures Valid() && View() == Host.BufferReadDone(old(View()), p)
    {
      var over := currentTransfer.BufferReadDone(p);
      if over {
        TransferCompleted();
      }
      numIosPending := numIosPending - 1;
      RequestIfQuiet();
    }

    method PacketObtained(p: Packet, haveMore: bool)
      requires Valid() && currentTransfer != null
      modifies this, currentTransfer, queue
      ensures Valid() && View() == Host.PacketObtained(old(View()), p, haveMore)
    {
      if haveMore && numIosPending == 1 {
        UpdateStatus(-1, 1);
      }
      BufferReadDone(p);
    }

    method SwitchModeDone()
      requires Valid()
      modifies this
      ensures Valid() && View() == Host.SwitchModeDone(old(View()))
    {
      canXfer := true;
      numIosPending := numIosPending - 1;
      currentMode := nextMode;
      RequestStatus();
    }

    method UpdateIdleStatus(lastOk: bool, expired: bool)
      requires Valid()
      modifies this`currentTransfer, this`finished, currentTransfer
      ensures Valid() && View() == Host.UpdateIdleStatus(old(View()), lastOk, expired)
      ensures queue == old(queue) && (currentTransfer == old(currentTransfer) || currentTransfer == null)
    {
      if currentTransfer != null {
        var over := currentTransfer.AdaptorNowIdle(lastOk, expired);
        if over {
          TransferCompleted();
        }
      }
    }

    method StatusUpdateArrived(status: Status, expired: bool)
      requires Valid()
      modifies this, currentTransfer, queue
      ensures Valid() && View() == Host.StatusArrived(old(View()), status, expired)
    {
      hide Host.StartTransfers, Host.UpdateIdleStatus, Host.UpdateStatus;
      interruptIsRunning := false;
      assert View() == old(View()).(interruptIsRunning := false);
      var cbSlots := status.cbSize - status.cbCount;
      var acbSlots := status.acbSize - status.acbCount;
      var toWrite := if currentMode == ModeRead then acbSlots else cbSlots;
      var toRead := if currentMode == ModeRead then status.cbCount else status.acbCount;
      CheckIdle(status, expired);
      ghost var h1 := View();
      assert Host.StatusArrived(old(View()), status, expired) == Host.UpdateStatus(h1, toWrite, toRead);
      UpdateStatus(toWrite, toRead);
    }

    method CheckIdle(status: Status, expired: bool)
      requires Valid()
      modifies this`currentTransfer, this`finished, currentTransfer
      ensures Valid()
      ensures View() ==
        if Host.ReportsIdle(status) then
          Host.UpdateIdleStatus(old(View()), Host.LastTxOk(old(View()), status), expired)
        else old(View())
      ensures queue == old(queue) && (currentTransfer == old(currentTransfer) || currentTransfer == null)
    {
      var lastTxFailed := status.lastTxFailed;
      if status.fifoIsEmpty && currentMode == ModeWriteBulk {
        lastTxFailed := 0;
      }
      if status.cbCount == 0 && status.acbCount == 0 && status.fifoIsEmpty {
        UpdateIdleStatus(lastTxFailed == 0, expired);
      }
    }
  }
}
