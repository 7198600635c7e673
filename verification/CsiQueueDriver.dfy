/** The camera driver as the repository writes it: a handle whose indices are updated in place, and
    a device whose registers it writes. Each method is proved to take the step that `CsiQueue`
    gives it, so the theorems about runs there are theorems about these methods. */
module CsiQueueDriver {
  import opened CsiQueue

  /** The two address registers, and the part of the camera that the driver does not see. */
  class CsiDevice {
    var fb1: Address
    var fb2: Address
    var filling: nat
    var running: bool
    var memory: map<Address, Frame>

    constructor ()
      ensures filling == 0 && !running
    {
      fb1, fb2, filling, running, memory := 0, 0, 0, false, map[];
    }

    ghost function Value(): Device
      reads this
    {
      Device([fb1, fb2], filling, running, memory)
    }

    method SetRxBufferAddr(index: nat, addr: Address)
      requires index < 2
      modifies this
      ensures Value() == old(Value()).(fb := old(Value()).fb[index := addr])
    {
      if index == 1 { fb2 := addr; } else { fb1 := addr; }
    }

    /** After the DMA is reset, the next frame goes to register 0. */
    method ReflashAndStart()
      modifies this
      ensures Value() == old(Value()).(filling := 0, running := true)
    {
      filling := 0;
      running := true;
    }

    method Halt()
      modifies this
      ensures Value() == old(Value()).(running := false)
    {
      running := false;
    }
  }

  class CsiDriver {
    const build: Build
    const frameBufferQueue: array<Address>
    const device: CsiDevice
    var queueUserReadIdx: nat
    var queueUserWriteIdx: nat
    var queueDrvReadIdx: nat
    var queueDrvWriteIdx: nat
    var activeBufferNum: nat
    var nextBufferIdx: nat
    var transferStarted: bool
    var transferOnGoing: bool
    ghost var log: Log

    ghost function State(): World
      reads this, frameBufferQueue, device
    {
      World(Handle(frameBufferQueue[..], queueUserReadIdx, queueUserWriteIdx, queueDrvReadIdx, queueDrvWriteIdx,
                   activeBufferNum, nextBufferIdx, transferStarted, transferOnGoing),
            device.Value(), log)
    }

    ghost predicate Valid()
      reads this, frameBufferQueue, device
    {
      Wf(State())
    }

    constructor (b: Build, n: nat, dev: CsiDevice)
      requires 3 <= n <= 256 && dev.filling < 2 && !dev.running
      ensures Valid() && build == b && device == dev && fresh(frameBufferQueue)
      ensures State() == Created(n, dev.Value())
    {
      build := b;
      device := dev;
      frameBufferQueue := new Address[n](_ => 0);
      queueUserReadIdx, queueUserWriteIdx, queueDrvReadIdx, queueDrvWriteIdx := 0, 0, 0, 0;
      activeBufferNum, nextBufferIdx := 0, 0;
      transferStarted, transferOnGoing := false, false;
      log := Log([], [], [], []);
      new;
      assert frameBufferQueue[..] == seq(n, _ => 0);
    }

    method GetQueueDelta(startIdx: nat, endIdx: nat) returns (delta: nat)
      requires startIdx < frameBufferQueue.Length && endIdx < frameBufferQueue.Length
      ensures delta == Delta(build, frameBufferQueue.Length, startIdx, endIdx)
    {
      if endIdx >= startIdx {
        return endIdx - startIdx;
      }
      match build
      case AsWritten => return startIdx + frameBufferQueue.Length - endIdx;
      case Repaired => return endIdx + frameBufferQueue.Length - startIdx;
    }

    method IncreaseQueueIdx(idx: nat) returns (ret: nat)
      ensures ret == Next(frameBufferQueue.Length, idx)
    {
      ret := idx + 1;
      if ret >= frameBufferQueue.Length {
        ret := 0;
      }
    }

    method LoadBufferToDevice()
      requires Valid()
      modifies this, device
      ensures Valid() && State() == LoadBuffer(old(State()))
    {
      device.SetRxBufferAddr(nextBufferIdx, frameBufferQueue[queueDrvReadIdx]);
      queueDrvReadIdx := IncreaseQueueIdx(queueDrvReadIdx);
      activeBufferNum := Inc8(activeBufferNum);
      nextBufferIdx := 1 - nextBufferIdx;
    }

    method TransferStart() returns (status: Status)
      requires Valid()
      modifies this, device
      ensures Valid() && (State(), status) == StartStep(build, old(State()))
    {
      var emptyBufferCount := GetQueueDelta(queueDrvReadIdx, queueUserWriteIdx);
      if emptyBufferCount < 2 {
        return NoEmptyBuffer;
      }
      nextBufferIdx := 0;
      activeBufferNum := 0;
      LoadBufferToDevice();
      LoadBufferToDevice();
      transferStarted := true;
      transferOnGoing := true;
      device.ReflashAndStart();
      return Success;
    }

    method TransferStop()
      requires Valid()
      modifies this, device
      ensures Valid() && State() == StopStep(old(State()))
    {
      device.Halt();
      transferStarted := false;
      transferOnGoing := false;
      queueDrvReadIdx := queueDrvWriteIdx;
      activeBufferNum := 0;
    }

    method TransferSubmitEmptyBuffer(frameBuffer: Address) returns (status: Status)
      requires Valid()
      modifies this, frameBufferQueue, device
      ensures Valid() && (State(), status) == SubmitStep(build, old(State()), frameBuffer)
    {
      var held := GetQueueDelta(queueUserReadIdx, queueUserWriteIdx);
      if frameBufferQueue.Length - 1 == held {
        return QueueFull;
      }
      frameBufferQueue[queueUserWriteIdx] := frameBuffer;
      queueUserWriteIdx := IncreaseQueueIdx(queueUserWriteIdx);
      log := log.(accepted := log.accepted + [frameBuffer]);
      assert State() == Enqueue(old(State()), frameBuffer);

      if transferStarted {
        var emptyBufferCount := GetQueueDelta(queueDrvReadIdx, queueUserWriteIdx);
        if !transferOnGoing && emptyBufferCount >= 2 {
          transferOnGoing := true;
          nextBufferIdx := 0;
          LoadBufferToDevice();
          LoadBufferToDevice();
          device.ReflashAndStart();
        }
      }
      return Success;
    }

    method TransferGetFullBuffer() returns (status: Status, frameBuffer: Address)
      requires Valid()
      modifies this
      ensures Valid() && (State(), status, frameBuffer) == GetFullStep(old(State()))
    {
      if queueUserReadIdx == queueDrvWriteIdx {
        return NoFullBuffer, 0;
      }
      frameBuffer := frameBufferQueue[queueUserReadIdx];
      queueUserReadIdx := IncreaseQueueIdx(queueUserReadIdx);
      log := log.(returned := log.returned + [frameBuffer],
                  delivered := log.delivered + [Read(device.memory, frameBuffer)]);
      return Success, frameBuffer;
    }

    /** The application's callback, as the driver calls it makes. */
    method Callback(ops: seq<UserOp>)
      requires Valid()
      modifies this, frameBufferQueue, device
      ensures Valid() && State() == UserRun(build, old(State()), ops)
      decreases |ops|
    {
      if ops != [] {
        match ops[0] {
          case Submit(buffer) => var _ := TransferSubmitEmptyBuffer(buffer);
          case GetFull => var _, _ := TransferGetFullBuffer();
          case Start => var _ := TransferStart();
          case Stop => TransferStop();
        }
        Callback(ops[1..]);
      }
    }

    /** The handler, entered with the two completion flags as read from the status register. A
        single completion is that of `frame`, already stored by the camera. */
    method TransferHandleIRQ(fb1Done: bool, fb2Done: bool, callback: seq<UserOp>, ghost frame: Frame)
      requires Valid()
      modifies this, frameBufferQueue, device
      ensures Valid()
      ensures fb1Done && fb2Done ==> State() == BothDoneHandler(old(State()))
      ensures fb1Done != fb2Done ==>
                State() == FrameDoneEnd(build, UserRun(build, FrameDoneBegin(old(State()), frame), callback))
      ensures !fb1Done && !fb2Done ==> State() == old(State())
    {
      if fb1Done && fb2Done {
        device.Halt();
        if 1 <= activeBufferNum {
          var drvWriteIdx := queueDrvWriteIdx;
          device.SetRxBufferAddr(0, frameBufferQueue[drvWriteIdx]);
          if 2 == activeBufferNum {
            drvWriteIdx := IncreaseQueueIdx(drvWriteIdx);
            device.SetRxBufferAddr(1, frameBufferQueue[drvWriteIdx]);
            nextBufferIdx := 0;
          } else {
            nextBufferIdx := 1;
          }
        }
        device.ReflashAndStart();
      } else if fb1Done || fb2Done {
        queueDrvWriteIdx := IncreaseQueueIdx(queueDrvWriteIdx);
        activeBufferNum := Dec8(activeBufferNum);
        log := log.(captured := log.captured + [frame]);
        assert State() == FrameDoneBegin(old(State()), frame);
        Callback(callback);
        if activeBufferNum == 0 {
          device.Halt();
          transferOnGoing := false;
        } else {
          var emptyBufferCount := GetQueueDelta(queueDrvReadIdx, queueUserWriteIdx);
          if emptyBufferCount != 0 {
            LoadBufferToDevice();
          }
        }
      }
    }
  }
}
