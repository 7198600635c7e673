/** The interrupt handler on the camera queue: what it relies on from the application's callback, what it
    keeps, and runs of calls and interrupts. */
module CsiInterrupts {
  import opened CsiQueue
  import opened CsiCalls

  /** What the rest of the handler needs of the state the callback leaves: if it restarted the
      transfer, no buffer beyond the two that were loaded is waiting. */
  predicate Settled(b: Build, w: World)
    requires Wf(w)
  {
    w.h.active <= 1 || Empties(b, w.h) == 0
  }

  /** The calls of a callback, each judged in the state it is made in. */
  predicate CallsSafe(b: Build, w: World, ops: seq<UserOp>)
    requires Wf(w)
    decreases |ops|
  {
    ops == [] || (!Hazard(b, w, ops[0]) && CallsSafe(b, UserStep(b, w, ops[0]), ops[1..]))
  }

  predicate CallbackSafe(b: Build, w: World, ops: seq<UserOp>)
    requires Wf(w)
  {
    CallsSafe(b, w, ops) && Settled(b, UserRun(b, w, ops))
  }

  lemma {:induction false} CallbackKeeps(b: Build, w: World, ops: seq<UserOp>)
    requires Inv(w) && CallsSafe(b, w, ops)
    ensures Inv(UserRun(b, w, ops))
    decreases |ops|
  {
    if ops != [] {
      UserStepExact(b, w, ops[0]);
      CallbackKeeps(b, UserStep(b, w, ops[0]), ops[1..]);
    }
  }

  /** The state in which the handler calls back, as long as the callback does not start the transfer. */
  predicate NotRestarted(w: World) {
    Inv(w) && w.h.active <= 1 && (w.h.onGoing || !w.h.started)
  }

  predicate NoStart(ops: seq<UserOp>) { forall i :: 0 <= i < |ops| ==> !ops[i].Start? }

  /** A callback that never calls Start leaves a state the handler can go on from. */
  lemma {:induction false} WithoutStartSettles(b: Build, w: World, ops: seq<UserOp>)
    requires NotRestarted(w) && CallsSafe(b, w, ops)
    requires NoStart(ops)
    ensures Settled(b, UserRun(b, w, ops))
    decreases |ops|
  {
    if ops != [] {
      UserStepExact(b, w, ops[0]);
      WithoutStartSettles(b, UserStep(b, w, ops[0]), ops[1..]);
    }
  }

  lemma FrameDoneBeginKeeps(w: World, frame: Frame)
    requires Idle(w) && w.dev.running
    ensures var w' := FrameDoneBegin(Capture(w, frame), frame);
            NotRestarted(w') && Full(w'.h) == Full(w.h) + 1
  {
    DriverMovesKeepFifo(w, FrameDoneBegin(Capture(w, frame), frame));
  }

  /** From any state a callback can leave, the rest of the handler keeps the queue if and only if that
      state is settled: otherwise it loads a third buffer over one of the two in flight. */
  lemma FrameDoneEndExact(b: Build, w: World)
    requires Inv(w)
    ensures Idle(FrameDoneEnd(b, w)) <==> Settled(b, w)
  {
    var w' := FrameDoneEnd(b, w);
    if w.h.active == 0 {
      DriverMovesKeepFifo(w, w');
    } else if w.h.active == 1 && w.h.drvRead != w.h.userWrite {
      LoadMovesArcs(w.h);
      DriverMovesKeepFifo(w, w');
    }
  }

  /** The rest of the handler stops the camera when no buffer is in flight. With one in flight it loads
      the oldest waiting buffer into the free register; with none waiting it changes nothing. */
  lemma FrameDoneEndReloads(b: Build, w: World)
    requires Inv(w)
    ensures var w' := FrameDoneEnd(b, w);
            if w.h.active == 0 then
              w' == w.(h := w.h.(onGoing := false), dev := w.dev.(running := false))
            else if w.h.active == 1 && w.h.drvRead != w.h.userWrite then
              && w'.h.active == 2 && w'.h.drvRead == Next(|w.h.queue|, w.h.drvRead) && w'.h.next == 1 - w.h.next
              && w'.h.onGoing && w'.dev.running && w'.dev.fb == w.dev.fb[w.h.next := w.h.queue[w.h.drvRead]]
              && Empties(Repaired, w'.h) == Empties(Repaired, w.h) - 1 && w'.log == w.log
            else Empties(Repaired, w.h) == 0 ==> w' == w
  {
    if w.h.active == 1 && w.h.drvRead != w.h.userWrite {
      LoadMovesArcs(w.h);
    }
  }

  /** A completed frame whose callback makes no hazardous call keeps the queue if and only if the
      callback leaves a settled state. */
  lemma FrameDoneExact(b: Build, w: World, frame: Frame, callback: seq<UserOp>)
    requires Idle(w) && w.dev.running && CallsSafe(b, FrameDoneBegin(Capture(w, frame), frame), callback)
    ensures Idle(Step(b, w, FrameDone(frame, callback)))
            <==> Settled(b, UserRun(b, FrameDoneBegin(Capture(w, frame), frame), callback))
  {
    FrameDoneBeginKeeps(w, frame);
    var w1 := FrameDoneBegin(Capture(w, frame), frame);
    CallbackKeeps(b, w1, callback);
    FrameDoneEndExact(b, UserRun(b, w1, callback));
  }

  /** After a two-flag interrupt the camera starts afresh at register 0, with the buffers that were in
      flight armed again in order, and nothing else is moved. */
  lemma BothDoneRearms(w: World, f0: Frame, f1: Frame)
    requires Idle(w) && w.dev.running
    ensures var w' := BothDoneStep(w, f0, f1);
            && Receiving(w') && w'.log == w.log
            && w'.h == w.h.(next := w'.h.next) && w'.h.next == w.h.active % 2
            && w'.dev.fb[0] == w.h.queue[w.h.drvWrite]
            && w'.dev.fb[1] == if w.h.active == 2 then w.h.queue[Next(|w.h.queue|, w.h.drvWrite)] else w.dev.fb[1]
  {
  }

  lemma BothDoneKeeps(w: World, f0: Frame, f1: Frame)
    requires Idle(w) && w.dev.running
    ensures Idle(BothDoneStep(w, f0, f1))
  {
    DriverMovesKeepFifo(w, BothDoneStep(w, f0, f1));
  }

  /** A call that is not a hazard where it is made; a completed frame whose callback makes only such
      calls and leaves a settled state. */
  predicate OpSafe(b: Build, w: World, op: Op)
    requires Wf(w)
  {
    match op
    case User(op) => !Hazard(b, w, op)
    case FrameDone(frame, callback) =>
      w.dev.running ==> CallbackSafe(b, FrameDoneBegin(Capture(w, frame), frame), callback)
    case BothDone(_, _) => true
  }

  lemma StepKeepsIdle(b: Build, w: World, op: Op)
    requires Idle(w) && OpSafe(b, w, op)
    ensures Idle(Step(b, w, op))
  {
    match op
    case User(op) => UserStepKeepsIdle(b, w, op);
    case FrameDone(frame, callback) =>
      if w.dev.running { FrameDoneExact(b, w, frame, callback); }
    case BothDone(f0, f1) =>
      if w.dev.running { BothDoneKeeps(w, f0, f1); }
  }

  /** After a completed frame the camera has stopped, which it does only if no buffer was in flight any
      more, or it has two buffers, or none is waiting. */
  lemma FrameDoneUsesBuffers(b: Build, w: World, frame: Frame, callback: seq<UserOp>)
    requires Idle(w) && w.dev.running && OpSafe(b, w, FrameDone(frame, callback))
    ensures var before := UserRun(b, FrameDoneBegin(Capture(w, frame), frame), callback);
            var w' := Step(b, w, FrameDone(frame, callback));
            && w'.h.onGoing == (before.h.active >= 1) && w'.log == before.log
            && (w'.h.onGoing ==> w'.h.active == 2 || Empties(Repaired, w'.h) == 0)
  {
    FrameDoneBeginKeeps(w, frame);
    var w1 := FrameDoneBegin(Capture(w, frame), frame);
    CallbackKeeps(b, w1, callback);
    FrameDoneEndReloads(b, UserRun(b, w1, callback));
  }

  predicate RunSafe(b: Build, w: World, ops: seq<Op>)
    requires Wf(w)
    decreases |ops|
  {
    ops == [] || (OpSafe(b, w, ops[0]) && RunSafe(b, Step(b, w, ops[0]), ops[1..]))
  }

  lemma {:induction false} RunKeepsIdle(b: Build, w: World, ops: seq<Op>)
    requires Idle(w) && RunSafe(b, w, ops)
    ensures Idle(Run(b, w, ops))
    decreases |ops|
  {
    if ops != [] {
      StepKeepsIdle(b, w, ops[0]);
      RunKeepsIdle(b, Step(b, w, ops[0]), ops[1..]);
    }
  }

  /** For every safe run of calls and interrupts, in either build and for any ring size, the
      addresses returned so far are a prefix of the addresses accepted so far, the queue holds
      exactly the rest, in order, and never more than the queue size. */
  lemma RunRefinesFifo(b: Build, n: nat, dev: Device, ops: seq<Op>)
    requires 3 <= n <= 256 && |dev.fb| == 2 && dev.filling < 2
    requires RunSafe(b, Created(n, dev), ops)
    ensures var w := Run(b, Created(n, dev), ops);
            && w.log.accepted == w.log.returned + Contents(w.h)
            && Full(w.h) + w.h.active + Empties(Repaired, w.h) == |w.log.accepted| - |w.log.returned| <= n - 1
            && InFlight(w.h) == w.h.active <= 2
            && RegistersMatch(w.h, w.dev)
  {
    CreatedIsIdle(n, dev);
    RunKeepsIdle(b, Created(n, dev), ops);
    var w := Run(b, Created(n, dev), ops);
    FifoContents(w);
  }
}
