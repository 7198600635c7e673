/** What the buffers contain: each buffer the application fetches holds the frame whose completion
    was reported for it, in the order of the completions. */
module CsiFrames {
  import opened CsiQueue
  import opened CsiCalls
  import opened CsiInterrupts

  /** No address is in the queue twice. */
  predicate Distinct(h: Handle)
    requires h.userRead < |h.queue| && h.userWrite < |h.queue|
  {
    forall i, j :: 0 <= i < j < Held(h) ==> Entry(h, i) != Entry(h, j)
  }

  /** Fetched frames are the first reported ones, and the full buffers hold the others. */
  predicate FramesMatch(w: World)
    requires Wf(w)
  {
    && |w.log.captured| == |w.log.delivered| + Full(w.h)
    && w.log.delivered <= w.log.captured
    && forall k :: 0 <= k < Full(w.h) ==>
         Read(w.dev.memory, Entry(w.h, k)) == w.log.captured[|w.log.delivered| + k]
  }

  predicate Sound(w: World) {
    Inv(w) && Distinct(w.h) && FramesMatch(w)
  }

  /** The application submits a buffer that the queue still holds. */
  predicate Resubmits(w: World, op: UserOp)
    requires Wf(w)
  {
    op.Submit? && exists k :: 0 <= k < Held(w.h) && Entry(w.h, k) == op.buffer
  }

  /** The register the driver has not reloaded still points at a full buffer. */
  predicate StaleRegister(w: World)
    requires Wf(w)
  {
    w.h.active == 1 && exists k :: 0 <= k < Full(w.h) && Entry(w.h, k) == w.dev.fb[1 - w.dev.filling]
  }

  /** Steps that change neither the full buffers nor what the user sees. */
  lemma DriverMovesKeepFrames(w: World, w': World)
    requires Sound(w) && Inv(w')
    requires w'.h.queue == w.h.queue && w'.h.userRead == w.h.userRead && w'.h.userWrite == w.h.userWrite
    requires w'.h.drvWrite == w.h.drvWrite && w'.log == w.log
    requires forall k :: 0 <= k < Full(w.h) ==> Read(w'.dev.memory, Entry(w.h, k)) == Read(w.dev.memory, Entry(w.h, k))
    ensures Sound(w')
  {
    assert forall k :: 0 <= k < Held(w'.h) ==> Entry(w'.h, k) == Entry(w.h, k);
  }

  lemma EnqueueKeepsFrames(w: World, buffer: Address)
    requires Sound(w) && !Resubmits(w, Submit(buffer)) && Held(w.h) < |w.h.queue| - 1
    ensures Sound(Enqueue(w, buffer))
  {
    var h, w' := w.h, Enqueue(w, buffer);
    EnqueueKeeps(w, buffer);
    EnqueueMovesArcs(w, buffer);
    assert Full(w'.h) == Full(h) <= Held(h);
    assert Entry(w'.h, Held(h)) == buffer;
    forall i, j | 0 <= i < j < Held(w'.h) ensures Entry(w'.h, i) != Entry(w'.h, j) {
      assert Entry(w'.h, i) == Entry(h, i);
      if j < Held(h) { assert Entry(w'.h, j) == Entry(h, j); }
    }
  }

  lemma SubmitKeepsSound(b: Build, w: World, buffer: Address)
    requires Sound(w) && !Hazard(b, w, Submit(buffer)) && !Resubmits(w, Submit(buffer))
    ensures Sound(SubmitStep(b, w, buffer).0)
  {
    SubmitTestsAgree(b, w, buffer);
    SubmitKeeps(b, w, buffer);
    if Held(w.h) < |w.h.queue| - 1 {
      EnqueueKeepsFrames(w, buffer);
      DriverMovesKeepFrames(Enqueue(w, buffer), SubmitStep(b, w, buffer).0);
    }
  }

  lemma UserStepKeepsSound(b: Build, w: World, op: UserOp)
    requires Sound(w) && !Hazard(b, w, op) && !Resubmits(w, op)
    ensures Sound(UserStep(b, w, op))
  {
    UserStepExact(b, w, op);
    match op
    case Submit(buffer) => SubmitKeepsSound(b, w, buffer);
    case GetFull => FetchKeepsSound(w);
    case Start => DriverMovesKeepFrames(w, UserStep(b, w, op));
    case Stop => DriverMovesKeepFrames(w, UserStep(b, w, op));
  }

  /** Fetching delivers the oldest frame that was reported and not yet fetched. */
  lemma FetchKeepsSound(w: World)
    requires Sound(w)
    ensures Sound(GetFullStep(w).0)
    ensures Full(w.h) > 0 ==>
              GetFullStep(w).0.log.delivered == w.log.delivered + [w.log.captured[|w.log.delivered|]]
  {
    GetFullKeeps(w);
    if Full(w.h) > 0 {
      FetchMovesArcs(w.h);
      var h, w' := w.h, GetFullStep(w).0;
      assert Read(w.dev.memory, Entry(h, 0)) == w.log.captured[|w.log.delivered|];
      assert forall k :: 0 <= k < Held(w'.h) ==> Entry(w'.h, k) == Entry(h, k + 1);
    }
  }

  lemma CaptureKeepsSound(w: World, frame: Frame)
    requires Sound(w) && Idle(w) && w.dev.running
    ensures Sound(FrameDoneBegin(Capture(w, frame), frame))
  {
    var h, w' := w.h, FrameDoneBegin(Capture(w, frame), frame);
    FrameDoneBeginKeeps(w, frame);
    assert forall k :: 0 <= k < Held(h) ==> Entry(w'.h, k) == Entry(h, k);
    assert Entry(h, Full(h)) == h.queue[h.drvWrite] == w.dev.fb[w.dev.filling];
    assert Full(h) < Held(h);
    forall k | 0 <= k < Full(w'.h)
      ensures Read(w'.dev.memory, Entry(w'.h, k)) == w'.log.captured[|w'.log.delivered| + k]
    {
      if k < Full(h) { assert Entry(h, k) != Entry(h, Full(h)); }
    }
  }

  predicate CallbackFresh(b: Build, w: World, ops: seq<UserOp>)
    requires Wf(w)
    decreases |ops|
  {
    ops == [] || (!Resubmits(w, ops[0]) && CallbackFresh(b, UserStep(b, w, ops[0]), ops[1..]))
  }

  lemma {:induction false} CallbackKeepsSound(b: Build, w: World, ops: seq<UserOp>)
    requires Sound(w) && CallsSafe(b, w, ops) && CallbackFresh(b, w, ops)
    ensures Sound(UserRun(b, w, ops))
    decreases |ops|
  {
    if ops != [] {
      UserStepKeepsSound(b, w, ops[0]);
      CallbackKeepsSound(b, UserStep(b, w, ops[0]), ops[1..]);
    }
  }

  /** A two-flag interrupt may have stored any two frames. It spares every full buffer, whatever
      was stored, if and only if no register the driver has not reloaded points at one. */
  lemma BothDoneExact(w: World)
    requires Sound(w) && Idle(w) && w.dev.running
    ensures (forall f0, f1 :: Sound(BothDoneStep(w, f0, f1))) <==> !StaleRegister(w)
  {
    if StaleRegister(w) {
      var k :| 0 <= k < Full(w.h) && Entry(w.h, k) == w.dev.fb[1 - w.dev.filling];
      var bad := w.log.captured[|w.log.delivered| + k] + 1;
      var w' := BothDoneStep(w, bad, bad);
      assert Entry(w'.h, k) == Entry(w.h, k);
      assert Read(w'.dev.memory, Entry(w'.h, k)) == bad;
      assert !Sound(w');
    } else {
      forall f0, f1 ensures Sound(BothDoneStep(w, f0, f1)) {
        BothDoneSpares(w, f0, f1);
      }
    }
  }

  /** The address belongs to a buffer in flight. */
  predicate IsInFlight(h: Handle, a: Address)
    requires h.userRead < |h.queue| && h.drvWrite < |h.queue| && h.drvRead < |h.queue|
  {
    exists k :: Full(h) <= k < Full(h) + InFlight(h) && k < |h.queue| && Entry(h, k) == a
  }

  /** Once the full buffer behind a stale register has been fetched, the register points into memory
      the application owns. Both addresses that a two-flag interrupt writes are in flight if and only
      if both registers were loaded for the buffers in flight, or hold the same address. */
  lemma BothDoneWritesExact(w: World)
    requires Sound(w) && Idle(w) && w.dev.running
    ensures (forall i :: 0 <= i < 2 ==> IsInFlight(w.h, w.dev.fb[i]))
            <==> w.h.active == 2 || w.dev.fb[0] == w.dev.fb[1]
  {
    var h := w.h;
    assert Full(h) + InFlight(h) <= Held(h);
    assert Entry(h, Full(h)) == h.queue[h.drvWrite] == w.dev.fb[w.dev.filling];
    assert IsInFlight(h, w.dev.fb[w.dev.filling]);
    if h.active == 2 {
      assert Entry(h, Full(h) + 1) == w.dev.fb[1 - w.dev.filling];
      assert IsInFlight(h, w.dev.fb[1 - w.dev.filling]);
    }
  }

  lemma BothDoneSpares(w: World, f0: Frame, f1: Frame)
    requires Sound(w) && Idle(w) && w.dev.running && !StaleRegister(w)
    ensures Sound(BothDoneStep(w, f0, f1))
  {
    BothDoneKeeps(w, f0, f1);
    ArmedBuffersAreNotFull(w);
    DriverMovesKeepFrames(w, BothDoneStep(w, f0, f1));
  }

  lemma ArmedBuffersAreNotFull(w: World)
    requires Sound(w) && Idle(w) && w.dev.running && !StaleRegister(w)
    ensures forall k :: 0 <= k < Full(w.h) ==> Entry(w.h, k) != w.dev.fb[0] && Entry(w.h, k) != w.dev.fb[1]
  {
    var h := w.h;
    assert Entry(h, Full(h)) == h.queue[h.drvWrite];
    if h.active == 2 { assert Entry(h, Full(h) + 1) == h.queue[Next(|h.queue|, h.drvWrite)]; }
    forall k | 0 <= k < Full(h) ensures Entry(h, k) != w.dev.fb[0] && Entry(h, k) != w.dev.fb[1] {
      assert Entry(h, k) != Entry(h, Full(h));
      if h.active == 2 { assert Entry(h, k) != Entry(h, Full(h) + 1); }
    }
  }

  /** The stale register is not a corner case: whenever a frame completes and no empty buffer is
      waiting, the register just completed is left pointing at the newest full buffer. */
  lemma CompletionLeavesStaleRegister(b: Build, w: World, frame: Frame)
    requires Sound(w) && Idle(w) && w.dev.running && w.h.active == 2 && Empties(Repaired, w.h) == 0
    ensures StaleRegister(Step(b, w, FrameDone(frame, [])))
  {
    var h, w' := w.h, Step(b, w, FrameDone(frame, []));
    FrameDoneBeginKeeps(w, frame);
    assert Entry(w'.h, Full(h)) == h.queue[h.drvWrite] == w'.dev.fb[1 - w'.dev.filling];
  }

  lemma FrameDoneEndKeepsSound(b: Build, w: World)
    requires Sound(w) && Settled(b, w)
    ensures Sound(FrameDoneEnd(b, w))
  {
    FrameDoneEndExact(b, w);
    DriverMovesKeepFrames(w, FrameDoneEnd(b, w));
  }

  predicate OpFresh(b: Build, w: World, op: Op)
    requires Wf(w)
  {
    match op
    case User(op) => !Resubmits(w, op)
    case FrameDone(frame, callback) =>
      w.dev.running ==> CallbackFresh(b, FrameDoneBegin(Capture(w, frame), frame), callback)
    case BothDone(_, _) => w.dev.running ==> !StaleRegister(w)
  }

  lemma StepKeepsSound(b: Build, w: World, op: Op)
    requires Sound(w) && Idle(w) && OpSafe(b, w, op) && OpFresh(b, w, op)
    ensures Sound(Step(b, w, op)) && Idle(Step(b, w, op))
  {
    StepKeepsIdle(b, w, op);
    match op
    case User(op) => UserStepKeepsSound(b, w, op);
    case FrameDone(frame, callback) =>
      if w.dev.running {
        CaptureKeepsSound(w, frame);
        FrameDoneBeginKeeps(w, frame);
        var w1 := FrameDoneBegin(Capture(w, frame), frame);
        CallbackKeepsSound(b, w1, callback);
        FrameDoneEndKeepsSound(b, UserRun(b, w1, callback));
      }
    case BothDone(f0, f1) =>
      if w.dev.running { BothDoneSpares(w, f0, f1); }
  }

  predicate RunFresh(b: Build, w: World, ops: seq<Op>)
    requires Wf(w)
    decreases |ops|
  {
    ops == [] || (OpFresh(b, w, ops[0]) && RunFresh(b, Step(b, w, ops[0]), ops[1..]))
  }

  lemma {:induction false} RunKeepsSound(b: Build, w: World, ops: seq<Op>)
    requires Sound(w) && Idle(w) && RunSafe(b, w, ops) && RunFresh(b, w, ops)
    ensures Sound(Run(b, w, ops)) && Idle(Run(b, w, ops))
    decreases |ops|
  {
    if ops != [] {
      StepKeepsSound(b, w, ops[0]);
      RunKeepsSound(b, Step(b, w, ops[0]), ops[1..]);
    }
  }

  /** Over every safe run in which the application submits only buffers the queue does not hold
      and no two-flag interrupt meets a stale register, the frames found in the fetched buffers
      are the reported frames, in order, with none skipped. */
  lemma RunDeliversFramesInOrder(b: Build, n: nat, dev: Device, ops: seq<Op>)
    requires 3 <= n <= 256 && |dev.fb| == 2 && dev.filling < 2
    requires RunSafe(b, Created(n, dev), ops) && RunFresh(b, Created(n, dev), ops)
    ensures var w := Run(b, Created(n, dev), ops);
            && w.log.delivered <= w.log.captured
            && |w.log.captured| - |w.log.delivered| == Full(w.h)
  {
    RunKeepsSound(b, Created(n, dev), ops);
  }
}
