/** Whole runs of the camera queue: when the camera goes on receiving, and runs that go wrong. */
module CsiQueueRuns {
  import opened CsiQueue
  import opened CsiCalls
  import opened CsiInterrupts

  // ---------------------------------------------------------------- the camera goes on

  /** A started transfer is not left stopped while two buffers wait. */
  predicate Awake(w: World)
    requires Wf(w)
  {
    w.h.started && !w.h.onGoing ==> Empties(Repaired, w.h) < 2
  }

  /** The callback leaves no buffer in flight but two waiting. The transfer still counts as ongoing when
      it submits them, so nothing resumes it, and the handler then stops the camera. */
  predicate Stalls(w: World)
    requires Wf(w)
  {
    w.h.active == 0 && w.h.started && Empties(Repaired, w.h) >= 2
  }

  lemma UserStepKeepsAwake(b: Build, w: World, op: UserOp)
    requires Idle(w) && Awake(w) && !Hazard(b, w, op)
    ensures Awake(UserStep(b, w, op))
  {
    match op
    case Submit(buffer) => SubmitKeeps(b, w, buffer);
    case GetFull => GetFullKeeps(w);
    case Start => StartKeeps(b, w);
    case Stop => StopKeeps(w);
  }

  /** A completed frame leaves the transfer awake if and only if its callback does not stall it. */
  lemma FrameDoneAwakeExact(b: Build, w: World, frame: Frame, callback: seq<UserOp>)
    requires Idle(w) && w.dev.running && OpSafe(b, w, FrameDone(frame, callback))
    ensures Awake(Step(b, w, FrameDone(frame, callback)))
            <==> !Stalls(UserRun(b, FrameDoneBegin(Capture(w, frame), frame), callback))
  {
    FrameDoneUsesBuffers(b, w, frame, callback);
    FrameDoneBeginKeeps(w, frame);
    var w1 := FrameDoneBegin(Capture(w, frame), frame);
    CallbackKeeps(b, w1, callback);
    FrameDoneEndReloads(b, UserRun(b, w1, callback));
  }

  predicate OpAwake(b: Build, w: World, op: Op)
    requires Wf(w)
  {
    op.FrameDone? && w.dev.running ==> !Stalls(UserRun(b, FrameDoneBegin(Capture(w, op.frame), op.frame), op.callback))
  }

  predicate RunAwake(b: Build, w: World, ops: seq<Op>)
    requires Wf(w)
    decreases |ops|
  {
    ops == [] || (OpAwake(b, w, ops[0]) && RunAwake(b, Step(b, w, ops[0]), ops[1..]))
  }

  /** Over every safe run whose callbacks do not stall it, the camera is never left stopped while two
      buffers wait. */
  lemma {:induction false} RunStaysAwake(b: Build, w: World, ops: seq<Op>)
    requires Idle(w) && Awake(w) && RunSafe(b, w, ops) && RunAwake(b, w, ops)
    ensures Awake(Run(b, w, ops))
    decreases |ops|
  {
    if ops != [] {
      StepKeepsIdle(b, w, ops[0]);
      match ops[0] {
        case User(op) => UserStepKeepsAwake(b, w, op);
        case FrameDone(frame, callback) => if w.dev.running { FrameDoneAwakeExact(b, w, frame, callback); }
        case BothDone(f0, f1) => if w.dev.running { BothDoneRearms(w, f0, f1); }
      }
      RunStaysAwake(b, Step(b, w, ops[0]), ops[1..]);
    }
  }

  /** Two buffers submitted from the callback of the last frame in flight do stall it, in either build. */
  lemma SubmittingInCallbackStalls(b: Build, dev: Device, f: Frame, g: Frame)
    requires |dev.fb| == 2 && dev.filling < 2
    ensures var ops := [User(Submit(10)), User(Submit(11)), User(Start), FrameDone(f, []),
                        FrameDone(g, [Submit(12), Submit(13)])];
            var w := Run(b, Created(5, dev), ops);
            w.h.started && !w.h.onGoing && Empties(Repaired, w.h) == 2
  {
    var w0 := Created(5, dev);
    RunFive(b, w0, User(Submit(10)), User(Submit(11)), User(Start), FrameDone(f, []),
            FrameDone(g, [Submit(12), Submit(13)]));
    var w2 := Step(b, Step(b, w0, User(Submit(10))), User(Submit(11)));
    assert w2.h == Handle([10, 11, 0, 0, 0], 0, 2, 0, 0, 0, 0, false, false);
    var w3 := Step(b, w2, User(Start));
    assert w3.h == Handle([10, 11, 0, 0, 0], 0, 2, 2, 0, 2, 0, true, true);
    var w4 := Step(b, w3, FrameDone(f, []));
    assert w4.h == Handle([10, 11, 0, 0, 0], 0, 2, 2, 1, 1, 0, true, true);
    LastFrameStalls(b, w4, g);
  }

  lemma LastFrameStalls(b: Build, w: World, g: Frame)
    requires Wf(w) && w.dev.running && w.h == Handle([10, 11, 0, 0, 0], 0, 2, 2, 1, 1, 0, true, true)
    ensures var w' := Step(b, w, FrameDone(g, [Submit(12), Submit(13)]));
            w'.h.started && !w'.h.onGoing && Empties(Repaired, w'.h) == 2
  {
    var w5 := FrameDoneBegin(Capture(w, g), g);
    var ops := [Submit(12), Submit(13)];
    assert ops[1..] == [Submit(13)] && ops[1..][1..] == [];
    var w6 := UserStep(b, w5, Submit(12));
    assert w6.h == Handle([10, 11, 12, 0, 0], 0, 3, 2, 2, 0, 0, true, true);
    assert UserRun(b, w5, ops) == UserStep(b, w6, Submit(13));
  }

  /** The written build with the default queue size of two: the ring is full and wrapped, three
      more submissions are taken, and the application is then handed a buffer that was submitted
      out of turn and holds no frame. */
  lemma WrittenBuildReturnsWrongBuffer(dev: Device, f: Frame, g: Frame)
    requires |dev.fb| == 2 && dev.filling < 2
    ensures var w := Run(AsWritten, Created(3, dev), FillingOps(f) + OverrunOps(g));
            w.log.accepted == [10, 11, 12, 13, 14] && w.log.returned == [10, 14]
  {
    FillingRun(dev, f);
    RunConcat(AsWritten, Created(3, dev), FillingOps(f), OverrunOps(g));
    OverrunRun(Run(AsWritten, Created(3, dev), FillingOps(f)), g);
  }

  function FillingOps(f: Frame): seq<Op> {
    [User(Submit(10)), User(Submit(11)), User(Start), FrameDone(f, []), User(GetFull)]
  }

  function OverrunOps(g: Frame): seq<Op> {
    [User(Submit(12)), User(Submit(13)), User(Submit(14)), FrameDone(g, []), User(GetFull)]
  }

  lemma {:induction false} RunConcat(b: Build, w: World, ops: seq<Op>, more: seq<Op>)
    requires Wf(w)
    ensures Run(b, w, ops + more) == Run(b, Run(b, w, ops), more)
    decreases |ops|
  {
    if ops == [] {
      assert ops + more == more;
    } else {
      assert (ops + more)[1..] == ops[1..] + more;
      RunConcat(b, Step(b, w, ops[0]), ops[1..], more);
    }
  }

  lemma RunFour(b: Build, w: World, o0: Op, o1: Op, o2: Op, o3: Op)
    requires Wf(w)
    ensures Run(b, w, [o0, o1, o2, o3]) == Step(b, Step(b, Step(b, Step(b, w, o0), o1), o2), o3)
  {
    RunConcat(b, w, [o0], [o1, o2, o3]);
    RunConcat(b, Step(b, w, o0), [o1], [o2, o3]);
    RunConcat(b, Step(b, Step(b, w, o0), o1), [o2], [o3]);
    assert [o0, o1, o2, o3] == [o0] + [o1, o2, o3] && [o1, o2, o3] == [o1] + [o2, o3] && [o2, o3] == [o2] + [o3];
  }

  lemma RunFive(b: Build, w: World, o0: Op, o1: Op, o2: Op, o3: Op, o4: Op)
    requires Wf(w)
    ensures Run(b, w, [o0, o1, o2, o3, o4])
            == Step(b, Step(b, Step(b, Step(b, Step(b, w, o0), o1), o2), o3), o4)
  {
    RunConcat(b, w, [o0], [o1, o2, o3, o4]);
    RunFour(b, Step(b, w, o0), o1, o2, o3, o4);
    assert [o0, o1, o2, o3, o4] == [o0] + [o1, o2, o3, o4];
  }

  /** One frame captured and fetched, one buffer in flight. */
  predicate OneFetched(w: World) {
    && Wf(w) && w.dev.running && w.h.started && w.h.onGoing
    && w.h.queue == [10, 11, 0]
    && w.h.userRead == 1 && w.h.drvWrite == 1 && w.h.drvRead == 2 && w.h.userWrite == 2 && w.h.active == 1
    && w.log.accepted == [10, 11] && w.log.returned == [10]
  }

  lemma FillingRun(dev: Device, f: Frame)
    requires |dev.fb| == 2 && dev.filling < 2
    ensures OneFetched(Run(AsWritten, Created(3, dev), FillingOps(f)))
  {
    RunFive(AsWritten, Created(3, dev), User(Submit(10)), User(Submit(11)), User(Start), FrameDone(f, []), User(GetFull));
    var w2 := Step(AsWritten, Step(AsWritten, Created(3, dev), User(Submit(10))), User(Submit(11)));
    assert w2.h == Handle([10, 11, 0], 0, 2, 0, 0, 0, 0, false, false);
    var w3 := Step(AsWritten, w2, User(Start));
    assert w3.h == Handle([10, 11, 0], 0, 2, 2, 0, 2, 0, true, true);
    var w4 := Step(AsWritten, w3, FrameDone(f, []));
    assert w4.h == Handle([10, 11, 0], 0, 2, 2, 1, 1, 0, true, true);
  }

  lemma OverrunRun(w: World, g: Frame)
    requires OneFetched(w)
    ensures var w' := Run(AsWritten, w, OverrunOps(g));
            w'.log.accepted == [10, 11, 12, 13, 14] && w'.log.returned == [10, 14]
  {
    RunFive(AsWritten, w, User(Submit(12)), User(Submit(13)), User(Submit(14)), FrameDone(g, []), User(GetFull));
    var w2 := Step(AsWritten, Step(AsWritten, w, User(Submit(12))), User(Submit(13)));
    assert w2.h.queue == [13, 11, 12] && w2.h.userWrite == 1;
    var w3 := Step(AsWritten, w2, User(Submit(14)));
    assert w3.h.queue == [13, 14, 12] && w3.log.accepted == [10, 11, 12, 13, 14];
    var w4 := Step(AsWritten, w3, FrameDone(g, []));
    assert w4.h.drvWrite == 2 && w4.h.queue == [13, 14, 12];
  }

  // ---------------------------------------------------------------- a restart from the callback

  /** Even the repaired build goes wrong when the callback stops and restarts the transfer with three
      buffers waiting, though neither call is a hazard: the handler loads a third buffer over the one
      being filled. The next frame is stored in the last buffer, and the application is handed one
      that holds no frame. */
  lemma RestartInCallbackDeliversWrongFrame(dev: Device, f: Frame, g: Frame)
    requires |dev.fb| == 2 && dev.filling < 2
    ensures var w0 := Run(Repaired, Created(5, dev), QueueingOps());
            && CallsSafe(Repaired, FrameDoneBegin(Capture(w0, f), f), [Stop, Start])
            && !Idle(Step(Repaired, w0, FrameDone(f, [Stop, Start])))
            && var w := Run(Repaired, w0, RestartOps(f, g));
               w.log.captured == [f, g] && w.log.returned == [10, 11]
               && w.log.delivered == [f, Read(dev.memory, 11)] && Read(w.dev.memory, 13) == g
  {
    var w0 := Run(Repaired, Created(5, dev), QueueingOps());
    QueueingRun(dev);
    RestartStep(dev, w0, f);
    hide CallsSafe, Idle;
    RunFour(Repaired, w0, FrameDone(f, [Stop, Start]), User(GetFull), FrameDone(g, []), User(GetFull));
    WrongFrame(dev, Step(Repaired, w0, FrameDone(f, [Stop, Start])), f, g);
  }

  /** What the restart leaves: three buffers in flight, and the third where the first should be. */
  predicate Overloaded(dev: Device, w: World, f: Frame) {
    && w.h == Handle([10, 11, 12, 13, 0], 0, 4, 4, 1, 3, 1, true, true)
    && w.dev == Device([13, 12], 0, true, dev.memory[10 := f])
    && w.log == Log([10, 11, 12, 13], [], [f], [])
  }

  lemma WrongFrame(dev: Device, w: World, f: Frame, g: Frame)
    requires Overloaded(dev, w, f)
    ensures Wf(w)
    ensures var w' := Step(Repaired, Step(Repaired, Step(Repaired, w, User(GetFull)), FrameDone(g, [])), User(GetFull));
            && w'.log.captured == [f, g] && w'.log.returned == [10, 11]
            && w'.log.delivered == [f, Read(dev.memory, 11)] && Read(w'.dev.memory, 13) == g
  {
    var w2 := Step(Repaired, w, User(GetFull));
    assert w2.h == Handle([10, 11, 12, 13, 0], 1, 4, 4, 1, 3, 1, true, true);
    var w3 := Step(Repaired, w2, FrameDone(g, []));
    assert w3.h == Handle([10, 11, 12, 13, 0], 1, 4, 4, 2, 2, 1, true, true);
  }

  function QueueingOps(): seq<Op> {
    [User(Submit(10)), User(Submit(11)), User(Submit(12)), User(Submit(13)), User(Start)]
  }

  function RestartOps(f: Frame, g: Frame): seq<Op> {
    [FrameDone(f, [Stop, Start]), User(GetFull), FrameDone(g, []), User(GetFull)]
  }

  /** Four buffers accepted, the first two in flight. */
  predicate Queueing(dev: Device, w: World) {
    && Wf(w)
    && w.h == Handle([10, 11, 12, 13, 0], 0, 4, 2, 0, 2, 0, true, true)
    && w.dev == Device([10, 11], 0, true, dev.memory)
    && w.log == Log([10, 11, 12, 13], [], [], [])
  }

  lemma QueueingRun(dev: Device)
    requires |dev.fb| == 2 && dev.filling < 2
    ensures Queueing(dev, Run(Repaired, Created(5, dev), QueueingOps()))
  {
    var w0 := Created(5, dev);
    RunFive(Repaired, w0, User(Submit(10)), User(Submit(11)), User(Submit(12)), User(Submit(13)), User(Start));
    var w2 := Step(Repaired, Step(Repaired, w0, User(Submit(10))), User(Submit(11)));
    assert w2.h == Handle([10, 11, 0, 0, 0], 0, 2, 0, 0, 0, 0, false, false);
    var w4 := Step(Repaired, Step(Repaired, w2, User(Submit(12))), User(Submit(13)));
    assert w4.h == Handle([10, 11, 12, 13, 0], 0, 4, 0, 0, 0, 0, false, false);
  }

  lemma RestartStep(dev: Device, w: World, f: Frame)
    requires Queueing(dev, w)
    ensures CallsSafe(Repaired, FrameDoneBegin(Capture(w, f), f), [Stop, Start])
    ensures var w' := Step(Repaired, w, FrameDone(f, [Stop, Start]));
            !Idle(w') && Overloaded(dev, w', f)
  {
    var w1 := FrameDoneBegin(Capture(w, f), f);
    var w2 := StopStep(w1);
    assert w2.h == Handle([10, 11, 12, 13, 0], 0, 4, 1, 1, 0, 0, false, false);
    var w3 := StartStep(Repaired, w2).0;
    assert w3.h == Handle([10, 11, 12, 13, 0], 0, 4, 3, 1, 2, 0, true, true);
    assert w3.dev == Device([11, 12], 0, true, dev.memory[10 := f]);
    var ops := [Stop, Start];
    assert ops[1..] == [Start] && ops[1..][1..] == [];
    assert UserRun(Repaired, w1, ops) == UserRun(Repaired, w2, [Start]) == w3;
    assert CallsSafe(Repaired, w2, ops[1..]);
  }
}
