/** The application's calls on the camera queue: what each keeps and does, and exactly when a call breaks
    the queue. */
module CsiCalls {
  import opened CsiQueue

  /** The calls that break the queue, in terms of what a caller can see before calling.
      In the written build, a full ring whose write index is one below its read index is taken
      for a ring with room, and one empty buffer in the last slot for more than two. In either
      build, starting a transfer that already has buffers in flight forgets them. */
  predicate Hazard(b: Build, w: World, op: UserOp)
    requires Wf(w)
  {
    var h := w.h;
    var last := |h.queue| - 1;
    match op
    case Submit(_) =>
      b.AsWritten? &&
      (|| h.userWrite + 1 == h.userRead
       || (h.started && !h.onGoing && h.drvRead == h.userWrite == last && h.userRead != 0))
    case Start =>
      || (h.active >= 1 && Empties(b, h) >= 2)
      || (b.AsWritten? && h.drvRead == last && h.userWrite == 0)
    case _ => false
  }

  /** In a queue, what was accepted is what was returned followed by what is held. */
  lemma FifoContents(w: World)
    requires Wf(w) && Fifo(w)
    ensures w.log.accepted == w.log.returned + Contents(w.h)
  {
  }

  /** Moving only the driver's indices keeps the queue, as long as the arcs still tile. */
  lemma DriverMovesKeepFifo(w: World, w': World)
    requires Wf(w) && Wf(w') && Fifo(w)
    requires w'.h.queue == w.h.queue && w'.h.userRead == w.h.userRead && w'.h.userWrite == w.h.userWrite
    requires w'.log.accepted == w.log.accepted && w'.log.returned == w.log.returned
    requires ArcsTile(w'.h)
    ensures Fifo(w')
  {
    assert forall k :: 0 <= k < Held(w'.h) ==> Entry(w'.h, k) == Entry(w.h, k);
  }

  /** Without a hazard, the full test and the resume test decide as the ring distance would. */
  lemma SubmitTestsAgree(b: Build, w: World, buffer: Address)
    requires Wf(w) && ArcsTile(w.h) && !Hazard(b, w, Submit(buffer))
    ensures Delta(b, |w.h.queue|, w.h.userRead, w.h.userWrite) == |w.h.queue| - 1
            <==> Held(w.h) == |w.h.queue| - 1
    ensures Held(w.h) < |w.h.queue| - 1 && w.h.started && !w.h.onGoing ==>
              (Empties(b, Enqueue(w, buffer).h) >= 2 <==> Empties(Repaired, w.h) >= 1)
  {
  }

  /** Submitting adds one buffer to the empty arc and leaves the entries before it. */
  lemma EnqueueMovesArcs(w: World, buffer: Address)
    requires Wf(w) && ArcsTile(w.h) && Held(w.h) < |w.h.queue| - 1
    ensures var h' := Enqueue(w, buffer).h;
            && ArcsTile(h') && Held(h') == Held(w.h) + 1
            && Empties(Repaired, h') == Empties(Repaired, w.h) + 1
            && forall k :: 0 <= k < Held(w.h) ==> Entry(h', k) == Entry(w.h, k)
  {
  }

  lemma EnqueueKeeps(w: World, buffer: Address)
    requires Inv(w) && Held(w.h) < |w.h.queue| - 1
    ensures Inv(Enqueue(w, buffer))
    ensures Held(Enqueue(w, buffer).h) == Held(w.h) + 1
    ensures Empties(Repaired, Enqueue(w, buffer).h) == Empties(Repaired, w.h) + 1
  {
    var h, w' := w.h, Enqueue(w, buffer);
    EnqueueMovesArcs(w, buffer);
    forall k | 0 <= k < Held(w'.h) ensures Entry(w'.h, k) == w'.log.accepted[|w'.log.returned| + k] {
      if k == Held(h) { assert Wrap(|h.queue|, h.userRead + k) == h.userWrite; }
    }
  }

  /** Loading moves one buffer from the empty arc to the in-flight arc. */
  lemma LoadMovesArcs(h: Handle)
    requires h.userWrite < |h.queue| && h.drvRead < |h.queue| && h.drvWrite < |h.queue|
    requires h.drvRead != h.userWrite && InFlight(h) + Empties(Repaired, h) < |h.queue|
    ensures var h' := h.(drvRead := Next(|h.queue|, h.drvRead));
            InFlight(h') == InFlight(h) + 1 && Empties(Repaired, h') == Empties(Repaired, h) - 1
  {
  }

  /** Loading two buffers into an idle device, from any state of its registers. */
  lemma LoadTwoKeeps(w: World)
    requires Wf(w) && Fifo(w) && w.h.active == 0 && w.h.next == 0 && w.h.onGoing
    requires Empties(Repaired, w.h) >= 2
    ensures Inv(LoadTwoAndRun(w)) && LoadTwoAndRun(w).h.active == 2
  {
    DriverMovesKeepFifo(w, LoadTwoAndRun(w));
  }

  /** Loading more buffers than are waiting cuts the ring. */
  lemma LoadTwoBreaks(w: World)
    requires Wf(w) && w.h.active == 0 && w.h.next == 0
    requires InFlight(w.h) != 0 || Empties(Repaired, w.h) < 2
    requires InFlight(w.h) <= 2 && Full(w.h) + InFlight(w.h) + Empties(Repaired, w.h) == Held(w.h)
    ensures !ArcsTile(LoadTwoAndRun(w).h)
  {
  }

  /** Frames arrive, the first of them through register 0. */
  predicate Receiving(w: World) { w.h.onGoing && w.dev.running && w.dev.filling == 0 }

  lemma SubmitKeeps(b: Build, w: World, buffer: Address)
    requires Inv(w) && !Hazard(b, w, Submit(buffer))
    ensures var (w', status) := SubmitStep(b, w, buffer);
            && Inv(w')
            && status == (if Held(w.h) == |w.h.queue| - 1 then QueueFull else Success)
            && (status == QueueFull ==> w' == w)
            && (status == Success ==>
                  && w'.log == w.log.(accepted := w.log.accepted + [buffer]) && Held(w'.h) == Held(w.h) + 1
                  && Full(w'.h) == Full(w.h) && w'.h.started == w.h.started
                  && if w.h.started && !w.h.onGoing && Empties(Repaired, w.h) >= 1
                     then Receiving(w') && w'.h.active == 2
                     else w'.h.onGoing == w.h.onGoing && w'.h.active == w.h.active)
  {
    SubmitTestsAgree(b, w, buffer);
    if Held(w.h) < |w.h.queue| - 1 {
      EnqueueKeeps(w, buffer);
      var w1 := Enqueue(w, buffer);
      if w1.h.started && !w1.h.onGoing && Empties(Repaired, w1.h) >= 2 {
        var w2 := w1.(h := w1.h.(onGoing := true, next := 0));
        DriverMovesKeepFifo(w1, w2);
        LoadTwoKeeps(w2);
      }
    }
  }

  lemma SubmitBreaks(b: Build, w: World, buffer: Address)
    requires Inv(w) && Hazard(b, w, Submit(buffer))
    ensures !Inv(SubmitStep(b, w, buffer).0)
  {
    var w1 := Enqueue(w, buffer);
    if w.h.userWrite + 1 == w.h.userRead {
      assert Held(SubmitStep(b, w, buffer).0.h) == 0;
    } else {
      LoadTwoBreaks(w1.(h := w1.h.(onGoing := true, next := 0)));
    }
  }

  lemma StartKeeps(b: Build, w: World)
    requires Inv(w) && !Hazard(b, w, Start)
    ensures var (w', status) := StartStep(b, w);
            && Inv(w')
            && status == (if Empties(Repaired, w.h) < 2 then NoEmptyBuffer else Success)
            && (status == NoEmptyBuffer ==> w' == w)
            && (status == Success ==> w'.h.started && Receiving(w') && w'.h.active == 2 && w'.log == w.log)
  {
    if Empties(Repaired, w.h) >= 2 {
      var w1 := w.(h := w.h.(next := 0, active := 0, started := true, onGoing := true));
      assert w.h.active == 0 && Empties(b, w.h) >= 2;
      DriverMovesKeepFifo(w, w1);
      LoadTwoKeeps(w1);
      assert StartStep(b, w) == (LoadTwoAndRun(w1), Success);
    }
  }

  lemma StartBreaks(b: Build, w: World)
    requires Inv(w) && Hazard(b, w, Start)
    ensures !Inv(StartStep(b, w).0)
  {
    assert Empties(b, w.h) >= 2;
    var w1 := w.(h := w.h.(next := 0, active := 0));
    assert InFlight(w1.h) != 0 || Empties(Repaired, w1.h) < 2;
    LoadTwoBreaks(w1);
  }

  lemma FetchMovesArcs(h: Handle)
    requires h.userRead < |h.queue| && h.userWrite < |h.queue| && h.drvRead < |h.queue| && h.drvWrite < |h.queue|
    requires ArcsTile(h) && h.userRead != h.drvWrite
    ensures var h' := h.(userRead := Next(|h.queue|, h.userRead));
            && ArcsTile(h') && Held(h') == Held(h) - 1 && Full(h') == Full(h) - 1
            && forall k :: 0 <= k < Held(h') ==> Entry(h', k) == Entry(h, k + 1)
  {
  }

  lemma GetFullKeeps(w: World)
    requires Inv(w)
    ensures var (w', status, a) := GetFullStep(w);
            && Inv(w')
            && if Full(w.h) == 0 then w' == w && status == NoFullBuffer
               else
                 && status == Success && a == Entry(w.h, 0) && Full(w'.h) == Full(w.h) - 1
                 && w'.log.returned == w.log.returned + [a] && w'.dev == w.dev
  {
    if Full(w.h) > 0 {
      FetchMovesArcs(w.h);
      assert Entry(w.h, 0) == w.log.accepted[|w.log.returned|];
    }
  }

  /** Stopping returns every in-flight buffer to the empty arc and loses none. */
  lemma StopKeeps(w: World)
    requires Inv(w)
    ensures Inv(StopStep(w))
    ensures var w' := StopStep(w);
            !w'.h.started && !w'.h.onGoing && !w'.dev.running && w'.h.active == 0 && w'.log == w.log
    ensures Full(StopStep(w).h) == Full(w.h)
    ensures Empties(Repaired, StopStep(w).h) == InFlight(w.h) + Empties(Repaired, w.h)
  {
    DriverMovesKeepFifo(w, StopStep(w));
  }

  /** An application call preserves the queue if and only if it is not a hazard. */
  lemma UserStepExact(b: Build, w: World, op: UserOp)
    requires Inv(w)
    ensures Inv(UserStep(b, w, op)) <==> !Hazard(b, w, op)
  {
    match op
    case Submit(buffer) =>
      if Hazard(b, w, op) { SubmitBreaks(b, w, buffer); } else { SubmitKeeps(b, w, buffer); }
    case GetFull => GetFullKeeps(w);
    case Start =>
      if Hazard(b, w, op) { StartBreaks(b, w); } else { StartKeeps(b, w); }
    case Stop => StopKeeps(w);
  }

  lemma UserStepKeepsIdle(b: Build, w: World, op: UserOp)
    requires Idle(w) && !Hazard(b, w, op)
    ensures Idle(UserStep(b, w, op))
  {
    UserStepExact(b, w, op);
  }
}
