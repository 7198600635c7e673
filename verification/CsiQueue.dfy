/** The frame-buffer queue of the camera driver, as a state machine on values.

    One ring of addresses is shared by the application (which submits empty buffers and fetches
    full ones), by the interrupt handler, and by a DMA engine with two address registers.
    `CsiQueueDriver` refines these functions with a class that updates its fields in place. */
module CsiQueue {

  type Address = nat
  type Frame = int

  /** Which ring subtraction is compiled in: the one in the repository, whose wrapped branch
      swaps the operands, or the one its comments describe. */
  datatype Build = AsWritten | Repaired

  /** The driver handle. Indices and counters are 8-bit fields of the source. */
  datatype Handle = Handle(queue: seq<Address>,
                           userRead: nat, userWrite: nat, drvRead: nat, drvWrite: nat,
                           active: nat, next: nat, started: bool, onGoing: bool)

  /** The camera module: two DMA address registers, the register the next frame goes to,
      whether it is receiving, and the memory it writes. */
  datatype Device = Device(fb: seq<Address>, filling: nat, running: bool, memory: map<Address, Frame>)

  /** What the application and the camera have seen so far. */
  datatype Log = Log(accepted: seq<Address>, returned: seq<Address>,
                     captured: seq<Frame>, delivered: seq<Frame>)

  datatype World = World(h: Handle, dev: Device, log: Log)

  datatype Status = Success | NoEmptyBuffer | QueueFull | NoFullBuffer

  datatype UserOp = Submit(buffer: Address) | GetFull | Start | Stop

  /** An application call, or one interrupt. A single-flag interrupt reports the frame that was
      just stored and runs the application's callback; a two-flag interrupt means both registers
      were filled before the handler ran. */
  datatype Op = User(op: UserOp) | FrameDone(frame: Frame, callback: seq<UserOp>) | BothDone(f0: Frame, f1: Frame)

  // ---------------------------------------------------------------- ring arithmetic

  function Next(n: nat, i: nat): nat { if i + 1 >= n then 0 else i + 1 }

  /** The ring subtraction of line 140, as compiled by build `b`. */
  function Delta(b: Build, n: nat, start: nat, end: nat): nat
    requires start < n && end < n
  {
    if end >= start then end - start
    else match b
      case AsWritten => start + n - end
      case Repaired => end + n - start
  }

  /** The index reached from `i` by `k` increments. */
  function Advance(n: nat, i: nat, k: nat): nat
    decreases k
  {
    if k == 0 then i else Advance(n, Next(n, i), k - 1)
  }

  function Wrap(n: nat, i: nat): nat { if i >= n then i - n else i }

  lemma {:induction false} AdvanceWraps(n: nat, i: nat, k: nat)
    requires i < n && k <= n
    ensures Advance(n, i, k) == Wrap(n, i + k)
    decreases k
  {
    if k > 0 { AdvanceWraps(n, Next(n, i), k - 1); }
  }

  /** `d` is the number of increments that lead from `start` to `end`. */
  ghost predicate RingDistance(n: nat, start: nat, end: nat, d: nat) {
    d < n && Advance(n, start, d) == end
  }

  /** The repaired subtraction is the ring distance for every pair of indices; the written one
      is the ring distance exactly when the indices have not wrapped. */
  lemma DeltaIsRingDistance(n: nat, start: nat, end: nat)
    requires start < n && end < n
    ensures RingDistance(n, start, end, Delta(Repaired, n, start, end))
    ensures RingDistance(n, start, end, Delta(AsWritten, n, start, end)) <==> start <= end
    ensures start > end ==> Delta(AsWritten, n, start, end) == 2 * n - Delta(Repaired, n, start, end)
    ensures forall d: nat :: RingDistance(n, start, end, d) ==> d == Delta(Repaired, n, start, end)
  {
    forall d: nat | d < n ensures Advance(n, start, d) == Wrap(n, start + d) {
      AdvanceWraps(n, start, d);
    }
  }

  // ---------------------------------------------------------------- the driver's steps

  predicate Wf(w: World) {
    var n := |w.h.queue|;
    && 3 <= n <= 256
    && w.h.userRead < n && w.h.userWrite < n && w.h.drvRead < n && w.h.drvWrite < n
    && w.h.next < 2 && |w.dev.fb| == 2 && w.dev.filling < 2
  }

  function Empties(b: Build, h: Handle): nat
    requires h.drvRead < |h.queue| && h.userWrite < |h.queue|
  {
    Delta(b, |h.queue|, h.drvRead, h.userWrite)
  }

  function Read(memory: map<Address, Frame>, a: Address): Frame {
    if a in memory then memory[a] else 0
  }

  /** A freshly created handle, in front of a stopped device. */
  function Created(n: nat, dev: Device): World
  {
    World(Handle(seq(n, _ => 0), 0, 0, 0, 0, 0, 0, false, false), dev.(running := false), Log([], [], [], []))
  }

  /** 8-bit increment and decrement. */
  function Inc8(x: nat): nat { if x >= 255 then 0 else x + 1 }
  function Dec8(x: nat): nat { if x == 0 then 255 else x - 1 }

  /** Hand the oldest empty buffer to the device. */
  function LoadBuffer(w: World): (r: World)
    requires Wf(w)
    ensures Wf(r) && |r.h.queue| == |w.h.queue|
  {
    w.(h := w.h.(drvRead := Next(|w.h.queue|, w.h.drvRead), active := Inc8(w.h.active), next := 1 - w.h.next),
       dev := w.dev.(fb := w.dev.fb[w.h.next := w.h.queue[w.h.drvRead]]))
  }

  /** Load two buffers from register 0 on, reset the DMA and run. */
  function LoadTwoAndRun(w: World): (r: World)
    requires Wf(w)
    ensures Wf(r) && |r.h.queue| == |w.h.queue|
  {
    var w' := LoadBuffer(LoadBuffer(w));
    w'.(dev := w'.dev.(filling := 0, running := true))
  }

  function StartStep(b: Build, w: World): (r: (World, Status))
    requires Wf(w)
    ensures Wf(r.0) && |r.0.h.queue| == |w.h.queue|
  {
    if Empties(b, w.h) < 2 then (w, NoEmptyBuffer)
    else
      var w' := LoadTwoAndRun(w.(h := w.h.(next := 0, active := 0)));
      (w'.(h := w'.h.(started := true, onGoing := true)), Success)
  }

  function StopStep(w: World): (r: World)
    requires Wf(w)
    ensures Wf(r) && |r.h.queue| == |w.h.queue|
  {
    w.(h := w.h.(started := false, onGoing := false, drvRead := w.h.drvWrite, active := 0),
       dev := w.dev.(running := false))
  }

  function Enqueue(w: World, buffer: Address): (r: World)
    requires Wf(w)
    ensures Wf(r) && |r.h.queue| == |w.h.queue|
  {
    w.(h := w.h.(queue := w.h.queue[w.h.userWrite := buffer], userWrite := Next(|w.h.queue|, w.h.userWrite)),
       log := w.log.(accepted := w.log.accepted + [buffer]))
  }

  /** Restart a transfer that ran out of buffers, if two are waiting. */
  function Resume(b: Build, w: World): (r: World)
    requires Wf(w)
    ensures Wf(r) && |r.h.queue| == |w.h.queue|
  {
    if w.h.started && !w.h.onGoing && Empties(b, w.h) >= 2 then
      LoadTwoAndRun(w.(h := w.h.(onGoing := true, next := 0)))
    else w
  }

  function SubmitStep(b: Build, w: World, buffer: Address): (r: (World, Status))
    requires Wf(w)
    ensures Wf(r.0) && |r.0.h.queue| == |w.h.queue|
  {
    if Delta(b, |w.h.queue|, w.h.userRead, w.h.userWrite) == |w.h.queue| - 1 then (w, QueueFull)
    else (Resume(b, Enqueue(w, buffer)), Success)
  }

  function GetFullStep(w: World): (r: (World, Status, Address))
    requires Wf(w)
    ensures Wf(r.0) && |r.0.h.queue| == |w.h.queue|
  {
    if w.h.userRead == w.h.drvWrite then (w, NoFullBuffer, 0)
    else
      var a := w.h.queue[w.h.userRead];
      (w.(h := w.h.(userRead := Next(|w.h.queue|, w.h.userRead)),
          log := w.log.(returned := w.log.returned + [a], delivered := w.log.delivered + [Read(w.dev.memory, a)])),
       Success, a)
  }

  function UserStep(b: Build, w: World, op: UserOp): (r: World)
    requires Wf(w)
    ensures Wf(r) && |r.h.queue| == |w.h.queue|
  {
    match op
    case Submit(buffer) => SubmitStep(b, w, buffer).0
    case GetFull => GetFullStep(w).0
    case Start => StartStep(b, w).0
    case Stop => StopStep(w)
  }

  function UserRun(b: Build, w: World, ops: seq<UserOp>): (r: World)
    requires Wf(w)
    ensures Wf(r) && |r.h.queue| == |w.h.queue|
    decreases |ops|
  {
    if ops == [] then w else UserRun(b, UserStep(b, w, ops[0]), ops[1..])
  }

  /** The camera stores a frame through the register being filled and moves to the other one. */
  function Capture(w: World, frame: Frame): (r: World)
    requires Wf(w)
    ensures Wf(r) && |r.h.queue| == |w.h.queue|
  {
    w.(dev := w.dev.(memory := w.dev.memory[w.dev.fb[w.dev.filling] := frame], filling := 1 - w.dev.filling))
  }

  /** First half of the single-flag handler, up to the callback. */
  function FrameDoneBegin(w: World, frame: Frame): (r: World)
    requires Wf(w)
    ensures Wf(r) && |r.h.queue| == |w.h.queue|
  {
    w.(h := w.h.(drvWrite := Next(|w.h.queue|, w.h.drvWrite), active := Dec8(w.h.active)),
       log := w.log.(captured := w.log.captured + [frame]))
  }

  /** Second half of the single-flag handler, after the callback. */
  function FrameDoneEnd(b: Build, w: World): (r: World)
    requires Wf(w)
    ensures Wf(r) && |r.h.queue| == |w.h.queue|
  {
    if w.h.active == 0 then w.(h := w.h.(onGoing := false), dev := w.dev.(running := false))
    else if Empties(b, w.h) != 0 then LoadBuffer(w)
    else w
  }

  /** The camera fills both registers' buffers before the handler runs. */
  function CaptureBoth(w: World, f0: Frame, f1: Frame): (r: World)
    requires Wf(w)
    ensures Wf(r) && |r.h.queue| == |w.h.queue|
  {
    w.(dev := w.dev.(memory := w.dev.memory[w.dev.fb[0] := f0][w.dev.fb[1] := f1]))
  }

  /** The two-flag handler: which frame came last is unknown, so the same buffers are armed again. */
  function BothDoneHandler(w: World): (r: World)
    requires Wf(w)
    ensures Wf(r) && |r.h.queue| == |w.h.queue|
  {
    var w := w.(dev := w.dev.(filling := 0, running := true));
    if w.h.active == 0 then w
    else
      var first := w.h.queue[w.h.drvWrite];
      if w.h.active == 2 then
        var second := w.h.queue[Next(|w.h.queue|, w.h.drvWrite)];
        w.(h := w.h.(next := 0), dev := w.dev.(fb := [first, second]))
      else
        w.(h := w.h.(next := 1), dev := w.dev.(fb := w.dev.fb[0 := first]))
  }

  function BothDoneStep(w: World, f0: Frame, f1: Frame): (r: World)
    requires Wf(w)
    ensures Wf(r) && |r.h.queue| == |w.h.queue|
  {
    BothDoneHandler(CaptureBoth(w, f0, f1))
  }

  /** A stopped camera raises no interrupt. */
  function Step(b: Build, w: World, op: Op): (r: World)
    requires Wf(w)
    ensures Wf(r) && |r.h.queue| == |w.h.queue|
  {
    match op
    case User(op) => UserStep(b, w, op)
    case FrameDone(frame, callback) =>
      if !w.dev.running then w
      else FrameDoneEnd(b, UserRun(b, FrameDoneBegin(Capture(w, frame), frame), callback))
    case BothDone(f0, f1) =>
      if !w.dev.running then w else BothDoneStep(w, f0, f1)
  }

  function Run(b: Build, w: World, ops: seq<Op>): (r: World)
    requires Wf(w)
    ensures Wf(r) && |r.h.queue| == |w.h.queue|
    decreases |ops|
  {
    if ops == [] then w else Run(b, Step(b, w, ops[0]), ops[1..])
  }

  // ---------------------------------------------------------------- the invariant

  function Full(h: Handle): nat
    requires h.userRead < |h.queue| && h.drvWrite < |h.queue|
  {
    Delta(Repaired, |h.queue|, h.userRead, h.drvWrite)
  }

  function InFlight(h: Handle): nat
    requires h.drvRead < |h.queue| && h.drvWrite < |h.queue|
  {
    Delta(Repaired, |h.queue|, h.drvWrite, h.drvRead)
  }

  function Held(h: Handle): nat
    requires h.userRead < |h.queue| && h.userWrite < |h.queue|
  {
    Delta(Repaired, |h.queue|, h.userRead, h.userWrite)
  }

  /** The three arcs full, in flight and empty tile the ring from the user's read index to the
      user's write index, and the counter of active buffers is the length of the middle one. */
  predicate ArcsTile(h: Handle)
    requires h.userRead < |h.queue| && h.userWrite < |h.queue| && h.drvRead < |h.queue| && h.drvWrite < |h.queue|
  {
    && Full(h) + InFlight(h) + Empties(Repaired, h) == Held(h)
    && InFlight(h) == h.active <= 2
  }

  /** While frames arrive, the register being filled holds the oldest in-flight buffer, the other
      one holds the next, and the next register to load is the first one not in flight. */
  predicate RegistersMatch(h: Handle, dev: Device)
    requires h.drvWrite < |h.queue| && |dev.fb| == 2 && dev.filling < 2
  {
    && (h.active >= 1 ==> dev.fb[dev.filling] == h.queue[h.drvWrite])
    && (h.active == 2 ==> dev.fb[1 - dev.filling] == h.queue[Next(|h.queue|, h.drvWrite)])
    && (dev.running ==> h.next == if h.active == 1 then 1 - dev.filling else dev.filling)
  }

  /** Buffer `k`, counted from the oldest one the queue holds. */
  function Entry(h: Handle, k: nat): Address
    requires h.userRead < |h.queue| && k < |h.queue|
  {
    h.queue[Wrap(|h.queue|, h.userRead + k)]
  }

  /** Everything accepted and not yet returned, oldest first. */
  function Contents(h: Handle): seq<Address>
    requires h.userRead < |h.queue| && h.userWrite < |h.queue|
  {
    seq(Held(h), k requires 0 <= k < Held(h) => Entry(h, k))
  }

  /** The ring is a first-in first-out queue of the accepted buffers. */
  predicate Fifo(w: World)
    requires Wf(w)
  {
    && ArcsTile(w.h)
    && w.log.returned <= w.log.accepted
    && |w.log.accepted| == |w.log.returned| + Held(w.h)
    && forall k :: 0 <= k < Held(w.h) ==> Entry(w.h, k) == w.log.accepted[|w.log.returned| + k]
  }

  /** Holds at every point the application can observe, its callback included. */
  predicate Inv(w: World) {
    && Wf(w)
    && Fifo(w)
    && RegistersMatch(w.h, w.dev)
    && w.dev.running == w.h.onGoing
    && (w.h.active >= 1 ==> w.h.onGoing)
  }

  /** Outside the handler, a running camera has a buffer to fill. */
  predicate Idle(w: World) {
    Inv(w) && (w.h.onGoing ==> w.h.active >= 1)
  }

  lemma CreatedIsIdle(n: nat, dev: Device)
    requires 3 <= n <= 256 && |dev.fb| == 2 && dev.filling < 2
    ensures Idle(Created(n, dev))
  {
  }
}
