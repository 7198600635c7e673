/** Starting jobs on the DCP channels: any number of threads on one core call dcp_schedule_work,
    are preempted wherever interrupts are enabled, and the hardware finishes jobs at any moment.
    Every register access of the function is a step of its own. */
module DcpSchedule {

  type Thread = nat
  type Channel = c: nat | c < 4
  type Packet = nat

  datatype Status = Success | Again

  /** Where a thread is. `Disabling` is between reading and setting the interrupt mask. */
  datatype Pc =
    | Outside
    | Checking
    | Passed
    | Disabling(saved: bool)
    | Masked(saved: bool)
    | Writing(saved: bool)
    | Starting(saved: bool)
    | Restoring(saved: bool, status: Status)

  /** A call: its number, the arguments, and the mask its caller had. */
  datatype Call = Call(id: nat, channel: Channel, packet: Packet, mask: bool)

  datatype Local = Local(pc: Pc, call: Call)

  /** A write to a channel: of the packet's address into the command pointer, or the one that starts
      the job on the packet the pointer holds. With it, whether the channel was idle and interrupts
      were masked. */
  datatype Job = Job(call: Call, packet: Packet, idle: bool, masked: bool)

  /** A call that has returned: its caller's mask and the mask it left. */
  datatype Return = Return(call: Call, status: Status, mask: bool)

  datatype State = State(threads: map<Thread, Local>, current: Thread, mask: bool,
                         busy: set<Channel>, cmdptr: map<Channel, Packet>,
                         calls: nat, writes: seq<Job>, jobs: seq<Job>, replies: seq<Return>)

  /** One step of the running thread inside the function, or of its code outside; a switch to
      another thread; the end of a job. */
  datatype Action =
    | Enter(channel: Channel, packet: Packet)
    | Advance
    | SetMask(on: bool)
    | Switch(to: Thread)
    | Complete(channel: Channel)

  function Here(s: State): Local
    requires s.current in s.threads
  {
    s.threads[s.current]
  }

  /** Preemption needs interrupts; the mask is the caller's own affair outside the function. */
  predicate Enabled(s: State, a: Action) {
    s.current in s.threads &&
    match a
    case Enter(_, _) => Here(s).pc == Outside
    case SetMask(_) => Here(s).pc == Outside
    case Advance => Here(s).pc != Outside
    case Switch(to) => !s.mask && to in s.threads
    case Complete(channel) => channel in s.busy
  }

  function At(s: State, pc: Pc): State
    requires s.current in s.threads
  {
    s.(threads := s.threads[s.current := Here(s).(pc := pc)])
  }

  function Leave(s: State, status: Status): State
    requires s.current in s.threads
  {
    At(s, Outside).(replies := s.replies + [Return(Here(s).call, status, s.mask)])
  }

  /** dcp_schedule_work, one register access at a time. `recheck` is whether the channel is tested
      again once interrupts are masked, as the source does. */
  function AdvanceStep(recheck: bool, s: State): State
    requires Enabled(s, Advance)
  {
    var t := Here(s);
    match t.pc
    case Outside => s
    case Checking => if t.call.channel in s.busy then Leave(s, Again) else At(s, Passed)
    case Passed => At(s, Disabling(s.mask))
    case Disabling(saved) => At(s, Masked(saved)).(mask := true)
    case Masked(saved) =>
      if recheck && t.call.channel in s.busy then At(s, Restoring(saved, Again)) else At(s, Writing(saved))
    case Writing(saved) =>
      var write := Job(t.call, t.call.packet, t.call.channel !in s.busy, s.mask);
      At(s, Starting(saved)).(cmdptr := s.cmdptr[t.call.channel := t.call.packet], writes := s.writes + [write])
    case Starting(saved) =>
      var packet := if t.call.channel in s.cmdptr then s.cmdptr[t.call.channel] else 0;
      var job := Job(t.call, packet, t.call.channel !in s.busy, s.mask);
      At(s, Restoring(saved, Success)).(busy := s.busy + {t.call.channel}, jobs := s.jobs + [job])
    case Restoring(saved, status) => Leave(s.(mask := saved), status)
  }

  function Step(recheck: bool, s: State, a: Action): State
    requires Enabled(s, a)
  {
    match a
    case Enter(channel, packet) =>
      s.(threads := s.threads[s.current := Local(Checking, Call(s.calls, channel, packet, s.mask))],
         calls := s.calls + 1)
    case SetMask(on) => s.(mask := on)
    case Advance => AdvanceStep(recheck, s)
    case Switch(to) => s.(current := to)
    case Complete(channel) => s.(busy := s.busy - {channel})
  }

  /** Actions that are not enabled do not happen. */
  function Do(recheck: bool, s: State, a: Action): State {
    if Enabled(s, a) then Step(recheck, s, a) else s
  }

  function Run(recheck: bool, s: State, actions: seq<Action>): State
    decreases |actions|
  {
    if actions == [] then s else Run(recheck, Do(recheck, s, actions[0]), actions[1..])
  }

  function Boot(threads: set<Thread>, current: Thread, mask: bool): State {
    State(map t | t in threads :: Local(Outside, Call(0, 0, 0, false)), current, mask, {}, map[], 0, [], [], [])
  }

  // ---------------------------------------------------------------- the invariant

  /** A thread inside the function but not masking: it is running under its caller's mask, or it was
      preempted, so its caller had interrupts enabled. A thread that masks is running. */
  predicate ThreadOk(s: State, t: Thread)
    requires t in s.threads
  {
    var l := s.threads[t];
    match l.pc
    case Outside => true
    case Checking => l.call.id < s.calls && l.call.mask == (t == s.current && s.mask)
    case Passed => l.call.id < s.calls && l.call.mask == (t == s.current && s.mask)
    case Disabling(saved) =>
      l.call.id < s.calls && l.call.mask == (t == s.current && s.mask) && saved == l.call.mask
    case Masked(saved) => l.call.id < s.calls && t == s.current && s.mask && saved == l.call.mask
    case Writing(saved) =>
      l.call.id < s.calls && t == s.current && s.mask && saved == l.call.mask && l.call.channel !in s.busy
    case Starting(saved) =>
      && l.call.id < s.calls && t == s.current && s.mask && saved == l.call.mask && l.call.channel !in s.busy
      && l.call.channel in s.cmdptr && s.cmdptr[l.call.channel] == l.call.packet
    case Restoring(saved, _) => l.call.id < s.calls && t == s.current && s.mask && saved == l.call.mask
  }

  /** The jobs started for call `id`. */
  function JobsOf(jobs: seq<Job>, id: nat): nat {
    if jobs == [] then 0
    else JobsOf(jobs[..|jobs| - 1], id) + (if jobs[|jobs| - 1].call.id == id then 1 else 0)
  }

  /** The job a thread's call should have by now. */
  predicate JobDue(l: Local) { l.pc.Restoring? && l.pc.status == Success }

  ghost predicate Inv(s: State) {
    s.current in s.threads && (forall t :: t in s.threads ==> ThreadOk(s, t)) && Books(s)
  }

  predicate Inside(s: State, t: Thread) { t in s.threads && s.threads[t].pc != Outside }

  /** The books: no two pending or returned calls share a number, a pending call has started one job
      if its start step is done and none otherwise, every packet was written and every job started on an
      idle channel with interrupts masked, and every returned call is in order. */
  ghost predicate Books(s: State) {
    && (forall t, u :: Inside(s, t) && Inside(s, u) && t != u ==> s.threads[t].call.id != s.threads[u].call.id)
    && (forall t :: Inside(s, t) ==>
          JobsOf(s.jobs, s.threads[t].call.id) == if JobDue(s.threads[t]) then 1 else 0)
    && WritesOk(s)
    && (forall j :: 0 <= j < |s.jobs| ==> JobOk(s, s.jobs[j]))
    && (forall r :: 0 <= r < |s.replies| ==> ReturnOk(s, s.replies[r]))
    && (forall r, t :: 0 <= r < |s.replies| && Inside(s, t) ==> s.replies[r].call.id != s.threads[t].call.id)
  }

  /** Every packet was written to the pointer of an idle channel, with interrupts masked. */
  ghost predicate WritesOk(s: State) {
    forall j :: 0 <= j < |s.writes| ==> JobOk(s, s.writes[j])
  }

  /** A job was started on an idle channel, with interrupts masked, on its own caller's packet. */
  ghost predicate JobOk(s: State, job: Job) {
    job.idle && job.masked && job.packet == job.call.packet && job.call.id < s.calls
  }

  /** A returned call left its caller's mask, and started one job if it succeeded and none if not. */
  ghost predicate ReturnOk(s: State, r: Return) {
    && r.call.id < s.calls && r.mask == r.call.mask
    && JobsOf(s.jobs, r.call.id) == if r.status == Success then 1 else 0
  }

  lemma {:induction false} NoJobsAbove(jobs: seq<Job>, id: nat)
    requires forall j :: 0 <= j < |jobs| ==> jobs[j].call.id < id
    ensures JobsOf(jobs, id) == 0
  {
    if jobs != [] { NoJobsAbove(jobs[..|jobs| - 1], id); }
  }

  lemma JobsOfOneMore(jobs: seq<Job>, job: Job, id: nat)
    ensures JobsOf(jobs + [job], id) == JobsOf(jobs, id) + if job.call.id == id then 1 else 0
  {
    assert (jobs + [job])[..|jobs|] == jobs;
  }

  lemma BootInv(threads: set<Thread>, current: Thread, mask: bool)
    requires current in threads
    ensures Inv(Boot(threads, current, mask))
  {
  }

  /** A step inside a call that neither starts its job nor returns. */
  lemma MoveKeepsBooks(s: State, pc: Pc, s': State)
    requires s.current in s.threads && Books(s) && Inside(s, s.current) && !JobDue(Here(s))
    requires s'.threads == s.threads[s.current := Here(s).(pc := pc)]
    requires pc != Outside && !JobDue(Here(s).(pc := pc))
    requires s'.jobs == s.jobs && s'.replies == s.replies && s'.calls == s.calls && WritesOk(s')
    ensures Books(s')
  {
    assert forall t :: Inside(s', t) <==> Inside(s, t);
  }

  lemma LeaveKeepsBooks(s: State, status: Status)
    requires s.current in s.threads && Books(s) && Inside(s, s.current)
    requires status == Success <==> JobDue(Here(s))
    requires s.mask == Here(s).call.mask && Here(s).call.id < s.calls
    ensures Books(Leave(s, status))
  {
    var s' := Leave(s, status);
    assert forall t :: Inside(s', t) ==> Inside(s, t) && t != s.current && s'.threads[t] == s.threads[t];
    forall r | 0 <= r < |s'.replies| ensures ReturnOk(s', s'.replies[r]) {
      if r < |s.replies| { assert ReturnOk(s, s.replies[r]); }
    }
  }

  lemma StartKeepsBooks(s: State)
    requires s.current in s.threads && Books(s) && ThreadOk(s, s.current) && Here(s).pc.Starting?
    ensures Books(AdvanceStep(true, s))
  {
    var s' := AdvanceStep(true, s);
    var job := s'.jobs[|s.jobs|];
    assert s'.jobs == s.jobs + [job];
    forall id ensures JobsOf(s'.jobs, id) == JobsOf(s.jobs, id) + if job.call.id == id then 1 else 0 {
      JobsOfOneMore(s.jobs, job, id);
    }
    assert forall t :: Inside(s', t) <==> Inside(s, t);
    forall r | 0 <= r < |s'.replies| ensures ReturnOk(s', s'.replies[r]) {
      assert ReturnOk(s, s.replies[r]) && s.replies[r].call.id != Here(s).call.id;
    }
  }

  lemma AdvanceKeepsBooks(s: State)
    requires Inv(s) && Enabled(s, Advance)
    ensures Books(AdvanceStep(true, s))
  {
    assert ThreadOk(s, s.current);
    var l, s' := Here(s), AdvanceStep(true, s);
    if l.pc.Starting? {
      StartKeepsBooks(s);
    } else if l.pc.Restoring? {
      LeaveKeepsBooks(s.(mask := l.pc.saved), l.pc.status);
    } else if l.pc.Checking? && l.call.channel in s.busy {
      LeaveKeepsBooks(s, Again);
    } else {
      MoveKeepsBooks(s, Here(s').pc, s');
    }
  }

  lemma AdvanceKeepsInv(s: State)
    requires Inv(s) && Enabled(s, Advance)
    ensures Inv(AdvanceStep(true, s))
  {
    AdvanceKeepsBooks(s);
    var s' := AdvanceStep(true, s);
    assert ThreadOk(s, s.current);
    forall t | t in s'.threads ensures ThreadOk(s', t) {
      assert ThreadOk(s, t);
    }
  }

  lemma EnterKeepsInv(s: State, a: Action)
    requires Inv(s) && Enabled(s, a) && a.Enter?
    ensures Inv(Step(true, s, a))
  {
    var s' := Step(true, s, a);
    NoJobsAbove(s.jobs, s.calls);
    forall t | t in s'.threads ensures ThreadOk(s', t) { if t in s.threads { assert ThreadOk(s, t); } }
    forall t | Inside(s, t) ensures s.threads[t].call.id < s.calls { assert ThreadOk(s, t); }
    assert forall t :: Inside(s', t) && t != s.current ==> Inside(s, t);
    forall r | 0 <= r < |s'.replies| ensures ReturnOk(s', s'.replies[r]) { assert ReturnOk(s, s.replies[r]); }
  }

  lemma StepKeepsInv(s: State, a: Action)
    requires Inv(s) && Enabled(s, a)
    ensures Inv(Step(true, s, a))
  {
    var s' := Step(true, s, a);
    assert ThreadOk(s, s.current);
    match a
    case Advance => AdvanceKeepsInv(s);
    case Enter(_, _) => EnterKeepsInv(s, a);
    case _ =>
      forall t | t in s'.threads ensures ThreadOk(s', t) { assert ThreadOk(s, t); }
      assert forall t :: Inside(s', t) <==> Inside(s, t);
      forall r | 0 <= r < |s'.replies| ensures ReturnOk(s', s'.replies[r]) { assert ReturnOk(s, s.replies[r]); }
  }

  lemma {:induction false} RunKeepsInv(s: State, actions: seq<Action>)
    requires Inv(s)
    ensures Inv(Run(true, s, actions))
    decreases |actions|
  {
    if actions != [] {
      if Enabled(s, actions[0]) { StepKeepsInv(s, actions[0]); }
      RunKeepsInv(Do(true, s, actions[0]), actions[1..]);
    }
  }

  /** For every number of threads and every schedule, preemption and completion at any moment
      included: a packet is written and a job is started only on an idle channel, with interrupts
      masked, and the packet is that of the call; a call that returned Success started exactly one
      job, one that returned Again none; and every call leaves the interrupt mask its caller had. */
  lemma EveryScheduleIsSafe(threads: set<Thread>, current: Thread, mask: bool, actions: seq<Action>)
    requires current in threads
    ensures var s := Run(true, Boot(threads, current, mask), actions);
            && WritesOk(s)
            && (forall j :: 0 <= j < |s.jobs| ==> JobOk(s, s.jobs[j]))
            && (forall r :: 0 <= r < |s.replies| ==> ReturnOk(s, s.replies[r]))
  {
    BootInv(threads, current, mask);
    RunKeepsInv(Boot(threads, current, mask), actions);
  }

  // ---------------------------------------------------------------- the second test is needed

  function Advances(recheck: bool, s: State, n: nat): State
    decreases n
  {
    if n == 0 || !Enabled(s, Advance) then s else Advances(recheck, AdvanceStep(recheck, s), n - 1)
  }

  lemma AdvancesMore(recheck: bool, s: State, n: nat)
    requires n > 0 && Enabled(s, Advance)
    ensures Advances(recheck, s, n) == Advances(recheck, AdvanceStep(recheck, s), n - 1)
  {
  }

  lemma AdvancesLast(recheck: bool, s: State)
    requires Enabled(s, Advance)
    ensures Advances(recheck, s, 1) == AdvanceStep(recheck, s)
  {
  }

  /** A call that is not disturbed, on an idle channel. */
  lemma SoloCallSucceeds(recheck: bool, s: State)
    requires s.current in s.threads && Here(s).pc == Checking && Here(s).call.channel !in s.busy
    ensures var call := Here(s).call;
            Advances(recheck, s, 7)
            == s.(threads := s.threads[s.current := Local(Outside, call)],
                  busy := s.busy + {call.channel}, cmdptr := s.cmdptr[call.channel := call.packet],
                  writes := s.writes + [Job(call, call.packet, true, true)],
                  jobs := s.jobs + [Job(call, call.packet, true, true)],
                  replies := s.replies + [Return(call, Success, s.mask)])
  {
    hide Advances;
    SoloCallMasks(recheck, s);
    SoloCallStarts(recheck, Advances(recheck, s, 3), s.mask);
  }

  lemma SoloCallStarts(recheck: bool, s: State, saved: bool)
    requires s.current in s.threads && Here(s).pc == Masked(saved) && Here(s).call.channel !in s.busy && s.mask
    ensures var call := Here(s).call;
            Advances(recheck, s, 4)
            == s.(threads := s.threads[s.current := Local(Outside, call)], mask := saved,
                  busy := s.busy + {call.channel}, cmdptr := s.cmdptr[call.channel := call.packet],
                  writes := s.writes + [Job(call, call.packet, true, true)],
                  jobs := s.jobs + [Job(call, call.packet, true, true)],
                  replies := s.replies + [Return(call, Success, saved)])
  {
    hide Advances;
    var s1 := AdvanceStep(recheck, s);
    var s2 := AdvanceStep(recheck, s1);
    var s3 := AdvanceStep(recheck, s2);
    var s4 := AdvanceStep(recheck, s3);
    assert Here(s1).pc == Writing(saved) && Here(s2).pc == Starting(saved);
    assert Here(s3).pc == Restoring(saved, Success);
    AdvancesMore(recheck, s, 4);
    AdvancesMore(recheck, s1, 3);
    AdvancesMore(recheck, s2, 2);
    AdvancesLast(recheck, s3);
    assert s4.threads == s.threads[s.current := Local(Outside, Here(s).call)];
  }

  lemma SoloCallMasks(recheck: bool, s: State)
    requires s.current in s.threads && Here(s).pc == Checking && Here(s).call.channel !in s.busy
    ensures Advances(recheck, s, 3)
            == s.(threads := s.threads[s.current := Local(Masked(s.mask), Here(s).call)], mask := true)
    ensures Advances(recheck, s, 7) == Advances(recheck, Advances(recheck, s, 3), 4)
  {
    hide Advances;
    var s1 := AdvanceStep(recheck, s);
    var s2 := AdvanceStep(recheck, s1);
    var s3 := AdvanceStep(recheck, s2);
    assert Here(s1).pc == Passed && Here(s2).pc == Disabling(s.mask) && Here(s3).pc == Masked(s.mask);
    assert s3.threads == s.threads[s.current := Local(Masked(s.mask), Here(s).call)];
    AdvancesMore(recheck, s, 3);
    AdvancesMore(recheck, s1, 2);
    AdvancesLast(recheck, s2);
    AdvancesMore(recheck, s, 7);
    AdvancesMore(recheck, s1, 6);
    AdvancesMore(recheck, s2, 5);
  }

  /** A call that finds its channel busy at the first test returns Again at once, and touches neither
      the channel nor the mask. */
  lemma BusyCallIsRefused(recheck: bool, s: State)
    requires s.current in s.threads && Here(s).pc == Checking && Here(s).call.channel in s.busy
    ensures AdvanceStep(recheck, s)
            == s.(threads := s.threads[s.current := Local(Outside, Here(s).call)],
                  replies := s.replies + [Return(Here(s).call, Again, s.mask)])
  {
  }

  /** The first test alone is not enough: once its answer is stale, a call without the second test
      starts a job on a busy channel, and the call with it returns Again. */
  lemma StaleFirstTest(s: State)
    requires s.current in s.threads && Here(s).pc == Passed && Here(s).call.channel in s.busy
    ensures var s' := Advances(false, s, 5);
            |s'.jobs| == |s.jobs| + 1 && !s'.jobs[|s.jobs|].idle
    ensures var s' := Advances(true, s, 4);
            s'.jobs == s.jobs && s'.replies == s.replies + [Return(Here(s).call, Again, s.mask)]
  {
    hide Advances;
    var f1 := AdvanceStep(false, s);
    var f2 := AdvanceStep(false, f1);
    var f3 := AdvanceStep(false, f2);
    var f4 := AdvanceStep(false, f3);
    assert Here(f3).pc == Writing(s.mask) && Here(f4).pc == Starting(s.mask);
    AdvancesMore(false, s, 5);
    AdvancesMore(false, f1, 4);
    AdvancesMore(false, f2, 3);
    AdvancesMore(false, f3, 2);
    AdvancesLast(false, f4);
    SecondTestAnswers(s);
  }

  lemma SecondTestAnswers(s: State)
    requires s.current in s.threads && Here(s).pc == Passed && Here(s).call.channel in s.busy
    ensures var s' := Advances(true, s, 4);
            s'.jobs == s.jobs && s'.replies == s.replies + [Return(Here(s).call, Again, s.mask)]
  {
    hide Advances;
    var r1 := AdvanceStep(true, s);
    var r2 := AdvanceStep(true, r1);
    var r3 := AdvanceStep(true, r2);
    assert Here(r3).pc == Restoring(s.mask, Again);
    AdvancesMore(true, s, 4);
    AdvancesMore(true, r1, 3);
    AdvancesMore(true, r2, 2);
    AdvancesLast(true, r3);
  }

  /** The stale answer is reachable: a thread passes the first test, is preempted by one that runs
      the whole function on the same channel, and comes back while that job is running. */
  lemma StaleFirstTestIsReachable(channel: Channel, p: Packet, q: Packet)
    ensures var s0 := Boot({0, 1}, 0, false);
            var s1 := Do(true, Do(true, Do(true, s0, Enter(channel, p)), Advance), Switch(1));
            var s2 := Advances(true, Do(true, s1, Enter(channel, q)), 7);
            var s3 := Do(true, s2, Switch(0));
            && s3.current in s3.threads && Here(s3).pc == Passed
            && Here(s3).call.channel in s3.busy && Here(s3).call.packet == p
  {
    var s0 := Boot({0, 1}, 0, false);
    var s1 := Do(true, Do(true, Do(true, s0, Enter(channel, p)), Advance), Switch(1));
    SoloCallSucceeds(true, Do(true, s1, Enter(channel, q)));
  }
}
