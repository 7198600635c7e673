/** Whole runs of the hash driver: many contexts, on the same or on different channels, with their
    calls interleaved in any order on one engine. */
module DcpHashRuns {
  import opened DcpHash

  /** The calls, by context. `memory` is what the caller's memory held before Init. */
  datatype Op =
    | Begin(id: nat, algo: Algo, channel: Channel, memory: Context)
    | Feed(id: nat, input: seq<Byte>)
    | End(id: nat, output: seq<Byte>, size: Option<nat>)

  /** What a Finish gave back, and to which context. */
  datatype Reply = Reply(id: nat, output: seq<Byte>, size: Option<nat>)

  datatype World = World(dcp: Dcp, ctxs: map<nat, Context>, replies: seq<Reply>)

  predicate WorldOk(w: World) {
    DcpOk(w.dcp) && forall id :: id in w.ctxs ==> ContextOk(w.ctxs[id])
  }

  /** The calls a caller may make: on a context it has begun and not ended, with buffers that exist. */
  predicate Legal(w: World, op: Op) {
    match op
    case Begin(_, _, _, memory) => ContextOk(memory)
    case Feed(id, input) => id in w.ctxs && Addressable(input)
    case End(id, output, size) =>
      id in w.ctxs && |output| >= Written(w.ctxs[id].algo, w.ctxs[id].fullMessageSize == 0, size)
  }

  function Step(e: Engine, w: World, op: Op): (w': World)
    requires EngineOk(e) && WorldOk(w) && Legal(w, op)
    ensures WorldOk(w')
  {
    match op
    case Begin(id, algo, channel, memory) => w.(ctxs := w.ctxs[id := Init(memory, algo, channel)])
    case Feed(id, input) =>
      var (d, c) := Update(e, w.dcp, w.ctxs[id], input);
      w.(dcp := d, ctxs := w.ctxs[id := c])
    case End(id, output, size) =>
      var r := Finish(e, w.dcp, w.ctxs[id], output, size);
      World(r.dcp, if r.ctx.Some? then w.ctxs[id := r.ctx.value] else w.ctxs - {id},
            w.replies + [Reply(id, r.output, r.size)])
  }

  /** Calls that are not legal where they stand are not made. */
  function Run(e: Engine, w: World, ops: seq<Op>): (w': World)
    requires EngineOk(e) && WorldOk(w)
    ensures WorldOk(w')
    decreases |ops|
  {
    if ops == [] then w
    else Run(e, if Legal(w, ops[0]) then Step(e, w, ops[0]) else w, ops[1..])
  }

  // ---------------------------------------------------------------- the specification

  /** A context, for the specification, is a message. */
  datatype Message = Message(algo: Algo, msg: seq<Byte>)
  datatype Spec = Spec(messages: map<nat, Message>, replies: seq<Reply>)

  predicate SpecLegal(s: Spec, op: Op) {
    match op
    case Begin(_, _, _, memory) => ContextOk(memory)
    case Feed(id, input) => id in s.messages && Addressable(input)
    case End(id, output, size) =>
      id in s.messages && |output| >= Written(s.messages[id].algo, |s.messages[id].msg| % TWO32 == 0, size)
  }

  function SpecStep(e: Engine, s: Spec, op: Op): Spec
    requires EngineOk(e) && SpecLegal(s, op)
  {
    match op
    case Begin(id, algo, _, _) => s.(messages := s.messages[id := Message(algo, [])])
    case Feed(id, input) =>
      var m := s.messages[id];
      s.(messages := s.messages[id := m.(msg := m.msg + input)])
    case End(id, output, size) =>
      var m := s.messages[id];
      var (o, n) := Answer(e, m.algo, m.msg, output, size);
      Spec(if |m.msg| % TWO32 == 0 then s.messages else s.messages - {id}, s.replies + [Reply(id, o, n)])
  }

  function SpecRun(e: Engine, s: Spec, ops: seq<Op>): Spec
    requires EngineOk(e)
    decreases |ops|
  {
    if ops == [] then s
    else SpecRun(e, if SpecLegal(s, ops[0]) then SpecStep(e, s, ops[0]) else s, ops[1..])
  }

  /** Every context carries its message; the shared buffer and the engine's history are free. */
  ghost predicate Related(e: Engine, w: World, s: Spec) {
    && WorldOk(w)
    && w.ctxs.Keys == s.messages.Keys
    && w.replies == s.replies
    && forall id :: id in s.messages ==> Carrying(e, w.ctxs[id], s.messages[id])
  }

  ghost predicate Carrying(e: Engine, c: Context, m: Message) {
    c.algo == m.algo && exists ps :: Tracks(e, c, m.msg, ps)
  }

  lemma FeedRefines(e: Engine, w: World, s: Spec, op: Op)
    requires EngineOk(e) && Related(e, w, s) && op.Feed? && Legal(w, op)
    ensures Related(e, Step(e, w, op), SpecStep(e, s, op))
  {
    var c, m := w.ctxs[op.id], s.messages[op.id];
    assert Carrying(e, c, m);
    var ps :| Tracks(e, c, m.msg, ps);
    UpdateTracks(e, w.dcp, c, op.input, m.msg, ps);
    assert Carrying(e, Update(e, w.dcp, c, op.input).1, m.(msg := m.msg + op.input));
  }

  lemma EndRefines(e: Engine, w: World, s: Spec, op: Op)
    requires EngineOk(e) && Related(e, w, s) && op.End? && Legal(w, op)
    ensures Related(e, Step(e, w, op), SpecStep(e, s, op))
  {
    hide Finish, Answer, Tracks, EngineOk;
    var c, m := w.ctxs[op.id], s.messages[op.id];
    assert Carrying(e, c, m);
    var ps :| Tracks(e, c, m.msg, ps);
    FinishAnswers(e, w.dcp, c, op.output, op.size, m.msg, ps);
  }

  lemma StepRefines(e: Engine, w: World, s: Spec, op: Op)
    requires EngineOk(e) && Related(e, w, s)
    ensures Legal(w, op) <==> SpecLegal(s, op)
    ensures Legal(w, op) ==> Related(e, Step(e, w, op), SpecStep(e, s, op))
  {
    if op.End? && op.id in s.messages { assert Carrying(e, w.ctxs[op.id], s.messages[op.id]); }
    if Legal(w, op) {
      match op
      case Begin(id, algo, channel, memory) =>
        InitTracks(e, memory, algo, channel);
        assert Carrying(e, Init(memory, algo, channel), Message(algo, []));
      case Feed(_, _) => FeedRefines(e, w, s, op);
      case End(_, _, _) => EndRefines(e, w, s, op);
    }
  }

  /** The driver gives exactly the replies of the specification, for every sequence of calls. */
  lemma {:induction false} RunRefines(e: Engine, w: World, s: Spec, ops: seq<Op>)
    requires EngineOk(e) && Related(e, w, s)
    ensures Related(e, Run(e, w, ops), SpecRun(e, s, ops))
    decreases |ops|
  {
    if ops != [] {
      StepRefines(e, w, s, ops[0]);
      if Legal(w, ops[0]) {
        RunRefines(e, Step(e, w, ops[0]), SpecStep(e, s, ops[0]), ops[1..]);
      } else {
        RunRefines(e, w, s, ops[1..]);
      }
    }
  }

  // ---------------------------------------------------------------- interleaving

  /** The calls on one context, in order, and the replies to it. */
  function Only(ops: seq<Op>, id: nat): seq<Op> {
    if ops == [] then [] else (if ops[0].id == id then [ops[0]] else []) + Only(ops[1..], id)
  }

  function RepliesTo(rs: seq<Reply>, id: nat): seq<Reply> {
    if rs == [] then []
    else RepliesTo(rs[..|rs| - 1], id) + (if rs[|rs| - 1].id == id then [rs[|rs| - 1]] else [])
  }

  ghost predicate SameFor(s: Spec, t: Spec, id: nat) {
    && (id in s.messages <==> id in t.messages)
    && (id in s.messages ==> s.messages[id] == t.messages[id])
    && RepliesTo(s.replies, id) == RepliesTo(t.replies, id)
  }

  lemma SpecStepOther(e: Engine, s: Spec, t: Spec, op: Op, id: nat)
    requires EngineOk(e) && SameFor(s, t, id) && op.id != id && SpecLegal(s, op)
    ensures SameFor(SpecStep(e, s, op), t, id)
  {
    var rs := SpecStep(e, s, op).replies;
    if op.End? { assert rs[..|rs| - 1] == s.replies; }
  }

  lemma SpecStepSame(e: Engine, s: Spec, t: Spec, op: Op)
    requires EngineOk(e) && SameFor(s, t, op.id) && SpecLegal(s, op)
    ensures SpecLegal(t, op) && SameFor(SpecStep(e, s, op), SpecStep(e, t, op), op.id)
  {
    if op.End? {
      var rs, rt := SpecStep(e, s, op).replies, SpecStep(e, t, op).replies;
      assert rs[..|rs| - 1] == s.replies && rt[..|rt| - 1] == t.replies;
    }
  }

  lemma {:induction false} SpecRunAlone(e: Engine, s: Spec, t: Spec, ops: seq<Op>, id: nat)
    requires EngineOk(e) && SameFor(s, t, id)
    ensures SameFor(SpecRun(e, s, ops), SpecRun(e, t, Only(ops, id)), id)
    decreases |ops|
  {
    if ops != [] {
      var op, rest := ops[0], ops[1..];
      var s' := if SpecLegal(s, op) then SpecStep(e, s, op) else s;
      if op.id == id {
        var t' := if SpecLegal(t, op) then SpecStep(e, t, op) else t;
        if SpecLegal(s, op) { SpecStepSame(e, s, t, op); }
        assert Only(ops, id)[1..] == Only(rest, id);
        SpecRunAlone(e, s', t', rest, id);
      } else {
        if SpecLegal(s, op) { SpecStepOther(e, s, t, op, id); }
        assert Only(ops, id) == Only(rest, id);
        SpecRunAlone(e, s', t, rest, id);
      }
    }
  }

  /** However the calls of any number of contexts interleave, on whatever channels, each context
      gets the replies it would get if its calls ran alone, on another engine in any state. */
  lemma InterleavingIsInvisible(e: Engine, d: Dcp, alone: Dcp, ops: seq<Op>, id: nat)
    requires EngineOk(e) && DcpOk(d) && DcpOk(alone)
    ensures RepliesTo(Run(e, World(d, map[], []), ops).replies, id)
            == RepliesTo(Run(e, World(alone, map[], []), Only(ops, id)).replies, id)
  {
    var s := Spec(map[], []);
    RunRefines(e, World(d, map[], []), s, ops);
    RunRefines(e, World(alone, map[], []), s, Only(ops, id));
    SpecRunAlone(e, s, s, ops, id);
  }

  // ---------------------------------------------------------------- one message, any chunks

  function Concat(chunks: seq<seq<Byte>>): seq<Byte> {
    if chunks == [] then [] else chunks[0] + Concat(chunks[1..])
  }

  function Feeds(id: nat, chunks: seq<seq<Byte>>): seq<Op> {
    if chunks == [] then [] else [Feed(id, chunks[0])] + Feeds(id, chunks[1..])
  }

  predicate AllAddressable(chunks: seq<seq<Byte>>) {
    forall i :: 0 <= i < |chunks| ==> Addressable(chunks[i])
  }

  lemma {:induction false} SpecFeeds(e: Engine, s: Spec, id: nat, chunks: seq<seq<Byte>>, last: Op)
    requires EngineOk(e) && id in s.messages && AllAddressable(chunks)
    requires last.End? && last.id == id
    requires |last.output| >= Written(s.messages[id].algo, |s.messages[id].msg + Concat(chunks)| % TWO32 == 0, last.size)
    ensures SpecRun(e, s, Feeds(id, chunks) + [last]).replies ==
              var m := s.messages[id];
              var (o, n) := Answer(e, m.algo, m.msg + Concat(chunks), last.output, last.size);
              s.replies + [Reply(id, o, n)]
    decreases |chunks|
  {
    var m := s.messages[id];
    var ops := Feeds(id, chunks) + [last];
    if chunks == [] {
      assert m.msg + [] == m.msg && ops == [last] && ops[1..] == [];
    } else {
      assert ops[0] == Feed(id, chunks[0]) && ops[1..] == Feeds(id, chunks[1..]) + [last];
      assert m.msg + Concat(chunks) == (m.msg + chunks[0]) + Concat(chunks[1..]);
      SpecFeeds(e, SpecStep(e, s, ops[0]), id, chunks[1..], last);
    }
  }

  function StreamOps(id: nat, algo: Algo, channel: Channel, memory: Context,
                     chunks: seq<seq<Byte>>, output: seq<Byte>, size: Option<nat>): seq<Op>
  {
    [Begin(id, algo, channel, memory)] + (Feeds(id, chunks) + [End(id, output, size)])
  }

  /** Init, one Update for each chunk, Finish: the answer is that of the concatenated message. */
  lemma StreamAnswers(e: Engine, d: Dcp, id: nat, algo: Algo, channel: Channel, memory: Context,
                      chunks: seq<seq<Byte>>, output: seq<Byte>, size: Option<nat>)
    requires EngineOk(e) && DcpOk(d) && ContextOk(memory) && AllAddressable(chunks)
    requires |output| >= Written(algo, |Concat(chunks)| % TWO32 == 0, size)
    ensures var ops := StreamOps(id, algo, channel, memory, chunks, output, size);
            var (o, n) := Answer(e, algo, Concat(chunks), output, size);
            Run(e, World(d, map[], []), ops).replies == [Reply(id, o, n)]
  {
    var s, first, last := Spec(map[], []), Begin(id, algo, channel, memory), End(id, output, size);
    var ops := [first] + (Feeds(id, chunks) + [last]);
    RunRefines(e, World(d, map[], []), s, ops);
    assert ops[0] == first && ops[1..] == Feeds(id, chunks) + [last];
    SpecFeeds(e, SpecStep(e, s, first), id, chunks, last);
    assert [] + Concat(chunks) == Concat(chunks);
  }

  /** Streaming in any chunks equals DCP_HASH, which hands the whole message over at once. */
  lemma StreamingEqualsOneShot(e: Engine, d: Dcp, d': Dcp, id: nat, algo: Algo, channel: Channel, channel': Channel,
                               memory: Context, chunks: seq<seq<Byte>>, output: seq<Byte>, size: Option<nat>)
    requires EngineOk(e) && DcpOk(d) && DcpOk(d') && ContextOk(memory)
    requires |output| >= Written(algo, |Concat(chunks)| % TWO32 == 0, size)
    requires AllAddressable(chunks) && Addressable(Concat(chunks))
    ensures Run(e, World(d, map[], []), StreamOps(id, algo, channel, memory, chunks, output, size)).replies
            == Run(e, World(d', map[], []), StreamOps(id, algo, channel', memory, [Concat(chunks)], output, size)).replies
  {
    var one := [Concat(chunks)];
    ConcatOne(Concat(chunks));
    StreamAnswers(e, d, id, algo, channel, memory, chunks, output, size);
    StreamAnswers(e, d', id, algo, channel', memory, one, output, size);
  }

  lemma ConcatOne(chunk: seq<Byte>)
    ensures Concat([chunk]) == chunk
  {
    assert [chunk][1..] == [] && chunk + [] == chunk;
  }

  // ---------------------------------------------------------------- the packets of a message

  function FeedAll(e: Engine, d: Dcp, c: Context, chunks: seq<seq<Byte>>): (r: (Dcp, Context))
    requires EngineOk(e) && DcpOk(d) && ContextOk(c) && AllAddressable(chunks)
    ensures DcpOk(r.0) && ContextOk(r.1) && r.1.algo == c.algo
    decreases |chunks|
  {
    if chunks == [] then (d, c)
    else
      var (d, c) := Update(e, d, c, chunks[0]);
      FeedAll(e, d, c, chunks[1..])
  }

  /** From (d, c), tracking `msg` with packets `ps`, the driver has come to (d', c') by taking in `x`. */
  ghost predicate TakesIn(e: Engine, d: Dcp, c: Context, msg: seq<Byte>, ps: seq<Packet>,
                          x: seq<Byte>, d': Dcp, c': Context)
  {
    && d.sent <= d'.sent && c'.algo == c.algo && c'.channel == c.channel
    && Tracks(e, c', msg + x, ps + Since(d, d'))
  }

  lemma TakesInMore(e: Engine, d: Dcp, c: Context, msg: seq<Byte>, ps: seq<Packet>, x: seq<Byte>,
                    d1: Dcp, c1: Context, y: seq<Byte>, d2: Dcp, c2: Context)
    requires TakesIn(e, d, c, msg, ps, x, d1, c1)
    requires TakesIn(e, d1, c1, msg + x, ps + Since(d, d1), y, d2, c2)
    ensures TakesIn(e, d, c, msg, ps, x + y, d2, c2)
  {
    SinceAppend(ps, d, d1, d2);
    assert (msg + x) + y == msg + (x + y);
  }

  lemma {:induction false} FeedAllTracks(e: Engine, d: Dcp, c: Context, chunks: seq<seq<Byte>>,
                                         msg: seq<Byte>, ps: seq<Packet>)
    requires EngineOk(e) && DcpOk(d) && AllAddressable(chunks) && Tracks(e, c, msg, ps)
    ensures var (d', c') := FeedAll(e, d, c, chunks);
            TakesIn(e, d, c, msg, ps, Concat(chunks), d', c')
    decreases |chunks|
  {
    if chunks == [] {
      assert Since(d, d) == [] && msg + [] == msg;
      assert ps + [] == ps;
    } else {
      var r := Update(e, d, c, chunks[0]);
      UpdateTracks(e, d, c, chunks[0], msg, ps);
      FeedAllTracks(e, r.0, r.1, chunks[1..], msg + chunks[0], ps + Since(d, r.0));
      var r2 := FeedAll(e, r.0, r.1, chunks[1..]);
      TakesInMore(e, d, c, msg, ps, chunks[0], r.0, r.1, Concat(chunks[1..]), r2.0, r2.1);
    }
  }

  /** The packets of one hash: their data is the message, the first and no other starts the hash,
      the last and no other ends it, and all but the last are whole 64-byte blocks. */
  ghost predicate PacketsOf(ps: seq<Packet>, algo: Algo, channel: Channel, msg: seq<Byte>) {
    && ps != [] && Payload(ps) == msg
    && forall i :: 0 <= i < |ps| ==>
         && ps[i].algo == algo && ps[i].channel == channel
         && (ps[i].init <==> i == 0) && (ps[i].term <==> i == |ps| - 1)
         && (i < |ps| - 1 ==> |ps[i].data| % SHA_BLOCK == 0)
  }

  lemma StreamPackets(e: Engine, d: Dcp, algo: Algo, channel: Channel, memory: Context,
                      chunks: seq<seq<Byte>>, output: seq<Byte>, size: Option<nat>)
    requires EngineOk(e) && DcpOk(d) && ContextOk(memory) && AllAddressable(chunks)
    ensures var (d1, c1) := FeedAll(e, d, Init(memory, algo, channel), chunks);
            |output| >= Written(c1.algo, c1.fullMessageSize == 0, size) ==>
              var d2 := Finish(e, d1, c1, output, size).dcp;
              && d.sent <= d2.sent
              && (|Concat(chunks)| % TWO32 != 0 ==> PacketsOf(Since(d, d2), algo, channel, Concat(chunks)))
  {
    InitTracks(e, memory, algo, channel);
    var msg := Concat(chunks);
    FeedAllTracks(e, d, Init(memory, algo, channel), chunks, [], []);
    var (d1, c1) := FeedAll(e, d, Init(memory, algo, channel), chunks);
    var ps := Since(d, d1);
    assert [] + ps == ps && [] + msg == msg;
    if |output| >= Written(c1.algo, c1.fullMessageSize == 0, size) {
      FinishAnswers(e, d1, c1, output, size, msg, ps);
    }
    if |output| >= Written(c1.algo, c1.fullMessageSize == 0, size) && |msg| % TWO32 != 0 {
      var d2 := Finish(e, d1, c1, output, size).dcp;
      var last := Packet(channel, algo, ps == [], true, c1.blk[..c1.blksz]);
      SinceConcat(d, d1, d2);
      assert Since(d, d2) == ps + [last];
      assert (ps + [last])[..|ps|] == ps;
    }
  }

  // ---------------------------------------------------------------- when the digest is right

  /** The digest a caller is promised. For the empty message it is the fixed one, because the
      hardware cannot be given an empty message; CRC-32 has no fixed one. */
  function Promised(e: Engine, algo: Algo, msg: seq<Byte>): seq<Byte> {
    if msg == [] && algo != Crc32 then NullDigest(algo) else Digest(e, algo, msg)
  }

  /** A full-length answer is the promised digest for every engine if and only if the 32-bit size
      counter does not read zero, or the message is empty and the algorithm has a fixed digest. A
      message of a positive multiple of 4 GiB is answered as if it were empty, and the CRC-32 of an
      empty message leaves the output buffer as it was. */
  lemma AnswerExact(algo: Algo, msg: seq<Byte>, output: seq<Byte>)
    requires |output| == OutLen(algo)
    ensures (forall e :: EngineOk(e) ==> Answer(e, algo, msg, output, None).0 == Promised(e, algo, msg))
            <==> (|msg| % TWO32 != 0 || (msg == [] && algo != Crc32))
  {
    hide Digest, NullDigest, EngineOk;
    if |msg| % TWO32 == 0 && (msg != [] || algo == Crc32) {
      SomeEngineDiffers(algo, msg, Overwrite(output, NullDigest(algo)));
    } else {
      forall e | EngineOk(e) ensures Answer(e, algo, msg, output, None).0 == Promised(e, algo, msg) {
        RightAnswer(e, algo, msg, output);
      }
    }
  }

  lemma RightAnswer(e: Engine, algo: Algo, msg: seq<Byte>, output: seq<Byte>)
    requires EngineOk(e) && |output| == OutLen(algo) && (|msg| % TWO32 != 0 || (msg == [] && algo != Crc32))
    ensures Answer(e, algo, msg, output, None).0 == Promised(e, algo, msg)
  {
    hide NullDigest;
    if |msg| % TWO32 != 0 {
      var digest := Digest(e, algo, msg);
      assert digest[0..] == digest && Overwrite(output, digest) == digest;
    } else {
      assert Overwrite(output, NullDigest(algo)) == NullDigest(algo);
    }
  }

  /** No fixed bytes are the digest of a message for every engine. */
  lemma SomeEngineDiffers(algo: Algo, msg: seq<Byte>, shown: seq<Byte>)
    requires |shown| == OutLen(algo)
    ensures exists e :: EngineOk(e) && Digest(e, algo, msg) != shown
  {
    var e := ConstantEngine(if shown[0] == 0 then 1 else 0);
    assert Digest(e, algo, msg)[0] != shown[0];
  }

  /** A buffer of the size given to Finish holds what it writes if and only if the size counter does not
      read zero, or the fixed digest fits: that one is copied whole, whatever the size says. */
  lemma ShortBufferExact(algo: Algo, msg: seq<Byte>, size: nat)
    ensures Written(algo, |msg| % TWO32 == 0, Some(size)) <= size
            <==> |msg| % TWO32 != 0 || algo == Crc32 || size >= OutLen(algo)
  {
  }

  function ConstantEngine(b: Byte): (e: Engine)
    ensures EngineOk(e)
  {
    Engine(a => seq(RUNNING_BYTES, _ => 0), (a, s, x) => seq(RUNNING_BYTES, _ => 0),
           (a, s, x) => seq(RUNNING_BYTES, _ => 0), (a, s, x) => seq(OutLen(a), _ => b))
  }
}
