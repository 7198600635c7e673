/** Streaming hashes on the DCP: the driver's context, the engine it feeds, and the buffer the
    engine keeps its running hashes in, as functions on values.

    The compression function, the initial values and the padding are parameters of the engine, so
    every statement holds for SHA-1, SHA-256 and CRC-32 alike. */
module DcpHash {

  type Byte = x: int | 0 <= x < 256

  datatype Algo = Sha1 | Sha256 | Crc32
  datatype Channel = Channel0 | Channel1 | Channel2 | Channel3
  datatype HashState = HashInit | HashUpdate

  /** DCP_HASH_BLOCK_SIZE, and the block length of the hash algorithms. */
  const BLOCK := 128
  const SHA_BLOCK := 64
  const TWO32 := 0x1_0000_0000
  const RUNNING_BYTES := 36

  function OutLen(a: Algo): nat {
    match a
    case Sha1 => 20
    case Sha256 => 32
    case Crc32 => 4
  }

  // ---------------------------------------------------------------- the engine

  /** An ideal hash engine. `residue` is what a slot holds after a packet that ends a hash or ends
      inside a block: nothing may be assumed about it. */
  datatype Engine = Engine(iv: Algo -> seq<Byte>,
                           compress: (Algo, seq<Byte>, seq<Byte>) -> seq<Byte>,
                           residue: (Algo, seq<Byte>, seq<Byte>) -> seq<Byte>,
                           finish: (Algo, seq<Byte>, seq<Byte>) -> seq<Byte>)

  ghost predicate EngineOk(e: Engine) {
    && (forall a :: |e.iv(a)| == RUNNING_BYTES)
    && (forall a, s, b :: |e.compress(a, s, b)| == RUNNING_BYTES)
    && (forall a, s, t :: |e.residue(a, s, t)| == RUNNING_BYTES)
    && (forall a, s, t :: |e.finish(a, s, t)| == OutLen(a))
  }

  /** Whole blocks, folded into a running hash. */
  function Absorb(e: Engine, a: Algo, s: seq<Byte>, data: seq<Byte>): seq<Byte>
    requires |data| % SHA_BLOCK == 0
    decreases |data|
  {
    if data == [] then s
    else Absorb(e, a, e.compress(a, s, data[..SHA_BLOCK]), data[SHA_BLOCK..])
  }

  function WholeBlocks(n: nat): nat { n / SHA_BLOCK * SHA_BLOCK }

  /** The digest of a message handed to the engine in one piece. */
  function Digest(e: Engine, a: Algo, msg: seq<Byte>): seq<Byte> {
    var k := WholeBlocks(|msg|);
    e.finish(a, Absorb(e, a, e.iv(a), msg[..k]), msg[k..])
  }

  lemma {:induction false} AbsorbLength(e: Engine, a: Algo, s: seq<Byte>, data: seq<Byte>)
    requires EngineOk(e) && |data| % SHA_BLOCK == 0 && |s| == RUNNING_BYTES
    ensures |Absorb(e, a, s, data)| == RUNNING_BYTES
    decreases |data|
  {
    if data != [] {
      AbsorbLength(e, a, e.compress(a, s, data[..SHA_BLOCK]), data[SHA_BLOCK..]);
    }
  }

  lemma {:induction false} AbsorbConcat(e: Engine, a: Algo, s: seq<Byte>, x: seq<Byte>, y: seq<Byte>)
    requires |x| % SHA_BLOCK == 0 && |y| % SHA_BLOCK == 0
    ensures Absorb(e, a, s, x + y) == Absorb(e, a, Absorb(e, a, s, x), y)
    decreases |x|
  {
    if x == [] {
      assert x + y == y;
    } else {
      assert (x + y)[..SHA_BLOCK] == x[..SHA_BLOCK];
      assert (x + y)[SHA_BLOCK..] == x[SHA_BLOCK..] + y;
      AbsorbConcat(e, a, e.compress(a, s, x[..SHA_BLOCK]), x[SHA_BLOCK..], y);
    }
  }

  // ---------------------------------------------------------------- packets and the context buffer

  datatype Packet = Packet(channel: Channel, algo: Algo, init: bool, term: bool, data: seq<Byte>)

  /** The context-switching buffer of 52 words, as bytes, and every packet sent so far. */
  datatype Dcp = Dcp(buf: seq<Byte>, sent: seq<Packet>)

  function SlotStart(ch: Channel): nat {
    match ch
    case Channel0 => 4 * 43
    case Channel1 => 4 * 30
    case Channel2 => 4 * 17
    case Channel3 => 4 * 4
  }

  predicate DcpOk(d: Dcp) { |d.buf| == 4 * 52 }

  function Slot(d: Dcp, ch: Channel): (s: seq<Byte>)
    requires DcpOk(d)
    ensures |s| == RUNNING_BYTES
  {
    d.buf[SlotStart(ch)..SlotStart(ch) + RUNNING_BYTES]
  }

  function SetSlot(d: Dcp, ch: Channel, s: seq<Byte>): (d': Dcp)
    requires DcpOk(d) && |s| == RUNNING_BYTES
    ensures DcpOk(d')
  {
    d.(buf := d.buf[..SlotStart(ch)] + s + d.buf[SlotStart(ch) + RUNNING_BYTES..])
  }

  /** The four slots are pairwise disjoint: writing one is seen there and nowhere else. */
  lemma SetSlotFrames(d: Dcp, ch: Channel, s: seq<Byte>, other: Channel)
    requires DcpOk(d) && |s| == RUNNING_BYTES
    ensures Slot(SetSlot(d, ch, s), other) == if other == ch then s else Slot(d, other)
  {
    SpliceKept(d.buf, SlotStart(ch), s, SlotStart(other), RUNNING_BYTES);
  }

  /** A replaced part of a sequence is seen there, and nothing apart from it changes. */
  lemma SpliceKept(buf: seq<Byte>, at: nat, s: seq<Byte>, from: nat, n: nat)
    requires at + |s| <= |buf| && from + n <= |buf|
    ensures var buf' := buf[..at] + s + buf[at + |s|..];
            && (from == at && n == |s| ==> buf'[from..from + n] == s)
            && (from + n <= at || at + |s| <= from ==> buf'[from..from + n] == buf[from..from + n])
  {
    var buf' := buf[..at] + s + buf[at + |s|..];
    assert forall i :: 0 <= i < |s| ==> buf'[at + i] == s[i];
    assert forall i :: 0 <= i < |buf| && !(at <= i < at + |s|) ==> buf'[i] == buf[i];
    assert from == at && n == |s| ==> buf'[from..from + n] == s;
    if from + n <= at || at + |s| <= from {
      assert forall i :: from <= i < from + n ==> buf'[i] == buf[i];
    }
  }

  function Reversed(s: seq<Byte>): seq<Byte> { seq(|s|, i requires 0 <= i < |s| => s[|s| - 1 - i]) }

  /** What the engine does with one packet: the new slot and, for a final packet, the payload. */
  function NewSlot(e: Engine, s: seq<Byte>, p: Packet): seq<Byte> {
    var k := WholeBlocks(|p.data|);
    var s1 := Absorb(e, p.algo, if p.init then e.iv(p.algo) else s, p.data[..k]);
    if p.term || k < |p.data| then e.residue(p.algo, s1, p.data[k..]) else s1
  }

  function FinalDigest(e: Engine, s: seq<Byte>, p: Packet): seq<Byte> {
    var k := WholeBlocks(|p.data|);
    e.finish(p.algo, Absorb(e, p.algo, if p.init then e.iv(p.algo) else s, p.data[..k]), p.data[k..])
  }

  // ---------------------------------------------------------------- the driver's context

  datatype Context = Context(blk: seq<Byte>, blksz: nat, algo: Algo, state: HashState,
                             fullMessageSize: nat, init: bool, term: bool,
                             runningHash: seq<Byte>, channel: Channel)

  predicate ContextOk(c: Context) {
    |c.blk| == BLOCK && c.blksz <= BLOCK && |c.runningHash| == RUNNING_BYTES
  }

  /** Messages are pieces of a 32-bit address space that the context also lies in. */
  predicate Addressable(input: seq<Byte>) { |input| + BLOCK < TWO32 }

  /** One packet, scheduled and waited for (dcp_hash_update). */
  function Send(e: Engine, d: Dcp, c: Context, data: seq<Byte>): (r: (Dcp, Context))
    requires EngineOk(e) && DcpOk(d) && ContextOk(c)
    ensures DcpOk(r.0) && ContextOk(r.1)
  {
    var p := Packet(c.channel, c.algo, c.init, c.term, data);
    var s := Slot(d, c.channel);
    SlotLength(e, s, p);
    var d' := SetSlot(d, c.channel, NewSlot(e, s, p)).(sent := d.sent + [p]);
    var hash := if c.term then Reversed(FinalDigest(e, s, p)) + c.runningHash[OutLen(c.algo)..]
                else c.runningHash;
    (d', c.(init := false, term := false, runningHash := hash))
  }

  lemma SlotLength(e: Engine, s: seq<Byte>, p: Packet)
    requires EngineOk(e) && |s| == RUNNING_BYTES
    ensures |NewSlot(e, s, p)| == RUNNING_BYTES
  {
    var k := WholeBlocks(|p.data|);
    AbsorbLength(e, p.algo, if p.init then e.iv(p.algo) else s, p.data[..k]);
  }

  lemma DigestLength(e: Engine, s: seq<Byte>, p: Packet)
    requires EngineOk(e)
    ensures |FinalDigest(e, s, p)| == OutLen(p.algo)
  {
  }

  /** A partly filled block is completed from the message and sent; the rest of the message remains. */
  function FlushBlock(e: Engine, d: Dcp, c: Context, m: seq<Byte>): (r: (Dcp, Context, seq<Byte>))
    requires EngineOk(e) && DcpOk(d) && ContextOk(c) && c.blksz + |m| > BLOCK
    ensures DcpOk(r.0) && ContextOk(r.1)
  {
    if c.blksz == 0 then (d, c, m)
    else
      var toCopy := BLOCK - c.blksz;
      var blk := c.blk[..c.blksz] + m[..toCopy];
      var (d, c) := Send(e, d, c.(blk := blk), blk);
      (d, c, m[toCopy..])
  }

  /** The whole 64-byte blocks of the message are sent in one packet; the rest remains. */
  function SendWhole(e: Engine, d: Dcp, c: Context, m: seq<Byte>): (r: (Dcp, Context, seq<Byte>))
    requires EngineOk(e) && DcpOk(d) && ContextOk(c)
    ensures DcpOk(r.0) && ContextOk(r.1) && |r.2| < SHA_BLOCK
  {
    var k := WholeBlocks(|m|);
    if k == 0 then (d, c, m)
    else
      var (d, c) := Send(e, d, c, m[..k]);
      (d, c, m[k..])
  }

  /** dcp_hash_process_message_data: flush the block, send whole blocks, keep the rest. */
  function Process(e: Engine, d: Dcp, c: Context, m: seq<Byte>): (r: (Dcp, Context))
    requires EngineOk(e) && DcpOk(d) && ContextOk(c) && c.blksz + |m| > BLOCK
    ensures DcpOk(r.0) && ContextOk(r.1)
  {
    var (d, c, m) := FlushBlock(e, d, c, m);
    var (d, c, rest) := SendWhole(e, d, c, m);
    (d, KeepRest(c, rest))
  }

  function KeepRest(c: Context, rest: seq<Byte>): (c': Context)
    requires ContextOk(c) && |rest| < SHA_BLOCK
    ensures ContextOk(c') && c'.blk[..c'.blksz] == rest
  {
    c.(blk := rest + c.blk[|rest|..], blksz := |rest|)
  }

  function SaveRunningHash(d: Dcp, c: Context): Context
    requires DcpOk(d)
  {
    c.(runningHash := Slot(d, c.channel))
  }

  function RestoreRunningHash(d: Dcp, c: Context): (d': Dcp)
    requires DcpOk(d) && ContextOk(c)
    ensures DcpOk(d')
  {
    SetSlot(d, c.channel, c.runningHash)
  }

  /** DCP_HASH_Init. The flags and the running hash keep whatever the caller's memory held, and
      the clearing loop of the source clears the first word only. */
  function Init(c: Context, algo: Algo, channel: Channel): (c': Context)
    requires ContextOk(c)
    ensures ContextOk(c')
  {
    c.(algo := algo, blksz := 0, blk := [0, 0, 0, 0] + c.blk[4..],
       state := HashInit, fullMessageSize := 0, channel := channel)
  }

  /** DCP_HASH_Update. */
  function Update(e: Engine, d: Dcp, c: Context, input: seq<Byte>): (r: (Dcp, Context))
    requires EngineOk(e) && DcpOk(d) && ContextOk(c) && Addressable(input)
    ensures DcpOk(r.0) && ContextOk(r.1) && r.1.algo == c.algo
  {
    if input == [] then (d, c) else TakeInput(e, d, Count(c, |input|), input)
  }

  /** Keep the input, or hand the block and the input to the engine. */
  function TakeInput(e: Engine, d: Dcp, c: Context, input: seq<Byte>): (r: (Dcp, Context))
    requires EngineOk(e) && DcpOk(d) && ContextOk(c)
    ensures DcpOk(r.0) && ContextOk(r.1) && r.1.algo == c.algo
  {
    if c.blksz + |input| <= BLOCK then (d, Buffer(c, input))
    else
      var (d, c) := EnterEngine(d, c);
      var (d, c) := Process(e, d, c, input);
      (d, SaveRunningHash(d, c))
  }

  /** The 32-bit size counter. */
  function Count(c: Context, n: nat): Context {
    c.(fullMessageSize := (c.fullMessageSize + n) % TWO32)
  }

  /** Input that fits is only kept in the context. */
  function Buffer(c: Context, input: seq<Byte>): (c': Context)
    requires ContextOk(c) && c.blksz + |input| <= BLOCK
    ensures ContextOk(c')
  {
    c.(blk := c.blk[..c.blksz] + input + c.blk[c.blksz + |input|..], blksz := c.blksz + |input|)
  }

  /** The first overflow starts a new hash; a later one puts the saved hash back into its slot. */
  function EnterEngine(d: Dcp, c: Context): (r: (Dcp, Context))
    requires DcpOk(d) && ContextOk(c)
    ensures DcpOk(r.0) && ContextOk(r.1) && r.1.blksz == c.blksz
  {
    if c.state == HashUpdate then (RestoreRunningHash(d, c), c)
    else (d, c.(init := true, term := false, state := HashUpdate))
  }

  /** The fixed digests of the empty message (for CRC-32 the driver has none). */
  function NullDigest(a: Algo): (r: seq<Byte>)
    ensures |r| <= OutLen(a) && (a != Crc32 ==> |r| == OutLen(a))
  {
    match a
    case Sha1 => [0xda, 0x39, 0xa3, 0xee, 0x5e, 0x6b, 0x4b, 0x0d, 0x32, 0x55,
                  0xbf, 0xef, 0x95, 0x60, 0x18, 0x90, 0xaf, 0xd8, 0x07, 0x09]
    case Sha256 => [0xe3, 0xb0, 0xc4, 0x42, 0x98, 0xfc, 0x1c, 0x14, 0x9a, 0xfb, 0xf4,
                    0xc8, 0x99, 0x6f, 0xb9, 0x24, 0x27, 0xae, 0x41, 0xe4, 0x64, 0x9b,
                    0x93, 0x4c, 0xa4, 0x95, 0x99, 0x1b, 0x78, 0x52, 0xb8, 0x55]
    case Crc32 => []
  }

  /** What DCP_HASH_Finish leaves: the engine, the context (None once erased), the caller's output
      buffer and the caller's size variable (None for a null pointer). */
  datatype Finished = Finished(dcp: Dcp, ctx: Option<Context>, output: seq<Byte>, size: Option<nat>)
  datatype Option<T> = None | Some(value: T)

  function Overwrite(output: seq<Byte>, s: seq<Byte>): (r: seq<Byte>)
    requires |s| <= |output|
    ensures |r| == |output|
  {
    s + output[|s|..]
  }

  /** A hash that never reached the engine starts there now; another is put back into its slot. */
  function EnterFinish(d: Dcp, c: Context): (r: (Dcp, Context))
    requires DcpOk(d) && ContextOk(c)
    ensures DcpOk(r.0) && ContextOk(r.1)
  {
    if c.state == HashInit then (d, c.(init := true, term := false)) else (RestoreRunningHash(d, c), c)
  }

  /** The digest bytes that fit a caller's size variable: all of them, or as many as it says. */
  function AnswerLen(a: Algo, size: Option<nat>): (n: nat)
    ensures n <= OutLen(a) && (size.Some? ==> n <= size.value)
    ensures n == OutLen(a) || (size.Some? && n == size.value)
  {
    if size.Some? && size.value <= OutLen(a) then size.value else OutLen(a)
  }

  /** The bytes DCP_HASH_Finish writes: the fixed digest whatever the size variable says, or as much of
      the computed one as fits. */
  function Written(a: Algo, zeroCount: bool, size: Option<nat>): nat {
    if zeroCount then |NullDigest(a)| else AnswerLen(a, size)
  }

  function Finish(e: Engine, d: Dcp, c: Context, output: seq<Byte>, size: Option<nat>): (r: Finished)
    requires EngineOk(e) && DcpOk(d) && ContextOk(c) && |output| >= Written(c.algo, c.fullMessageSize == 0, size)
    ensures DcpOk(r.dcp) && |r.output| == |output| && (r.ctx.Some? ==> ContextOk(r.ctx.value))
  {
    var (d, c) := EnterFinish(d, c);
    if c.fullMessageSize == 0 then
      Finished(d, Some(c), Overwrite(output, NullDigest(c.algo)), size)
    else
      var (d, c) := Send(e, d, c.(term := true), c.blk[..c.blksz]);
      var len := AnswerLen(c.algo, size);
      Finished(d, None, Overwrite(output, Reversed(c.runningHash[..len])), if size.Some? then Some(len) else None)
  }

  // ---------------------------------------------------------------- what a context stands for

  function Payload(ps: seq<Packet>): seq<Byte> {
    if ps == [] then [] else Payload(ps[..|ps| - 1]) + ps[|ps| - 1].data
  }

  /** Packets of one unfinished hash: whole 64-byte blocks, the first one and no other starting it. */
  predicate Opening(ps: seq<Packet>, algo: Algo, channel: Channel) {
    forall i :: 0 <= i < |ps| ==>
      && ps[i].algo == algo && ps[i].channel == channel
      && !ps[i].term && (ps[i].init <==> i == 0) && |ps[i].data| % SHA_BLOCK == 0
  }

  lemma {:induction false} OpeningPayload(ps: seq<Packet>, algo: Algo, channel: Channel)
    requires Opening(ps, algo, channel)
    ensures |Payload(ps)| % SHA_BLOCK == 0
  {
    if ps != [] {
      var front, last := ps[..|ps| - 1], ps[|ps| - 1];
      assert |Payload(ps)| == |Payload(front)| + |last.data|;
      assert Opening(front, algo, channel);
      OpeningPayload(front, algo, channel);
      BlocksAdd(|Payload(front)|, |last.data|);
    }
  }

  lemma BlocksAdd(m: nat, n: nat)
    requires m % SHA_BLOCK == 0 && n % SHA_BLOCK == 0
    ensures (m + n) % SHA_BLOCK == 0
  {
  }

  /** The running hash after the packets `ps`. */
  function Running(e: Engine, algo: Algo, channel: Channel, ps: seq<Packet>): seq<Byte>
    requires Opening(ps, algo, channel)
  {
    OpeningPayload(ps, algo, channel);
    Absorb(e, algo, e.iv(algo), Payload(ps))
  }

  /** Context `c` has been given the message `msg` and has sent the packets `ps` for it: the packets
      carry a prefix of the message, the block buffer holds the rest, and the saved running hash is
      that of the packets. Nothing is said of the shared buffer. */
  ghost predicate Tracks(e: Engine, c: Context, msg: seq<Byte>, ps: seq<Packet>) {
    c.fullMessageSize == |msg| % TWO32 && Carries(e, c, msg, ps)
  }

  ghost predicate Carries(e: Engine, c: Context, msg: seq<Byte>, ps: seq<Packet>) {
    && ContextOk(c)
    && Opening(ps, c.algo, c.channel)
    && msg == Payload(ps) + c.blk[..c.blksz]
    && (c.state == HashInit <==> ps == [])
    && (c.state == HashUpdate ==>
          !c.init && !c.term && |ps[0].data| > 0 && c.runningHash == Running(e, c.algo, c.channel, ps))
  }

  lemma InitTracks(e: Engine, c: Context, algo: Algo, channel: Channel)
    requires ContextOk(c)
    ensures Tracks(e, Init(c, algo, channel), [], [])
  {
  }

  /** In mid-update: the channel's slot, not the context, holds the running hash. */
  ghost predicate InEngine(e: Engine, d: Dcp, c: Context, ps: seq<Packet>) {
    && DcpOk(d) && ContextOk(c) && !c.term
    && Opening(ps, c.algo, c.channel)
    && (c.init <==> ps == [])
    && (ps != [] ==> |ps[0].data| > 0 && Slot(d, c.channel) == Running(e, c.algo, c.channel, ps))
  }

  lemma SendAbsorbs(e: Engine, d: Dcp, c: Context, data: seq<Byte>, ps: seq<Packet>)
    requires EngineOk(e) && InEngine(e, d, c, ps) && |data| > 0 && |data| % SHA_BLOCK == 0
    ensures var (d', c') := Send(e, d, c, data);
            var p := Packet(c.channel, c.algo, c.init, false, data);
            && d'.sent == d.sent + [p] && InEngine(e, d', c', ps + [p])
            && Payload(ps + [p]) == Payload(ps) + data
            && c' == c.(init := false)
  {
    var p := Packet(c.channel, c.algo, c.init, false, data);
    assert (ps + [p])[..|ps|] == ps;
    assert data[..WholeBlocks(|data|)] == data;
    OpeningPayload(ps, c.algo, c.channel);
    AbsorbConcat(e, c.algo, e.iv(c.algo), Payload(ps), data);
    SlotLength(e, Slot(d, c.channel), p);
    SetSlotFrames(d, c.channel, NewSlot(e, Slot(d, c.channel), p), c.channel);
    assert Payload([]) + data == data;
  }

  /** The packets sent between two states of the engine. */
  function Since(d: Dcp, d': Dcp): seq<Packet>
    requires d.sent <= d'.sent
  {
    d'.sent[|d.sent|..]
  }

  lemma SinceConcat(d0: Dcp, d1: Dcp, d2: Dcp)
    requires d0.sent <= d1.sent <= d2.sent
    ensures d0.sent <= d2.sent && Since(d0, d2) == Since(d0, d1) + Since(d1, d2)
  {
    assert d1.sent == d0.sent + Since(d0, d1);
    assert d2.sent == d0.sent + Since(d0, d1) + Since(d1, d2);
  }

  /** How an update moves a message: from the state (d, c) with packets `ps` and the bytes `before`
      still outside the engine to (d', c') with `after` still outside. */
  ghost predicate Moves(e: Engine, d: Dcp, c: Context, ps: seq<Packet>, before: seq<Byte>,
                        d': Dcp, c': Context, after: seq<Byte>)
  {
    && d.sent <= d'.sent && InEngine(e, d', c', ps + Since(d, d'))
    && Payload(ps) + before == Payload(ps + Since(d, d')) + after
    && c' == c.(blk := c'.blk, blksz := c'.blksz, init := c'.init)
  }

  lemma SinceAppend(ps: seq<Packet>, d0: Dcp, d1: Dcp, d2: Dcp)
    requires d0.sent <= d1.sent <= d2.sent
    ensures d0.sent <= d2.sent && (ps + Since(d0, d1)) + Since(d1, d2) == ps + Since(d0, d2)
  {
    SinceConcat(d0, d1, d2);
  }

  lemma SendMoves(e: Engine, d: Dcp, c: Context, data: seq<Byte>, after: seq<Byte>, ps: seq<Packet>)
    requires EngineOk(e) && InEngine(e, d, c, ps) && |data| > 0 && |data| % SHA_BLOCK == 0
    ensures var (d', c') := Send(e, d, c, data);
            Moves(e, d, c, ps, data + after, d', c', after) && Since(d, d') != []
  {
    SendAbsorbs(e, d, c, data, ps);
    var p := Packet(c.channel, c.algo, c.init, false, data);
    assert Since(d, Send(e, d, c, data).0) == [p];
    assert Payload(ps) + (data + after) == Payload(ps) + data + after;
  }

  lemma FlushBlockTracks(e: Engine, d: Dcp, c: Context, m: seq<Byte>, ps: seq<Packet>)
    requires EngineOk(e) && InEngine(e, d, c, ps) && c.blksz + |m| > BLOCK
    ensures var (d', c', m') := FlushBlock(e, d, c, m);
            && Moves(e, d, c, ps, c.blk[..c.blksz] + m, d', c', m')
            && (Since(d, d') == [] ==> |m'| > BLOCK)
  {
    hide Opening, Payload, Running, Send;
    if c.blksz > 0 {
      var t := BLOCK - c.blksz;
      var blk := c.blk[..c.blksz] + m[..t];
      assert c.blk[..c.blksz] + m == blk + m[t..];
      SendMoves(e, d, c.(blk := blk), blk, m[t..], ps);
    } else {
      assert Since(d, d) == [];
      assert ps + [] == ps && c.blk[..0] + m == m;
    }
  }

  lemma SendWholeTracks(e: Engine, d: Dcp, c: Context, m: seq<Byte>, ps: seq<Packet>)
    requires EngineOk(e) && InEngine(e, d, c, ps)
    ensures var (d', c', rest) := SendWhole(e, d, c, m);
            && Moves(e, d, c, ps, m, d', c', rest)
            && (Since(d, d') == [] ==> |m| < SHA_BLOCK)
  {
    var k := WholeBlocks(|m|);
    if k > 0 {
      assert m == m[..k] + m[k..];
      SendMoves(e, d, c, m[..k], m[k..], ps);
    } else {
      assert ps + [] == ps;
    }
  }

  lemma MovesCompose(e: Engine, d: Dcp, c: Context, ps: seq<Packet>, before: seq<Byte>,
                     d1: Dcp, c1: Context, mid: seq<Byte>, d2: Dcp, c2: Context, after: seq<Byte>)
    requires Moves(e, d, c, ps, before, d1, c1, mid)
    requires Moves(e, d1, c1, ps + Since(d, d1), mid, d2, c2, after)
    ensures Moves(e, d, c, ps, before, d2, c2, after)
    ensures Since(d, d2) == Since(d, d1) + Since(d1, d2)
  {
    SinceConcat(d, d1, d2);
    assert (ps + Since(d, d1)) + Since(d1, d2) == ps + Since(d, d2);
  }

  lemma KeepRestMoves(e: Engine, d: Dcp, c: Context, ps: seq<Packet>, rest: seq<Byte>)
    requires InEngine(e, d, c, ps) && |rest| < SHA_BLOCK
    ensures Moves(e, d, c, ps, rest, d, KeepRest(c, rest), rest)
  {
    assert ps + [] == ps;
  }

  /** Everything the update path does to a context that overflows its block. */
  lemma ProcessTracks(e: Engine, d: Dcp, c: Context, m: seq<Byte>, ps: seq<Packet>)
    requires EngineOk(e) && InEngine(e, d, c, ps) && c.blksz + |m| > BLOCK
    ensures var (d', c') := Process(e, d, c, m);
            && Moves(e, d, c, ps, c.blk[..c.blksz] + m, d', c', c'.blk[..c'.blksz])
            && Since(d, d') != []
            && c'.blksz < SHA_BLOCK
  {
    var (d1, c1, m1) := FlushBlock(e, d, c, m);
    FlushBlockTracks(e, d, c, m, ps);
    var (d2, c2, rest) := SendWhole(e, d1, c1, m1);
    SendWholeTracks(e, d1, c1, m1, ps + Since(d, d1));
    MovesCompose(e, d, c, ps, c.blk[..c.blksz] + m, d1, c1, m1, d2, c2, rest);
    KeepRestMoves(e, d2, c2, ps + Since(d, d2), rest);
    MovesCompose(e, d, c, ps, c.blk[..c.blksz] + m, d2, c2, rest, d2, KeepRest(c2, rest), rest);
  }

  lemma ModAdd(a: nat, b: nat)
    ensures (a % TWO32 + b) % TWO32 == (a + b) % TWO32
  {
    assert a + b == a % TWO32 + b + TWO32 * (a / TWO32);
  }

  /** An update adds its input to the message, whatever is in the shared buffer. */
  lemma UpdateTracks(e: Engine, d: Dcp, c: Context, input: seq<Byte>, msg: seq<Byte>, ps: seq<Packet>)
    requires EngineOk(e) && DcpOk(d) && Tracks(e, c, msg, ps) && Addressable(input)
    ensures var (d', c') := Update(e, d, c, input);
            && d.sent <= d'.sent
            && Tracks(e, c', msg + input, ps + Since(d, d'))
            && c'.algo == c.algo && c'.channel == c.channel
  {
    assert ContextOk(c);
    hide Carries, TakeInput, Count;
    if input == [] {
      assert Since(d, d) == [] && ps + [] == ps && msg + [] == msg;
    } else {
      var c1 := Count(c, |input|);
      CountTracks(e, c, |input|, msg, ps);
      assert Update(e, d, c, input) == TakeInput(e, d, c1, input);
      hide Update;
      TakeInputTracks(e, d, c1, input, msg, ps);
    }
  }

  lemma TakeInputTracks(e: Engine, d: Dcp, c: Context, input: seq<Byte>, msg: seq<Byte>, ps: seq<Packet>)
    requires EngineOk(e) && DcpOk(d) && Carries(e, c, msg, ps)
    ensures ContextOk(c)
    ensures var (d', c') := TakeInput(e, d, c, input);
            && d.sent <= d'.sent
            && Carries(e, c', msg + input, ps + Since(d, d'))
            && c'.algo == c.algo && c'.channel == c.channel && c'.fullMessageSize == c.fullMessageSize
  {
    assert ContextOk(c);
    hide Carries, Process, EnterEngine;
    if c.blksz + |input| <= BLOCK {
      assert Since(d, d) == [] && ps + [] == ps;
      BufferTracks(e, c, input, msg, ps);
    } else {
      OverflowTracks(e, d, c, input, msg, ps);
    }
  }

  lemma CountTracks(e: Engine, c: Context, n: nat, msg: seq<Byte>, ps: seq<Packet>)
    requires Tracks(e, c, msg, ps)
    ensures ContextOk(Count(c, n)) && Count(c, n).algo == c.algo && Count(c, n).channel == c.channel
    ensures Carries(e, Count(c, n), msg, ps) && Count(c, n).fullMessageSize == (|msg| + n) % TWO32
  {
    ModAdd(|msg|, n);
  }

  lemma BufferTracks(e: Engine, c: Context, input: seq<Byte>, msg: seq<Byte>, ps: seq<Packet>)
    requires Carries(e, c, msg, ps) && c.blksz + |input| <= BLOCK
    ensures Carries(e, Buffer(c, input), msg + input, ps)
  {
    assert Buffer(c, input).blk[..c.blksz + |input|] == c.blk[..c.blksz] + input;
    assert msg + input == Payload(ps) + (c.blk[..c.blksz] + input);
  }

  lemma EnterEngineTracks(e: Engine, d: Dcp, c: Context, msg: seq<Byte>, ps: seq<Packet>)
    requires DcpOk(d) && Carries(e, c, msg, ps)
    ensures var (d0, c0) := EnterEngine(d, c);
            && InEngine(e, d0, c0, ps) && d0.sent == d.sent
            && c0 == c.(init := c0.init, term := c0.term, state := HashUpdate)
  {
    SetSlotFrames(d, c.channel, c.runningHash, c.channel);
  }

  lemma LeaveEngineTracks(e: Engine, d: Dcp, c: Context, msg: seq<Byte>, ps: seq<Packet>)
    requires InEngine(e, d, c, ps) && ps != [] && c.state == HashUpdate
    requires msg == Payload(ps) + c.blk[..c.blksz]
    ensures Carries(e, SaveRunningHash(d, c), msg, ps)
  {
  }

  lemma OverflowTracks(e: Engine, d: Dcp, c: Context, input: seq<Byte>, msg: seq<Byte>, ps: seq<Packet>)
    requires EngineOk(e) && DcpOk(d) && Carries(e, c, msg, ps) && c.blksz + |input| > BLOCK
    ensures var (d0, c0) := EnterEngine(d, c);
            var (d', c') := Process(e, d0, c0, input);
            && d.sent <= d'.sent
            && Carries(e, SaveRunningHash(d', c'), msg + input, ps + Since(d, d'))
            && c'.algo == c.algo && c'.channel == c.channel && c'.fullMessageSize == c.fullMessageSize
  {
    hide Process, Opening, Payload, Running;
    var (d0, c0) := EnterEngine(d, c);
    EnterEngineTracks(e, d, c, msg, ps);
    var (d', c') := Process(e, d0, c0, input);
    ProcessTracks(e, d0, c0, input, ps);
    assert Payload(ps) + (c.blk[..c.blksz] + input) == msg + input;
    LeaveEngineTracks(e, d', c', msg + input, ps + Since(d0, d'));
  }

  lemma ReversedTail(s: seq<Byte>, n: nat)
    requires n <= |s|
    ensures Reversed(Reversed(s)[..n]) == s[|s| - n..]
  {
  }

  /** The bytes that answer a Finish: the last `len` bytes of the digest, for the buffer size given;
      if the size counter reads zero, the fixed digest of the empty message, and the size variable
      untouched. */
  function Answer(e: Engine, algo: Algo, msg: seq<Byte>, output: seq<Byte>, size: Option<nat>)
    : (seq<Byte>, Option<nat>)
    requires EngineOk(e) && |output| >= Written(algo, |msg| % TWO32 == 0, size)
  {
    if |msg| % TWO32 == 0 then (Overwrite(output, NullDigest(algo)), size)
    else
      var len := AnswerLen(algo, size);
      (Overwrite(output, Digest(e, algo, msg)[OutLen(algo) - len..]), if size.Some? then Some(len) else None)
  }

  lemma WholeBlocksAdd(m: nat, n: nat)
    requires m % SHA_BLOCK == 0
    ensures WholeBlocks(m + n) == m + WholeBlocks(n) && WholeBlocks(n) <= n && WholeBlocks(n) % SHA_BLOCK == 0
  {
    assert m == SHA_BLOCK * (m / SHA_BLOCK);
    assert (m + n) / SHA_BLOCK == m / SHA_BLOCK + n / SHA_BLOCK;
  }

  lemma LastPacketDigest(e: Engine, algo: Algo, channel: Channel, ps: seq<Packet>, tail: seq<Byte>, s: seq<Byte>)
    requires Opening(ps, algo, channel) && (ps != [] ==> s == Running(e, algo, channel, ps))
    ensures FinalDigest(e, s, Packet(channel, algo, ps == [], true, tail)) == Digest(e, algo, Payload(ps) + tail)
  {
    hide Opening, WholeBlocks;
    var msg, k := Payload(ps) + tail, WholeBlocks(|tail|);
    OpeningPayload(ps, algo, channel);
    WholeBlocksAdd(|Payload(ps)|, |tail|);
    assert msg[..|Payload(ps)| + k] == Payload(ps) + tail[..k];
    assert msg[|Payload(ps)| + k..] == tail[k..];
    AbsorbConcat(e, algo, e.iv(algo), Payload(ps), tail[..k]);
  }

  /** Finish answers for the tracked message, whatever is in the shared buffer, and sends exactly
      one more packet, the closing one, unless the size counter reads zero. */
  lemma FinishAnswers(e: Engine, d: Dcp, c: Context, output: seq<Byte>, size: Option<nat>,
                      msg: seq<Byte>, ps: seq<Packet>)
    requires EngineOk(e) && DcpOk(d) && Tracks(e, c, msg, ps)
    requires |output| >= Written(c.algo, c.fullMessageSize == 0, size)
    ensures var r := Finish(e, d, c, output, size);
            && (r.output, r.size) == Answer(e, c.algo, msg, output, size)
            && if |msg| % TWO32 == 0 then
                 r.ctx.Some? && r.dcp.sent == d.sent && Tracks(e, r.ctx.value, msg, ps)
                 && r.ctx.value.algo == c.algo && r.ctx.value.channel == c.channel
               else
                 && r.ctx == None
                 && r.dcp.sent == d.sent + [Packet(c.channel, c.algo, ps == [], true, c.blk[..c.blksz])]
  {
    hide Opening, NullDigest, Digest, Send, Reversed, Running, Slot;
    var (d1, c1) := EnterFinish(d, c);
    EnterFinishReady(e, d, c, msg, ps);
    if |msg| % TWO32 != 0 {
      ClosingAnswer(e, d1, c1.(term := true), c.blk[..c.blksz], ps, AnswerLen(c.algo, size));
    }
  }

  /** The engine is ready for the closing packet. */
  ghost predicate ReadyToClose(e: Engine, d: Dcp, c: Context, ps: seq<Packet>) {
    && DcpOk(d) && ContextOk(c) && Opening(ps, c.algo, c.channel)
    && (c.init <==> ps == []) && (ps != [] ==> Slot(d, c.channel) == Running(e, c.algo, c.channel, ps))
  }

  lemma EnterFinishReady(e: Engine, d: Dcp, c: Context, msg: seq<Byte>, ps: seq<Packet>)
    requires DcpOk(d) && Carries(e, c, msg, ps)
    ensures var (d1, c1) := EnterFinish(d, c);
            ReadyToClose(e, d1, c1, ps) && d1.sent == d.sent
            && c1 == c.(init := c1.init, term := c1.term)
  {
    SetSlotFrames(d, c.channel, c.runningHash, c.channel);
  }

  /** The payload of the closing packet, cut and reversed, is the end of the digest. */
  lemma ClosingAnswer(e: Engine, d: Dcp, c: Context, tail: seq<Byte>, ps: seq<Packet>, len: nat)
    requires EngineOk(e) && ReadyToClose(e, d, c, ps) && c.term && len <= OutLen(c.algo)
    ensures var (d', c') := Send(e, d, c, tail);
            && c'.algo == c.algo
            && Reversed(c'.runningHash[..len]) == Digest(e, c.algo, Payload(ps) + tail)[OutLen(c.algo) - len..]
            && d'.sent == d.sent + [Packet(c.channel, c.algo, ps == [], true, tail)]
  {
    hide Opening, Running, NewSlot, FinalDigest;
    var p := Packet(c.channel, c.algo, ps == [], true, tail);
    LastPacketDigest(e, c.algo, c.channel, ps, tail, Slot(d, c.channel));
    var digest := FinalDigest(e, Slot(d, c.channel), p);
    DigestLength(e, Slot(d, c.channel), p);
    assert Send(e, d, c, tail).1.runningHash[..len] == Reversed(digest)[..len];
    ReversedTail(digest, len);
  }
}
