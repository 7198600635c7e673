/** The hash driver as the repository writes it: a context whose buffers and flags are updated in
    place, and one context-switching buffer shared by every context. When the engine reports no
    error, each method takes the step that `DcpHash` gives it. */
module DcpHashDriver {
  import opened DcpHash

  datatype Status = Success | Fail

  /** A call made while the engine's reports grew from `before` to `after`: it stops at the first packet
      reported as failed, and succeeds if and only if there was none. */
  ghost predicate Reported(before: seq<Status>, after: seq<Status>, status: Status) {
    && before <= after
    && (forall i :: |before| <= i < |after| - 1 ==> after[i] == Success)
    && (status == Success <==> |after| == |before| || after[|after| - 1] == Success)
  }

  /** memcpy to offset `at` of `dst`. */
  method CopyInto(dst: array<Byte>, at: nat, src: seq<Byte>)
    requires at + |src| <= dst.Length
    modifies dst
    ensures dst[..] == old(dst[..at]) + src + old(dst[at + |src|..])
  {
    forall i | 0 <= i < |src| {
      dst[at + i] := src[i];
    }
  }

  /** memcpy to the start of `dst`. */
  method CopyOut(dst: array<Byte>, src: seq<Byte>)
    requires |src| <= dst.Length
    modifies dst
    ensures dst[..] == Overwrite(old(dst[..]), src)
  {
    CopyInto(dst, 0, src);
  }

  /** The size counter of an input of less than 4 GiB. */
  lemma CountOf(e: Engine, c: Context, input: seq<Byte>, ps: seq<Packet>)
    requires Tracks(e, c, input, ps) && Addressable(input)
    ensures c.fullMessageSize == |input| && |input| % TWO32 == |input|
  {
  }

  class HashContext {
    const blk: array<Byte>
    const runningHash: array<Byte>
    var blksz: nat
    var algo: Algo
    var state: HashState
    var fullMessageSize: nat
    var hashInit: bool
    var hashTerm: bool
    var channel: Channel

    ghost function Value(): Context
      reads this, blk, runningHash
    {
      Context(blk[..], blksz, algo, state, fullMessageSize, hashInit, hashTerm, runningHash[..], channel)
    }

    ghost predicate Valid()
      reads this, blk, runningHash
    {
      blk != runningHash && ContextOk(Value())
    }

    constructor ()
      ensures Valid() && fresh(blk) && fresh(runningHash)
    {
      blk := new Byte[BLOCK](_ => 0);
      runningHash := new Byte[RUNNING_BYTES](_ => 0);
      blksz, algo, state, fullMessageSize, hashInit, hashTerm := 0, Sha1, HashInit, 0, false, false;
      channel := Channel0;
    }
  }

  class DcpDriver {
    const engine: Engine
    const contextBuffer: array<Byte>
    ghost var sent: seq<Packet>

    /** What the engine reported for each packet. */
    ghost var reports: seq<Status>

    ghost function Value(): Dcp
      reads this, contextBuffer
    {
      Dcp(contextBuffer[..], sent)
    }

    ghost predicate Valid()
      reads this, contextBuffer
    {
      EngineOk(engine) && DcpOk(Value()) && |reports| == |sent|
    }

    /** A context in memory of its own. */
    ghost predicate Apart(ctx: HashContext) {
      contextBuffer != ctx.blk && contextBuffer != ctx.runningHash
    }

    constructor (e: Engine)
      requires EngineOk(e)
      ensures Valid() && engine == e && fresh(contextBuffer) && Value().sent == [] && reports == []
    {
      engine := e;
      contextBuffer := new Byte[4 * 52](_ => 0);
      sent, reports := [], [];
    }

    /** The engine writes a channel's slot. */
    method StoreSlot(channel: Channel, slot: seq<Byte>)
      requires DcpOk(Value()) && |slot| == RUNNING_BYTES
      modifies contextBuffer
      ensures Value() == SetSlot(old(Value()), channel, slot)
    {
      CopyInto(contextBuffer, SlotStart(channel), slot);
    }

    /** The hardware: one packet, which may be reported as failed. A failed packet leaves anything
        in its channel's slot and in its payload. */
    method Execute(ctx: HashContext, data: seq<Byte>) returns (status: Status)
      requires Valid() && ctx.Valid() && Apart(ctx)
      modifies this, contextBuffer, ctx.runningHash
      ensures Valid() && ctx.Valid()
      ensures ctx.Value() == old(ctx.Value()).(runningHash := ctx.runningHash[..])
      ensures reports == old(reports) + [status]
      ensures status == Success ==>
                var (d, c) := Send(engine, old(Value()), old(ctx.Value()), data);
                Value() == d && ctx.runningHash[..] == c.runningHash
    {
      hide NewSlot, FinalDigest, SetSlot, EngineOk;
      var start := SlotStart(ctx.channel);
      var p := Packet(ctx.channel, ctx.algo, ctx.hashInit, ctx.hashTerm, data);
      var slot := contextBuffer[start..start + RUNNING_BYTES];
      var newSlot := NewSlot(engine, slot, p);
      SlotLength(engine, slot, p);
      DigestLength(engine, slot, p);
      StoreSlot(ctx.channel, newSlot);
      if ctx.hashTerm {
        CopyInto(ctx.runningHash, 0, Reversed(FinalDigest(engine, slot, p)));
      }
      sent := sent + [p];
      var ok: bool := *;
      status := if ok then Success else Fail;
      reports := reports + [status];
    }

    /** dcp_hash_update. */
    method HashUpdateBlocking(ctx: HashContext, msg: seq<Byte>) returns (status: Status)
      requires Valid() && ctx.Valid() && Apart(ctx)
      modifies this, contextBuffer, ctx, ctx.runningHash
      ensures Valid() && ctx.Valid() && ctx.algo == old(ctx.algo) && ctx.channel == old(ctx.channel)
      ensures ctx.fullMessageSize == old(ctx.fullMessageSize) && reports == old(reports) + [status]
      ensures status == Success ==>
                (Value(), ctx.Value()) == Send(engine, old(Value()), old(ctx.Value()), msg)
    {
      status := Execute(ctx, msg);
      ctx.hashInit := false;
      ctx.hashTerm := false;
    }

    /** The first half of dcp_hash_process_message_data: a partly filled block is completed and sent. */
    method FlushBlockBuffer(ctx: HashContext, message: seq<Byte>) returns (status: Status, rest: seq<Byte>)
      requires Valid() && ctx.Valid() && Apart(ctx) && ctx.blksz + |message| > BLOCK
      modifies this, contextBuffer, ctx, ctx.blk, ctx.runningHash
      ensures Valid() && ctx.Valid() && ctx.algo == old(ctx.algo) && ctx.channel == old(ctx.channel)
      ensures ctx.fullMessageSize == old(ctx.fullMessageSize) && Reported(old(reports), reports, status)
      ensures status == Success ==>
                (Value(), ctx.Value(), rest) == FlushBlock(engine, old(Value()), old(ctx.Value()), message)
    {
      hide Send;
      if ctx.blksz == 0 {
        return Success, message;
      }
      var toCopy := BLOCK - ctx.blksz;
      ghost var blk := ctx.Value().blk[..ctx.blksz] + message[..toCopy];
      CopyInto(ctx.blk, ctx.blksz, message[..toCopy]);
      assert ctx.blk[..] == blk;
      assert ctx.Value() == old(ctx.Value()).(blk := blk);
      rest := message[toCopy..];
      status := HashUpdateBlocking(ctx, ctx.blk[..]);
    }

    /** The second half: the whole 64-byte blocks of what remains. */
    method SendWholeBlocks(ctx: HashContext, message: seq<Byte>) returns (status: Status, rest: seq<Byte>)
      requires Valid() && ctx.Valid() && Apart(ctx)
      modifies this, contextBuffer, ctx, ctx.runningHash
      ensures Valid() && ctx.Valid() && ctx.algo == old(ctx.algo) && ctx.channel == old(ctx.channel)
      ensures ctx.fullMessageSize == old(ctx.fullMessageSize) && Reported(old(reports), reports, status)
      ensures status == Success ==>
                (Value(), ctx.Value(), rest) == SendWhole(engine, old(Value()), old(ctx.Value()), message)
    {
      hide Send;
      status, rest := Success, message;
      var fullBlocksSize := |message| / 64 * 64;
      assert fullBlocksSize == WholeBlocks(|message|);
      if fullBlocksSize > 0 {
        status := HashUpdateBlocking(ctx, message[..fullBlocksSize]);
        rest := message[fullBlocksSize..];
      }
    }

    /** dcp_hash_process_message_data. */
    method ProcessMessageData(ctx: HashContext, message: seq<Byte>) returns (status: Status)
      requires Valid() && ctx.Valid() && Apart(ctx) && ctx.blksz + |message| > BLOCK
      modifies this, contextBuffer, ctx, ctx.blk, ctx.runningHash
      ensures Valid() && ctx.Valid() && ctx.algo == old(ctx.algo) && ctx.channel == old(ctx.channel)
      ensures ctx.fullMessageSize == old(ctx.fullMessageSize) && Reported(old(reports), reports, status)
      ensures status == Success ==>
                (Value(), ctx.Value()) == Process(engine, old(Value()), old(ctx.Value()), message)
    {
      hide FlushBlock, SendWhole;
      var rest;
      status, rest := FlushBlockBuffer(ctx, message);
      if status != Success {
        return;
      }
      status, rest := SendWholeBlocks(ctx, rest);
      if status != Success {
        return;
      }
      ghost var c := ctx.Value();
      CopyInto(ctx.blk, 0, rest);
      ctx.blksz := |rest|;
      assert ctx.Value() == KeepRest(c, rest);
    }

    /** dcp_hash_save_running_hash and dcp_hash_restore_running_hash. */
    method SaveHash(ctx: HashContext)
      requires Valid() && ctx.Valid() && Apart(ctx)
      modifies ctx.runningHash
      ensures ctx.Valid() && ctx.Value() == SaveRunningHash(Value(), old(ctx.Value()))
    {
      var start := SlotStart(ctx.channel);
      CopyInto(ctx.runningHash, 0, contextBuffer[start..start + RUNNING_BYTES]);
    }

    method RestoreHash(ctx: HashContext)
      requires Valid() && ctx.Valid() && Apart(ctx)
      modifies contextBuffer
      ensures Valid() && Value() == RestoreRunningHash(old(Value()), ctx.Value())
    {
      CopyInto(contextBuffer, SlotStart(ctx.channel), ctx.runningHash[..]);
    }

    /** DCP_HASH_Init, with its clearing loop that writes the same word every time. */
    method HashInitialize(ctx: HashContext, algo: Algo, channel: Channel)
      requires ctx.Valid()
      modifies ctx, ctx.blk
      ensures ctx.Valid() && ctx.Value() == Init(old(ctx.Value()), algo, channel)
    {
      ctx.algo := algo;
      ctx.blksz := 0;
      ghost var before := ctx.blk[..];
      assert |before| == BLOCK;
      for i := 0 to BLOCK / 4
        invariant ctx.blk[4..] == before[4..]
        invariant i > 0 ==> ctx.blk[..4] == [0, 0, 0, 0]
        modifies ctx.blk
      {
        ctx.blk[0], ctx.blk[1], ctx.blk[2], ctx.blk[3] := 0, 0, 0, 0;
      }
      assert ctx.blk[..] == ctx.blk[..4] + ctx.blk[4..];
      assert ctx.blk[..] == [0, 0, 0, 0] + before[4..];
      ctx.state := HashInit;
      ctx.fullMessageSize := 0;
      ctx.channel := channel;
    }

    /** DCP_HASH_Update. */
    method HashAddInput(ctx: HashContext, input: seq<Byte>) returns (status: Status)
      requires Valid() && ctx.Valid() && Apart(ctx) && Addressable(input)
      modifies this, contextBuffer, ctx, ctx.blk, ctx.runningHash
      ensures Valid() && ctx.Valid() && ctx.algo == old(ctx.algo) && ctx.channel == old(ctx.channel)
      ensures Reported(old(reports), reports, status)
      ensures old(ctx.blksz) + |input| <= BLOCK ==> status == Success
      ensures input != [] ==> ctx.fullMessageSize == (old(ctx.fullMessageSize) + |input|) % TWO32
      ensures status == Success ==>
                (Value(), ctx.Value()) == Update(engine, old(Value()), old(ctx.Value()), input)
    {
      if |input| == 0 {
        return Success;
      }
      ctx.fullMessageSize := (ctx.fullMessageSize + |input|) % TWO32;
      assert ctx.Value() == Count(old(ctx.Value()), |input|);
      if ctx.blksz + |input| <= BLOCK {
        CopyInto(ctx.blk, ctx.blksz, input);
        ctx.blksz := ctx.blksz + |input|;
        return Success;
      }
      ghost var entered := EnterEngine(Value(), ctx.Value());
      if ctx.state != HashUpdate {
        ctx.hashInit, ctx.hashTerm := true, false;
        ctx.state := HashUpdate;
      } else {
        RestoreHash(ctx);
      }
      assert (Value(), ctx.Value()) == entered;
      status := ProcessMessageData(ctx, input);
      SaveHash(ctx);
    }

    /** dcp_reverse_and_copy. */
    method ReverseAndCopy(src: seq<Byte>, dest: array<Byte>)
      requires |src| <= dest.Length
      modifies dest
      ensures dest[..] == Overwrite(old(dest[..]), Reversed(src))
    {
      for i := 0 to |src|
        invariant forall k :: 0 <= k < i ==> dest[k] == src[|src| - 1 - k]
        invariant forall k :: i <= k < dest.Length ==> dest[k] == old(dest[k])
      {
        dest[i] := src[|src| - 1 - i];
      }
    }

    /** Both branches at the start of DCP_HASH_Finish. */
    method EnterForFinish(ctx: HashContext)
      requires Valid() && ctx.Valid() && Apart(ctx)
      modifies contextBuffer, ctx
      ensures Valid() && ctx.Valid() && (Value(), ctx.Value()) == EnterFinish(old(Value()), old(ctx.Value()))
      ensures ctx.algo == old(ctx.algo) && ctx.fullMessageSize == old(ctx.fullMessageSize)
    {
      if ctx.state == HashInit {
        ctx.hashInit, ctx.hashTerm := true, false;
      } else {
        RestoreHash(ctx);
      }
    }

    /** DCP_HASH_Finish. `size` is the caller's size variable, None for a null pointer; `erased` says
        that the context was overwritten and must be begun again. */
    method HashFinish(ctx: HashContext, output: array<Byte>, size: Option<nat>)
      returns (status: Status, size': Option<nat>, erased: bool)
      requires Valid() && ctx.Valid() && Apart(ctx)
      requires output.Length >= Written(ctx.algo, ctx.fullMessageSize == 0, size)
      requires output != contextBuffer && output != ctx.blk && output != ctx.runningHash
      modifies this, contextBuffer, ctx, ctx.runningHash, output
      ensures Valid() && ctx.Valid() && Reported(old(reports), reports, status)
      ensures old(ctx.fullMessageSize) == 0 ==> status == Success
      ensures erased <==> old(ctx.fullMessageSize) != 0
      ensures size' == if erased && size.Some? then Some(AnswerLen(old(ctx.algo), size)) else size
      ensures status == Success ==>
                var r := Finish(engine, old(Value()), old(ctx.Value()), old(output[..]), size);
                && Value() == r.dcp && output[..] == r.output && size' == r.size
                && erased == r.ctx.None? && (!erased ==> ctx.Value() == r.ctx.value)
    {
      hide Send, EnterFinish, Reversed, Overwrite, NullDigest;
      EnterForFinish(ctx);
      ghost var entered := (Value(), ctx.Value());
      if ctx.fullMessageSize == 0 {
        CopyOut(output, NullDigest(ctx.algo));
        return Success, size, false;
      }
      ctx.hashTerm := true;
      status := HashUpdateBlocking(ctx, ctx.blk[..ctx.blksz]);
      assert status == Success ==> (Value(), ctx.Value())
                                   == Send(engine, entered.0, entered.1.(term := true), entered.1.blk[..entered.1.blksz]);
      size' := OutputDigest(ctx.algo, ctx.runningHash[..], output, size);
      return status, size', true;
    }

    /** DCP_HASH: a context of its own, one Update and Finish. It answers for the input unless the engine
        reports a failure, whatever state the engine and the shared buffer are in. */
    method Hash(algo: Algo, channel: Channel, input: seq<Byte>, output: array<Byte>, size: Option<nat>)
      returns (status: Status, size': Option<nat>)
      requires Valid() && Addressable(input) && output != contextBuffer
      requires output.Length >= Written(algo, |input| == 0, size)
      modifies this, contextBuffer, output
      ensures Valid() && Reported(old(reports), reports, status)
      ensures status == Success ==>
                (output[..], size') == Answer(engine, algo, input, old(output[..]), size)
    {
      hide Answer, Update, Finish, Written, Tracks, EngineOk;
      var ctx := new HashContext();
      ghost var memory := ctx.Value();
      HashInitialize(ctx, algo, channel);
      InitTracks(engine, memory, algo, channel);
      ghost var d, c := Value(), ctx.Value();
      status := HashAddInput(ctx, input);
      if status != Success {
        return status, size;
      }
      UpdateTracks(engine, d, c, input, [], []);
      ghost var d1, c1 := Value(), ctx.Value();
      assert [] + input == input;
      CountOf(engine, c1, input, [] + Since(d, d1));
      FinishAnswers(engine, d1, c1, output[..], size, input, [] + Since(d, d1));
      var erased;
      status, size', erased := HashFinish(ctx, output, size);
    }

    /** The tail of DCP_HASH_Finish: how much of the digest the caller has room for. */
    method OutputDigest(algo: Algo, payload: seq<Byte>, output: array<Byte>, size: Option<nat>)
      returns (size': Option<nat>)
      requires OutLen(algo) <= |payload| && AnswerLen(algo, size) <= output.Length
      modifies output
      ensures output[..] == Overwrite(old(output[..]), Reversed(payload[..AnswerLen(algo, size)]))
      ensures size' == if size.Some? then Some(AnswerLen(algo, size)) else None
    {
      var algOutSize := OutLen(algo);
      size' := size;
      if size.Some? {
        if algOutSize < size.value {
          size' := Some(algOutSize);
        } else {
          algOutSize := size.value;
        }
      }
      ReverseAndCopy(payload[..algOutSize], output);
    }
  }
}
