/** SDK_Malloc and SDK_Free: an aligned payload inside a block of the system allocator, with a hidden
    header in front of it that leads back to the block. */
module AlignedHeap {
  import opened Bits

  type Byte = x: int | 0 <= x < 256
  datatype Option<T> = None | Some(value: T)

  const MAGIC := 12345
  const HEADER := 4

  // ---------------------------------------------------------------- memory

  type Memory = map<nat, Byte>

  function Read(m: Memory, a: nat): Byte { if a in m then m[a] else 0 }

  function Load16(m: Memory, a: nat): nat { Read(m, a) + 256 * Read(m, a + 1) }

  function Store16(m: Memory, a: nat, v: nat): Memory { m[a := v % 256][a + 1 := v / 256 % 256] }

  /** The header in front of a payload: identifier and 16-bit offset. */
  function StoreHeader(m: Memory, p: nat, offset: nat): Memory
    requires p >= HEADER
  {
    Store16(Store16(m, p - 4, MAGIC), p - 2, offset % 0x1_0000)
  }

  /** A header with this offset stands in front of `p`. */
  predicate HeaderAt(m: Memory, p: nat, offset: nat) {
    p >= HEADER && Load16(m, p - 4) == MAGIC && Load16(m, p - 2) == offset
  }

  /** Nothing changes outside `n` bytes at `p`. */
  ghost predicate OnlyAt(m: Memory, m': Memory, p: nat, n: nat) {
    forall a: nat :: !(p <= a < p + n) ==> Read(m', a) == Read(m, a)
  }

  lemma HeaderReadsBack(m: Memory, p: nat, offset: nat)
    requires p >= HEADER
    ensures HeaderAt(StoreHeader(m, p, offset), p, offset % 0x1_0000)
    ensures OnlyAt(m, StoreHeader(m, p, offset), p - HEADER, HEADER)
  {
    var v := offset % 0x1_0000;
    assert v == v % 256 + 256 * (v / 256 % 256);
  }

  // ---------------------------------------------------------------- sizes and addresses

  /** SDK_SIZEALIGN, with 32-bit arithmetic. */
  function SizeAlign(v: int, a: Word): Word
    requires a >= 1
  {
    And(Low32(v + (a - 1)), Not(a - 1))
  }

  /** The size asked of malloc. */
  function RawSize(size: Word, a: Word): Word
    requires a >= 1
  {
    Low32(SizeAlign(size, a) + a + HEADER)
  }

  function Payload(base: Word, a: Word): Word
    requires a >= 1
  {
    SizeAlign(Low32(base + HEADER), a)
  }

  lemma SizeAlignRoundsUp(v: nat, a: Word)
    requires PowerOfTwo(a) && v + (a - 1) < TWO32
    ensures v <= SizeAlign(v, a) < v + a && SizeAlign(v, a) % a == 0
  {
    var x := v + (a - 1);
    Low32Id(x);
    MaskRoundsDown(x, a);
    RoundDown(x, a);
  }

  /** The request arithmetic overflows 32 bits. */
  predicate Wraps(size: Word, a: Word)
    requires a >= 1
  {
    size + (a - 1) >= TWO32 || SizeAlign(size, a) + a + HEADER >= TWO32
  }

  /** For every block malloc can return, the payload is aligned, and it lies in the block behind room
      for the header if and only if the request arithmetic did not wrap. */
  lemma PayloadExact(size: Word, a: Word, base: Word)
    requires PowerOfTwo(a) && base + RawSize(size, a) <= TWO32
    ensures Payload(base, a) % a == 0
    ensures base + HEADER <= Payload(base, a) && Payload(base, a) + size <= base + RawSize(size, a)
            <==> !Wraps(size, a)
  {
    if base + HEADER + a <= TWO32 {
      PayloadInBlock(size, a, base);
    } else {
      PayloadAligned(a, base);
      RawSizeSum(size, a);
      if size + (a - 1) < TWO32 {
        SizeAlignRoundsUp(size, a);
      } else {
        SizeAlignOverflows(size, a);
      }
    }
  }

  lemma PayloadAligned(a: Word, base: Word)
    requires PowerOfTwo(a)
    ensures Payload(base, a) % a == 0
  {
    assert a >= 1;
    hide Low32, And, Not, PowerOfTwo;
    var x := Low32(Low32(base + HEADER) + (a - 1));
    MaskRoundsDown(x, a);
    RoundDown(x, a);
  }

  /** With room for a header and a whole alignment, the payload is where it should be even if the
      block is too short for it. */
  lemma PayloadInBlock(size: Word, a: Word, base: Word)
    requires PowerOfTwo(a) && base + RawSize(size, a) <= TWO32 && base + HEADER + a <= TWO32
    ensures Payload(base, a) % a == 0 && base + HEADER <= Payload(base, a) < base + HEADER + a
    ensures Payload(base, a) + size <= base + RawSize(size, a) <==> !Wraps(size, a)
  {
    Low32Id(base + HEADER);
    SizeAlignRoundsUp(base + HEADER, a);
    if size + (a - 1) < TWO32 {
      SizeAlignRoundsUp(size, a);
      RawSizeSum(size, a);
    } else {
      SizeAlignOverflows(size, a);
      RawSizeSum(size, a);
    }
  }

  lemma SizeAlignOverflows(size: Word, a: Word)
    requires PowerOfTwo(a) && size + (a - 1) >= TWO32
    ensures SizeAlign(size, a) == 0 && a <= 0x8000_0000
  {
    var x := Low32(size + (a - 1));
    Low32Wraps(size + (a - 1));
    MaskRoundsDown(x, a);
    ModUnique(x, a, 0, x);
  }

  lemma RawSizeSum(size: Word, a: Word)
    requires PowerOfTwo(a)
    ensures a <= 0x8000_0000
    ensures var n := SizeAlign(size, a) + a + HEADER;
            RawSize(size, a) == if n < TWO32 then n else n - TWO32
  {
    MaskRoundsDown(0, a);
    var n := SizeAlign(size, a) + a + HEADER;
    if n < TWO32 { Low32Id(n); } else { Low32Wraps(n); }
  }

  // ---------------------------------------------------------------- the heap

  /** A payload the caller holds: its block's base, its size, its alignment and the bytes in it. */
  datatype Live = Live(base: nat, size: nat, align: nat, data: seq<Byte>)

  /** Memory, the blocks malloc has handed out (base to size), and the payloads in use. */
  datatype Heap = Heap(mem: Memory, raw: map<nat, nat>, live: map<nat, Live>)

  predicate Overlap(a: nat, m: nat, b: nat, n: nat) { a < b + n && b < a + m }

  /** malloc may answer any block, not at address 0, that misses every block in use. */
  predicate FreshBlock(h: Heap, base: nat, n: nat) {
    && 0 < base && base + n <= TWO32
    && base !in h.raw
    && forall b :: b in h.raw ==> !Overlap(base, n, b, h.raw[b])
  }

  /** SDK_Malloc, given malloc's answer. */
  function MallocStep(h: Heap, size: Word, a: Word, answer: Option<Word>): (Heap, Option<nat>)
    requires a >= 1 && (answer.Some? ==> Payload(answer.value, a) >= HEADER)
  {
    if answer.None? then (h, None)
    else
      var base := answer.value;
      var p := Payload(base, a);
      (h.(mem := StoreHeader(h.mem, p, Low32(p - base)), raw := h.raw[base := RawSize(size, a)]), Some(p))
  }

  /** SDK_Free: the address handed to free, or None if the identifier does not match. */
  function FreeTarget(m: Memory, p: nat): Option<Word>
    requires HEADER <= p < TWO32
  {
    if Load16(m, p - 4) != MAGIC then None else Some(Low32(p - Load16(m, p - 2)))
  }

  function Bytes(m: Memory, p: nat, n: nat): (s: seq<Byte>)
    ensures |s| == n && forall i :: 0 <= i < n ==> s[i] == Read(m, p + i)
  {
    if n == 0 then [] else Bytes(m, p, n - 1) + [Read(m, p + n - 1)]
  }

  /** Everything about one live payload. */
  predicate PayloadOk(m: Memory, raw: map<nat, nat>, p: nat, l: Live) {
    && l.base in raw && l.base + HEADER <= p && p + l.size <= l.base + raw[l.base] <= TWO32
    && p < TWO32 && p - l.base < 0x1_0000
    && HeaderAt(m, p, p - l.base)
    && |l.data| == l.size && (forall i :: 0 <= i < l.size ==> Read(m, p + i) == l.data[i])
  }

  predicate LiveOk(h: Heap, p: nat)
    requires p in h.live
  {
    PayloadOk(h.mem, h.raw, p, h.live[p])
  }

  predicate Aligned(h: Heap) {
    forall p :: p in h.live ==> h.live[p].align >= 1 && p % h.live[p].align == 0
  }

  predicate BlocksApart(h: Heap) {
    && (forall b, c :: b in h.raw && c in h.raw && b != c ==> !Overlap(b, h.raw[b], c, h.raw[c]))
    && (forall p, q :: p in h.live && q in h.live && p != q ==> h.live[p].base != h.live[q].base)
  }

  predicate Inv(h: Heap) {
    BlocksApart(h) && forall p :: p in h.live ==> LiveOk(h, p)
  }

  /** Headers and payloads of different live pointers never share a byte. */
  lemma LiveRangesApart(h: Heap, p: nat, q: nat)
    requires Inv(h) && p in h.live && q in h.live && p != q
    ensures p >= HEADER && q >= HEADER
    ensures !Overlap(p - HEADER, HEADER + h.live[p].size, q - HEADER, HEADER + h.live[q].size)
  {
    assert LiveOk(h, p) && LiveOk(h, q);
  }

  /** A write that stays clear of another payload and its header leaves it in order. */
  lemma OtherWritesKeepLive(h: Heap, m: Memory, q: nat)
    requires q in h.live && LiveOk(h, q)
    requires forall a: nat :: q - HEADER <= a < q + h.live[q].size ==> Read(m, a) == Read(h.mem, a)
    ensures LiveOk(h.(mem := m), q)
  {
  }

  /** A block is freed at its base if and only if the distance to its payload fits the header's 16
      bits; any other is freed at an address that is not its base. */
  lemma FreeTargetExact(h: Heap, size: Word, a: Word, base: Word)
    requires a >= 1 && Payload(base, a) >= HEADER
    ensures var p := Payload(base, a);
            var h' := MallocStep(h, size, a, Some(base)).0;
            FreeTarget(h'.mem, p) == Some(base) <==> Low32(p - base) < 0x1_0000
  {
    hide StoreHeader, HeaderAt, FreeTarget, OnlyAt, Payload, RawSize;
    var p := Payload(base, a);
    HeaderReadsBack(h.mem, p, Low32(p - base));
    FreeTargetOf(StoreHeader(h.mem, p, Low32(p - base)), p, base);
  }

  lemma FreeTargetOf(m: Memory, p: Word, base: Word)
    requires HeaderAt(m, p, Low32(p - base) % 0x1_0000)
    ensures FreeTarget(m, p) == Some(base) <==> Low32(p - base) < 0x1_0000
  {
    hide Low32;
    var d := Low32(p - base);
    SmallOffset(d);
    Distance(p, base);
    Distance(p, d % 0x1_0000);
  }

  /** A 32-bit difference, and the number it is subtracted from again. */
  lemma Distance(p: Word, q: Word)
    ensures Low32(p - q) == if p >= q then p - q else p - q + TWO32
  {
    if p >= q { Low32Id(p - q); } else { Low32Borrows(p - q); }
  }

  /** A pointer without the identifier 12345 in front of it is refused: nothing reaches free, and memory
      and blocks stay. */
  lemma FreeRefusesExact(h: Heap, p: Word)
    requires p >= HEADER
    ensures FreeTarget(h.mem, p).None? <==> Read(h.mem, p - 4) + 256 * Read(h.mem, p - 3) != 12345
    ensures FreeTarget(h.mem, p).None? ==> FreeStep(h, p).mem == h.mem && FreeStep(h, p).raw == h.raw
  {
  }

  lemma SmallOffset(d: nat)
    ensures 0 <= d % 0x1_0000 <= d && (d % 0x1_0000 == d <==> d < 0x1_0000)
  {
  }

  /** Alignments up to 32 KiB always fit. */
  lemma SmallAlignmentsFit(a: Word, base: Word)
    requires PowerOfTwo(a) && a <= 0x8000 && base + HEADER + a <= TWO32
    ensures Payload(base, a) - base < 0x1_0000
  {
    Low32Id(base + HEADER);
    SizeAlignRoundsUp(base + HEADER, a);
  }

  // ---------------------------------------------------------------- runs

  /** Client calls. `Alloc` carries malloc's answer. */
  datatype Op =
    | Alloc(size: Word, align: Word, answer: Option<Word>)
    | Write(p: nat, at: nat, b: Byte)
    | Free(p: nat)

  /** What a client may do, and what malloc may answer. Alignments are powers of two; the request
      does not wrap and its offset fits the header. Writes stay inside a live payload, and only live
      pointers are freed. */
  ghost predicate Legal(h: Heap, op: Op) {
    match op
    case Alloc(size, a, answer) =>
      PowerOfTwo(a) && !Wraps(size, a) && (answer.Some? ==> GoodRequest(h, size, a, answer.value))
    case Write(p, at, _) => p in h.live && at < h.live[p].size
    case Free(p) => p in h.live
  }

  ghost predicate GoodRequest(h: Heap, size: Word, a: Word, base: Word) {
    && PowerOfTwo(a) && a >= 1 && !Wraps(size, a)
    && FreshBlock(h, base, RawSize(size, a)) && Payload(base, a) - base < 0x1_0000
  }

  lemma AllocArithmetic(h: Heap, size: Word, a: Word, base: Word)
    requires GoodRequest(h, size, a, base)
    ensures base + HEADER + a <= base + RawSize(size, a) <= TWO32
    ensures Payload(base, a) % a == 0 && base + HEADER <= Payload(base, a) < TWO32
    ensures Payload(base, a) + size <= base + RawSize(size, a)
  {
    Low32Id(SizeAlign(size, a) + a + HEADER);
    PayloadInBlock(size, a, base);
  }

  function Hold(h: Heap, p: nat, l: Live): Heap { h.(live := h.live[p := l]) }

  function AllocStep(h: Heap, size: Word, a: Word, base: Word): Heap
    requires a >= 1 && Payload(base, a) >= HEADER
  {
    var (h', p) := MallocStep(h, size, a, Some(base));
    Hold(h', p.value, Live(base, size, a, Bytes(h'.mem, p.value, size)))
  }

  function WriteStep(h: Heap, p: nat, at: nat, b: Byte): Heap
    requires p in h.live && at < |h.live[p].data|
  {
    Hold(h.(mem := h.mem[p + at := b]), p, h.live[p].(data := h.live[p].data[at := b]))
  }

  function FreeStep(h: Heap, p: nat): Heap
    requires HEADER <= p < TWO32
  {
    var target := FreeTarget(h.mem, p);
    h.(raw := if target.Some? then h.raw - {target.value} else h.raw, live := h.live - {p})
  }

  ghost function Step(h: Heap, op: Op): Heap
    requires Inv(h) && Legal(h, op)
  {
    match op
    case Alloc(size, a, answer) =>
      if answer.None? then h
      else
        AllocArithmetic(h, size, a, answer.value);
        AllocStep(h, size, a, answer.value)
    case Write(p, at, b) =>
      assert LiveOk(h, p);
      WriteStep(h, p, at, b)
    case Free(p) =>
      assert LiveOk(h, p);
      FreeStep(h, p)
  }

  /** A new payload with its header, in a block that malloc found free. */
  lemma NewPayloadKeepsInv(h: Heap, base: nat, n: nat, m: Memory, p: nat, l: Live)
    requires Inv(h) && FreshBlock(h, base, n) && l.base == base
    requires base + HEADER <= p && p + l.size <= base + n && p < TWO32 && p - base < 0x1_0000
    requires HeaderAt(m, p, p - base) && OnlyAt(h.mem, m, p - HEADER, HEADER) && l.data == Bytes(m, p, l.size)
    ensures p !in h.live && Inv(Hold(h.(mem := m, raw := h.raw[base := n]), p, l))
  {
    hide OnlyAt, FreshBlock, HeaderAt;
    var h' := Hold(h.(mem := m, raw := h.raw[base := n]), p, l);
    NewBlockApart(h, base, n);
    assert PayloadOk(m, h'.raw, p, l) by {
      assert n <= TWO32 - base by { BlockFits(h, base, n); }
    }
    hide PayloadOk;
    forall q | q in h.live ensures q != p && h.live[q].base != base && PayloadOk(m, h'.raw, q, h.live[q]) {
      assert LiveOk(h, q);
      ExistingPayloadKept(h, base, n, m, p, q);
    }
  }

  lemma BlockFits(h: Heap, base: nat, n: nat)
    requires FreshBlock(h, base, n)
    ensures base + n <= TWO32
  {
  }

  lemma NewBlockApart(h: Heap, base: nat, n: nat)
    requires BlocksApart(h) && FreshBlock(h, base, n)
    ensures BlocksApart(h.(raw := h.raw[base := n]))
  {
  }

  lemma ExistingPayloadKept(h: Heap, base: nat, n: nat, m: Memory, p: nat, q: nat)
    requires q in h.live && LiveOk(h, q) && FreshBlock(h, base, n)
    requires base + HEADER <= p <= base + n && OnlyAt(h.mem, m, p - HEADER, HEADER)
    ensures h.live[q].base != base && p != q
    ensures PayloadOk(m, h.raw[base := n], q, h.live[q])
  {
    assert !Overlap(base, n, h.live[q].base, h.raw[h.live[q].base]);
    OtherWritesKeepLive(h, m, q);
  }

  lemma AllocStepIs(h: Heap, size: Word, a: Word, base: Word)
    requires a >= 1 && Payload(base, a) >= HEADER
    ensures var p := Payload(base, a);
            var m := StoreHeader(h.mem, p, Low32(p - base));
            AllocStep(h, size, a, base)
            == Heap(m, h.raw[base := RawSize(size, a)], h.live[p := Live(base, size, a, Bytes(m, p, size))])
  {
  }

  lemma AllocStepShape(h: Heap, size: Word, a: Word, base: Word)
    requires GoodRequest(h, size, a, base)
    ensures var p := Payload(base, a);
            && base + HEADER <= p < TWO32 && p + size <= base + RawSize(size, a) && p % a == 0
            && var m := StoreHeader(h.mem, p, p - base);
               AllocStep(h, size, a, base)
               == Hold(h.(mem := m, raw := h.raw[base := RawSize(size, a)]), p, Live(base, size, a, Bytes(m, p, size)))
  {
    AllocArithmetic(h, size, a, base);
    Low32Id(Payload(base, a) - base);
  }

  lemma SmallHeaderReadsBack(m: Memory, p: nat, offset: nat)
    requires p >= HEADER && offset < 0x1_0000
    ensures HeaderAt(StoreHeader(m, p, offset), p, offset)
    ensures OnlyAt(m, StoreHeader(m, p, offset), p - HEADER, HEADER)
  {
    HeaderReadsBack(m, p, offset);
  }

  /** SDK_Malloc gives an aligned payload apart from everything in use. */
  lemma AllocKeepsInv(h: Heap, size: Word, a: Word, base: Word)
    requires Inv(h) && GoodRequest(h, size, a, base)
    ensures Payload(base, a) >= HEADER && Inv(AllocStep(h, size, a, base))
    ensures Aligned(h) ==> Aligned(AllocStep(h, size, a, base))
  {
    AllocStepShape(h, size, a, base);
    var p, n := Payload(base, a), RawSize(size, a);
    var m := StoreHeader(h.mem, p, p - base);
    SmallHeaderReadsBack(h.mem, p, p - base);
    AllocMemoryKeepsInv(h, base, n, m, p, Live(base, size, a, Bytes(m, p, size)));
  }

  lemma AllocMemoryKeepsInv(h: Heap, base: nat, n: nat, m: Memory, p: nat, l: Live)
    requires Inv(h) && FreshBlock(h, base, n) && l.base == base && l.align >= 1 && p % l.align == 0
    requires base + HEADER <= p && p + l.size <= base + n && p < TWO32 && p - base < 0x1_0000
    requires HeaderAt(m, p, p - base) && OnlyAt(h.mem, m, p - HEADER, HEADER) && l.data == Bytes(m, p, l.size)
    ensures var h' := Hold(h.(mem := m, raw := h.raw[base := n]), p, l);
            Inv(h') && (Aligned(h) ==> Aligned(h'))
  {
    NewPayloadKeepsInv(h, base, n, m, p, l);
  }

  lemma WriteKeepsInv(h: Heap, p: nat, at: nat, b: Byte)
    requires Inv(h) && p in h.live && at < h.live[p].size
    ensures LiveOk(h, p) && Inv(WriteStep(h, p, at, b))
    ensures Aligned(h) ==> Aligned(WriteStep(h, p, at, b))
  {
    var l := h.live[p];
    assert LiveOk(h, p);
    ClientWriteKeepsInv(h, p, h.mem[p + at := b], l.(data := l.data[at := b]));
  }

  lemma ClientWriteKeepsInv(h: Heap, p: nat, m: Memory, l: Live)
    requires Inv(h) && p in h.live && OnlyAt(h.mem, m, p, h.live[p].size)
    requires l == h.live[p].(data := l.data) && |l.data| == l.size
    requires forall i :: 0 <= i < l.size ==> Read(m, p + i) == l.data[i]
    ensures Inv(Hold(h.(mem := m), p, l))
  {
    hide PayloadOk, OnlyAt;
    OwnWriteKept(h, p, m, l);
    forall q | q in h.live && q != p ensures PayloadOk(m, h.raw, q, h.live[q]) {
      OtherPayloadKept(h, p, m, q);
    }
  }

  lemma OwnWriteKept(h: Heap, p: nat, m: Memory, l: Live)
    requires Inv(h) && p in h.live && OnlyAt(h.mem, m, p, h.live[p].size)
    requires l == h.live[p].(data := l.data) && |l.data| == l.size
    requires forall i :: 0 <= i < l.size ==> Read(m, p + i) == l.data[i]
    ensures PayloadOk(m, h.raw, p, l)
  {
    assert LiveOk(h, p);
  }

  lemma OtherPayloadKept(h: Heap, p: nat, m: Memory, q: nat)
    requires Inv(h) && p in h.live && q in h.live && p != q && OnlyAt(h.mem, m, p, h.live[p].size)
    ensures PayloadOk(m, h.raw, q, h.live[q])
  {
    assert LiveOk(h, p) && LiveOk(h, q);
    LiveRangesApart(h, p, q);
    OtherWritesKeepLive(h, m, q);
  }

  /** Freeing a live pointer hands free exactly the base that malloc returned for it, so its block and
      no other is released. */
  lemma FreeKeepsInv(h: Heap, p: nat)
    requires Inv(h) && p in h.live
    ensures HEADER <= p < TWO32 && FreeTarget(h.mem, p) == Some(h.live[p].base)
    ensures FreeStep(h, p).raw == h.raw - {h.live[p].base}
    ensures Inv(FreeStep(h, p)) && (Aligned(h) ==> Aligned(FreeStep(h, p)))
  {
    assert LiveOk(h, p);
    LiveIsFreed(h.mem, h.raw, p, h.live[p]);
    hide FreeTarget, PayloadOk;
    forall q | q in h.live && q != p ensures PayloadOk(h.mem, h.raw - {h.live[p].base}, q, h.live[q]) {
      assert LiveOk(h, q);
      OtherBlockKept(h.mem, h.raw, q, h.live[q], h.live[p].base);
    }
  }

  lemma LiveIsFreed(m: Memory, raw: map<nat, nat>, p: nat, l: Live)
    requires PayloadOk(m, raw, p, l)
    ensures HEADER <= p < TWO32 && FreeTarget(m, p) == Some(l.base)
  {
    hide FreeTarget;
    Distance(p, l.base);
    SmallOffset(p - l.base);
    FreeTargetOf(m, p, l.base);
  }

  lemma OtherBlockKept(m: Memory, raw: map<nat, nat>, q: nat, l: Live, base: nat)
    requires PayloadOk(m, raw, q, l) && l.base != base
    ensures PayloadOk(m, raw - {base}, q, l)
  {
  }

  ghost predicate RunLegal(h: Heap, ops: seq<Op>)
    requires Inv(h)
    decreases |ops|
  {
    ops == [] ||
    (&& Legal(h, ops[0])
     && (StepKeepsInv(h, ops[0]);
         RunLegal(Step(h, ops[0]), ops[1..])))
  }

  lemma StepKeepsInv(h: Heap, op: Op)
    requires Inv(h) && Legal(h, op)
    ensures Inv(Step(h, op)) && (Aligned(h) ==> Aligned(Step(h, op)))
  {
    match op
    case Alloc(size, a, answer) => if answer.Some? { AllocKeepsInv(h, size, a, answer.value); }
    case Write(p, at, b) => WriteKeepsInv(h, p, at, b);
    case Free(p) => FreeKeepsInv(h, p);
  }

  ghost function Run(h: Heap, ops: seq<Op>): (h': Heap)
    requires Inv(h) && RunLegal(h, ops)
    ensures Inv(h') && (Aligned(h) ==> Aligned(h'))
    decreases |ops|
  {
    if ops == [] then h
    else
      StepKeepsInv(h, ops[0]);
      Run(Step(h, ops[0]), ops[1..])
  }

  /** Over every legal run from an empty heap: each payload in use is aligned and lies in its own
      block behind a header that leads back to the block, its bytes are the ones its client wrote,
      blocks never overlap, and a free releases exactly the block that malloc gave. */
  lemma RunsKeepPayloads(mem: Memory, ops: seq<Op>)
    requires RunLegal(Heap(mem, map[], map[]), ops)
    ensures var h := Run(Heap(mem, map[], map[]), ops);
            Inv(h) && Aligned(h)
            && forall p :: p in h.live ==> HEADER <= p < TWO32 && FreeTarget(h.mem, p) == Some(h.live[p].base)
  {
    var h := Run(Heap(mem, map[], map[]), ops);
    forall p | p in h.live ensures HEADER <= p < TWO32 && FreeTarget(h.mem, p) == Some(h.live[p].base) {
      FreeKeepsInv(h, p);
    }
  }

  // ---------------------------------------------------------------- the two functions in place

  /** The allocator as written: headers are stored to and read from memory through an address. */
  class SdkHeap {
    var mem: Memory
    ghost var raw: map<nat, nat>
    ghost var live: map<nat, Live>

    ghost function State(): Heap
      reads this
    {
      Heap(mem, raw, live)
    }

    constructor ()
      ensures State() == Heap(map[], map[], map[]) && Inv(State())
    {
      mem, raw, live := map[], map[], map[];
    }

    method Store(a: nat, v: nat)
      modifies this`mem
      ensures mem == Store16(old(mem), a, v)
    {
      mem := mem[a := v % 256];
      mem := mem[a + 1 := v / 256 % 256];
    }

    /** The header: identifier and offset, cut to 16 bits. */
    method StoreBlock(p: nat, offset: nat)
      requires p >= HEADER
      modifies this`mem
      ensures mem == StoreHeader(old(mem), p, offset)
    {
      Store(p - 4, MAGIC);
      Store(p - 2, offset % 0x1_0000);
    }

    /** SDK_Malloc. `answer` is what malloc returned, None for a null pointer. */
    method SdkMalloc(size: Word, alignbytes: Word, answer: Option<Word>) returns (ptr: Option<nat>)
      requires alignbytes >= 1 && (answer.Some? ==> Payload(answer.value, alignbytes) >= HEADER)
      modifies this
      ensures answer.None? ==> ptr == None && State() == old(State())
      ensures answer.Some? ==> ptr == Some(Payload(answer.value, alignbytes))
                               && State() == AllocStep(old(State()), size, alignbytes, answer.value)
      ensures answer.Some? && old(Inv(State())) && GoodRequest(old(State()), size, alignbytes, answer.value) ==>
                Inv(State())
    {
      if answer.None? {
        return None;
      }
      hide Inv, GoodRequest, Bytes, StoreHeader;
      ghost var before := State();
      ghost var alignedsize := Low32(SizeAlign(size, alignbytes) + alignbytes + HEADER);
      var addr := answer.value;
      var alignAddr := SizeAlign(Low32(addr + HEADER), alignbytes);
      StoreBlock(alignAddr, Low32(alignAddr - addr));
      assert alignedsize == RawSize(size, alignbytes) && alignAddr == Payload(addr, alignbytes);
      AllocStepIs(before, size, alignbytes, addr);
      hide AllocStep, RawSize, Payload, SizeAlign, Low32;
      raw := raw[addr := alignedsize];
      live := live[alignAddr := Live(addr, size, alignbytes, Bytes(mem, alignAddr, size))];
      assert State() == AllocStep(before, size, alignbytes, addr);
      if Inv(before) && GoodRequest(before, size, alignbytes, addr) {
        AllocKeepsInv(before, size, alignbytes, addr);
      }
      return Some(alignAddr);
    }

    /** SDK_Free. `freed` is the address handed to free, None if the identifier does not match. */
    method SdkFree(ptr: nat) returns (freed: Option<Word>)
      requires HEADER <= ptr < TWO32
      modifies this`raw, this`live
      ensures freed == FreeTarget(mem, ptr) && State() == FreeStep(old(State()), ptr)
      ensures old(Inv(State())) && ptr in old(live) ==>
                Inv(State()) && freed == Some(old(live)[ptr].base) && raw == old(raw) - {old(live)[ptr].base}
    {
      ghost var before := State();
      if Inv(before) && ptr in live {
        FreeKeepsInv(before, ptr);
      }
      var identifier := Load16(mem, ptr - 4);
      if identifier != MAGIC {
        live := live - {ptr};
        return None;
      }
      freed := Some(Low32(ptr - Load16(mem, ptr - 2)));
      raw := raw - {freed.value};
      live := live - {ptr};
    }
  }
}
