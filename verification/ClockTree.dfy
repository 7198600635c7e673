/** Register fields packed into one word, the multiplexers and dividers reached through them, the phase
    fractional dividers and the chain of bus clocks. */
module ClockTree {
  import opened Quotients

  // The word operations, named so that proofs about their laws need not expand them.

  type Shift = s: bv32 | s < 32

  function And(x: bv32, y: bv32): bv32 { x & y }

  function Or(x: bv32, y: bv32): bv32 { x | y }

  function Not(x: bv32): bv32 { !x }

  function Shl(x: bv32, s: Shift): bv32 { x << s }

  function Shr(x: bv32, s: Shift): bv32 { x >> s }

  lemma ShlStep(x: bv32, s: Shift)
    requires 0 < s
    ensures Shl(x, s) == Shl(Shl(x, 1), s - 1)
  {
  }

  lemma ShrStep(x: bv32, s: Shift)
    requires 0 < s
    ensures Shr(x, s) == Shr(Shr(x, s - 1), 1)
  {
  }

  lemma MaskShiftedByOne(v: bv32, m: bv32)
    ensures Shr(And(Shl(v, 1), m), 1) == And(v, Shr(m, 1))
    ensures Shr(And(Shl(v, 0), m), 0) == And(v, Shr(m, 0))
  {
  }

  /** Masking in place is masking before the shift. */
  lemma {:induction false} MaskShifted(v: bv32, m: bv32, s: Shift)
    ensures Shr(And(Shl(v, s), m), s) == And(v, Shr(m, s))
    decreases s
  {
    hide Shl, Shr, And;
    if s == 0 {
      MaskShiftedByOne(v, m);
    } else {
      ShlStep(v, s);
      ShrStep(And(Shl(v, s), m), s);
      ShrStep(m, s);
      MaskShifted(Shl(v, 1), m, s - 1);
      MaskShiftedByOne(v, Shr(m, s - 1));
    }
  }

  // ---------------------------------------------------------------- packed field descriptors

  /** A field of a CCM register: byte offset of the register, position, mask in place, and the
      handshake bit to wait for (32 for none). */
  datatype Field = Field(reg: bv32, shift: Shift, mask: bv32, busy: bv32)

  /** Four parts laid side by side: eight bits, five, thirteen and six. */
  function Join(r: bv32, s: bv32, m: bv32, b: bv32): bv32 { r | (s << 8) | (m << 13) | (b << 26) }

  /** CCM_TUPLE. */
  function Pack(f: Field): bv32 { Join(And(f.reg, 0xFF), f.shift, And(Shr(f.mask, f.shift), 0x1FFF), f.busy) }

  function TupleReg(t: bv32): bv32 { And(t, 0xFF) }

  function TupleShift(t: bv32): Shift { (t >> 8) & 0x1F }

  /** The mask before it is put in place. */
  function TupleWidth(t: bv32): bv32 { And(Shr(t, 13), 0x1FFF) }

  function TupleMask(t: bv32): bv32 { Shl(TupleWidth(t), TupleShift(t)) }

  function TupleBusy(t: bv32): bv32 { And(Shr(t, 26), 0x3F) }

  function Unpack(t: bv32): Field { Field(TupleReg(t), TupleShift(t), TupleMask(t), TupleBusy(t)) }

  /** A field the packing has room for: eight bits of offset, six of handshake, and no mask bit outside
      the thirteen from its position up. */
  predicate Packable(f: Field) {
    f.reg <= 0xFF && f.busy <= 0x3F && And(f.mask, Not(Shl(0x1FFF, f.shift))) == 0
  }

  lemma ThirteenBits(mask: bv32, s: Shift)
    ensures Shl(And(Shr(mask, s), 0x1FFF), s) == mask <==> And(mask, Not(Shl(0x1FFF, s))) == 0
  {
  }

  lemma PartsApart(r: bv32, s: Shift, m: bv32, b: bv32)
    requires r <= 0xFF && m <= 0x1FFF
    ensures var t := Join(r, s, m, b);
            TupleReg(t) == r && TupleShift(t) == s && TupleWidth(t) == m && TupleBusy(t) == And(b, 0x3F)
  {
  }

  lemma LowPart(x: bv32)
    ensures And(x, 0xFF) <= 0xFF && (And(x, 0xFF) == x <==> x <= 0xFF)
    ensures And(x, 0x3F) <= 0x3F && (And(x, 0x3F) == x <==> x <= 0x3F)
    ensures And(x, 0x1FFF) <= 0x1FFF
  {
  }

  /** Packing loses nothing exactly for the fields it has room for. */
  lemma UnpackPackExact(f: Field)
    ensures Unpack(Pack(f)) == f <==> Packable(f)
  {
    hide And, Not, Shl, Shr, Join, TupleReg, TupleShift, TupleWidth, TupleBusy;
    ThirteenBits(f.mask, f.shift);
    LowPart(f.reg);
    LowPart(f.busy);
    LowPart(Shr(f.mask, f.shift));
    PartsApart(And(f.reg, 0xFF), f.shift, And(Shr(f.mask, f.shift), 0x1FFF), f.busy);
  }

  // ---------------------------------------------------------------- multiplexers and dividers

  /** The CCM registers, by byte offset. */
  type Registers = map<nat, bv32>

  function Offset(f: Field): nat { f.reg as nat }

  /** The word CLOCK_SetMux and CLOCK_SetDiv write. */
  function Insert(word: bv32, f: Field, v: bv32): bv32 {
    Or(And(word, Not(f.mask)), And(Shl(v, f.shift), f.mask))
  }

  /** What CLOCK_GetMux and CLOCK_GetDiv read. */
  function Extract(word: bv32, f: Field): bv32 { Shr(And(word, f.mask), f.shift) }

  function Set(regs: Registers, f: Field, v: bv32): Registers
    requires Offset(f) in regs
  {
    regs[Offset(f) := Insert(regs[Offset(f)], f, v)]
  }

  function Get(regs: Registers, f: Field): bv32
    requires Offset(f) in regs
  {
    Extract(regs[Offset(f)], f)
  }

  /** The part of a value its field can hold. */
  function Held(f: Field, v: bv32): bv32 { And(v, Shr(f.mask, f.shift)) }

  predicate Disjoint(f: Field, g: Field) { Offset(f) != Offset(g) || And(f.mask, g.mask) == 0 }

  lemma InsertThenExtract(word: bv32, f: Field, v: bv32)
    ensures Extract(Insert(word, f, v), f) == Held(f, v)
  {
    hide And, Or, Not, Shl, Shr;
    MergeKeeps(word, f.mask, f.mask, Shl(v, f.shift));
    MaskShifted(v, f.mask, f.shift);
  }

  lemma MergeKeeps(word: bv32, mask: bv32, other: bv32, x: bv32)
    ensures mask == other ==> And(Or(And(word, Not(mask)), And(x, mask)), other) == And(x, mask)
    ensures And(mask, other) == 0 ==> And(Or(And(word, Not(mask)), And(x, mask)), other) == And(word, other)
  {
  }

  lemma InsertElsewhere(word: bv32, f: Field, g: Field, v: bv32)
    requires And(f.mask, g.mask) == 0
    ensures Extract(Insert(word, f, v), g) == Extract(word, g)
  {
    hide And, Or, Not, Shl, Shr;
    MergeKeeps(word, f.mask, g.mask, Shl(v, f.shift));
  }

  datatype Write = Write(field: Field, value: bv32)

  predicate AllPresent(regs: Registers, ws: seq<Write>) { forall i :: 0 <= i < |ws| ==> Offset(ws[i].field) in regs }

  function Run(regs: Registers, ws: seq<Write>): (r: Registers)
    requires AllPresent(regs, ws)
    ensures r.Keys == regs.Keys
  {
    if ws == [] then regs
    else
      var before := Run(regs, ws[..|ws| - 1]);
      Set(before, ws[|ws| - 1].field, ws[|ws| - 1].value)
  }

  /** i is the last write of the field f. */
  predicate LastWrite(ws: seq<Write>, f: Field, i: int) {
    && 0 <= i < |ws| && ws[i].field == f
    && forall j :: i < j < |ws| ==> ws[j].field != f
  }

  /** After any sequence of sets on fields that are the same or disjoint, each get returns what the
      last set put into its field, or what was there if none did. */
  lemma {:induction false} GetReturnsLastSet(regs: Registers, ws: seq<Write>, f: Field)
    requires AllPresent(regs, ws) && Offset(f) in regs
    requires forall i :: 0 <= i < |ws| ==> ws[i].field == f || Disjoint(ws[i].field, f)
    ensures forall i :: LastWrite(ws, f, i) ==> Get(Run(regs, ws), f) == Held(f, ws[i].value)
    ensures (forall i :: 0 <= i < |ws| ==> ws[i].field != f) ==> Get(Run(regs, ws), f) == Get(regs, f)
  {
    hide Set, Get, Held, Disjoint, Offset, LastWrite;
    if ws == [] {
      NoLastWrite(f);
    } else {
      var n := |ws| - 1;
      var w, before := ws[n], Run(regs, ws[..n]);
      GetReturnsLastSet(regs, ws[..n], f);
      assert Run(regs, ws) == Set(before, w.field, w.value);
      if w.field == f {
        SetHere(before, f, w.value);
        LastWriteIsLast(ws, f);
      } else {
        SetElsewhere(before, w.field, f, w.value);
        LastWriteBefore(ws, f);
      }
    }
  }

  lemma NoLastWrite(f: Field)
    ensures forall i :: !LastWrite([], f, i)
  {
  }

  lemma LastWriteIsLast(ws: seq<Write>, f: Field)
    requires ws != [] && ws[|ws| - 1].field == f
    ensures forall i :: LastWrite(ws, f, i) ==> i == |ws| - 1
  {
  }

  lemma LastWriteBefore(ws: seq<Write>, f: Field)
    requires ws != [] && ws[|ws| - 1].field != f
    ensures forall i :: LastWrite(ws, f, i) ==> LastWrite(ws[..|ws| - 1], f, i) && ws[..|ws| - 1][i] == ws[i]
  {
  }

  lemma SetElsewhere(regs: Registers, f: Field, g: Field, v: bv32)
    requires Offset(f) in regs && Offset(g) in regs && Disjoint(f, g)
    ensures Get(Set(regs, f, v), g) == Get(regs, g)
  {
    hide Insert, Extract, And, Offset;
    assert Set(regs, f, v)[Offset(f)] == Insert(regs[Offset(f)], f, v);
    if Offset(f) == Offset(g) {
      InsertElsewhere(regs[Offset(f)], f, g, v);
    }
  }

  lemma SetHere(regs: Registers, f: Field, v: bv32)
    requires Offset(f) in regs
    ensures Get(Set(regs, f, v), f) == Held(f, v)
  {
    hide Insert, Extract, Held, Offset;
    assert Set(regs, f, v)[Offset(f)] == Insert(regs[Offset(f)], f, v);
    InsertThenExtract(regs[Offset(f)], f, v);
  }

  /** A get returns the very value set exactly when the value fits its field. */
  lemma GetAfterSetExact(regs: Registers, f: Field, v: bv32)
    requires Offset(f) in regs
    ensures Get(Set(regs, f, v), f) == v <==> And(v, Not(Shr(f.mask, f.shift))) == 0
  {
    hide Get, Set, And, Not, Shr, Offset;
    SetHere(regs, f, v);
    HeldExact(v, Shr(f.mask, f.shift));
  }

  lemma HeldExact(v: bv32, m: bv32)
    ensures And(v, m) == v <==> And(v, Not(m)) == 0
  {
    hide And, Not;
    if And(v, m) == v {
      NothingOutside(v, m);
    } else if And(v, Not(m)) == 0 {
      AllInside(v, m);
    }
  }

  lemma NothingOutside(v: bv32, m: bv32)
    requires And(v, m) == v
    ensures And(v, Not(m)) == 0
  {
  }

  lemma AllInside(v: bv32, m: bv32)
    requires And(v, Not(m)) == 0
    ensures And(v, m) == v
  {
  }

  // ---------------------------------------------------------------- phase fractional dividers

  /** The position of a divider's byte in a PFD register. */
  function PfdShift(i: bv2): Shift { if i == 0 then 0 else if i == 1 then 8 else if i == 2 then 16 else 24 }

  /** The byte of divider i: gate, stable bit and six bits of fraction. */
  function PfdByte(word: bv32, i: bv2): bv32 { (word >> PfdShift(i)) & 0xFF }

  /** A divider's gate and fraction replaced by x; its stable bit stays. */
  function PfdPut(word: bv32, i: bv2, x: bv8): bv32 {
    (word & !(0xBF << PfdShift(i))) | ((x as bv32) << PfdShift(i))
  }

  const PFD_GATE: bv8 := 0x80

  /** The two writes of CLOCK_InitSysPfd and CLOCK_InitUsb1Pfd. */
  function PfdGated(word: bv32, i: bv2): bv32 { PfdPut(word, i, PFD_GATE) }

  function PfdSet(word: bv32, i: bv2, frac: bv8): bv32 { PfdPut(word, i, frac & 0x3F) }

  /** The byte put there: the stable bit and the new bits. */
  function WithStable(b: bv32, x: bv8): bv32 { (b & 0x40) | x as bv32 }

  /** Between the two writes the output is gated; afterwards it runs with the new fraction, and the
      stable bit is as before. */
  lemma PfdOwnByte(word: bv32, i: bv2, frac: bv8)
    ensures PfdByte(PfdGated(word, i), i) == WithStable(PfdByte(word, i), PFD_GATE)
    ensures PfdByte(PfdSet(word, i, frac), i) == WithStable(PfdByte(word, i), frac & 0x3F)
    ensures PfdByte(PfdGated(word, i), i) & 0x80 != 0 && PfdByte(PfdSet(word, i, frac), i) & 0x80 == 0
  {
    hide PfdPut, PfdByte, WithStable;
    OwnByte(word, i, PFD_GATE);
    OwnByte(word, i, frac & 0x3F);
    GateBit(PfdByte(word, i), frac);
  }

  lemma GateBit(b: bv32, frac: bv8)
    ensures WithStable(b, PFD_GATE) & 0x80 != 0 && WithStable(b, frac & 0x3F) & 0x80 == 0
  {
    assert ((b & 0x40) | (frac & 0x3F) as bv32) & 0x80 == 0;
  }

  /** The fraction a getter reads, by the four masks and shifts it names. */
  function NamedFraction(word: bv32, i: bv2): bv32 {
    if i == 0 then word & 0x3F
    else if i == 1 then (word & 0x3F00) >> 8
    else if i == 2 then (word & 0x3F_0000) >> 16
    else (word & 0x3F00_0000) >> 24
  }

  /** The field a setter finds by shifting eight bits an index is the one the getter names. */
  lemma SetterAndGetterAgree(word: bv32, i: bv2)
    ensures PfdByte(word, i) & 0x3F == NamedFraction(word, i)
  {
  }

  lemma OwnByte(word: bv32, i: bv2, x: bv8)
    ensures PfdByte(PfdPut(word, i, x), i) == WithStable(PfdByte(word, i), x)
  {
    OwnByteBits(word, x as bv32, PfdShift(i));
  }

  lemma OwnByteBits(w: bv32, x: bv32, s: bv32)
    requires s in {0, 8, 16, 24} && x <= 0xFF
    ensures (((w & !(0xBF << s)) | (x << s)) >> s) & 0xFF == (((w >> s) & 0xFF) & 0x40) | x
  {
  }

  /** Neither write touches the other three dividers. */
  lemma PfdOtherBytes(word: bv32, i: bv2, j: bv2, frac: bv8)
    requires i != j
    ensures PfdByte(PfdGated(word, i), j) == PfdByte(word, j) == PfdByte(PfdSet(word, i, frac), j)
  {
    hide PfdPut, PfdByte;
    OtherByte(word, i, j, PFD_GATE);
    OtherByte(word, i, j, frac & 0x3F);
  }

  lemma OtherByte(word: bv32, i: bv2, j: bv2, x: bv8)
    requires i != j
    ensures PfdByte(PfdPut(word, i, x), j) == PfdByte(word, j)
  {
    OtherByteBits(word, x as bv32, PfdShift(i), PfdShift(j));
  }

  lemma OtherByteBits(w: bv32, x: bv32, s: bv32, t: bv32)
    requires s in {0, 8, 16, 24} && t in {0, 8, 16, 24} && s != t && x <= 0xFF
    ensures (((w & !(0xBF << s)) | (x << s)) >> t) & 0xFF == (w >> t) & 0xFF
  {
  }

  const TWO32 := 0x1_0000_0000

  datatype Option<T> = None | Some(value: T)

  /** The fraction of a divider's byte. */
  function FractionOf(b: bv32): nat { (b & 0x3F) as nat }

  /** CLOCK_GetSysPfdFreq and CLOCK_GetUsb1PfdFreq for a PLL frequency; None for a division by zero. */
  function PfdFrequency(pll: nat, word: bv32, i: bv2): Option<nat> {
    var frac := NamedFraction(word, i) as nat;
    if frac == 0 then None else Some(pll / frac * 18 % TWO32)
  }

  /** A reading that is never above the exact 18 * pll / d and less than 18 Hz below it. */
  predicate Close(r: nat, pll: nat, d: nat) { r * d <= 18 * pll < (r + 18) * d }

  /** The reading after a set-up is close exactly when it fits 32 bits, and then it is exact only when
      the fraction divides the PLL frequency. */
  lemma PfdReading(pll: nat, word: bv32, i: bv2, frac: bv8)
    requires 1 <= frac as nat <= 0x3F
    ensures var r, d := PfdFrequency(pll, PfdSet(word, i, frac), i), frac as nat;
            && r.Some?
            && (Close(r.value, pll, d) <==> pll / d * 18 < TWO32)
            && (r.value * d == 18 * pll <==> pll % d == 0 && pll / d * 18 < TWO32)
  {
    hide PfdByte, PfdSet, WithStable, FractionOf, NamedFraction, Close;
    PfdOwnByte(word, i, frac);
    FractionKept(PfdByte(word, i), frac);
    SetterAndGetterAgree(PfdSet(word, i, frac), i);
    FractionIs(PfdByte(PfdSet(word, i, frac), i));
    PfdQuotient(pll, PfdSet(word, i, frac), i, frac as nat);
  }

  lemma FractionIs(b: bv32)
    ensures FractionOf(b) == (b & 0x3F) as nat
  {
  }

  lemma PfdQuotient(pll: nat, word: bv32, i: bv2, d: nat)
    requires d > 0 && NamedFraction(word, i) as nat == d
    ensures var r := PfdFrequency(pll, word, i);
            && r.Some?
            && (Close(r.value, pll, d) <==> pll / d * 18 < TWO32)
            && (r.value * d == 18 * pll <==> pll % d == 0 && pll / d * 18 < TWO32)
  {
    PfdFrequencyIs(pll, word, i, d);
    hide PfdFrequency, NamedFraction, Close;
    var x := pll / d * 18;
    EighteenQuotient(pll, d);
    CutReading(pll, d, x);
  }

  lemma PfdFrequencyIs(pll: nat, word: bv32, i: bv2, d: nat)
    requires d > 0 && NamedFraction(word, i) as nat == d
    ensures PfdFrequency(pll, word, i) == Some(pll / d * 18 % TWO32)
  {
    hide NamedFraction;
  }

  lemma CutReading(pll: nat, d: nat, x: nat)
    requires d > 0 && Close(x, pll, d)
    ensures Close(x % TWO32, pll, d) <==> x < TWO32
    ensures (x % TWO32) * d == 18 * pll <==> x * d == 18 * pll && x < TWO32
  {
    hide Close;
    var r := x % TWO32;
    if x < TWO32 {
      assert r == x;
    } else {
      assert r < TWO32 && r + TWO32 <= x;
      WrappedIsFar(pll, d, x, r);
    }
  }

  lemma WrappedIsFar(pll: nat, d: nat, x: nat, r: nat)
    requires d > 0 && Close(x, pll, d) && r + 18 <= x
    ensures !Close(r, pll, d) && r * d != 18 * pll
  {
    var gap: nat := x - r - 18;
    assert (r + 18 + gap) * d == r * d + 18 * d + gap * d && (r + 18) * d == r * d + 18 * d by { Distribute(r, gap, d); }
    assert gap * d >= 0;
  }

  lemma Distribute(r: nat, gap: nat, d: nat)
    ensures (r + 18 + gap) * d == r * d + 18 * d + gap * d && (r + 18) * d == r * d + 18 * d
  {
  }

  lemma FractionKept(b: bv32, frac: bv8)
    requires frac as nat <= 0x3F
    ensures FractionOf(WithStable(b, frac & 0x3F)) == frac as nat
  {
    assert ((b & 0x40) | (frac & 0x3F) as bv32) & 0x3F == frac as bv32;
  }

  lemma EighteenQuotient(pll: nat, d: nat)
    requires d > 0
    ensures var r := pll / d * 18;
            Close(r, pll, d) && (r * d == 18 * pll <==> pll % d == 0)
  {
    var q := pll / d;
    assert pll == q * d + pll % d;
    assert (q * 18) * d == 18 * (q * d);
    assert (q * 18 + 18) * d == 18 * (q * d) + 18 * d;
  }

  // ---------------------------------------------------------------- bus clocks

  /** The two registers the chain of dividers reads. */
  datatype Dividers = Dividers(cbcdr: bv32, cscmr1: bv32)

  function AhbDivider(r: Dividers): (d: nat)
    ensures d > 0
  {
    ((r.cbcdr & 0x1C00) >> 10) as nat + 1
  }

  function IpgDivider(r: Dividers): (d: nat)
    ensures d > 0
  {
    ((r.cbcdr & 0x300) >> 8) as nat + 1
  }

  function PerDivider(r: Dividers): (d: nat)
    ensures d > 0
  {
    (r.cscmr1 & 0x3F) as nat + 1
  }

  function AhbFrequency(periph: nat, r: Dividers): nat { periph / AhbDivider(r) }

  function IpgFrequency(periph: nat, r: Dividers): nat { AhbFrequency(periph, r) / IpgDivider(r) }

  function PerFrequency(periph: nat, osc: nat, r: Dividers): nat {
    (if r.cscmr1 & 0x40 != 0 then osc else IpgFrequency(periph, r)) / PerDivider(r)
  }

  /** Flooring at each stage is one floor division by the product. */
  lemma BusClocksDivideOnce(periph: nat, osc: nat, r: Dividers)
    requires r.cscmr1 & 0x40 == 0
    ensures AhbDivider(r) * IpgDivider(r) > 0 && AhbDivider(r) * IpgDivider(r) * PerDivider(r) > 0
    ensures IpgFrequency(periph, r) == periph / (AhbDivider(r) * IpgDivider(r))
    ensures PerFrequency(periph, osc, r) == periph / (AhbDivider(r) * IpgDivider(r) * PerDivider(r))
  {
    hide AhbDivider, IpgDivider, PerDivider;
    var a, b, c := AhbDivider(r), IpgDivider(r), PerDivider(r);
    ProductPositive(a, b);
    ProductPositive(a * b, c);
    DivideTwice(periph, a, b);
    DivideTwice(periph, a * b, c);
  }

  // The fields that hold the dividers and the clock selection, as fsl_clock.h packs them.

  const AHB_DIV := Field(0x14, 10, 0x1C00, 1)
  const IPG_DIV := Field(0x14, 8, 0x300, 0x20)
  const PERCLK_DIV := Field(0x1C, 0, 0x3F, 0x20)
  const PERCLK_MUX := Field(0x1C, 6, 0x40, 0x20)

  predicate HasClockRegisters(regs: Registers) {
    Offset(AHB_DIV) in regs && Offset(IPG_DIV) in regs && Offset(PERCLK_DIV) in regs && Offset(PERCLK_MUX) in regs
  }

  function DividersOf(regs: Registers): Dividers
    requires HasClockRegisters(regs)
  {
    Dividers(regs[Offset(AHB_DIV)], regs[Offset(PERCLK_DIV)])
  }

  lemma FieldOffsets()
    ensures Offset(AHB_DIV) == Offset(IPG_DIV) == 0x14 && Offset(PERCLK_DIV) == Offset(PERCLK_MUX) == 0x1C
  {
  }

  /** The getters divide by one more than what the fields hold. */
  lemma DividersAreFields(regs: Registers)
    requires HasClockRegisters(regs)
    ensures var r := DividersOf(regs);
            && AhbDivider(r) == Get(regs, AHB_DIV) as nat + 1 && IpgDivider(r) == Get(regs, IPG_DIV) as nat + 1
            && PerDivider(r) == Get(regs, PERCLK_DIV) as nat + 1
            && (r.cscmr1 & 0x40 != 0 <==> Get(regs, PERCLK_MUX) != 0)
  {
    FieldOffsets();
    MuxBit(regs[Offset(PERCLK_DIV)]);
    LowField(regs[Offset(PERCLK_DIV)]);
  }

  lemma MuxBit(word: bv32)
    ensures word & 0x40 != 0 <==> Extract(word, PERCLK_MUX) != 0
  {
  }

  lemma LowField(word: bv32)
    ensures Extract(word, PERCLK_DIV) == word & 0x3F
  {
  }

  function ClockWrites(ahb: bv32, ipg: bv32, per: bv32, mux: bv32): seq<Write> {
    [Write(AHB_DIV, ahb), Write(IPG_DIV, ipg), Write(PERCLK_DIV, per), Write(PERCLK_MUX, mux)]
  }

  /** Setting the four fields sets the three clocks: each divider is one more than its value, and the
      multiplexer takes the peripheral clock from the oscillator. */
  lemma SettingFieldsSetsClocks(regs: Registers, periph: nat, osc: nat, ahb: bv32, ipg: bv32, per: bv32, mux: bv32)
    requires HasClockRegisters(regs) && ahb < 8 && ipg < 4 && per < 64 && mux < 2
    ensures AllPresent(regs, ClockWrites(ahb, ipg, per, mux))
    ensures var regs' := Run(regs, ClockWrites(ahb, ipg, per, mux));
            var a, i, p := ahb as nat + 1, ipg as nat + 1, per as nat + 1;
            && HasClockRegisters(regs') && a * i > 0 && a * i * p > 0
            && AhbFrequency(periph, DividersOf(regs')) == periph / a
            && IpgFrequency(periph, DividersOf(regs')) == periph / (a * i)
            && PerFrequency(periph, osc, DividersOf(regs')) == if mux == 0 then periph / (a * i * p) else osc / p
  {
    hide AhbDivider, IpgDivider, PerDivider, Get, Set;
    FieldOffsets();
    var regs' := Run(regs, ClockWrites(ahb, ipg, per, mux));
    FieldsHold(regs, ahb, ipg, per, mux);
    DividersAreFields(regs');
    var a, i, p := ahb as nat + 1, ipg as nat + 1, per as nat + 1;
    ProductPositive(a, i);
    ProductPositive(a * i, p);
    DivideTwice(periph, a, i);
    DivideTwice(periph, a * i, p);
  }

  lemma FieldsHold(regs: Registers, ahb: bv32, ipg: bv32, per: bv32, mux: bv32)
    requires HasClockRegisters(regs) && ahb < 8 && ipg < 4 && per < 64 && mux < 2
    ensures AllPresent(regs, ClockWrites(ahb, ipg, per, mux))
    ensures var regs' := Run(regs, ClockWrites(ahb, ipg, per, mux));
            && HasClockRegisters(regs')
            && Get(regs', AHB_DIV) == ahb && Get(regs', IPG_DIV) == ipg
            && Get(regs', PERCLK_DIV) == per && Get(regs', PERCLK_MUX) == mux
  {
    var ws := ClockWrites(ahb, ipg, per, mux);
    ClockFieldsApart();
    HeldWhole(ahb, ipg, per, mux);
    hide Get, Held, Disjoint, Offset, Run, Apart;
    FieldHolds(regs, ws, 0);
    FieldHolds(regs, ws, 1);
    FieldHolds(regs, ws, 2);
    FieldHolds(regs, ws, 3);
  }

  /** A field written once holds what was written, after writes to fields apart from it. */
  lemma FieldHolds(regs: Registers, ws: seq<Write>, k: nat)
    requires AllPresent(regs, ws) && k < |ws|
    requires forall i :: 0 <= i < |ws| && i != k ==> Apart(ws[i].field, ws[k].field)
    ensures Offset(ws[k].field) in Run(regs, ws)
    ensures Get(Run(regs, ws), ws[k].field) == Held(ws[k].field, ws[k].value)
  {
    hide Get, Held, Disjoint, Offset, Run;
    var f := ws[k].field;
    GetReturnsLastSet(regs, ws, f);
    assert LastWrite(ws, f, k);
  }

  predicate Apart(f: Field, g: Field) { f != g && Disjoint(f, g) }

  lemma ClockFieldsApart()
    ensures Apart(AHB_DIV, IPG_DIV) && Apart(AHB_DIV, PERCLK_DIV) && Apart(AHB_DIV, PERCLK_MUX)
    ensures Apart(IPG_DIV, PERCLK_DIV) && Apart(IPG_DIV, PERCLK_MUX) && Apart(PERCLK_DIV, PERCLK_MUX)
    ensures forall f, g :: Apart(f, g) ==> Apart(g, f)
  {
    forall f, g | Apart(f, g) ensures Apart(g, f) {
      Swapped(f.mask, g.mask);
    }
  }

  lemma Swapped(x: bv32, y: bv32)
    ensures And(x, y) == And(y, x)
  {
  }

  lemma HeldWhole(ahb: bv32, ipg: bv32, per: bv32, mux: bv32)
    requires ahb < 8 && ipg < 4 && per < 64 && mux < 2
    ensures Held(AHB_DIV, ahb) == ahb && Held(IPG_DIV, ipg) == ipg
    ensures Held(PERCLK_DIV, per) == per && Held(PERCLK_MUX, mux) == mux
  {
  }
}
