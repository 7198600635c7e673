/** The audio and video PLLs: the register writes that set them up, and the computation that reads the
    output frequency back from the registers. */
module ClockPll {
  import opened Quotients

  const TWO32 := 0x1_0000_0000

  datatype Pll = Audio | Video

  datatype PllRegs = PllRegs(ctrl: bv32, num: bv32, denom: bv32)

  /** The analog registers the two PLLs use. MISC2 holds the second half of both post-dividers. */
  datatype Analog = Analog(audio: PllRegs, video: PllRegs, misc2: bv32)

  datatype Config = Config(loopDivider: bv32, postDivider: nat, numerator: bv32, denominator: bv32, src: bv32)

  // Fields of the PLL control registers, the same for both.
  const DIV_SELECT: bv32 := 0x7F
  const POWERDOWN: bv32 := 0x1000
  const ENABLE: bv32 := 0x2000
  const BYPASS_CLK_SRC: bv32 := 0xC000
  const BYPASS: bv32 := 0x1_0000
  const POST_DIV: bv32 := 0x18_0000
  const FRACTION: bv32 := 0x3FFF_FFFF

  function MiscMask(p: Pll): bv32 { if p == Audio then 0x80_8000 else 0xC000_0000 }

  function Regs(a: Analog, p: Pll): PllRegs { if p == Audio then a.audio else a.video }

  function SetRegs(a: Analog, p: Pll, r: PllRegs): Analog {
    if p == Audio then a.(audio := r) else a.(video := r)
  }

  // ---------------------------------------------------------------- set-up

  /** The post-divider: the field of the control register, and whether MISC2 divides by four. */
  function PostField(post: nat): bv32 {
    if post == 16 then 0 else if post == 8 || post == 2 then 0x8_0000 else 0x10_0000
  }

  function MiscField(p: Pll, post: nat): bv32 {
    if post == 16 || post == 8 || post == 4 then MiscMask(p) else 0
  }

  /** CLOCK_DeinitAudioPll and CLOCK_DeinitVideoPll. */
  function Deinit(a: Analog, p: Pll): Analog {
    SetRegs(a, p, Regs(a, p).(ctrl := POWERDOWN))
  }

  function Bypassed(ctrl: bv32, src: bv32): bv32 {
    (ctrl & !BYPASS_CLK_SRC) | BYPASS | ((src << 14) & BYPASS_CLK_SRC)
  }

  /** The dividers and the enable bit; the post-divider is or-ed in. */
  function Divided(ctrl: bv32, loopDivider: bv32, post: bv32): bv32 {
    (ctrl & !(DIV_SELECT | POWERDOWN)) | ENABLE | (loopDivider & DIV_SELECT) | post
  }

  /** The PLL's own registers after set-up: bypass, fraction, dividers, end of bypass. */
  function InitRegs(r: PllRegs, c: Config): PllRegs {
    var ctrl := Divided(Bypassed(r.ctrl, c.src), c.loopDivider, PostField(c.postDivider));
    PllRegs(ctrl & !BYPASS, c.numerator & FRACTION, c.denominator & FRACTION)
  }

  /** MISC2 after set-up. */
  function InitMisc2(m: bv32, p: Pll, c: Config): bv32 { (m & !MiscMask(p)) | MiscField(p, c.postDivider) }

  /** CLOCK_InitAudioPll and CLOCK_InitVideoPll. */
  function Init(a: Analog, p: Pll, c: Config): Analog {
    SetRegs(a, p, InitRegs(Regs(a, p), c)).(misc2 := InitMisc2(a.misc2, p, c))
  }

  // ---------------------------------------------------------------- reading the frequency

  /** The divisor a control register's post-divider field stands for; None for the value that the
      source excludes by assertion. */
  datatype Option<T> = None | Some(value: T)

  function PostDivisor(ctrl: bv32): Option<nat> {
    var f := ctrl & POST_DIV;
    if f == 0 then Some(4) else if f == 0x8_0000 then Some(2) else if f == 0x10_0000 then Some(1) else None
  }

  /** The same for a masked MISC2 field. */
  function MiscDivisor(p: Pll, f: bv32): (d: nat)
    ensures d > 0
  {
    if f == MiscMask(p) then 4
    else if f == (if p == Audio then 0x8000 else 0x4000_0000) then 2
    else 1
  }

  function Reference(ctrl: bv32, osc: nat): nat { if ctrl & BYPASS_CLK_SRC == 0 then osc else 0 }

  /** CLOCK_GetPllFreq for one of the two PLLs, in the integer build: 64-bit product and quotient, the
      rest in 32 bits. None if an assertion fails or the denominator is zero. */
  function GetPllFreq(a: Analog, p: Pll, osc: nat): Option<nat> {
    FreqFrom(Regs(a, p), p, MiscOf(a.misc2, p), osc)
  }

  /** A PLL's own field of MISC2. */
  function MiscOf(m: bv32, p: Pll): bv32 { m & MiscMask(p) }

  function FreqFrom(r: PllRegs, p: Pll, misc: bv32, osc: nat): Option<nat> {
    if r.ctrl & ENABLE == 0 then Some(0)
    else
      var ref := Reference(r.ctrl, osc);
      if r.ctrl & BYPASS != 0 then Some(ref)
      else if r.denom as nat == 0 || PostDivisor(r.ctrl).None? then None
      else
        var freq := Frequency(ref, (r.ctrl & DIV_SELECT) as nat, r.num as nat, r.denom as nat) % TWO32;
        Some(freq / PostDivisor(r.ctrl).value / MiscDivisor(p, misc))
  }

  /** ref * loop + floor(ref * num / denom), before it is cut to 32 bits. Cutting the quotient first
      makes no difference. */
  function Frequency(ref: nat, loop: nat, num: nat, denom: nat): nat
    requires denom > 0
  {
    FrequencyIsNat(ref, loop, num, denom);
    ref * loop + ref * num / denom
  }

  lemma FrequencyIsNat(ref: nat, loop: nat, num: nat, denom: nat)
    requires denom > 0
    ensures ref * loop + ref * num / denom >= 0
  {
    assert ref * loop >= 0 && ref * num >= 0;
  }

  // ---------------------------------------------------------------- the round trip

  /** A configuration as its documentation allows: loop divider 27 to 54, post-divider 1, 2, 4, 8 or
      16, a proper fraction; every value inside its field. */
  predicate Allowed(c: Config) {
    && 27 <= c.loopDivider as nat <= 54 && c.postDivider in {1, 2, 4, 8, 16}
    && c.numerator as nat < c.denominator as nat
    && Fits(c)
  }

  predicate Fits(c: Config) {
    && c.loopDivider & !DIV_SELECT == 0 && c.src & 3 == c.src
    && c.numerator & !FRACTION == 0 && c.denominator & !FRACTION == 0
  }

  /** The reference clock a configuration selects. */
  function Source(c: Config, osc: nat): nat { if c.src == 0 then osc else 0 }

  /** The exact frequency before the post-divider, times the denominator of the fraction. */
  function Numerator(ref: nat, loop: nat, num: nat, denom: nat): nat {
    ProductLe(loop, 0, denom);
    ProductLe(ref, 0, loop * denom + num);
    ref * (loop * denom + num)
  }

  /** What the documentation promises: the reference times the loop divider and fraction, over the
      post-divider, as one quotient. */
  function Promised(c: Config, osc: nat): nat
    requires c.postDivider > 0 && c.denominator as nat > 0
  {
    ProductPositive(c.denominator as nat, c.postDivider);
    Floor(Numerator(Source(c, osc), c.loopDivider as nat, c.numerator as nat, c.denominator as nat),
          c.denominator as nat * c.postDivider)
  }

  /** The exact frequency before the post-divider is below 4 GHz. */
  predicate Below4GHz(c: Config, osc: nat) {
    Numerator(osc, c.loopDivider as nat, c.numerator as nat, c.denominator as nat) < c.denominator as nat * TWO32
  }

  /** The getter's sum is the exact frequency, rounded down. */
  lemma FrequencyIsFloor(ref: nat, loop: nat, num: nat, denom: nat)
    requires denom > 0
    ensures Frequency(ref, loop, num, denom) == Numerator(ref, loop, num, denom) / denom
  {
    FrequencyIsNat(ref, loop, num, denom);
    ProductLe(ref, 0, num);
    ProductLe(ref, 0, loop);
    var q: nat := ref * num / denom;
    QuotientBounds(ref * num, denom);
    assert denom * (ref * loop + q) == denom * (ref * loop) + denom * q by { Spread(denom, ref * loop, q); }
    assert ref * (loop * denom + num) == denom * (ref * loop) + ref * num by { Common(ref, loop, num, denom); }
    QuotientUnique(Numerator(ref, loop, num, denom), denom, ref * loop + q);
  }

  lemma Spread(d: nat, x: nat, y: nat)
    ensures d * (x + y) == d * x + d * y
  {
  }

  lemma Common(ref: nat, loop: nat, num: nat, denom: nat)
    ensures ref * (loop * denom + num) == denom * (ref * loop) + ref * num
  {
  }

  lemma ControlFields(before: bv32, src: bv32, loop: bv32, post: bv32)
    requires src & 3 == src && loop & !DIV_SELECT == 0 && post & !POST_DIV == 0
    ensures var ctrl := Divided(Bypassed(before, src), loop, post) & !BYPASS;
            && ctrl & ENABLE != 0 && ctrl & BYPASS == 0 && ctrl & POWERDOWN == 0
            && ctrl & DIV_SELECT == loop
            && ctrl & BYPASS_CLK_SRC == src << 14 && (ctrl & BYPASS_CLK_SRC == 0 <==> src == 0)
            && ctrl & POST_DIV == (before & POST_DIV) | post
  {
  }

  lemma InitShape(a: Analog, p: Pll, c: Config)
    ensures Regs(Init(a, p, c), p) == InitRegs(Regs(a, p), c)
    ensures Init(a, p, c).misc2 == InitMisc2(a.misc2, p, c)
    ensures forall q :: q != p ==> Regs(Init(a, p, c), q) == Regs(a, q)
  {
    hide InitRegs, InitMisc2;
  }

  /** What Init leaves in each field of the PLL it sets up, whatever was there before. */
  lemma InitControl(a: Analog, p: Pll, c: Config)
    requires Fits(c)
    ensures var ctrl := Regs(Init(a, p, c), p).ctrl;
            && ctrl & 0x2000 != 0 && ctrl & 0x1_0000 == 0 && ctrl & 0x1000 == 0 && ctrl & 0x7F == c.loopDivider
            && ctrl & 0xC000 == c.src << 14 && (ctrl & 0xC000 == 0 <==> c.src == 0)
            && ctrl & 0x18_0000 == (Regs(a, p).ctrl & 0x18_0000) | PostField(c.postDivider)
  {
    hide Init, Bypassed, Divided, MiscMask, MiscField, PostField;
    InitShape(a, p, c);
    FieldsInside(p, c.postDivider);
    ControlFields(Regs(a, p).ctrl, c.src, c.loopDivider, PostField(c.postDivider));
  }

  lemma InitFraction(a: Analog, p: Pll, c: Config)
    requires Fits(c)
    ensures Regs(Init(a, p, c), p).num == c.numerator && Regs(Init(a, p, c), p).denom == c.denominator
  {
    hide Init;
    InitShape(a, p, c);
    FractionKept(c.numerator);
    FractionKept(c.denominator);
  }

  lemma InitMisc(a: Analog, p: Pll, c: Config)
    ensures MiscOf(Init(a, p, c).misc2, p) == MiscField(p, c.postDivider)
  {
    hide Init, MiscMask, MiscField, PostField;
    InitShape(a, p, c);
    FieldsInside(p, c.postDivider);
    MiscFieldKept(a.misc2, MiscMask(p), MiscField(p, c.postDivider));
  }

  /** The bits of MISC2 that are not the PLL's own. */
  function MiscRest(m: bv32, p: Pll): bv32 { m & !MiscMask(p) }

  /** MISC2 afterwards: the PLL's own two bits are both set for post-dividers 4, 8 and 16 and both clear
      otherwise, and every other bit stays. */
  lemma InitMiscBits(a: Analog, p: Pll, c: Config)
    ensures MiscOf(Init(a, p, c).misc2, p) == if c.postDivider in {4, 8, 16} then MiscMask(p) else 0
    ensures MiscRest(Init(a, p, c).misc2, p) == MiscRest(a.misc2, p)
    ensures MiscMask(Audio) == 0x80_8000 && MiscMask(Video) == 0xC000_0000
  {
    InitMisc(a, p, c);
    InitShape(a, p, c);
    RestKept(a.misc2, p, c);
    hide Init, MiscOf, MiscRest, InitMisc2;
  }

  lemma RestKept(m: bv32, p: Pll, c: Config)
    ensures MiscRest(InitMisc2(m, p, c), p) == MiscRest(m, p)
  {
    hide MiscField;
    FieldsInside(p, c.postDivider);
    RestBits(m, MiscField(p, c.postDivider), p);
  }

  lemma RestBits(m: bv32, f: bv32, p: Pll)
    requires f & !MiscMask(p) == 0
    ensures ((m & !MiscMask(p)) | f) & !MiscMask(p) == m & !MiscMask(p)
  {
  }

  lemma FieldsInside(p: Pll, post: nat)
    ensures PostField(post) & !POST_DIV == 0 && MiscField(p, post) & !MiscMask(p) == 0
  {
  }

  lemma FractionKept(x: bv32)
    requires x & !FRACTION == 0
    ensures x & FRACTION == x
  {
  }

  lemma MiscFieldKept(m: bv32, mask: bv32, f: bv32)
    requires f & !mask == 0
    ensures ((m & !mask) | f) & mask == f
  {
  }

  /** With a proper fraction and room for one more multiple of the reference, nothing is lost to 32 bits. */
  lemma FrequencyFits(ref: nat, loop: nat, num: nat, denom: nat)
    requires num < denom && ref * (loop + 1) <= TWO32 && ref > 0
    ensures ref * loop <= Frequency(ref, loop, num, denom) < TWO32
  {
    assert ref * num < ref * denom by { assert ref * (denom - num) > 0; }
    QuotientBelow(ref * num, ref, denom);
    assert ref * (loop + 1) == ref * loop + ref;
    assert ref * num >= 0;
  }

  lemma QuotientBelow(s: nat, q: nat, d: nat)
    requires d > 0 && s < q * d
    ensures 0 <= s / d < q
  {
    var k := s / d;
    assert k >= q ==> k * d >= q * d;
  }

  /** The or-ed post-divider reads back as the new one exactly when the old field has no other bit. */
  lemma PostFieldReadsBack(before: bv32, post: nat)
    requires post in {1, 2, 4, 8, 16}
    ensures (before & POST_DIV) | PostField(post) == PostField(post) <==> before & POST_DIV & !PostField(post) == 0
  {
    OrAbsorbs(before & POST_DIV, PostField(post));
  }

  lemma OrAbsorbs(x: bv32, y: bv32)
    ensures x | y == y <==> x & !y == 0
  {
  }

  /** The divisors that are read back for a control field and a post-divider setting. */
  lemma DivisorsAre(p: Pll, ctrl: bv32, post: nat)
    requires post in {1, 2, 4, 8, 16}
    ensures MiscDivisor(p, MiscField(p, post)) == if post >= 4 then 4 else 1
    ensures ctrl & POST_DIV == PostField(post) <==>
              PostDivisor(ctrl) == Some(FirstStage(post))
  {
    PostFieldValues(ctrl);
  }

  lemma PostFieldValues(ctrl: bv32)
    ensures var f := ctrl & POST_DIV; f == 0 || f == 0x8_0000 || f == 0x10_0000 || f == 0x18_0000
  {
  }

  /** Dividing twice is dividing by the product, and only the right control field gives it. */
  lemma TwoStages(f: nat, d: nat, m: nat, post: nat)
    requires f >= 27 && post in {1, 2, 4, 8, 16} && d in {1, 2, 4} && m == if post >= 4 then 4 else 1
    ensures f / d / m == f / post <==> d == FirstStage(post)
  {
    assert f / 1 == f && f / 4 / 4 == f / 16 && f / 2 / 4 == f / 8 && f / 2 / 2 == f / 4;
  }

  /** The exact frequency before the post-divider, rounded down. */
  function Undivided(c: Config, osc: nat): nat
    requires c.denominator as nat > 0
  {
    Floor(Numerator(osc, c.loopDivider as nat, c.numerator as nat, c.denominator as nat), c.denominator as nat)
  }

  lemma AllowedNumbers(c: Config, osc: nat)
    requires Allowed(c) && c.src == 0 && 0 < osc
    ensures c.denominator as nat > 0 && 27 <= Undivided(c, osc)
    ensures Promised(c, osc) == Undivided(c, osc) / c.postDivider
    ensures Undivided(c, osc) < TWO32 <==> Below4GHz(c, osc)
  {
    hide Frequency, Numerator;
    var n := Numerator(osc, c.loopDivider as nat, c.numerator as nat, c.denominator as nat);
    NumbersFit(osc, c.loopDivider as nat, c.numerator as nat, c.denominator as nat);
    FrequencyIsFloor(osc, c.loopDivider as nat, c.numerator as nat, c.denominator as nat);
    DivideTwice(n, c.denominator as nat, c.postDivider);
    BelowExact(n, c.denominator as nat, TWO32);
  }

  lemma BelowExact(n: nat, d: nat, bound: nat)
    requires d > 0
    ensures n / d < bound <==> n < d * bound
  {
    QuotientBounds(n, d);
    ProductStep(d, n / d, bound);
    if n / d >= bound {
      ProductLe(d, bound, n / d);
    }
  }

  lemma NumbersFit(ref: nat, loop: nat, num: nat, denom: nat)
    requires 27 <= loop <= 54 && num < denom && 0 < ref
    ensures 27 <= Frequency(ref, loop, num, denom)
    ensures ref * 55 <= TWO32 ==> Frequency(ref, loop, num, denom) < TWO32
  {
    ProductBounds(ref, loop);
    assert ref * num / denom >= 0 by { assert ref * num >= 0; }
    hide Frequency;
    if ref * 55 <= TWO32 {
      FrequencyFits(ref, loop, num, denom);
    }
  }

  lemma ProductBounds(ref: nat, loop: nat)
    requires 27 <= loop <= 54 && 0 < ref
    ensures 27 <= ref * loop && ref * (loop + 1) <= ref * 55
  {
    assert (ref - 1) * loop >= 0;
    assert ref * (54 - loop) >= 0;
  }

  /** What the getter makes of the registers Init leaves. */
  lemma InitReadsBack(a: Analog, p: Pll, c: Config, osc: nat)
    requires Fits(c) && c.denominator as nat > 0
    ensures var a' := Init(a, p, c);
            var d := PostDivisor(Regs(a', p).ctrl);
            GetPllFreq(a', p, osc)
            == if d.None? then None
               else Some(Undivided(c, Source(c, osc)) % TWO32 / d.value / MiscDivisor(p, MiscField(p, c.postDivider)))
  {
    hide Init, PostDivisor, MiscDivisor, MiscMask, MiscField, Frequency, Numerator, Fits;
    FrequencyIsFloor(Source(c, osc), c.loopDivider as nat, c.numerator as nat, c.denominator as nat);
    InitControl(a, p, c);
    InitFraction(a, p, c);
    InitMisc(a, p, c);
  }

  /** The post-divider reads back as configured: the old field has no bit that the new one lacks. */
  predicate PostFits(a: Analog, p: Pll, post: nat) { Regs(a, p).ctrl & POST_DIV & !PostField(post) == 0 }

  /** On a running reference, setting up a PLL makes the frequency getter return the promised frequency
      if and only if the old post-divider field has no bit that the new one lacks, wherever the
      exact undivided frequency is below 4 GHz; and if and only if it is, wherever the field is right. */
  lemma InitExact(a: Analog, p: Pll, c: Config, osc: nat)
    requires Allowed(c) && c.src == 0 && 0 < osc
    ensures c.denominator as nat > 0
    ensures Below4GHz(c, osc) ==>
              (GetPllFreq(Init(a, p, c), p, osc) == Some(Promised(c, osc)) <==> PostFits(a, p, c.postDivider))
    ensures PostFits(a, p, c.postDivider) ==>
              (GetPllFreq(Init(a, p, c), p, osc) == Some(Promised(c, osc)) <==> Below4GHz(c, osc))
  {
    AllowedNumbers(c, osc);
    InitReadsBack(a, p, c, osc);
    RightField(a, p, c);
    assert Source(c, osc) == osc;
    hide *;
    ReadingExact(Undivided(c, osc), PostDivisor(Regs(Init(a, p, c), p).ctrl),
                 MiscDivisor(p, MiscField(p, c.postDivider)), c.postDivider);
  }

  /** The divisor that the control field stands for after the right set-up. */
  function FirstStage(post: nat): nat { if post == 16 then 4 else if post == 8 || post == 2 then 2 else 1 }

  lemma RightField(a: Analog, p: Pll, c: Config)
    requires Allowed(c)
    ensures var d := PostDivisor(Regs(Init(a, p, c), p).ctrl);
            && (d == Some(FirstStage(c.postDivider)) <==> PostFits(a, p, c.postDivider))
            && (d.Some? ==> d.value in {1, 2, 4})
    ensures MiscDivisor(p, MiscField(p, c.postDivider)) == if c.postDivider >= 4 then 4 else 1
    ensures c.postDivider in {1, 2, 4, 8, 16}
  {
    hide Init, PostField, PostDivisor, MiscDivisor, MiscField;
    InitControl(a, p, c);
    var ctrl := Regs(Init(a, p, c), p).ctrl;
    PostFieldReadsBack(Regs(a, p).ctrl, c.postDivider);
    DivisorsAre(p, ctrl, c.postDivider);
    PostDivisorValues(ctrl);
  }

  /** What the two stages make of a frequency cut to 32 bits, for any first divisor read back. */
  lemma ReadingExact(f: nat, d: Option<nat>, m: nat, post: nat)
    requires f >= 27 && post in {1, 2, 4, 8, 16} && m == if post >= 4 then 4 else 1
    requires d.Some? ==> d.value in {1, 2, 4}
    ensures var r := if d.None? then None else Some(f % TWO32 / d.value / m);
            && (f < TWO32 ==> (r == Some(f / post) <==> d == Some(FirstStage(post))))
            && (d == Some(FirstStage(post)) ==> (r == Some(f / post) <==> f < TWO32))
  {
    if d.Some? {
      if f < TWO32 {
        assert f % TWO32 == f;
        TwoStages(f, d.value, m, post);
      } else if d == Some(FirstStage(post)) {
        CutIsWrong(f, d.value, m, post);
      }
    }
  }

  /** Cutting a frequency to 32 bits before the right two stages loses it. */
  lemma CutIsWrong(f: nat, d: nat, m: nat, post: nat)
    requires f >= TWO32 && post in {1, 2, 4, 8, 16} && m == if post >= 4 then 4 else 1
    requires d == FirstStage(post)
    ensures f % TWO32 / d / m < f / post
  {
    var r := f % TWO32;
    assert r + TWO32 <= f;
    assert r / d / m == r / post by { assert r / 4 / 4 == r / 16 && r / 2 / 4 == r / 8 && r / 1 == r; }
    assert r / post < f / post;
  }

  /** Without a running reference the getter returns the promised zero if and only if the old field and
      the new one do not add up to the value that the getter excludes by assertion. */
  lemma NoReferenceExact(a: Analog, p: Pll, c: Config, osc: nat)
    requires Allowed(c) && Source(c, osc) == 0
    ensures c.denominator as nat > 0
    ensures Promised(c, osc) == 0
    ensures GetPllFreq(Init(a, p, c), p, osc) == Some(0)
            <==> (Regs(a, p).ctrl & POST_DIV) | PostField(c.postDivider) != POST_DIV
  {
    ZeroReference(c, osc);
    hide Init, GetPllFreq, MiscMask, MiscField, PostField, PostDivisor, MiscDivisor, Undivided, Promised, Allowed;
    InitReadsBack(a, p, c, osc);
    InitControl(a, p, c);
    ExcludedField(Regs(Init(a, p, c), p).ctrl);
    ZeroQuotients(Regs(Init(a, p, c), p).ctrl, p, MiscField(p, c.postDivider));
  }

  lemma ZeroReference(c: Config, osc: nat)
    requires Allowed(c) && Source(c, osc) == 0
    ensures c.denominator as nat > 0 && Fits(c) && Undivided(c, Source(c, osc)) == 0 && Promised(c, osc) == 0
  {
    hide Numerator, Fits, Floor;
    var denom := c.denominator as nat;
    NumeratorOfZero(c.loopDivider as nat, c.numerator as nat, denom);
    ProductPositive(denom, c.postDivider);
    ZeroQuotient(denom);
    ZeroQuotient(denom * c.postDivider);
  }

  lemma NumeratorOfZero(loop: nat, num: nat, denom: nat)
    ensures Numerator(0, loop, num, denom) == 0
  {
  }

  lemma ZeroQuotient(d: nat)
    requires d > 0
    ensures Floor(0, d) == 0
  {
  }

  lemma FrequencyOfZero(loop: nat, num: nat, denom: nat)
    requires denom > 0
    ensures Frequency(0, loop, num, denom) == 0
  {
    assert 0 * loop == 0 && 0 * num == 0;
  }

  lemma ExcludedField(ctrl: bv32)
    ensures PostDivisor(ctrl).None? <==> ctrl & POST_DIV == POST_DIV
  {
    PostFieldValues(ctrl);
  }

  lemma ZeroQuotients(ctrl: bv32, p: Pll, f: bv32)
    ensures PostDivisor(ctrl).Some? ==> PostDivisor(ctrl).value > 0 && 0 / PostDivisor(ctrl).value / MiscDivisor(p, f) == 0
  {
  }

  lemma PostDivisorValues(ctrl: bv32)
    ensures PostDivisor(ctrl).Some? ==> PostDivisor(ctrl).value in {1, 2, 4}
  {
  }

  /** From any state, de-initialising first makes an allowed set-up right exactly where the exact
      undivided frequency is below 4 GHz. */
  lemma DeinitThenInit(a: Analog, p: Pll, c: Config, osc: nat)
    requires Allowed(c) && c.src == 0 && 0 < osc
    ensures c.denominator as nat > 0
    ensures GetPllFreq(Init(Deinit(a, p), p, c), p, osc) == Some(Promised(c, osc)) <==> Below4GHz(c, osc)
  {
    hide GetPllFreq, Init, Promised, Below4GHz, PostField;
    InitExact(Deinit(a, p), p, c, osc);
    DeinitClearsPost();
  }

  /** With a reference of up to 78 MHz it always is. */
  lemma SlowReferenceFits(c: Config, osc: nat)
    requires Allowed(c) && osc * 55 <= TWO32
    ensures Below4GHz(c, osc)
  {
    hide Frequency, Numerator;
    var loop, num, denom := c.loopDivider as nat, c.numerator as nat, c.denominator as nat;
    FrequencyIsFloor(osc, loop, num, denom);
    if osc > 0 {
      NumbersFit(osc, loop, num, denom);
    } else {
      FrequencyOfZero(loop, num, denom);
    }
    BelowExact(Numerator(osc, loop, num, denom), denom, TWO32);
  }

  lemma DeinitClearsPost()
    ensures forall y: bv32 {:trigger POWERDOWN & y} :: POWERDOWN & POST_DIV & y == 0
  {
    assert POWERDOWN & POST_DIV == 0;
  }

  /** The two PLLs share a register but not a field of it: setting up one leaves the other's frequency. */
  lemma InitLeavesOther(a: Analog, p: Pll, q: Pll, c: Config, osc: nat)
    requires p != q
    ensures GetPllFreq(Init(a, p, c), q, osc) == GetPllFreq(a, q, osc)
  {
    hide Init, FreqFrom, MiscOf, InitMisc2;
    InitShape(a, p, c);
    OtherMiscKept(a.misc2, p, q, c);
  }

  lemma DeinitLeavesOther(a: Analog, p: Pll, q: Pll, osc: nat)
    requires p != q
    ensures GetPllFreq(Deinit(a, p), q, osc) == GetPllFreq(a, q, osc)
  {
    hide Deinit, FreqFrom, MiscOf;
    DeinitShape(a, p);
  }

  lemma DeinitShape(a: Analog, p: Pll)
    ensures Deinit(a, p).misc2 == a.misc2
    ensures forall q :: q != p ==> Regs(Deinit(a, p), q) == Regs(a, q)
  {
  }

  lemma OtherMiscKept(m: bv32, p: Pll, q: Pll, c: Config)
    requires p != q
    ensures MiscOf(InitMisc2(m, p, c), q) == MiscOf(m, q)
  {
    hide MiscField;
    FieldsInside(p, c.postDivider);
    OtherMiscField(m, MiscField(p, c.postDivider), p, q);
  }

  lemma OtherMiscField(m: bv32, f: bv32, p: Pll, q: Pll)
    requires p != q && f & !MiscMask(p) == 0
    ensures ((m & !MiscMask(p)) | f) & MiscMask(q) == m & MiscMask(q)
  {
  }

  // ---------------------------------------------------------------- a PLL that is not running

  /** Bit 13 of the control register enables the PLL; without it the getter returns zero, as it does
      after de-initialising. */
  lemma DisabledReadsZero(a: Analog, p: Pll, osc: nat)
    requires Regs(a, p).ctrl & 0x2000 == 0
    ensures GetPllFreq(a, p, osc) == Some(0)
  {
  }

  /** Bit 12 powers it down; de-initialising sets that bit and clears every other. */
  lemma DeinitReadsZero(a: Analog, p: Pll, osc: nat)
    ensures GetPllFreq(Deinit(a, p), p, osc) == Some(0)
    ensures Regs(Deinit(a, p), p).ctrl & 0x1000 != 0 && Regs(Deinit(a, p), p).ctrl & !0x1000 == 0
  {
    assert POWERDOWN & ENABLE == 0;
  }

  /** Bit 16 bypasses it: the getter returns the reference, which bits 14 and 15 select, whatever the
      dividers hold. */
  lemma BypassedReadsReference(a: Analog, p: Pll, osc: nat)
    requires Regs(a, p).ctrl & 0x2000 != 0 && Regs(a, p).ctrl & 0x1_0000 != 0
    ensures GetPllFreq(a, p, osc) == Some(if Regs(a, p).ctrl & 0xC000 == 0 then osc else 0)
  {
  }

  /** The PLL is enabled, not bypassed, and none of its fields has an excluded value. */
  predicate Runs(r: PllRegs) {
    r.ctrl & 0x2000 != 0 && r.ctrl & 0x1_0000 == 0 && r.denom as nat > 0 && r.ctrl & 0x18_0000 != 0x18_0000
  }

  /** The loop divider is the low seven bits. */
  function LoopOf(r: PllRegs): nat { (r.ctrl & 0x7F) as nat }

  /** A PLL that runs, with any register contents: the exact frequency rounded down, cut to 32 bits, and
      divided by the two stages that its bits select. */
  lemma RunningReads(a: Analog, p: Pll, osc: nat)
    requires Runs(Regs(a, p))
    ensures var r := Regs(a, p);
            var f := Floor(Numerator(Reference(r.ctrl, osc), LoopOf(r), r.num as nat, r.denom as nat), r.denom as nat);
            GetPllFreq(a, p, osc) == Some(InStages(f % TWO32, FirstDivider(r.ctrl), SecondDivider(p, a.misc2)))
  {
    var r := Regs(a, p);
    assert r.denom as nat > 0;
    assert GetPllFreq(a, p, osc) == FreqFrom(r, p, MiscOf(a.misc2, p), osc);
    hide *;
    FrequencyIsFloor(Reference(r.ctrl, osc), LoopOf(r), r.num as nat, r.denom as nat);
    StagesRead(p, r, a.misc2);
    FreqRunning(r, p, MiscOf(a.misc2, p), osc);
  }

  function InStages(f: nat, d: nat, m: nat): nat
    requires d > 0 && m > 0
  {
    f / d / m
  }

  lemma FreqRunning(r: PllRegs, p: Pll, misc: bv32, osc: nat)
    requires Runs(r) && PostDivisor(r.ctrl).Some? && PostDivisor(r.ctrl).value > 0
    ensures r.denom as nat > 0
    ensures FreqFrom(r, p, misc, osc)
            == Some(InStages(Frequency(Reference(r.ctrl, osc), LoopOf(r), r.num as nat, r.denom as nat) % TWO32,
                             PostDivisor(r.ctrl).value, MiscDivisor(p, misc)))
  {
    hide Frequency, PostDivisor, MiscDivisor, Reference;
  }

  /** The first stage divides by 4, 2 or 1 for field values 0, 1 and 2 in bits 19 and 20. */
  function FirstDivider(ctrl: bv32): (d: nat)
    ensures d > 0
  {
    if ctrl & 0x10_0000 != 0 then 1 else if ctrl & 0x8_0000 != 0 then 2 else 4
  }

  /** The second stage does nothing unless its low bit is set, and then divides by 4 or 2 as its high bit
      is set or not. */
  function SecondDivider(p: Pll, misc2: bv32): (d: nat)
    ensures d > 0
  {
    var low: bv32, high: bv32 := if p == Audio then 0x8000 else 0x4000_0000, if p == Audio then 0x80_0000 else 0x8000_0000;
    if misc2 & low == 0 then 1 else if misc2 & high != 0 then 4 else 2
  }

  lemma StagesRead(p: Pll, r: PllRegs, misc2: bv32)
    requires Runs(r)
    ensures PostDivisor(r.ctrl) == Some(FirstDivider(r.ctrl))
    ensures MiscDivisor(p, MiscOf(misc2, p)) == SecondDivider(p, misc2)
  {
    hide MiscDivisor, SecondDivider, MiscOf;
    PostFieldValues(r.ctrl);
    SecondStage(p, misc2);
  }

  lemma SecondStage(p: Pll, misc2: bv32)
    ensures MiscDivisor(p, MiscOf(misc2, p)) == SecondDivider(p, misc2)
  {
  }
}
