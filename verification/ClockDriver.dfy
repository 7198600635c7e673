/** The clock driver over its registers: each function writes them one after the other, and leaves them
    as the specifications in ClockPll and ClockTree say. */
module ClockDriver {
  import P = ClockPll
  import T = ClockTree

  /** The analog block: the registers of the two PLLs, the shared MISC2 and the two PFD registers. */
  class CcmAnalog {
    var pllAudio: bv32
    var pllAudioNum: bv32
    var pllAudioDenom: bv32
    var pllVideo: bv32
    var pllVideoNum: bv32
    var pllVideoDenom: bv32
    var misc2: bv32
    var pfd528: bv32
    var pfd480: bv32

    ghost function Plls(): P.Analog
      reads this
    {
      P.Analog(P.PllRegs(pllAudio, pllAudioNum, pllAudioDenom), P.PllRegs(pllVideo, pllVideoNum, pllVideoDenom), misc2)
    }

    /** CLOCK_InitAudioPll. The wait for the lock bit is taken to end. */
    method InitAudioPll(config: P.Config)
      modifies this
      ensures Plls() == P.Init(old(Plls()), P.Audio, config)
      ensures pfd528 == old(pfd528) && pfd480 == old(pfd480)
    {
      hide P.Bypassed, P.Divided, P.InitMisc2, P.PostField;
      pllAudio := P.Bypassed(pllAudio, config.src);
      pllAudioNum := config.numerator & P.FRACTION;
      pllAudioDenom := config.denominator & P.FRACTION;
      var ctrl := P.Divided(pllAudio, config.loopDivider, P.PostField(config.postDivider));
      misc2 := P.InitMisc2(misc2, P.Audio, config);
      pllAudio := ctrl;
      pllAudio := pllAudio & !P.BYPASS;
    }

    /** CLOCK_InitVideoPll. */
    method InitVideoPll(config: P.Config)
      modifies this
      ensures Plls() == P.Init(old(Plls()), P.Video, config)
      ensures pfd528 == old(pfd528) && pfd480 == old(pfd480)
    {
      hide P.Bypassed, P.Divided, P.InitMisc2, P.PostField;
      pllVideo := P.Bypassed(pllVideo, config.src);
      pllVideoNum := config.numerator & P.FRACTION;
      pllVideoDenom := config.denominator & P.FRACTION;
      var ctrl := P.Divided(pllVideo, config.loopDivider, P.PostField(config.postDivider));
      misc2 := P.InitMisc2(misc2, P.Video, config);
      pllVideo := ctrl;
      pllVideo := pllVideo & !P.BYPASS;
    }

    /** CLOCK_DeinitAudioPll. */
    method DeinitAudioPll()
      modifies this
      ensures Plls() == P.Deinit(old(Plls()), P.Audio)
      ensures pfd528 == old(pfd528) && pfd480 == old(pfd480)
    {
      pllAudio := P.POWERDOWN;
    }

    /** CLOCK_DeinitVideoPll. */
    method DeinitVideoPll()
      modifies this
      ensures Plls() == P.Deinit(old(Plls()), P.Video)
      ensures pfd528 == old(pfd528) && pfd480 == old(pfd480)
    {
      pllVideo := P.POWERDOWN;
    }

    /** CLOCK_InitSysPfd. `between` is the register as the first write leaves it. */
    method InitSysPfd(pfd: bv2, frac: bv8) returns (between: bv32)
      modifies this`pfd528
      ensures between == T.PfdGated(old(pfd528), pfd)
      ensures pfd528 == T.PfdSet(old(pfd528), pfd, frac)
    {
      hide T.PfdPut;
      var before := pfd528;
      pfd528 := T.PfdPut(before, pfd, T.PFD_GATE);
      between := pfd528;
      pfd528 := T.PfdPut(before, pfd, frac & 0x3F);
    }

    /** CLOCK_InitUsb1Pfd. */
    method InitUsb1Pfd(pfd: bv2, frac: bv8) returns (between: bv32)
      modifies this`pfd480
      ensures between == T.PfdGated(old(pfd480), pfd)
      ensures pfd480 == T.PfdSet(old(pfd480), pfd, frac)
    {
      hide T.PfdPut;
      var before := pfd480;
      pfd480 := T.PfdPut(before, pfd, T.PFD_GATE);
      between := pfd480;
      pfd480 := T.PfdPut(before, pfd, frac & 0x3F);
    }
  }

  /** The clock control module. */
  class Ccm {
    var regs: T.Registers

    /** CLOCK_SetMux and CLOCK_SetDiv, given a packed field. The wait for the handshake is taken to end. */
    method SetField(tuple: bv32, value: bv32)
      requires T.Offset(T.Unpack(tuple)) in regs
      modifies this
      ensures regs == T.Set(old(regs), T.Unpack(tuple), value)
    {
      hide T.Insert, T.Offset, T.Unpack;
      var f := T.Unpack(tuple);
      regs := regs[T.Offset(f) := T.Insert(regs[T.Offset(f)], f, value)];
    }

    /** CLOCK_GetMux and CLOCK_GetDiv. */
    method GetField(tuple: bv32) returns (value: bv32)
      requires T.Offset(T.Unpack(tuple)) in regs
      ensures value == T.Get(regs, T.Unpack(tuple))
    {
      hide T.Extract, T.Offset, T.Unpack;
      var f := T.Unpack(tuple);
      value := T.Extract(regs[T.Offset(f)], f);
    }
  }
}
