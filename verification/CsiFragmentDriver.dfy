/** Fragment mode as the repository writes it: the extraction loops on 32-bit words, and the handler
    that walks the lines of a DMA buffer, both proved against `CsiFragment`. */
module CsiFragmentDriver {
  import opened CsiFragment

  /** A little-endian word in memory. */
  function LoadWord(b0: Byte, b1: Byte, b2: Byte, b3: Byte): bv32 {
    b0 as bv32 | (b1 as bv32 << 8) | (b2 as bv32 << 16) | (b3 as bv32 << 24)
  }

  function ByteOf(w: bv32, k: nat): Byte
    requires k < 4
  {
    if k == 0 then (w & 0xFF) as Byte
    else if k == 1 then ((w >> 8) & 0xFF) as Byte
    else if k == 2 then ((w >> 16) & 0xFF) as Byte
    else ((w >> 24) & 0xFF) as Byte
  }

  /** Bit-field insert of the low byte of `src` at byte `k` of `dst`. */
  function Bfi(dst: bv32, src: bv32, k: nat): bv32
    requires k < 4
  {
    if k == 0 then (dst & 0xFFFF_FF00) | (src & 0xFF)
    else if k == 1 then (dst & 0xFFFF_00FF) | ((src & 0xFF) << 8)
    else if k == 2 then (dst & 0xFF00_FFFF) | ((src & 0xFF) << 16)
    else (dst & 0x00FF_FFFF) | ((src & 0xFF) << 24)
  }

  /** Four luma bytes gathered from two words, whatever the register held before. */
  function Gather(r: bv32, w0: bv32, w1: bv32): bv32 {
    Bfi(Bfi(Bfi(Bfi(r, w0, 0), w0 >> 16, 1), w1, 2), w1 >> 16, 3)
  }

  lemma GatherBytes(r: bv32, w0: bv32, w1: bv32)
    ensures ByteOf(Gather(r, w0, w1), 0) == ByteOf(w0, 0) && ByteOf(Gather(r, w0, w1), 1) == ByteOf(w0, 2)
    ensures ByteOf(Gather(r, w0, w1), 2) == ByteOf(w1, 0) && ByteOf(Gather(r, w0, w1), 3) == ByteOf(w1, 2)
  {
  }

  lemma LoadWordBytes(b0: Byte, b1: Byte, b2: Byte, b3: Byte)
    ensures var w := LoadWord(b0, b1, b2, b3);
            ByteOf(w, 0) == b0 && ByteOf(w, 1) == b1 && ByteOf(w, 2) == b2 && ByteOf(w, 3) == b3
    ensures var w := LoadWord(b0, b1, b2, b3);
            ByteOf(w >> 8, 0) == b1 && ByteOf(w >> 8, 2) == b3
  {
  }

  /** The extraction loop: sixteen bytes in, eight luma bytes out, until the count reaches zero. */
  method ExtractY(uyvy: bool, mem: array<Byte>, dst: nat, src: seq<Byte>, from: nat, count: nat)
    requires 0 < count && count % 8 == 0 && from + 2 * count <= |src| && dst + count <= mem.Length
    modifies mem
    ensures mem[..] == Overwrite(old(mem[..]), dst,
                                 CopyLine(if uyvy then ExtractYFromUyvy else ExtractYFromYuyv, src, from, count))
  {
    ghost var f := if uyvy then ExtractYFromUyvy else ExtractYFromYuyv;
    ghost var line := CopyLine(f, src, from, count);
    assert Phase(f) == if uyvy then 1 else 0;
    var r0: bv32, r1: bv32 := *, *;
    var done: nat, left: nat := 0, count;
    while left != 0
      invariant done + left == count && left % 8 == 0
      invariant forall k :: 0 <= k < done ==> mem[dst + k] == line[k]
      invariant forall k :: 0 <= k < mem.Length && !(dst <= k < dst + done) ==> mem[k] == old(mem[k])
      decreases left
    {
      r0, r1 := StoreEight(uyvy, mem, dst + done, src, from + 2 * done, r0, r1);
      forall k | done <= k < done + 8 ensures mem[dst + k] == line[k] {
        assert mem[dst + done + (k - done)] == src[from + 2 * done + 2 * (k - done) + Phase(f)];
      }
      done, left := done + 8, left - 8;
    }
  }

  /** One round of the loop. The registers keep the words stored, as they do in the loop. */
  method StoreEight(uyvy: bool, mem: array<Byte>, dst: nat, src: seq<Byte>, from: nat, r0: bv32, r1: bv32)
    returns (s0: bv32, s1: bv32)
    requires from + 16 <= |src| && dst + 8 <= mem.Length
    modifies mem
    ensures forall k :: 0 <= k < mem.Length && !(dst <= k < dst + 8) ==> mem[k] == old(mem[k])
    ensures forall i :: 0 <= i < 8 ==> mem[dst + i] == src[from + 2 * i + if uyvy then 1 else 0]
  {
    var y0, y1, y2, y3, y4, y5, y6, y7;
    s0, y0, y1, y2, y3 := GatherFour(uyvy, src, from, r0);
    s1, y4, y5, y6, y7 := GatherFour(uyvy, src, from + 8, r1);
    StoreWord(mem, dst, y0, y1, y2, y3);
    StoreWord(mem, dst + 4, y4, y5, y6, y7);
  }

  method StoreWord(mem: array<Byte>, dst: nat, y0: Byte, y1: Byte, y2: Byte, y3: Byte)
    requires dst + 4 <= mem.Length
    modifies mem
    ensures forall k :: 0 <= k < mem.Length && !(dst <= k < dst + 4) ==> mem[k] == old(mem[k])
    ensures mem[dst] == y0 && mem[dst + 1] == y1 && mem[dst + 2] == y2 && mem[dst + 3] == y3
  {
    mem[dst], mem[dst + 1], mem[dst + 2], mem[dst + 3] := y0, y1, y2, y3;
  }

  /** Two words loaded, their four luma bytes inserted into a register, and the bytes it then stores. */
  method GatherFour(uyvy: bool, src: seq<Byte>, from: nat, r: bv32)
    returns (s: bv32, y0: Byte, y1: Byte, y2: Byte, y3: Byte)
    requires from + 8 <= |src|
    ensures var p := if uyvy then 1 else 0;
            y0 == src[from + p] && y1 == src[from + 2 + p] && y2 == src[from + 4 + p] && y3 == src[from + 6 + p]
  {
    LoadWordBytes(src[from], src[from + 1], src[from + 2], src[from + 3]);
    LoadWordBytes(src[from + 4], src[from + 5], src[from + 6], src[from + 7]);
    var w0 := LoadWord(src[from], src[from + 1], src[from + 2], src[from + 3]);
    var w1 := LoadWord(src[from + 4], src[from + 5], src[from + 6], src[from + 7]);
    if uyvy {
      w0, w1 := w0 >> 8, w1 >> 8;
    }
    s := Gather(r, w0, w1);
    GatherBytes(r, w0, w1);
    y0, y1, y2, y3 := ByteOf(s, 0), ByteOf(s, 1), ByteOf(s, 2), ByteOf(s, 3);
  }

  class FragDriver {
    const mem: array<Byte>
    var width: nat
    var height: nat
    var maxLinePerFrag: nat
    var linePerFrag: nat
    var dmaBytePerLine: nat
    var datBytePerLine: nat
    var dmaCurLine: nat
    var windowULX: nat
    var windowULY: nat
    var windowLRX: nat
    var windowLRY: nat
    var outputBuffer: nat
    var datCurWriteAddr: nat
    var inputFormat: Format
    var copyFunc: CopyFunc
    var capturing: bool
    var callbacks: nat

    ghost function HandleValue(): Handle
      reads this
    {
      Handle(width, height, maxLinePerFrag, linePerFrag, dmaBytePerLine, datBytePerLine, dmaCurLine,
             windowULX, windowULY, windowLRX, windowLRY, outputBuffer, datCurWriteAddr, inputFormat, copyFunc)
    }

    ghost function Value(): State
      reads this, mem
    {
      State(HandleValue(), mem[..], capturing, callbacks)
    }

    /** A handle created for `config`, writing to the memory `m`. */
    constructor (config: Config, m: array<Byte>)
      requires 0 < config.width && 0 < config.height && 0 < config.dmaBufferLine
      requires CreateHandle(config).Some?
      ensures HandleValue() == CreateHandle(config).value && mem == m && !capturing && callbacks == 0
    {
      mem := m;
      width, height, maxLinePerFrag, linePerFrag := config.width, config.height, config.dmaBufferLine, 0;
      dmaBytePerLine, datBytePerLine, dmaCurLine := config.width * BYTES_PER_PIXEL % U16, 0, 0;
      windowULX, windowULY, windowLRX, windowLRY := 0, 0, 0, 0;
      outputBuffer, datCurWriteAddr := 0, 0;
      inputFormat, copyFunc := Rgb565, MemCopy;
      capturing, callbacks := false, 0;
    }

    method SetCaptureWindow(window: Option<Window>)
      requires width > 0 && height > 0
      modifies this`windowULX, this`windowULY, this`windowLRX, this`windowLRY, this`linePerFrag
      ensures HandleValue() == SetWindow(old(HandleValue()), window)
    {
      match window {
        case Some(w) =>
          windowULX, windowULY, windowLRX, windowLRY := w.ulx, w.uly, w.lrx, w.lry;
          linePerFrag := 1;
        case None =>
          windowULX, windowULY, windowLRX, windowLRY := 0, 0, width - 1, height - 1;
          linePerFrag := maxLinePerFrag;
      }
    }

    /** CSI_FragModeTransferCaptureImage. A refusal comes after the window fields are written. */
    method TransferCaptureImage(gray: bool, buffer: nat, window: Option<Window>) returns (ok: bool)
      requires width > 0 && height > 0
      modifies this
      ensures ok <==> CaptureImage(old(HandleValue()), gray, buffer, window).Some?
      ensures ok ==> HandleValue() == CaptureImage(old(HandleValue()), gray, buffer, window).value && capturing
      ensures callbacks == old(callbacks)
    {
      hide SetWindow, SetOutput;
      SetCaptureWindow(window);
      var windowWidth := (windowLRX - windowULX + 1) % U16;
      if gray && windowWidth % 8 != 0 {
        return false;
      }
      SetCaptureOutput(gray, buffer, windowWidth);
      capturing := true;
      return true;
    }

    method SetCaptureOutput(gray: bool, buffer: nat, windowWidth: nat)
      modifies this`datBytePerLine, this`copyFunc, this`dmaCurLine, this`outputBuffer, this`datCurWriteAddr
      ensures HandleValue() == SetOutput(old(HandleValue()), gray, buffer, windowWidth)
    {
      if gray {
        datBytePerLine := windowWidth;
        copyFunc := if inputFormat == Yuyv then ExtractYFromYuyv else ExtractYFromUyvy;
      } else {
        datBytePerLine := windowWidth * BYTES_PER_PIXEL % U16;
        copyFunc := MemCopy;
      }
      dmaCurLine := 0;
      outputBuffer := buffer;
      datCurWriteAddr := buffer;
    }

    method CopyOneLine(dst: nat, src: seq<Byte>, from: nat)
      requires Extractable(HandleValue())
      requires from + Span(copyFunc, datBytePerLine) <= |src| && dst + datBytePerLine <= mem.Length
      modifies mem
      ensures mem[..] == Overwrite(old(mem[..]), dst, CopyLine(copyFunc, src, from, datBytePerLine))
    {
      if copyFunc == MemCopy {
        ghost var line := CopyLine(copyFunc, src, from, datBytePerLine);
        forall i | 0 <= i < datBytePerLine { mem[dst + i] := src[from + i]; }
        assert forall i :: 0 <= i < datBytePerLine ==> line[i] == src[from + i];
      } else {
        ExtractY(copyFunc == ExtractYFromUyvy, mem, dst, src, from, datBytePerLine);
      }
    }

    /** CSI_FragModeTransferHandleIRQ, for an interrupt whose copies stay inside the buffers. */
    method TransferHandleIRQ(irq: Irq)
      requires Extractable(HandleValue()) && HandleIrq(Value(), irq).Some?
      modifies this, mem
      ensures HandleIrq(old(Value()), irq) == Some(Value())
    {
      if irq.sof {
        dmaCurLine := 0;
        datCurWriteAddr := outputBuffer;
      } else if irq.fb1Done || irq.fb2Done {
        var dma := if irq.fb1Done then irq.dma1 else irq.dma2;
        CopyFragment(dma);
        dmaCurLine := (dmaCurLine + linePerFrag) % U16;
        if dmaCurLine >= height {
          capturing := false;
          callbacks := callbacks + 1;
        }
      }
    }

    /** The loop over the lines of one fragment. */
    method CopyFragment(dma: seq<Byte>)
      requires Extractable(HandleValue())
      requires CopyLines(HandleValue(), mem[..], dma, 0, windowULX * BYTES_PER_PIXEL, datCurWriteAddr).Some?
      modifies this`datCurWriteAddr, mem
      ensures CopyLines(old(HandleValue()), old(mem[..]), dma, 0, windowULX * BYTES_PER_PIXEL, old(datCurWriteAddr))
              == Some((mem[..], datCurWriteAddr))
    {
      ghost var h := HandleValue();
      ghost var result := CopyLines(h, mem[..], dma, 0, windowULX * BYTES_PER_PIXEL, datCurWriteAddr);
      var dmaBufAddr: nat := windowULX * BYTES_PER_PIXEL;
      var line: nat := 0;
      while line < linePerFrag
        invariant line <= linePerFrag
        invariant HandleValue() == h.(datCurWriteAddr := datCurWriteAddr)
        invariant CopyLines(h, mem[..], dma, line, dmaBufAddr, datCurWriteAddr) == result
      {
        if dmaCurLine + line > windowLRY {
          break;
        } else if dmaCurLine + line >= windowULY {
          CopyOneLine(datCurWriteAddr, dma, dmaBufAddr);
          datCurWriteAddr := datCurWriteAddr + datBytePerLine;
          dmaBufAddr := dmaBufAddr + dmaBytePerLine;
        }
        line := line + 1;
      }
    }
  }
}
