/** Fragment captures from the request to the bytes: what a capture leaves in the user's memory, in terms
    of the window asked for and the frame. */
module CsiCapture {
  import opened CsiFragment

  /** The window a request stands for: the whole frame without one. */
  function Requested(config: Config, window: Option<Window>): Window
    requires config.width > 0 && config.height > 0
  {
    if window.Some? then window.value else Window(0, 0, config.width - 1, config.height - 1)
  }

  /** The handle of every accepted capture holds the requested window. */
  lemma WindowIsKept(config: Config, h: Handle, gray: bool, buffer: nat, window: Option<Window>)
    requires config.width > 0 && config.height > 0 && h.width == config.width && h.height == config.height
    requires CaptureImage(h, gray, buffer, window).Some?
    ensures var g := CaptureImage(h, gray, buffer, window).value;
            && Window(g.ulx, g.uly, g.lrx, g.lry) == Requested(config, window)
            && g.linePerFrag == (if window.Some? then 1 else h.maxLinePerFrag)
            && g.width == h.width && g.height == h.height
            && g.outputBuffer == g.datCurWriteAddr == buffer && g.dmaCurLine == 0
            && g.copyFunc == if !gray then MemCopy else if h.inputFormat == Yuyv then ExtractYFromYuyv else ExtractYFromUyvy
  {
  }

  /** Row `r` of the crop begins behind the rows before it. */
  lemma {:induction false} CropAt(h: Handle, frame: seq<seq<Byte>>, n: nat, r: nat, i: nat)
    requires Ready(h) && FrameOk(h, frame) && h.uly + n <= h.lry + 1 && r < n && i < h.datBytePerLine
    ensures r * h.datBytePerLine + i < n * h.datBytePerLine
    ensures Crop(h, frame, n)[r * h.datBytePerLine + i] == CropRow(h, frame, r)[i]
  {
    LineFits(r, n, h.datBytePerLine);
    Distribute(n - 1, 1, h.datBytePerLine);
    if r < n - 1 {
      LineFits(r, n - 1, h.datBytePerLine);
      CropAt(h, frame, n - 1, r, i);
    }
  }

  /** The bytes of a window, row by row: both bytes of each pixel, or its luma alone. */
  function RowBytes(w: Window, gray: bool): nat
    requires w.ulx <= w.lrx
  {
    (w.lrx - w.ulx + 1) * if gray then 1 else BYTES_PER_PIXEL
  }

  function WindowBytes(w: Window, gray: bool): nat
    requires w.ulx <= w.lrx && w.uly <= w.lry
  {
    MulLe(0, w.lry - w.uly + 1, RowBytes(w, gray));
    (w.lry - w.uly + 1) * RowBytes(w, gray)
  }

  /** Where byte `i` of row `r` of a window goes, counted from its first byte. */
  function Place(w: Window, gray: bool, r: nat, i: nat): (k: nat)
    requires w.ulx <= w.lrx && r <= w.lry - w.uly && i < RowBytes(w, gray)
    ensures k < WindowBytes(w, gray)
  {
    LineFits(r, w.lry - w.uly + 1, RowBytes(w, gray));
    r * RowBytes(w, gray) + i
  }

  /** Where in its row of the frame that byte comes from. For a gray capture luma comes first in the two
      bytes of a pixel, or second. */
  function Origin(w: Window, gray: bool, lumaFirst: bool, i: nat): (k: nat)
    requires w.ulx <= w.lrx && i < RowBytes(w, gray)
    ensures k < 2 * w.lrx + 2
  {
    2 * w.ulx + if gray then 2 * i + (if lumaFirst then 0 else 1) else i
  }

  /** A valid window of a frame of two-byte pixels. */
  predicate Inside(w: Window, frame: seq<seq<Byte>>) {
    && w.ulx <= w.lrx && w.uly <= w.lry < |frame|
    && forall r :: 0 <= r < |frame| ==> 2 * w.lrx + 2 <= |frame[r]|
  }

  /** `mem` is `before` with the part of the frame inside the window, row by row, from address `at` on. */
  ghost predicate HoldsWindow(before: seq<Byte>, mem: seq<Byte>, at: nat, frame: seq<seq<Byte>>, w: Window,
                              gray: bool, lumaFirst: bool)
    requires Inside(w, frame)
  {
    && |mem| == |before| && at + WindowBytes(w, gray) <= |mem|
    && (forall r: nat, i: nat :: r <= w.lry - w.uly && i < RowBytes(w, gray) ==>
          mem[at + Place(w, gray, r, i)] == frame[w.uly + r][Origin(w, gray, lumaFirst, i)])
    && forall a: nat :: a < |mem| && !(at <= a < at + WindowBytes(w, gray)) ==> mem[a] == before[a]
  }

  /** One byte of the crop. */
  lemma CropByte(g: Handle, frame: seq<seq<Byte>>, mem: seq<Byte>, w: Window, gray: bool, r: nat, i: nat)
    requires Ready(g) && FrameOk(g, frame) && Room(g, mem) && w == Window(g.ulx, g.uly, g.lrx, g.lry)
    requires (gray <==> g.copyFunc != MemCopy) && Inside(w, frame)
    requires r <= w.lry - w.uly && i < RowBytes(w, gray)
    ensures g.outputBuffer + WindowBytes(w, gray) <= |mem| && g.datBytePerLine == RowBytes(w, gray)
    ensures Overwrite(mem, g.outputBuffer, Crop(g, frame, CropHeight(g)))[g.outputBuffer + Place(w, gray, r, i)]
            == frame[w.uly + r][Origin(w, gray, g.copyFunc == ExtractYFromYuyv, i)]
  {
    hide Crop, CropRow;
    assert g.datBytePerLine == RowBytes(w, gray);
    CropAt(g, frame, CropHeight(g), r, i);
    CropRowByte(g, frame, r, i);
  }

  lemma CropRowByte(g: Handle, frame: seq<seq<Byte>>, r: nat, i: nat)
    requires Ready(g) && FrameOk(g, frame) && g.uly + r <= g.lry && i < g.datBytePerLine
    ensures 2 * g.ulx + Span(g.copyFunc, i) + Phase(g.copyFunc) < |frame[g.uly + r]|
    ensures CropRow(g, frame, r)[i] == frame[g.uly + r][2 * g.ulx + Span(g.copyFunc, i) + Phase(g.copyFunc)]
  {
  }

  lemma CropIsWindow(g: Handle, frame: seq<seq<Byte>>, mem: seq<Byte>, w: Window, gray: bool)
    requires Ready(g) && FrameOk(g, frame) && Room(g, mem) && w == Window(g.ulx, g.uly, g.lrx, g.lry)
    requires (gray <==> g.copyFunc != MemCopy) && Inside(w, frame)
    ensures HoldsWindow(mem, Overwrite(mem, g.outputBuffer, Crop(g, frame, CropHeight(g))), g.outputBuffer, frame, w,
                        gray, g.copyFunc == ExtractYFromYuyv)
  {
    hide Crop, Place, Origin, FrameOk;
    CropByte(g, frame, mem, w, gray, 0, 0);
    forall r: nat, i: nat | r <= w.lry - w.uly && i < RowBytes(w, gray)
      ensures Overwrite(mem, g.outputBuffer, Crop(g, frame, CropHeight(g)))[g.outputBuffer + Place(w, gray, r, i)]
              == frame[w.uly + r][Origin(w, gray, g.copyFunc == ExtractYFromYuyv, i)]
    {
      CropByte(g, frame, mem, w, gray, r, i);
    }
  }

  /** A request on a created handle, for a valid window of a frame of less than 0x8000 pixels a row, with
      room in the user's memory. */
  predicate Request(config: Config, h: Handle, gray: bool, buffer: nat, window: Option<Window>,
                    mem: seq<Byte>, frame: seq<seq<Byte>>)
  {
    && 0 < config.width < 0x8000 && 0 < config.height < U16 && 0 < config.dmaBufferLine
    && CreateHandle(config) == Some(h.(inputFormat := Rgb565))
    && |frame| == config.height && (forall r :: 0 <= r < |frame| ==> |frame[r]| == 2 * config.width)
    && Inside(Requested(config, window), frame)
    && buffer + WindowBytes(Requested(config, window), gray) <= |mem|
  }

  lemma RequestIsReady(config: Config, h: Handle, gray: bool, buffer: nat, window: Option<Window>,
                       mem: seq<Byte>, frame: seq<seq<Byte>>)
    requires Request(config, h, gray, buffer, window, mem, frame)
    ensures h.width == config.width && h.height == config.height
    ensures CaptureImage(h, gray, buffer, window).Some? ==>
              var g := CaptureImage(h, gray, buffer, window).value;
              Ready(g) && FrameOk(g, frame) && Room(g, mem)
  {
    hide CaptureImage, CreateHandle, Ready;
    CreatedSize(config, h);
    var w := Requested(config, window);
    assert |frame[0]| == 2 * config.width;
    CaptureIsReady(config, h, gray, buffer, window);
    if CaptureImage(h, gray, buffer, window).Some? {
      WindowIsKept(config, h, gray, buffer, window);
      var g := CaptureImage(h, gray, buffer, window).value;
      ReadyFits(g, frame, mem, w, gray);
    }
  }

  lemma ReadyFits(g: Handle, frame: seq<seq<Byte>>, mem: seq<Byte>, w: Window, gray: bool)
    requires Ready(g) && w == Window(g.ulx, g.uly, g.lrx, g.lry) && (gray <==> g.copyFunc != MemCopy)
    requires |frame| == g.height && (forall r :: 0 <= r < |frame| ==> |frame[r]| == 2 * g.width)
    requires g.outputBuffer + WindowBytes(w, gray) <= |mem|
    ensures FrameOk(g, frame) && Room(g, mem)
  {
    assert g.datBytePerLine == RowBytes(w, gray);
  }

  /** The interrupts of one frame: its start, and its fragments in turn. */
  predicate DeliversFrame(g: Handle, frame: seq<seq<Byte>>, sof: Irq, irqs: seq<Irq>) {
    sof.sof && FrameOk(g, frame) && DeliversAll(g, frame, irqs) && |irqs| * g.linePerFrag == g.height
  }

  /** From the request to the bytes: an accepted capture, a start of frame and the fragments of the frame
      leave in the user's memory, from the address given, the part of the frame inside the requested
      window; every other byte stays, the capture is off, and the callback was called once. */
  lemma CaptureDelivers(config: Config, h: Handle, gray: bool, buffer: nat, window: Option<Window>, g: Handle,
                        mem: seq<Byte>, callbacks: nat, frame: seq<seq<Byte>>, sof: Irq, irqs: seq<Irq>)
    requires Request(config, h, gray, buffer, window, mem, frame)
    requires h.width > 0 && h.height > 0 && CaptureImage(h, gray, buffer, window) == Some(g)
    requires DeliversFrame(g, frame, sof, irqs)
    ensures var r := Run(State(g, mem, true, callbacks), [sof] + irqs);
            && r.Some? && !r.value.on && r.value.callbacks == callbacks + 1
            && HoldsWindow(mem, r.value.mem, buffer, frame, Requested(config, window), gray, h.inputFormat == Yuyv)
  {
    RequestIsReady(config, h, gray, buffer, window, mem, frame);
    WindowIsKept(config, h, gray, buffer, window);
    hide Run, HoldsWindow, DeliversFrame, Ready, FrameOk, Room, CaptureImage;
    FrameDelivers(State(g, mem, true, callbacks), frame, Requested(config, window), gray, sof, irqs);
  }

  lemma FrameDelivers(s: State, frame: seq<seq<Byte>>, w: Window, gray: bool, sof: Irq, irqs: seq<Irq>)
    requires Ready(s.h) && FrameOk(s.h, frame) && Room(s.h, s.mem) && s.on && DeliversFrame(s.h, frame, sof, irqs)
    requires w == Window(s.h.ulx, s.h.uly, s.h.lrx, s.h.lry) && Inside(w, frame)
    requires gray <==> s.h.copyFunc != MemCopy
    ensures var r := Run(s, [sof] + irqs);
            && r.Some? && !r.value.on && r.value.callbacks == s.callbacks + 1
            && HoldsWindow(s.mem, r.value.mem, s.h.outputBuffer, frame, w, gray, s.h.copyFunc == ExtractYFromYuyv)
  {
    hide Run, HoldsWindow, Crop, DeliversAll, Ready, FrameOk, Room, Overwrite;
    FrameIsCaptured(s, frame, sof, irqs);
    CropIsWindow(s.h, frame, s.mem, w, gray);
  }

  lemma CreatedSize(config: Config, h: Handle)
    requires config.dmaBufferLine > 0 && CreateHandle(config) == Some(h.(inputFormat := Rgb565))
    ensures h.width == config.width && h.height == config.height
  {
  }

  /** A configuration is refused exactly if its rows are not a whole number of eight-byte words or its
      frame is not a whole number of DMA buffers. */
  lemma CreateExact(config: Config)
    requires config.dmaBufferLine > 0
    ensures CreateHandle(config).None? <==> config.width % 4 != 0 || config.height % config.dmaBufferLine != 0
  {
  }
}
