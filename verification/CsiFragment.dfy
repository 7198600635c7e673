/** Capturing one image in fragment mode: the camera fills two small DMA buffers in turn, and the
    interrupt handler copies the wanted part of each into the user's buffer. */
module CsiFragment {

  type Byte = bv8

  const U16 := 0x1_0000
  const BYTES_PER_PIXEL := 2

  datatype Format = Rgb565 | Yuyv | Uyvy
  datatype CopyFunc = MemCopy | ExtractYFromYuyv | ExtractYFromUyvy

  /** The handle. `outputBuffer` and `datCurWriteAddr` are addresses in the user's memory. */
  datatype Handle = Handle(width: nat, height: nat, maxLinePerFrag: nat, linePerFrag: nat,
                           dmaBytePerLine: nat, datBytePerLine: nat, dmaCurLine: nat,
                           ulx: nat, uly: nat, lrx: nat, lry: nat,
                           outputBuffer: nat, datCurWriteAddr: nat, inputFormat: Format, copyFunc: CopyFunc)

  datatype Window = Window(ulx: nat, uly: nat, lrx: nat, lry: nat)
  datatype Option<T> = None | Some(value: T)
  datatype Config = Config(width: nat, height: nat, inputFormat: Format, dmaBufferLine: nat)

  // ---------------------------------------------------------------- set-up

  /** CSI_FragModeCreateHandle. The handle is cleared, and the configured input format is never
      copied into it. */
  function CreateHandle(config: Config): Option<Handle>
    requires config.dmaBufferLine > 0
  {
    if config.width * BYTES_PER_PIXEL % 8 != 0 || config.height % config.dmaBufferLine != 0 then None
    else Some(Handle(config.width, config.height, config.dmaBufferLine, 0,
                     config.width * BYTES_PER_PIXEL % U16, 0, 0, 0, 0, 0, 0, 0, 0, Rgb565, MemCopy))
  }

  /** A window is captured one line a fragment; the full frame, as many as the DMA buffer holds. */
  function SetWindow(h: Handle, window: Option<Window>): Handle
    requires h.width > 0 && h.height > 0
  {
    match window
    case Some(w) => h.(ulx := w.ulx, uly := w.uly, lrx := w.lrx, lry := w.lry, linePerFrag := 1)
    case None => h.(ulx := 0, uly := 0, lrx := h.width - 1, lry := h.height - 1, linePerFrag := h.maxLinePerFrag)
  }

  function SetOutput(h: Handle, gray: bool, buffer: nat, windowWidth: nat): Handle {
    var h := h.(dmaCurLine := 0, outputBuffer := buffer, datCurWriteAddr := buffer);
    if gray then
      h.(datBytePerLine := windowWidth, copyFunc := if h.inputFormat == Yuyv then ExtractYFromYuyv else ExtractYFromUyvy)
    else
      h.(datBytePerLine := windowWidth * BYTES_PER_PIXEL % U16, copyFunc := MemCopy)
  }

  /** CSI_FragModeTransferCaptureImage. */
  function CaptureImage(h: Handle, gray: bool, buffer: nat, window: Option<Window>): Option<Handle>
    requires h.width > 0 && h.height > 0
  {
    var h := SetWindow(h, window);
    var windowWidth := (h.lrx - h.ulx + 1) % U16;
    if gray && windowWidth % 8 != 0 then None else Some(SetOutput(h, gray, buffer, windowWidth))
  }

  // ---------------------------------------------------------------- one line

  /** The source bytes that `n` output bytes come from. */
  function Span(f: CopyFunc, n: nat): nat { if f == MemCopy then n else 2 * n }

  function Phase(f: CopyFunc): nat { if f == ExtractYFromUyvy then 1 else 0 }

  /** The bytes a copy function stores: all of them, or every other one from the first or second on. */
  function CopyLine(f: CopyFunc, src: seq<Byte>, from: nat, count: nat): (r: seq<Byte>)
    requires from + Span(f, count) <= |src|
    ensures |r| == count
  {
    seq(count, i requires 0 <= i < count => src[from + Span(f, i) + Phase(f)])
  }

  function Overwrite(mem: seq<Byte>, at: nat, s: seq<Byte>): (r: seq<Byte>)
    requires at + |s| <= |mem|
    ensures |r| == |mem|
  {
    mem[..at] + s + mem[at + |s|..]
  }

  // ---------------------------------------------------------------- one fragment

  /** The loop of the interrupt handler over the lines of a fragment, from line `line` on, with the
      source offset `src` and the destination address `dst`; None where it would leave a buffer. */
  function CopyLines(h: Handle, mem: seq<Byte>, dma: seq<Byte>, line: nat, src: nat, dst: nat)
    : (r: Option<(seq<Byte>, nat)>)
    requires line <= h.linePerFrag
    ensures r.Some? ==> |r.value.0| == |mem|
    decreases h.linePerFrag - line
  {
    if line == h.linePerFrag || h.dmaCurLine + line > h.lry then Some((mem, dst))
    else if h.dmaCurLine + line < h.uly then CopyLines(h, mem, dma, line + 1, src, dst)
    else if src + Span(h.copyFunc, h.datBytePerLine) > |dma| || dst + h.datBytePerLine > |mem| then None
    else
      var mem' := Overwrite(mem, dst, CopyLine(h.copyFunc, dma, src, h.datBytePerLine));
      CopyLines(h, mem', dma, line + 1, src + h.dmaBytePerLine, dst + h.datBytePerLine)
  }

  /** What one interrupt leaves: the handle, the user's memory, whether the capture is still on, and
      how often the completion callback was called. */
  datatype State = State(h: Handle, mem: seq<Byte>, on: bool, callbacks: nat)

  function StartOfFrame(s: State): State {
    s.(h := s.h.(dmaCurLine := 0, datCurWriteAddr := s.h.outputBuffer))
  }

  function FragmentDone(s: State, dma: seq<Byte>): Option<State> {
    var h := s.h;
    match CopyLines(h, s.mem, dma, 0, h.ulx * BYTES_PER_PIXEL, h.datCurWriteAddr)
    case None => None
    case Some((mem, dst)) =>
      var h' := h.(datCurWriteAddr := dst, dmaCurLine := (h.dmaCurLine + h.linePerFrag) % U16);
      if h'.dmaCurLine >= h.height then Some(State(h', mem, false, s.callbacks + 1))
      else Some(State(h', mem, s.on, s.callbacks))
  }

  // ---------------------------------------------------------------- frames and crops

  /** A camera frame: rows of two-byte pixels. */
  predicate FrameOk(h: Handle, frame: seq<seq<Byte>>) {
    |frame| == h.height && forall r :: 0 <= r < |frame| ==> |frame[r]| == h.dmaBytePerLine
  }

  /** A handle as CaptureImage leaves it for a valid window. */
  predicate Ready(h: Handle) {
    && 0 < h.height < U16 && 0 < h.linePerFrag
    && h.ulx <= h.lrx < h.width && h.uly <= h.lry < h.height
    && (h.uly == 0 || h.linePerFrag == 1)
    && h.dmaBytePerLine == h.width * BYTES_PER_PIXEL
    && (h.copyFunc == MemCopy ==> h.datBytePerLine == (h.lrx - h.ulx + 1) * BYTES_PER_PIXEL)
    && (h.copyFunc != MemCopy ==> h.datBytePerLine == h.lrx - h.ulx + 1)
  }

  /** For a window inside the frame, a capture is refused exactly when a gray crop is not a multiple
      of eight pixels wide. An accepted one leaves a handle that is ready if and only if a line of
      the frame fits the handle's 16-bit byte count. */
  lemma CaptureIsReady(config: Config, h: Handle, gray: bool, buffer: nat, window: Option<Window>)
    requires 0 < config.width < U16 && 0 < config.height < U16 && 0 < config.dmaBufferLine
    requires CreateHandle(config) == Some(h.(inputFormat := Rgb565))
    requires window.Some? ==>
               window.value.ulx <= window.value.lrx < config.width && window.value.uly <= window.value.lry < config.height
    ensures var r := CaptureImage(h, gray, buffer, window);
            && (r.None? <==> gray && (if window.Some? then window.value.lrx - window.value.ulx + 1 else config.width) % 8 != 0)
            && (r.Some? ==> (Ready(r.value) <==> config.width < 0x8000)
                            && r.value.height % r.value.linePerFrag == 0
                            && r.value.datCurWriteAddr == r.value.outputBuffer == buffer)
  {
    assert h.width == config.width && h.height == config.height;
    hide SetWindow, SetOutput, Ready, WindowReady, CreateHandle;
    var w := SetWindow(h, window);
    WindowIsReady(config, h, window);
    OutputIsReady(w, gray, buffer);
  }

  lemma WindowIsReady(config: Config, h: Handle, window: Option<Window>)
    requires 0 < config.width < U16 && 0 < config.height < U16 && 0 < config.dmaBufferLine
    requires CreateHandle(config) == Some(h.(inputFormat := Rgb565))
    requires window.Some? ==>
               window.value.ulx <= window.value.lrx < config.width && window.value.uly <= window.value.lry < config.height
    ensures var w := SetWindow(h, window);
            && w.width == config.width && WindowReady(w) && w.height % w.linePerFrag == 0
            && 0 < w.lrx - w.ulx + 1 == (w.lrx - w.ulx + 1) % U16
            && w.lrx - w.ulx + 1 == if window.Some? then window.value.lrx - window.value.ulx + 1 else config.width
  {
  }

  /** The part of readiness that the output format does not decide. */
  predicate WindowReady(h: Handle) {
    && 0 < h.width < U16 && 0 < h.height < U16 && 0 < h.linePerFrag
    && h.ulx <= h.lrx < h.width && h.uly <= h.lry < h.height
    && (h.uly == 0 || h.linePerFrag == 1)
    && h.dmaBytePerLine == h.width * BYTES_PER_PIXEL % U16
  }

  lemma OutputIsReady(h: Handle, gray: bool, buffer: nat)
    requires WindowReady(h)
    ensures var r := SetOutput(h, gray, buffer, (h.lrx - h.ulx + 1) % U16);
            && (Ready(r) <==> h.width < 0x8000)
            && r.height == h.height && r.linePerFrag == h.linePerFrag && r.datCurWriteAddr == r.outputBuffer == buffer
  {
  }

  /** Row `r` of the crop. */
  function CropRow(h: Handle, frame: seq<seq<Byte>>, r: nat): (row: seq<Byte>)
    requires Ready(h) && FrameOk(h, frame) && h.uly + r <= h.lry
    ensures |row| == h.datBytePerLine
  {
    CopyLine(h.copyFunc, frame[h.uly + r], h.ulx * BYTES_PER_PIXEL, h.datBytePerLine)
  }

  /** The first `n` rows of the crop, one after the other. */
  function Crop(h: Handle, frame: seq<seq<Byte>>, n: nat): (s: seq<Byte>)
    requires Ready(h) && FrameOk(h, frame) && h.uly + n <= h.lry + 1
    ensures |s| == n * h.datBytePerLine
  {
    if n == 0 then [] else Crop(h, frame, n - 1) + CropRow(h, frame, n - 1)
  }

  function CropHeight(h: Handle): nat
    requires h.uly <= h.lry
  {
    h.lry - h.uly + 1
  }

  /** The crop rows among the first `c` lines of the frame. */
  function RowsBefore(h: Handle, c: nat): (n: nat)
    requires h.uly <= h.lry
    ensures h.uly + n <= h.lry + 1
  {
    if c <= h.uly then 0 else if c > h.lry then CropHeight(h) else c - h.uly
  }

  /** The DMA buffer holds the lines of the frame from `c` on. */
  predicate DmaHolds(h: Handle, frame: seq<seq<Byte>>, c: nat, dma: seq<Byte>)
    requires FrameOk(h, frame)
  {
    && c + h.linePerFrag <= h.height && |dma| == h.linePerFrag * h.dmaBytePerLine
    && forall i :: 0 <= i < h.linePerFrag ==> DmaLine(h, dma, i) == frame[c + i]
  }

  /** Line `i` of a DMA buffer. */
  function DmaLine(h: Handle, dma: seq<Byte>, i: nat): seq<Byte>
    requires |dma| == h.linePerFrag * h.dmaBytePerLine && i < h.linePerFrag
  {
    LineFits(i, h.linePerFrag, h.dmaBytePerLine);
    dma[i * h.dmaBytePerLine..i * h.dmaBytePerLine + h.dmaBytePerLine]
  }

  lemma LineFits(i: nat, n: nat, w: nat)
    requires i < n
    ensures i * w + w <= n * w
  {
    MulLe(i + 1, n, w);
    Distribute(i, 1, w);
  }

  lemma Distribute(m: nat, n: nat, w: nat)
    ensures (m + n) * w == m * w + n * w
  {
  }

  /** The user's memory once the first `n` crop rows are in it. */
  function Filled(h: Handle, frame: seq<seq<Byte>>, mem: seq<Byte>, n: nat): (r: seq<Byte>)
    requires Ready(h) && FrameOk(h, frame) && h.uly + n <= h.lry + 1
    requires h.outputBuffer + n * h.datBytePerLine <= |mem|
    ensures |r| == |mem|
  {
    Overwrite(mem, h.outputBuffer, Crop(h, frame, n))
  }

  // ---------------------------------------------------------------- a fragment fills its rows

  lemma MulLe(m: nat, n: nat, w: nat)
    requires m <= n
    ensures m * w <= n * w
  {
    Distribute(m, n - m, w);
  }

  /** The user's buffer is large enough for the crop. */
  predicate Room(h: Handle, mem: seq<Byte>)
    requires h.uly <= h.lry
  {
    h.outputBuffer + CropHeight(h) * h.datBytePerLine <= |mem|
  }

  function FilledTo(h: Handle, frame: seq<seq<Byte>>, mem: seq<Byte>, c: nat): (r: (seq<Byte>, nat))
    requires Ready(h) && FrameOk(h, frame) && Room(h, mem)
    ensures |r.0| == |mem|
  {
    var n := RowsBefore(h, c);
    MulLe(n, CropHeight(h), h.datBytePerLine);
    (Filled(h, frame, mem, n), h.outputBuffer + n * h.datBytePerLine)
  }

  /** Where line `i` of a DMA buffer has the first pixel of the window. */
  function LineStart(h: Handle, i: nat): nat { h.ulx * BYTES_PER_PIXEL + i * h.dmaBytePerLine }

  lemma LineStartNext(h: Handle, i: nat)
    ensures LineStart(h, i + 1) == LineStart(h, i) + h.dmaBytePerLine
  {
    Distribute(i, 1, h.dmaBytePerLine);
  }

  /** A line inside the window is copied to its place behind the rows before it. */
  lemma LineFills(h: Handle, frame: seq<seq<Byte>>, mem: seq<Byte>, c: nat, dma: seq<Byte>, i: nat)
    requires Ready(h) && FrameOk(h, frame) && Room(h, mem)
    requires DmaHolds(h, frame, h.dmaCurLine, dma) && i < h.linePerFrag && c == h.dmaCurLine + i
    requires h.uly <= c <= h.lry
    ensures var src := LineStart(h, i);
            var (mem1, dst) := FilledTo(h, frame, mem, c);
            && src + Span(h.copyFunc, h.datBytePerLine) <= |dma| && dst + h.datBytePerLine <= |mem|
            && (Overwrite(mem1, dst, CopyLine(h.copyFunc, dma, src, h.datBytePerLine)), dst + h.datBytePerLine)
               == FilledTo(h, frame, mem, c + 1)
  {
    var n := c - h.uly;
    DmaRowIsCropRow(h, frame, dma, i, n);
    RowFills(h, frame, mem, n);
  }

  /** One more crop row, behind the first `n`. */
  lemma RowFills(h: Handle, frame: seq<seq<Byte>>, mem: seq<Byte>, n: nat)
    requires Ready(h) && FrameOk(h, frame) && Room(h, mem) && h.uly + n <= h.lry
    ensures var (mem1, dst) := FilledTo(h, frame, mem, h.uly + n);
            && dst + h.datBytePerLine <= |mem|
            && (Overwrite(mem1, dst, CropRow(h, frame, n)), dst + h.datBytePerLine)
               == FilledTo(h, frame, mem, h.uly + n + 1)
  {
    var w := h.datBytePerLine;
    MulLe(n + 1, CropHeight(h), w);
    assert (n + 1) * w == n * w + w;
    OverwriteTwice(mem, h.outputBuffer, Crop(h, frame, n), CropRow(h, frame, n));
  }

  lemma OverwriteTwice(mem: seq<Byte>, at: nat, s: seq<Byte>, t: seq<Byte>)
    requires at + |s| + |t| <= |mem|
    ensures Overwrite(Overwrite(mem, at, s), at + |s|, t) == Overwrite(mem, at, s + t)
  {
  }

  lemma DmaRowIsCropRow(h: Handle, frame: seq<seq<Byte>>, dma: seq<Byte>, i: nat, n: nat)
    requires Ready(h) && FrameOk(h, frame) && DmaHolds(h, frame, h.dmaCurLine, dma)
    requires i < h.linePerFrag && h.uly + n == h.dmaCurLine + i <= h.lry
    ensures var src := h.ulx * BYTES_PER_PIXEL + i * h.dmaBytePerLine;
            && src + Span(h.copyFunc, h.datBytePerLine) <= |dma|
            && CopyLine(h.copyFunc, dma, src, h.datBytePerLine) == CropRow(h, frame, n)
  {
    hide CopyLine;
    LineFits(i, h.linePerFrag, h.dmaBytePerLine);
    assert DmaLine(h, dma, i) == frame[h.dmaCurLine + i] == frame[h.uly + n];
    CopyLineInside(h.copyFunc, dma, i * h.dmaBytePerLine, frame[h.uly + n], h.ulx * BYTES_PER_PIXEL, h.datBytePerLine);
  }

  lemma CopyLineInside(f: CopyFunc, dma: seq<Byte>, base: nat, line: seq<Byte>, from: nat, count: nat)
    requires base + |line| <= |dma| && line == dma[base..base + |line|] && from + Span(f, count) <= |line|
    ensures CopyLine(f, dma, from + base, count) == CopyLine(f, line, from, count)
  {
    forall i | 0 <= i < count
      ensures CopyLine(f, dma, from + base, count)[i] == CopyLine(f, line, from, count)[i]
    {
      var k := from + Span(f, i) + Phase(f);
      assert k < |line| && line[k] == dma[base + k];
    }
  }

  /** The line loop, from line `line` on, takes the memory filled so far to the memory filled by the
      whole fragment. */
  predicate LinesFill(h: Handle, frame: seq<seq<Byte>>, mem: seq<Byte>, dma: seq<Byte>, line: nat, src: nat)
    requires Ready(h) && FrameOk(h, frame) && Room(h, mem) && line <= h.linePerFrag
  {
    var (mem1, dst) := FilledTo(h, frame, mem, h.dmaCurLine + line);
    CopyLines(h, mem1, dma, line, src, dst) == Some(FilledTo(h, frame, mem, h.dmaCurLine + h.linePerFrag))
  }

  lemma {:induction false} CopyLinesFill(h: Handle, frame: seq<seq<Byte>>, mem: seq<Byte>, dma: seq<Byte>, line: nat, src: nat)
    requires Ready(h) && FrameOk(h, frame) && Room(h, mem)
    requires DmaHolds(h, frame, h.dmaCurLine, dma) && line <= h.linePerFrag
    requires line < h.linePerFrag ==> src == LineStart(h, line)
    ensures LinesFill(h, frame, mem, dma, line, src)
    decreases h.linePerFrag - line
  {
    assert h.uly == 0 || h.linePerFrag == 1;
    hide LinesFill, LineStart, DmaHolds, Ready, FrameOk, Room;
    var c := h.dmaCurLine + line;
    if line == h.linePerFrag || c > h.lry {
      StopFills(h, frame, mem, dma, line, src);
    } else if c < h.uly {
      CopyLinesFill(h, frame, mem, dma, line + 1, src);
      SkipFills(h, frame, mem, dma, line, src);
    } else {
      LineStartNext(h, line);
      CopyLinesFill(h, frame, mem, dma, line + 1, src + h.dmaBytePerLine);
      CopyFills(h, frame, mem, dma, line, src);
    }
  }

  lemma StopFills(h: Handle, frame: seq<seq<Byte>>, mem: seq<Byte>, dma: seq<Byte>, line: nat, src: nat)
    requires Ready(h) && FrameOk(h, frame) && Room(h, mem) && line <= h.linePerFrag
    requires line == h.linePerFrag || h.dmaCurLine + line > h.lry
    ensures LinesFill(h, frame, mem, dma, line, src)
  {
    hide CopyLines, FilledTo;
    var (mem1, dst) := FilledTo(h, frame, mem, h.dmaCurLine + line);
    StopLines(h, mem1, dma, line, src, dst);
    SameRows(h, frame, mem, h.dmaCurLine + line, h.dmaCurLine + h.linePerFrag);
  }

  lemma SkipFills(h: Handle, frame: seq<seq<Byte>>, mem: seq<Byte>, dma: seq<Byte>, line: nat, src: nat)
    requires Ready(h) && FrameOk(h, frame) && Room(h, mem) && line < h.linePerFrag
    requires h.dmaCurLine + line < h.uly && LinesFill(h, frame, mem, dma, line + 1, src)
    ensures LinesFill(h, frame, mem, dma, line, src)
  {
    hide CopyLines, FilledTo;
    var c := h.dmaCurLine + line;
    var (mem1, dst) := FilledTo(h, frame, mem, c);
    SkipLine(h, mem1, dma, line, src, dst);
    SameRows(h, frame, mem, c, c + 1);
    assert h.dmaCurLine + (line + 1) == c + 1;
  }

  lemma CopyFills(h: Handle, frame: seq<seq<Byte>>, mem: seq<Byte>, dma: seq<Byte>, line: nat, src: nat)
    requires Ready(h) && FrameOk(h, frame) && Room(h, mem) && DmaHolds(h, frame, h.dmaCurLine, dma)
    requires line < h.linePerFrag && h.uly <= h.dmaCurLine + line <= h.lry && src == LineStart(h, line)
    requires LinesFill(h, frame, mem, dma, line + 1, src + h.dmaBytePerLine)
    ensures LinesFill(h, frame, mem, dma, line, src)
  {
    hide CopyLines, FilledTo, LineStart, DmaHolds, Ready, FrameOk, Room, Overwrite, CopyLine, Span;
    var c := h.dmaCurLine + line;
    var (mem1, dst) := FilledTo(h, frame, mem, c);
    LineFills(h, frame, mem, c, dma, line);
    OneLine(h, mem1, dma, line, src, dst);
    assert h.dmaCurLine + (line + 1) == c + 1;
  }

  lemma SkipLine(h: Handle, mem: seq<Byte>, dma: seq<Byte>, line: nat, src: nat, dst: nat)
    requires line < h.linePerFrag && h.dmaCurLine + line <= h.lry && h.dmaCurLine + line < h.uly
    ensures CopyLines(h, mem, dma, line, src, dst) == CopyLines(h, mem, dma, line + 1, src, dst)
  {
  }

  lemma OneLine(h: Handle, mem: seq<Byte>, dma: seq<Byte>, line: nat, src: nat, dst: nat)
    requires line < h.linePerFrag && h.uly <= h.dmaCurLine + line <= h.lry
    requires src + Span(h.copyFunc, h.datBytePerLine) <= |dma| && dst + h.datBytePerLine <= |mem|
    ensures CopyLines(h, mem, dma, line, src, dst)
            == CopyLines(h, Overwrite(mem, dst, CopyLine(h.copyFunc, dma, src, h.datBytePerLine)), dma, line + 1,
                         src + h.dmaBytePerLine, dst + h.datBytePerLine)
  {
  }

  lemma StopLines(h: Handle, mem: seq<Byte>, dma: seq<Byte>, line: nat, src: nat, dst: nat)
    requires line == h.linePerFrag || (line < h.linePerFrag && h.dmaCurLine + line > h.lry)
    ensures CopyLines(h, mem, dma, line, src, dst) == Some((mem, dst))
  {
  }

  lemma SameRows(h: Handle, frame: seq<seq<Byte>>, mem: seq<Byte>, c: nat, d: nat)
    requires Ready(h) && FrameOk(h, frame) && Room(h, mem) && RowsBefore(h, c) == RowsBefore(h, d)
    ensures FilledTo(h, frame, mem, c) == FilledTo(h, frame, mem, d)
  {
  }

  // ---------------------------------------------------------------- a whole frame

  /** One interrupt: its flags, and what the two DMA buffers hold when it is served. */
  datatype Irq = Irq(sof: bool, fb1Done: bool, fb2Done: bool, dma1: seq<Byte>, dma2: seq<Byte>)

  /** CSI_FragModeTransferHandleIRQ; None where a copy would leave a buffer. */
  function HandleIrq(s: State, irq: Irq): Option<State> {
    if irq.sof then Some(StartOfFrame(s))
    else if irq.fb1Done || irq.fb2Done then FragmentDone(s, if irq.fb1Done then irq.dma1 else irq.dma2)
    else Some(s)
  }

  function Run(s: State, irqs: seq<Irq>): Option<State> {
    if irqs == [] then Some(s)
    else
      match Run(s, irqs[..|irqs| - 1])
      case None => None
      case Some(s') => HandleIrq(s', irqs[|irqs| - 1])
  }

  /** The interrupt reports the lines of the frame from `c` on, in the buffer the handler looks at. */
  predicate Delivers(h: Handle, frame: seq<seq<Byte>>, c: nat, irq: Irq)
    requires FrameOk(h, frame)
  {
    && !irq.sof && (irq.fb1Done || irq.fb2Done)
    && DmaHolds(h, frame, c, if irq.fb1Done then irq.dma1 else irq.dma2)
  }

  /** Interrupt `k` reports fragment `k` of the frame. */
  predicate DeliversAt(h: Handle, frame: seq<seq<Byte>>, irqs: seq<Irq>, k: nat)
    requires FrameOk(h, frame) && k < |irqs|
  {
    Delivers(h, frame, k * h.linePerFrag, irqs[k])
  }

  predicate DeliversAll(h: Handle, frame: seq<seq<Byte>>, irqs: seq<Irq>)
    requires FrameOk(h, frame)
  {
    forall k :: 0 <= k < |irqs| ==> DeliversAt(h, frame, irqs, k)
  }

  /** The handle after `c` lines of a frame have been dealt with. */
  function HandleAt(h: Handle, frame: seq<seq<Byte>>, mem: seq<Byte>, c: nat): Handle
    requires Ready(h) && FrameOk(h, frame) && Room(h, mem)
  {
    h.(dmaCurLine := c, datCurWriteAddr := FilledTo(h, frame, mem, c).1)
  }

  /** What is left, from state `s`, after the start of a frame and its first `c` lines. */
  function After(s: State, frame: seq<seq<Byte>>, c: nat): State
    requires Ready(s.h) && FrameOk(s.h, frame) && Room(s.h, s.mem)
  {
    var done := c == s.h.height;
    State(HandleAt(s.h, frame, s.mem, c), FilledTo(s.h, frame, s.mem, c).0,
          if done then false else s.on, s.callbacks + if done then 1 else 0)
  }

  /** The crop depends on the window only, not on how far the capture has come. */
  lemma SameCrop(h: Handle, g: Handle, frame: seq<seq<Byte>>, mem: seq<Byte>, c: nat)
    requires Ready(h) && FrameOk(h, frame) && Room(h, mem)
    requires g == h.(dmaCurLine := g.dmaCurLine, datCurWriteAddr := g.datCurWriteAddr)
    ensures Ready(g) && FrameOk(g, frame) && Room(g, mem) && FilledTo(g, frame, mem, c) == FilledTo(h, frame, mem, c)
  {
    SameCropRows(h, g, frame, RowsBefore(h, c));
  }

  lemma {:induction false} SameCropRows(h: Handle, g: Handle, frame: seq<seq<Byte>>, n: nat)
    requires Ready(h) && Ready(g) && FrameOk(h, frame) && h.uly + n <= h.lry + 1
    requires g == h.(dmaCurLine := g.dmaCurLine, datCurWriteAddr := g.datCurWriteAddr)
    ensures Crop(g, frame, n) == Crop(h, frame, n)
  {
    if n > 0 { SameCropRows(h, g, frame, n - 1); }
  }

  /** What FragmentDone makes of a copy that went well. */
  lemma FragmentDoneBy(g: Handle, mem: seq<Byte>, on: bool, callbacks: nat, dma: seq<Byte>, mem1: seq<Byte>, dst: nat)
    requires CopyLines(g, mem, dma, 0, g.ulx * BYTES_PER_PIXEL, g.datCurWriteAddr) == Some((mem1, dst))
    requires g.dmaCurLine + g.linePerFrag < U16
    ensures var c := g.dmaCurLine + g.linePerFrag;
            FragmentDone(State(g, mem, on, callbacks), dma)
            == Some(State(g.(datCurWriteAddr := dst, dmaCurLine := c), mem1,
                          if c >= g.height then false else on, callbacks + if c >= g.height then 1 else 0))
  {
    assert (g.dmaCurLine + g.linePerFrag) % U16 == g.dmaCurLine + g.linePerFrag;
  }

  lemma FragmentFills(s: State, frame: seq<seq<Byte>>, c: nat, irq: Irq)
    requires Ready(s.h) && FrameOk(s.h, frame) && Room(s.h, s.mem) && Delivers(s.h, frame, c, irq)
    ensures HandleIrq(After(s, frame, c), irq) == Some(After(s, frame, c + s.h.linePerFrag))
  {
    var dma := if irq.fb1Done then irq.dma1 else irq.dma2;
    var h, g := s.h, HandleAt(s.h, frame, s.mem, c);
    CopyAllFrom(h, g, frame, s.mem, c, dma);
    var a, to := After(s, frame, c), FilledTo(h, frame, s.mem, c + h.linePerFrag);
    FragmentDoneBy(g, a.mem, a.on, a.callbacks, dma, to.0, to.1);
  }

  lemma CopyAllLines(h: Handle, frame: seq<seq<Byte>>, mem: seq<Byte>, dma: seq<Byte>)
    requires Ready(h) && FrameOk(h, frame) && Room(h, mem) && DmaHolds(h, frame, h.dmaCurLine, dma)
    ensures var (mem1, dst) := FilledTo(h, frame, mem, h.dmaCurLine);
            CopyLines(h, mem1, dma, 0, h.ulx * BYTES_PER_PIXEL, dst)
            == Some(FilledTo(h, frame, mem, h.dmaCurLine + h.linePerFrag))
  {
    assert 0 * h.dmaBytePerLine == 0;
    CopyLinesFill(h, frame, mem, dma, 0, h.ulx * BYTES_PER_PIXEL);
  }

  lemma CopyAllFrom(h: Handle, g: Handle, frame: seq<seq<Byte>>, mem: seq<Byte>, c: nat, dma: seq<Byte>)
    requires Ready(h) && FrameOk(h, frame) && Room(h, mem) && DmaHolds(h, frame, c, dma)
    requires g == HandleAt(h, frame, mem, c)
    ensures CopyLines(g, FilledTo(h, frame, mem, c).0, dma, 0, g.ulx * BYTES_PER_PIXEL, g.datCurWriteAddr)
            == Some(FilledTo(h, frame, mem, c + h.linePerFrag))
  {
    hide CopyLines, FilledTo, Ready, FrameOk, Room;
    SameCrop(h, g, frame, mem, c);
    SameCrop(h, g, frame, mem, c + h.linePerFrag);
    forall i | 0 <= i < g.linePerFrag ensures DmaLine(g, dma, i) == frame[c + i] {
      assert DmaLine(h, dma, i) == frame[c + i];
    }
    assert DmaHolds(g, frame, c, dma);
    CopyAllLines(g, frame, mem, dma);
  }

  lemma NothingFilled(h: Handle, frame: seq<seq<Byte>>, mem: seq<Byte>)
    requires Ready(h) && FrameOk(h, frame) && Room(h, mem)
    ensures FilledTo(h, frame, mem, 0) == (mem, h.outputBuffer)
  {
    assert 0 * h.datBytePerLine == 0;
    assert RowsBefore(h, 0) == 0 && Crop(h, frame, 0) == [];
    assert Overwrite(mem, h.outputBuffer, []) == mem;
  }

  lemma RunOne(s: State, irq: Irq)
    ensures Run(s, [irq]) == HandleIrq(s, irq)
  {
    assert [irq][..0] == [];
  }

  /** The start of a frame rewinds the handle, wherever it was. */
  lemma StartRewinds(s: State, frame: seq<seq<Byte>>, sof: Irq)
    requires Ready(s.h) && FrameOk(s.h, frame) && Room(s.h, s.mem) && sof.sof
    ensures Run(s, [sof]) == Some(After(s, frame, 0))
  {
    RunOne(s, sof);
    NothingFilled(s.h, frame, s.mem);
  }

  lemma {:induction false} FragmentsFill(s: State, frame: seq<seq<Byte>>, sof: Irq, irqs: seq<Irq>)
    requires Ready(s.h) && FrameOk(s.h, frame) && Room(s.h, s.mem) && sof.sof
    requires DeliversAll(s.h, frame, irqs)
    ensures Run(s, [sof] + irqs) == Some(After(s, frame, |irqs| * s.h.linePerFrag))
    decreases |irqs|
  {
    hide After, HandleIrq, Run, Ready, FrameOk, Room, Delivers;
    var L := s.h.linePerFrag;
    if irqs == [] {
      assert [sof] + irqs == [sof] && 0 * L == 0;
      StartRewinds(s, frame, sof);
    } else {
      var m := |irqs| - 1;
      var front, last := irqs[..m], irqs[m];
      Distribute(m, 1, L);
      assert DeliversAt(s.h, frame, irqs, m);
      forall k | 0 <= k < m ensures DeliversAt(s.h, frame, front, k) { assert DeliversAt(s.h, frame, irqs, k); }
      FragmentsFill(s, frame, sof, front);
      FragmentFills(s, frame, m * L, last);
      RunSnoc(s, [sof] + front, last);
      assert [sof] + irqs == ([sof] + front) + [last];
    }
  }

  lemma RunSnoc(s: State, irqs: seq<Irq>, irq: Irq)
    ensures Run(s, irqs + [irq]) ==
            match Run(s, irqs) case None => None case Some(s') => HandleIrq(s', irq)
  {
    assert (irqs + [irq])[..|irqs|] == irqs;
  }

  /** From any state of the handle, a start of frame and the fragments of that frame leave the
      user's buffer holding the whole crop and nothing else changed, the capture switched off, and
      the callback called once, by the last fragment. */
  lemma FrameIsCaptured(s: State, frame: seq<seq<Byte>>, sof: Irq, irqs: seq<Irq>)
    requires Ready(s.h) && FrameOk(s.h, frame) && Room(s.h, s.mem) && sof.sof && s.on
    requires DeliversAll(s.h, frame, irqs) && |irqs| * s.h.linePerFrag == s.h.height
    ensures var r := Run(s, [sof] + irqs);
            && r.Some? && !r.value.on && r.value.callbacks == s.callbacks + 1
            && r.value.mem == Overwrite(s.mem, s.h.outputBuffer, Crop(s.h, frame, CropHeight(s.h)))
    ensures forall k :: 0 <= k < |irqs| ==>
              var r := Run(s, [sof] + irqs[..k]);
              r.Some? && r.value.on && r.value.callbacks == s.callbacks
  {
    FragmentsFill(s, frame, sof, irqs);
    forall k | 0 <= k < |irqs|
      ensures var r := Run(s, [sof] + irqs[..k]);
              r.Some? && r.value.on && r.value.callbacks == s.callbacks
    {
      LineFits(k, |irqs|, s.h.linePerFrag);
      forall j | 0 <= j < k ensures DeliversAt(s.h, frame, irqs[..k], j) { assert DeliversAt(s.h, frame, irqs, j); }
      FragmentsFill(s, frame, sof, irqs[..k]);
    }
  }

  // ---------------------------------------------------------------- gray captures

  /** The extraction loops end only for counts that are positive multiples of eight. */
  predicate Extractable(h: Handle) {
    h.copyFunc != MemCopy ==> 0 < h.datBytePerLine && h.datBytePerLine % 8 == 0
  }

  lemma AcceptedCaptureIsExtractable(h: Handle, gray: bool, buffer: nat, window: Option<Window>)
    requires h.width > 0 && h.height > 0
    requires CaptureImage(h, gray, buffer, window).Some? && Ready(CaptureImage(h, gray, buffer, window).value)
    ensures Extractable(CaptureImage(h, gray, buffer, window).value)
  {
  }

  /** The luma byte of pixel `x` of a row sent in a YUV format. */
  function Luma(camera: Format, row: seq<Byte>, x: nat): Byte
    requires 2 * x + 1 < |row|
  {
    if camera == Yuyv then row[2 * x] else row[2 * x + 1]
  }

  ghost predicate RowsAreLuma(h: Handle, camera: Format, frame: seq<seq<Byte>>)
    requires Ready(h) && h.copyFunc != MemCopy && FrameOk(h, frame)
  {
    forall r, i :: 0 <= r < CropHeight(h) && 0 <= i < h.datBytePerLine ==>
      CropRow(h, frame, r)[i] == Luma(camera, frame[h.uly + r], h.ulx + i)
  }

  /** A gray capture of a YUV camera is the luma of the crop, for every frame, if and only if the
      handle's format and the camera's agree on whether luma comes first. */
  lemma GrayIsLumaExact(h: Handle, camera: Format)
    requires Ready(h) && camera != Rgb565
    requires h.copyFunc == if h.inputFormat == Yuyv then ExtractYFromYuyv else ExtractYFromUyvy
    ensures (forall frame :: FrameOk(h, frame) ==> RowsAreLuma(h, camera, frame))
            <==> (camera == Yuyv <==> h.inputFormat == Yuyv)
  {
    if (camera == Yuyv) != (h.inputFormat == Yuyv) {
      var row: seq<Byte> := seq(h.dmaBytePerLine, j => if j % 2 == 0 then 0 else 1);
      var frame := seq(h.height, r => row);
      assert frame[h.uly] == row && row[2 * h.ulx] == 0 && row[2 * h.ulx + 1] == 1;
      CropPixel(h, frame, 0, 0);
      assert FrameOk(h, frame) && !RowsAreLuma(h, camera, frame);
    } else {
      forall frame, r, i | FrameOk(h, frame) && 0 <= r < CropHeight(h) && 0 <= i < h.datBytePerLine
        ensures CropRow(h, frame, r)[i] == Luma(camera, frame[h.uly + r], h.ulx + i)
      {
        CropPixel(h, frame, r, i);
      }
    }
  }

  lemma CropPixel(h: Handle, frame: seq<seq<Byte>>, r: nat, i: nat)
    requires Ready(h) && FrameOk(h, frame) && h.copyFunc != MemCopy && h.uly + r <= h.lry && i < h.datBytePerLine
    ensures 2 * (h.ulx + i) + 1 < |frame[h.uly + r]|
    ensures CropRow(h, frame, r)[i] == frame[h.uly + r][2 * (h.ulx + i) + Phase(h.copyFunc)]
  {
    assert h.ulx * BYTES_PER_PIXEL + Span(h.copyFunc, i) == 2 * (h.ulx + i);
  }

  /** Because the configured format never reaches the handle, a gray capture through a created handle
      is right for UYVY cameras only. */
  lemma CreatedHandleGrayExact(config: Config, h: Handle, buffer: nat, window: Option<Window>, g: Handle)
    requires config.dmaBufferLine > 0 && config.height > 0 && config.width > 0 && CreateHandle(config) == Some(h)
    requires CaptureImage(h, true, buffer, window) == Some(g) && Ready(g) && config.inputFormat != Rgb565
    ensures (forall frame :: FrameOk(g, frame) ==> RowsAreLuma(g, config.inputFormat, frame))
            <==> config.inputFormat == Uyvy
  {
    GrayIsLumaExact(g, config.inputFormat);
  }
}
