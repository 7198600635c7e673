/** Cache maintenance by address range: the loops over cache lines, with 32-bit addresses that wrap. */
module CacheRange {
  import opened Bits

  const LINE := 32
  const LAST_LINE := 0xFFFF_FFE0

  function Align(a: Word): (r: Word)
  {
    And(a, Not(LINE - 1))
  }

  lemma AlignIs(a: Word)
    ensures Align(a) == a - a % LINE && Align(a) <= LAST_LINE && Align(a) % LINE == 0
  {
    assert PowerOfTwo(LINE) by { Pow2Values(); }
    MaskRoundsDown(a, LINE);
    RoundDown(a, LINE);
  }

  // ---------------------------------------------------------------- what the range asks for

  /** The line at `a` holds a byte of the range. */
  predicate Meets(a: int, address: Word, size: Word) {
    a % LINE == 0 && a < address + size && address < a + LINE && size > 0
  }

  /** The lines from `a` up, below `end`. */
  function LinesFrom(a: nat, end: nat): (lines: seq<nat>)
    decreases end - a
  {
    if a >= end then [] else [a] + LinesFrom(a + LINE, end)
  }

  /** `lines` are the lines of the range, each once, in order. */
  ghost predicate Exactly(lines: seq<nat>, address: Word, size: Word) {
    && (forall a :: a in lines <==> Meets(a, address, size))
    && (forall i, j :: 0 <= i < j < |lines| ==> lines[i] < lines[j])
  }

  lemma {:induction false} LinesFromAre(a: nat, end: nat)
    requires a % LINE == 0
    ensures forall x :: x in LinesFrom(a, end) <==> a <= x < end && x % LINE == 0
    ensures forall i, j :: 0 <= i < j < |LinesFrom(a, end)| ==> LinesFrom(a, end)[i] < LinesFrom(a, end)[j]
    decreases end - a
  {
    if a < end {
      LinesFromAre(a + LINE, end);
      var rest := LinesFrom(a + LINE, end);
      assert LinesFrom(a, end) == [a] + rest;
      forall j | 0 <= j < |rest| ensures a < rest[j] { assert rest[j] in rest; }
      forall x | a <= x < end && x % LINE == 0 ensures x == a || a + LINE <= x { LinesApart(a, x); }
    }
  }

  lemma LinesApart(a: int, x: int)
    requires a % LINE == 0 && x % LINE == 0 && a <= x
    ensures x == a || a + LINE <= x
  {
  }

  /** The lines from the aligned start are the lines of the range, unless the range is empty and its
      address is inside a line. */
  lemma AlignedLinesExact(address: Word, size: Word)
    ensures Exactly(LinesFrom(Align(address), address + size), address, size)
            <==> size > 0 || address % LINE == 0
  {
    var a, end := Align(address), address + size;
    AlignIs(address);
    LinesFromAre(a, end);
    if size > 0 || address % LINE == 0 {
      forall x ensures x in LinesFrom(a, end) <==> Meets(x, address, size) {
        if x % LINE == 0 {
          if a <= x { LinesApart(a, x); } else { LinesApart(x, a); }
        }
      }
    } else {
      assert a in LinesFrom(a, end) && !Meets(a, address, size);
    }
  }

  // ---------------------------------------------------------------- level 1

  /** A 32-bit pattern read as a signed number. */
  function Signed(x: Word): int { if x < 0x8000_0000 then x else x - TWO32 }

  /** L1CACHE_InvalidateICacheByRange. The byte count is signed, so from 2 GiB on nothing is done. */
  method L1InvalidateICacheByRange(address: Word, size: Word) returns (lines: seq<nat>)
    requires address + size <= TWO32
    ensures lines == if size + address % LINE < 0x8000_0000 then LinesFrom(Align(address), address + size) else []
  {
    AlignIs(address);
    var addr := Align(address);
    var alignLen := address - addr;
    var left: int := Signed(Low32(size + alignLen));
    if size + alignLen < TWO32 { Low32Id(size + alignLen); } else { Low32Wraps(size + alignLen); }
    if left <= 0 {
      if size + alignLen < 0x8000_0000 { NoLines(addr, address + size); }
      return [];
    }
    lines := L1Lines(addr, left);
  }

  /** Its loop. */
  method L1Lines(start: Word, count: nat) returns (lines: seq<nat>)
    requires start + count <= TWO32
    ensures lines == LinesFrom(start, start + count)
  {
    hide LinesFrom, Low32;
    var addr, left: int := start, count;
    ghost var next: nat, end := start, start + count;
    lines := [];
    while left > 0
      invariant next == end - left && (left > 0 ==> addr == next) && left > -LINE
      invariant lines + LinesFrom(next, end) == LinesFrom(start, end)
      decreases left
    {
      FirstLine(next, end);
      if left > LINE { Low32Id(addr + LINE); }
      lines := lines + [addr];
      addr := Low32(addr + LINE);
      left := left - LINE;
      next := next + LINE;
    }
    NoLines(next, end);
  }

  lemma FirstLine(a: nat, end: nat)
    requires a < end
    ensures LinesFrom(a, end) == [a] + LinesFrom(a + LINE, end)
  {
  }

  lemma NoLines(a: nat, end: nat)
    requires a >= end
    ensures LinesFrom(a, end) == []
  {
  }

  // ---------------------------------------------------------------- level 2

  /** The address after one round of a level-2 loop, and after `n` rounds. */
  function NextLine(a: Word): Word { Low32(Align(a) + LINE) }

  function Rounds(a: Word, n: nat): Word
    decreases n
  {
    if n == 0 then a else Rounds(NextLine(a), n - 1)
  }

  /** The level-2 invalidate loop ends, unless the range ends inside the last line of the address space:
      there the address wraps to 0 and the loop never stops. */
  predicate Ends(address: Word, size: Word) {
    var end := Low32(address + size);
    address >= end || end <= LAST_LINE
  }

  lemma {:induction false} EndlessRounds(a: Word, end: Word, n: nat)
    requires a < end && end > LAST_LINE
    ensures Rounds(a, n) < end
    decreases n
  {
    if n > 0 {
      AlignIs(a);
      NextLineAligned(a);
      EndlessRounds(NextLine(a), end, n - 1);
    }
  }

  lemma NextLineAligned(a: Word)
    ensures NextLine(a) <= LAST_LINE
    ensures Align(a) < LAST_LINE ==> NextLine(a) == Align(a) + LINE
  {
    AlignIs(a);
    if Align(a) + LINE < TWO32 {
      Low32Id(Align(a) + LINE);
      LinesApart(Align(a), LAST_LINE);
    } else {
      Low32Wraps(Align(a) + LINE);
    }
  }

  /** The loop stops after some number of rounds exactly when it ends. */
  lemma EndsExact(address: Word, size: Word)
    ensures Ends(address, size) <==> exists n: nat :: Rounds(address, n) >= Low32(address + size)
  {
    var end := Low32(address + size);
    if address < end && end > LAST_LINE {
      forall n: nat ensures Rounds(address, n) < end { EndlessRounds(address, end, n); }
    } else if address >= end {
      assert Rounds(address, 0) >= end;
    } else {
      var n := RoundsToEnd(address, end);
    }
  }

  lemma RoundsToEnd(a: Word, end: Word) returns (n: nat)
    requires end <= LAST_LINE
    ensures Rounds(a, n) >= end
    decreases if a < end then end - a else 0
  {
    n := 0;
    if a < end {
      AlignIs(a);
      NextLineAligned(a);
      var m := RoundsToEnd(NextLine(a), end);
      n := m + 1;
    }
  }

  /** What the level-2 invalidation leaves done, for a range it ends on. */
  function L2Lines(address: Word, size: Word): seq<nat> {
    if 0 < size && address + size < TWO32 then LinesFrom(Align(address), address + size) else []
  }

  /** One round from an address whose line is below an end that the loop can reach. */
  lemma RoundMoves(a: Word, end: Word)
    requires Align(a) < end <= LAST_LINE
    ensures NextLine(a) == Align(a) + LINE && Align(NextLine(a)) == NextLine(a)
    ensures LinesFrom(Align(a), end) == [Align(a)] + LinesFrom(NextLine(a), end)
  {
    hide Align, NextLine;
    AlignIs(a);
    NextLineAligned(a);
    AlignIs(NextLine(a));
    NextMultiple(Align(a));
  }

  lemma NextMultiple(x: nat)
    requires x % LINE == 0
    ensures (x + LINE) % LINE == 0
  {
  }

  lemma AlignBelow(a: Word)
    ensures Align(a) <= a < Align(a) + LINE
  {
    AlignIs(a);
  }

  /** L2CACHE_InvalidateByRange, where it ends. */
  method L2InvalidateByRange(address: Word, size: Word) returns (lines: seq<nat>)
    requires Ends(address, size)
    ensures lines == L2Lines(address, size)
  {
    hide LinesFrom;
    if address + size < TWO32 { Low32Id(address + size); } else { Low32Wraps(address + size); }
    lines := InvalidateLines(address, Low32(address + size));
  }

  /** The lines that a loop testing the address itself has still to do. */
  function Remaining(a: Word, end: Word): seq<nat> { if a < end then LinesFrom(Align(a), end) else [] }

  lemma RoundRemains(a: Word, end: Word)
    requires a < end <= LAST_LINE
    ensures a < NextLine(a)
    ensures Remaining(a, end) == [Align(a) as nat] + Remaining(NextLine(a), end)
  {
    hide Align, NextLine, LinesFrom;
    AlignBelow(a);
    RoundMoves(a, end);
    if NextLine(a) >= end {
      NoLines(NextLine(a), end);
    }
  }

  /** Its loop. */
  method InvalidateLines(address: Word, endAddr: Word) returns (lines: seq<nat>)
    requires address >= endAddr || endAddr <= LAST_LINE
    ensures lines == Remaining(address, endAddr)
  {
    hide *;
    var at: Word := address;
    lines := [];
    while at < endAddr
      invariant at < endAddr ==> endAddr <= LAST_LINE
      invariant lines + Remaining(at, endAddr) == Remaining(address, endAddr)
      decreases if at < endAddr then endAddr - at else 0
    {
      RoundRemains(at, endAddr);
      lines := lines + [Align(at)];
      at := NextLine(at);
    }
    NoneRemain(at, endAddr);
    assert lines + [] == lines;
  }

  lemma NoneRemain(a: Word, end: Word)
    requires a >= end
    ensures Remaining(a, end) == []
  {
  }

  /** The cleaning loops test the aligned address. They end, unless the line of the address is below
      an end inside the last line of the address space: no aligned address reaches that end. */
  predicate CleanEnds(address: Word, size: Word) {
    var end := Low32(address + size);
    Align(address) >= end || end <= LAST_LINE
  }

  lemma EndlessCleaning(a: Word, end: Word, n: nat)
    requires end > LAST_LINE
    ensures Align(Rounds(a, n)) < end
  {
    AlignIs(Rounds(a, n));
  }

  /** A cleaning loop stops after some number of rounds exactly when it ends. */
  lemma CleanEndsExact(address: Word, size: Word)
    ensures CleanEnds(address, size) <==> exists n: nat :: Align(Rounds(address, n)) >= Low32(address + size)
  {
    hide Align, Low32;
    var end := Low32(address + size);
    if end <= LAST_LINE {
      var n := RoundsToLine(address, end);
    } else if Align(address) >= end {
      assert Align(Rounds(address, 0)) >= end;
    } else {
      forall n: nat ensures Align(Rounds(address, n)) < end { EndlessCleaning(address, end, n); }
    }
  }

  lemma RoundsToLine(a: Word, end: Word) returns (n: nat)
    requires end <= LAST_LINE
    ensures Align(Rounds(a, n)) >= end
    decreases if Align(a) < end then end - Align(a) else 0
  {
    hide Align, NextLine, LinesFrom;
    n := 0;
    if Align(a) < end {
      RoundMoves(a, end);
      var m := RoundsToLine(NextLine(a), end);
      n := m + 1;
    }
  }

  /** What a cleaning loop leaves done, where it ends. */
  function CleanedLines(address: Word, size: Word): seq<nat> { LinesFrom(Align(address), Low32(address + size)) }

  /** L2CACHE_CleanByRange and L2CACHE_CleanInvalidateByRange: a range larger than the cache is
      answered by the whole cache. */
  datatype Maintenance = WholeCache | Lines(lines: seq<nat>)

  method L2CleanByRange(address: Word, size: Word, capacity: Word) returns (done: Maintenance)
    requires size > capacity || CleanEnds(address, size)
    ensures done == if size > capacity then WholeCache else Lines(CleanedLines(address, size))
  {
    hide LinesFrom;
    var endAddr := Low32(address + size);
    SizeFromEnd(address, size);
    if Low32(endAddr - address) > capacity {
      return WholeCache;
    }
    var lines := CleanLines(address, endAddr);
    return Lines(lines);
  }

  /** Their loop. */
  method CleanLines(address: Word, endAddr: Word) returns (lines: seq<nat>)
    requires Align(address) >= endAddr || endAddr <= LAST_LINE
    ensures lines == LinesFrom(Align(address), endAddr)
  {
    hide Align, NextLine, LinesFrom;
    var at: Word := address;
    lines := [];
    while Align(at) < endAddr
      invariant Align(at) < endAddr ==> endAddr <= LAST_LINE
      invariant lines + LinesFrom(Align(at), endAddr) == LinesFrom(Align(address), endAddr)
      decreases if Align(at) < endAddr then endAddr - Align(at) else 0
    {
      RoundMoves(at, endAddr);
      lines := lines + [Align(at)];
      at := NextLine(at);
    }
    NoLines(Align(at), endAddr);
  }

  lemma SizeFromEnd(address: Word, size: Word)
    ensures Low32(Low32(address + size) - address) == size
  {
    if address + size < TWO32 {
      Low32Id(address + size);
      Low32Id(size);
    } else {
      Low32Wraps(address + size);
      ModUnique(size - TWO32, TWO32, -1, size);
    }
  }

  // ---------------------------------------------------------------- when a range is served

  /** The level-2 invalidation ends having touched exactly the lines of the range if and only if the
      range is empty or ends at or below the last line of the address space. */
  lemma L2InvalidateExact(address: Word, size: Word)
    requires address + size <= TWO32
    ensures Ends(address, size) && Exactly(L2Lines(address, size), address, size)
            <==> size == 0 || address + size <= LAST_LINE
  {
    AlignedLinesExact(address, size);
    if address + size < TWO32 {
      Low32Id(address + size);
    } else {
      Low32Wraps(address + size);
      AlignIs(address);
      assert Meets(Align(address), address, size) || size == 0;
    }
  }

  /** A cleaning loop ends having touched exactly the lines of the range if and only if the range ends
      at or below the last line and is not an empty one inside a line. */
  lemma L2CleanExact(address: Word, size: Word)
    requires address + size <= TWO32
    ensures CleanEnds(address, size) && Exactly(CleanedLines(address, size), address, size)
            <==> address + size <= LAST_LINE && (size > 0 || address % LINE == 0)
  {
    hide Exactly;
    AlignIs(address);
    if address + size < TWO32 {
      Low32Id(address + size);
      AlignedLinesExact(address, size);
    } else {
      Low32Wraps(address + size);
      NothingIsNotExact(address, size);
    }
  }

  /** Doing nothing is wrong for a range that is not empty. */
  lemma NothingIsNotExact(address: Word, size: Word)
    requires size > 0
    ensures !Exactly([], address, size)
  {
    AlignIs(address);
    assert Meets(Align(address), address, size);
  }

  /** The level-1 invalidation touches exactly the lines of the range if and only if the signed byte
      count is not exceeded, and the range is not an empty one inside a line. */
  lemma L1InvalidateExact(address: Word, size: Word)
    requires address + size <= TWO32
    ensures var lines := if size + address % LINE < 0x8000_0000 then LinesFrom(Align(address), address + size) else [];
            Exactly(lines, address, size)
            <==> size + address % LINE < 0x8000_0000 && (size > 0 || address % LINE == 0)
  {
    AlignedLinesExact(address, size);
    AlignIs(address);
    if size + address % LINE >= 0x8000_0000 {
      assert Meets(Align(address), address, size);
    }
  }
}
