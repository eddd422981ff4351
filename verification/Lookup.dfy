/** core/filex/lookup.go: cutting a file into ranges of whole lines.  A file is its bytes, which do not change. */
module LineChunks {
  import opened Integers
  import opened Options

  newtype byte = b: int | 0 <= b < 256

  const BUF_SIZE := 1024

  datatype OffsetRange = OffsetRange(file: string, start: int, stop: int)

  datatype Result = Ranges(ranges: seq<OffsetRange>) | NoFile | EndOfFile

  predicate IsBreak(b: byte)
  {
    b == 13 || b == 10
  }

  /** The size that ranges should pass, so that the last is not too short. */
  function PreferSize(size: nat, chunks: int): (r: nat)
    requires chunks > 0
    ensures r > 0
  {
    size / chunks + 1
  }

  /** The first break from `from` on; the length if there is none. */
  function FirstBreak(data: seq<byte>, from: nat): (i: nat)
    requires from <= |data|
    ensures from <= i <= |data| && (forall j | from <= j < i :: !IsBreak(data[j])) && (i < |data| ==> IsBreak(data[i]))
    decreases |data| - from
  {
    if from == |data| || IsBreak(data[from]) then from else FirstBreak(data, from + 1)
  }

  /** The end of the breaks from `from` on, but not beyond limit. */
  function RunEnd(data: seq<byte>, from: nat, limit: nat): (i: nat)
    requires from <= limit <= |data|
    ensures from <= i <= limit && (forall j | from <= j < i :: IsBreak(data[j])) && (i < limit ==> !IsBreak(data[i]))
    decreases limit - from
  {
    if from == limit || !IsBreak(data[from]) then from else RunEnd(data, from + 1, limit)
  }

  /** Where the buffer ends that holds position i, when buffers are filled from start on. */
  function BufferEnd(start: nat, i: nat, size: nat): (e: nat)
    requires start <= i < size
    ensures i < e <= size && e <= i + BUF_SIZE
  {
    Min(size, start + ((i - start) / BUF_SIZE + 1) * BUF_SIZE)
  }

  /** Past the first breaks from offset on, within one buffer; None if there are none. */
  function Skip(data: seq<byte>, offset: nat): (r: Option<nat>)
    ensures r.Some? ==> offset < r.value <= |data| && IsBreak(data[r.value - 1])
    ensures r.None? <==> forall i | offset <= i < |data| :: !IsBreak(data[i])
  {
    if offset > |data| then None
    else
      var f := FirstBreak(data, offset);
      if f == |data| then None else Some(RunEnd(data, f, BufferEnd(offset, f, |data|)))
  }

  /** The cuts from offset on, of ranges longer than prefer; None if the end is met inside a line. */
  function Cuts(data: seq<byte>, offset: nat, prefer: nat): (r: Option<seq<nat>>)
    requires offset <= |data|
    decreases |data| - offset
  {
    if offset + prefer >= |data| then Some([|data|])
    else match Skip(data, offset + prefer)
      case None => None
      case Some(stop) =>
        if stop == |data| then Some([stop])
        else match Cuts(data, stop, prefer)
          case None => None
          case Some(rest) => Some([stop] + rest)
  }

  /** The ranges between cuts, from offset on. */
  function Between(file: string, offset: nat, cuts: seq<nat>): (r: seq<OffsetRange>)
    ensures |r| == |cuts|
    decreases |cuts|
  {
    if cuts == [] then [] else [OffsetRange(file, offset, cuts[0])] + Between(file, cuts[0], cuts[1..])
  }

  /** Ranges that follow one another from `from` to `to`. */
  predicate Contiguous(ranges: seq<OffsetRange>, file: string, from: int, to: int)
  {
    && ranges != [] && ranges[0].start == from && ranges[|ranges| - 1].stop == to
    && (forall i | 0 <= i < |ranges| :: ranges[i].file == file && ranges[i].start <= ranges[i].stop)
    && (forall i | 0 < i < |ranges| :: ranges[i].start == ranges[i - 1].stop)
  }

  /** Every range but the first begins just after a break, and every one but the last is longer than prefer. */
  predicate WholeLines(data: seq<byte>, ranges: seq<OffsetRange>, prefer: int)
  {
    && (forall i | 0 < i < |ranges| :: 0 < ranges[i].start < |data| && IsBreak(data[ranges[i].start - 1]))
    && (forall i | 0 <= i < |ranges| - 1 :: ranges[i].stop - ranges[i].start > prefer)
  }

  /** `stop` lies behind the rest of the line at `from` and behind breaks only. */
  ghost predicate LineEnds(data: seq<byte>, from: int, stop: int)
  {
    exists f :: 0 <= from <= f < stop <= |data| && LineAndBreaks(data, from, f, stop)
  }

  ghost predicate LineAndBreaks(data: seq<byte>, from: int, f: int, stop: int)
    requires 0 <= from <= f < stop <= |data|
  {
    (forall j | from <= j < f :: !IsBreak(data[j])) && forall j | f <= j < stop :: IsBreak(data[j])
  }

  /** Every range ends with the line that it reaches at the size prefer, or with the file. */
  ghost predicate NoLonger(data: seq<byte>, ranges: seq<OffsetRange>, prefer: int)
  {
    forall i | 0 <= i < |ranges| ::
      if ranges[i].start + prefer >= |data| then ranges[i].stop == |data|
      else LineEnds(data, ranges[i].start + prefer, ranges[i].stop)
  }

  /** Where a scan ends: behind the first breaks, all of them unless the buffer ends among them; the buffers are of
      1024 bytes each, from the offset on. */
  lemma SkipMeans(data: seq<byte>, offset: nat)
    requires Skip(data, offset).Some?
    ensures var stop := Skip(data, offset).value;
            && LineEnds(data, offset, stop)
            && (stop == |data| || !IsBreak(data[stop]) || (stop - offset) % 1024 == 0)
  {
    var f := FirstBreak(data, offset);
    var stop := Skip(data, offset).value;
    assert LineAndBreaks(data, offset, f, stop);
    var k := (f - offset) / BUF_SIZE + 1;
    if stop < |data| && IsBreak(data[stop]) {
      assert stop == offset + k * BUF_SIZE;
      DivUnique(stop - offset, BUF_SIZE, k, 0);
    }
  }

  // ------------------------------------------------------------ what cuts mean

  lemma {:induction false} CutsMean(data: seq<byte>, offset: nat, prefer: nat, file: string)
    requires offset <= |data| && Cuts(data, offset, prefer).Some?
    ensures var ranges := Between(file, offset, Cuts(data, offset, prefer).value);
            && Contiguous(ranges, file, offset, |data|) && WholeLines(data, ranges, prefer)
            && NoLonger(data, ranges, prefer)
    decreases |data| - offset
  {
    hide *;
    CutsStep(data, offset, prefer, file);
    if offset + prefer >= |data| {
      LastRange(data, offset, prefer, file);
    } else {
      SkipMeans(data, offset + prefer);
      var stop := Skip(data, offset + prefer).value;
      if stop == |data| {
        LastRange(data, offset, prefer, file);
      } else {
        CutsMean(data, stop, prefer, file);
        var rest := Between(file, stop, Cuts(data, stop, prefer).value);
        ConsRange(data, OffsetRange(file, offset, stop), rest, file, prefer);
      }
    }
  }

  lemma LastRange(data: seq<byte>, offset: nat, prefer: nat, file: string)
    requires offset <= |data| && (offset + prefer >= |data| || LineEnds(data, offset + prefer, |data|))
    ensures var ranges := [OffsetRange(file, offset, |data|)];
            && Contiguous(ranges, file, offset, |data|) && WholeLines(data, ranges, prefer)
            && NoLonger(data, ranges, prefer)
  {
  }

  lemma ConsRange(data: seq<byte>, r: OffsetRange, rest: seq<OffsetRange>, file: string, prefer: int)
    requires Contiguous(rest, file, r.stop, |data|) && WholeLines(data, rest, prefer) && NoLonger(data, rest, prefer)
    requires r.start + prefer < |data| && LineEnds(data, r.start + prefer, r.stop)
    requires r.file == file && r.start <= r.stop && r.stop - r.start > prefer && 0 < r.stop < |data|
             && IsBreak(data[r.stop - 1])
    ensures Contiguous([r] + rest, file, r.start, |data|) && WholeLines(data, [r] + rest, prefer)
    ensures NoLonger(data, [r] + rest, prefer)
  {
    hide LineEnds;
    ConsBounds(data, r, rest, prefer);
  }

  lemma ConsBounds(data: seq<byte>, r: OffsetRange, rest: seq<OffsetRange>, prefer: int)
    requires NoLonger(data, rest, prefer)
    requires r.start + prefer < |data| && LineEnds(data, r.start + prefer, r.stop)
    ensures NoLonger(data, [r] + rest, prefer)
  {
    hide LineEnds;
    forall i | 0 <= i < |[r] + rest|
      ensures if ([r] + rest)[i].start + prefer >= |data| then ([r] + rest)[i].stop == |data|
              else LineEnds(data, ([r] + rest)[i].start + prefer, ([r] + rest)[i].stop)
    {
      assert ([r] + rest)[i] == if i == 0 then r else rest[i - 1];
    }
  }

  /** The ranges take up their lengths. */
  lemma {:induction false} LengthsAddUp(ranges: seq<OffsetRange>, data: seq<byte>, file: string, from: int,
      prefer: nat, n: nat)
    requires Contiguous(ranges, file, from, |data|) && WholeLines(data, ranges, prefer) && n < |ranges|
    ensures ranges[n].start >= from + n * (prefer + 1)
  {
    if n > 0 {
      LengthsAddUp(ranges, data, file, from, prefer, n - 1);
      assert n * (prefer + 1) == (n - 1) * (prefer + 1) + (prefer + 1);
    }
  }

  /** With the preferred size that is worked out from the number of chunks, there are no more ranges than chunks. */
  lemma AtMostChunks(ranges: seq<OffsetRange>, data: seq<byte>, file: string, chunks: int)
    requires chunks >= 2
    requires Contiguous(ranges, file, 0, |data|) && WholeLines(data, ranges, PreferSize(|data|, chunks))
    ensures |ranges| <= chunks
  {
    if |ranges| > chunks {
      var prefer := PreferSize(|data|, chunks);
      LengthsAddUp(ranges, data, file, 0, prefer, chunks);
      ChunksSuffice(|data|, chunks);
    }
  }

  /** At most as many ranges as chunks, of whole lines, and of size / chunks + 1 bytes and the rest of a line. */
  ghost predicate Chunked(data: seq<byte>, ranges: seq<OffsetRange>, chunks: int)
    requires chunks > 0
  {
    && |ranges| <= chunks
    && WholeLines(data, ranges, |data| / chunks + 1)
    && NoLonger(data, ranges, |data| / chunks + 1)
  }

  lemma AllChunked(ranges: seq<OffsetRange>, data: seq<byte>, file: string, chunks: int)
    requires chunks >= 2 && Contiguous(ranges, file, 0, |data|)
    requires WholeLines(data, ranges, PreferSize(|data|, chunks)) && NoLonger(data, ranges, PreferSize(|data|, chunks))
    ensures Chunked(data, ranges, chunks)
  {
    hide WholeLines, NoLonger, Contiguous;
    AtMostChunks(ranges, data, file, chunks);
  }

  lemma ChunksSuffice(size: nat, chunks: nat)
    requires chunks > 0
    ensures chunks * (PreferSize(size, chunks) + 1) > size
  {
  }

  /** A file that ends with a break can always be cut. */
  lemma {:induction false} EndsWithBreak(data: seq<byte>, offset: nat, prefer: nat)
    requires offset <= |data| && (|data| > 0 ==> IsBreak(data[|data| - 1]))
    ensures Cuts(data, offset, prefer).Some?
    decreases |data| - offset
  {
    if offset + prefer < |data| {
      var skipped := Skip(data, offset + prefer);
      if skipped.Some? && skipped.value < |data| {
        EndsWithBreak(data, skipped.value, prefer);
      }
    }
  }

  /** Where the unfinished last line begins: just after the last break. */
  function LastLine(data: seq<byte>): (l: nat)
    ensures l <= |data| && (l > 0 ==> IsBreak(data[l - 1])) && forall i | l <= i < |data| :: !IsBreak(data[i])
  {
    if data == [] || IsBreak(data[|data| - 1]) then |data| else LastLine(data[..|data| - 1])
  }

  /** Where the last range begins when finished lines are cut. */
  function LastStart(lines: seq<byte>, offset: nat, prefer: nat): (s: nat)
    requires offset <= |lines| && (|lines| > 0 ==> IsBreak(lines[|lines| - 1]))
  {
    EndsWithBreak(lines, offset, prefer);
    var cuts := Cuts(lines, offset, prefer).value;
    if |cuts| <= 1 then offset else cuts[|cuts| - 2]
  }

  /** The last range of the finished lines, or the unfinished line if that range is full, is longer than prefer with
      the unfinished line. */
  predicate EndsMidLine(data: seq<byte>, offset: nat, prefer: nat)
    requires offset <= LastLine(data)
  {
    var l := LastLine(data);
    var s := LastStart(data[..l], offset, prefer);
    |data| - (if l - s > prefer then l else s) > prefer
  }

  lemma BufferEnds(start: nat, i: nat, l: nat, size: nat)
    requires start <= i < l <= size
    ensures BufferEnd(start, i, l) == Min(l, BufferEnd(start, i, size))
  {
  }

  /** Before the unfinished line, it makes no difference to a scan that the line is there. */
  lemma SkipFinished(data: seq<byte>, pos: nat)
    requires pos < LastLine(data)
    ensures Skip(data, pos) == Skip(data[..LastLine(data)], pos) != None
  {
    hide FirstBreak, RunEnd, BufferEnd, LastLine, IsBreak;
    var l := LastLine(data);
    var lines := data[..l];
    var f := FirstBreak(lines, pos);
    assert IsBreak(lines[l - 1]);
    FirstBreakAt(data, pos, f);
    BufferEnds(pos, f, l, |data|);
    RunEndAt(data, f, BufferEnd(pos, f, |data|), RunEnd(lines, f, BufferEnd(pos, f, l)));
  }

  /** The last start is one for the rest, once a cut has been made. */
  lemma LastStartLater(lines: seq<byte>, offset: nat, prefer: nat)
    requires offset + prefer < |lines| && IsBreak(lines[|lines| - 1])
    ensures Skip(lines, offset + prefer).Some?
    ensures var stop := Skip(lines, offset + prefer).value;
            LastStart(lines, offset, prefer) == if stop == |lines| then offset else LastStart(lines, stop, prefer)
  {
    hide Skip;
    EndsWithBreak(lines, offset, prefer);
    var stop := Skip(lines, offset + prefer).value;
    EndsWithBreak(lines, stop, prefer);
  }

  /** Cutting fails iff the file ends inside a line that is too long for what is left of the finished lines. */
  lemma {:induction false} CutsFailIff(data: seq<byte>, offset: nat, prefer: nat)
    requires offset <= LastLine(data)
    ensures Cuts(data, offset, prefer).None? <==> EndsMidLine(data, offset, prefer)
    decreases |data| - offset
  {
    hide Skip, LastLine, LastStart, IsBreak;
    var l := LastLine(data);
    var lines := data[..l];
    if offset + prefer < l {
      assert IsBreak(lines[l - 1]);
      SkipFinished(data, offset + prefer);
      LastStartLater(lines, offset, prefer);
      var stop := Skip(data, offset + prefer).value;
      if stop < l {
        CutsFailIff(data, stop, prefer);
      }
    } else {
      OneCut(lines, offset, prefer);
    }
  }

  lemma OneCut(lines: seq<byte>, offset: nat, prefer: nat)
    requires offset <= |lines| <= offset + prefer && (|lines| > 0 ==> IsBreak(lines[|lines| - 1]))
    ensures LastStart(lines, offset, prefer) == offset
  {
  }

  lemma {:induction false} LastStartBefore(lines: seq<byte>, offset: nat, prefer: nat)
    requires offset <= |lines| && (|lines| > 0 ==> IsBreak(lines[|lines| - 1]))
    ensures LastStart(lines, offset, prefer) <= |lines|
    decreases |lines| - offset
  {
    EndsWithBreak(lines, offset, prefer);
    CutsMean(lines, offset, prefer, "");
    var cuts := Cuts(lines, offset, prefer).value;
    if offset + prefer < |lines| {
      var stop := Skip(lines, offset + prefer).value;
      if stop < |lines| {
        LastStartBefore(lines, stop, prefer);
      }
    }
  }

  /** An unfinished line longer than the preferred size always makes cutting fail; a finished one never does. */
  lemma LongLastLine(data: seq<byte>, prefer: nat)
    ensures |data| - LastLine(data) > prefer ==> Cuts(data, 0, prefer).None?
    ensures |data| == LastLine(data) ==> Cuts(data, 0, prefer).Some?
  {
    CutsFailIff(data, 0, prefer);
    LastStartBefore(data[..LastLine(data)], 0, prefer);
    if |data| == LastLine(data) {
      EndsWithBreak(data, 0, prefer);
    }
  }

  /** Three bytes without a break cannot be cut in two. */
  lemma CutsFailExample()
    ensures Cuts([65, 65, 65], 0, PreferSize(3, 2)).None?
  {
    assert Skip([65, 65, 65], 2).None?;
  }

  /** One step of cutting. */
  lemma CutsStep(data: seq<byte>, offset: nat, prefer: nat, name: string)
    requires offset <= |data|
    ensures var cuts, skipped := Cuts(data, offset, prefer), Skip(data, offset + prefer);
            if offset + prefer >= |data| || (skipped.Some? && skipped.value == |data|) then
              cuts.Some? && Between(name, offset, cuts.value) == [OffsetRange(name, offset, |data|)]
            else if skipped.None? then cuts.None?
            else
              var rest := Cuts(data, skipped.value, prefer);
              if rest.None? then cuts.None?
              else cuts.Some? &&
                   Between(name, offset, cuts.value) ==
                   [OffsetRange(name, offset, skipped.value)] + Between(name, skipped.value, rest.value)
  {
    hide Skip;
    var skipped := Skip(data, offset + prefer);
    if offset + prefer < |data| && skipped.Some? && skipped.value < |data| {
      var rest := Cuts(data, skipped.value, prefer);
      assert rest.Some? ==> ([skipped.value] + rest.value)[1..] == rest.value;
    }
  }

  // ------------------------------------------------------------ the loops

  /** Skips to the next line, reading a buffer at a time. */
  method SkipPartialLine(data: seq<byte>, start: nat) returns (r: Option<nat>)
    ensures r == Skip(data, start)
  {
    var offset := start;
    ghost var k := 0;
    while true
      invariant offset == start + k * BUF_SIZE || offset >= |data|
      invariant start <= offset && forall j | start <= j < offset && j < |data| :: !IsBreak(data[j])
      decreases |data| - offset
    {
      var n := if offset >= |data| then 0 else Min(BUF_SIZE, |data| - offset);
      if n == 0 {
        return None;
      }
      var skipBuf := data[offset..offset + n];
      ghost var base := offset;
      var i := 0;
      while i < n
        invariant 0 <= i <= n && offset == base + i
        invariant forall j | start <= j < offset :: !IsBreak(data[j])
      {
        assert skipBuf[i] == data[base + i];
        if !IsBreak(skipBuf[i]) {
          offset := offset + 1;
        } else {
          ghost var f := offset;
          FirstBreakAt(data, start, f);
          BufferOf(start, k, f, |data|);
          while i < n
            invariant 0 <= i <= n && offset == base + i && f <= offset
            invariant forall j | f <= j < offset :: IsBreak(data[j])
          {
            assert skipBuf[i] == data[base + i];
            if IsBreak(skipBuf[i]) {
              offset := offset + 1;
            } else {
              RunEndAt(data, f, base + n, offset);
              return Some(offset);
            }
            i := i + 1;
          }
          RunEndAt(data, f, base + n, offset);
          return Some(offset);
        }
        i := i + 1;
      }
      k := k + 1;
    }
  }

  lemma FirstBreakAt(data: seq<byte>, start: nat, f: nat)
    requires start <= f < |data| && IsBreak(data[f]) && forall j | start <= j < f :: !IsBreak(data[j])
    ensures FirstBreak(data, start) == f
  {
  }

  lemma RunEndAt(data: seq<byte>, f: nat, limit: nat, i: nat)
    requires f <= i <= limit <= |data| && (forall j | f <= j < i :: IsBreak(data[j]))
    requires i < limit ==> !IsBreak(data[i])
    ensures RunEnd(data, f, limit) == i
  {
  }

  lemma BufferOf(start: nat, k: nat, i: nat, size: nat)
    requires start + k * BUF_SIZE <= i < size && i < start + k * BUF_SIZE + BUF_SIZE
    ensures BufferEnd(start, i, size) == Min(size, start + k * BUF_SIZE + BUF_SIZE)
  {
  }

  /** The loop of SplitLineChunks. */
  method CutAll(name: string, data: seq<byte>, preferSize: nat) returns (r: Option<seq<OffsetRange>>)
    requires preferSize > 0
    ensures r.Some? <==> Cuts(data, 0, preferSize).Some?
    ensures r.Some? ==> r.value == Between(name, 0, Cuts(data, 0, preferSize).value)
  {
    hide *;
    var ranges: seq<OffsetRange> := [];
    var offset: nat := 0;
    ghost var all := Cuts(data, 0, preferSize);
    while true
      invariant offset <= |data|
      invariant all.Some? <==> Cuts(data, offset, preferSize).Some?
      invariant all.Some? ==>
                  ranges + Between(name, offset, Cuts(data, offset, preferSize).value) == Between(name, 0, all.value)
      decreases |data| - offset
    {
      CutsStep(data, offset, preferSize, name);
      if offset + preferSize >= |data| {
        ranges := ranges + [OffsetRange(name, offset, |data|)];
        break;
      }
      var stop := SkipPartialLine(data, offset + preferSize);
      if stop.None? {
        return None;
      }
      ranges := ranges + [OffsetRange(name, offset, stop.value)];
      if stop.value < |data| {
        offset := stop.value;
      } else {
        break;
      }
    }
    r := Some(ranges);
  }

  /** Cuts a file into ranges: one, if one chunk is asked for; else, unless the end is met inside a line, at most as
      many as chunks, that follow one another over the whole file and each begin just after a break. */
  method SplitLineChunks(name: string, file: Option<seq<byte>>, chunks: int) returns (r: Result)
    ensures file.None? <==> r == NoFile
    ensures r.Ranges? ==> Contiguous(r.ranges, name, 0, |file.value|)
    ensures r.Ranges? && chunks >= 2 ==> Chunked(file.value, r.ranges, chunks)
    ensures file.Some? && chunks <= 1 ==> r.Ranges? && |r.ranges| == 1
    ensures file.Some? && chunks >= 2 ==>
              (r.EndOfFile? <==> EndsMidLine(file.value, 0, PreferSize(|file.value|, chunks)))
    ensures file.Some? && (file.value == [] || IsBreak(file.value[|file.value| - 1])) ==> r.Ranges?
  {
    if file.None? {
      return NoFile;
    }
    var data := file.value;
    if chunks <= 1 {
      return Ranges([OffsetRange(name, 0, |data|)]);
    }
    hide *;
    var preferSize := PreferSize(|data|, chunks);
    CutsFailIff(data, 0, preferSize);
    if data == [] || IsBreak(data[|data| - 1]) {
      EndsWithBreak(data, 0, preferSize);
    }
    var ranges := CutAll(name, data, preferSize);
    if ranges.None? {
      return EndOfFile;
    }
    CutsMean(data, 0, preferSize, name);
    AllChunked(ranges.value, data, name, chunks);
    r := Ranges(ranges.value);
  }
}
