/**
 * Segment extraction for one directory entry: skip the placeholder,
 * translate the entry's flash address into an image offset, emit the raw
 * segment, then probe for a zlib stream 0x100 bytes into the segment and
 * emit its inflated form.
 */
module SegmentExtractor {
  import opened Wrappers
  import opened LittleEndian
  import opened PspDirectory
  import opened EntryTypes

  /** The flash address at which byte 0 of the image is mapped. */
  const SpiFlashOffset: nat := 0xff00_0000
  /** The `Size` of an entry that is not present. */
  const AbsentSize: nat := 0xffff_ffff
  /** Where, relative to the segment start, a compressed stream is looked for. */
  const ZlibProbeOffset: nat := 0x100
  /** CMF byte of a zlib stream using deflate with a 32K window (section 2.2 of RFC 1950). */
  const ZlibCmf: byte := 0x78

  /**
   * The decompressor: the inflated bytes of a zlib stream at the start of
   * its argument, or `None` where decompression raises.
   */
  type Inflate = seq<byte> -> Option<seq<byte>>

  /**
   * An output buffer, standing for one written file: the raw segment or
   * the inflated stream of an entry of type `entryType`.
   */
  datatype Output = Output(entryType: u32, decompressed: bool, contents: seq<byte>)

  /** What processing one entry came to. */
  datatype Outcome =
    | Placeholder                  // Size is the absent marker: nothing is produced
    | OutOfRange(fileOffset: int)  // the segment does not lie inside the image
    | Raw                          // raw segment only: no zlib stream detected
    | RawAndDecompressed           // raw segment and its inflated stream
    | DecompressionFailed          // raw segment written, then the inflate step raised

  datatype Extraction = Extraction(outputs: seq<Output>, outcome: Outcome)

  /** The image offset of a flash address. */
  function FileOffset(location: u64): (off: int)
    ensures off < 0 <==> location < SpiFlashOffset
    ensures off + SpiFlashOffset == location
  {
    location - SpiFlashOffset
  }

  /** The segment `[off, off + size)` lies inside the image. */
  predicate InImage(data: seq<byte>, off: int, size: nat) {
    0 <= off && off + size <= |data|
  }

  /** The byte 0x100 past the segment start is inside the image and is the zlib CMF byte. */
  predicate ZlibDetected(data: seq<byte>, off: nat) {
    off + ZlibProbeOffset < |data| && data[off + ZlibProbeOffset] == ZlibCmf
  }

  /** The name of the file an output is written to. */
  function FileName(o: Output): string {
    TypeName(o.entryType) + if o.decompressed then "_decompressed.bin" else ".bin"
  }

  /** Two outputs of the same kind go to different files exactly when their entry types differ. */
  lemma FileNamesDistinct(o: Output, o': Output)
    requires o.decompressed == o'.decompressed
    ensures FileName(o) == FileName(o') <==> o.entryType == o'.entryType
  {
    var suffix := if o.decompressed then "_decompressed.bin" else ".bin";
    if FileName(o) == FileName(o') {
      var n, n' := TypeName(o.entryType), TypeName(o'.entryType);
      assert n == (n + suffix)[..|n|];
      assert |n| == |n'|;
      assert n' == (n' + suffix)[..|n'|];
      TypeNameInjective(o.entryType, o'.entryType);
    }
  }

  /** The specification of `DumpOneSegment`: the outputs of one entry, in emission order. */
  function ExtractSegment(data: seq<byte>, e: Entry, inflate: Inflate): Extraction {
    if e.size == AbsentSize then
      Extraction([], Placeholder)
    else
      var off := FileOffset(e.location);
      if !InImage(data, off, e.size) then
        Extraction([], OutOfRange(off))
      else
        var raw := Output(e.entryType, false, data[off..off + e.size]);
        if !ZlibDetected(data, off) then
          Extraction([raw], Raw)
        else
          match inflate(data[off + ZlibProbeOffset..])
          case None => Extraction([raw], DecompressionFailed)
          case Some(p) => Extraction([raw, Output(e.entryType, true, p)], RawAndDecompressed)
  }

  /**
   * One entry, step by step: the placeholder check, the address
   * translation, the raw output, then the zlib probe and the inflated
   * output.
   */
  method DumpOneSegment(data: seq<byte>, e: Entry, inflate: Inflate) returns (written: seq<Output>, outcome: Outcome)
    ensures Extraction(written, outcome) == ExtractSegment(data, e, inflate)
  {
    written := [];
    if e.size == AbsentSize {
      return written, Placeholder;
    }
    var fileOff := FileOffset(e.location);
    if fileOff < 0 || fileOff + e.size > |data| {
      return written, OutOfRange(fileOff);
    }
    written := written + [Output(e.entryType, false, data[fileOff..fileOff + e.size])];
    if fileOff + ZlibProbeOffset < |data| && data[fileOff + ZlibProbeOffset] == ZlibCmf {
      var zlibOff := fileOff + ZlibProbeOffset;
      var outdat := inflate(data[zlibOff..]);
      if outdat.None? {
        return written, DecompressionFailed;
      }
      written := written + [Output(e.entryType, true, outdat.value)];
      outcome := RawAndDecompressed;
    } else {
      outcome := Raw;
    }
  }

  /** An entry whose Size is the absent marker produces no output and no error. */
  lemma PlaceholderProducesNothing(data: seq<byte>, e: Entry, inflate: Inflate)
    requires e.size == AbsentSize
    ensures ExtractSegment(data, e, inflate) == Extraction([], Placeholder)
  {
  }

  /**
   * Outputs exist exactly for a present entry whose segment lies in the
   * image, and there are at most two of them.
   */
  lemma OutputsExactlyForPresentSegments(data: seq<byte>, e: Entry, inflate: Inflate)
    ensures var x := ExtractSegment(data, e, inflate);
      && |x.outputs| <= 2
      && (x.outputs != [] <==> e.size != AbsentSize && InImage(data, e.location - SpiFlashOffset, e.size))
      && (x.outputs == [] <==> x.outcome.Placeholder? || x.outcome.OutOfRange?)
  {
  }

  /**
   * The first output is always the raw segment: `Size` bytes of the image
   * starting at `Location - 0xff000000`, written to the type's ".bin" file.
   */
  lemma RawSegmentIsExact(data: seq<byte>, e: Entry, inflate: Inflate)
    ensures var x := ExtractSegment(data, e, inflate);
      x.outputs != [] ==>
        && !x.outputs[0].decompressed
        && FileName(x.outputs[0]) == TypeName(e.entryType) + ".bin"
        && |x.outputs[0].contents| == e.size
        && forall i :: 0 <= i < e.size ==> x.outputs[0].contents[i] == data[e.location - SpiFlashOffset + i]
  {
    var x := ExtractSegment(data, e, inflate);
    if x.outputs != [] {
      var off := FileOffset(e.location);
      var raw := Output(e.entryType, false, data[off..off + e.size]);
      assert x.outputs[0] == raw;
      assert FileName(raw) == TypeName(e.entryType) + ".bin";
    }
  }

  /**
   * Decompression is attempted exactly when the segment is extracted and
   * the byte 0x100 past its start is inside the image and equals 0x78;
   * the decompressor is fed the image from that byte to its end, and its
   * result, when there is one, is the second output.
   */
  lemma DecompressionAttempt(data: seq<byte>, e: Entry, inflate: Inflate)
    ensures var x := ExtractSegment(data, e, inflate);
      (x.outcome.RawAndDecompressed? || x.outcome.DecompressionFailed?) <==>
        && e.size != AbsentSize
        && InImage(data, e.location - SpiFlashOffset, e.size)
        && e.location - SpiFlashOffset + ZlibProbeOffset < |data|
        && data[e.location - SpiFlashOffset + ZlibProbeOffset] == 0x78
    ensures var x := ExtractSegment(data, e, inflate);
      x.outcome.RawAndDecompressed? ==>
        var start := e.location - SpiFlashOffset + ZlibProbeOffset;
        && 0 <= start < |data|
        && |x.outputs| == 2
        && inflate(data[start..]) == Some(x.outputs[1].contents)
        && FileName(x.outputs[1]) == TypeName(e.entryType) + "_decompressed.bin"
    ensures var x := ExtractSegment(data, e, inflate);
      x.outcome.DecompressionFailed? ==>
        var start := e.location - SpiFlashOffset + ZlibProbeOffset;
        && 0 <= start < |data|
        && inflate(data[start..]).None?
        && |x.outputs| == 1
  {
  }

  // The code as written slices with Python's rules; the definitions below
  // keep that reading so that its behaviour outside the image can be shown.

  /** Python's reading of a slice bound on a sequence of length n: negative counts from the end, then clamped. */
  function PyBound(i: int, n: nat): (b: nat)
    ensures b <= n
    ensures 0 <= i <= n ==> b == i
  {
    if i < 0 then (if i + n < 0 then 0 else i + n) else if i > n then n else i
  }

  /** Python's `s[lo:hi]`. */
  function PySlice(s: seq<byte>, lo: int, hi: int): (r: seq<byte>)
    ensures |r| <= |s|
  {
    var a, b := PyBound(lo, |s|), PyBound(hi, |s|);
    if a < b then s[a..b] else []
  }

  /** The raw bytes the code writes for a present entry, whatever its location. */
  function RawAsWritten(data: seq<byte>, e: Entry): seq<byte> {
    var fileOff := FileOffset(e.location);
    PySlice(data, fileOff, fileOff + e.size)
  }

  /**
   * The zlib probe as the code writes it: the length guard first, then an
   * index that Python reads from the end when negative. `None` where the
   * index lies before the start even so, and the lookup raises.
   */
  function ProbeAsWritten(data: seq<byte>, e: Entry): (fires: Option<bool>)
    ensures fires.None? <==> FileOffset(e.location) + ZlibProbeOffset < -|data|
  {
    var i := FileOffset(e.location) + ZlibProbeOffset;
    if i >= |data| then Some(false)
    else if i >= 0 then Some(data[i] == ZlibCmf)
    else if i + |data| >= 0 then Some(data[i + |data|] == ZlibCmf)
    else None
  }

  /** For a segment inside the image, the code's probe is the model's. */
  lemma ProbeAsWrittenAgreesInImage(data: seq<byte>, e: Entry)
    requires InImage(data, FileOffset(e.location), e.size)
    ensures ProbeAsWritten(data, e) == Some(ZlibDetected(data, FileOffset(e.location)))
  {
  }

  /** Inside the image, the code as written and the model agree. */
  lemma RawAsWrittenAgreesInImage(data: seq<byte>, e: Entry, inflate: Inflate)
    requires e.size != AbsentSize && InImage(data, FileOffset(e.location), e.size)
    ensures ExtractSegment(data, e, inflate).outputs[0].contents == RawAsWritten(data, e)
  {
  }

  /**
   * A location just below the flash base gives a negative offset, which the
   * code reads from the end of the image. A segment that still ends below
   * the base is written at full size from the wrong place; one that reaches
   * past the base gives an empty slice, or the image's tail.
   */
  lemma NegativeOffsetIsMisread(inflate: Inflate)
    ensures var data: seq<byte> := [0, 1, 2, 3, 4, 5, 6, 7];
      var e := Entry(0x06, 2, 0xfeff_fffa);
      && RawAsWritten(data, e) == [2, 3]
      && ExtractSegment(data, e, inflate) == Extraction([], OutOfRange(-6))
    ensures var data: seq<byte> := [0, 1, 2, 3, 4, 5, 6, 7];
      var e := Entry(0x06, 4, 0xfeff_fffe);
      && RawAsWritten(data, e) == []
      && ExtractSegment(data, e, inflate) == Extraction([], OutOfRange(-2))
    ensures var data: seq<byte> := [0, 1, 2, 3, 4, 5, 6, 7];
      var e := Entry(0x06, 12, 0xfeff_fffe);
      && RawAsWritten(data, e) == [6, 7]
      && ExtractSegment(data, e, inflate) == Extraction([], OutOfRange(-2))
  {
  }

  /**
   * A segment that runs past the end of the image is written cut short:
   * fewer than `Size` bytes.
   */
  lemma OverlongSegmentIsCutShort(inflate: Inflate)
    ensures var data: seq<byte> := [0, 1, 2, 3, 4, 5, 6, 7];
      var e := Entry(0x06, 4, 0xff00_0006);
      && RawAsWritten(data, e) == [6, 7]
      && |RawAsWritten(data, e)| < e.size
      && ExtractSegment(data, e, inflate) == Extraction([], OutOfRange(6))
  {
  }

  /**
   * A location far below the flash base: the code writes an empty raw
   * segment, then its probe index lies before the start of the image and
   * the lookup raises, ending the run. The model skips the entry.
   */
  lemma LowLocationCrashesProbe(inflate: Inflate)
    ensures var data: seq<byte> := [0, 1, 2, 3, 4, 5, 6, 7];
      var e := Entry(0x06, 4, 0);
      && RawAsWritten(data, e) == []
      && ProbeAsWritten(data, e).None?
      && ExtractSegment(data, e, inflate) == Extraction([], OutOfRange(-0xff00_0000))
  {
  }
}
