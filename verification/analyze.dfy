/**
 * The whole pass over one flash image: locate the directory, parse it,
 * and dump every entry in on-disk order, collecting the named output
 * buffers that stand for the files the tool writes.
 */
module PspExtract {
  import opened Wrappers
  import opened LittleEndian
  import opened DirectoryLocator
  import opened PspDirectory
  import opened EntryTypes
  import opened SegmentExtractor

  /** Why a run stopped early. */
  datatype Error =
    | DirectoryNotFound                       // no "$PSP" in the image
    | Truncated(cause: TruncatedDirectory)    // header or entry table runs past the image end
    | InflateFailed(entryIndex: nat)          // the decompressor raised on this entry

  datatype Status = Completed | Aborted(error: Error)

  /** The outputs written, the outcome of each entry processed, and how the run ended. */
  datatype Run = Run(outputs: seq<Output>, outcomes: seq<Outcome>, status: Status)

  /** The outputs of all of `entries`, in order: the reference the run is checked against. */
  function AllOutputs(data: seq<byte>, entries: seq<Entry>, inflate: Inflate): seq<Output>
    decreases |entries|
  {
    if entries == [] then []
    else ExtractSegment(data, entries[0], inflate).outputs + AllOutputs(data, entries[1..], inflate)
  }

  lemma {:induction false} AllOutputsSnoc(data: seq<byte>, entries: seq<Entry>, e: Entry, inflate: Inflate)
    ensures AllOutputs(data, entries + [e], inflate)
         == AllOutputs(data, entries, inflate) + ExtractSegment(data, e, inflate).outputs
    decreases |entries|
  {
    if entries == [] {
      assert [e][1..] == [];
    } else {
      assert (entries + [e])[1..] == entries[1..] + [e];
      AllOutputsSnoc(data, entries[1..], e, inflate);
    }
  }

  /**
   * The entry loop: entries are dumped in order until one of them makes
   * the decompressor raise, which ends the run after that entry's raw
   * output.
   */
  function ProcessEntries(data: seq<byte>, entries: seq<Entry>, inflate: Inflate): (r: Run)
    decreases |entries|
  {
    if entries == [] then
      Run([], [], Completed)
    else
      var n := |entries| - 1;
      var before := ProcessEntries(data, entries[..n], inflate);
      if before.status.Aborted? then
        before
      else
        var x := ExtractSegment(data, entries[n], inflate);
        Run(before.outputs + x.outputs, before.outcomes + [x.outcome],
            if x.outcome.DecompressionFailed? then Aborted(InflateFailed(n)) else Completed)
  }

  /** One more entry: the run on the first k + 1 entries extends the run on the first k. */
  lemma ProcessEntriesStep(data: seq<byte>, entries: seq<Entry>, k: nat, inflate: Inflate)
    requires k < |entries|
    ensures var before := ProcessEntries(data, entries[..k], inflate);
      var x := ExtractSegment(data, entries[k], inflate);
      before.status.Completed? ==>
        ProcessEntries(data, entries[..k + 1], inflate)
          == Run(before.outputs + x.outputs, before.outcomes + [x.outcome],
                 if x.outcome.DecompressionFailed? then Aborted(InflateFailed(k)) else Completed)
  {
    var done := entries[..k + 1];
    assert done[..|done| - 1] == entries[..k] && done[|done| - 1] == entries[k];
  }

  /** Once the run has aborted, the remaining entries are not processed. */
  lemma {:induction false} AbortIsFinal(data: seq<byte>, entries: seq<Entry>, j: nat, inflate: Inflate)
    requires j <= |entries| && ProcessEntries(data, entries[..j], inflate).status.Aborted?
    ensures ProcessEntries(data, entries, inflate) == ProcessEntries(data, entries[..j], inflate)
    decreases |entries|
  {
    if j < |entries| {
      var prefix := entries[..|entries| - 1];
      assert prefix[..j] == entries[..j];
      AbortIsFinal(data, prefix, j, inflate);
    } else {
      assert entries[..j] == entries;
    }
  }

  /**
   * The run processes a prefix of the entries in on-disk order, entry k
   * with the outcome `ExtractSegment` gives it.
   */
  lemma {:induction false} ProcessEntriesOutcomes(data: seq<byte>, entries: seq<Entry>, inflate: Inflate)
    decreases |entries|
    ensures var r := ProcessEntries(data, entries, inflate);
      && |r.outcomes| <= |entries|
      && forall k :: 0 <= k < |r.outcomes| ==> r.outcomes[k] == ExtractSegment(data, entries[k], inflate).outcome
  {
    if entries != [] {
      var prefix := entries[..|entries| - 1];
      ProcessEntriesOutcomes(data, prefix, inflate);
      ProcessEntriesStopsAtFailure(data, prefix, inflate);
      assert forall k :: 0 <= k < |prefix| ==> prefix[k] == entries[k];
    }
  }

  /**
   * The prefix stops short of the whole table only at the first entry
   * whose decompression failed, and the run then reports that entry.
   */
  lemma {:induction false} ProcessEntriesStopsAtFailure(data: seq<byte>, entries: seq<Entry>, inflate: Inflate)
    decreases |entries|
    ensures var r := ProcessEntries(data, entries, inflate);
      && (r.status.Completed? ==> |r.outcomes| == |entries|)
      && (r.status.Aborted? ==> 0 < |r.outcomes| && r.status.error == InflateFailed(|r.outcomes| - 1))
      && forall k :: 0 <= k < |r.outcomes| ==>
           (r.outcomes[k].DecompressionFailed? <==> r.status.Aborted? && k == |r.outcomes| - 1)
  {
    if entries != [] {
      ProcessEntriesStopsAtFailure(data, entries[..|entries| - 1], inflate);
    }
  }

  /** The outputs are those of the processed entries, in entry order. */
  lemma {:induction false} ProcessEntriesOutputs(data: seq<byte>, entries: seq<Entry>, inflate: Inflate)
    decreases |entries|
    ensures var r := ProcessEntries(data, entries, inflate);
      |r.outcomes| <= |entries| && r.outputs == AllOutputs(data, entries[..|r.outcomes|], inflate)
  {
    if entries != [] {
      var n := |entries| - 1;
      var prefix := entries[..n];
      ProcessEntriesOutputs(data, prefix, inflate);
      var before := ProcessEntries(data, prefix, inflate);
      var m := |before.outcomes|;
      assert prefix[..m] == entries[..m];
      if before.status.Completed? {
        ProcessEntriesStopsAtFailure(data, prefix, inflate);
        assert m == n && prefix[..m] == prefix;
        AllOutputsSnoc(data, prefix, entries[n], inflate);
        assert prefix + [entries[n]] == entries == entries[..n + 1];
      }
    }
  }

  /** `analyzePSP`: parse the directory at `pspOffset`, then process its entries. */
  function AnalyzeDirectory(data: seq<byte>, pspOffset: nat, inflate: Inflate): Run {
    match ParseDirectory(data, pspOffset)
    case Err(t) => Run([], [], Aborted(Truncated(t)))
    case Ok(d) => ProcessEntries(data, d.entries, inflate)
  }

  /** The tool on one image: locate the directory, then analyze it. */
  function RunImage(data: seq<byte>, inflate: Inflate): Run {
    match FindSignature(data)
    case None => Run([], [], Aborted(DirectoryNotFound))
    case Some(off) => AnalyzeDirectory(data, off, inflate)
  }

  /**
   * `analyzePSP` step by step: parse the header and the entry table,
   * then dump the entries one after the other, appending their outputs.
   */
  method AnalyzePsp(data: seq<byte>, pspOffset: nat, inflate: Inflate) returns (run: Run)
    ensures run == AnalyzeDirectory(data, pspOffset, inflate)
  {
    var parsed := ParseDirectory(data, pspOffset);
    if parsed.Err? {
      return Run([], [], Aborted(Truncated(parsed.error)));
    }
    var entries := parsed.value.entries;
    var outputs: seq<Output> := [];
    var outcomes: seq<Outcome> := [];
    var k := 0;
    while k < |entries|
      invariant 0 <= k <= |entries|
      invariant ProcessEntries(data, entries[..k], inflate) == Run(outputs, outcomes, Completed)
    {
      var written, outcome := DumpOneSegment(data, entries[k], inflate);
      ProcessEntriesStep(data, entries, k, inflate);
      outputs := outputs + written;
      outcomes := outcomes + [outcome];
      if outcome.DecompressionFailed? {
        AbortIsFinal(data, entries, k + 1, inflate);
        return Run(outputs, outcomes, Aborted(InflateFailed(k)));
      }
      k := k + 1;
    }
    assert entries[..k] == entries;
    run := Run(outputs, outcomes, Completed);
  }

  /** `main` on an image already read: find "$PSP", then `analyzePSP` there. */
  method ExtractFirmware(data: seq<byte>, inflate: Inflate) returns (run: Run)
    ensures run == RunImage(data, inflate)
  {
    var found := FindSignature(data);
    if found.None? {
      return Run([], [], Aborted(DirectoryNotFound));
    }
    run := AnalyzePsp(data, found.value, inflate);
  }

  /**
   * Structural failures end the run before any entry is processed: the
   * run reports a missing directory exactly when the image holds no
   * "$PSP", and a truncated directory exactly when the first "$PSP" is
   * followed by too few bytes for the header or the entry table.
   */
  lemma RunImageFailures(data: seq<byte>, inflate: Inflate)
    ensures var r := RunImage(data, inflate);
      r.status == Aborted(DirectoryNotFound) <==> forall i :: !SignatureAt(data, i)
    ensures var r := RunImage(data, inflate);
      (r.status.Aborted? && r.status.error.Truncated?) <==>
        exists off :: FindSignature(data) == Some(off) && ParseDirectory(data, off).Err?
    ensures var r := RunImage(data, inflate);
      r.status.Aborted? && !r.status.error.InflateFailed? ==> r.outputs == [] && r.outcomes == []
  {
    var r := RunImage(data, inflate);
    match FindSignature(data)
    case None =>
    case Some(off) =>
      if ParseDirectory(data, off).Ok? {
        ProcessEntriesStopsAtFailure(data, ParseDirectory(data, off).value.entries, inflate);
      }
  }

  /**
   * A completed run processes exactly `TotalEntries` entries of the first
   * directory, entry k being the 16 bytes at directory offset + 16 + 16k.
   */
  lemma RunImageProcessesEveryEntry(data: seq<byte>, inflate: Inflate, off: nat)
    requires FindSignature(data) == Some(off)
    ensures var r := RunImage(data, inflate);
      r.status.Completed? ==>
        && off + HeaderSize <= |data|
        && |r.outcomes| == HeaderAt(data, off).totalEntries
        && EntryOffset(off, |r.outcomes|) <= |data|
        && forall k :: 0 <= k < |r.outcomes| ==>
             r.outcomes[k] == ExtractSegment(data, EntryAt(data, EntryOffset(off, k)), inflate).outcome
  {
    var parsed := ParseDirectory(data, off);
    if parsed.Ok? {
      ProcessEntriesOutcomes(data, parsed.value.entries, inflate);
      ProcessEntriesStopsAtFailure(data, parsed.value.entries, inflate);
    }
  }

  // A small image: sixteen zero bytes, a directory with one BIOS RTM
  // firmware entry of size 4 at flash address 0xff000030, and the bytes
  // "DATA" at image offset 0x30.

  const ScenarioHeader := Header(0x5053_5024, 0, 1, 0)
  const ScenarioEntry := Entry(0x06, 4, 0xff00_0030)
  const ScenarioPayload: seq<byte> := [0x44, 0x41, 0x54, 0x41]

  ghost predicate IsScenarioImage(data: seq<byte>) {
    && |data| == 52
    && (forall j :: 0 <= j < 16 ==> data[j] == 0)
    && data[16..32] == EncodeHeader(ScenarioHeader)
    && data[32..48] == EncodeEntry(ScenarioEntry)
    && data[48..52] == ScenarioPayload
  }

  /** The header's cookie, stored little-endian, is "$PSP". */
  lemma ScenarioCookie()
    ensures EncodeHeader(ScenarioHeader)[..4] == PspSignature
  {
    assert EncodeHeader(ScenarioHeader)[..4] == Encode(0x5053_5024, 4);
  }

  /** The directory is found at 16. */
  lemma ScenarioLocated(data: seq<byte>)
    requires IsScenarioImage(data)
    ensures FindSignature(data) == Some(16)
  {
    ScenarioCookie();
    assert data[16..20] == data[16..32][..4];
    assert SignatureAt(data, 16);
    forall j | 0 <= j < 16 ensures !SignatureAt(data, j) {
      assert data[j..j + 4][0] == data[j] == 0;
    }
    FirstOccurrence(data, 16);
  }

  /** The directory at 16 parses to its one entry. */
  lemma ScenarioParsed(data: seq<byte>)
    requires IsScenarioImage(data)
    ensures ParseDirectory(data, 16) == Ok(Directory(ScenarioHeader, [ScenarioEntry]))
  {
    var d := Directory(ScenarioHeader, [ScenarioEntry]);
    assert StoredAt(data, 16, d);
    ParseDirectoryExact(data, 16, d);
  }

  /** The one entry of the small image is extracted raw: its probe byte lies past the image end. */
  lemma ScenarioExtracted(data: seq<byte>, inflate: Inflate)
    requires IsScenarioImage(data)
    ensures ExtractSegment(data, ScenarioEntry, inflate) == Extraction([Output(0x06, false, ScenarioPayload)], Raw)
  {
  }

  /** A run over a directory of one entry: that entry's outputs and outcome. */
  lemma SingleEntryRun(data: seq<byte>, off: nat, h: Header, e: Entry, inflate: Inflate)
    requires FindSignature(data) == Some(off)
    requires ParseDirectory(data, off) == Ok(Directory(h, [e]))
    requires !ExtractSegment(data, e, inflate).outcome.DecompressionFailed?
    ensures RunImage(data, inflate)
         == Run(ExtractSegment(data, e, inflate).outputs, [ExtractSegment(data, e, inflate).outcome], Completed)
  {
    var x := ExtractSegment(data, e, inflate);
    assert [e][..0] == [];
    assert ProcessEntries(data, [], inflate) == Run([], [], Completed);
    assert [] + x.outputs == x.outputs && [] + [x.outcome] == [x.outcome];
  }

  /** The run on the small image writes one output, holding "DATA", and completes. */
  lemma SingleEntryScenario(data: seq<byte>, inflate: Inflate)
    requires IsScenarioImage(data)
    ensures RunImage(data, inflate) == Run([Output(0x06, false, ScenarioPayload)], [Raw], Completed)
  {
    ScenarioLocated(data);
    ScenarioParsed(data);
    ScenarioExtracted(data, inflate);
    SingleEntryRun(data, 16, ScenarioHeader, ScenarioEntry, inflate);
  }

  /** That output is written to BIOS_RTM_FIRMWARE.bin. */
  lemma ScenarioFileName()
    ensures FileName(Output(0x06, false, ScenarioPayload)) == "BIOS_RTM_FIRMWARE.bin"
  {
  }
}
