/**
 * Directory location: the PSP directory starts at the first occurrence
 * of the four signature bytes "$PSP" in the flash image.
 */
module DirectoryLocator {
  import opened Wrappers
  import opened LittleEndian

  /** The ASCII bytes of "$PSP". */
  const PspSignature: seq<byte> := [0x24, 0x50, 0x53, 0x50]

  predicate SignatureAt(data: seq<byte>, i: nat) {
    i + |PspSignature| <= |data| && data[i..i + |PspSignature|] == PspSignature
  }

  /** The first index at or after `from` where the signature starts, if any. */
  function FindFrom(data: seq<byte>, from: nat): (r: Option<nat>)
    decreases |data| - from
    ensures r.Some? ==> from <= r.value && SignatureAt(data, r.value)
    ensures r.Some? ==> forall j :: from <= j < r.value ==> !SignatureAt(data, j)
    ensures r.None? ==> forall j :: from <= j ==> !SignatureAt(data, j)
  {
    if from + |PspSignature| > |data| then None
    else if SignatureAt(data, from) then Some(from)
    else FindFrom(data, from + 1)
  }

  /**
   * `indata.find(b"$PSP")`, with the "not found" answer (-1 in the
   * source) as `None`.
   */
  function FindSignature(data: seq<byte>): (r: Option<nat>)
    ensures r.Some? <==> exists i :: SignatureAt(data, i)
    ensures r.Some? ==> SignatureAt(data, r.value)
    ensures r.Some? ==> forall j :: 0 <= j < r.value ==> !SignatureAt(data, j)
  {
    FindFrom(data, 0)
  }

  /** Any index where the signature occurs bounds the located offset from above. */
  lemma FirstOccurrence(data: seq<byte>, i: nat)
    requires SignatureAt(data, i)
    ensures FindSignature(data).Some? && FindSignature(data).value <= i
  {
  }
}
