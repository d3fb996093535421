/**
 * The PSP directory layout: a 16-byte header of four little-endian u32
 * fields, followed by `TotalEntries` contiguous 16-byte entries, each a
 * u32 type, a u32 size and a u64 location (coreboot's PspDirectory.h).
 */
module PspDirectory {
  import opened Wrappers
  import opened LittleEndian

  const HeaderSize: nat := 16
  const EntrySize: nat := 16

  datatype Header = Header(cookie: u32, checksum: u32, totalEntries: u32, reserved: u32)

  datatype Entry = Entry(entryType: u32, size: u32, location: u64)

  datatype Directory = Directory(header: Header, entries: seq<Entry>)

  /** The directory does not fit in the image: `missing` more bytes were needed. */
  datatype TruncatedDirectory = TruncatedDirectory(offset: nat, missing: nat)

  /** The on-disk bytes of a header: the reference layout the parser is checked against. */
  function EncodeHeader(h: Header): (b: seq<byte>)
    ensures |b| == HeaderSize
  {
    Encode(h.cookie, 4) + Encode(h.checksum, 4) + Encode(h.totalEntries, 4) + Encode(h.reserved, 4)
  }

  /** The on-disk bytes of an entry. */
  function EncodeEntry(e: Entry): (b: seq<byte>)
    ensures |b| == EntrySize
  {
    Encode(e.entryType, 4) + Encode(e.size, 4) + Encode(e.location, 8)
  }

  /** The header whose 16 bytes start at `off`. */
  function HeaderAt(data: seq<byte>, off: nat): (h: Header)
    requires off + HeaderSize <= |data|
    ensures data[off..off + HeaderSize] == EncodeHeader(h)
  {
    var c, s, t, r := U32At(data, off), U32At(data, off + 4), U32At(data, off + 8), U32At(data, off + 12);
    assert data[off..off + 8] == data[off..off + 4] + data[off + 4..off + 8];
    assert data[off + 8..off + 16] == data[off + 8..off + 12] + data[off + 12..off + 16];
    assert data[off..off + HeaderSize] == data[off..off + 8] + data[off + 8..off + 16];
    Header(c, s, t, r)
  }

  /** The entry whose 16 bytes start at `off`. */
  function EntryAt(data: seq<byte>, off: nat): (e: Entry)
    requires off + EntrySize <= |data|
    ensures data[off..off + EntrySize] == EncodeEntry(e)
  {
    var t, n, l := U32At(data, off), U32At(data, off + 4), U64At(data, off + 8);
    assert data[off..off + EntrySize] == data[off..off + 4] + data[off + 4..off + 8] + data[off + 8..off + 16];
    Entry(t, n, l)
  }

  /** The first byte of entry `k` of a directory starting at `off`. */
  function EntryOffset(off: nat, k: nat): nat {
    off + HeaderSize + EntrySize * k
  }

  /**
   * Parse the directory at `off`: the header, then exactly
   * `totalEntries` entries in on-disk order. Fails when the image ends
   * before the header or before the last entry.
   */
  function ParseDirectory(data: seq<byte>, off: nat): (r: Result<Directory, TruncatedDirectory>)
    ensures r.Ok? ==> |r.value.entries| == r.value.header.totalEntries
    ensures r.Ok? <==> off + HeaderSize <= |data| && EntryOffset(off, HeaderAt(data, off).totalEntries) <= |data|
    ensures r.Err? ==> r.error.offset == off && r.error.missing > 0
  {
    if off + HeaderSize > |data| then
      Err(TruncatedDirectory(off, off + HeaderSize - |data|))
    else
      var h := HeaderAt(data, off);
      var end := EntryOffset(off, h.totalEntries);
      if end > |data| then
        Err(TruncatedDirectory(off, end - |data|))
      else
        Ok(Directory(h, seq(h.totalEntries, k requires 0 <= k < h.totalEntries => EntryAt(data, EntryOffset(off, k)))))
  }

  /** Two encodings of a header agree only if the headers do. */
  lemma EncodeHeaderInjective(h: Header, h': Header)
    requires EncodeHeader(h) == EncodeHeader(h')
    ensures h == h'
  {
    var b := EncodeHeader(h);
    assert b[0..4] == Encode(h.cookie, 4) && b[0..4] == Encode(h'.cookie, 4);
    assert b[4..8] == Encode(h.checksum, 4) && b[4..8] == Encode(h'.checksum, 4);
    assert b[8..12] == Encode(h.totalEntries, 4) && b[8..12] == Encode(h'.totalEntries, 4);
    assert b[12..16] == Encode(h.reserved, 4) && b[12..16] == Encode(h'.reserved, 4);
    DecodeEncode(h.cookie, 4); DecodeEncode(h'.cookie, 4);
    DecodeEncode(h.checksum, 4); DecodeEncode(h'.checksum, 4);
    DecodeEncode(h.totalEntries, 4); DecodeEncode(h'.totalEntries, 4);
    DecodeEncode(h.reserved, 4); DecodeEncode(h'.reserved, 4);
  }

  /** Two encodings of an entry agree only if the entries do. */
  lemma EncodeEntryInjective(e: Entry, e': Entry)
    requires EncodeEntry(e) == EncodeEntry(e')
    ensures e == e'
  {
    var b := EncodeEntry(e);
    assert b[0..4] == Encode(e.entryType, 4) && b[0..4] == Encode(e'.entryType, 4);
    assert b[4..8] == Encode(e.size, 4) && b[4..8] == Encode(e'.size, 4);
    assert b[8..16] == Encode(e.location, 8) && b[8..16] == Encode(e'.location, 8);
    DecodeEncode(e.entryType, 4); DecodeEncode(e'.entryType, 4);
    DecodeEncode(e.size, 4); DecodeEncode(e'.size, 4);
    DecodeEncode(e.location, 8); DecodeEncode(e'.location, 8);
  }

  /** The directory `d` is stored at `off`: its header, then each of its entries in order. */
  ghost predicate StoredAt(data: seq<byte>, off: nat, d: Directory) {
    && d.header.totalEntries == |d.entries|
    && EntryOffset(off, |d.entries|) <= |data|
    && data[off..off + HeaderSize] == EncodeHeader(d.header)
    && forall k :: 0 <= k < |d.entries| ==>
         data[EntryOffset(off, k)..EntryOffset(off, k) + EntrySize] == EncodeEntry(d.entries[k])
  }

  /**
   * The parser is exact: it returns `d` if and only if the image holds
   * `d`'s header at `off` and `d`'s entries right behind it.
   */
  lemma ParseDirectoryExact(data: seq<byte>, off: nat, d: Directory)
    ensures ParseDirectory(data, off) == Ok(d) <==> StoredAt(data, off, d)
  {
    if ParseDirectory(data, off) == Ok(d) {
      forall k | 0 <= k < |d.entries|
        ensures data[EntryOffset(off, k)..EntryOffset(off, k) + EntrySize] == EncodeEntry(d.entries[k])
      {
        assert d.entries[k] == EntryAt(data, EntryOffset(off, k));
      }
    }
    if StoredAt(data, off, d) {
      EncodeHeaderInjective(HeaderAt(data, off), d.header);
      var r := ParseDirectory(data, off);
      assert r.Ok?;
      assert |r.value.entries| == |d.entries|;
      forall k | 0 <= k < |d.entries| ensures r.value.entries[k] == d.entries[k] {
        EncodeEntryInjective(EntryAt(data, EntryOffset(off, k)), d.entries[k]);
      }
      assert r.value.entries == d.entries;
      assert r.value == d;
    }
  }
}
