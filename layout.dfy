/** The byte-packed records of a GLB2.0 archive (`glb_header_t` and
    `glb_dentry_t`, declared under `#pragma pack(1)`): a 16-byte header of an
    8-byte magic and a 64-bit entry count, then a directory of 28-byte entries,
    each a 32-bit offset, a 32-bit size and a 20-byte name field. */
module GlbLayout {
  import opened Bytes

  const HEADER_SIZE: nat := 16
  const MAGIC_SIZE: nat := 8
  const ENTRY_SIZE: nat := 28
  const NAME_SIZE: nat := 20

  type MagicField = s: seq<byte> | |s| == 8 witness [0, 0, 0, 0, 0, 0, 0, 0]

  type NameField = s: seq<byte> | |s| == 20
    witness [0, 0, 0, 0, 0, 0, 0, 0, 0, 0, 0, 0, 0, 0, 0, 0, 0, 0, 0, 0]

  datatype Header = Header(magic: MagicField, fileCount: u64)

  datatype Entry = Entry(offset: u32, size: u32, name: NameField)

  /** The header held in `s`: magic at bytes 0..7, count at bytes 8..15. */
  function DecodeHeader(s: seq<byte>): Header
    requires |s| == HEADER_SIZE
  {
    Pow256Widths();
    Header(s[..8], LittleEndian(s[8..16]))
  }

  function EncodeHeader(h: Header): (s: seq<byte>)
    ensures |s| == HEADER_SIZE
  {
    Pow256Widths();
    h.magic + ToLittleEndian(h.fileCount, 8)
  }

  /** The entry held in `s`: offset at bytes 0..3, size at 4..7, name at 8..27. */
  function DecodeEntry(s: seq<byte>): Entry
    requires |s| == ENTRY_SIZE
  {
    Pow256Widths();
    Entry(LittleEndian(s[..4]), LittleEndian(s[4..8]), s[8..])
  }

  function EncodeEntry(e: Entry): (s: seq<byte>)
    ensures |s| == ENTRY_SIZE
  {
    Pow256Widths();
    ToLittleEndian(e.offset, 4) + ToLittleEndian(e.size, 4) + e.name
  }

  /** Entry `i` of the directory bytes `dir`, which begins `ENTRY_SIZE * i`
      bytes in. */
  function EntryAt(dir: seq<byte>, i: nat): Entry
    requires ENTRY_SIZE * i + ENTRY_SIZE <= |dir|
  {
    DecodeEntry(dir[ENTRY_SIZE * i .. ENTRY_SIZE * i + ENTRY_SIZE])
  }

  /** The array of `count` entries that `fread` fills from the directory bytes. */
  function DecodeDirectory(dir: seq<byte>, count: nat): seq<Entry>
    requires ENTRY_SIZE * count <= |dir|
  {
    seq(count, i requires 0 <= i < count => EntryAt(dir, i))
  }

  function EncodeDirectory(entries: seq<Entry>): (s: seq<byte>)
    ensures |s| == ENTRY_SIZE * |entries|
  {
    if entries == [] then [] else EncodeEntry(entries[0]) + EncodeDirectory(entries[1..])
  }

  lemma {:induction false} HeaderRoundTrip(h: Header)
    ensures DecodeHeader(EncodeHeader(h)) == h
  {
    Pow256Widths();
    var s := EncodeHeader(h);
    assert s[..8] == h.magic;
    assert s[8..16] == ToLittleEndian(h.fileCount, 8);
    LittleEndianOfToLittleEndian(h.fileCount, 8);
  }

  lemma {:induction false} EntryRoundTrip(e: Entry)
    ensures DecodeEntry(EncodeEntry(e)) == e
  {
    Pow256Widths();
    var s := EncodeEntry(e);
    assert s[..4] == ToLittleEndian(e.offset, 4);
    assert s[4..8] == ToLittleEndian(e.size, 4);
    assert s[8..] == e.name;
    LittleEndianOfToLittleEndian(e.offset, 4);
    LittleEndianOfToLittleEndian(e.size, 4);
  }

  /** Every 28-byte record is the encoding of the entry decoded from it, so
      decoding loses nothing. */
  lemma {:induction false} EntryBytesRoundTrip(s: seq<byte>)
    requires |s| == ENTRY_SIZE
    ensures EncodeEntry(DecodeEntry(s)) == s
  {
    Pow256Widths();
    ToLittleEndianOfLittleEndian(s[..4]);
    ToLittleEndianOfLittleEndian(s[4..8]);
    assert s == s[..4] + s[4..8] + s[8..];
  }

  /** The record at index `i` of an encoded directory is the encoding of entry `i`. */
  lemma {:induction false} EncodedRecordAt(entries: seq<Entry>, i: nat)
    requires i < |entries|
    ensures ENTRY_SIZE * i + ENTRY_SIZE <= |EncodeDirectory(entries)|
    ensures EncodeDirectory(entries)[ENTRY_SIZE * i .. ENTRY_SIZE * i + ENTRY_SIZE]
            == EncodeEntry(entries[i])
  {
    var s := EncodeDirectory(entries);
    assert s == EncodeEntry(entries[0]) + EncodeDirectory(entries[1..]);
    if i > 0 {
      EncodedRecordAt(entries[1..], i - 1);
      assert ENTRY_SIZE * i == ENTRY_SIZE + ENTRY_SIZE * (i - 1);
    }
  }

  /** Decoding the encoding of a directory gives back its entries. */
  lemma DirectoryRoundTrip(entries: seq<Entry>)
    ensures DecodeDirectory(EncodeDirectory(entries), |entries|) == entries
  {
    var d := DecodeDirectory(EncodeDirectory(entries), |entries|);
    forall i | 0 <= i < |entries|
      ensures d[i] == entries[i]
    {
      EncodedRecordAt(entries, i);
      EntryRoundTrip(entries[i]);
    }
  }
}
