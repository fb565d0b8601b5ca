/** What `main` decides from the archive before it writes anything: whether
    the header and directory can be read, whether the magic is accepted, and
    which directory entries are skipped. */
module Glb {
  import opened Bytes
  import opened LibC
  import opened GlbLayout

  /** The string literal "GLB2.0" as the compiler stores it: six characters and a NUL. */
  const MAGIC_LITERAL: seq<byte> := [0x47, 0x4C, 0x42, 0x32, 0x2E, 0x30, 0]

  const COLON: byte := 0x3A

  /** `strncmp("GLB2.0", h.magic, sizeof(h.magic)) == 0`. */
  predicate MagicAccepted(magic: MagicField)
  {
    StrNEqual(MAGIC_LITERAL, magic, MAGIC_SIZE)
  }

  /** The magic is accepted exactly when its first six bytes spell GLB2.0 and
      the seventh is NUL; the comparison stops at that shared NUL, so the
      eighth byte is never looked at. */
  lemma {:induction false} MagicAcceptedIff(magic: MagicField)
    ensures MagicAccepted(magic) <==> magic[..6] == MAGIC_LITERAL[..6] && magic[6] == 0
  {
    var a := MAGIC_LITERAL;
    assert a[1..][1..][1..][1..][1..][1..] == [0];
    var m := magic;
    assert StrNEqual(a[1..][1..][1..][1..][1..][1..], m[1..][1..][1..][1..][1..][1..], 2)
           <==> m[6] == 0;
    assert StrNEqual(a[1..][1..][1..][1..][1..], m[1..][1..][1..][1..][1..], 3)
           <==> m[5] == a[5] && m[6] == 0;
    assert StrNEqual(a[1..][1..][1..][1..], m[1..][1..][1..][1..], 4)
           <==> m[4] == a[4] && m[5] == a[5] && m[6] == 0;
    assert StrNEqual(a[1..][1..][1..], m[1..][1..][1..], 5)
           <==> m[3] == a[3] && m[4] == a[4] && m[5] == a[5] && m[6] == 0;
    assert StrNEqual(a[1..][1..], m[1..][1..], 6)
           <==> m[2] == a[2] && m[3] == a[3] && m[4] == a[4] && m[5] == a[5] && m[6] == 0;
    assert StrNEqual(a[1..], m[1..], 7)
           <==> m[1] == a[1] && m[2] == a[2] && m[3] == a[3] && m[4] == a[4] && m[5] == a[5] && m[6] == 0;
    assert MagicAccepted(m)
           <==> m[0] == a[0] && m[1] == a[1] && m[2] == a[2] && m[3] == a[3] && m[4] == a[4] && m[5] == a[5] && m[6] == 0;
    if m[..6] == a[..6] {
      assert forall j :: 0 <= j < 6 ==> m[j] == m[..6][j] == a[j];
    }
  }

  /** `strnlen(filename, sizeof(filename))`. */
  function NameLength(e: Entry): nat
  {
    StrNLen(e.name, NAME_SIZE)
  }

  /** The name has at least one character. When it has none, the skip test
      reads `filename[-1]`, which is undefined behaviour in C. */
  predicate NameDefined(e: Entry)
  {
    e.name[0] != 0
  }

  predicate NamesDefined(dir: seq<Entry>)
  {
    forall i :: 0 <= i < |dir| ==> NameDefined(dir[i])
  }

  /** The name `fopen` is given: the name field up to its first NUL, or all
      20 bytes when there is no NUL. */
  function OutputName(e: Entry): seq<byte>
  {
    e.name[..NameLength(e)]
  }

  /** The output name is the C string held in the name field: it has no NUL,
      it is followed by a NUL unless it fills all 20 bytes, and it is empty
      exactly when the name is not defined. */
  lemma OutputNameIsCString(e: Entry)
    ensures 0 !in OutputName(e)
    ensures |OutputName(e)| < NAME_SIZE ==> e.name[..|OutputName(e)| + 1] == OutputName(e) + [0]
    ensures |OutputName(e)| == NAME_SIZE ==> OutputName(e) == e.name
    ensures 0 < |OutputName(e)| <==> NameDefined(e)
  {
    var n := NameLength(e);
    StrNLenFindsFirstNul(e.name, NAME_SIZE);
    if n < NAME_SIZE {
      assert e.name[..n + 1] == e.name[..n] + [e.name[n]];
    }
  }

  /** The entry is a `STARTXXX:`/`ENDXXX:` marker: its name ends in a colon. */
  predicate IsMarker(e: Entry)
    requires NameDefined(e)
  {
    e.name[NameLength(e) - 1] == COLON
  }

  /** `main` skips the entry, without creating any file. */
  predicate Skipped(e: Entry)
    requires NameDefined(e)
  {
    IsMarker(e) || e.size == 0
  }

  /** A name whose byte `k` is not NUL, with no NUL before it and a NUL (or
      the end of the field) right after it, is `k + 1` bytes long. */
  lemma NameEndsAt(e: Entry, k: nat)
    requires k < NAME_SIZE && (forall j :: 0 <= j <= k ==> e.name[j] != 0)
    requires k + 1 == NAME_SIZE || e.name[k + 1] == 0
    ensures NameLength(e) == k + 1
  {
    if k + 1 < NAME_SIZE {
      StrNLenIsFirstNul(e.name, NAME_SIZE, k + 1);
    } else {
      StrNLenFindsFirstNul(e.name, NAME_SIZE);
    }
  }

  /** The skip policy stated on the name field itself: an entry is skipped
      exactly when its size is zero or some byte `k` is a colon that ends the
      name, with no NUL before it and a NUL (or the end of the field) right
      after it. */
  lemma SkippedIff(e: Entry)
    requires NameDefined(e)
    ensures Skipped(e) <==>
      || e.size == 0
      || exists k :: 0 <= k < NAME_SIZE && e.name[k] == COLON &&
           (forall j :: 0 <= j < k ==> e.name[j] != 0) &&
           (k + 1 == NAME_SIZE || e.name[k + 1] == 0)
  {
    var n := NameLength(e);
    StrNLenFindsFirstNul(e.name, NAME_SIZE);
    if IsMarker(e) {
      assert e.name[n - 1] == COLON;
    }
    forall k | 0 <= k < NAME_SIZE && e.name[k] == COLON &&
               (forall j :: 0 <= j < k ==> e.name[j] != 0) &&
               (k + 1 == NAME_SIZE || e.name[k + 1] == 0)
      ensures IsMarker(e)
    {
      NameEndsAt(e, k);
    }
  }

  datatype ParseError = ShortHeader | BadMagic | NoDirectory

  datatype Result<T> = Ok(value: T) | Err(error: ParseError)

  /** Number of bytes the directory occupies, computed on unbounded integers. */
  function DirectorySize(count: nat): nat
  {
    ENTRY_SIZE * count
  }

  /** The header read, the magic check and the directory read of `main`. Every
      failure is detected before any output file is opened. */
  function ParseArchive(archive: seq<byte>): (r: Result<seq<Entry>>)
    ensures r.Ok? ==> 0 < |r.value| && HEADER_SIZE + ENTRY_SIZE * |r.value| <= |archive|
    ensures r.Ok? ==> |r.value| == DecodeHeader(archive[..HEADER_SIZE]).fileCount
  {
    match FRead(archive, 0, HEADER_SIZE)
    case None => Err(ShortHeader)
    case Some(headerBytes) =>
      var h := DecodeHeader(headerBytes);
      if !MagicAccepted(h.magic) then Err(BadMagic)
      else
        match FRead(archive, HEADER_SIZE, DirectorySize(h.fileCount))
        case None => Err(NoDirectory)
        case Some(dirBytes) => Ok(DecodeDirectory(dirBytes, h.fileCount))
  }

  /** The archive is accepted exactly when it holds a header, the magic is
      accepted, the count is positive and all `count` entries are present. */
  lemma ParseArchiveOkIff(archive: seq<byte>)
    ensures ParseArchive(archive).Ok? <==>
      && HEADER_SIZE <= |archive|
      && MagicAccepted(archive[..MAGIC_SIZE])
      && 0 < LittleEndian(archive[8..16])
      && HEADER_SIZE + ENTRY_SIZE * LittleEndian(archive[8..16]) <= |archive|
  {
    if HEADER_SIZE <= |archive| {
      assert archive[..HEADER_SIZE][..8] == archive[..MAGIC_SIZE];
      assert archive[..HEADER_SIZE][8..16] == archive[8..16];
    }
  }

  /** Which error a rejected archive gives, in the order `main` checks. */
  lemma ParseArchiveErrors(archive: seq<byte>)
    ensures |archive| < HEADER_SIZE ==> ParseArchive(archive) == Err(ShortHeader)
    ensures HEADER_SIZE <= |archive| && !MagicAccepted(archive[..MAGIC_SIZE]) ==>
              ParseArchive(archive) == Err(BadMagic)
    ensures HEADER_SIZE <= |archive| && MagicAccepted(archive[..MAGIC_SIZE]) &&
            (LittleEndian(archive[8..16]) == 0 ||
             |archive| < HEADER_SIZE + ENTRY_SIZE * LittleEndian(archive[8..16])) ==>
              ParseArchive(archive) == Err(NoDirectory)
  {
    if HEADER_SIZE <= |archive| {
      assert archive[..HEADER_SIZE][..8] == archive[..MAGIC_SIZE];
      assert archive[..HEADER_SIZE][8..16] == archive[8..16];
    }
  }

  /** Entry `i` of an accepted archive lies at bytes 16 + 28 * i onwards:
      offset in its first four bytes, size in the next four, name in the last twenty. */
  lemma {:induction false} EntryLayout(archive: seq<byte>, i: nat)
    requires ParseArchive(archive).Ok?
    requires i < |ParseArchive(archive).value|
    ensures HEADER_SIZE + ENTRY_SIZE * i + ENTRY_SIZE <= |archive|
    ensures var e, p := ParseArchive(archive).value[i], HEADER_SIZE + ENTRY_SIZE * i;
      && e.offset == LittleEndian(archive[p .. p + 4])
      && e.size == LittleEndian(archive[p + 4 .. p + 8])
      && e.name == archive[p + 8 .. p + 28]
  {
    var n := |ParseArchive(archive).value|;
    var dirBytes := archive[HEADER_SIZE .. HEADER_SIZE + ENTRY_SIZE * n];
    assert ParseArchive(archive).value == DecodeDirectory(dirBytes, n);
    assert ENTRY_SIZE * i + ENTRY_SIZE <= ENTRY_SIZE * n;
    var p := HEADER_SIZE + ENTRY_SIZE * i;
    var rec := dirBytes[ENTRY_SIZE * i .. ENTRY_SIZE * i + ENTRY_SIZE];
    assert rec == archive[p .. p + 28];
    assert rec[..4] == archive[p .. p + 4];
    assert rec[4..8] == archive[p + 4 .. p + 8];
    assert rec[8..] == archive[p + 8 .. p + 28];
  }

  /** The magic `EncodeArchive` writes. */
  const GLB_MAGIC: MagicField := [0x47, 0x4C, 0x42, 0x32, 0x2E, 0x30, 0, 0]

  /** An archive built from a directory and the data that follows it. */
  function EncodeArchive(entries: seq<Entry>, data: seq<byte>): (s: seq<byte>)
    requires |entries| < 0x1_0000_0000_0000_0000
    ensures |s| == HEADER_SIZE + ENTRY_SIZE * |entries| + |data|
  {
    EncodeHeader(Header(GLB_MAGIC, |entries|)) + EncodeDirectory(entries) + data
  }

  /** An archive built from a non-empty directory is accepted and yields that
      directory. */
  lemma {:induction false} EncodeArchiveRoundTrip(entries: seq<Entry>, data: seq<byte>)
    requires 0 < |entries| < 0x1_0000_0000_0000_0000
    ensures ParseArchive(EncodeArchive(entries, data)) == Ok(entries)
  {
    var s := EncodeArchive(entries, data);
    var hs := EncodeHeader(Header(GLB_MAGIC, |entries|));
    assert s[..HEADER_SIZE] == hs;
    HeaderRoundTrip(Header(GLB_MAGIC, |entries|));
    MagicAcceptedIff(GLB_MAGIC);
    assert GLB_MAGIC[..6] == MAGIC_LITERAL[..6];
    assert s[HEADER_SIZE .. HEADER_SIZE + ENTRY_SIZE * |entries|] == EncodeDirectory(entries);
    DirectoryRoundTrip(entries);
  }

  /** As written, `sizeof(glb_dentry_t) * h.file_count` is a 64-bit `size_t`
      product, so it is taken modulo 2^64 before `malloc` and `fread` see it. */
  function DirectorySizeAsWritten(count: u64): nat
  {
    (ENTRY_SIZE * count) % 0x1_0000_0000_0000_0000
  }

  /** The directory read as written: it succeeds when the wrapped byte count is
      positive and present after the header. */
  predicate DirectoryReadAsWritten(archive: seq<byte>, count: u64)
  {
    FRead(archive, HEADER_SIZE, DirectorySizeAsWritten(count)).Some?
  }

  /** With a count of 2^62 + 1 the product wraps to 28: the directory read of a
      44-byte archive with that count succeeds, yet the loop then walks
      2^62 + 1 entries of a buffer that holds one, while the unbounded size
      rejects the same archive. */
  lemma DirectorySizeWraps(archive: seq<byte>)
    requires |archive| == HEADER_SIZE + ENTRY_SIZE
    ensures DirectorySizeAsWritten(0x4000_0000_0000_0001) == ENTRY_SIZE
    ensures DirectoryReadAsWritten(archive, 0x4000_0000_0000_0001)
    ensures FRead(archive, HEADER_SIZE, DirectorySize(0x4000_0000_0000_0001)).None?
  {
  }
}
