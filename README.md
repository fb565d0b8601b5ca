# GLB2.0 extractor, modelled in Dafny

The extractor unpacks the "GLB2.0" archives of the game DemonStar. An archive
holds a 16-byte header, then a directory of 28-byte entries, then the entry
data. The header is an 8-byte magic and a 64-bit entry count. Each entry is a
32-bit offset, a 32-bit size and a 20-byte file name. The program checks the
header, reads the directory and walks it in order. It skips marker entries
(names ending in `:`) and empty ones. Every other entry gets an output file in
the working directory holding bytes `[offset, offset + size)` of the archive.
The run stops at the first entry that fails.

The model works on values. The archive is a `seq<byte>`, or `None` when it
cannot be opened. The working directory is a `map` from file names (byte
strings) to contents. Integers are read little-endian.

- `bytes.dfy` (module `Bytes`): bytes, `uint32_t`/`uint64_t`, little-endian
  decoding and encoding.
- `libc.dfy` (module `LibC`): `strnlen`, `strncmp` and `fread` of one object,
  as functions on sequences.
- `layout.dfy` (module `GlbLayout`): the packed `glb_header_t` and
  `glb_dentry_t` records, with decoders and encoders.
- `glb.dfy` (module `Glb`): the magic check, the output name, the skip policy
  and the header/directory phase of `main` (`ParseArchive`).
- `extractor.dfy` (module `Extractor`): the specification functions
  `WriteEntry`, `ExtractEntries` and `Run`. Also the imperative methods
  `WriteFile` (`glb_write_file`), `ReadDirectory` (the header and directory
  reads of `main`), `ExtractDirectory` (the loop of `main`) and `ExtractArchive`
  (`main`), each proved equal to its specification function.
- `properties.dfy` (module `ExtractorProperties`): what a run guarantees
  about exit codes and files.

Where the code and its design description differ, the model follows the code:

- The magic check is not a prefix test. `strncmp` over 8 bytes also needs the
  seventh byte to be NUL. It never reads the eighth byte.
- "One output file per extracted entry" holds only when the names are
  distinct. A later entry with the same name overwrites the earlier file.

## Model

| member | source | states |
|---|---|---|
| `Bytes.LittleEndian` | main.c:32-38 | The value read from n bytes is below 256^n, so a 4-byte field fits `uint32_t` and an 8-byte field fits `uint64_t` |
| `Bytes.LittleEndianOfToLittleEndian` | main.c:32-38 | Encoding a value in `width` bytes and reading it back gives the value |
| `Bytes.ToLittleEndianOfLittleEndian` | main.c:32-38 | Reading `width` bytes and encoding the value again gives the same bytes |
| `LibC.StrNLen` | main.c:113 | Models `strnlen(s, n)`: it counts bytes up to the first NUL, never more than n. Its meaning is fixed by the next two lemmas |
| `LibC.StrNLenFindsFirstNul` | main.c:113 | `strnlen` over the first n bytes returns a position with no NUL before it, and a NUL at it unless all n bytes were scanned |
| `LibC.StrNLenIsFirstNul` | main.c:113 | When the first NUL is at k < n, `strnlen` returns exactly k |
| `LibC.StrNEqual` | main.c:95 | Models `strncmp(a, b, n) == 0`: the strings agree byte by byte up to n bytes or up to a NUL they share. Its acceptance set is `Glb.MagicAcceptedIff` |
| `LibC.FRead` | main.c:57 | Models `fread(buf, size, 1, f) == 1` after positioning at `pos`: one object is read iff `size` is positive and `size` bytes remain. Also used at main.c:92 and main.c:107 |
| `GlbLayout.DecodeHeader` | main.c:29-33 | Models `glb_header_t` over 16 bytes: magic at 0..7, `file_count` at 8..15. Its inverse is `GlbLayout.HeaderRoundTrip` |
| `GlbLayout.DecodeEntry` | main.c:35-40 | Models `glb_dentry_t` over 28 bytes: offset at 0..3, size at 4..7, name at 8..27. Its inverse is `GlbLayout.EntryRoundTrip` |
| `GlbLayout.DecodeDirectory` | main.c:107 | Models the `dir` array that `fread` fills: entry i comes from bytes 28 * i onwards. Its inverse is `GlbLayout.DirectoryRoundTrip` |
| `GlbLayout.HeaderRoundTrip` | main.c:29-33 | Decoding an encoded header gives the header back (magic at 0..7, count at 8..15) |
| `GlbLayout.EntryRoundTrip` | main.c:35-40 | Decoding an encoded entry gives the entry back (offset at +0..3, size at +4..7, name at +8..27) |
| `GlbLayout.EntryBytesRoundTrip` | main.c:35-40 | Every 28-byte record is the encoding of the entry decoded from it, so decoding loses nothing |
| `GlbLayout.DirectoryRoundTrip` | main.c:107 | Decoding an encoded directory of n entries gives the n entries back |
| `Glb.MagicAccepted` | main.c:95 | Models the magic test as `strncmp` of the literal "GLB2.0" (with its NUL) against the 8-byte magic |
| `Glb.MagicAcceptedIff` | main.c:95 | `strncmp("GLB2.0", magic, 8) == 0` holds iff bytes 0..5 spell GLB2.0 and byte 6 is NUL; byte 7 plays no part |
| `Glb.OutputName` | main.c:53 | Models the name `fopen` receives: the name field up to `strnlen` of it. Its meaning is `Glb.OutputNameIsCString` |
| `Glb.OutputNameIsCString` | main.c:53 | The name given to `fopen` has no NUL. It is followed by a NUL unless it fills all 20 bytes. It is empty exactly when the first byte is NUL |
| `Glb.IsMarker` | main.c:112-114 | Models `dir[i].filename[nlen - 1] == ':'`, defined only when the name is not empty |
| `Glb.Skipped` | main.c:114-115 | Models the `continue` test: the entry is a marker or its size is 0 |
| `Glb.SkippedIff` | main.c:112-115 | Stated on the name field alone, without `strnlen`: an entry is skipped iff its size is 0 or some byte k is `:`, with no NUL before it and a NUL or the end of the field right after it |
| `Glb.ParseArchive` | main.c:91-108 | An accepted archive has a non-empty directory of exactly `file_count` entries, all inside the archive after the 16-byte header |
| `Glb.ParseArchiveOkIff` | main.c:92-108 | The archive is accepted iff it holds 16 header bytes, the magic is accepted, `file_count > 0` and 16 + 28 * `file_count` bytes are present |
| `Glb.ParseArchiveErrors` | main.c:92-108 | The checks run in the order of `main`. An archive too short for the header gives `ShortHeader`. A wrong magic gives `BadMagic`. A zero count or a short directory gives `NoDirectory`, because the directory read of 28 * `file_count` bytes fails |
| `Glb.EntryLayout` | main.c:35-41 | Entry i of an accepted archive starts at byte 16 + 28 * i: offset at +0..3, size at +4..7, name at +8..27 |
| `Glb.EncodeArchiveRoundTrip` | main.c:91-108 | An archive built from a non-empty directory is accepted and yields exactly that directory |
| `Glb.DirectorySizeWraps` | main.c:101-108 | As written, a count of 2^62 + 1 wraps the 64-bit directory size to 28 bytes. The directory read of a 44-byte archive then succeeds, while the unbounded size rejects the archive |
| `Extractor.WriteEntry` | main.c:44-71 | Models the effect of `glb_write_file`: the output file is created or truncated, then receives the entry's bytes when all of them can be read. Its meaning is `Extractor.WriteEntryEffect` |
| `Extractor.WriteEntryEffect` | main.c:44-71 | `glb_write_file` succeeds iff 0 < size and offset + size fits the archive. The output file exists afterwards either way. It holds the entry's bytes on success and nothing on failure. No other file changes |
| `Extractor.WriteFile` | main.c:44-71 | Step by step (seek, create or truncate, read, write), the method's result and files are those of `WriteEntry` |
| `Extractor.Completes` | main.c:110-122 | Models when the loop gets through the directory: every entry, in order, is skipped or lies fully inside the archive. It does not depend on the files present |
| `Extractor.ReachedNamesDefined` | main.c:113-114 | Every entry the loop reaches (all entries before it passed) has a non-empty name, so `filename[nlen - 1]` stays inside the field. Entries after a failure may have any name |
| `Extractor.CompletesNamesDefined` | main.c:110-122 | When the loop gets through the whole directory, every entry has a non-empty name |
| `Extractor.ExtractEntries` | main.c:110-122 | Models the loop over the directory in order, stopping at the first failed entry. Whether it succeeds is exactly `Completes`, whatever files were present before |
| `Extractor.ExtractEntriesStep` | main.c:110-122 | One loop iteration: after entry i, the outcome is unchanged if the run already failed or the entry is skipped; otherwise it is that entry's write. A reached entry has a name |
| `Extractor.FailureIsFinal` | main.c:117-120 | Once an entry has failed, later entries are never attempted: the outcome of the whole directory is the outcome at the failure |
| `Extractor.ExtractDirectory` | main.c:110-122 | The loop, proved by invariant, gives exactly the outcome of `ExtractEntries` in directory order |
| `Extractor.Run` | main.c:73-140 | Models the whole process: exit code 2 on a wrong argument count, 1 on an unopenable or rejected archive, and otherwise 0 or 1 by the loop's success, with the files it leaves |
| `Extractor.ReadDirectory` | main.c:91-108 | Step by step (read the header, check the magic, read the directory), the method returns exactly `ParseArchive`'s result |
| `Extractor.ExtractArchive` | main.c:73-140 | The whole program (argument check, header read, magic check, directory read, loop, exit codes) gives exactly `Run`'s exit code and files |
| `ExtractorProperties.ExtractOkIff` | main.c:110-122 | Extraction succeeds iff every entry has a name and is either skipped or lies inside the archive |
| `ExtractorProperties.ExtractFrame` | main.c:53 | Extraction only creates and overwrites files: the result is the old files overridden by a map that depends on the archive alone |
| `ExtractorProperties.UntouchedNames` | main.c:112-115 | A name carried by no extracted entry keeps its presence and its contents, whatever the outcome; skipped entries never create or change a file |
| `ExtractorProperties.ExtractedContent` | main.c:57-61 | After success, the file of an extracted entry that no later extracted entry names holds exactly `archive[offset .. offset + size]` |
| `ExtractorProperties.FailedEntry` | main.c:53-58 | At the first extracted entry whose data runs past the end, the run fails. The earlier entries are extracted, that entry's file exists and is empty, and nothing after it is attempted |
| `ExtractorProperties.FileCount` | main.c:110-122 | Into an empty directory, a successful extraction with distinct names creates exactly one file per entry that is not skipped |
| `ExtractorProperties.ExitCodes` | main.c:75-86 | The exit code is 2 exactly when argc != 2, and then nothing changes. An unopenable archive gives 1. No code other than 0, 1, 2 occurs |
| `ExtractorProperties.RejectedBeforeOutput` | main.c:128-139 | A too-short archive, a wrong magic, a zero count or a truncated directory gives exit code 1 with no file created or changed |
| `ExtractorProperties.ExitZeroIff` | main.c:124-126 | The exit code is 0 iff the archive is accepted and every entry has a name and is skipped or lies inside it |
| `ExtractorProperties.Idempotent` | main.c:53 | Running twice on the same (unchanged) archive in the same directory gives the same exit code and files as running once ("wb" truncates, never appends) |
| `ExtractorProperties.IdempotentOnAccepted` | main.c:110-122 | The same, for an accepted archive: a second extraction over the first one's files changes nothing |
| `ExtractorProperties.SuccessfulRunFile` | main.c:110-126 | After exit code 0, the file of an extracted entry that no later entry overwrites holds exactly that entry's bytes |
| `ExtractorProperties.RunLeavesOtherNames` | main.c:112-115 | Whatever the exit code, a name that no extracted entry carries is left as it was |
| `ExtractorProperties.DataThenMarker` | main.c:110-122 | A data entry inside the archive followed by a marker: the loop succeeds and writes only the data entry's file |
| `ExtractorProperties.TwoEntryArchive` | main.c:110-126 | A built archive with a 4-byte data entry at offset 72 and a `:` marker exits with 0 and leaves exactly one file, holding those 4 bytes |
| `ExtractorProperties.UnreachedEmptyName` | main.c:113-120 | An archive whose first entry runs past the end and whose second entry has an empty name is defined: the loop stops at the first entry, the run exits with 1 and leaves that entry's file empty |

## Left out

- Messages: the usage line, the diagnostics on standard error and the `strerror(errno)` texts. Only exit codes and files are modelled.
- `ferror` versus `feof` after a short read: this changes only the message. Both paths exit with 1, and the model has one error per phase.
- Opening the archive: `argv[1]` is not modelled. The archive's contents are given, or `None` when `fopen` fails.
- `malloc` failure, for the directory and for an entry's buffer, is not modelled. The model assumes every allocation succeeds; either failure would exit with 1.
- `fseek` failure is not modelled. The model assumes a 64-bit `long`, so every 32-bit offset fits, and seeking past the end succeeds; the read that follows fails. Where `long` is 32 bits wide (LLP64 or ILP32 hosts), an offset of 2^31 or more makes `fseek` fail at main.c:46-47 before `fopen`, so no output file is created. `WriteEntry` always creates or truncates it.
- `fopen` failure of an output file is not modelled. Invalid names and permissions are host matters, and writes to the map always succeed. A partial `fwrite` is not modelled either.
- Releasing the buffer, the directory and the streams is not modelled. It has no effect on the exit code or the files.
- `ExtractArchive`, `ParseArchive`, `Run`: the directory size `sizeof(glb_dentry_t) * h.file_count` is computed on unbounded integers, not in 64-bit `size_t`. The wrap-around is shown separately (see Findings).
- `Run`, `ExtractArchive`, `ExtractEntries`: when the loop reaches an entry whose name's first byte is NUL, the skip test reads `filename[-1]`, which is undefined behaviour. A precondition (`WellDefined`, `ReachedNamesDefined`) excludes only such archives; an empty name after the first failed entry is allowed.
- `OutputName`: a 20-byte name with no NUL reaches `fopen` unterminated, and C then reads on into the next bytes in memory. The model uses the 20 bytes as the name.
- `WriteFile`, `WriteEntry`: with size 0, `malloc(0)` may return NULL and fail before the output file is created. The model always takes the other path, where the read of 0 bytes fails after the file is created. `main` never calls it with size 0.
- The archive and the output files are kept apart. An entry whose name is the archive's own path would truncate the input at main.c:53 before the read at main.c:57. What that read then returns depends on stdio buffering. `Run` and `WriteEntry` read an unchanging archive, and `Idempotent` runs the second time on the same archive.
- File names are compared byte by byte. On a case-insensitive or normalising file system, two names that differ only in case are one file. `DistinctNames`, `FileCount` and `ExtractedContent` treat them as two.
- Byte order: the source reads integers in host order; the model fixes little-endian.

## Findings

| source | as written | input that shows it | evidently intended | confidence | as-written member | corrected member |
|---|---|---|---|---|---|---|
| main.c:101-108 | The directory size `sizeof(glb_dentry_t) * h.file_count` is a 64-bit `size_t` product, so it wraps modulo 2^64 before `malloc` and `fread` see it, while the loop still runs `file_count` times | `file_count` = 2^62 + 1 in a 44-byte archive: the product wraps to 28, one entry is read, and the loop indexes 2^62 + 1 entries of a one-entry buffer | Read all `28 * file_count` directory bytes, or reject the archive | high; not executed | `Glb.DirectorySizeWraps` | `Glb.ParseArchive` |
