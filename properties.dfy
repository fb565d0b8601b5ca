/** What a run of the extractor guarantees about the files it leaves behind. */
module ExtractorProperties {
  import opened Bytes
  import opened LibC
  import opened GlbLayout
  import opened Glb
  import opened Extractor

  /** Entry `e` is extracted when it is reached: it has a name and is not skipped. */
  predicate Extracted(e: Entry)
  {
    NameDefined(e) && !Skipped(e)
  }

  /** Entry `e` creates or overwrites the file `name` when it is reached. */
  predicate Writes(e: Entry, name: seq<byte>)
  {
    Extracted(e) && OutputName(e) == name
  }

  /** Extraction succeeds exactly when every entry has a name and is either
      skipped or lies inside the archive. */
  lemma {:induction false} ExtractOkIff(archive: seq<byte>, dir: seq<Entry>, fs: FileSystem)
    requires ReachedNamesDefined(archive, dir)
    ensures ExtractEntries(archive, dir, fs).ok <==>
            forall i :: 0 <= i < |dir| ==>
              NameDefined(dir[i]) && (Skipped(dir[i]) || InArchive(archive, dir[i]))
  {
    if dir != [] {
      var init := dir[..|dir| - 1];
      ExtractOkIff(archive, init, fs);
      assert forall i :: 0 <= i < |init| ==> dir[i] == init[i];
    }
  }

  /** Extraction only adds and overwrites files: the result is the starting
      files overridden by what the archive alone determines. */
  lemma {:induction false} ExtractFrame(archive: seq<byte>, dir: seq<Entry>, fs: FileSystem)
    requires ReachedNamesDefined(archive, dir)
    ensures var w := ExtractEntries(archive, dir, map[]);
            ExtractEntries(archive, dir, fs) == Outcome(w.ok, fs + w.files)
  {
    if dir != [] {
      var init := dir[..|dir| - 1];
      var e := dir[|dir| - 1];
      ExtractFrame(archive, init, fs);
      var w := ExtractEntries(archive, init, map[]);
      if w.ok && !Skipped(e) {
        var v := WriteEntry(archive, e, map[]).files[OutputName(e)];
        assert (fs + w.files)[OutputName(e) := v] == fs + w.files[OutputName(e) := v];
      }
    }
  }

  /** A name that no extracted entry carries is left as it was, whatever the
      outcome: skipped entries never create or change a file. */
  lemma {:induction false} UntouchedNames(archive: seq<byte>, dir: seq<Entry>, fs: FileSystem, name: seq<byte>)
    requires ReachedNamesDefined(archive, dir)
    requires forall i :: 0 <= i < |dir| ==> !Writes(dir[i], name)
    ensures var files := ExtractEntries(archive, dir, fs).files;
            (name in files <==> name in fs) && (name in fs ==> files[name] == fs[name])
  {
    if dir != [] {
      UntouchedNames(archive, dir[..|dir| - 1], fs, name);
    }
  }

  /** After a successful extraction, the file named by an extracted entry that
      no later extracted entry names holds exactly that entry's bytes. */
  lemma {:induction false} ExtractedContent(archive: seq<byte>, dir: seq<Entry>, fs: FileSystem, i: nat)
    requires ReachedNamesDefined(archive, dir)
    requires ExtractEntries(archive, dir, fs).ok
    requires i < |dir| && Extracted(dir[i])
    requires forall j :: i < j < |dir| ==> !Writes(dir[j], OutputName(dir[i]))
    ensures InArchive(archive, dir[i])
    ensures var files := ExtractEntries(archive, dir, fs).files;
            OutputName(dir[i]) in files && files[OutputName(dir[i])] == Data(archive, dir[i])
  {
    var init := dir[..|dir| - 1];
    if i < |dir| - 1 {
      ExtractedContent(archive, init, fs, i);
    }
  }

  /** When entry `k` is the first entry whose data runs past the end of the
      archive, every entry before it having a name and being skipped or
      inside the archive, the run fails there: the entries before it were
      extracted, its output file exists and is empty, and nothing after it is
      attempted, whatever the later entries hold. */
  lemma FailedEntry(archive: seq<byte>, dir: seq<Entry>, fs: FileSystem, k: nat)
    requires ReachedNamesDefined(archive, dir)
    requires k < |dir| && Extracted(dir[k]) && !InArchive(archive, dir[k])
    requires forall j :: 0 <= j < k ==>
               NameDefined(dir[j]) && (Skipped(dir[j]) || InArchive(archive, dir[j]))
    ensures ReachedNamesDefined(archive, dir[..k])
    ensures ExtractEntries(archive, dir[..k], fs).ok
    ensures ExtractEntries(archive, dir, fs) ==
            Outcome(false, ExtractEntries(archive, dir[..k], fs).files[OutputName(dir[k]) := []])
  {
    ReachedPrefix(archive, dir, k);
    ExtractOkIff(archive, dir[..k], fs);
    ExtractEntriesStep(archive, dir, k, fs);
    FailureIsFinal(archive, dir, k + 1, fs);
  }

  /** Number of entries that are extracted when reached. */
  function WrittenCount(dir: seq<Entry>): nat
  {
    if dir == [] then 0
    else WrittenCount(dir[..|dir| - 1]) + (if Extracted(dir[|dir| - 1]) then 1 else 0)
  }

  /** Extracted entries carry pairwise different names. */
  predicate DistinctNames(dir: seq<Entry>)
  {
    forall i, j :: 0 <= i < j < |dir| && Extracted(dir[i]) && Extracted(dir[j]) ==>
      OutputName(dir[i]) != OutputName(dir[j])
  }

  /** Into an empty directory, a successful extraction whose entries have
      distinct names creates one file per entry that is not skipped. */
  lemma {:induction false} FileCount(archive: seq<byte>, dir: seq<Entry>)
    requires ReachedNamesDefined(archive, dir) && DistinctNames(dir)
    requires ExtractEntries(archive, dir, map[]).ok
    ensures |ExtractEntries(archive, dir, map[]).files| == WrittenCount(dir)
  {
    if dir != [] {
      var init := dir[..|dir| - 1];
      var e := dir[|dir| - 1];
      FileCount(archive, init);
      if !Skipped(e) {
        UntouchedNames(archive, init, map[], OutputName(e));
      }
    }
  }

  /** The exit code is 2 exactly for a wrong argument count, and then nothing
      is touched; an archive that cannot be opened gives 1; no other code occurs. */
  lemma ExitCodes(argc: int, input: Option<seq<byte>>, fs: FileSystem)
    requires WellDefined(input)
    ensures Run(argc, input, fs).exitCode in {0, 1, 2}
    ensures Run(argc, input, fs).exitCode == 2 <==> argc != 2
    ensures argc != 2 ==> Run(argc, input, fs).files == fs
    ensures argc == 2 && input.None? ==> Run(argc, input, fs) == RunResult(1, fs)
  {
  }

  /** An archive shorter than its header, with a wrong magic, with a zero
      count, or shorter than its directory fails with exit code 1 before any
      output file is created. */
  lemma RejectedBeforeOutput(archive: seq<byte>, fs: FileSystem)
    requires WellDefined(Some(archive))
    requires
      || |archive| < HEADER_SIZE
      || !MagicAccepted(archive[..MAGIC_SIZE])
      || LittleEndian(archive[8..16]) == 0
      || |archive| < HEADER_SIZE + ENTRY_SIZE * LittleEndian(archive[8..16])
    ensures Run(2, Some(archive), fs) == RunResult(1, fs)
  {
    ParseArchiveOkIff(archive);
  }

  /** A run exits with 0 exactly when the archive is accepted and every entry
      has a name and is skipped or lies inside it. */
  lemma ExitZeroIff(archive: seq<byte>, fs: FileSystem)
    requires WellDefined(Some(archive))
    ensures Run(2, Some(archive), fs).exitCode == 0 <==>
      && ParseArchive(archive).Ok?
      && var dir := ParseArchive(archive).value;
         forall i :: 0 <= i < |dir| ==>
           NameDefined(dir[i]) && (Skipped(dir[i]) || InArchive(archive, dir[i]))
  {
    if ParseArchive(archive).Ok? {
      ExtractOkIff(archive, ParseArchive(archive).value, fs);
    }
  }

  /** Running the extractor twice on the same archive in the same directory
      leaves the same files and exit code as running it once: every file is
      created or truncated before it is written, never appended to. */
  lemma Idempotent(argc: int, input: Option<seq<byte>>, fs: FileSystem)
    requires WellDefined(input)
    ensures Run(argc, input, Run(argc, input, fs).files) == Run(argc, input, fs)
  {
    if argc == 2 && input.Some? && ParseArchive(input.value).Ok? {
      IdempotentOnAccepted(input.value, fs);
    }
  }

  /** Overriding a second time with the same files changes nothing. */
  lemma OverrideTwice(fs: FileSystem, written: FileSystem)
    ensures fs + written + written == fs + written
  {
  }

  lemma IdempotentOnAccepted(archive: seq<byte>, fs: FileSystem)
    requires WellDefined(Some(archive)) && ParseArchive(archive).Ok?
    ensures Run(2, Some(archive), Run(2, Some(archive), fs).files) == Run(2, Some(archive), fs)
  {
    var dir := ParseArchive(archive).value;
    var w := ExtractEntries(archive, dir, map[]);
    var code := if w.ok then 0 else 1;
    RunOnAccepted(archive, fs);
    ExtractFrame(archive, dir, fs);
    var once := fs + w.files;
    assert Run(2, Some(archive), fs) == RunResult(code, once);
    RunOnAccepted(archive, once);
    ExtractFrame(archive, dir, once);
    OverrideTwice(fs, w.files);
    assert Run(2, Some(archive), once) == RunResult(code, once);
  }

  /** After a run that exits with 0, the file named by an extracted entry
      that no later extracted entry names holds exactly that entry's bytes. */
  lemma SuccessfulRunFile(archive: seq<byte>, fs: FileSystem, i: nat)
    requires WellDefined(Some(archive)) && ParseArchive(archive).Ok?
    requires Run(2, Some(archive), fs).exitCode == 0
    requires var dir := ParseArchive(archive).value;
      && i < |dir| && Extracted(dir[i])
      && forall j :: i < j < |dir| ==> !Writes(dir[j], OutputName(dir[i]))
    ensures var e, files := ParseArchive(archive).value[i], Run(2, Some(archive), fs).files;
      && e.offset + e.size <= |archive|
      && OutputName(e) in files
      && files[OutputName(e)] == archive[e.offset .. e.offset + e.size]
  {
    RunOnAccepted(archive, fs);
    ExtractedContent(archive, ParseArchive(archive).value, fs, i);
  }

  /** Whatever the exit code, a name that no extracted entry of the archive
      carries is left as it was: skipped entries never create or change a file. */
  lemma RunLeavesOtherNames(archive: seq<byte>, fs: FileSystem, name: seq<byte>)
    requires WellDefined(Some(archive))
    requires ParseArchive(archive).Ok? ==>
      var dir := ParseArchive(archive).value;
      forall i :: 0 <= i < |dir| ==> !Writes(dir[i], name)
    ensures var files := Run(2, Some(archive), fs).files;
      (name in files <==> name in fs) && (name in fs ==> files[name] == fs[name])
  {
    if ParseArchive(archive).Ok? {
      RunOnAccepted(archive, fs);
      UntouchedNames(archive, ParseArchive(archive).value, fs, name);
    }
  }

  /** Extracting a data entry that lies inside the archive followed by a
      marker writes the data entry's file and nothing else. */
  lemma DataThenMarker(archive: seq<byte>, data: Entry, marker: Entry)
    requires Extracted(data) && InArchive(archive, data)
    requires NameDefined(marker) && IsMarker(marker)
    ensures ReachedNamesDefined(archive, [data, marker])
    ensures ExtractEntries(archive, [data, marker], map[]) ==
            Outcome(true, map[OutputName(data) := Data(archive, data)])
  {
    var dir := [data, marker];
    assert dir[..1] == [data] && dir[..1][..0] == [] && dir[..2] == dir;
    assert ReachedNamesDefined(archive, dir[..1]) && Completes(archive, dir[..1]);
    ExtractEntriesStep(archive, dir, 0, map[]);
    ExtractEntriesStep(archive, dir, 1, map[]);
  }

  /** A two-entry archive built by hand: a data entry whose four bytes are
      stored right after the directory, at offset 72, followed by a marker
      entry whose name ends in a colon. Extracting it into an empty directory
      exits with 0 and leaves exactly one file, named after the data entry
      and holding those four bytes. */
  lemma TwoEntryArchive(data: Entry, marker: Entry, payload: seq<byte>, archive: seq<byte>)
    requires NameDefined(data) && !IsMarker(data) && data.offset == 72 && data.size == 4
    requires NameDefined(marker) && IsMarker(marker)
    requires |payload| == 4
    requires archive == EncodeArchive([data, marker], payload)
    ensures WellDefined(Some(archive))
    ensures Run(2, Some(archive), map[]) == RunResult(0, map[OutputName(data) := payload])
  {
    var dir := [data, marker];
    EncodeArchiveRoundTrip(dir, payload);
    var prefix := EncodeHeader(Header(GLB_MAGIC, 2)) + EncodeDirectory(dir);
    assert archive == prefix + payload && |prefix| == 72;
    assert Data(archive, data) == payload;
    DataThenMarker(archive, data, marker);
    RunOnAccepted(archive, map[]);
  }

  /** A two-entry archive whose first entry's data lies past the end of the
      archive and whose second entry has an empty name: the loop stops at the
      first entry, so the second is never reached and the run is defined. It
      exits with 1 and leaves the first entry's file behind, empty. */
  lemma UnreachedEmptyName(first: Entry, second: Entry, archive: seq<byte>, fs: FileSystem)
    requires Extracted(first) && |EncodeArchive([first, second], [])| < first.offset + first.size
    requires !NameDefined(second)
    requires archive == EncodeArchive([first, second], [])
    ensures WellDefined(Some(archive))
    ensures Run(2, Some(archive), fs) == RunResult(1, fs[OutputName(first) := []])
  {
    var dir := [first, second];
    EncodeArchiveRoundTrip(dir, []);
    assert dir[..1] == [first] && dir[..1][..0] == [];
    assert !InArchive(archive, first) && !Skipped(first);
    var head := [first];
    assert head[..|head| - 1] == [] && head[|head| - 1] == first;
    assert ReachedNamesDefined(archive, head);
    assert !Completes(archive, head);
    assert ReachedNamesDefined(archive, dir);
    RunOnAccepted(archive, fs);
    ExtractEntriesStep(archive, dir, 0, fs);
    FailureIsFinal(archive, dir, 1, fs);
  }
}
