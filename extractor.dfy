/** The extraction itself: `glb_write_file`, which copies one entry's bytes
    into a freshly created or truncated output file, and `main`, which reads
    the header and directory and then extracts the entries in directory order,
    stopping at the first failure. The output directory is a map from file
    names to contents. */
module Extractor {
  import opened Bytes
  import opened LibC
  import opened GlbLayout
  import opened Glb

  /** The files in the working directory, by name. */
  type FileSystem = map<seq<byte>, seq<byte>>

  /** Whether extraction has succeeded so far, and the files afterwards. */
  datatype Outcome = Outcome(ok: bool, files: FileSystem)

  /** What the process leaves behind: its exit code and the files. */
  datatype RunResult = RunResult(exitCode: int, files: FileSystem)

  /** The entry's data lies inside the archive. */
  predicate InArchive(archive: seq<byte>, e: Entry)
  {
    e.offset + e.size <= |archive|
  }

  /** The bytes the entry describes. */
  function Data(archive: seq<byte>, e: Entry): seq<byte>
    requires InArchive(archive, e)
  {
    archive[e.offset .. e.offset + e.size]
  }

  /** The effect of `glb_write_file`: the output file is created or truncated
      first; it receives the entry's bytes only when all of them can be read. */
  function WriteEntry(archive: seq<byte>, e: Entry, fs: FileSystem): Outcome
  {
    if 0 < e.size && InArchive(archive, e) then Outcome(true, fs[OutputName(e) := Data(archive, e)])
    else Outcome(false, fs[OutputName(e) := []])
  }

  /** `glb_write_file` succeeds exactly when all `size` bytes of the entry
      can be read; the output file exists afterwards either way, holding the
      entry's bytes on success and nothing on failure, and no other file changes. */
  lemma WriteEntryEffect(archive: seq<byte>, e: Entry, fs: FileSystem)
    ensures var r := WriteEntry(archive, e, fs);
      && (r.ok <==> 0 < e.size && e.offset + e.size <= |archive|)
      && r.files.Keys == fs.Keys + {OutputName(e)}
      && r.files[OutputName(e)] == (if r.ok then archive[e.offset .. e.offset + e.size] else [])
      && forall name :: name in fs && name != OutputName(e) ==> r.files[name] == fs[name]
  {
  }

  /** The loop of `main` gets through all of `dir` without a failed entry:
      each entry is skipped or has all of its (at least one) bytes inside the
      archive. An entry is only looked at when every entry before it passed. */
  predicate Completes(archive: seq<byte>, dir: seq<Entry>)
    requires ReachedNamesDefined(archive, dir)
    decreases |dir|, 1
  {
    dir == [] ||
    (Completes(archive, dir[..|dir| - 1]) &&
     var e := dir[|dir| - 1];
     Skipped(e) || (0 < e.size && InArchive(archive, e)))
  }

  /** Every entry the loop of `main` reaches has a non-empty name, so the skip
      test `filename[nlen - 1]` stays inside the name field. Entries after the
      first failure are never reached and may have any name. */
  predicate ReachedNamesDefined(archive: seq<byte>, dir: seq<Entry>)
    decreases |dir|, 0
  {
    dir == [] ||
    (ReachedNamesDefined(archive, dir[..|dir| - 1]) &&
     (Completes(archive, dir[..|dir| - 1]) ==> NameDefined(dir[|dir| - 1])))
  }

  /** A prefix of the directory is reached whenever the whole is. */
  lemma {:induction false} ReachedPrefix(archive: seq<byte>, dir: seq<Entry>, k: nat)
    requires ReachedNamesDefined(archive, dir) && k <= |dir|
    ensures ReachedNamesDefined(archive, dir[..k])
    decreases |dir|
  {
    if k < |dir| {
      var init := dir[..|dir| - 1];
      assert init[..k] == dir[..k];
      ReachedPrefix(archive, init, k);
    } else {
      assert dir[..k] == dir;
    }
  }

  /** A directory the loop gets through has a name in every entry. */
  lemma {:induction false} CompletesNamesDefined(archive: seq<byte>, dir: seq<Entry>)
    requires ReachedNamesDefined(archive, dir) && Completes(archive, dir)
    ensures NamesDefined(dir)
    decreases |dir|
  {
    if dir != [] {
      var init := dir[..|dir| - 1];
      CompletesNamesDefined(archive, init);
      assert forall i :: 0 <= i < |init| ==> dir[i] == init[i];
    }
  }

  /** The loop of `main` over `dir`: entries in directory order, skipped ones
      untouched, and after the first failed entry nothing more is attempted.
      Whether it succeeds does not depend on the files already present. */
  function ExtractEntries(archive: seq<byte>, dir: seq<Entry>, fs: FileSystem): (r: Outcome)
    requires ReachedNamesDefined(archive, dir)
    ensures r.ok == Completes(archive, dir)
    decreases |dir|
  {
    if dir == [] then Outcome(true, fs)
    else
      var prior := ExtractEntries(archive, dir[..|dir| - 1], fs);
      var e := dir[|dir| - 1];
      if !prior.ok || Skipped(e) then prior else WriteEntry(archive, e, prior.files)
  }

  /** One more iteration of the loop of `main`. */
  lemma ExtractEntriesStep(archive: seq<byte>, dir: seq<Entry>, i: nat, fs: FileSystem)
    requires ReachedNamesDefined(archive, dir) && i < |dir|
    ensures ReachedNamesDefined(archive, dir[..i]) && ReachedNamesDefined(archive, dir[..i + 1])
    ensures ExtractEntries(archive, dir[..i], fs).ok ==> NameDefined(dir[i])
    ensures ExtractEntries(archive, dir[..i + 1], fs) ==
      var prior := ExtractEntries(archive, dir[..i], fs);
      if !prior.ok || Skipped(dir[i]) then prior else WriteEntry(archive, dir[i], prior.files)
  {
    ReachedPrefix(archive, dir, i + 1);
    assert dir[..i + 1][..i] == dir[..i];
  }

  /** After the first failed entry no later entry is attempted: the outcome
      of the whole directory is the outcome at the failure. */
  lemma {:induction false} FailureIsFinal(archive: seq<byte>, dir: seq<Entry>, j: nat, fs: FileSystem)
    requires ReachedNamesDefined(archive, dir) && j <= |dir|
    ensures ReachedNamesDefined(archive, dir[..j])
    ensures !ExtractEntries(archive, dir[..j], fs).ok ==>
            ExtractEntries(archive, dir, fs) == ExtractEntries(archive, dir[..j], fs)
  {
    ReachedPrefix(archive, dir, j);
    if j < |dir| {
      var init := dir[..|dir| - 1];
      assert init[..j] == dir[..j];
      FailureIsFinal(archive, init, j, fs);
    } else {
      assert dir[..j] == dir;
    }
  }

  /** The directory of a readable archive gives a name to every entry the
      loop reaches, so the skip test is defined for each of them. */
  predicate WellDefined(input: Option<seq<byte>>)
  {
    input.Some? && ParseArchive(input.value).Ok? ==>
      ReachedNamesDefined(input.value, ParseArchive(input.value).value)
  }

  /** The whole run of the program on `argc` arguments and the archive named
      by the first of them (`None` when it cannot be opened), starting from
      the files `fs`. */
  function Run(argc: int, input: Option<seq<byte>>, fs: FileSystem): RunResult
    requires WellDefined(input)
  {
    if argc != 2 then RunResult(2, fs)
    else if input.None? then RunResult(1, fs)
    else match ParseArchive(input.value)
      case Err(_) => RunResult(1, fs)
      case Ok(dir) =>
        var o := ExtractEntries(input.value, dir, fs);
        RunResult(if o.ok then 0 else 1, o.files)
  }

  /** A run on an accepted archive is the extraction of its directory. */
  lemma RunOnAccepted(archive: seq<byte>, fs: FileSystem)
    requires WellDefined(Some(archive)) && ParseArchive(archive).Ok?
    ensures ReachedNamesDefined(archive, ParseArchive(archive).value)
    ensures var o := ExtractEntries(archive, ParseArchive(archive).value, fs);
            Run(2, Some(archive), fs) == RunResult(if o.ok then 0 else 1, o.files)
  {
  }

  /** `glb_write_file(f, entry)`: position the stream, open the output file
      for writing (creating or truncating it), read the entry's bytes and
      write them. It succeeds exactly when all `size` bytes could be read;
      on failure the output file is left behind empty. */
  method WriteFile(archive: seq<byte>, e: Entry, fs: FileSystem) returns (ok: bool, fs': FileSystem)
    ensures Outcome(ok, fs') == WriteEntry(archive, e, fs)
  {
    var pos: nat := e.offset;
    var name := OutputName(e);
    fs' := fs[name := []];
    var buf := FRead(archive, pos, e.size);
    if buf.None? {
      return false, fs';
    }
    fs' := fs'[name := buf.value];
    ok := true;
  }

  /** `main(argc, argv)`. */
  method ExtractArchive(argc: int, input: Option<seq<byte>>, fs0: FileSystem)
    returns (exitCode: int, fs: FileSystem)
    requires WellDefined(input)
    ensures RunResult(exitCode, fs) == Run(argc, input, fs0)
  {
    fs := fs0;
    if argc != 2 {
      return 2, fs;
    }
    if input.None? {
      return 1, fs;
    }
    var archive := input.value;
    var parsed := ReadDirectory(archive);
    if parsed.Err? {
      return 1, fs;
    }
    RunOnAccepted(archive, fs0);
    var ok;
    ok, fs := ExtractDirectory(archive, parsed.value, fs);
    exitCode := if ok then 0 else 1;
  }

  /** The header read, magic check and directory read of `main`, on the
      stream opened from `archive`. */
  method ReadDirectory(archive: seq<byte>) returns (r: Result<seq<Entry>>)
    ensures r == ParseArchive(archive)
  {
    var pos: nat := 0;
    var headerBytes := FRead(archive, pos, HEADER_SIZE);
    if headerBytes.None? {
      return Err(ShortHeader);
    }
    pos := pos + HEADER_SIZE;
    var h := DecodeHeader(headerBytes.value);
    if !MagicAccepted(h.magic) {
      return Err(BadMagic);
    }
    var dirBytes := FRead(archive, pos, DirectorySize(h.fileCount));
    if dirBytes.None? {
      return Err(NoDirectory);
    }
    r := Ok(DecodeDirectory(dirBytes.value, h.fileCount));
  }

  /** The loop of `main` over the directory read from `archive`. */
  method ExtractDirectory(archive: seq<byte>, dir: seq<Entry>, fs0: FileSystem)
    returns (ok: bool, fs: FileSystem)
    requires ReachedNamesDefined(archive, dir)
    ensures Outcome(ok, fs) == ExtractEntries(archive, dir, fs0)
  {
    fs := fs0;
    var i := 0;
    while i < |dir|
      invariant i <= |dir|
      invariant ReachedNamesDefined(archive, dir[..i])
      invariant ExtractEntries(archive, dir[..i], fs0) == Outcome(true, fs)
    {
      ExtractEntriesStep(archive, dir, i, fs0);
      if !Skipped(dir[i]) {
        ok, fs := WriteFile(archive, dir[i], fs);
        if !ok {
          FailureIsFinal(archive, dir, i + 1, fs0);
          return;
        }
      }
      i := i + 1;
    }
    assert dir[..i] == dir;
    ok := true;
  }
}
