/**
 * The append-only archive of solver runs (src/solver/archive.ts:11-90). Files are a map from
 * paths, each a directory and a file name, to contents; writing a temporary file and renaming it
 * is one step, and reading fails exactly when there is no file. The digest functions are
 * parameters.
 */
module Archive {
  import opened Common
  import opened Sorting
  import opened Grouping
  import opened TextOrder

  // ------------------------------------------------------------------ data

  datatype Name = Input | Output | Log | Metadata

  type Bytes = seq<int>

  datatype Artifact = Artifact(name: Name, content: Bytes)

  /** Directory, named by the source hash, and file name. */
  type Path = (string, string)

  type Files = map<Path, Bytes>

  datatype Entry = Entry(name: Name, path: Path, digest: string, bytes: nat)

  datatype ArchivedRun = ArchivedRun(sourceHash: string, artifacts: seq<Entry>)

  datatype ArchiveError =
    | Duplicate
    | Missing(name: Name)
    | Conflict(name: Name)
    | ConflictingMetadata
    | NoFile(name: Name)
    | ChecksumMismatch(name: Name)
    | SizeMismatch(name: Name)
    | MissingSource
    | SourceHashMismatch

  /** SHA-256 in hexadecimal, of bytes and of text. */
  datatype Digests = Digests(content: Bytes -> string, text: string -> string)

  ghost predicate CollisionFree(h: Digests) { forall a, b :: h.content(a) == h.content(b) ==> a == b }

  function FileName(n: Name): string {
    match n
    case Input => "input.txt"
    case Output => "output_result.json"
    case Log => "solver.log"
    case Metadata => "metadata.json"
  }

  /** The name under which a second, different metadata record is kept. */
  function Versioned(digest: string): string { "metadata-" + digest + ".json" }

  // ----------------------------------------------------------- source hash

  function Line(n: Name, digest: string): string { FileName(n) + ":" + digest }

  function JoinLines(lines: seq<string>): string {
    if lines == [] then "" else if |lines| == 1 then lines[0] else lines[0] + "\n" + JoinLines(lines[1..])
  }

  function IsSource(): Artifact -> bool { (a: Artifact) => a.name != Metadata }

  function SourceLines(h: Digests, artifacts: seq<Artifact>): seq<string> {
    var sources := Bucket(artifacts, IsSource(), true);
    seq(|sources|, i requires 0 <= i < |sources| => Line(sources[i].name, h.content(sources[i].content)))
  }

  function SourceHash(h: Digests, artifacts: seq<Artifact>): string {
    h.text(JoinLines(Sort(LexLe(), SourceLines(h, artifacts))))
  }

  // --------------------------------------------------------------- archive

  predicate DistinctNames(artifacts: seq<Artifact>) {
    forall i, j :: 0 <= i < j < |artifacts| ==> artifacts[i].name != artifacts[j].name
  }

  predicate Supplied(artifacts: seq<Artifact>, n: Name) { exists i :: 0 <= i < |artifacts| && artifacts[i].name == n }

  /** The checks before anything is written. */
  function CheckArtifacts(artifacts: seq<Artifact>): Option<ArchiveError> {
    if !DistinctNames(artifacts) then Some(Duplicate)
    else if !Supplied(artifacts, Input) then Some(Missing(Input))
    else if !Supplied(artifacts, Output) then Some(Missing(Output))
    else if !Supplied(artifacts, Log) then Some(Missing(Log))
    else None
  }

  /** One artifact: the files afterwards, and its entry. */
  function Place(h: Digests, files: Files, dir: string, a: Artifact): Result<(Files, Entry), ArchiveError> {
    var digest := h.content(a.content);
    var plain, versioned := (dir, FileName(a.name)), (dir, Versioned(digest));
    if plain !in files then Ok((files[plain := a.content], Entry(a.name, plain, digest, |a.content|)))
    else if h.content(files[plain]) == digest then Ok((files, Entry(a.name, plain, digest, |a.content|)))
    else if a.name != Metadata then Err(Conflict(a.name))
    else if versioned !in files then Ok((files[versioned := a.content], Entry(a.name, versioned, digest, |a.content|)))
    else if h.content(files[versioned]) != digest then Err(ConflictingMetadata)
    else Ok((files, Entry(a.name, versioned, digest, |a.content|)))
  }

  /** All artifacts in turn; those before a failure stay. */
  function PlaceAll(
      h: Digests, files: Files, dir: string, artifacts: seq<Artifact>): (Files, Result<seq<Entry>, ArchiveError>) {
    if artifacts == [] then (files, Ok([]))
    else
      var n := |artifacts| - 1;
      var (before, entries) := PlaceAll(h, files, dir, artifacts[..n]);
      if entries.Err? then (before, entries)
      else
        match Place(h, before, dir, artifacts[n])
        case Err(e) => (before, Err(e))
        case Ok((after, entry)) => (after, Ok(entries.value + [entry]))
  }

  function Archived(h: Digests, files: Files, artifacts: seq<Artifact>): (Files, Result<ArchivedRun, ArchiveError>) {
    var check := CheckArtifacts(artifacts);
    if check.Some? then (files, Err(check.value))
    else
      var dir := SourceHash(h, artifacts);
      var (after, entries) := PlaceAll(h, files, dir, artifacts);
      (after, if entries.Err? then Err(entries.error) else Ok(ArchivedRun(dir, entries.value)))
  }

  // ---------------------------------------------------------------- verify

  /** The comparison of two recorded artifacts by name. */
  function ByName(le: (string, string) -> bool): (Entry, Entry) -> bool {
    (a: Entry, b: Entry) => le(FileName(a.name), FileName(b.name))
  }

  function EntryError(h: Digests, files: Files, e: Entry): Option<ArchiveError> {
    if e.path !in files then Some(NoFile(e.name))
    else if h.content(files[e.path]) != e.digest then Some(ChecksumMismatch(e.name))
    else if |files[e.path]| != e.bytes then Some(SizeMismatch(e.name))
    else None
  }

  function FirstError(h: Digests, files: Files, entries: seq<Entry>): Option<ArchiveError> {
    if entries == [] then None
    else
      var n := |entries| - 1;
      var earlier := FirstError(h, files, entries[..n]);
      if earlier.Some? then earlier else EntryError(h, files, entries[n])
  }

  function IsSourceEntry(): Entry -> bool { (e: Entry) => e.name != Metadata }

  function EntryLines(entries: seq<Entry>): seq<string> {
    seq(|entries|, i requires 0 <= i < |entries| => Line(entries[i].name, entries[i].digest))
  }

  function Verified(h: Digests, le: (string, string) -> bool, files: Files, run: ArchivedRun): Option<ArchiveError> {
    var first := FirstError(h, files, run.artifacts);
    var sources := Bucket(run.artifacts, IsSourceEntry(), true);
    if first.Some? then first
    else if |sources| != 3 then Some(MissingSource)
    else if h.text(JoinLines(EntryLines(Sort(ByName(le), sources)))) != run.sourceHash then Some(SourceHashMismatch)
    else None
  }

  // ------------------------------------------------------------ the methods

  class Store {
    const h: Digests
    var files: Files

    constructor (h: Digests, files: Files)
      ensures this.h == h && this.files == files
    {
      this.h, this.files := h, files;
    }

    method ArchiveRun(artifacts: seq<Artifact>) returns (r: Result<ArchivedRun, ArchiveError>)
      modifies this`files
      ensures (files, r) == Archived(h, old(files), artifacts)
    {
      var check := CheckArtifacts(artifacts);
      if check.Some? {
        return Err(check.value);
      }
      var hash := SourceHash(h, artifacts);
      var result: seq<Entry> := [];
      for k := 0 to |artifacts|
        invariant PlaceAll(h, old(files), hash, artifacts[..k]) == (files, Ok(result))
      {
        assert artifacts[..k + 1][..k] == artifacts[..k];
        var a := artifacts[k];
        var digest := h.content(a.content);
        var destination := (hash, FileName(a.name));
        if destination in files {
          if h.content(files[destination]) != digest {
            if a.name != Metadata {
              PlaceAllStops(h, old(files), hash, artifacts, k + 1);
              return Err(Conflict(a.name));
            }
            destination := (hash, Versioned(digest));
            if destination in files {
              if h.content(files[destination]) != digest {
                PlaceAllStops(h, old(files), hash, artifacts, k + 1);
                return Err(ConflictingMetadata);
              }
            } else {
              files := files[destination := a.content];
            }
          }
        } else {
          files := files[destination := a.content];
        }
        result := result + [Entry(a.name, destination, digest, |a.content|)];
      }
      assert artifacts[..|artifacts|] == artifacts;
      return Ok(ArchivedRun(hash, result));
    }

    method VerifyArchive(le: (string, string) -> bool, run: ArchivedRun) returns (e: Option<ArchiveError>)
      ensures e == Verified(h, le, files, run)
    {
      var sources: seq<Entry> := [];
      for k := 0 to |run.artifacts|
        invariant FirstError(h, files, run.artifacts[..k]).None?
        invariant sources == Bucket(run.artifacts[..k], IsSourceEntry(), true)
      {
        assert run.artifacts[..k + 1][..k] == run.artifacts[..k];
        var entry := run.artifacts[k];
        if entry.path !in files {
          FirstErrorStays(h, files, run.artifacts, k + 1);
          return Some(NoFile(entry.name));
        }
        if h.content(files[entry.path]) != entry.digest {
          FirstErrorStays(h, files, run.artifacts, k + 1);
          return Some(ChecksumMismatch(entry.name));
        }
        if |files[entry.path]| != entry.bytes {
          FirstErrorStays(h, files, run.artifacts, k + 1);
          return Some(SizeMismatch(entry.name));
        }
        if entry.name != Metadata {
          sources := sources + [entry];
        }
      }
      assert run.artifacts[..|run.artifacts|] == run.artifacts;
      if |sources| != 3 {
        return Some(MissingSource);
      }
      if h.text(JoinLines(EntryLines(Sort(ByName(le), sources)))) != run.sourceHash {
        return Some(SourceHashMismatch);
      }
      return None;
    }
  }

  lemma {:induction false} PlaceAllStops(h: Digests, files: Files, dir: string, artifacts: seq<Artifact>, k: nat)
    requires k <= |artifacts| && PlaceAll(h, files, dir, artifacts[..k]).1.Err?
    ensures PlaceAll(h, files, dir, artifacts) == PlaceAll(h, files, dir, artifacts[..k])
  {
    if k == |artifacts| {
      assert artifacts[..k] == artifacts;
    } else {
      var n := |artifacts| - 1;
      assert artifacts[..n][..k] == artifacts[..k];
      PlaceAllStops(h, files, dir, artifacts[..n], k);
    }
  }

  lemma {:induction false} FirstErrorStays(h: Digests, files: Files, entries: seq<Entry>, k: nat)
    requires k <= |entries| && FirstError(h, files, entries[..k]).Some?
    ensures FirstError(h, files, entries) == FirstError(h, files, entries[..k])
  {
    if k == |entries| {
      assert entries[..k] == entries;
    } else {
      var n := |entries| - 1;
      assert entries[..n][..k] == entries[..k];
      FirstErrorStays(h, files, entries[..n], k);
    }
  }
}
