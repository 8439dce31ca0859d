/**
 * What verification rejects, and why archiving never conflicts: an accepted archive's files, read
 * back, hash to its name, and a directory named by a source hash only ever holds those sources.
 */
module ArchiveIntegrity {
  import opened Common
  import opened Sorting
  import opened Grouping
  import opened TextOrder
  import opened Archive
  import opened ArchiveTheorems

  // ------------------------------------------------------------ verification

  lemma {:induction false} NoFirstErrorExactly(h: Digests, files: Files, entries: seq<Entry>)
    ensures FirstError(h, files, entries).None? <==>
      forall k :: 0 <= k < |entries| ==> EntryError(h, files, entries[k]).None?
  {
    if entries != [] {
      var n := |entries| - 1;
      NoFirstErrorExactly(h, files, entries[..n]);
      assert forall k :: 0 <= k < n ==> entries[..n][k] == entries[k];
      hide EntryError;
    }
  }

  predicate Recorded(entries: seq<Entry>, n: Name) { exists i :: 0 <= i < |entries| && entries[i].name == n }

  /** Three entries of distinct names, none the metadata, are the three sources. */
  lemma ThreeNamesAreAll(sources: seq<Entry>)
    requires DistinctEntries(sources) && |sources| == 3 && forall k :: 0 <= k < 3 ==> sources[k].name != Metadata
    ensures Recorded(sources, Input) && Recorded(sources, Output) && Recorded(sources, Log)
  {
    var a, b, c := sources[0], sources[1], sources[2];
    assert a.name != b.name && a.name != c.name && b.name != c.name;
    forall n: Name | n != Metadata ensures Recorded(sources, n) {
      assert n == a.name || n == b.name || n == c.name;
    }
  }

  /** Entries of distinct names include three sources exactly when each of the three is there. */
  lemma ThreeSourcesExactly(le: (string, string) -> bool, entries: seq<Entry>)
    requires TotalOrder(le) && NamesInOrder(le) && DistinctEntries(entries)
    ensures |Bucket(entries, IsSourceEntry(), true)| == 3 <==>
      Recorded(entries, Input) && Recorded(entries, Output) && Recorded(entries, Log)
  {
    var sources := Bucket(entries, IsSourceEntry(), true);
    if Recorded(entries, Input) && Recorded(entries, Output) && Recorded(entries, Log) {
      var i :| 0 <= i < |entries| && entries[i].name == Input;
      var o :| 0 <= o < |entries| && entries[o].name == Output;
      var l :| 0 <= l < |entries| && entries[l].name == Log;
      SourceEntriesSorted(le, entries, i, o, l);
    }
    if |sources| == 3 {
      BucketHolds(entries, IsSourceEntry(), true);
      DistinctSourceEntries(entries);
      hide Bucket;
      forall k | 0 <= k < |sources| ensures sources[k].name != Metadata && sources[k] in entries {
        assert sources[k] in sources;
      }
      ThreeNamesAreAll(sources);
    }
  }

  /** The artifacts that the files of an archive hold. */
  function ReadBack(files: Files, entries: seq<Entry>): seq<Artifact>
    requires forall k :: 0 <= k < |entries| ==> entries[k].path in files
  {
    seq(|entries|, i requires 0 <= i < |entries| => Artifact(entries[i].name, files[entries[i].path]))
  }

  /**
   * Verification accepts exactly the archives whose recorded files all exist with their digest and
   * size, include the three sources, and, read back, hash to the recorded source hash.
   */
  lemma VerificationAcceptsExactly(h: Digests, le: (string, string) -> bool, files: Files, run: ArchivedRun)
    requires TotalOrder(le) && NamesInOrder(le) && DistinctEntries(run.artifacts)
    ensures Verified(h, le, files, run).None? <==>
      && (forall k :: 0 <= k < |run.artifacts| ==> EntryError(h, files, run.artifacts[k]).None?)
      && Recorded(run.artifacts, Input) && Recorded(run.artifacts, Output) && Recorded(run.artifacts, Log)
      && SourceHash(h, ReadBack(files, run.artifacts)) == run.sourceHash
  {
    var entries := run.artifacts;
    NoFirstErrorExactly(h, files, entries);
    ThreeSourcesExactly(le, entries);
    if FirstError(h, files, entries).None? && |Bucket(entries, IsSourceEntry(), true)| == 3 {
      SameHashReadBack(h, le, files, entries);
      hide EntryError, FirstError, Sort, Bucket, JoinLines, EntryLines, SourceHash, ReadBack;
    }
  }

  lemma {:induction false} SameHashReadBack(h: Digests, le: (string, string) -> bool, files: Files, entries: seq<Entry>)
    requires TotalOrder(le) && NamesInOrder(le) && DistinctEntries(entries)
    requires forall k :: 0 <= k < |entries| ==> entries[k].path in files && EntryError(h, files, entries[k]).None?
    requires Recorded(entries, Input) && Recorded(entries, Output) && Recorded(entries, Log)
    ensures h.text(JoinLines(EntryLines(Sort(ByName(le), Bucket(entries, IsSourceEntry(), true)))))
      == SourceHash(h, ReadBack(files, entries))
  {
    var i :| 0 <= i < |entries| && entries[i].name == Input;
    var o :| 0 <= o < |entries| && entries[o].name == Output;
    var l :| 0 <= l < |entries| && entries[l].name == Log;
    assert EntryError(h, files, entries[i]).None? && EntryError(h, files, entries[o]).None?
      && EntryError(h, files, entries[l]).None?;
    var back := ReadBack(files, entries);
    assert DistinctNames(back);
    hide JoinLines, Sort, Bucket, SourceLines, Line;
    SourceEntriesSorted(le, entries, i, o, l);
    LinesOfEntries(entries[i], entries[o], entries[l]);
    SourceLinesSorted(h, back, i, o, l);
  }

  /** A file of a verified archive that is removed or changed is noticed. */
  lemma TamperingIsFound(
      h: Digests, le: (string, string) -> bool, files: Files, changed: Files, run: ArchivedRun, k: nat)
    requires CollisionFree(h) && Verified(h, le, files, run).None? && k < |run.artifacts|
    requires var p := run.artifacts[k].path; p in files ==> p !in changed || changed[p] != files[p]
    ensures Verified(h, le, changed, run).Some?
  {
    NoFirstErrorExactly(h, files, run.artifacts);
    NoFirstErrorExactly(h, changed, run.artifacts);
    assert EntryError(h, files, run.artifacts[k]).None?;
    assert EntryError(h, changed, run.artifacts[k]).Some?;
  }

  // ------------------------------------------------------------ no conflict

  /** Digests of bytes on one line, as hexadecimal ones are, and no collisions, of bytes or of text. */
  ghost predicate StrongDigests(h: Digests) {
    && CollisionFree(h)
    && (forall a :: '\n' !in h.content(a))
    && (forall s, t :: h.text(s) == h.text(t) ==> s == t)
  }

  /** The directory of a run with these three sources. */
  function DirOf(h: Digests, i: Bytes, o: Bytes, l: Bytes): string {
    h.text(JoinLines(ThreeLines(h.content(i), h.content(o), h.content(l))))
  }

  function SourceOf(n: Name, i: Bytes, o: Bytes, l: Bytes): Bytes {
    match n case Input => i case Output => o case Log => l case Metadata => []
  }

  lemma Joined(i: string, o: string, l: string)
    ensures JoinLines(ThreeLines(i, o, l)) == Line(Input, i) + "\n" + (Line(Output, o) + "\n" + Line(Log, l))
  {
    var lines := ThreeLines(i, o, l);
    assert lines[1..] == [lines[1], lines[2]] && lines[1..][1..] == [lines[2]];
    assert JoinLines([lines[2]]) == lines[2];
    assert JoinLines(lines[1..]) == lines[1] + "\n" + lines[2];
    assert JoinLines(lines) == lines[0] + "\n" + (lines[1] + "\n" + lines[2]);
  }

  /** Cutting at the first separator: what comes before it and after it is determined. */
  lemma CutAtSeparator(c: char, a: string, x: string, b: string, y: string)
    requires c !in a && c !in b && a + [c] + x == b + [c] + y
    ensures a == b && x == y
  {
    var s := a + [c] + x;
    assert s[|a|] == c && s[|b|] == c;
    assert forall i :: 0 <= i < |a| ==> s[i] == a[i];
    assert forall i :: 0 <= i < |b| ==> s[i] == b[i];
    assert |a| == |b|;
    assert a == s[..|a|] && b == s[..|b|];
    assert x == s[|a| + 1..] && y == s[|b| + 1..];
  }

  lemma LineOnOneLine(n: Name, digest: string)
    requires '\n' !in digest
    ensures '\n' !in Line(n, digest)
  {
    assert forall i :: 0 <= i < |FileName(n)| ==> FileName(n)[i] != '\n';
  }

  lemma SameLineSameDigest(n: Name, a: string, b: string)
    requires Line(n, a) == Line(n, b)
    ensures a == b
  {
    assert a == Line(n, a)[|FileName(n)| + 1..] && b == Line(n, b)[|FileName(n)| + 1..];
  }

  lemma SameJoinedSameLines(i: string, o: string, l: string, p: string, q: string, r: string)
    requires '\n' !in i && '\n' !in o && '\n' !in p && '\n' !in q
    requires JoinLines(ThreeLines(i, o, l)) == JoinLines(ThreeLines(p, q, r))
    ensures i == p && o == q && l == r
  {
    Joined(i, o, l);
    Joined(p, q, r);
    LineOnOneLine(Input, i);
    LineOnOneLine(Input, p);
    LineOnOneLine(Output, o);
    LineOnOneLine(Output, q);
    hide JoinLines, ThreeLines, Line;
    var x, y := Line(Output, o) + "\n" + Line(Log, l), Line(Output, q) + "\n" + Line(Log, r);
    CutAtSeparator('\n', Line(Input, i), x, Line(Input, p), y);
    CutAtSeparator('\n', Line(Output, o), Line(Log, l), Line(Output, q), Line(Log, r));
    SameLineSameDigest(Input, i, p);
    SameLineSameDigest(Output, o, q);
    SameLineSameDigest(Log, l, r);
  }

  /** A directory determines the sources that belong in it. */
  lemma DirDetermines(h: Digests, i: Bytes, o: Bytes, l: Bytes, p: Bytes, q: Bytes, r: Bytes)
    requires StrongDigests(h) && DirOf(h, i, o, l) == DirOf(h, p, q, r)
    ensures i == p && o == q && l == r
  {
    hide JoinLines, ThreeLines;
    SameJoinedSameLines(h.content(i), h.content(o), h.content(l), h.content(p), h.content(q), h.content(r));
  }

  ghost predicate AtHome(h: Digests, dir: string, n: Name, content: Bytes) {
    exists i, o, l :: dir == DirOf(h, i, o, l) && content == SourceOf(n, i, o, l)
  }

  /** A source file is in the directory of its run, and a versioned record has the digest of its name. */
  ghost predicate FileOk(h: Digests, p: Path, content: Bytes) {
    && (forall n: Name :: n != Metadata && p.1 == FileName(n) ==> AtHome(h, p.0, n, content))
    && (forall d :: p.1 == Versioned(d) ==> h.content(content) == d)
  }

  ghost predicate Orderly(h: Digests, files: Files) { forall p :: p in files ==> FileOk(h, p, files[p]) }

  lemma VersionedUnique(d: string, e: string)
    requires Versioned(d) == Versioned(e)
    ensures d == e
  {
    assert d == Versioned(d)[9..|Versioned(d)| - 5] && e == Versioned(e)[9..|Versioned(e)| - 5];
  }

  /** A file as `archiveRun` writes it. */
  lemma WrittenFileOk(h: Digests, dir: string, a: Artifact, versioned: bool)
    requires a.name != Metadata ==> !versioned && AtHome(h, dir, a.name, a.content)
    ensures FileOk(h, (dir, if versioned then Versioned(h.content(a.content)) else FileName(a.name)), a.content)
  {
    var file := if versioned then Versioned(h.content(a.content)) else FileName(a.name);
    forall n: Name | n != Metadata && file == FileName(n) ensures AtHome(h, dir, n, a.content) {
      if n != a.name {
        NamesDiffer(a.name, n, h.content(a.content));
        NamesDiffer(n, a.name, h.content(a.content));
      }
    }
    forall d | file == Versioned(d) ensures h.content(a.content) == d {
      VersionedNoPlain(a.name, d);
      if versioned {
        VersionedUnique(d, h.content(a.content));
      }
    }
  }

  lemma VersionedNoPlain(n: Name, d: string)
    ensures FileName(n) != Versioned(d)
  {
    if n == Metadata {
      assert FileName(n)[8] == '.' && Versioned(d)[8] == '-';
    } else {
      NamesDiffer(n, Metadata, d);
      assert FileName(n)[0] != 'm' && Versioned(d)[0] == 'm';
    }
  }

  lemma PlaceKeepsOrder(h: Digests, files: Files, dir: string, a: Artifact)
    requires Orderly(h, files) && Place(h, files, dir, a).Ok?
    requires a.name != Metadata ==> AtHome(h, dir, a.name, a.content)
    ensures Orderly(h, Place(h, files, dir, a).value.0)
  {
    WrittenFileOk(h, dir, a, false);
    if a.name == Metadata {
      WrittenFileOk(h, dir, a, true);
    }
    hide FileOk, FileName, Versioned;
  }

  lemma {:induction false} PlaceAllKeepsOrder(h: Digests, files: Files, dir: string, artifacts: seq<Artifact>)
    requires Orderly(h, files)
    requires forall a :: a in artifacts && a.name != Metadata ==> AtHome(h, dir, a.name, a.content)
    ensures Orderly(h, PlaceAll(h, files, dir, artifacts).0)
  {
    hide Orderly, Place, AtHome;
    if artifacts != [] {
      var n := |artifacts| - 1;
      PlaceAllKeepsOrder(h, files, dir, artifacts[..n]);
      var (before, entries) := PlaceAll(h, files, dir, artifacts[..n]);
      assert artifacts[n] in artifacts;
      if Place(h, before, dir, artifacts[n]).Ok? {
        PlaceKeepsOrder(h, before, dir, artifacts[n]);
      }
    }
  }

  /** The sources of a call belong in the directory it writes to. */
  lemma CallIsAtHome(h: Digests, artifacts: seq<Artifact>) returns (i: Bytes, o: Bytes, l: Bytes)
    requires CheckArtifacts(artifacts).None?
    ensures SourceHash(h, artifacts) == DirOf(h, i, o, l)
    ensures forall a :: a in artifacts && a.name != Metadata ==> a.content == SourceOf(a.name, i, o, l)
    ensures forall a :: a in artifacts && a.name != Metadata ==> AtHome(h, SourceHash(h, artifacts), a.name, a.content)
  {
    var x :| 0 <= x < |artifacts| && artifacts[x].name == Input;
    var y :| 0 <= y < |artifacts| && artifacts[y].name == Output;
    var z :| 0 <= z < |artifacts| && artifacts[z].name == Log;
    i, o, l := artifacts[x].content, artifacts[y].content, artifacts[z].content;
    hide JoinLines, Sort, SourceLines, ThreeLines;
    SourceLinesSorted(h, artifacts, x, y, z);
    forall a | a in artifacts && a.name != Metadata ensures a.content == SourceOf(a.name, i, o, l) {
      var k :| 0 <= k < |artifacts| && artifacts[k] == a;
      assert k == x || k == y || k == z;
    }
  }

  lemma ArchivedKeepsOrder(h: Digests, files: Files, artifacts: seq<Artifact>)
    requires Orderly(h, files)
    ensures Orderly(h, Archived(h, files, artifacts).0)
  {
    if CheckArtifacts(artifacts).None? {
      var i, o, l := CallIsAtHome(h, artifacts);
      PlaceAllKeepsOrder(h, files, SourceHash(h, artifacts), artifacts);
    }
  }

  lemma {:induction false} CallsKeepOrder(h: Digests, files: Files, calls: seq<seq<Artifact>>)
    requires Orderly(h, files)
    ensures Orderly(h, Calls(h, files, calls).0)
  {
    if calls != [] {
      var n := |calls| - 1;
      CallsKeepOrder(h, files, calls[..n]);
      ArchivedKeepsOrder(h, Calls(h, files, calls[..n]).0, calls[n]);
      hide Orderly, Archived;
    }
  }

  lemma NothingInTheWay(h: Digests, files: Files, artifacts: seq<Artifact>, k: nat)
    requires StrongDigests(h) && Orderly(h, files) && CheckArtifacts(artifacts).None? && k < |artifacts|
    ensures CanPlace(h, files, SourceHash(h, artifacts), artifacts[k])
  {
    var i, o, l := CallIsAtHome(h, artifacts);
    var a, dir := artifacts[k], SourceHash(h, artifacts);
    var plain, versioned := (dir, FileName(a.name)), (dir, Versioned(h.content(a.content)));
    assert a in artifacts;
    hide SourceHash, DirOf, CheckArtifacts;
    if a.name == Metadata {
      assert versioned in files ==> FileOk(h, versioned, files[versioned]);
    } else if plain in files {
      assert FileOk(h, plain, files[plain]);
      var p, q, r :| dir == DirOf(h, p, q, r) && files[plain] == SourceOf(a.name, p, q, r);
      DirDetermines(h, i, o, l, p, q, r);
    }
  }

  /**
   * In an archive that began empty, whatever was archived since, a call succeeds exactly when its
   * artifacts are complete and distinct: it never meets a conflicting file.
   */
  lemma ArchivingNeverConflicts(h: Digests, calls: seq<seq<Artifact>>, artifacts: seq<Artifact>)
    requires StrongDigests(h)
    ensures Archived(h, Calls(h, map[], calls).0, artifacts).1.Ok? <==> CheckArtifacts(artifacts).None?
  {
    var files := Calls(h, map[], calls).0;
    CallsKeepOrder(h, map[], calls);
    ArchiveSucceedsExactly(h, files, artifacts);
    if CheckArtifacts(artifacts).None? {
      forall k | 0 <= k < |artifacts| ensures CanPlace(h, files, SourceHash(h, artifacts), artifacts[k]) {
        NothingInTheWay(h, files, artifacts, k);
      }
    }
  }

  // ---------------------------------------------- such digests are possible

  /** A number as a sign, as many ones, and a stop. */
  function Spelled(n: int): string { [if n < 0 then '-' else '+'] + seq(if n < 0 then -n else n, _ => '1') }

  function Spell(b: Bytes): string {
    if b == [] then "" else Spelled(b[0]) + ";" + Spell(b[1..])
  }

  lemma {:induction false} SpellUnique(a: Bytes, b: Bytes)
    requires Spell(a) == Spell(b)
    ensures a == b
  {
    if a != [] && b != [] {
      CutAtSeparator(';', Spelled(a[0]), Spell(a[1..]), Spelled(b[0]), Spell(b[1..]));
      assert Spelled(a[0])[0] == Spelled(b[0])[0] && |Spelled(a[0])| == |Spelled(b[0])|;
      SpellUnique(a[1..], b[1..]);
      assert a == [a[0]] + a[1..] && b == [b[0]] + b[1..];
    }
  }

  lemma {:induction false} SpellOnOneLine(b: Bytes)
    ensures '\n' !in Spell(b)
  {
    if b != [] {
      SpellOnOneLine(b[1..]);
    }
  }

  function Plain(): Digests { Digests(b => Spell(b), s => s) }

  /** What is asked of digests can be met. */
  lemma StrongDigestsExist()
    ensures StrongDigests(Plain())
  {
    var h := Plain();
    forall a, b | h.content(a) == h.content(b) ensures a == b {
      SpellUnique(a, b);
    }
    forall a ensures '\n' !in h.content(a) {
      SpellOnOneLine(a);
    }
  }
}
