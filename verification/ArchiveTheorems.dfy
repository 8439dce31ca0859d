/**
 * What any sequence of archive calls keeps: files are only added, and every archive that was
 * returned still passes verification, although the two sides sort the sources differently.
 */
module ArchiveTheorems {
  import opened Common
  import opened Sorting
  import opened Grouping
  import opened TextOrder
  import opened Archive

  /** No file of `f` is missing or different in `g`. */
  ghost predicate Kept(f: Files, g: Files) { forall p :: p in f ==> p in g && g[p] == f[p] }

  /** The entry describes the artifact, and the file it names has the recorded digest. */
  predicate Fits(h: Digests, files: Files, e: Entry, a: Artifact) {
    && e.name == a.name && e.digest == h.content(a.content) && e.bytes == |a.content|
    && e.path in files && h.content(files[e.path]) == e.digest
  }

  ghost predicate AllFit(h: Digests, files: Files, entries: seq<Entry>, artifacts: seq<Artifact>) {
    |entries| == |artifacts| && forall i :: 0 <= i < |entries| ==> Fits(h, files, entries[i], artifacts[i])
  }

  lemma PlaceKeeps(h: Digests, files: Files, dir: string, a: Artifact)
    requires Place(h, files, dir, a).Ok?
    ensures var (after, e) := Place(h, files, dir, a).value; Kept(files, after) && Fits(h, after, e, a)
  {
  }

  lemma KeptFurther(f: Files, g: Files, k: Files)
    requires Kept(f, g) && Kept(g, k)
    ensures Kept(f, k)
  {
  }

  lemma OneMoreFits(
      h: Digests, before: Files, after: Files, entries: seq<Entry>, artifacts: seq<Artifact>, e: Entry, a: Artifact)
    requires AllFit(h, before, entries, artifacts) && Kept(before, after) && Fits(h, after, e, a)
    ensures AllFit(h, after, entries + [e], artifacts + [a])
  {
  }

  /** Failing or not, placing artifacts changes no file. */
  lemma {:induction false} PlaceAllKeeps(h: Digests, files: Files, dir: string, artifacts: seq<Artifact>)
    ensures var (after, entries) := PlaceAll(h, files, dir, artifacts);
      Kept(files, after) && (entries.Ok? ==> AllFit(h, after, entries.value, artifacts))
  {
    if artifacts != [] {
      var n := |artifacts| - 1;
      var a := artifacts[n];
      PlaceAllKeeps(h, files, dir, artifacts[..n]);
      var (before, entries) := PlaceAll(h, files, dir, artifacts[..n]);
      assert artifacts == artifacts[..n] + [a];
      hide Kept, AllFit, Fits, Place;
      if entries.Ok? && Place(h, before, dir, a).Ok? {
        var (after, e) := Place(h, before, dir, a).value;
        PlaceKeeps(h, before, dir, a);
        KeptFurther(files, before, after);
        OneMoreFits(h, before, after, entries.value, artifacts[..n], e, a);
      }
    }
  }

  /** An archive call changes no existing file, whether it returns or throws. */
  lemma ArchiveOnlyAdds(h: Digests, files: Files, artifacts: seq<Artifact>)
    ensures Kept(files, Archived(h, files, artifacts).0)
  {
    PlaceAllKeeps(h, files, SourceHash(h, artifacts), artifacts);
  }

  // ------------------------------------------------- placing again, exactly

  lemma {:induction false} PlaceAllAgain(h: Digests, files: Files, dir: string, artifacts: seq<Artifact>, later: Files)
    requires var (after, entries) := PlaceAll(h, files, dir, artifacts); entries.Ok? && Kept(after, later)
    ensures PlaceAll(h, later, dir, artifacts) == (later, PlaceAll(h, files, dir, artifacts).1)
  {
    if artifacts != [] {
      var n := |artifacts| - 1;
      var (before, entries) := PlaceAll(h, files, dir, artifacts[..n]);
      PlaceKeeps(h, before, dir, artifacts[n]);
      PlaceAllAgain(h, files, dir, artifacts[..n], later);
    }
  }

  /** Archiving the same run again is harmless: same answer, no file touched. */
  lemma ArchivingAgain(h: Digests, files: Files, artifacts: seq<Artifact>, later: Files)
    requires var (after, r) := Archived(h, files, artifacts); r.Ok? && Kept(after, later)
    ensures Archived(h, later, artifacts) == (later, Archived(h, files, artifacts).1)
  {
    PlaceAllAgain(h, files, SourceHash(h, artifacts), artifacts, later);
  }

  /** Nothing is in the way of this artifact. */
  predicate CanPlace(h: Digests, files: Files, dir: string, a: Artifact) {
    var digest := h.content(a.content);
    var plain, versioned := (dir, FileName(a.name)), (dir, Versioned(digest));
    || plain !in files || h.content(files[plain]) == digest
    || (a.name == Metadata && (versioned !in files || h.content(files[versioned]) == digest))
  }

  lemma NamesDiffer(a: Name, b: Name, digest: string)
    requires a != b
    ensures FileName(a) != FileName(b) && Versioned(digest) != FileName(a)
  {
    assert FileName(a)[0] == match a case Input => 'i' case Output => 'o' case Log => 's' case Metadata => 'm';
    assert FileName(b)[0] == match b case Input => 'i' case Output => 'o' case Log => 's' case Metadata => 'm';
    assert Versioned(digest)[0] == 'm' && Versioned(digest)[8] == '-';
    assert a == Metadata ==> FileName(a)[8] == '.';
  }

  /** Placing one artifact is not in the way of another name. */
  lemma PlacingDoesNotBlock(h: Digests, files: Files, dir: string, a: Artifact, b: Artifact)
    requires Place(h, files, dir, a).Ok? && a.name != b.name
    ensures CanPlace(h, Place(h, files, dir, a).value.0, dir, b) <==> CanPlace(h, files, dir, b)
  {
    NamesDiffer(a.name, b.name, h.content(a.content));
    NamesDiffer(b.name, a.name, h.content(b.content));
    NamesDiffer(a.name, b.name, h.content(b.content));
    NamesDiffer(b.name, a.name, h.content(a.content));
    hide FileName, Versioned;
  }

  lemma {:induction false} PlaceAllExactly(h: Digests, files: Files, dir: string, artifacts: seq<Artifact>)
    requires DistinctNames(artifacts)
    ensures PlaceAll(h, files, dir, artifacts).1.Ok? <==>
      forall i :: 0 <= i < |artifacts| ==> CanPlace(h, files, dir, artifacts[i])
  {
    if artifacts != [] {
      var n := |artifacts| - 1;
      PlaceAllExactly(h, files, dir, artifacts[..n]);
      BlockedAfter(h, files, dir, artifacts[..n], artifacts[n]);
      hide CanPlace;
      var (before, entries) := PlaceAll(h, files, dir, artifacts[..n]);
      assert forall i :: 0 <= i < n ==> artifacts[..n][i] == artifacts[i];
    }
  }

  lemma {:induction false} BlockedAfter(h: Digests, files: Files, dir: string, artifacts: seq<Artifact>, b: Artifact)
    requires forall i :: 0 <= i < |artifacts| ==> artifacts[i].name != b.name
    ensures var (after, entries) := PlaceAll(h, files, dir, artifacts);
      entries.Ok? ==> (CanPlace(h, after, dir, b) <==> CanPlace(h, files, dir, b))
  {
    hide CanPlace;
    if artifacts != [] {
      var n := |artifacts| - 1;
      BlockedAfter(h, files, dir, artifacts[..n], b);
      var (before, entries) := PlaceAll(h, files, dir, artifacts[..n]);
      if entries.Ok? && Place(h, before, dir, artifacts[n]).Ok? {
        PlacingDoesNotBlock(h, before, dir, artifacts[n], b);
      }
    }
  }

  predicate HasNamed(artifacts: seq<Artifact>, n: Name) { exists a :: a in artifacts && a.name == n }

  /** No artifact occurs twice, and no two have one name. */
  ghost predicate OneEach(artifacts: seq<Artifact>) {
    Distinct(artifacts) && forall a, b :: a in artifacts && b in artifacts && a.name == b.name ==> a == b
  }

  lemma SuppliedIs(artifacts: seq<Artifact>, n: Name)
    ensures Supplied(artifacts, n) <==> HasNamed(artifacts, n)
  {
    if HasNamed(artifacts, n) {
      var a :| a in artifacts && a.name == n;
      var i :| 0 <= i < |artifacts| && artifacts[i] == a;
    }
  }

  lemma NamesDistinctExactly(artifacts: seq<Artifact>)
    ensures DistinctNames(artifacts) <==> OneEach(artifacts)
  {
    if DistinctNames(artifacts) {
      forall a, b | a in artifacts && b in artifacts && a.name == b.name ensures a == b {
        var i :| 0 <= i < |artifacts| && artifacts[i] == a;
        var j :| 0 <= j < |artifacts| && artifacts[j] == b;
      }
    }
  }

  /**
   * A call succeeds exactly on three sources and at most one metadata record that meet no different
   * file of their name.
   */
  lemma ArchiveSucceedsExactly(h: Digests, files: Files, artifacts: seq<Artifact>)
    ensures Archived(h, files, artifacts).1.Ok? <==>
      && OneEach(artifacts)
      && HasNamed(artifacts, Input) && HasNamed(artifacts, Output) && HasNamed(artifacts, Log)
      && forall i :: 0 <= i < |artifacts| ==> CanPlace(h, files, SourceHash(h, artifacts), artifacts[i])
  {
    NamesDistinctExactly(artifacts);
    forall n ensures Supplied(artifacts, n) <==> HasNamed(artifacts, n) { SuppliedIs(artifacts, n); }
    hide Supplied, HasNamed, CanPlace, PlaceAll;
    if DistinctNames(artifacts) {
      PlaceAllExactly(h, files, SourceHash(h, artifacts), artifacts);
    }
  }

  /**
   * What is wrong with artifacts that are refused at once: a name twice, or else the first of
   * input, output and log that is not there. Nothing is written then.
   */
  lemma RefusedAtOnce(h: Digests, files: Files, artifacts: seq<Artifact>)
    ensures var (after, r) := Archived(h, files, artifacts);
      if !OneEach(artifacts) then after == files && r == Err(Duplicate)
      else if !HasNamed(artifacts, Input) then after == files && r == Err(Missing(Input))
      else if !HasNamed(artifacts, Output) then after == files && r == Err(Missing(Output))
      else if !HasNamed(artifacts, Log) then after == files && r == Err(Missing(Log))
      else r.Err? ==> r.error.Conflict? || r.error.ConflictingMetadata?
  {
    NamesDistinctExactly(artifacts);
    forall n ensures Supplied(artifacts, n) <==> HasNamed(artifacts, n) { SuppliedIs(artifacts, n); }
    PlaceErrors(h, files, SourceHash(h, artifacts), artifacts);
    hide Supplied, HasNamed, Place, PlaceAll, SourceHash;
  }

  lemma {:induction false} PlaceErrors(h: Digests, files: Files, dir: string, artifacts: seq<Artifact>)
    ensures var r := PlaceAll(h, files, dir, artifacts).1; r.Err? ==> r.error.Conflict? || r.error.ConflictingMetadata?
  {
    if artifacts != [] {
      PlaceErrors(h, files, dir, artifacts[..|artifacts| - 1]);
    }
  }

  // -------------------------------------------- two sorts, one source hash

  /** The comparator orders the three source names as code units do. */
  predicate NamesInOrder(le: (string, string) -> bool) {
    && le(FileName(Input), FileName(Output)) && le(FileName(Output), FileName(Log))
      && le(FileName(Input), FileName(Log))
  }

  function ThreeLines(input: string, output: string, log: string): seq<string> {
    [Line(Input, input), Line(Output, output), Line(Log, log)]
  }

  lemma LineHead(n: Name, digest: string)
    ensures Line(n, digest) != ""
    ensures Line(n, digest)[0] == match n case Input => 'i' case Output => 'o' case Log => 's' case Metadata => 'm'
  {
  }

  lemma ThreeLinesSorted(input: string, output: string, log: string)
    ensures Sorted(LexLe(), ThreeLines(input, output, log)) && Distinct(ThreeLines(input, output, log))
  {
    LineHead(Input, input);
    LineHead(Output, output);
    LineHead(Log, log);
    var lines := ThreeLines(input, output, log);
    forall i, j | 0 <= i < j < 3 ensures LexLe()(lines[i], lines[j]) && lines[i] != lines[j] {
    }
  }

  lemma {:induction false} DistinctSources(artifacts: seq<Artifact>)
    requires DistinctNames(artifacts)
    ensures DistinctNames(Bucket(artifacts, IsSource(), true))
  {
    if artifacts != [] {
      var n := |artifacts| - 1;
      DistinctSources(artifacts[..n]);
      BucketHolds(artifacts[..n], IsSource(), true);
      var rest := Bucket(artifacts[..n], IsSource(), true);
      forall i | 0 <= i < |rest| ensures rest[i].name != artifacts[n].name {
        assert rest[i] in artifacts[..n];
      }
    }
  }

  /** Sorted by code units, the source lines come in one fixed order. */
  lemma SourceLinesSorted(h: Digests, artifacts: seq<Artifact>, i: nat, o: nat, l: nat)
    requires DistinctNames(artifacts) && i < |artifacts| && o < |artifacts| && l < |artifacts|
    requires artifacts[i].name == Input && artifacts[o].name == Output && artifacts[l].name == Log
    ensures Sort(LexLe(), SourceLines(h, artifacts))
      == ThreeLines(h.content(artifacts[i].content), h.content(artifacts[o].content), h.content(artifacts[l].content))
  {
    var sources := Bucket(artifacts, IsSource(), true);
    var lines := SourceLines(h, artifacts);
    var three := ThreeLines(h.content(artifacts[i].content), h.content(artifacts[o].content),
      h.content(artifacts[l].content));
    BucketHolds(artifacts, IsSource(), true);
    DistinctSources(artifacts);
    forall p, q | 0 <= p < q < |lines| ensures lines[p] != lines[q] {
      LineHead(sources[p].name, h.content(sources[p].content));
      LineHead(sources[q].name, h.content(sources[q].content));
    }
    forall x ensures x in lines <==> x in three {
      LinesAreThree(h, artifacts, sources, i, o, l, x);
    }
    LexLeTotalOrder();
    SortSorted(LexLe(), lines);
    SortPermutes(LexLe(), lines);
    DistinctPermutation(lines, Sort(LexLe(), lines));
    ThreeLinesSorted(h.content(artifacts[i].content), h.content(artifacts[o].content), h.content(artifacts[l].content));
    hide LexLess, Line, Bucket, Sort;
    SortedSameMembers(LexLe(), Sort(LexLe(), lines), three);
  }

  lemma LinesAreThree(h: Digests, artifacts: seq<Artifact>, sources: seq<Artifact>, i: nat, o: nat, l: nat, x: string)
    requires DistinctNames(artifacts) && i < |artifacts| && o < |artifacts| && l < |artifacts|
    requires artifacts[i].name == Input && artifacts[o].name == Output && artifacts[l].name == Log
    requires sources == Bucket(artifacts, IsSource(), true)
    requires forall a :: a in sources <==> a in artifacts && a.name != Metadata
    ensures x in SourceLines(h, artifacts)
      <==> x in ThreeLines(h.content(artifacts[i].content), h.content(artifacts[o].content),
        h.content(artifacts[l].content))
  {
    hide Line, Bucket;
    var lines := SourceLines(h, artifacts);
    if x in lines {
      var k :| 0 <= k < |sources| && lines[k] == x;
      assert sources[k] in artifacts;
      var j :| 0 <= j < |artifacts| && artifacts[j] == sources[k];
      assert j == i || j == o || j == l;
    }
    forall j | j == i || j == o || j == l ensures Line(artifacts[j].name, h.content(artifacts[j].content)) in lines {
      assert artifacts[j] in sources;
      var k :| 0 <= k < |sources| && sources[k] == artifacts[j];
      assert lines[k] == Line(artifacts[j].name, h.content(artifacts[j].content));
    }
  }

  ghost predicate DistinctEntries(entries: seq<Entry>) {
    forall i, j :: 0 <= i < j < |entries| ==> entries[i].name != entries[j].name
  }

  lemma {:induction false} DistinctSourceEntries(entries: seq<Entry>)
    requires DistinctEntries(entries)
    ensures DistinctEntries(Bucket(entries, IsSourceEntry(), true))
  {
    if entries != [] {
      var n := |entries| - 1;
      DistinctSourceEntries(entries[..n]);
      BucketHolds(entries[..n], IsSourceEntry(), true);
      var rest := Bucket(entries[..n], IsSourceEntry(), true);
      forall i | 0 <= i < |rest| ensures rest[i].name != entries[n].name {
        assert rest[i] in entries[..n];
      }
    }
  }

  /** Sorted by the comparator on names, the three source entries come in the same order. */
  lemma SourceEntriesSorted(le: (string, string) -> bool, entries: seq<Entry>, i: nat, o: nat, l: nat)
    requires TotalOrder(le) && NamesInOrder(le) && DistinctEntries(entries) && i < |entries| && o < |entries|
    requires l < |entries|
    requires entries[i].name == Input && entries[o].name == Output && entries[l].name == Log
    ensures Sort(ByName(le), Bucket(entries, IsSourceEntry(), true)) == [entries[i], entries[o], entries[l]]
    ensures |Bucket(entries, IsSourceEntry(), true)| == 3
  {
    var sources := Bucket(entries, IsSourceEntry(), true);
    var sorted, three := Sort(ByName(le), sources), [entries[i], entries[o], entries[l]];
    BucketHolds(entries, IsSourceEntry(), true);
    DistinctSourceEntries(entries);
    ThreeEntriesSorted(le, entries[i], entries[o], entries[l]);
    hide FileName, Bucket, Sort, ByName;
    ByNamePreorder(le);
    SortSorted(ByName(le), sources);
    SortPermutes(ByName(le), sources);
    DistinctPermutation(sources, sorted);
    forall x: Entry ensures x in sources <==> x in three {
      EntriesAreThree(entries, i, o, l, x);
    }
    forall x, y | x in sources && y in sources && ByName(le)(x, y) && ByName(le)(y, x) ensures x == y {
      SameNameSameEntry(le, sources, x, y);
    }
    SortedSameMembers(ByName(le), sorted, three);
  }

  lemma ThreeEntriesSorted(le: (string, string) -> bool, i: Entry, o: Entry, l: Entry)
    requires NamesInOrder(le) && i.name == Input && o.name == Output && l.name == Log
    ensures Sorted(ByName(le), [i, o, l]) && Distinct([i, o, l])
  {
    var three := [i, o, l];
    forall p, q | 0 <= p < q < 3 ensures ByName(le)(three[p], three[q]) && three[p] != three[q] {
    }
  }

  lemma ByNamePreorder(le: (string, string) -> bool)
    requires TotalOrder(le)
    ensures TotalPreorder(ByName(le))
  {
    hide FileName;
    var f := ByName(le);
    forall x: Entry, y: Entry ensures f(x, y) || f(y, x) {
      assert le(FileName(x.name), FileName(y.name)) || le(FileName(y.name), FileName(x.name));
    }
    forall x: Entry, y: Entry, z: Entry ensures f(x, y) && f(y, z) ==> f(x, z) {
      assert le(FileName(x.name), FileName(y.name)) && le(FileName(y.name), FileName(z.name)) ==>
        le(FileName(x.name), FileName(z.name));
    }
  }

  lemma SameNameSameEntry(le: (string, string) -> bool, sources: seq<Entry>, x: Entry, y: Entry)
    requires TotalOrder(le) && DistinctEntries(sources) && x in sources && y in sources
    requires ByName(le)(x, y) && ByName(le)(y, x)
    ensures x == y
  {
    if x.name != y.name {
      NamesDiffer(x.name, y.name, "");
    }
  }

  lemma EntriesAreThree(entries: seq<Entry>, i: nat, o: nat, l: nat, x: Entry)
    requires DistinctEntries(entries) && i < |entries| && o < |entries| && l < |entries|
    requires entries[i].name == Input && entries[o].name == Output && entries[l].name == Log
    ensures x in entries && x.name != Metadata <==> x in [entries[i], entries[o], entries[l]]
  {
    if x in entries && x.name != Metadata {
      var j :| 0 <= j < |entries| && entries[j] == x;
      assert j == i || j == o || j == l;
    }
  }

  // ------------------------------------------------------------- whole runs

  lemma {:induction false} NoFirstError(h: Digests, files: Files, entries: seq<Entry>)
    requires forall i :: 0 <= i < |entries| ==> EntryError(h, files, entries[i]).None?
    ensures FirstError(h, files, entries).None?
  {
    if entries != [] {
      NoFirstError(h, files, entries[..|entries| - 1]);
    }
  }

  /** A returned archive passes verification now and as long as no file is changed. */
  lemma ReturnedArchiveVerifies(
      h: Digests, le: (string, string) -> bool, files: Files, artifacts: seq<Artifact>, later: Files)
    requires CollisionFree(h) && TotalOrder(le) && NamesInOrder(le)
    requires Archived(h, files, artifacts).1.Ok? && Kept(Archived(h, files, artifacts).0, later)
    ensures Verified(h, le, later, Archived(h, files, artifacts).1.value).None?
  {
    PlaceAllKeeps(h, files, SourceHash(h, artifacts), artifacts);
    var (after, r) := Archived(h, files, artifacts);
    FittingEntriesVerify(h, le, after, r.value.artifacts, artifacts, later);
  }

  lemma FittingEntriesOk(h: Digests, after: Files, entries: seq<Entry>, artifacts: seq<Artifact>, later: Files)
    requires CollisionFree(h) && AllFit(h, after, entries, artifacts) && Kept(after, later)
    ensures FirstError(h, later, entries).None?
    ensures forall i :: 0 <= i < |entries| ==>
      entries[i].name == artifacts[i].name && entries[i].digest == h.content(artifacts[i].content)
  {
    forall i | 0 <= i < |entries| ensures EntryError(h, later, entries[i]).None?
      ensures entries[i].name == artifacts[i].name && entries[i].digest == h.content(artifacts[i].content)
    {
      assert Fits(h, after, entries[i], artifacts[i]);
    }
    NoFirstError(h, later, entries);
  }

  lemma FittingEntriesVerify(
      h: Digests, le: (string, string) -> bool, after: Files, entries: seq<Entry>, artifacts: seq<Artifact>,
      later: Files)
    requires CollisionFree(h) && TotalOrder(le) && NamesInOrder(le) && CheckArtifacts(artifacts).None?
    requires AllFit(h, after, entries, artifacts) && Kept(after, later)
    ensures Verified(h, le, later, ArchivedRun(SourceHash(h, artifacts), entries)).None?
  {
    FittingEntriesOk(h, after, entries, artifacts, later);
    var i :| 0 <= i < |artifacts| && artifacts[i].name == Input;
    var o :| 0 <= o < |artifacts| && artifacts[o].name == Output;
    var l :| 0 <= l < |artifacts| && artifacts[l].name == Log;
    hide FirstError, AllFit, Kept, CollisionFree, Line, JoinLines, Sort, Bucket, SourceLines, Verified;
    SourceLinesSorted(h, artifacts, i, o, l);
    LinesOfEntries(entries[i], entries[o], entries[l]);
    hide EntryLines, ThreeLines;
    VerifiedByLines(h, le, later, ArchivedRun(SourceHash(h, artifacts), entries), i, o, l);
  }

  lemma LinesOfEntries(i: Entry, o: Entry, l: Entry)
    requires i.name == Input && o.name == Output && l.name == Log
    ensures EntryLines([i, o, l]) == ThreeLines(i.digest, o.digest, l.digest)
  {
  }

  lemma VerifiedByLines(
      h: Digests, le: (string, string) -> bool, files: Files, run: ArchivedRun, i: nat, o: nat, l: nat)
    requires TotalOrder(le) && NamesInOrder(le) && FirstError(h, files, run.artifacts).None?
    requires var entries := run.artifacts;
      && DistinctEntries(entries) && i < |entries| && o < |entries| && l < |entries|
      && entries[i].name == Input && entries[o].name == Output && entries[l].name == Log
      && run.sourceHash == h.text(JoinLines(EntryLines([entries[i], entries[o], entries[l]])))
    ensures Verified(h, le, files, run).None?
  {
    hide FirstError, JoinLines, Sort, Bucket, EntryLines;
    SourceEntriesSorted(le, run.artifacts, i, o, l);
  }

  /** A sequence of archive calls: the files at the end and the archives returned on the way. */
  function Calls(h: Digests, files: Files, calls: seq<seq<Artifact>>): (Files, seq<ArchivedRun>) {
    if calls == [] then (files, [])
    else
      var n := |calls| - 1;
      var (before, returned) := Calls(h, files, calls[..n]);
      var (after, r) := Archived(h, before, calls[n]);
      (after, if r.Ok? then returned + [r.value] else returned)
  }

  /** Over any sequence of calls no existing file changes, and every archive returned so far verifies. */
  lemma {:induction false} EveryReturnedArchiveVerifies(
      h: Digests, le: (string, string) -> bool, files: Files, calls: seq<seq<Artifact>>, later: Files)
    requires CollisionFree(h) && TotalOrder(le) && NamesInOrder(le)
    ensures Kept(files, Calls(h, files, calls).0)
    ensures Kept(Calls(h, files, calls).0, later) ==>
      forall k :: 0 <= k < |Calls(h, files, calls).1| ==> Verified(h, le, later, Calls(h, files, calls).1[k]).None?
  {
    if calls != [] {
      var n := |calls| - 1;
      var (before, returned) := Calls(h, files, calls[..n]);
      var (after, r) := Archived(h, before, calls[n]);
      EveryReturnedArchiveVerifies(h, le, files, calls[..n], later);
      ArchiveOnlyAdds(h, before, calls[n]);
      if Kept(after, later) && r.Ok? {
        ReturnedArchiveVerifies(h, le, before, calls[n], later);
      }
      hide Verified, Archived;
    }
  }

  /** Which directory a run goes to depends on the three sources only, not on their order nor on the metadata. */
  lemma SourceHashIsOfTheSources(h: Digests, a: seq<Artifact>, b: seq<Artifact>)
    requires CheckArtifacts(a).None? && CheckArtifacts(b).None?
    requires forall x: Artifact :: x.name != Metadata ==> (x in a <==> x in b)
    ensures SourceHash(h, a) == SourceHash(h, b)
  {
    var i :| 0 <= i < |a| && a[i].name == Input;
    var o :| 0 <= o < |a| && a[o].name == Output;
    var l :| 0 <= l < |a| && a[l].name == Log;
    assert a[i] in b && a[o] in b && a[l] in b;
    var p :| 0 <= p < |b| && b[p] == a[i];
    var q :| 0 <= q < |b| && b[q] == a[o];
    var r :| 0 <= r < |b| && b[r] == a[l];
    SourceLinesSorted(h, a, i, o, l);
    SourceLinesSorted(h, b, p, q, r);
  }

  /** The text that names the directory: the three sources by file name, each with its digest, one a line. */
  lemma SourceHashText(h: Digests, artifacts: seq<Artifact>, input: Bytes, output: Bytes, log: Bytes)
    requires CheckArtifacts(artifacts).None?
    requires Artifact(Input, input) in artifacts && Artifact(Output, output) in artifacts
    requires Artifact(Log, log) in artifacts
    ensures SourceHash(h, artifacts) == h.text(
      "input.txt:" + h.content(input) + "\n" + "output_result.json:" + h.content(output) + "\n"
      + "solver.log:" + h.content(log))
  {
    var i :| 0 <= i < |artifacts| && artifacts[i] == Artifact(Input, input);
    var o :| 0 <= o < |artifacts| && artifacts[o] == Artifact(Output, output);
    var l :| 0 <= l < |artifacts| && artifacts[l] == Artifact(Log, log);
    SourceLinesSorted(h, artifacts, i, o, l);
    ThreeLinesText(h.content(input), h.content(output), h.content(log));
  }

  lemma ThreeLinesText(input: string, output: string, log: string)
    ensures JoinLines(ThreeLines(input, output, log))
      == "input.txt:" + input + "\n" + "output_result.json:" + output + "\n" + "solver.log:" + log
  {
    var lines := ThreeLines(input, output, log);
    assert lines[1..][1..] == [lines[2]] && lines[1..] == [lines[1], lines[2]];
    assert JoinLines(lines[1..]) == lines[1] + "\n" + lines[2];
    assert lines[0] == "input.txt:" + input && lines[1] == "output_result.json:" + output;
    assert lines[2] == "solver.log:" + log;
  }

  /** Under its own name, or for a metadata record that differs from an earlier one under its digest. */
  predicate FiledAt(files: Files, h: Digests, dir: string, e: Entry) {
    && e.path.0 == dir
    && match e.name
       case Input => e.path.1 == "input.txt"
       case Output => e.path.1 == "output_result.json"
       case Log => e.path.1 == "solver.log"
       case Metadata =>
         || e.path.1 == "metadata.json"
         || (e.path.1 == "metadata-" + e.digest + ".json" && (dir, "metadata.json") in files
               && h.content(files[(dir, "metadata.json")]) != e.digest)
  }

  /** Each artifact is filed under its name, and no other file is new. */
  ghost predicate AllFiled(
      h: Digests, files: Files, after: Files, dir: string, entries: seq<Entry>, artifacts: seq<Artifact>) {
    && |entries| == |artifacts|
    && (forall i :: 0 <= i < |artifacts| ==> FiledAt(files, h, dir, entries[i]) && entries[i].name == artifacts[i].name)
    && (forall p :: p in after && p !in files ==> WrittenFor(after[p], p, entries, artifacts))
  }

  predicate WrittenFor(content: Bytes, p: Path, entries: seq<Entry>, artifacts: seq<Artifact>)
    requires |entries| == |artifacts|
  {
    exists i :: 0 <= i < |artifacts| && entries[i].path == p && content == artifacts[i].content
  }

  lemma PlaceFiles(h: Digests, files: Files, dir: string, a: Artifact)
    requires Place(h, files, dir, a).Ok?
    ensures var (after, e) := Place(h, files, dir, a).value;
      && FiledAt(files, h, dir, e) && e.name == a.name
      && forall p :: p in after ==> if p in files then after[p] == files[p] else p == e.path && after[p] == a.content
  {
  }

  /** Placing one artifact leaves the plain file of another name as it was. */
  lemma OtherUntouched(h: Digests, files: Files, dir: string, a: Artifact, n: Name)
    requires Place(h, files, dir, a).Ok? && a.name != n
    ensures SameFile(files, Place(h, files, dir, a).value.0, (dir, FileName(n)))
  {
    NamesDiffer(a.name, n, h.content(a.content));
    NamesDiffer(n, a.name, h.content(a.content));
    hide FileName, Versioned;
  }

  predicate SameFile(f: Files, g: Files, p: Path) { (p in f <==> p in g) && (p in f ==> f[p] == g[p]) }

  lemma {:induction false} OthersUntouched(h: Digests, files: Files, dir: string, artifacts: seq<Artifact>, n: Name)
    requires forall i :: 0 <= i < |artifacts| ==> artifacts[i].name != n
    requires PlaceAll(h, files, dir, artifacts).1.Ok?
    ensures SameFile(files, PlaceAll(h, files, dir, artifacts).0, (dir, FileName(n)))
  {
    hide Place, FileName;
    if artifacts != [] {
      var last := |artifacts| - 1;
      OthersUntouched(h, files, dir, artifacts[..last], n);
      OtherUntouched(h, PlaceAll(h, files, dir, artifacts[..last]).0, dir, artifacts[last], n);
    }
  }

  lemma SameMetadata(h: Digests, files: Files, before: Files, dir: string, e: Entry)
    requires FiledAt(before, h, dir, e) && (e.name == Metadata ==> SameFile(files, before, (dir, FileName(Metadata))))
    ensures FiledAt(files, h, dir, e)
  {
  }

  lemma OneMoreFiled(
      h: Digests, files: Files, before: Files, after: Files, dir: string, entries: seq<Entry>, artifacts: seq<Artifact>,
      e: Entry, a: Artifact)
    requires AllFiled(h, files, before, dir, entries, artifacts) && FiledAt(files, h, dir, e) && e.name == a.name
    requires forall p :: p in after ==>
      if p in before then after[p] == before[p] else p == e.path && after[p] == a.content
    ensures AllFiled(h, files, after, dir, entries + [e], artifacts + [a])
  {
    hide FiledAt;
    forall p | p in after && p !in files ensures WrittenFor(after[p], p, entries + [e], artifacts + [a]) {
      if p in before {
        var i :| 0 <= i < |artifacts| && entries[i].path == p && before[p] == artifacts[i].content;
        assert (entries + [e])[i] == entries[i] && (artifacts + [a])[i] == artifacts[i];
      } else {
        assert (entries + [e])[|entries|] == e && (artifacts + [a])[|artifacts|] == a;
      }
    }
  }

  lemma {:induction false} FiledByName(h: Digests, files: Files, dir: string, artifacts: seq<Artifact>)
    requires DistinctNames(artifacts) && PlaceAll(h, files, dir, artifacts).1.Ok?
    ensures var (after, entries) := PlaceAll(h, files, dir, artifacts);
      AllFiled(h, files, after, dir, entries.value, artifacts)
  {
    if artifacts != [] {
      hide Place, AllFiled, FiledAt, FileName;
      var n := |artifacts| - 1;
      var rest, a := artifacts[..n], artifacts[n];
      var (before, entries) := PlaceAll(h, files, dir, rest);
      FiledByName(h, files, dir, rest);
      var (after, entry) := Place(h, before, dir, a).value;
      PlaceFiles(h, before, dir, a);
      if a.name == Metadata { OthersUntouched(h, files, dir, rest, Metadata); }
      SameMetadata(h, files, before, dir, entry);
      OneMoreFiled(h, files, before, after, dir, entries.value, rest, entry, a);
      assert rest + [a] == artifacts;
    } else {
      NothingFiled(h, files, dir);
    }
  }

  lemma NothingFiled(h: Digests, files: Files, dir: string)
    ensures AllFiled(h, files, files, dir, [], [])
  {
  }

  /** A call files each artifact under the hash of its sources and its own name, and adds no other file. */
  lemma ArchivedByName(h: Digests, files: Files, artifacts: seq<Artifact>)
    requires Archived(h, files, artifacts).1.Ok?
    ensures var (after, r) := Archived(h, files, artifacts);
      && r.value.sourceHash == SourceHash(h, artifacts)
      && AllFiled(h, files, after, r.value.sourceHash, r.value.artifacts, artifacts)
      && AllFit(h, after, r.value.artifacts, artifacts)
  {
    FiledByName(h, files, SourceHash(h, artifacts), artifacts);
    PlaceAllKeeps(h, files, SourceHash(h, artifacts), artifacts);
  }
}
