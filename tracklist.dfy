/**
 * scripts/generate-tracklist.mjs: reads the audio folder, keeps the regular
 * files whose lower-cased name ends in `.mp3`, sorts their names with the
 * Japanese collation and writes them as a JSON array to
 * `audio/tracklist.json`. Reading the folder and writing the file are given
 * as their outcomes.
 */
module Tracklist {
  import opened Wrappers
  import opened Sequences
  import opened Collation
  import opened Mp3Names
  import opened Json

  /** A `fs.Dirent`: its name and whether it is a regular file. */
  datatype Dirent = Dirent(name: string, isFile: bool)

  /** `entry.isFile() && entry.name.toLowerCase().endsWith(".mp3")` */
  predicate IsManifestEntry(e: Dirent)
  {
    e.isFile && IsMp3Name(e.name)
  }

  function NameOf(e: Dirent): string
  {
    e.name
  }

  /** The `filter` and `map` steps, in `readdir` order. */
  function ManifestNames(entries: seq<Dirent>): seq<string>
  {
    Map(NameOf, Filter(IsManifestEntry, entries))
  }

  /** The `sort` step: `localeCompare(a, b, "ja")` read as the collation `le`. */
  function Tracks(entries: seq<Dirent>, le: (string, string) -> bool): seq<string>
    requires Total(le)
  {
    Sort(le, ManifestNames(entries))
  }

  /** The names kept are exactly those of regular `.mp3` files; a directory called `x.mp3` is not one. */
  lemma ManifestNamesMembers(entries: seq<Dirent>, x: string)
    ensures x in ManifestNames(entries) <==> exists e :: e in entries && IsManifestEntry(e) && e.name == x
  {
    var kept := Filter(IsManifestEntry, entries);
    var names := ManifestNames(entries);
    if x in names {
      var i :| 0 <= i < |names| && names[i] == x;
      FilterMembers(IsManifestEntry, entries, kept[i]);
    }
    if exists e :: e in entries && IsManifestEntry(e) && e.name == x {
      var e :| e in entries && IsManifestEntry(e) && e.name == x;
      FilterMembers(IsManifestEntry, entries, e);
      var j :| 0 <= j < |kept| && kept[j] == e;
      assert names[j] == x;
    }
  }

  /**
   * The manifest lists each regular `.mp3` file once per directory entry,
   * nothing else, in non-decreasing collation order.
   */
  lemma TracksSpec(entries: seq<Dirent>, le: (string, string) -> bool, x: string)
    requires Total(le)
    ensures x in Tracks(entries, le) <==> exists e :: e in entries && IsManifestEntry(e) && e.name == x
    ensures multiset(Tracks(entries, le)) == multiset(ManifestNames(entries))
    ensures |Tracks(entries, le)| == |Filter(IsManifestEntry, entries)|
    ensures AdjacentSorted(le, Tracks(entries, le))
  {
    SortMembers(le, ManifestNames(entries), x);
    ManifestNamesMembers(entries, x);
  }

  /** With a transitive collation every earlier name sorts no later than every later one. */
  lemma TracksSorted(entries: seq<Dirent>, le: (string, string) -> bool)
    requires Total(le) && Transitive(le)
    ensures Sorted(le, Tracks(entries, le))
  {
    AdjacentSortedIsSorted(le, Tracks(entries, le));
  }

  /** The manifest lives in the folder it describes but never lists itself. */
  lemma ManifestNeverListsItself(entries: seq<Dirent>, le: (string, string) -> bool)
    requires Total(le)
    ensures "tracklist.json" !in Tracks(entries, le)
  {
    TracksSpec(entries, le, "tracklist.json");
    assert "tracklist.json"[13] == 'n';
    NotMp3UnlessEndsIn3("tracklist.json");
  }

  /** What one run does: the text handed to `writeFile`, whether it warned, and the exit code. */
  datatype RunOutcome = RunOutcome(manifest: Option<string>, warnedEmpty: bool, exitCode: int)

  /**
   * `main` and its `catch`: a failed `readdir` writes nothing and sets the
   * exit code to 1; otherwise the manifest is written, after a warning when
   * it is empty, and a failed write also sets the exit code to 1.
   */
  function Run<E>(readdir: Result<seq<Dirent>, E>, writeSucceeds: bool, le: (string, string) -> bool): (r: RunOutcome)
    requires Total(le)
    ensures r.manifest.Some? <==> readdir.Ok?
    ensures readdir.Ok? ==> ReadManifest(r.manifest.value) == Some(Tracks(readdir.value, le))
    ensures r.warnedEmpty <==> readdir.Ok? && Filter(IsManifestEntry, readdir.value) == []
    ensures r.exitCode == 0 <==> readdir.Ok? && writeSucceeds
    ensures r.exitCode == 0 || r.exitCode == 1
  {
    match readdir
    case Err(_) => RunOutcome(None, false, 1)
    case Ok(entries) =>
      var tracks := Tracks(entries, le);
      ManifestRoundTrip(tracks);
      TracksSpec(entries, le, "");
      RunOutcome(Some(Stringify(tracks) + "\n"), tracks == [], if writeSucceeds then 0 else 1)
  }

  /** A folder without regular `.mp3` files gives the manifest `[]` and a warning, and is not an error. */
  lemma EmptyFolderWritesEmptyArray(entries: seq<Dirent>, le: (string, string) -> bool)
    requires Total(le)
    requires forall i :: 0 <= i < |entries| ==> !IsManifestEntry(entries[i])
    ensures Run(Result<seq<Dirent>, string>.Ok(entries), true, le) == RunOutcome(Some("[]\n"), true, 0)
  {
    FilterNone(entries);
    assert Tracks(entries, le) == [];
  }

  lemma {:induction false} FilterNone(entries: seq<Dirent>)
    requires forall i :: 0 <= i < |entries| ==> !IsManifestEntry(entries[i])
    ensures Filter(IsManifestEntry, entries) == []
  {
    if entries != [] {
      FilterNone(entries[1..]);
    }
  }
}
