/**
 * The playlist state of app.js: the track list `loadTracks` builds from the
 * chosen folder, and the two module variables `currentObjectUrl` and
 * `activeButton` that `clearAudioSource`, `playTrack`, `setActiveButton` and
 * the `ended` handler update.
 */
module AppPlayer {
  import opened Wrappers
  import opened Mp3Names
  import opened Sequences
  import opened Collation

  datatype EntryKind = FileKind | DirectoryKind

  /** One `[name, handle]` pair of `directoryHandle.entries()`; the handle is known by its kind. */
  datatype Entry = Entry(name: string, kind: EntryKind)

  predicate IsTrackEntry(e: Entry)
  {
    e.kind == FileKind && IsMp3Name(e.name)
  }

  /** The `for await` loop of `loadTracks`: it pushes every file entry with an MP3 name, in directory order. */
  method CollectTracks(entries: seq<Entry>) returns (tracks: seq<Entry>)
    ensures tracks == Filter(IsTrackEntry, entries)
  {
    tracks := [];
    var i := 0;
    while i < |entries|
      invariant 0 <= i <= |entries|
      invariant tracks == Filter(IsTrackEntry, entries[..i])
    {
      assert entries[..i + 1] == entries[..i] + [entries[i]];
      FilterConcat(IsTrackEntry, entries[..i], [entries[i]]);
      if IsTrackEntry(entries[i]) {
        tracks := tracks + [entries[i]];
      }
      i := i + 1;
    }
    assert entries[..i] == entries;
  }

  /** `(a, b) => a.name.localeCompare(b.name, "ja")`, read as "a comes no later than b". */
  function ByName(le: (string, string) -> bool): (Entry, Entry) -> bool
  {
    (a: Entry, b: Entry) => le(a.name, b.name)
  }

  lemma ByNameTotal(le: (string, string) -> bool)
    requires Total(le)
    ensures Total(ByName(le))
  {
    forall a: Entry, b: Entry
      ensures ByName(le)(a, b) || ByName(le)(b, a)
    {
      assert le(a.name, b.name) || le(b.name, a.name);
    }
  }

  /** The list `loadTracks` renders: the collected tracks, sorted by name. */
  function Playlist(entries: seq<Entry>, le: (string, string) -> bool): seq<Entry>
    requires Total(le)
  {
    ByNameTotal(le);
    Sort(ByName(le), Filter(IsTrackEntry, entries))
  }

  /**
   * The playlist holds exactly the file entries with an MP3 name (directories
   * named `x.mp3` are left out), each as often as the folder lists it, in
   * non-decreasing name order.
   */
  lemma PlaylistSpec(entries: seq<Entry>, le: (string, string) -> bool, e: Entry)
    requires Total(le)
    ensures var p := Playlist(entries, le);
      && (e in p <==> e in entries && e.kind == FileKind && IsMp3Name(e.name))
      && multiset(p)[e] == (if IsTrackEntry(e) then multiset(entries)[e] else 0)
      && forall i :: 0 <= i < |p| - 1 ==> le(p[i].name, p[i + 1].name)
  {
    ByNameTotal(le);
    var p := Playlist(entries, le);
    SortMembers(ByName(le), Filter(IsTrackEntry, entries), e);
    FilterMembers(IsTrackEntry, entries, e);
    FilterCounts(IsTrackEntry, entries, e);
    assert AdjacentSorted(ByName(le), p);
  }

  /** An object URL from `URL.createObjectURL`, told apart by a serial number. */
  type ObjectUrl = nat

  /** A playlist button, told apart by the position of its track in the rendered list. */
  type Button = nat

  class Player {
    var currentObjectUrl: Option<ObjectUrl>
    var activeButton: Option<Button>
    /** The browser's side: object URLs created and not yet revoked. */
    var live: set<ObjectUrl>
    /** Every object URL created so far is below this number. */
    var nextUrl: nat

    /** The only live object URL, if any, is the one `currentObjectUrl` holds. */
    ghost predicate Valid()
      reads this
    {
      && live == (if currentObjectUrl.Some? then {currentObjectUrl.value} else {})
      && forall u :: u in live ==> u < nextUrl
    }

    constructor ()
      ensures Valid()
      ensures currentObjectUrl == None && activeButton == None && live == {}
    {
      currentObjectUrl := None;
      activeButton := None;
      live := {};
      nextUrl := 0;
    }

    /** At most one object URL is live at any time. */
    lemma AtMostOneLive()
      requires Valid()
      ensures |live| <= 1
    {
    }

    /** `setActiveButton`: the old button loses the highlight, the new one (if any) gets it. */
    method SetActiveButton(button: Option<Button>)
      modifies this`activeButton
      ensures activeButton == button
    {
      activeButton := button;
    }

    /** `clearAudioSource`: revokes the current object URL if there is one and forgets it. */
    method ClearAudioSource() returns (revoked: Option<ObjectUrl>)
      requires Valid()
      modifies this`currentObjectUrl, this`live
      ensures Valid()
      ensures currentObjectUrl == None && live == {}
      ensures revoked == old(currentObjectUrl)
      ensures revoked.Some? ==> old(live) == {revoked.value}
    {
      revoked := currentObjectUrl;
      if currentObjectUrl.Some? {
        live := live - {currentObjectUrl.value};
        currentObjectUrl := None;
      }
    }

    /**
     * `playTrack`: when the file can be read, the previous object URL is
     * revoked before a fresh one is created and kept; the button becomes
     * active only when playback starts. A file that cannot be read changes
     * nothing. When `play()` fails the fresh URL stays current and live.
     */
    method PlayTrack(button: Button, fileReadable: bool, playStarts: bool) returns (created: Option<ObjectUrl>)
      requires Valid()
      modifies this
      ensures Valid()
      ensures !fileReadable ==> created == None && unchanged(this)
      ensures fileReadable ==> created == Some(old(nextUrl)) && old(nextUrl) !in old(live)
      ensures fileReadable ==> currentObjectUrl == created && live == {old(nextUrl)}
      ensures activeButton == if fileReadable && playStarts then Some(button) else old(activeButton)
    {
      created := None;
      if !fileReadable {
        return;
      }
      var _ := ClearAudioSource();
      var url := nextUrl;
      nextUrl := nextUrl + 1;
      live := live + {url};
      currentObjectUrl := Some(url);
      created := currentObjectUrl;
      if playStarts {
        SetActiveButton(Some(button));
      }
    }

    /** The `ended` handler: the highlight goes; the object URL stays; nothing else is played. */
    method OnEnded()
      requires Valid()
      modifies this`activeButton
      ensures Valid()
      ensures activeButton == None
    {
      SetActiveButton(None);
    }

    /**
     * `loadTracks`: without a folder nothing happens; otherwise the highlight
     * is cleared, the playlist is rebuilt, and an empty playlist also clears
     * the audio source.
     */
    method LoadTracks(directory: Option<seq<Entry>>, le: (string, string) -> bool) returns (tracks: seq<Entry>)
      requires Valid()
      requires Total(le)
      modifies this
      ensures Valid()
      ensures nextUrl == old(nextUrl)
      ensures directory.None? ==> tracks == [] && unchanged(this)
      ensures directory.Some? ==> tracks == Playlist(directory.value, le) && activeButton == None
      ensures directory.Some? && tracks == [] ==> currentObjectUrl == None && live == {}
      ensures directory.Some? && tracks != [] ==> currentObjectUrl == old(currentObjectUrl) && live == old(live)
    {
      if directory.None? {
        return [];
      }
      SetActiveButton(None);
      tracks := CollectTracks(directory.value);
      ByNameTotal(le);
      tracks := Sort(ByName(le), tracks);
      if tracks == [] {
        var _ := ClearAudioSource();
      }
    }
  }

  /** Clearing twice revokes once: the second call finds nothing to revoke. */
  method ClearTwice(p: Player) returns (first: Option<ObjectUrl>, second: Option<ObjectUrl>)
    requires p.Valid()
    modifies p
    ensures first == old(p.currentObjectUrl) && second == None
    ensures p.Valid() && p.live == {}
  {
    first := p.ClearAudioSource();
    second := p.ClearAudioSource();
  }
}
