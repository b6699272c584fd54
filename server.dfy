/**
 * The request logic of server.js: the `/api/tracks` listing, the
 * `/api/delete` path guard, the upload file filter and the error handler's
 * status codes. The audio directory is `path.join(__dirname, 'audio')`,
 * given by its segments. `encodeURIComponent`, `decodeURIComponent` and the
 * latin1-to-UTF-8 re-decoding of upload names are function parameters;
 * `decode` yields `None` where `decodeURIComponent` throws.
 */
module ServerApi {
  import opened Wrappers
  import opened Strings
  import opened Sequences
  import opened Mp3Names
  import opened NodePath

  // ---------------------------------------------------------------- listing

  /** One element of the `/api/tracks` JSON array. */
  datatype TrackEntry = TrackEntry(title: string, file: string)

  const AudioUrlPrefix: string := "/audio/"

  function TrackFor(encode: string -> string, file: string): TrackEntry
  {
    TrackEntry(StripMp3Suffix(file), AudioUrlPrefix + encode(file))
  }

  lemma ListedNamesEndInMp3(names: seq<string>)
    requires forall i :: 0 <= i < |names| ==> IsMp3Name(names[i])
    ensures forall i :: 0 <= i < |names| ==> HasMp3Suffix(names[i])
  {
    forall i | 0 <= i < |names|
      ensures HasMp3Suffix(names[i])
    {
      Mp3TestsAgree(names[i]);
    }
  }

  /**
   * The `filter`/`map` chain of `/api/tracks`: one entry per file whose
   * lower-cased name ends in `.mp3`, in `readdir` order; the title is the
   * name without its last four characters and the URL is `/audio/` followed
   * by the encoded name.
   */
  function ListTracks(files: seq<string>, encode: string -> string): (r: seq<TrackEntry>)
    ensures |r| == |Filter(IsMp3Name, files)|
    ensures forall i :: 0 <= i < |r| ==>
      var f := Filter(IsMp3Name, files)[i];
      r[i].title == f[..|f| - 4] && r[i].file == AudioUrlPrefix + encode(f)
  {
    var mp3 := Filter(IsMp3Name, files);
    ListedNamesEndInMp3(mp3);
    Map((f: string) => TrackFor(encode, f), mp3)
  }

  /** The listing is built file by file and is not re-sorted. */
  lemma ListTracksConcat(a: seq<string>, b: seq<string>, encode: string -> string)
    ensures ListTracks(a + b, encode) == ListTracks(a, encode) + ListTracks(b, encode)
  {
    FilterConcat(IsMp3Name, a, b);
  }

  /** A name is listed exactly when it is in the directory and passes the MP3 test. */
  lemma ListedExactlyMp3Files(files: seq<string>, encode: string -> string, name: string)
    ensures TrackFor(encode, name) in ListTracks(files, encode) <== name in files && IsMp3Name(name)
    ensures (exists i :: 0 <= i < |ListTracks(files, encode)| && Filter(IsMp3Name, files)[i] == name)
      <==> name in files && IsMp3Name(name)
  {
    FilterMembers(IsMp3Name, files, name);
    var mp3 := Filter(IsMp3Name, files);
    if name in mp3 {
      var i :| 0 <= i < |mp3| && mp3[i] == name;
      assert ListTracks(files, encode)[i] == TrackFor(encode, name);
    }
  }

  ghost predicate Injective(encode: string -> string)
  {
    forall a, b :: encode(a) == encode(b) ==> a == b
  }

  /** With an injective encoder, two listed entries share a URL only if they list the same file. */
  lemma ListedUrlsIdentifyFiles(files: seq<string>, encode: string -> string, i: nat, j: nat)
    requires Injective(encode)
    requires i < |ListTracks(files, encode)| && j < |ListTracks(files, encode)|
    requires ListTracks(files, encode)[i].file == ListTracks(files, encode)[j].file
    ensures Filter(IsMp3Name, files)[i] == Filter(IsMp3Name, files)[j]
  {
    var mp3 := Filter(IsMp3Name, files);
    assert AudioUrlPrefix + encode(mp3[i]) == AudioUrlPrefix + encode(mp3[j]);
    assert encode(mp3[i]) == (AudioUrlPrefix + encode(mp3[i]))[|AudioUrlPrefix|..];
    assert encode(mp3[j]) == (AudioUrlPrefix + encode(mp3[j]))[|AudioUrlPrefix|..];
  }

  datatype TracksReply = TracksReply(status: int, tracks: seq<TrackEntry>)

  /** The route: the listing with 200, or 500 and no tracks when `readdir` fails. */
  function TracksRoute(readdir: Result<seq<string>, string>, encode: string -> string): (r: TracksReply)
    ensures r.status == 200 <==> readdir.Ok?
    ensures r.status == 500 <==> readdir.Err?
    ensures readdir.Ok? ==> r.tracks == ListTracks(readdir.value, encode)
    ensures readdir.Err? ==> r.tracks == []
  {
    match readdir
    case Ok(files) => TracksReply(200, ListTracks(files, encode))
    case Err(_) => TracksReply(500, [])
  }

  // ----------------------------------------------------------------- delete

  /** The `file` property of the JSON body: absent, a string, or some other JSON value. */
  datatype FileField = Missing | Text(s: string) | NonText(truthy: bool)

  /** What the delete route does: answer 400, answer 500 without touching the disk, or unlink a path. */
  datatype DeleteStep = Rejected | Failed | Unlink(path: string)

  /** `decodeURIComponent(file.replace('/audio/', ''))` */
  function DecodedName(file: string, decode: string -> Option<string>): Option<string>
  {
    decode(ReplaceFirst(file, AudioUrlPrefix, ""))
  }

  /**
   * `/api/delete` as written: the `/audio/` prefix check, decoding, the join
   * onto the audio directory and the string-prefix containment check, in that
   * order; a truthy non-string `file` makes `startsWith` throw, hence 500.
   */
  function DeleteRoute(audio: seq<string>, file: FileField, decode: string -> Option<string>): (r: DeleteStep)
    requires audio != [] && PlainSegments(audio)
    ensures r.Unlink? ==> file.Text? && StartsWith(file.s, AudioUrlPrefix)
    ensures r.Unlink? ==> decode(file.s[|AudioUrlPrefix|..]).Some?
    ensures r.Unlink? ==> r.path == Join(Dir(audio), decode(file.s[|AudioUrlPrefix|..]).value)
    ensures r.Unlink? ==> StartsWith(r.path, Dir(audio))
    ensures file.Missing? || (file.NonText? && !file.truthy) ==> r == Rejected
    ensures file.Text? && !StartsWith(file.s, AudioUrlPrefix) ==> r == Rejected
  {
    match file
    case Missing => Rejected
    case NonText(truthy) => if truthy then Failed else Rejected
    case Text(s) =>
      if s == "" || !StartsWith(s, AudioUrlPrefix) then Rejected
      else
        ReplacePrefix(s, AudioUrlPrefix, "");
        assert ReplaceFirst(s, AudioUrlPrefix, "") == s[|AudioUrlPrefix|..];
        match DecodedName(s, decode)
        case None => Failed
        case Some(name) =>
          var filePath := Join(Dir(audio), name);
          if !StartsWith(filePath, Dir(audio)) then Rejected else Unlink(filePath)
  }

  /** The route's status; the outcome of `fs.unlink` is given. */
  function DeleteStatus(action: DeleteStep, unlinkSucceeded: bool): (status: int)
    ensures status == 200 <==> action.Unlink? && unlinkSucceeded
    ensures status == 400 <==> action.Rejected?
    ensures status == 500 <==> action.Failed? || (action.Unlink? && !unlinkSucceeded)
  {
    match action
    case Rejected => 400
    case Failed => 500
    case Unlink(_) => if unlinkSucceeded then 200 else 500
  }

  /** A request for `/audio/` followed by `rest` decodes `rest`, joins it and applies the containment check. */
  lemma DeleteRouteOnAudioUrl(audio: seq<string>, rest: string, decode: string -> Option<string>)
    requires audio != [] && PlainSegments(audio)
    ensures DeleteRoute(audio, Text(AudioUrlPrefix + rest), decode) ==
      match decode(rest)
      case None => Failed
      case Some(name) =>
        if StartsWith(Join(Dir(audio), name), Dir(audio)) then Unlink(Join(Dir(audio), name)) else Rejected
  {
    var url := AudioUrlPrefix + rest;
    assert url[..|AudioUrlPrefix|] == AudioUrlPrefix;
    ReplacePrefix(url, AudioUrlPrefix, "");
    assert url[|AudioUrlPrefix|..] == rest;
    assert "" + rest == rest;
    assert DecodedName(url, decode) == decode(rest);
  }

  /**
   * Every track the listing offers can be deleted through its own URL, and
   * the path unlinked is that file in the audio directory, whenever
   * decoding undoes encoding for its name.
   */
  lemma ListedTrackDeletesItself(audio: seq<string>, files: seq<string>, encode: string -> string,
                                 decode: string -> Option<string>, i: nat)
    requires audio != [] && PlainSegments(audio)
    requires i < |ListTracks(files, encode)|
    requires PlainSegment(Filter(IsMp3Name, files)[i])
    requires decode(encode(Filter(IsMp3Name, files)[i])) == Some(Filter(IsMp3Name, files)[i])
    ensures DeleteRoute(audio, Text(ListTracks(files, encode)[i].file), decode)
      == Unlink(Dir(audio) + "/" + Filter(IsMp3Name, files)[i])
  {
    var name := Filter(IsMp3Name, files)[i];
    assert ListTracks(files, encode)[i].file == AudioUrlPrefix + encode(name);
    DeletePlainUrl(audio, name, encode(name), decode);
  }

  /** A URL whose decoded part is a plain file name unlinks that file in the audio directory. */
  lemma DeletePlainUrl(audio: seq<string>, name: string, rest: string, decode: string -> Option<string>)
    requires audio != [] && PlainSegments(audio)
    requires PlainSegment(name) && decode(rest) == Some(name)
    ensures DeleteRoute(audio, Text(AudioUrlPrefix + rest), decode) == Unlink(Dir(audio) + "/" + name)
  {
    JoinPlainName(audio, name);
    PlainNameUnderDir(audio, name);
    DeleteGuardPasses(audio, rest, decode, name, Dir(audio) + "/" + name);
  }

  lemma PlainNameUnderDir(audio: seq<string>, name: string)
    ensures StartsWith(Dir(audio) + "/" + name, Dir(audio))
    ensures StartsWith(Dir(audio) + "/" + name, Dir(audio) + "/")
  {
    StartsWithConcat(Dir(audio), "/" + name);
    StartsWithConcat(Dir(audio) + "/", name);
    assert Dir(audio) + "/" + name == Dir(audio) + ("/" + name);
  }

  /** A decoded name whose joined path passes the guard is unlinked. */
  lemma DeleteGuardPasses(audio: seq<string>, rest: string, decode: string -> Option<string>, name: string, path: string)
    requires audio != [] && PlainSegments(audio)
    requires decode(rest) == Some(name) && Join(Dir(audio), name) == path && StartsWith(path, Dir(audio))
    ensures DeleteRoute(audio, Text(AudioUrlPrefix + rest), decode) == Unlink(path)
  {
    DeleteRouteOnAudioUrl(audio, rest, decode);
  }

  lemma StartsWithConcat(a: string, b: string)
    ensures StartsWith(a + b, a)
  {
    assert (a + b)[..|a|] == a;
  }

  /**
   * What the containment check as written lets through: the unlinked path
   * shares every segment of the audio directory but the last, and there it
   * only has to begin with the directory's name, so `../audio2/x.mp3`
   * passes.
   */
  lemma DeleteGuardAdmitsSiblingPrefix(audio: seq<string>, file: FileField, decode: string -> Option<string>)
    requires audio != [] && PlainSegments(audio)
    requires DeleteRoute(audio, file, decode).Unlink?
    ensures var name := decode(file.s[|AudioUrlPrefix|..]).value;
      var stack := Resolve(Split(name), audio);
      && DeleteRoute(audio, file, decode).path == Render(stack, name != "" && name[|name| - 1] == '/')
      && |stack| >= |audio|
      && stack[..|audio| - 1] == audio[..|audio| - 1]
      && StartsWith(stack[|audio| - 1], audio[|audio| - 1])
  {
    JoinLooselyUnderDir(audio, decode(file.s[|AudioUrlPrefix|..]).value);
  }

  /** A joined path that starts with the directory, read as segments. */
  lemma JoinLooselyUnderDir(audio: seq<string>, name: string)
    requires audio != [] && PlainSegments(audio)
    requires StartsWith(Join(Dir(audio), name), Dir(audio))
    ensures var stack := Resolve(Split(name), audio);
      && Join(Dir(audio), name) == Render(stack, name != "" && name[|name| - 1] == '/')
      && |stack| >= |audio|
      && stack[..|audio| - 1] == audio[..|audio| - 1]
      && StartsWith(stack[|audio| - 1], audio[|audio| - 1])
  {
    JoinOntoDir(audio, name);
    RenderLooselyUnderDir(audio, Resolve(Split(name), audio), name != "" && name[|name| - 1] == '/');
  }

  /** A joined path that starts with the directory and a slash, read as segments. */
  lemma JoinStrictlyUnderDir(audio: seq<string>, name: string)
    requires audio != [] && PlainSegments(audio)
    requires StartsWith(Join(Dir(audio), name), Dir(audio) + "/")
    ensures var stack := Resolve(Split(name), audio);
      && Join(Dir(audio), name) == Render(stack, name != "" && name[|name| - 1] == '/')
      && |stack| >= |audio| && stack[..|audio|] == audio
  {
    JoinOntoDir(audio, name);
    RenderUnderDir(audio, Resolve(Split(name), audio), name != "" && name[|name| - 1] == '/');
  }

  /** The identity decoder: `decodeURIComponent` leaves a string without `%` as it is. */
  function PlainDecode(s: string): Option<string>
  {
    Some(s)
  }

  lemma SplitThree(a: string, b: string, c: string)
    requires NoSlash(a) && NoSlash(b) && NoSlash(c)
    ensures Split(a + "/" + b + "/" + c) == [a, b, c]
  {
    SplitAround(a + "/" + b, c);
    SplitAround(a, b);
    SplitNoSlash(a);
    SplitNoSlash(b);
    SplitNoSlash(c);
  }

  /** `../s/n` from `parent/d` lands on `parent/s/n`. */
  lemma ResolveSibling(parent: seq<string>, d: string, s: string, n: string)
    requires PlainSegments(parent) && PlainSegment(d) && PlainSegment(s) && PlainSegment(n)
    ensures Resolve(["..", s, n], parent + [d]) == parent + [s, n]
  {
    assert (parent + [d])[..|parent|] == parent;
    assert Resolve(["..", s, n], parent + [d]) == Resolve([s, n], parent);
    assert Resolve([s, n], parent) == Resolve([n], parent + [s]);
    assert Resolve([n], parent + [s]) == Resolve([], parent + [s] + [n]);
    assert parent + [s] + [n] == parent + [s, n];
  }

  lemma PlainSnoc(parent: seq<string>, d: string)
    requires PlainSegments(parent) && PlainSegment(d)
    ensures PlainSegments(parent + [d])
  {
    var audio := parent + [d];
    forall i | 0 <= i < |audio|
      ensures PlainSegment(audio[i])
    {
      if i < |parent| {
        assert audio[i] == parent[i];
      }
    }
  }

  lemma LastOfConcat(a: string, b: string)
    requires b != []
    ensures (a + b)[|a + b| - 1] == b[|b| - 1]
  {
  }

  /** Joining `../s/n` onto `parent/d` gives `parent/s/n`. */
  lemma JoinSibling(parent: seq<string>, d: string, s: string, n: string)
    requires PlainSegments(parent) && PlainSegment(d) && PlainSegment(s) && PlainSegment(n)
    ensures PlainSegments(parent + [d])
    ensures Join(Dir(parent + [d]), ".." + "/" + s + "/" + n) == Dir(parent + [s, n])
  {
    var audio := parent + [d];
    var rest := ".." + "/" + s + "/" + n;
    PlainSnoc(parent, d);
    JoinOntoDir(audio, rest);
    SplitThree("..", s, n);
    ResolveSibling(parent, d, s, n);
    assert rest[|rest| - 1] != '/' by {
      LastOfConcat(".." + "/" + s + "/", n);
    }
    assert Render(parent + [s, n], false) == Dir(parent + [s, n]);
  }

  /** `/p/s/n` starts with `/p/d` when `s` begins with `d`, but not with `/p/d/` when `s` is longer. */
  lemma SiblingPrefix(parent: seq<string>, d: string, s: string, n: string)
    requires parent != [] && PlainSegment(d) && PlainSegment(s)
    requires StartsWith(s, d) && s != d
    ensures StartsWith(Dir(parent + [s, n]), Dir(parent + [d]))
    ensures !StartsWith(Dir(parent + [s, n]), Dir(parent + [d]) + "/")
  {
    var P := "/" + Joined(parent) + "/";
    JoinedSnoc(parent, d);
    JoinedSnoc(parent, s);
    JoinedSnoc(parent + [s], n);
    assert parent + [s] + [n] == parent + [s, n];
    assert Dir(parent + [d]) == P + d;
    assert Dir(parent + [s, n]) == P + s + ("/" + n);
    assert |s| > |d| && s[|d|] != '/';
    LongerPrefix(P, d, s, "/" + n);
  }

  /** Inside a longer segment `s` that begins with `d`, the text `P + d` is followed by a character of `s`, not by a slash. */
  lemma LongerPrefix(P: string, d: string, s: string, tail: string)
    requires StartsWith(s, d) && |s| > |d| && s[|d|] != '/'
    ensures StartsWith(P + s + tail, P + d)
    ensures !StartsWith(P + s + tail, P + d + "/")
  {
    var t := P + s + tail;
    assert t[..|P| + |d|] == P + s[..|d|];
    assert t[|P| + |d|] == s[|d|];
    assert (P + d + "/")[|P| + |d|] == '/';
  }

  /**
   * The containment check as written, on a sibling of the audio directory
   * whose name begins with the directory's own: `/audio/../s/n` unlinks
   * `parent/s/n`, and the check with a trailing slash would have refused it.
   */
  lemma SiblingEscapesAsWritten(parent: seq<string>, d: string, s: string, n: string, decode: string -> Option<string>)
    requires parent != [] && PlainSegments(parent)
    requires PlainSegment(d) && PlainSegment(s) && PlainSegment(n)
    requires StartsWith(s, d) && s != d
    requires decode(".." + "/" + s + "/" + n) == Some(".." + "/" + s + "/" + n)
    ensures DeleteRoute(parent + [d], Text(AudioUrlPrefix + (".." + "/" + s + "/" + n)), decode)
      == Unlink(Dir(parent + [s, n]))
    ensures !StartsWith(Dir(parent + [s, n]), Dir(parent + [d]) + "/")
  {
    JoinSibling(parent, d, s, n);
    DeleteRouteOnAudioUrl(parent + [d], ".." + "/" + s + "/" + n, decode);
    SiblingPrefix(parent, d, s, n);
  }

  lemma JoinedThree(a: string, b: string, c: string)
    ensures Dir([a, b, c]) == "/" + a + "/" + b + "/" + c
  {
    assert [a, b, c][1..] == [b, c];
    assert [b, c][1..] == [c];
    assert Joined([b, c]) == b + "/" + c;
    assert Joined([a, b, c]) == a + "/" + (b + "/" + c);
  }

  lemma SiblingSegments()
    ensures PlainSegments(["srv"]) && PlainSegment("audio") && PlainSegment("audio2") && PlainSegment("x.mp3")
  {
    assert PlainSegment("srv");
  }

  lemma SiblingNames()
    ensures StartsWith("audio2", "audio") && "audio2" != "audio"
  {
    assert "audio2"[..5] == "audio";
  }

  lemma SiblingUrl()
    ensures AudioUrlPrefix + (".." + "/" + "audio2" + "/" + "x.mp3") == "/audio/../audio2/x.mp3"
  {
  }

  lemma SiblingDirs()
    ensures ["srv"] + ["audio"] == ["srv", "audio"]
    ensures ["srv"] + ["audio2", "x.mp3"] == ["srv", "audio2", "x.mp3"]
    ensures Dir(["srv", "audio2", "x.mp3"]) == "/srv/audio2/x.mp3"
  {
    JoinedThree("srv", "audio2", "x.mp3");
  }

  lemma SiblingLiterals()
    ensures PlainSegments(["srv"]) && PlainSegment("audio") && PlainSegment("audio2") && PlainSegment("x.mp3")
    ensures StartsWith("audio2", "audio") && "audio2" != "audio"
    ensures AudioUrlPrefix + (".." + "/" + "audio2" + "/" + "x.mp3") == "/audio/../audio2/x.mp3"
    ensures ["srv"] + ["audio"] == ["srv", "audio"]
    ensures ["srv"] + ["audio2", "x.mp3"] == ["srv", "audio2", "x.mp3"]
    ensures Dir(["srv", "audio2", "x.mp3"]) == "/srv/audio2/x.mp3"
  {
    SiblingSegments();
    SiblingNames();
    SiblingUrl();
    SiblingDirs();
  }

  /** The request that reaches a sibling directory: `/srv/audio2/x.mp3` is unlinked. */
  lemma SiblingDirectoryIsUnlinked()
    ensures DeleteRoute(["srv", "audio"], Text("/audio/../audio2/x.mp3"), PlainDecode)
      == Unlink("/srv/audio2/x.mp3")
    ensures !StartsWith("/srv/audio2/x.mp3", Dir(["srv", "audio"]) + "/")
  {
    SiblingLiterals();
    SiblingEscapesAsWritten(["srv"], "audio", "audio2", "x.mp3", PlainDecode);
  }

  /**
   * `/api/delete` with the containment check the comment in server.js asks
   * for: the joined path must start with the directory followed by a slash.
   */
  function ContainedDeleteRoute(audio: seq<string>, file: FileField, decode: string -> Option<string>): (r: DeleteStep)
    requires audio != [] && PlainSegments(audio)
    ensures r.Unlink? ==> file.Text? && StartsWith(file.s, AudioUrlPrefix)
    ensures r.Unlink? ==> decode(file.s[|AudioUrlPrefix|..]).Some?
    ensures r.Unlink? ==> r.path == Join(Dir(audio), decode(file.s[|AudioUrlPrefix|..]).value)
    ensures r.Unlink? ==> StartsWith(r.path, Dir(audio) + "/")
    ensures file.Missing? || (file.NonText? && !file.truthy) ==> r == Rejected
    ensures file.Text? && !StartsWith(file.s, AudioUrlPrefix) ==> r == Rejected
  {
    match file
    case Missing => Rejected
    case NonText(truthy) => if truthy then Failed else Rejected
    case Text(s) =>
      if s == "" || !StartsWith(s, AudioUrlPrefix) then Rejected
      else
        ReplacePrefix(s, AudioUrlPrefix, "");
        assert ReplaceFirst(s, AudioUrlPrefix, "") == s[|AudioUrlPrefix|..];
        match DecodedName(s, decode)
        case None => Failed
        case Some(name) =>
          var filePath := Join(Dir(audio), name);
          if !StartsWith(filePath, Dir(audio) + "/") then Rejected else Unlink(filePath)
  }

  /** The corrected route on `/audio/` followed by `rest`. */
  lemma ContainedRouteOnAudioUrl(audio: seq<string>, rest: string, decode: string -> Option<string>)
    requires audio != [] && PlainSegments(audio)
    ensures ContainedDeleteRoute(audio, Text(AudioUrlPrefix + rest), decode) ==
      match decode(rest)
      case None => Failed
      case Some(name) =>
        if StartsWith(Join(Dir(audio), name), Dir(audio) + "/") then Unlink(Join(Dir(audio), name)) else Rejected
  {
    var url := AudioUrlPrefix + rest;
    assert url[..|AudioUrlPrefix|] == AudioUrlPrefix;
    ReplacePrefix(url, AudioUrlPrefix, "");
    assert url[|AudioUrlPrefix|..] == rest;
    assert "" + rest == rest;
    assert DecodedName(url, decode) == decode(rest);
  }

  /** Whatever the corrected route unlinks lies strictly inside the audio directory. */
  lemma ContainedRouteStaysInside(audio: seq<string>, file: FileField, decode: string -> Option<string>)
    requires audio != [] && PlainSegments(audio)
    requires ContainedDeleteRoute(audio, file, decode).Unlink?
    ensures var name := decode(file.s[|AudioUrlPrefix|..]).value;
      var stack := Resolve(Split(name), audio);
      && ContainedDeleteRoute(audio, file, decode).path == Render(stack, name != "" && name[|name| - 1] == '/')
      && |stack| >= |audio| && stack[..|audio|] == audio
  {
    JoinStrictlyUnderDir(audio, decode(file.s[|AudioUrlPrefix|..]).value);
  }

  /** The correction only narrows the route: what it unlinks, the route as written unlinks too. */
  lemma ContainedRouteNarrowsDeleteRoute(audio: seq<string>, file: FileField, decode: string -> Option<string>)
    requires audio != [] && PlainSegments(audio)
    ensures ContainedDeleteRoute(audio, file, decode).Unlink? ==>
      DeleteRoute(audio, file, decode) == ContainedDeleteRoute(audio, file, decode)
    ensures !DeleteRoute(audio, file, decode).Unlink? ==>
      ContainedDeleteRoute(audio, file, decode) == DeleteRoute(audio, file, decode)
  {
    if file.Text? && StartsWith(file.s, AudioUrlPrefix) {
      assert file.s == AudioUrlPrefix + file.s[|AudioUrlPrefix|..];
      DeleteRouteOnAudioUrl(audio, file.s[|AudioUrlPrefix|..], decode);
      ContainedRouteOnAudioUrl(audio, file.s[|AudioUrlPrefix|..], decode);
      match decode(file.s[|AudioUrlPrefix|..])
      case None =>
      case Some(name) =>
        var p := Join(Dir(audio), name);
        if StartsWith(p, Dir(audio) + "/") {
          assert p[..|Dir(audio)|] == (Dir(audio) + "/")[..|Dir(audio)|];
        }
    }
  }

  /** The corrected route refuses the sibling-directory request generally. */
  lemma ContainedRouteRefusesSibling(parent: seq<string>, d: string, s: string, n: string, decode: string -> Option<string>)
    requires parent != [] && PlainSegments(parent)
    requires PlainSegment(d) && PlainSegment(s) && PlainSegment(n)
    requires StartsWith(s, d) && s != d
    requires decode(".." + "/" + s + "/" + n) == Some(".." + "/" + s + "/" + n)
    ensures ContainedDeleteRoute(parent + [d], Text(AudioUrlPrefix + (".." + "/" + s + "/" + n)), decode) == Rejected
  {
    JoinSibling(parent, d, s, n);
    ContainedRouteOnAudioUrl(parent + [d], ".." + "/" + s + "/" + n, decode);
    SiblingPrefix(parent, d, s, n);
  }

  /** With the corrected check, the request that reached `/srv/audio2/x.mp3` is answered 400. */
  lemma ContainedRouteRefusesSiblingDirectory()
    ensures ContainedDeleteRoute(["srv", "audio"], Text("/audio/../audio2/x.mp3"), PlainDecode) == Rejected
  {
    SiblingLiterals();
    ContainedRouteRefusesSibling(["srv"], "audio", "audio2", "x.mp3", PlainDecode);
  }

  /** Every listed track still deletes itself through the corrected route. */
  lemma ContainedRouteDeletesListedTrack(audio: seq<string>, files: seq<string>, encode: string -> string,
                                         decode: string -> Option<string>, i: nat)
    requires audio != [] && PlainSegments(audio)
    requires i < |ListTracks(files, encode)|
    requires PlainSegment(Filter(IsMp3Name, files)[i])
    requires decode(encode(Filter(IsMp3Name, files)[i])) == Some(Filter(IsMp3Name, files)[i])
    ensures ContainedDeleteRoute(audio, Text(ListTracks(files, encode)[i].file), decode)
      == Unlink(Dir(audio) + "/" + Filter(IsMp3Name, files)[i])
  {
    var name := Filter(IsMp3Name, files)[i];
    assert ListTracks(files, encode)[i].file == AudioUrlPrefix + encode(name);
    JoinPlainName(audio, name);
    PlainNameUnderDir(audio, name);
    ContainedGuardPasses(audio, encode(name), decode, name, Dir(audio) + "/" + name);
  }

  /** A decoded name whose joined path passes the corrected guard is unlinked. */
  lemma ContainedGuardPasses(audio: seq<string>, rest: string, decode: string -> Option<string>, name: string, path: string)
    requires audio != [] && PlainSegments(audio)
    requires decode(rest) == Some(name) && Join(Dir(audio), name) == path && StartsWith(path, Dir(audio) + "/")
    ensures ContainedDeleteRoute(audio, Text(AudioUrlPrefix + rest), decode) == Unlink(path)
  {
    ContainedRouteOnAudioUrl(audio, rest, decode);
  }

  /** `../../e/f` from `g/x/d` lands on `g/e/f`. */
  lemma ResolveTwoUp(g: seq<string>, x: string, d: string, e: string, f: string)
    requires PlainSegments(g) && PlainSegment(x) && PlainSegment(d) && PlainSegment(e) && PlainSegment(f)
    ensures PlainSegments(g + [x, d])
    ensures Resolve(["..", "..", e, f], g + [x, d]) == g + [e, f]
  {
    var stack := g + [x, d];
    assert forall i :: 0 <= i < |stack| ==> stack[i] == if i < |g| then g[i] else if i == |g| then x else d;
    assert stack[..|stack| - 1] == g + [x];
    assert Resolve(["..", "..", e, f], stack) == Resolve(["..", e, f], g + [x]);
    ResolveSibling(g, x, e, f);
  }

  lemma SplitFour(a: string, b: string, c: string, e: string)
    requires NoSlash(a) && NoSlash(b) && NoSlash(c) && NoSlash(e)
    ensures Split(a + "/" + b + "/" + c + "/" + e) == [a, b, c, e]
  {
    SplitAround(a + "/" + b + "/" + c, e);
    SplitThree(a, b, c);
    SplitNoSlash(e);
  }

  lemma TraversalSegments()
    ensures PlainSegments(["srv"]) && PlainSegment("app") && PlainSegment("audio")
    ensures PlainSegment("etc") && PlainSegment("passwd")
  {
    assert PlainSegment("srv");
  }

  lemma TraversalStacks()
    ensures PlainSegments(["srv", "app", "audio"])
    ensures ["srv"] + ["app", "audio"] == ["srv", "app", "audio"]
    ensures ["srv"] + ["etc", "passwd"] == ["srv", "etc", "passwd"]
  {
    TraversalSegments();
  }

  lemma TraversalUrl()
    ensures AudioUrlPrefix + ("../../etc/passwd") == "/audio/../../etc/passwd"
    ensures "../../etc/passwd" == ".." + "/" + ".." + "/" + "etc" + "/" + "passwd"
  {
  }

  lemma TraversalDirs()
    ensures Dir(["srv", "etc", "passwd"]) == "/srv/etc/passwd"
    ensures Dir(["srv", "app", "audio"]) == "/srv/app/audio"
  {
    JoinedThree("srv", "etc", "passwd");
    JoinedThree("srv", "app", "audio");
  }

  lemma TraversalOutside()
    ensures !StartsWith("/srv/etc/passwd", "/srv/app/audio")
  {
    assert "/srv/etc/passwd"[5] != "/srv/app/audio"[5];
  }

  lemma TraversalLiterals()
    ensures PlainSegments(["srv"]) && PlainSegment("app") && PlainSegment("audio")
    ensures PlainSegment("etc") && PlainSegment("passwd")
    ensures PlainSegments(["srv", "app", "audio"])
    ensures ["srv"] + ["app", "audio"] == ["srv", "app", "audio"]
    ensures ["srv"] + ["etc", "passwd"] == ["srv", "etc", "passwd"]
    ensures AudioUrlPrefix + ("../../etc/passwd") == "/audio/../../etc/passwd"
    ensures "../../etc/passwd" == ".." + "/" + ".." + "/" + "etc" + "/" + "passwd"
    ensures Dir(["srv", "etc", "passwd"]) == "/srv/etc/passwd"
    ensures Dir(["srv", "app", "audio"]) == "/srv/app/audio"
    ensures !StartsWith("/srv/etc/passwd", "/srv/app/audio")
  {
    TraversalSegments();
    TraversalStacks();
    TraversalUrl();
    TraversalDirs();
    TraversalOutside();
  }

  /** Joining `../../e/f` onto `g/x/d` gives `g/e/f`. */
  lemma JoinTwoUp(g: seq<string>, x: string, d: string, e: string, f: string)
    requires PlainSegments(g) && PlainSegment(x) && PlainSegment(d) && PlainSegment(e) && PlainSegment(f)
    ensures PlainSegments(g + [x, d])
    ensures Join(Dir(g + [x, d]), ".." + "/" + ".." + "/" + e + "/" + f) == Dir(g + [e, f])
  {
    var rest := ".." + "/" + ".." + "/" + e + "/" + f;
    ResolveTwoUp(g, x, d, e, f);
    JoinOntoDir(g + [x, d], rest);
    SplitFour("..", "..", e, f);
    assert rest[|rest| - 1] == f[|f| - 1];
  }

  /** `/audio/../../etc/passwd` climbs out of `/srv/app/audio` and is refused before any unlink. */
  lemma TraversalIsRejected()
    ensures DeleteRoute(["srv", "app", "audio"], Text("/audio/../../etc/passwd"), PlainDecode) == Rejected
  {
    TraversalLiterals();
    JoinTwoUp(["srv"], "app", "audio", "etc", "passwd");
    DeleteRouteOnAudioUrl(["srv", "app", "audio"], "../../etc/passwd", PlainDecode);
  }

  // ----------------------------------------------------------------- upload

  /** The filter's error message, "only MP3 files can be uploaded". */
  const Mp3OnlyMessage: string := "MP3\U{30D5}\U{30A1}\U{30A4}\U{30EB}\U{306E}\U{307F}\U{30A2}\U{30C3}\U{30D7}\U{30ED}\U{30FC}\U{30C9}\U{53EF}\U{80FD}\U{3067}\U{3059}"

  /** The upload size limit, 50 MiB. */
  const MaxUploadBytes: nat := 50 * 1024 * 1024

  /** multer's `fileFilter`: the extension of the UTF-8 re-decoded name, lower-cased, must be `.mp3`. */
  predicate AcceptsUpload(originalName: string, utf8: string -> string)
  {
    ToLower(Extname(utf8(originalName))) == ".mp3"
  }

  lemma BasenameOfPlainName(name: string)
    requires NoSlash(name)
    ensures Basename(name) == name
  {
    assert TrimTrailingSlashes(name) == name;
    assert LastIndexOf(name, '/') == -1;
  }

  /** `path.extname` of a name without slashes: from its last dot, unless that dot is first or the name is `..`. */
  lemma ExtnameOfPlainName(name: string)
    requires NoSlash(name)
    ensures var dot := LastIndexOf(name, '.');
      Extname(name) == if name == ".." || dot <= 0 then "" else name[dot..]
  {
    BasenameOfPlainName(name);
  }

  /** A dot with no dot after it is the last dot. */
  lemma LastDotAt(name: string, k: nat)
    requires k < |name| && name[k] == '.'
    requires forall i :: k < i < |name| ==> name[i] != '.'
    ensures LastIndexOf(name, '.') == k
  {
  }

  lemma ToLowerSuffix(s: string, k: nat)
    requires k <= |s|
    ensures ToLower(s[k..]) == ToLower(s)[k..]
  {
  }

  /** An extension that lower-cases to `.mp3` is the name's last four characters, after a non-empty base. */
  lemma UploadFilterImpliesListing(name: string)
    requires NoSlash(name)
    requires ToLower(Extname(name)) == ".mp3"
    ensures IsMp3Name(name) && |name| > 4
  {
    ExtnameOfPlainName(name);
    var dot := LastIndexOf(name, '.');
    var e := Extname(name);
    assert |ToLower(e)| == |e| == 4;
    assert name != ".." && dot > 0;
    assert e == name[dot..];
    LowerSuffixIsMp3(name, dot);
  }

  /** A suffix that lower-cases to `.mp3` makes the lower-cased name end in `.mp3`. */
  lemma LowerSuffixIsMp3(name: string, k: nat)
    requires k <= |name| && ToLower(name[k..]) == ".mp3"
    ensures k == |name| - 4 && IsMp3Name(name)
  {
    ToLowerSuffix(name, k);
    assert |ToLower(name[k..])| == |name| - k;
  }

  /** A name longer than `.mp3` whose lower-cased form ends in `.mp3` has the extension `.mp3` in some case. */
  lemma ListingImpliesUploadFilter(name: string)
    requires NoSlash(name)
    requires IsMp3Name(name) && |name| > 4
    ensures ToLower(Extname(name)) == ".mp3"
  {
    var l := ToLower(name);
    var n := |name|;
    assert l[n - 4..] == ".mp3";
    assert LowerChar(name[n - 4]) == '.' && LowerChar(name[n - 3]) == 'm';
    assert LowerChar(name[n - 2]) == 'p' && LowerChar(name[n - 1]) == '3';
    assert name[n - 4] == '.';
    LastDotAt(name, n - 4);
    ExtnameOfPlainName(name);
    assert Extname(name) == name[n - 4..];
    ToLowerSuffix(name, n - 4);
  }

  /**
   * On a name without slashes the upload filter and the listing disagree in
   * one case only: the filter also wants something before the dot, so
   * `.mp3` itself is refused on upload although `/api/tracks` would list it.
   */
  lemma UploadFilterAgreesWithListing(name: string)
    requires NoSlash(name)
    ensures ToLower(Extname(name)) == ".mp3" <==> IsMp3Name(name) && |name| > 4
  {
    if ToLower(Extname(name)) == ".mp3" {
      UploadFilterImpliesListing(name);
    }
    if IsMp3Name(name) && |name| > 4 {
      ListingImpliesUploadFilter(name);
    }
  }

  /** The re-decoding for names that are plain ASCII, which it leaves unchanged. */
  function AsciiUtf8(s: string): string
  {
    s
  }

  lemma LastDotOfDotMp3()
    ensures NoSlash(".mp3") && LastIndexOf(".mp3", '.') == 0
  {
    var name := ".mp3";
    var r := LastIndexOf(name, '.');
    assert name[0] == '.';
    assert name[1] != '.' && name[2] != '.' && name[3] != '.';
  }

  /** `.mp3` has no extension for `path.extname`: its only dot starts the name. */
  lemma ExtnameOfDotMp3()
    ensures Extname(".mp3") == ""
  {
    LastDotOfDotMp3();
    BasenameOfPlainName(".mp3");
  }

  lemma DotMp3NotAccepted()
    ensures !AcceptsUpload(".mp3", AsciiUtf8)
  {
    ExtnameOfDotMp3();
    assert ToLower("") == "";
  }

  lemma DotMp3Listed()
    ensures IsMp3Name(".mp3")
  {
    var name := ".mp3";
    ToLowerNoUpper(name);
    assert name[0..] == name;
  }

  /** `.mp3` is refused on upload although `/api/tracks` lists it. */
  lemma DotMp3IsRefused()
    ensures !AcceptsUpload(".mp3", AsciiUtf8)
    ensures IsMp3Name(".mp3")
  {
    DotMp3NotAccepted();
    DotMp3Listed();
  }

  /** The errors that reach the error-handling middleware. */
  datatype ServerError = MulterError(code: string, message: string) | PlainError(message: string)

  /**
   * The error handler's status: 400 for multer's file-size error and for the
   * filter's MP3-only error, 500 for everything else (other multer errors
   * included).
   */
  function ErrorStatus(e: ServerError): (status: int)
    ensures status == 400 <==> (e.MulterError? && e.code == "LIMIT_FILE_SIZE") || e.message == Mp3OnlyMessage
    ensures status == 500 <==> status != 400
  {
    if e.MulterError? && e.code == "LIMIT_FILE_SIZE" then 400
    else if e.message == Mp3OnlyMessage then 400
    else 500
  }

  /** A multipart request to `/api/upload`: no file, a file under another field name, or a file under `audio`. */
  datatype UploadRequest = NoFile | UnexpectedField(fieldName: string) | WithFile(originalName: string, size: nat)

  /** The reply: its status and, on success, the name the file is saved under. */
  datatype UploadReply = UploadReply(status: int, saved: Option<string>)

  /**
   * `upload.single('audio')` followed by the route handler: a file under
   * another field fails with multer's `LIMIT_UNEXPECTED_FILE`, the filter
   * runs before the size limit, the route answers 400 when no file came, and
   * a stored file keeps its re-decoded original name.
   */
  function UploadError(req: UploadRequest, utf8: string -> string): (r: Option<ServerError>)
    ensures r.None? <==> req.NoFile? || (req.WithFile? && AcceptsUpload(req.originalName, utf8) && req.size <= MaxUploadBytes)
  {
    match req
    case NoFile => None
    case UnexpectedField(_) => Some(MulterError("LIMIT_UNEXPECTED_FILE", "Unexpected field"))
    case WithFile(name, size) =>
      if !AcceptsUpload(name, utf8) then Some(PlainError(Mp3OnlyMessage))
      else if size > MaxUploadBytes then Some(MulterError("LIMIT_FILE_SIZE", "File too large"))
      else None
  }

  function UploadRoute(req: UploadRequest, utf8: string -> string): (r: UploadReply)
    ensures r.status == 200 <==> r.saved.Some?
    ensures r.saved.Some? <==> req.WithFile? && AcceptsUpload(req.originalName, utf8) && req.size <= MaxUploadBytes
    ensures r.saved.Some? ==> r.saved.value == utf8(req.originalName)
    ensures r.status == 400 <==> req.NoFile? || (req.WithFile? && (!AcceptsUpload(req.originalName, utf8) || req.size > MaxUploadBytes))
    ensures req.UnexpectedField? ==> r.status == 500
  {
    match UploadError(req, utf8)
    case Some(e) => UploadReply(ErrorStatus(e), None)
    case None =>
      if req.NoFile? then UploadReply(400, None) else UploadReply(200, Some(utf8(req.originalName)))
  }

  /** A file the filter refuses is answered 400 whatever its size. */
  lemma RefusedExtensionIs400(name: string, size: nat, utf8: string -> string)
    requires !AcceptsUpload(name, utf8)
    ensures UploadError(WithFile(name, size), utf8) == Some(PlainError(Mp3OnlyMessage))
    ensures UploadRoute(WithFile(name, size), utf8) == UploadReply(400, None)
  {
  }
}
