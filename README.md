# Local MP3 playlist player — a Dafny model

The system is a small MP3 player. It has three parts, and this project models the decision logic of each:

- **The browser page (`app.js`).** It opens a local folder through the File System Access API and lists the `.mp3` files in it under Japanese collation. It plays a track through a blob object URL and copies newly chosen MP3 files into the folder. Each copy is saved under the first free name among the names present when it probes: the name itself, then `name (1).mp3`, `name (2).mp3`, …. Copies made concurrently in one batch can still pick the same name (see "## Left out").
- **An Express server (`server.js`).** It lists the folder's tracks as JSON, accepts MP3 uploads and deletes a track by its URL.
- **A script (`scripts/generate-tracklist.mjs`).** It writes the folder's track names to `audio/tracklist.json`.

The model leaves out the I/O around these parts. Instead it takes the folder contents, the settled promise results and the library helpers as given values:

- a set of names stands for `fileExists`;
- a sequence of entries stands for `readdir`/`entries()`;
- a collation relation `le` stands for `localeCompare(…, "ja")`;
- function parameters stand for `encodeURIComponent`/`decodeURIComponent` and the latin1→UTF-8 re-decoding.

Node's posix `path.join` and `path.extname` are modelled exactly, as segment normalisation. In `app.js`, the renaming loop and the track-collecting loop are methods with loop invariants. The state behind `currentObjectUrl` and `activeButton` is a class. Everything else is a pure function.

Behaviour one might expect that the code does not have:

- advancing to the next track when one ends;
- a fallback chain over several track sources;
- re-locating the playing track after a refresh;
- a hard rejection of every path-traversal attempt on delete.

This model follows the code. The `ended` handler only clears the highlight (`AppPlayer.Player.OnEnded`). The delete guard is modelled as written, and its gap is shown under Findings.

Files:

- `wrappers.dfy`, `strings.dfy`, `sequences.dfy`: Option/Result types, JavaScript string operations, and `filter`/`map` on sequences.
- `collation.dfy`: an insertion sort under a total relation, standing in for the `sort` call with `localeCompare`.
- `mp3_names.dfy`: the two MP3-name tests used by the code.
- `node_path.dfy`: `path.join` and `path.extname`.
- `app_names.dfy`, `app_files.dfy`, `app_permission.dfy`, `app_import.dfy`, `app_player.dfy`: `app.js`.
- `server.dfy`: `server.js`.
- `json.dfy`, `tracklist.dfy`: the manifest script and the JSON it writes.

## Model

| member | source | states |
|---|---|---|
| Mp3Names.Mp3TestsAgree | server.js:54-57 | `name.toLowerCase().endsWith(".mp3")` holds exactly when `/\.mp3$/i` matches |
| Mp3Names.StripMp3Suffix | app.js:206 | removes the last four characters exactly when they are `.mp3` in any case; otherwise returns the input |
| Mp3Names.StripRemovesOneSuffix | app.js:206 | only one extension is removed: the input is the result followed by its last four characters, or the result is the input |
| AppNames.CollapseSeparatorsSpec | app.js:207 | `.replace(/[\-_]+/g, " ")`: no `-` or `_` is left, the length never grows, and the characters other than `-`, `_` and whitespace are kept in order |
| AppNames.CollapseRun | app.js:207 | a whole maximal run of `-`/`_` at the front becomes exactly one space, and the text after it is collapsed on its own |
| AppNames.CollapseRunBetween | app.js:207 | a run of `-`/`_` between two non-separators (or the ends) is replaced by exactly one space, with both sides collapsed independently |
| AppNames.CollapseConcat | app.js:207 | collapsing distributes over concatenation whenever no run of separators crosses the seam |
| AppNames.CollapseKeepsOther | app.js:207 | any character other than `-`/`_`, whitespace included, stays where it is |
| AppNames.CollapseWithoutSeparators | app.js:207 | a name with no `-` or `_` is left unchanged |
| AppNames.FormatTrackNameSpec | app.js:204-209 | the title has no `-`/`_`, starts and ends with a non-whitespace character, and keeps, in order, every character of the name without its `.mp3` other than `-`, `_` and whitespace |
| AppNames.FormatTrackNameKeepsCleanTitle | app.js:204-209 | a name already free of separators and edge whitespace keeps its text; only `.mp3` goes |
| AppNames.FormatTrackNameStripsOnce | app.js:206 | `a.mp3.mp3` becomes `a.mp3` |
| AppNames.FormatTrackNameJoinsWords | app.js:204-209 | two clean words joined by any run of `-`/`_`, with `.mp3` after, are shown as the two words with a single space between |
| AppNames.FormatTrackNameOneDash | app.js:204-209 | `a-b.mp3` is shown as `a b` |
| Strings.TrimIsCentralSlice | app.js:208 | `trim` returns a contiguous slice of the input whose ends are not whitespace, and everything cut off is JavaScript whitespace |
| Strings.CentralSliceUnique | app.js:208 | a string has only one such slice |
| Strings.CentralSliceIsTrim | app.js:208 | so any slice with whitespace-free ends and only whitespace outside it is what `trim` returns |
| AppFiles.Normalize | app.js:244 | the trimmed name when it is not empty, else `track.mp3` |
| AppFiles.SplitAtLastDot | app.js:245-247 | base + extension is the name; the base is never empty; the extension is empty or a dot with no further dot; it is empty exactly when the last dot is at index 0 or absent |
| AppFiles.DotFileKeepsWholeName | app.js:245-247 | `.mp3` has base `.mp3` and an empty extension |
| AppFiles.CandidateInjective | app.js:253 | different counters give different `base (k)ext` names |
| AppFiles.ProbeInjective | app.js:249-253 | no name is tried twice during one call |
| AppFiles.FirstFreeProbeUnique | app.js:252-257 | there is exactly one first free probe, so the returned name is determined |
| AppFiles.GetAvailableFileName | app.js:243-258 | the result is not in the directory. It is the normalised name when that is free. Otherwise it is `base (k)ext` for the least free `k >= 1`, with `k` at most the number of existing names, so the loop ends within `\|existing\| + 1` probes |
| AppFiles.ProbeFreeName | app.js:245-257 | the probing loop, from the normalised name on: the name it stops at is absent from the directory. It is that name itself when free, otherwise the first free `base (k)ext`, reached within `\|existing\| + 1` probes |
| AppFiles.RepeatedImportsCountUp | app.js:249-255 | `a.mp3` on top of `a.mp3` is saved as `a (1).mp3`, and again as `a (2).mp3` |
| AppPermission.RequestPermission | app.js:211-226 | false without a handle or either method; true when the query says `granted`; false when it says `denied`; otherwise true exactly when the request answers `granted`; the user is asked only in that last case |
| AppPermission.AnswerMattersOnlyWhenPrompted | app.js:217-225 | the request's answer changes the outcome only when the user is prompted |
| AppImport.RecordFor | app.js:236-237 | `renamed` is true exactly when the saved name differs from the original |
| AppImport.TallyOf | app.js:95-98 | imported + failures = number of results; renamed ≤ imported |
| AppImport.TallyOfConcat | app.js:95-98 | the tally of a concatenation is the sum of the tallies: each outcome is counted on its own |
| AppImport.RenamedCountsChangedNames | app.js:94-97 | the renamed count is the number of successes whose saved name differs from the original |
| AppImport.MessageFor | app.js:100-111 | the failure-only message exactly when nothing was imported and something failed; otherwise the copied count, a renamed note exactly when renamed > 0, and a failure note exactly when failures > 0 |
| AppImport.FailureOnlyExactlyWhenAllFailed | app.js:101 | the failure-only message appears exactly when there are results and every one was rejected |
| AppPlayer.CollectTracks | app.js:139-145 | the loop pushes exactly the file entries with an MP3 name, in directory order |
| AppPlayer.PlaylistSpec | app.js:141-147 | the sorted list holds exactly the file entries with an MP3 name, as often as listed, with adjacent names in collation order |
| AppPlayer.Player.constructor | app.js:11-12 | no object URL and no active button at start |
| AppPlayer.Player.AtMostOneLive | app.js:167-198 | under the player's invariant at most one object URL is live |
| AppPlayer.Player.SetActiveButton | app.js:183-191 | the given button, or none, becomes the active one |
| AppPlayer.Player.ClearAudioSource | app.js:193-198 | revokes the current URL exactly when there is one, leaves `currentObjectUrl` null and no URL live |
| AppPlayer.Player.PlayTrack | app.js:167-181 | a readable file revokes the previous URL before a fresh one is created and kept; the button is activated only if playback starts; an unreadable file changes nothing |
| AppPlayer.Player.OnEnded | app.js:125-128 | the highlight is cleared and nothing else changes in the player state |
| AppPlayer.Player.LoadTracks | app.js:130-165 | without a folder nothing happens; otherwise the highlight is cleared and the sorted MP3 playlist is returned; an empty playlist also clears the audio source |
| AppPlayer.ClearTwice | app.js:193-198 | clearing twice revokes once; the second call revokes nothing |
| Collation.Sort | scripts/generate-tracklist.mjs:12 | the result is a permutation of the input with adjacent elements in non-decreasing order |
| Collation.AdjacentSortedIsSorted | app.js:147 | with a transitive collation, adjacent order gives order between every pair |
| ServerApi.ListTracks | server.js:52-62 | one entry per file whose lower-cased name ends in `.mp3`; title = the name without its last four characters; file = `/audio/` + encoded name |
| ServerApi.ListTracksConcat | server.js:53-62 | the listing keeps `readdir` order and is not sorted |
| ServerApi.ListedExactlyMp3Files | server.js:53-62 | a file is listed exactly when its name passes the MP3 test |
| ServerApi.ListedUrlsIdentifyFiles | server.js:60 | with an injective encoder, different listed files get different URLs |
| ServerApi.TracksRoute | server.js:50-68 | 200 with the listing when `readdir` succeeds, 500 otherwise |
| ServerApi.DeleteRoute | server.js:87-103 | a missing or falsy `file`, or one not starting with `/audio/`, is rejected. An unlink happens only after that check and a successful decode, on `path.join(audioDir, decoded)`, and only for a path that starts with `audioDir` |
| ServerApi.DeleteStatus | server.js:90-108 | 200 exactly when the unlink is reached and succeeds; 400 exactly for a rejection; 500 exactly for a failed decode or `startsWith` on a non-string (the thrown error) or a failed unlink |
| ServerApi.DeleteRouteOnAudioUrl | server.js:94-103 | for `/audio/` + rest: a decode failure gives 500; otherwise the joined path is unlinked when it passes the prefix check and rejected when it fails it |
| ServerApi.ListedTrackDeletesItself | server.js:95-103 | deleting a listed track's URL unlinks that file in the audio directory, when decoding undoes encoding |
| ServerApi.DeleteGuardAdmitsSiblingPrefix | server.js:99 | what passes the check as written stays in the audio directory's parent and shares every segment but the last, which need only begin with the directory's name |
| ServerApi.SiblingEscapesAsWritten | server.js:95-103 | `/audio/../s/n` with `s` a longer name beginning with the directory's name unlinks `parent/s/n` |
| ServerApi.SiblingDirectoryIsUnlinked | server.js:95-103 | `/audio/../audio2/x.mp3` with audio dir `/srv/audio` unlinks `/srv/audio2/x.mp3` |
| ServerApi.TraversalIsRejected | server.js:96-101 | `/audio/../../etc/passwd` from `/srv/app/audio` is rejected before any unlink |
| ServerApi.ContainedDeleteRoute | server.js:98-101 | the corrected route: as above, but the joined path must start with `audioDir + "/"` |
| ServerApi.ContainedRouteStaysInside | server.js:98-101 | whatever the corrected route unlinks resolves to the audio directory's segments followed by more |
| ServerApi.ContainedRouteNarrowsDeleteRoute | server.js:98-101 | the correction only narrows the route: what it unlinks the original unlinks, and whatever the original refuses it refuses the same way |
| ServerApi.ContainedRouteRefusesSibling | server.js:98-101 | the corrected route rejects every `/audio/../s/n` sibling request |
| ServerApi.ContainedRouteRefusesSiblingDirectory | server.js:98-101 | the corrected route rejects `/audio/../audio2/x.mp3` |
| ServerApi.ContainedRouteDeletesListedTrack | server.js:95-103 | every listed track still deletes itself through the corrected route |
| NodePath.JoinOntoDir | server.js:96 | joining a name onto a normalised directory resolves the name's segments on top of the directory's own |
| NodePath.JoinPlainName | server.js:96 | a plain file name lands directly inside the directory |
| NodePath.RenderUnderDir | server.js:99 | a normalised path starting with `dir + "/"` lies under the directory |
| NodePath.Extname | server.js:34 | `path.extname`: empty or starting with a dot, and slash-free |
| ServerApi.UploadFilterAgreesWithListing | server.js:33-38 | for a slash-free name, the upload filter accepts exactly the names the listing treats as MP3 that are longer than `.mp3` |
| ServerApi.DotMp3IsRefused | server.js:33-38 | `.mp3` is refused on upload though the listing would show it |
| ServerApi.ErrorStatus | server.js:112-122 | 400 exactly for multer's `LIMIT_FILE_SIZE` or the MP3-only message; 500 for everything else, other multer errors included |
| ServerApi.UploadError | server.js:27-40 | no error exactly when no file came, or an MP3 file within 50 MiB came under the `audio` field |
| ServerApi.UploadRoute | server.js:71-84 | 200 exactly when a file is saved, which happens exactly for an accepted MP3 within the limit, under its re-decoded name; 400 for no file, a refused extension or an oversize file; 500 for an unexpected field |
| ServerApi.RefusedExtensionIs400 | server.js:112-122 | a refused extension gives 400, whatever the size |
| Json.ReadEscaped | scripts/generate-tracklist.mjs:18 | an escaped string body reads back as the string, up to its closing quote |
| Json.ManifestRoundTrip | scripts/generate-tracklist.mjs:18 | `JSON.stringify(names, null, 2) + "\n"` reads back as `names`; `[]` is written for no names |
| Json.StringifyInjective | scripts/generate-tracklist.mjs:18 | different name lists are written as different texts |
| Tracklist.ManifestNamesMembers | scripts/generate-tracklist.mjs:9-11 | a name is kept exactly when some entry is a regular file with that MP3 name; a directory named `x.mp3` is not kept |
| Tracklist.TracksSpec | scripts/generate-tracklist.mjs:9-12 | the manifest is a permutation of the kept names, with one name per kept entry and adjacent names in collation order |
| Tracklist.TracksSorted | scripts/generate-tracklist.mjs:12 | with a transitive collation, every earlier name sorts no later than every later one |
| Tracklist.ManifestNeverListsItself | scripts/generate-tracklist.mjs:10 | `tracklist.json` is never listed |
| Tracklist.Run | scripts/generate-tracklist.mjs:7-26 | a failed `readdir` writes nothing and gives exit code 1. Otherwise the written text reads back as the sorted names. It warns exactly when there are none, and the exit code is 0 exactly when the write succeeds |
| Tracklist.EmptyFolderWritesEmptyArray | scripts/generate-tracklist.mjs:14-19 | a folder without regular MP3 files writes `[]\n`, warns, and exits with 0 |

## Left out

- DOM rendering, status-message texts, the `<audio>` element's `play`/`pause`/`load`, the folder-choice and add-button handlers (app.js:26-123), and the button/template wiring. These are UI effects. Only the state they change is modelled, and the outcome of `play()` is a parameter of `PlayTrack`.
- The browser File System Access API and node `fs` are I/O. The model has a set of existing names, a sequence of directory entries, and booleans for readable/written/unlinked.
- `fileExists` rethrowing errors other than `NotFoundError` (app.js:268) is an I/O failure. It is not modelled: a name is either in the set or not.
- `async`/`await` and `Promise.allSettled` ordering are not modelled: the settled results are a given sequence. Two imports of the same name in one batch run concurrently. They can probe the same free name, which a sequential model cannot show.
- Strings.ToLower: lower-cases ASCII letters only, because JavaScript's full Unicode case mapping is not modelled. Every test here compares against the ASCII `.mp3`.
- JavaScript strings are UTF-16. Dafny strings here are sequences of Unicode scalar values, so `JSON.stringify`'s escaping of lone surrogates is not modelled. `Json.ReadBody` also does not join surrogate-pair escapes.
- `localeCompare(…, "ja")` ICU collation is not modelled. It is the parameter `le`, assumed total, and also transitive where pairwise order is stated.
- Collation.Sort: stability is not proved, only permutation and order.
- `encodeURIComponent`, `decodeURIComponent` and the latin1→UTF-8 buffer re-decoding are library behaviour, given as function parameters. Encoding is assumed injective where it matters, and multer's own handling of path characters in upload names is not modelled.
- `path.join` is modelled for the posix case only, onto an absolute, normalised audio directory given by its segments. Windows paths are not modelled.
- The 50 MiB limit is only a comparison against the request's size. multer's streaming enforcement and partial writes are not modelled, nor is the Express and multer wiring, static serving, `express.json` parsing or `app.listen`.
- The manifest script's `path.resolve` of the working directory, its console output, and the exact exit of the Node process are not modelled. Only the exit code it sets is modelled.

## Findings

| source | as written | input that shows it | evidently intended | confidence | as-written member | corrected member |
|---|---|---|---|---|---|---|
| server.js:99 | `filePath.startsWith(audioDir)` is a string-prefix test, so a sibling directory whose name begins with `audio` passes | audio dir `/srv/audio`, body `{"file": "/audio/../audio2/x.mp3"}`: the route unlinks `/srv/audio2/x.mp3` | the comment "prevent access outside the audio directory": require `filePath.startsWith(audioDir + "/")` | high; proved on the model, not executed | ServerApi.SiblingDirectoryIsUnlinked | ServerApi.ContainedRouteRefusesSiblingDirectory |
