# DeezerDeduplicator: the duplicate-detection core in Dafny

DeezerDeduplicator removes repeated songs from a user's Deezer playlists. This
project models the part of it that decides what counts as a duplicate and
what happens to the duplicates it finds:

- **the classification loop.** One pass over the playlist's songs keeps a set of
  seen ISRCs and a dict of seen `(SNG_TITLE + VERSION, ART_ID)` keys, and collects
  in order the songs whose key is already there. The mode (`deduplicate_by`)
  switches the two axes on: 1 is ISRC, 2 is title and artist, 3 is both. The
  ISRC axis is checked first.
- **the per-playlist driver** `deduplicate_playlist`. It fetches the songs,
  classifies them, and then either reports the duplicates (dry run) or sends one
  removal request.
- **the batch driver** `deduplicate_playlists`. It returns None for no input, the
  single result for one input, and for more inputs runs a task group over them.
- **the service client pieces the drivers rely on.** These are:
  - when a reply is used: only when its status is 200 and
    `resp.get("error", []) == []`;
  - the removal payload `[[int(id), 0], ...]`;
  - the numbered playlist menu that `get_playlists` builds, with slot 0
    reserved for the favourites playlist (`TYPE == "4"`).
- **the answer checks of `main()`.** Playlist numbers must satisfy `0 < x < len`
  and repeats are collapsed by `set`. The method must satisfy `0 < n < 4`. The
  dry run stays on unless the stripped, lower-cased answer is `"n"`.

The repository has two copies of the drivers. The current one, in
`library/util.py`, skips a song on the ISRC axis when `song.get("ISRC")` is
falsy, and on the name axis when `song.get("ART_ID")` is falsy. It also reads a
missing VERSION as `""`. The older copy, in `main.py`, reads every field with
`song[...]`. Both copies are proved against one declarative definition
(`Classification.Classify`); they differ only in `Rules.guarded`. A missing
(`Absent`) or null (`Null`) field is modelled explicitly, and so is the Python
exception it causes. In `library/util.py`, a null VERSION raises `TypeError`. In
`main.py`, the following raise:

| field | condition | exception |
|---|---|---|
| VERSION | missing | `KeyError` |
| VERSION | null | `TypeError` |
| ISRC | missing, on the ISRC axis | `KeyError` |
| ART_ID | missing, when the song reaches the name check | `KeyError` |

Modules, one per concern:

| module | file | covers |
|---|---|---|
| `Records` | `records.dfy` | songs, JSON fields, outcomes, result tuples |
| `Classification` | `classification.dfy` | the declarative duplicate definition and its properties |
| `DeezerApi` | `deezer_api.dfy` | magic values, reply checks, removal payload, `get_playlists` |
| `Orchestration` | `orchestration.dfy` | what one playlist and a batch return, as functions of the service's replies |
| `DedupUtil` | `dedup_util.dfy` | the loops of `library/util.py` |
| `DedupMain` | `dedup_main.dfy` | the loops of `main.py` and the answer checks of `main()` |

The service is the value `Server`. It gives the reply to `playlist.getSongs` for
each playlist id, and the reply to `playlist.deleteSongs` for each playlist id and
payload. Each driver method also returns the ids of the removal request it sent,
or `None` if it sent none. That is how the contracts speak about "exactly one
removal call with these ids".

## Model

| member | source | states |
|---|---|---|
| Classification.RulesFor | library/util.py:71-72 | `deduplicate_by` as the axes it switches on (also main.py:23-24): both only for mode 3, none outside 1..3; the guards are those of the copy |
| Classification.ErrorAt | library/util.py:86 | the exception one song raises in the loop body: TypeError exactly for a null VERSION; with the guards nothing else; without them (main.py:38-50) only a KeyError for a missing VERSION, ISRC or ART_ID, and never for a song carrying all three |
| Classification.DuplicatesSplitThePlaylist | library/util.py:85-103 | at most as many duplicates as songs; duplicates and kept songs together are exactly the playlist's songs (sizes and multisets) |
| Classification.DuplicatesKeepListOrder | library/util.py:85-103 | the duplicates sit at strictly increasing positions of the song list, each song at most once, exactly at the positions where a song repeats an earlier key |
| Classification.SelectAtPositions | library/util.py:91 | collecting by appending in list order gives the elements at strictly increasing positions, a position being picked iff its flag is set |
| Classification.SelectPartitions | library/util.py:85-103 | the flagged and the unflagged elements together are the list's elements |
| Classification.IsrcAxisFlagsLaterHolders | library/util.py:89-95 | in mode 1 a song is flagged iff it takes part and an earlier song had the same ISRC, so the first holder of each ISRC is kept |
| Classification.NameAxisFlagsLaterHolders | library/util.py:97-103 | in mode 2 a song is flagged iff it takes part and an earlier participating song had the same (title + version, artist) key |
| Classification.FalsyKeysTakeNoPart | library/util.py:89 | under the guards a song with a falsy ISRC neither matches nor is matched on the ISRC axis, and one with a falsy ART_ID neither on the name axis |
| Classification.NameDuplicateStillClaimsItsIsrc | library/util.py:89-103 | a song flagged by name has already put its new ISRC in the seen set, so a later song with that ISRC is flagged |
| Classification.KeylessSongIsInert | library/util.py:89-103 | a song with falsy ISRC and ART_ID, inserted anywhere, is never flagged and changes neither the other flags nor (VERSION not null) the outcome |
| Classification.KeptIsDuplicateFree | library/util.py:85-103 | the songs left after removing the duplicates contain no duplicates, and classifying them does not raise if classifying the playlist did not |
| Classification.GuardedRaisesOnlyOnNullVersion | library/util.py:86 | with the guards the loop raises iff some VERSION is null, and then raises TypeError |
| Classification.FirstErrorIsEarliest | main.py:38-55 | the loop's exception is that of the earliest song that raises, and there is none iff no song raises |
| Classification.FirstErrorPersists | main.py:37-55 | once a song has raised, every longer prefix has the same outcome |
| Classification.SeenIsrcsAdvance | library/util.py:89-95 | a song is an ISRC duplicate iff it takes part and its ISRC is in the seen set; taking part adds it |
| Classification.SeenNamesAdvance | library/util.py:97-103 | a song is a name duplicate iff it reaches the name check and its key is in the dict; reaching the check adds it |
| Classification.RaisesAt | main.py:37-55 | a song that raises after songs that did not decides the loop's outcome |
| DedupUtil.FindDuplicates | library/util.py:83-103 | the loop over the set of seen ISRCs and the dict of seen names returns exactly `Classify` with the guards |
| DedupUtil.DeduplicatePlaylist | library/util.py:60-119 | the result and the removal request are exactly `Orchestration.Deduplicate` with the guards |
| DedupUtil.DeduplicatePlaylists | library/util.py:121-150 | the result and the removal requests are exactly `Orchestration.DeduplicateAll` with the guards |
| Orchestration.Deduplicate | library/util.py:78-119 | every returned tuple carries the playlist's own name and id; a removal is requested only outside a dry run and only when nothing raised |
| Orchestration.FailedFetchSkipsPlaylist | library/util.py:78-81 | a failed reply (error member or bad status) or an empty song list gives `(None, name, id)` and no removal request |
| Orchestration.DryRunNeverRemoves | library/util.py:105-108 | a dry run requests no removal and reports the duplicates, or None when there are none |
| Orchestration.RemovalNamesTheFlaggedSongs | library/util.py:105-116 | a removal is requested iff not a dry run, the fetch gave songs and some are flagged; it names their ids in order, and the duplicates are reported iff the service accepts it |
| Orchestration.ReportedSongsAreTheFlaggedOnes | library/util.py:105-116 | reported songs are the non-empty classification result, no more than and drawn from the fetched songs |
| Orchestration.BatchKeepsOneResultPerPlaylist | library/util.py:134-150 | None iff no input; otherwise, when nothing raised, exactly one result per playlist in input order; a raising job makes the batch raise (itself for one input, a group exception for more) |
| Orchestration.JobsAreIndependent | library/util.py:142-143 | each job's result depends only on its playlist and on the service's replies for that playlist id |
| Orchestration.Jobs | library/util.py:143 | one job per input playlist |
| DedupMain.FindDuplicates | main.py:35-55 | the loop without the guards returns exactly `Classify` without the guards, including its KeyError and TypeError cases |
| DedupMain.DeduplicatePlaylist | main.py:12-71 | the result and the removal request are exactly `Orchestration.Deduplicate` without the guards |
| DedupMain.DeduplicatePlaylists | main.py:73-102 | the result and the removal requests are exactly `Orchestration.DeduplicateAll` without the guards |
| DedupMain.EmptyIsrcsCollideOnlyWithoutGuards | main.py:41-47 | two songs with the same empty or null ISRC collide in mode 1 without the guards and not with them |
| DedupMain.MissingVersionRaisesOnlyWithoutGuards | main.py:38 | a song without VERSION after songs carrying VERSION, ISRC and ART_ID makes the unguarded loop raise KeyError, while the guarded copy returns unless a VERSION is null |
| DedupMain.AcceptSelection | main.py:167-171 | a selection is accepted iff every number lies in `0 < x < len`; the accepted set never holds 0 |
| DedupMain.SelectionCollapsesRepeats | main.py:168 | the accepted set holds exactly the entered numbers, is never larger than the input, and is as large iff nothing was entered twice |
| DedupMain.SetOfSequence | main.py:168 | a list's set has at most its length, and exactly its length iff its elements are distinct |
| DedupMain.SelectedPlaylists | main.py:201 | one `[title, id]` job per selected number |
| DedupMain.SelectionPicksNumberedPlaylists | main.py:178-201 | number x picks the x-th non-favourites playlist of the menu reply, so the favourites playlist is never picked by number |
| DedupMain.MethodAccepted | main.py:184 | a method is accepted iff it switches on at least one axis |
| DedupMain.Strip | main.py:193 | `strip()` keeps no whitespace at either end |
| DedupMain.StripKeepsTheCore | main.py:193 | what strip keeps is a slice of the answer with only whitespace before and after it |
| DedupMain.StripRemovesSurroundingSpace | main.py:193 | whitespace around a core without whitespace at its ends is exactly what strip removes |
| DedupMain.OnlyShow | main.py:193 | the dry run is off iff the stripped answer is `n` or `N` |
| DedupMain.PaddedNTurnsDryRunOff | main.py:193 | `n` or `N` surrounded by whitespace turns the dry run off |
| DeezerApi.RemovalPayload | library/api.py:175 | one `[id, 0]` pair per song id, in order |
| DeezerApi.Failed | library/api.py:106 | an `error` member counts as an error unless it is missing or the empty list (the same test at 150 and 184) |
| DeezerApi.Accepted | library/api.py:104-108 | a reply is used iff its status is 200 and its `error` member is missing or the empty list |
| DeezerApi.GetSongsInPlaylist | library/api.py:129-157 | None iff the reply is not used; otherwise the song list of the reply |
| DeezerApi.RemoveSongsFromPlaylist | library/api.py:159-191 | True iff the reply to the request carrying `RemovalPayload` has status 200 and no error member other than the empty list |
| Records.SongIds | library/util.py:110 | one SNG_ID per duplicate, in the duplicates' order |
| Orchestration.DeduplicateAll | library/util.py:134-150 | the batch result is None iff there is no input; one removal entry per playlist; with several playlists a raising job makes the batch raise a group exception |
| DeezerApi.MakeRow | library/api.py:13-16 | a row has four cells: number, title, song count and id at MV positions 0, 1, 2 and 3 |
| DeezerApi.GetPlaylists | library/api.py:104-127 | None iff the reply failed; otherwise exactly the menu `Menu(results)` built by the enumerate loop with the favourites flag |
| DeezerApi.MenuListsNonFavouritesInOrder | library/api.py:116-122 | the menu has 1 + the number of non-favourites entries, and rows 1.. hold their titles, song counts and ids in reply order |
| DeezerApi.RowsFollowNonFavourites | library/api.py:116-122 | after n entries the appended rows are the non-favourites among them, in order |
| DeezerApi.FavouritesFillSlotZero | library/api.py:110-115 | slot 0 is None iff there is no favourites entry, and otherwise holds the row numbered 0 of the last one |
| DeezerApi.MenuSlotZero | library/api.py:113-115 | slot 0 holds `[0, TITLE, NB_SONG, PLAYLIST_ID]` of the last entry of type "4" |
| DeezerApi.FavouriteCountGrows | library/api.py:113-115 | the count of favourites entries never decreases along the reply |
| DeezerApi.FavouritesAfter | library/api.py:113-115 | without further favourites entries the count stays the same |
| DeezerApi.RowsNumberedByIndex | library/api.py:117-118 | with at most one favourites entry the appended rows are numbered 1, 2, … |
| DeezerApi.MenuNumbersMatchIndices | library/api.py:117-118 | with at most one favourites entry every row's number is its index in the menu |
| DeezerApi.SecondFavouriteSkipsANumber | library/api.py:111-118 | with two favourites entries the numbering runs one ahead of the index: the flag is 0/1, not a count |

## Left out

- The HTTP session, the endpoints, the API token and `get_user_data` /
  `validate_cookies` (library/api.py). They are network I/O; the replies are the
  functions in `Server`. Each reply function gives one fixed answer per playlist
  id, so a service whose answers change between calls is not modelled.
- `login` (main.py, library/util.py), library/browser.py and library/crypt.py.
  They are file I/O, browser automation and encryption, all external.
- The concurrency of `asyncio.TaskGroup`. Jobs run sequentially, each to
  completion. When a task raises, the real task group cancels its siblings. The
  model does not capture that cancellation, so a removal a cancelled sibling
  would not have sent still appears in the removal list.
- Logging, `tabulate` rendering, the `input()` loops and `main()`'s final report.
  Text is never parsed into numbers: the selection is taken as a list of
  integers, and `int()` raising ValueError is not modelled. The `ALL` branch of
  the selection loop is not modelled, because it never leaves the loop. The method
  loop is not modelled either, because it re-checks without reading input again.
- The order of `list(set(...))`. `SelectedPlaylists` takes the numbers in any
  order the caller supplies.
- `SNG_TITLE` is always a string and `SNG_ID` an integer. So a missing title,
  a non-numeric id and the `int(song_id)` / `int(playlist_id)` conversions are
  not modelled. The `ctxt` member of the removal request is left out for the
  same reason.
- DedupMain.OnlyShow: lower-cases ASCII letters only. No other character
  lower-cases to `"n"`, so the outcome is the same as Python's full `lower()`.
- DedupUtil.DeduplicatePlaylists and DedupMain.DeduplicatePlaylists: the default
  `only_show=True` of `deduplicate_playlists` is not modelled; callers always
  pass `onlyShow`, as `main()` does.
- DeezerApi.GetPlaylists: the reply's `results.PLAYLISTS.data` is given directly
  as the list of entries. A reply missing those members (a KeyError in the
  source) is not modelled.

Behaviour of the code that is easy to miss:

- The code returns `None` as the first component in three different cases: a
  failed fetch, no duplicates, and a failed removal. It does not keep those
  outcomes apart.
- A song flagged on the name axis has already added its ISRC to the seen set
  (`Classification.NameDuplicateStillClaimsItsIsrc`), so a later song with that
  ISRC is flagged even though its holder is itself a duplicate.
- Exceptions from malformed songs are not contained per playlist. They propagate
  out of the batch: as they are for a single playlist, and as a group exception
  for several.
