/** The current deduplicator of library/util.py: one pass over the song list
    with a set of seen ISRCs and a dict of seen name keys, songs with a falsy
    ISRC or ART_ID staying off that axis. */
module DedupUtil {
  import opened Records
  import opened Classification
  import opened DeezerApi
  import opened Orchestration

  /** The classification loop: the duplicates in list order, or the TypeError
      of the first song whose VERSION is null. */
  method FindDuplicates(songs: seq<Song>, deduplicateBy: int) returns (found: Outcome<seq<Song>>)
    ensures found == Classify(songs, RulesFor(deduplicateBy, true))
  {
    ghost var r := RulesFor(deduplicateBy, true);
    var deduplicateByIsrc := deduplicateBy == 1 || deduplicateBy == 3;
    var deduplicateByName := deduplicateBy == 2 || deduplicateBy == 3;
    var duplicates: seq<Song> := [];
    var isrcs: set<Field> := {};
    var names: map<NameKey, Song> := map[];
    var i := 0;
    while i < |songs|
      invariant 0 <= i <= |songs|
      invariant FirstError(songs, r, i) == None
      invariant duplicates == Select(songs, DuplicateFlags(songs, r), i, true)
      invariant isrcs == SeenIsrcs(songs, r, i)
      invariant names.Keys == SeenNames(songs, r, i)
    {
      var song := songs[i];
      SeenIsrcsAdvance(songs, r, i);
      SeenNamesAdvance(songs, r, i);
      FlaggedAdvance(songs, r, i);
      // song["SNG_TITLE"] + song.get("VERSION", "")
      var version: string;
      match song.version {
        case Null =>
          RaisesAt(songs, r, i, TypeError);
          return Raised(TypeError);
        case Absent =>
          version := "";
        case Text(s) =>
          version := s;
      }
      var songTitle := song.title + version;

      var isSongDuplicate := false;
      if deduplicateByIsrc && Truthy(song.isrc) {
        if song.isrc in isrcs {
          duplicates := duplicates + [song];
          isSongDuplicate := true;
        } else {
          isrcs := isrcs + {song.isrc};
        }
      }

      if deduplicateByName && !isSongDuplicate && Truthy(song.artist) {
        var key := (songTitle, song.artist);
        if key in names {
          duplicates := duplicates + [song];
        } else {
          names := names[key := song];
        }
      }
      i := i + 1;
    }
    return Returned(duplicates);
  }

  /** deduplicate_playlist */
  method DeduplicatePlaylist(playlist: PlaylistRef, deduplicateBy: int, server: Server, onlyShow: bool)
    returns (result: Outcome<PlaylistResult>, removal: Option<seq<int>>)
    ensures (result, removal) == Deduplicate(playlist, RulesFor(deduplicateBy, true), server, onlyShow)
  {
    removal := None;
    var songs := GetSongsInPlaylist(server, playlist.id);
    if songs.None? || songs.value == [] {
      return Returned(NothingFor(playlist)), None;
    }
    var found := FindDuplicates(songs.value, deduplicateBy);
    if found.Raised? {
      return Raised(found.error), None;
    }
    var duplicates := found.value;
    if duplicates != [] {
      if onlyShow {
        return Returned(PlaylistResult(Some(duplicates), playlist.name, playlist.id)), None;
      }
      var songIds := SongIds(duplicates);
      var didRemove := RemoveSongsFromPlaylist(server, playlist.id, songIds);
      removal := Some(songIds);
      if didRemove {
        return Returned(PlaylistResult(Some(duplicates), playlist.name, playlist.id)), removal;
      }
      return Returned(NothingFor(playlist)), removal;
    } else {
      return Returned(NothingFor(playlist)), None;
    }
  }

  /** deduplicate_playlists: the task group is run as a sequence of jobs. */
  method DeduplicatePlaylists(playlists: seq<PlaylistRef>, deduplicateBy: int, server: Server, onlyShow: bool)
    returns (result: Outcome<Option<seq<PlaylistResult>>>, removals: seq<Option<seq<int>>>)
    ensures (result, removals) == DeduplicateAll(playlists, RulesFor(deduplicateBy, true), server, onlyShow)
  {
    ghost var js := Jobs(playlists, RulesFor(deduplicateBy, true), server, onlyShow);
    if |playlists| == 0 {
      return Returned(None), [];
    }
    if |playlists| == 1 {
      var single, removal := DeduplicatePlaylist(playlists[0], deduplicateBy, server, onlyShow);
      assert Removals(js) == [removal];
      match single {
        case Raised(e) => return Raised(e), [removal];
        case Returned(v) => return Returned(Some([v])), [removal];
      }
    }

    var tasks: seq<Outcome<PlaylistResult>> := [];
    removals := [];
    var failed := false;
    for i := 0 to |playlists|
      invariant |tasks| == |removals| == i
      invariant forall k :: 0 <= k < i ==> (tasks[k], removals[k]) == js[k]
      invariant failed <==> exists k :: 0 <= k < i && js[k].0.Raised?
    {
      var task, removal := DeduplicatePlaylist(playlists[i], deduplicateBy, server, onlyShow);
      assert (task, removal) == js[i];
      tasks := tasks + [task];
      removals := removals + [removal];
      failed := failed || task.Raised?;
    }
    assert removals == Removals(js);
    // Leaving the task group re-raises the failures as one group exception.
    if failed {
      return Raised(ExceptionGroup), removals;
    }

    var playlistsRemovedSongs: seq<PlaylistResult> := [];
    for i := 0 to |tasks|
      invariant playlistsRemovedSongs == Values(js[..i])
    {
      // task.result(); the tuple is always truthy, so it is always appended.
      var removed := tasks[i].value;
      playlistsRemovedSongs := playlistsRemovedSongs + [removed];
    }
    assert js[..|tasks|] == js;
    return Returned(Some(playlistsRemovedSongs)), removals;
  }
}
