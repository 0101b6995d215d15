/** The older deduplicator kept in main.py, which reads VERSION, ISRC and ART_ID
    with `song[...]` and so has no absence guards, and the checks main() applies
    to the user's answers before starting it. */
module DedupMain {
  import opened Records
  import opened Classification
  import opened DeezerApi
  import opened Orchestration

  /** The classification loop of main.py: the duplicates in list order, or the
      exception of the first song whose fields cannot be read. */
  method FindDuplicates(songs: seq<Song>, deduplicateBy: int) returns (found: Outcome<seq<Song>>)
    ensures found == Classify(songs, RulesFor(deduplicateBy, false))
  {
    ghost var r := RulesFor(deduplicateBy, false);
    var deduplicateByIsrc := deduplicateBy == 1 || deduplicateBy == 3;
    var deduplicateByName := deduplicateBy == 2 || deduplicateBy == 3;
    var duplicates: seq<Song> := [];
    var isrcs: set<Field> := {};
    var names: map<NameKey, Song> := map[];
    var i := 0;
    while i < |songs|
      invariant 0 <= i <= |songs|
      invariant FirstError(songs, r, i) == None
      invariant duplicates == Select(songs, DuplicateFlags(songs, r), i, true)
      invariant isrcs == SeenIsrcs(songs, r, i)
      invariant names.Keys == SeenNames(songs, r, i)
    {
      var song := songs[i];
      SeenIsrcsAdvance(songs, r, i);
      SeenNamesAdvance(songs, r, i);
      FlaggedAdvance(songs, r, i);
      // song["SNG_TITLE"] + song["VERSION"]
      var version: string;
      match song.version {
        case Absent =>
          RaisesAt(songs, r, i, KeyError("VERSION"));
          return Raised(KeyError("VERSION"));
        case Null =>
          RaisesAt(songs, r, i, TypeError);
          return Raised(TypeError);
        case Text(s) =>
          version := s;
      }
      var songTitle := song.title + version;

      var isSongDuplicate := false;
      if deduplicateByIsrc {
        if song.isrc == Absent {
          RaisesAt(songs, r, i, KeyError("ISRC"));
          return Raised(KeyError("ISRC"));
        }
        if song.isrc in isrcs {
          duplicates := duplicates + [song];
          isSongDuplicate := true;
        } else {
          isrcs := isrcs + {song.isrc};
        }
      }

      if deduplicateByName && !isSongDuplicate {
        if song.artist == Absent {
          RaisesAt(songs, r, i, KeyError("ART_ID"));
          return Raised(KeyError("ART_ID"));
        }
        var key := (songTitle, song.artist);
        if key in names {
          duplicates := duplicates + [song];
        } else {
          names := names[key := song];
        }
      }
      i := i + 1;
    }
    return Returned(duplicates);
  }

  /** deduplicate_playlist of main.py */
  method DeduplicatePlaylist(playlist: PlaylistRef, deduplicateBy: int, server: Server, onlyShow: bool)
    returns (result: Outcome<PlaylistResult>, removal: Option<seq<int>>)
    ensures (result, removal) == Deduplicate(playlist, RulesFor(deduplicateBy, false), server, onlyShow)
  {
    removal := None;
    var songs := GetSongsInPlaylist(server, playlist.id);
    if songs.None? || songs.value == [] {
      return Returned(NothingFor(playlist)), None;
    }
    var found := FindDuplicates(songs.value, deduplicateBy);
    if found.Raised? {
      return Raised(found.error), None;
    }
    var duplicates := found.value;
    if duplicates != [] {
      if onlyShow {
        return Returned(PlaylistResult(Some(duplicates), playlist.name, playlist.id)), None;
      }
      var songIds := SongIds(duplicates);
      var didRemove := RemoveSongsFromPlaylist(server, playlist.id, songIds);
      removal := Some(songIds);
      if didRemove {
        return Returned(PlaylistResult(Some(duplicates), playlist.name, playlist.id)), removal;
      } else {
        return Returned(NothingFor(playlist)), removal;
      }
    } else {
      return Returned(NothingFor(playlist)), None;
    }
  }

  /** deduplicate_playlists of main.py: the task group is run as a sequence of jobs. */
  method DeduplicatePlaylists(playlists: seq<PlaylistRef>, deduplicateBy: int, server: Server, onlyShow: bool)
    returns (result: Outcome<Option<seq<PlaylistResult>>>, removals: seq<Option<seq<int>>>)
    ensures (result, removals) == DeduplicateAll(playlists, RulesFor(deduplicateBy, false), server, onlyShow)
  {
    ghost var js := Jobs(playlists, RulesFor(deduplicateBy, false), server, onlyShow);
    if |playlists| == 0 {
      return Returned(None), [];
    }
    if |playlists| == 1 {
      var single, removal := DeduplicatePlaylist(playlists[0], deduplicateBy, server, onlyShow);
      assert Removals(js) == [removal];
      match single {
        case Raised(e) => return Raised(e), [removal];
        case Returned(v) => return Returned(Some([v])), [removal];
      }
    }

    var tasks: seq<Outcome<PlaylistResult>> := [];
    removals := [];
    var failed := false;
    for i := 0 to |playlists|
      invariant |tasks| == |removals| == i
      invariant forall k :: 0 <= k < i ==> (tasks[k], removals[k]) == js[k]
      invariant failed <==> exists k :: 0 <= k < i && js[k].0.Raised?
    {
      var task, removal := DeduplicatePlaylist(playlists[i], deduplicateBy, server, onlyShow);
      assert (task, removal) == js[i];
      tasks := tasks + [task];
      removals := removals + [removal];
      failed := failed || task.Raised?;
    }
    assert removals == Removals(js);
    // Leaving the task group re-raises the failures as one group exception.
    if failed {
      return Raised(ExceptionGroup), removals;
    }

    var playlistsRemovedSongs: seq<PlaylistResult> := [];
    for i := 0 to |tasks|
      invariant playlistsRemovedSongs == Values(js[..i])
    {
      // task.result(); the tuple is always truthy, so it is always appended.
      var removed := tasks[i].value;
      playlistsRemovedSongs := playlistsRemovedSongs + [removed];
    }
    assert js[..|tasks|] == js;
    return Returned(Some(playlistsRemovedSongs)), removals;
  }

  // ---------------------------------------------------------------------------
  // How the missing guards show

  /** Without the guards two songs with the same empty or null ISRC collide in
      mode 1; with them neither takes part. */
  lemma EmptyIsrcsCollideOnlyWithoutGuards(a: Song, b: Song)
    requires a.isrc == b.isrc && (a.isrc == Null || a.isrc == Text(""))
    requires a.version.Text? && b.version.Text?
    ensures Classify([a, b], RulesFor(1, false)) == Returned([b])
    ensures Classify([a, b], RulesFor(1, true)) == Returned([])
  {
    var songs := [a, b];
    var u, g := RulesFor(1, false), RulesFor(1, true);
    assert IsrcDuplicateAt(songs, u, 1) by {
      assert songs[0].isrc == songs[1].isrc;
    }
    assert ErrorAt(songs, u, 0) == None && ErrorAt(songs, u, 1) == None;
    assert FirstError(songs, u, 1) == None;
    assert FirstError(songs, u, 2) == None;
    assert FirstError(songs, g, 1) == None;
    assert FirstError(songs, g, 2) == None;
    assert DuplicateFlags(songs, u) == [false, true];
    assert DuplicateFlags(songs, g) == [false, false];
    assert Select(songs, [false, true], 1, true) == [];
    assert Flagged(songs, u) == [b];
    assert Select(songs, [false, false], 1, true) == [];
    assert Flagged(songs, g) == [];
  }

  /** A song without a VERSION member, after songs that carry VERSION, ISRC and
      ART_ID, makes main.py raise KeyError, whereas library/util.py reads the
      missing VERSION as "" and raises only on a null one. */
  lemma MissingVersionRaisesOnlyWithoutGuards(songs: seq<Song>, deduplicateBy: int, i: nat)
    requires i < |songs| && songs[i].version == Absent
    requires forall k :: 0 <= k < i ==> songs[k].version.Text? && songs[k].isrc != Absent && songs[k].artist != Absent
    ensures Classify(songs, RulesFor(deduplicateBy, false)) == Raised(KeyError("VERSION"))
    ensures (forall k :: 0 <= k < |songs| ==> songs[k].version != Null) ==>
              Classify(songs, RulesFor(deduplicateBy, true)).Returned?
  {
    var u := RulesFor(deduplicateBy, false);
    forall k | 0 <= k < i ensures ErrorAt(songs, u, k).None? {
    }
    FirstErrorIsEarliest(songs, u, i);
    RaisesAt(songs, u, i, KeyError("VERSION"));
    GuardedRaisesOnlyOnNullVersion(songs, RulesFor(deduplicateBy, true));
  }

  // ---------------------------------------------------------------------------
  // The answers main() accepts

  /** The entered playlist numbers are kept, as a set, only if every one is
      in `0 < x < len(playlists)`. */
  function AcceptSelection(nos: seq<int>, count: int): (chosen: Option<set<int>>)
    ensures chosen.Some? <==> forall k :: 0 <= k < |nos| ==> 0 < nos[k] < count
    ensures chosen.Some? ==> 0 !in chosen.value && forall x :: x in chosen.value ==> x < count
  {
    var unique := set x | x in nos;
    assert (forall x :: x in unique ==> 0 < x < count) <==> (forall k :: 0 <= k < |nos| ==> 0 < nos[k] < count) by {
      assert forall k :: 0 <= k < |nos| ==> nos[k] in unique;
    }
    if forall x :: x in unique ==> 0 < x < count then Some(unique) else None
  }

  predicate Distinct(xs: seq<int>) {
    forall a, b :: 0 <= a < b < |xs| ==> xs[a] != xs[b]
  }

  lemma {:induction false} SetOfSequence(xs: seq<int>)
    ensures |set x | x in xs| <= |xs|
    ensures |set x | x in xs| == |xs| <==> Distinct(xs)
  {
    if xs != [] {
      var init := xs[..|xs| - 1];
      var last := xs[|xs| - 1];
      SetOfSequence(init);
      assert xs == init + [last];
      assert (set x | x in xs) == (set x | x in init) + {last};
      if last in init {
        var j :| 0 <= j < |init| && init[j] == last;
        assert xs[j] == xs[|xs| - 1];
      } else {
        assert Distinct(xs) <==> Distinct(init);
      }
    }
  }

  /** The accepted set holds each entered number once: it is never larger than
      the input, and as large exactly when no number was entered twice. */
  lemma SelectionCollapsesRepeats(nos: seq<int>, count: int)
    requires AcceptSelection(nos, count).Some?
    ensures |AcceptSelection(nos, count).value| <= |nos|
    ensures |AcceptSelection(nos, count).value| == |nos| <==> Distinct(nos)
    ensures forall x :: x in AcceptSelection(nos, count).value <==> x in nos
  {
    SetOfSequence(nos);
  }

  /** A table of the shape get_playlists returns: slot 0 and then complete rows. */
  predicate WellFormedMenu(menu: seq<Option<Row>>) {
    && |menu| >= 1
    && forall k :: 1 <= k < |menu| ==>
         && menu[k].Some? && |menu[k].value| == 4
         && menu[k].value[LIST_INDEX_TITLE].Str? && menu[k].value[LIST_INDEX_ID].Str?
  }

  /** `[[playlists[i][TITLE], playlists[i][ID]] for i in playlist_nos]` */
  function SelectedPlaylists(menu: seq<Option<Row>>, order: seq<int>): (jobs: seq<PlaylistRef>)
    requires WellFormedMenu(menu)
    requires forall k :: 0 <= k < |order| ==> 0 < order[k] < |menu|
    ensures |jobs| == |order|
  {
    seq(|order|, k requires 0 <= k < |order| =>
      PlaylistRef(menu[order[k]].value[LIST_INDEX_TITLE].s, menu[order[k]].value[LIST_INDEX_ID].s))
  }

  /** Entering number x picks the x-th playlist of the menu reply that is not
      the favourites playlist, which is therefore never picked by number. */
  lemma SelectionPicksNumberedPlaylists(data: seq<RawPlaylist>, order: seq<int>)
    requires forall k :: 0 <= k < |order| ==> 0 < order[k] < |Menu(data)|
    ensures WellFormedMenu(Menu(data))
    ensures forall k :: 0 <= k < |order| ==>
              && order[k] - 1 < |NonFavourites(data, |data|)|
              && SelectedPlaylists(Menu(data), order)[k] ==
                   PlaylistRef(NonFavourites(data, |data|)[order[k] - 1].title,
                               NonFavourites(data, |data|)[order[k] - 1].playlistId)
              && !IsFavourites(NonFavourites(data, |data|)[order[k] - 1])
  {
    MenuListsNonFavouritesInOrder(data);
    NonFavouritesAreNotFavourites(data, |data|);
  }

  lemma {:induction false} NonFavouritesAreNotFavourites(data: seq<RawPlaylist>, n: nat)
    requires n <= |data|
    ensures forall k :: 0 <= k < |NonFavourites(data, n)| ==> !IsFavourites(NonFavourites(data, n)[k])
  {
    if n > 0 {
      NonFavouritesAreNotFavourites(data, n - 1);
    }
  }

  /** `0 < deduplicate_by < 4`: exactly the methods that switch on at least one axis. */
  predicate MethodAccepted(deduplicateBy: int): (ok: bool)
    ensures ok <==> RulesFor(deduplicateBy, true).byIsrc || RulesFor(deduplicateBy, true).byName
    ensures ok <==> RulesFor(deduplicateBy, false).byIsrc || RulesFor(deduplicateBy, false).byName
  {
    0 < deduplicateBy < 4
  }

  /** Python's `str.isspace`, the characters `str.strip()` removes. */
  predicate IsSpace(c: char) {
    || c == ' ' || ('\t' <= c <= '\r') || ('\U{1C}' <= c <= '\U{1F}')
    || c == '\U{85}' || c == '\U{A0}' || c == '\U{1680}' || ('\U{2000}' <= c <= '\U{200A}')
    || c == '\U{2028}' || c == '\U{2029}' || c == '\U{202F}' || c == '\U{205F}' || c == '\U{3000}'
  }

  /** Every character of s in [lo, hi) is whitespace. */
  predicate SpaceBetween(s: string, lo: nat, hi: nat)
    requires lo <= hi <= |s|
  {
    forall k :: lo <= k < hi ==> IsSpace(s[k])
  }

  predicate AllSpace(s: string) {
    SpaceBetween(s, 0, |s|)
  }

  /** The index of the first non-whitespace character at or after `from`, or |s|. */
  function SkipSpace(s: string, from: nat): (n: nat)
    requires from <= |s|
    ensures from <= n <= |s| && SpaceBetween(s, from, n) && (n < |s| ==> !IsSpace(s[n]))
    decreases |s| - from
  {
    if from == |s| || !IsSpace(s[from]) then from else SkipSpace(s, from + 1)
  }

  /** The end of s[lo..hi] once its trailing whitespace is dropped. */
  function BackSpace(s: string, lo: nat, hi: nat): (n: nat)
    requires lo <= hi <= |s|
    ensures lo <= n <= hi && SpaceBetween(s, n, hi) && (lo < n ==> !IsSpace(s[n - 1]))
    decreases hi - lo
  {
    if hi == lo || !IsSpace(s[hi - 1]) then hi else BackSpace(s, lo, hi - 1)
  }

  /** `s.strip()`: drop the leading whitespace, then the trailing whitespace. */
  function Strip(s: string): (t: string)
    ensures t == [] || (!IsSpace(t[0]) && !IsSpace(t[|t| - 1]))
  {
    var a := SkipSpace(s, 0);
    s[a..BackSpace(s, a, |s|)]
  }

  /** What strip keeps is a slice of the input with only whitespace before and after it. */
  lemma StripKeepsTheCore(s: string)
    ensures var a := SkipSpace(s, 0);
            && a + |Strip(s)| <= |s|
            && s == s[..a] + Strip(s) + s[a + |Strip(s)|..]
            && AllSpace(s[..a]) && AllSpace(s[a + |Strip(s)|..])
  {
    var a := SkipSpace(s, 0);
    var b := BackSpace(s, a, |s|);
    assert s == s[..a] + s[a..b] + s[b..];
    assert SpaceBetween(s, 0, a) && SpaceBetween(s, b, |s|);
  }

  lemma {:induction false} SkipSpaceStops(s: string, from: nat, stop: nat)
    requires from <= stop <= |s| && SpaceBetween(s, from, stop) && (stop < |s| ==> !IsSpace(s[stop]))
    ensures SkipSpace(s, from) == stop
    decreases stop - from
  {
    if from < stop {
      SkipSpaceStops(s, from + 1, stop);
    }
  }

  lemma {:induction false} BackSpaceStops(s: string, lo: nat, stop: nat, hi: nat)
    requires lo <= stop <= hi <= |s| && SpaceBetween(s, stop, hi) && (lo < stop ==> !IsSpace(s[stop - 1]))
    ensures BackSpace(s, lo, hi) == stop
    decreases hi - stop
  {
    if stop < hi {
      BackSpaceStops(s, lo, stop, hi - 1);
    }
  }

  /** Whitespace around a core without whitespace at its ends is all strip removes. */
  lemma StripRemovesSurroundingSpace(pre: string, t: string, post: string)
    requires AllSpace(pre) && AllSpace(post)
    requires t != [] && !IsSpace(t[0]) && !IsSpace(t[|t| - 1])
    ensures Strip(pre + t + post) == t
  {
    var s := pre + t + post;
    var a, b := |pre|, |pre| + |t|;
    assert SpaceBetween(s, 0, a) && s[a] == t[0];
    SkipSpaceStops(s, 0, a);
    assert SpaceBetween(s, b, |s|) && s[b - 1] == t[|t| - 1];
    BackSpaceStops(s, a, b, |s|);
    assert s[a..b] == t;
  }

  /** ASCII lower-casing of one character. */
  function LowerChar(c: char): char {
    if 'A' <= c <= 'Z' then (c as int + 32) as char else c
  }

  function LowerAscii(s: string): (t: string)
    ensures |t| == |s| && forall k :: 0 <= k < |s| ==> t[k] == LowerChar(s[k])
  {
    seq(|s|, k requires 0 <= k < |s| => LowerChar(s[k]))
  }

  /** `input(...).strip().lower() != "n"` */
  predicate OnlyShow(answer: string): (dryRun: bool)
    ensures !dryRun <==> Strip(answer) == "n" || Strip(answer) == "N"
  {
    var t := Strip(answer);
    assert LowerAscii(t) == "n" ==> |t| == 1 && LowerChar(t[0]) == 'n' && t == [t[0]];
    assert t == "N" ==> LowerAscii(t) == [LowerChar('N')];
    assert t == "n" ==> LowerAscii(t) == [LowerChar('n')];
    LowerAscii(t) != "n"
  }

  /** `n` or `N` with whitespace around it turns the dry run off. */
  lemma PaddedNTurnsDryRunOff(pre: string, c: char, post: string)
    requires AllSpace(pre) && AllSpace(post) && (c == 'n' || c == 'N')
    ensures !OnlyShow(pre + [c] + post)
  {
    StripRemovesSurroundingSpace(pre, [c], post);
  }
}
