/** What deduplicating one playlist, and a batch of playlists, returns and which
    removal requests it sends, stated as functions of the service's replies.
    Both copies of `deduplicate_playlist` / `deduplicate_playlists`
    (library/util.py and main.py) are proved equal to these; they differ only in
    the Rules they classify with. */
module Orchestration {
  import opened Records
  import opened Classification
  import opened DeezerApi

  /** One playlist's outcome and the ids of its removal request, or None when no
      removal is requested. */
  type JobOutcome = (Outcome<PlaylistResult>, Option<seq<int>>)

  /** `(None, name, id)` */
  function NothingFor(p: PlaylistRef): PlaylistResult {
    PlaylistResult(None, p.name, p.id)
  }

  /** deduplicate_playlist: fetch, classify, then report or remove the duplicates. */
  ghost function Deduplicate(p: PlaylistRef, r: Rules, server: Server, onlyShow: bool): (out: JobOutcome)
    ensures out.0.Returned? ==> out.0.value.name == p.name && out.0.value.id == p.id
    ensures out.1.Some? ==> !onlyShow && out.0.Returned?
  {
    var fetched := GetSongsInPlaylist(server, p.id);
    if fetched.None? || fetched.value == [] then (Returned(NothingFor(p)), None)
    else
      match Classify(fetched.value, r)
      case Raised(e) => (Raised(e), None)
      case Returned(duplicates) =>
        if duplicates == [] then (Returned(NothingFor(p)), None)
        else if onlyShow then (Returned(PlaylistResult(Some(duplicates), p.name, p.id)), None)
        else
          var ids := SongIds(duplicates);
          var removed := RemoveSongsFromPlaylist(server, p.id, ids);
          (Returned(PlaylistResult(if removed then Some(duplicates) else None, p.name, p.id)), Some(ids))
  }

  /** A failed or empty fetch returns `(None, name, id)` and requests no removal;
      a reply carrying an error member is a failed fetch. */
  lemma FailedFetchSkipsPlaylist(p: PlaylistRef, r: Rules, server: Server, onlyShow: bool)
    requires !Accepted(server.songsReply(p.id)) || server.songsReply(p.id).results == []
    ensures Deduplicate(p, r, server, onlyShow) == (Returned(NothingFor(p)), None)
  {
  }

  /** A dry run never requests a removal. */
  lemma DryRunNeverRemoves(p: PlaylistRef, r: Rules, server: Server)
    ensures Deduplicate(p, r, server, true).1 == None
    ensures Deduplicate(p, r, server, true).0.Returned? ==>
              Deduplicate(p, r, server, true).0.value.songs ==
                (var songs := server.songsReply(p.id).results;
                 if !Accepted(server.songsReply(p.id)) || Flagged(songs, r) == [] then None else Some(Flagged(songs, r)))
  {
  }

  /** A removal is requested exactly when the run is not a dry run, the fetch
      produced songs, classifying them did not raise, and some song is flagged;
      the request names the flagged songs' ids in list order, and the songs are
      reported back exactly when the service accepts it. */
  lemma RemovalNamesTheFlaggedSongs(p: PlaylistRef, r: Rules, server: Server, onlyShow: bool)
    ensures var fetched := GetSongsInPlaylist(server, p.id);
            var out := Deduplicate(p, r, server, onlyShow);
            out.1.Some? <==>
              && !onlyShow && fetched.Some?
              && Classify(fetched.value, r).Returned? && Classify(fetched.value, r).value != []
    ensures var fetched := GetSongsInPlaylist(server, p.id);
            var out := Deduplicate(p, r, server, onlyShow);
            out.1.Some? ==>
              && out.1.value == SongIds(Flagged(fetched.value, r))
              && (out.0.value.songs.Some? <==> RemoveSongsFromPlaylist(server, p.id, out.1.value))
  {
    var fetched := GetSongsInPlaylist(server, p.id);
    var out := Deduplicate(p, r, server, onlyShow);
    if fetched.Some? && fetched.value == [] {
      assert Flagged(fetched.value, r) == [];
      assert FirstError(fetched.value, r, 0) == None;
    }
  }

  /** Whatever the branch, reported songs are a non-empty, order-preserving
      selection of the fetched list, each song at most once: exactly the
      flagged ones. */
  lemma ReportedSongsAreTheFlaggedOnes(p: PlaylistRef, r: Rules, server: Server, onlyShow: bool)
    requires Deduplicate(p, r, server, onlyShow).0.Returned?
    requires Deduplicate(p, r, server, onlyShow).0.value.songs.Some?
    ensures var fetched := GetSongsInPlaylist(server, p.id);
            var reported := Deduplicate(p, r, server, onlyShow).0.value.songs.value;
            && fetched.Some?
            && Classify(fetched.value, r) == Returned(reported)
            && reported != []
            && |reported| <= |fetched.value|
            && multiset(reported) <= multiset(fetched.value)
  {
    var fetched := GetSongsInPlaylist(server, p.id);
    DuplicatesSplitThePlaylist(fetched.value, r);
  }

  // ---------------------------------------------------------------------------
  // The batch

  /** Every playlist's job, run to completion, in input order. */
  ghost function Jobs(ps: seq<PlaylistRef>, r: Rules, server: Server, onlyShow: bool): (js: seq<JobOutcome>)
    ensures |js| == |ps|
  {
    seq(|ps|, k requires 0 <= k < |ps| => Deduplicate(ps[k], r, server, onlyShow))
  }

  /** The removal requests of the jobs, in input order. */
  function Removals(js: seq<JobOutcome>): (rs: seq<Option<seq<int>>>)
    ensures |rs| == |js| && forall k :: 0 <= k < |js| ==> rs[k] == js[k].1
  {
    seq(|js|, k requires 0 <= k < |js| => js[k].1)
  }

  /** The returned tuples of jobs none of which raised. */
  function Values(js: seq<JobOutcome>): (vs: seq<PlaylistResult>)
    requires forall k :: 0 <= k < |js| ==> js[k].0.Returned?
    ensures |vs| == |js| && forall k :: 0 <= k < |js| ==> vs[k] == js[k].0.value
  {
    seq(|js|, k requires 0 <= k < |js| => js[k].0.value)
  }

  /** deduplicate_playlists: None for no input; a single job's outcome as it
      is, exception included; otherwise the task group, which raises a group
      exception if any task raised and else collects every tuple (a 3-tuple is
      always truthy). */
  ghost function DeduplicateAll(ps: seq<PlaylistRef>, r: Rules, server: Server, onlyShow: bool)
    : (out: (Outcome<Option<seq<PlaylistResult>>>, seq<Option<seq<int>>>))
    ensures out.0 == Returned(None) <==> |ps| == 0
    ensures |out.1| == |ps|
    ensures |ps| > 1 && out.0.Raised? ==> out.0.error == ExceptionGroup
  {
    var js := Jobs(ps, r, server, onlyShow);
    if |ps| == 0 then (Returned(None), [])
    else if |ps| == 1 then
      (match js[0].0
       case Raised(e) => Raised(e)
       case Returned(v) => Returned(Some([v])), Removals(js))
    else if exists k :: 0 <= k < |js| && js[k].0.Raised? then (Raised(ExceptionGroup), Removals(js))
    else (Returned(Some(Values(js))), Removals(js))
  }

  /** No input gives None. With input and no raising job the result lists one
      tuple per playlist, in input order, each carrying that playlist's name and
      id; a raising job makes the batch raise (the exception itself for a single
      playlist, a group exception otherwise). Each playlist issues its own
      removal request and a raising one issues none. */
  lemma BatchKeepsOneResultPerPlaylist(ps: seq<PlaylistRef>, r: Rules, server: Server, onlyShow: bool)
    ensures var out := DeduplicateAll(ps, r, server, onlyShow);
            && (|ps| == 0 <==> out.0 == Returned(None))
            && |out.1| == |ps|
            && (forall k :: 0 <= k < |ps| ==>
                  out.1[k] == Deduplicate(ps[k], r, server, onlyShow).1 &&
                  (Deduplicate(ps[k], r, server, onlyShow).0.Raised? ==> out.1[k] == None))
    ensures var out := DeduplicateAll(ps, r, server, onlyShow);
            (out.0.Returned? && |ps| > 0) ==>
              && out.0.value.Some?
              && |out.0.value.value| == |ps|
              && forall k :: 0 <= k < |ps| ==>
                   && Deduplicate(ps[k], r, server, onlyShow).0 == Returned(out.0.value.value[k])
                   && out.0.value.value[k].name == ps[k].name
                   && out.0.value.value[k].id == ps[k].id
    ensures var out := DeduplicateAll(ps, r, server, onlyShow);
            out.0.Raised? <==> exists k :: 0 <= k < |ps| && Deduplicate(ps[k], r, server, onlyShow).0.Raised?
    ensures var out := DeduplicateAll(ps, r, server, onlyShow);
            (out.0.Raised? && |ps| == 1) ==> out.0.error == Deduplicate(ps[0], r, server, onlyShow).0.error
    ensures var out := DeduplicateAll(ps, r, server, onlyShow);
            (out.0.Raised? && |ps| > 1) ==> out.0.error == ExceptionGroup
  {
    var js := Jobs(ps, r, server, onlyShow);
    if |ps| == 1 && js[0].0.Returned? {
      forall k | 0 <= k < |ps| ensures !js[k].0.Raised? {
        assert k == 0;
      }
    }
  }

  /** The k-th job depends only on the k-th playlist and on the service's
      replies for that playlist's id. */
  lemma JobsAreIndependent(ps: seq<PlaylistRef>, qs: seq<PlaylistRef>, r: Rules, s1: Server, s2: Server, onlyShow: bool, k: nat)
    requires k < |ps| && k < |qs| && ps[k] == qs[k]
    requires s1.songsReply(ps[k].id) == s2.songsReply(ps[k].id)
    requires forall payload :: s1.deleteReply(ps[k].id, payload) == s2.deleteReply(ps[k].id, payload)
    ensures Jobs(ps, r, s1, onlyShow)[k] == Jobs(qs, r, s2, onlyShow)[k]
  {
    var p := ps[k];
    var fetched := GetSongsInPlaylist(s1, p.id);
    assert fetched == GetSongsInPlaylist(s2, p.id);
    if fetched.Some? && Classify(fetched.value, r).Returned? {
      var ids := SongIds(Classify(fetched.value, r).value);
      assert RemoveSongsFromPlaylist(s1, p.id, ids) == RemoveSongsFromPlaylist(s2, p.id, ids);
    }
  }
}
