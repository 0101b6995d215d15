/** The part of the service client that the deduplicator depends on: the magic
    values, how a reply is judged to have failed, the playlist menu built from
    the user-menu reply, and the payload of a song-removal request. The HTTP
    session itself is represented by the replies it returns (Server). */
module DeezerApi {
  import opened Records

  // The magic values of class MV.
  const NOT_LOGGED_IN_USER_ID: int := 0
  const PLAYLIST_TYPE_USER: string := "0"
  const PLAYLIST_TYPE_FAVORITES: string := "4"

  // Positions of the fields in a menu row.
  const LIST_INDEX_INDEX: nat := 0
  const LIST_INDEX_TITLE: nat := 1
  const LIST_INDEX_AMOUNT_SONGS: nat := 2
  const LIST_INDEX_ID: nat := 3

  /** The `error` member of a JSON reply: missing, a list, or an object. */
  datatype ErrorField = NoErrorKey | ErrorList(items: seq<string>) | ErrorObject(entries: map<string, string>)

  /** `resp.get("error", []) != []`: the member read with `[]` as its default is
      `[]` only when it is missing or is the empty list, so a non-empty list
      and any object, even an empty one, count as an error. */
  predicate Failed(e: ErrorField): (failed: bool)
    ensures !failed <==> e == NoErrorKey || e == ErrorList([])
  {
    match e
    case NoErrorKey => false
    case ErrorList(items) => items != []
    case ErrorObject(_) => true
  }

  /** A reply: HTTP status, the `error` member and the `results` member. */
  datatype Response<T> = Response(status: int, error: ErrorField, results: T)

  /** The client uses a reply only when its status is 200 and it carries no error. */
  predicate Accepted<T>(resp: Response<T>): (ok: bool)
    ensures ok <==> resp.status == 200 && (resp.error == NoErrorKey || resp.error == ErrorList([]))
  {
    resp.status == 200 && !Failed(resp.error)
  }

  /** The service as the deduplicator sees it: the reply to playlist.getSongs
      for a playlist id, and the reply to playlist.deleteSongs for a playlist id
      and a `songs` payload. */
  datatype Server = Server(
    songsReply: string -> Response<seq<Song>>,
    deleteReply: (string, seq<seq<int>>) -> Response<()>)

  /** get_songs_in_playlist: the song list, or None when the reply failed. */
  function GetSongsInPlaylist(server: Server, playlistId: string): (songs: Option<seq<Song>>)
    ensures songs.None? <==> !Accepted(server.songsReply(playlistId))
    ensures songs.Some? ==> songs.value == server.songsReply(playlistId).results
  {
    var resp := server.songsReply(playlistId);
    if Accepted(resp) then Some(resp.results) else None
  }

  /** The `songs` member of the removal request: one `[int(id), 0]` pair per id, in order. */
  function RemovalPayload(songIds: seq<int>): (payload: seq<seq<int>>)
    ensures |payload| == |songIds|
    ensures forall k :: 0 <= k < |songIds| ==> payload[k] == [songIds[k], 0]
  {
    seq(|songIds|, k requires 0 <= k < |songIds| => [songIds[k], 0])
  }

  /** remove_songs_from_playlist: True iff the service accepted the removal. */
  function RemoveSongsFromPlaylist(server: Server, playlistId: string, songIds: seq<int>): (removed: bool)
    ensures var resp := server.deleteReply(playlistId, RemovalPayload(songIds));
            removed <==> resp.status == 200 && (resp.error == NoErrorKey || resp.error == ErrorList([]))
  {
    Accepted(server.deleteReply(playlistId, RemovalPayload(songIds)))
  }

  // ---------------------------------------------------------------------------
  // The playlist menu

  /** One entry of `results.PLAYLISTS.data` of the user-menu reply. */
  datatype RawPlaylist = RawPlaylist(kind: string, title: string, nbSong: int, playlistId: string)

  /** A cell of a menu row: the rows mix numbers and strings. */
  datatype Cell = Num(n: int) | Str(s: string)

  type Row = seq<Cell>

  predicate IsFavourites(p: RawPlaylist) {
    p.kind == PLAYLIST_TYPE_FAVORITES
  }

  /** `[no, TITLE, NB_SONG, PLAYLIST_ID]`, each field at its MV position. */
  function MakeRow(no: int, p: RawPlaylist): (row: Row)
    ensures |row| == 4
    ensures row[LIST_INDEX_INDEX] == Num(no) && row[LIST_INDEX_TITLE] == Str(p.title)
    ensures row[LIST_INDEX_AMOUNT_SONGS] == Num(p.nbSong) && row[LIST_INDEX_ID] == Str(p.playlistId)
  {
    [Num(no), Str(p.title), Num(p.nbSong), Str(p.playlistId)]
  }

  /** The number of favourites entries among the first n. */
  function FavouriteCount(data: seq<RawPlaylist>, n: nat): nat
    requires n <= |data|
  {
    if n == 0 then 0 else FavouriteCount(data, n - 1) + (if IsFavourites(data[n - 1]) then 1 else 0)
  }

  /** The entries among the first n that are not the favourites playlist, in order. */
  function NonFavourites(data: seq<RawPlaylist>, n: nat): seq<RawPlaylist>
    requires n <= |data|
  {
    if n == 0 then []
    else NonFavourites(data, n - 1) + (if IsFavourites(data[n - 1]) then [] else [data[n - 1]])
  }

  /** Slot 0 after the first n entries: the row of the latest favourites entry, if any. */
  function FavouriteSlot(data: seq<RawPlaylist>, n: nat): Option<Row>
    requires n <= |data|
  {
    if n == 0 then None
    else if IsFavourites(data[n - 1]) then Some(MakeRow(0, data[n - 1]))
    else FavouriteSlot(data, n - 1)
  }

  /** The rows appended for the first n entries. The entry at 1-based position
      i is numbered `i - is_favorites_found`, the flag being set once a
      favourites entry has been seen. */
  function NumberedRows(data: seq<RawPlaylist>, n: nat): seq<Option<Row>>
    requires n <= |data|
  {
    if n == 0 then []
    else if IsFavourites(data[n - 1]) then NumberedRows(data, n - 1)
    else NumberedRows(data, n - 1) + [Some(MakeRow(n - (if FavouriteCount(data, n - 1) > 0 then 1 else 0), data[n - 1]))]
  }

  /** The list get_playlists returns for an accepted reply. */
  function Menu(data: seq<RawPlaylist>): seq<Option<Row>> {
    [FavouriteSlot(data, |data|)] + NumberedRows(data, |data|)
  }

  /** get_playlists: reshape the user-menu reply into numbered rows, slot 0
      being reserved for the favourites playlist. */
  method GetPlaylists(resp: Response<seq<RawPlaylist>>) returns (menu: Option<seq<Option<Row>>>)
    ensures menu.None? <==> !Accepted(resp)
    ensures menu.Some? ==> menu.value == Menu(resp.results)
  {
    if resp.status != 200 {
      return None;
    }
    if Failed(resp.error) {
      return None;
    }
    var data := resp.results;
    var playlists: seq<Option<Row>> := [None];
    var isFavoritesFound := 0;
    var i := 1;
    while i <= |data|
      invariant 1 <= i <= |data| + 1
      invariant |playlists| >= 1
      invariant playlists[0] == FavouriteSlot(data, i - 1)
      invariant playlists[1..] == NumberedRows(data, i - 1)
      invariant isFavoritesFound == if FavouriteCount(data, i - 1) > 0 then 1 else 0
    {
      var playlist := data[i - 1];
      if playlist.kind == PLAYLIST_TYPE_FAVORITES {
        playlists := playlists[0 := Some(MakeRow(0, playlist))];
        isFavoritesFound := 1;
      } else {
        playlists := playlists + [Some(MakeRow(i - isFavoritesFound, playlist))];
      }
      i := i + 1;
    }
    return Some(playlists);
  }

  /** Rows 1.. list the non-favourites entries in reply order, each with its
      title, song count and id; so the menu has 1 + that many entries. */
  lemma {:induction false} RowsFollowNonFavourites(data: seq<RawPlaylist>, n: nat)
    requires n <= |data|
    ensures |NumberedRows(data, n)| == |NonFavourites(data, n)| == n - FavouriteCount(data, n)
    ensures forall k :: 0 <= k < |NonFavourites(data, n)| ==>
              && NumberedRows(data, n)[k].Some?
              && |NumberedRows(data, n)[k].value| == 4
              && NumberedRows(data, n)[k].value[LIST_INDEX_TITLE] == Str(NonFavourites(data, n)[k].title)
              && NumberedRows(data, n)[k].value[LIST_INDEX_AMOUNT_SONGS] == Num(NonFavourites(data, n)[k].nbSong)
              && NumberedRows(data, n)[k].value[LIST_INDEX_ID] == Str(NonFavourites(data, n)[k].playlistId)
  {
    if n > 0 {
      RowsFollowNonFavourites(data, n - 1);
    }
  }

  lemma MenuListsNonFavouritesInOrder(data: seq<RawPlaylist>)
    ensures |Menu(data)| == 1 + |NonFavourites(data, |data|)|
    ensures forall k :: 1 <= k < |Menu(data)| ==>
              && Menu(data)[k].Some?
              && |Menu(data)[k].value| == 4
              && Menu(data)[k].value[LIST_INDEX_TITLE] == Str(NonFavourites(data, |data|)[k - 1].title)
              && Menu(data)[k].value[LIST_INDEX_AMOUNT_SONGS] == Num(NonFavourites(data, |data|)[k - 1].nbSong)
              && Menu(data)[k].value[LIST_INDEX_ID] == Str(NonFavourites(data, |data|)[k - 1].playlistId)
  {
    RowsFollowNonFavourites(data, |data|);
  }

  /** Slot 0 is empty iff there is no favourites entry; otherwise it holds the
      row, numbered 0, of the last favourites entry. */
  lemma {:induction false} FavouritesFillSlotZero(data: seq<RawPlaylist>, n: nat)
    requires n <= |data|
    ensures FavouriteSlot(data, n).None? <==> FavouriteCount(data, n) == 0
    ensures forall q :: 0 <= q < n && IsFavourites(data[q]) && FavouriteCount(data, n) == FavouriteCount(data, q + 1) ==>
              FavouriteSlot(data, n) == Some(MakeRow(0, data[q]))
  {
    if n > 0 {
      FavouritesFillSlotZero(data, n - 1);
      forall q | 0 <= q < n - 1 && IsFavourites(data[q]) && FavouriteCount(data, n) == FavouriteCount(data, q + 1)
        ensures !IsFavourites(data[n - 1])
      {
        FavouriteCountGrows(data, q + 1, n - 1);
      }
    }
  }

  lemma {:induction false} FavouriteCountGrows(data: seq<RawPlaylist>, m: nat, n: nat)
    requires m <= n <= |data|
    ensures FavouriteCount(data, m) <= FavouriteCount(data, n)
  {
    if n > m {
      FavouriteCountGrows(data, m, n - 1);
    }
  }

  lemma MenuSlotZero(data: seq<RawPlaylist>, q: nat)
    requires q < |data| && IsFavourites(data[q])
    requires forall q' :: q < q' < |data| ==> !IsFavourites(data[q'])
    ensures Menu(data)[0] == Some(MakeRow(0, data[q]))
  {
    FavouritesAfter(data, q, |data|);
    FavouritesFillSlotZero(data, |data|);
  }

  lemma {:induction false} FavouritesAfter(data: seq<RawPlaylist>, q: nat, n: nat)
    requires q < n <= |data|
    requires forall q' :: q < q' < n ==> !IsFavourites(data[q'])
    ensures FavouriteCount(data, n) == FavouriteCount(data, q + 1)
  {
    if n > q + 1 {
      FavouritesAfter(data, q, n - 1);
    }
  }

  /** With at most one favourites entry the appended rows are numbered 1, 2, …
      so every row's number is its index in the returned list. */
  lemma {:induction false} RowsNumberedByIndex(data: seq<RawPlaylist>, n: nat)
    requires n <= |data| && FavouriteCount(data, n) <= 1
    ensures forall k :: 0 <= k < |NumberedRows(data, n)| ==>
              && NumberedRows(data, n)[k].Some? && |NumberedRows(data, n)[k].value| == 4
              && NumberedRows(data, n)[k].value[LIST_INDEX_INDEX] == Num(k + 1)
  {
    if n > 0 {
      FavouriteCountGrows(data, n - 1, n);
      RowsNumberedByIndex(data, n - 1);
      RowsFollowNonFavourites(data, n - 1);
    }
  }

  lemma MenuNumbersMatchIndices(data: seq<RawPlaylist>)
    requires FavouriteCount(data, |data|) <= 1
    ensures forall k :: 1 <= k < |Menu(data)| ==>
              Menu(data)[k].Some? && |Menu(data)[k].value| == 4 && Menu(data)[k].value[LIST_INDEX_INDEX] == Num(k)
  {
    RowsNumberedByIndex(data, |data|);
  }

  /** A second favourites entry leaves the numbering one ahead of the index:
      the flag is a 0/1 value, not a count. */
  lemma SecondFavouriteSkipsANumber(fav: RawPlaylist, other: RawPlaylist)
    requires IsFavourites(fav) && !IsFavourites(other)
    ensures Menu([fav, fav, other]) == [Some(MakeRow(0, fav)), Some(MakeRow(2, other))]
  {
    var data := [fav, fav, other];
    assert data[0] == fav && data[1] == fav && data[2] == other;
    assert FavouriteCount(data, 1) == 1;
    assert FavouriteCount(data, 2) == 2;
    assert NumberedRows(data, 0) == [];
    assert NumberedRows(data, 1) == [];
    assert NumberedRows(data, 2) == [];
    assert NumberedRows(data, 3) == [Some(MakeRow(2, other))];
    assert FavouriteSlot(data, 3) == Some(MakeRow(0, fav));
  }
}
