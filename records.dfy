/** The values that flow through the deduplicator: the song records the service
    returns, the playlist references the driver passes in, the 3-tuples it gets
    back, and the Python exceptions a malformed song record can raise. */
module Records {

  datatype Option<T> = None | Some(value: T)

  /** A JSON field of a song record that may be missing from the dict
      (`Absent`), present as `null` (`Null`) or present as a string. */
  datatype Field = Absent | Null | Text(s: string)

  /** Python truthiness of `song.get(key)`: only a non-empty string is truthy. */
  predicate Truthy(f: Field) {
    f.Text? && f.s != ""
  }

  /** One entry of a playlist's song list: SNG_ID, SNG_TITLE, VERSION, ISRC, ART_ID. */
  datatype Song = Song(id: int, title: string, version: Field, isrc: Field, artist: Field)

  /** The dictionary key of the name axis: (SNG_TITLE + VERSION, ART_ID). */
  type NameKey = (string, Field)

  /** The exceptions the classification loop can raise, and the group exception
      a task group raises when one of its tasks fails. */
  datatype PyError = KeyError(key: string) | TypeError | ExceptionGroup

  /** A Python call either returns a value or raises. */
  datatype Outcome<T> = Returned(value: T) | Raised(error: PyError)

  /** The `[name, id]` pair that identifies one playlist to deduplicate. */
  datatype PlaylistRef = PlaylistRef(name: string, id: string)

  /** The `(duplicates or None, name, id)` tuple returned per playlist. */
  datatype PlaylistResult = PlaylistResult(songs: Option<seq<Song>>, name: string, id: string)

  /** `[song["SNG_ID"] for song in songs]` */
  function SongIds(songs: seq<Song>): (ids: seq<int>)
    ensures |ids| == |songs| && forall k :: 0 <= k < |songs| ==> ids[k] == songs[k].id
  {
    seq(|songs|, k requires 0 <= k < |songs| => songs[k].id)
  }
}
