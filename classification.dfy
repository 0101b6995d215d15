/** Which songs of one playlist the deduplicator flags, stated declaratively:
    song i is a duplicate when an earlier song that took part on the same axis
    holds the same key. The two copies of the classification loop
    (library/util.py and main.py) are both proved against this definition; they
    differ only in `Rules.guarded` and in the exceptions they raise. */
module Classification {
  import opened Records

  /** The axes a run uses, and whether it applies the absence guards of
      library/util.py (songs with a falsy ISRC or ART_ID stay off that axis)
      or uses the raw field values as main.py does. */
  datatype Rules = Rules(byIsrc: bool, byName: bool, guarded: bool)

  /** `deduplicate_by`: 1 = ISRC, 2 = title and artist, 3 = both. Mode 3 is the
      only one with both axes; a mode outside 1..3 has none. */
  function RulesFor(mode: int, guarded: bool): (r: Rules)
    ensures r.guarded == guarded
    ensures (r.byIsrc && r.byName) <==> mode == 3
    ensures (!r.byIsrc && !r.byName) <==> mode !in {1, 2, 3}
  {
    Rules(mode == 1 || mode == 3, mode == 2 || mode == 3, guarded)
  }

  /** Whether the song's ISRC is looked at (util.py: `song.get("ISRC")` is truthy). */
  predicate IsrcTakesPart(s: Song, r: Rules) {
    !r.guarded || Truthy(s.isrc)
  }

  /** Whether the song's name key is looked at (util.py: `song.get("ART_ID")` is truthy). */
  predicate NameTakesPart(s: Song, r: Rules) {
    !r.guarded || Truthy(s.artist)
  }

  /** The VERSION suffix of the title; util.py reads a missing VERSION as "".
      A null VERSION raises before any key is built (see ErrorAt). */
  function VersionText(f: Field): string {
    if f.Text? then f.s else ""
  }

  /** The exact (SNG_TITLE + VERSION, ART_ID) pair: no trimming, no case folding. */
  function NameKeyOf(s: Song): NameKey {
    (s.title + VersionText(s.version), s.artist)
  }

  /** Song i repeats the ISRC of an earlier song. The earlier song was added to
      the seen set whatever happened to it on the name axis. */
  ghost predicate IsrcDuplicateAt(songs: seq<Song>, r: Rules, i: int)
    requires 0 <= i < |songs|
  {
    && r.byIsrc
    && IsrcTakesPart(songs[i], r)
    && exists j :: 0 <= j < i && songs[j].isrc == songs[i].isrc
  }

  /** Song i reaches the name check: the name axis is on, the song was not
      already flagged by ISRC, and its artist takes part. */
  ghost predicate NameChecked(songs: seq<Song>, r: Rules, i: int)
    requires 0 <= i < |songs|
  {
    r.byName && !IsrcDuplicateAt(songs, r, i) && NameTakesPart(songs[i], r)
  }

  /** Song i reaches the name check and an earlier song that reached it holds the same key. */
  ghost predicate NameDuplicateAt(songs: seq<Song>, r: Rules, i: int)
    requires 0 <= i < |songs|
  {
    && NameChecked(songs, r, i)
    && exists j :: 0 <= j < i && NameChecked(songs, r, j) && NameKeyOf(songs[j]) == NameKeyOf(songs[i])
  }

  ghost predicate IsDuplicateAt(songs: seq<Song>, r: Rules, i: int)
    requires 0 <= i < |songs|
  {
    IsrcDuplicateAt(songs, r, i) || NameDuplicateAt(songs, r, i)
  }

  /** IsDuplicateAt at every position of the list. */
  ghost function DuplicateFlags(songs: seq<Song>, r: Rules): seq<bool> {
    seq(|songs|, i requires 0 <= i < |songs| => IsDuplicateAt(songs, r, i))
  }

  /** The elements among the first n whose flag is `dup`, in list order. */
  function Select<T>(xs: seq<T>, flags: seq<bool>, n: nat, dup: bool): seq<T>
    requires n <= |xs| && n <= |flags|
  {
    if n == 0 then []
    else Select(xs, flags, n - 1, dup) + (if flags[n - 1] == dup then [xs[n - 1]] else [])
  }

  /** The indices of the elements that Select picks. */
  function Positions(flags: seq<bool>, n: nat, dup: bool): seq<nat>
    requires n <= |flags|
  {
    if n == 0 then []
    else Positions(flags, n - 1, dup) + (if flags[n - 1] == dup then [n - 1] else [])
  }

  /** The songs the deduplicator reports, in list order. */
  ghost function Flagged(songs: seq<Song>, r: Rules): seq<Song> {
    Select(songs, DuplicateFlags(songs, r), |songs|, true)
  }

  /** The songs that stay in the playlist. */
  ghost function Kept(songs: seq<Song>, r: Rules): seq<Song> {
    Select(songs, DuplicateFlags(songs, r), |songs|, false)
  }

  /** The exception, if any, that processing song i raises in the loop body:
      a null VERSION is a TypeError either way; with the guards nothing else
      raises, and without them only a missing field the body reads does. */
  ghost function ErrorAt(songs: seq<Song>, r: Rules, i: int): (e: Option<PyError>)
    requires 0 <= i < |songs|
    ensures e == Some(TypeError) <==> songs[i].version == Null
    ensures r.guarded ==> (e.Some? <==> songs[i].version == Null)
    ensures e.Some? && e.value.KeyError? ==> !r.guarded && e.value.key in {"VERSION", "ISRC", "ART_ID"}
    ensures songs[i].version.Text? && songs[i].isrc != Absent && songs[i].artist != Absent ==> e == None
  {
    var s := songs[i];
    if r.guarded then
      // song["SNG_TITLE"] + song.get("VERSION", "")
      if s.version == Null then Some(TypeError) else None
    else if s.version == Absent then Some(KeyError("VERSION"))
    else if s.version == Null then Some(TypeError)
    else if r.byIsrc && s.isrc == Absent then Some(KeyError("ISRC"))
    else if r.byName && !IsrcDuplicateAt(songs, r, i) && s.artist == Absent then Some(KeyError("ART_ID"))
    else None
  }

  /** The exception raised while processing the first n songs: that of the first song that raises. */
  ghost function FirstError(songs: seq<Song>, r: Rules, n: nat): Option<PyError>
    requires n <= |songs|
  {
    if n == 0 then None
    else if FirstError(songs, r, n - 1).Some? then FirstError(songs, r, n - 1)
    else ErrorAt(songs, r, n - 1)
  }

  /** What the classification loop of either copy produces. */
  ghost function Classify(songs: seq<Song>, r: Rules): Outcome<seq<Song>> {
    match FirstError(songs, r, |songs|)
    case Some(e) => Raised(e)
    case None => Returned(Flagged(songs, r))
  }

  // ---------------------------------------------------------------------------
  // Order, multiplicity and cardinality

  /** Select is the subsequence at strictly increasing positions, and a
      position is picked exactly when its flag is `dup`: every element appears
      at most once and in list order. */
  lemma {:induction false} SelectAtPositions<T>(xs: seq<T>, flags: seq<bool>, n: nat, dup: bool)
    requires n <= |xs| && n <= |flags|
    ensures |Select(xs, flags, n, dup)| == |Positions(flags, n, dup)| <= n
    ensures forall k :: 0 <= k < |Positions(flags, n, dup)| ==>
              Positions(flags, n, dup)[k] < n && Select(xs, flags, n, dup)[k] == xs[Positions(flags, n, dup)[k]]
    ensures forall a, b :: 0 <= a < b < |Positions(flags, n, dup)| ==>
              Positions(flags, n, dup)[a] < Positions(flags, n, dup)[b]
    ensures forall j :: 0 <= j < n ==> (j in Positions(flags, n, dup) <==> flags[j] == dup)
  {
    if n > 0 {
      SelectAtPositions(xs, flags, n - 1, dup);
      var p := Positions(flags, n - 1, dup);
      assert forall j :: j in p ==> j < n - 1;
    }
  }

  lemma TakeOneMore<T>(xs: seq<T>, n: nat)
    requires 0 < n <= |xs|
    ensures xs[..n] == xs[..n - 1] + [xs[n - 1]]
  {
  }

  /** Flagged and kept elements split the list: together they are exactly its elements. */
  lemma {:induction false} SelectPartitions<T>(xs: seq<T>, flags: seq<bool>, n: nat)
    requires n <= |xs| && n <= |flags|
    ensures |Select(xs, flags, n, true)| + |Select(xs, flags, n, false)| == n
    ensures multiset(Select(xs, flags, n, true)) + multiset(Select(xs, flags, n, false)) == multiset(xs[..n])
  {
    if n == 0 {
      assert xs[..0] == [];
    } else {
      SelectPartitions(xs, flags, n - 1);
      var x := xs[n - 1];
      var a := Select(xs, flags, n - 1, true);
      var b := Select(xs, flags, n - 1, false);
      var p := xs[..n - 1];
      TakeOneMore(xs, n);
      assert multiset(p + [x]) == multiset(p) + multiset{x};
      var e: seq<T> := [];
      if flags[n - 1] {
        assert Select(xs, flags, n, true) == a + [x];
        assert Select(xs, flags, n, false) == b + e;
        assert b + e == b;
        assert multiset(a + [x]) == multiset(a) + multiset{x};
      } else {
        assert Select(xs, flags, n, true) == a + e;
        assert a + e == a;
        assert Select(xs, flags, n, false) == b + [x];
        assert multiset(b + [x]) == multiset(b) + multiset{x};
      }
    }
  }

  /** If no flag among the first n is set, nothing is selected as flagged. */
  lemma {:induction false} NothingFlagged<T>(xs: seq<T>, flags: seq<bool>, n: nat)
    requires n <= |xs| && n <= |flags|
    requires forall i :: 0 <= i < n ==> !flags[i]
    ensures Select(xs, flags, n, true) == []
  {
    if n > 0 {
      NothingFlagged(xs, flags, n - 1);
    }
  }

  lemma TakeAll<T>(xs: seq<T>)
    ensures xs[..|xs|] == xs
  {
  }

  /** The duplicates reported for a playlist and the songs kept are, together,
      exactly the playlist's songs. */
  lemma DuplicatesSplitThePlaylist(songs: seq<Song>, r: Rules)
    ensures |Flagged(songs, r)| <= |songs|
    ensures |Flagged(songs, r)| + |Kept(songs, r)| == |songs|
    ensures multiset(Flagged(songs, r)) + multiset(Kept(songs, r)) == multiset(songs)
  {
    var flags := DuplicateFlags(songs, r);
    SelectPartitions(songs, flags, |songs|);
    TakeAll(songs);
  }

  /** The duplicates reported for a playlist are an order-preserving
      subsequence of its songs, each song at most once: those at the positions
      where IsDuplicateAt holds. */
  lemma DuplicatesKeepListOrder(songs: seq<Song>, r: Rules)
    ensures var p := Positions(DuplicateFlags(songs, r), |songs|, true);
            && |p| == |Flagged(songs, r)|
            && (forall k :: 0 <= k < |p| ==> p[k] < |songs| && Flagged(songs, r)[k] == songs[p[k]])
            && (forall a, b :: 0 <= a < b < |p| ==> p[a] < p[b])
            && (forall i :: 0 <= i < |songs| ==> (i in p <==> IsDuplicateAt(songs, r, i)))
  {
    var flags := DuplicateFlags(songs, r);
    SelectAtPositions(songs, flags, |songs|, true);
    assert forall i :: 0 <= i < |songs| ==> flags[i] == IsDuplicateAt(songs, r, i);
  }

  // ---------------------------------------------------------------------------
  // What the classification loop has seen

  /** The ISRCs in the seen set after the first n songs. */
  ghost function SeenIsrcs(songs: seq<Song>, r: Rules, n: nat): set<Field>
    requires n <= |songs|
  {
    set k | 0 <= k < n && r.byIsrc && IsrcTakesPart(songs[k], r) :: songs[k].isrc
  }

  /** The keys of the names dict after the first n songs. */
  ghost function SeenNames(songs: seq<Song>, r: Rules, n: nat): set<NameKey>
    requires n <= |songs|
  {
    set k | 0 <= k < n && NameChecked(songs, r, k) :: NameKeyOf(songs[k])
  }

  /** Song i is an ISRC duplicate iff it takes part and its ISRC is already
      seen; if it takes part its ISRC is seen afterwards. */
  lemma SeenIsrcsAdvance(songs: seq<Song>, r: Rules, i: nat)
    requires i < |songs|
    ensures IsrcDuplicateAt(songs, r, i) <==>
              r.byIsrc && IsrcTakesPart(songs[i], r) && songs[i].isrc in SeenIsrcs(songs, r, i)
    ensures SeenIsrcs(songs, r, i + 1) ==
              if r.byIsrc && IsrcTakesPart(songs[i], r) then SeenIsrcs(songs, r, i) + {songs[i].isrc}
              else SeenIsrcs(songs, r, i)
  {
    if r.byIsrc && IsrcTakesPart(songs[i], r) && songs[i].isrc in SeenIsrcs(songs, r, i) {
      var k :| 0 <= k < i && r.byIsrc && IsrcTakesPart(songs[k], r) && songs[k].isrc == songs[i].isrc;
    }
  }

  /** Song i is a name duplicate iff it reaches the name check and its key is
      already in the dict; if it reaches the check its key is in the dict afterwards. */
  lemma SeenNamesAdvance(songs: seq<Song>, r: Rules, i: nat)
    requires i < |songs|
    ensures NameDuplicateAt(songs, r, i) <==> NameChecked(songs, r, i) && NameKeyOf(songs[i]) in SeenNames(songs, r, i)
    ensures SeenNames(songs, r, i + 1) ==
              if NameChecked(songs, r, i) then SeenNames(songs, r, i) + {NameKeyOf(songs[i])}
              else SeenNames(songs, r, i)
  {
    if NameChecked(songs, r, i) && NameKeyOf(songs[i]) in SeenNames(songs, r, i) {
      var k :| 0 <= k < i && NameChecked(songs, r, k) && NameKeyOf(songs[k]) == NameKeyOf(songs[i]);
    }
  }

  /** The duplicates after song i: those before it, and song i when it is one. */
  lemma FlaggedAdvance(songs: seq<Song>, r: Rules, i: nat)
    requires i < |songs|
    ensures Select(songs, DuplicateFlags(songs, r), i + 1, true) ==
              Select(songs, DuplicateFlags(songs, r), i, true) + (if IsDuplicateAt(songs, r, i) then [songs[i]] else [])
  {
  }

  /** Once the first i songs have raised nothing, song i raising e decides the outcome. */
  lemma RaisesAt(songs: seq<Song>, r: Rules, i: nat, e: PyError)
    requires i < |songs| && FirstError(songs, r, i) == None && ErrorAt(songs, r, i) == Some(e)
    ensures Classify(songs, r) == Raised(e)
  {
    FirstErrorPersists(songs, r, i + 1, |songs|);
  }

  // ---------------------------------------------------------------------------
  // Exceptions

  /** Once a song has raised, the outcome of any longer prefix is that exception. */
  lemma {:induction false} FirstErrorPersists(songs: seq<Song>, r: Rules, n: nat, m: nat)
    requires n <= m <= |songs|
    requires FirstError(songs, r, n).Some?
    ensures FirstError(songs, r, m) == FirstError(songs, r, n)
  {
    if m > n {
      FirstErrorPersists(songs, r, n, m - 1);
    }
  }

  /** FirstError is the exception of the earliest song that raises, and there is none iff no song raises. */
  lemma {:induction false} FirstErrorIsEarliest(songs: seq<Song>, r: Rules, n: nat)
    requires n <= |songs|
    ensures FirstError(songs, r, n).None? <==> forall k :: 0 <= k < n ==> ErrorAt(songs, r, k).None?
    ensures FirstError(songs, r, n).Some? ==>
              exists k :: 0 <= k < n && ErrorAt(songs, r, k) == FirstError(songs, r, n) &&
                          forall j :: 0 <= j < k ==> ErrorAt(songs, r, j).None?
  {
    if n > 0 {
      FirstErrorIsEarliest(songs, r, n - 1);
    }
  }

  /** With the guards of library/util.py the only exception is the TypeError of a null VERSION. */
  lemma GuardedRaisesOnlyOnNullVersion(songs: seq<Song>, r: Rules)
    requires r.guarded
    ensures Classify(songs, r).Raised? <==> exists k :: 0 <= k < |songs| && songs[k].version == Null
    ensures Classify(songs, r).Raised? ==> Classify(songs, r).error == TypeError
  {
    FirstErrorIsEarliest(songs, r, |songs|);
    if Classify(songs, r).Raised? {
      var k :| 0 <= k < |songs| && ErrorAt(songs, r, k) == FirstError(songs, r, |songs|);
      assert songs[k].version == Null;
    } else {
      forall k | 0 <= k < |songs| ensures songs[k].version != Null {
        assert ErrorAt(songs, r, k).None?;
      }
    }
  }

  // ---------------------------------------------------------------------------
  // First occurrence is kept

  /** With the ISRC axis alone, a song is flagged iff it takes part and an
      earlier song has the same ISRC value; the first holder of each ISRC is kept. */
  lemma IsrcAxisFlagsLaterHolders(songs: seq<Song>, guarded: bool, i: nat)
    requires i < |songs|
    ensures var r := RulesFor(1, guarded);
            i in Positions(DuplicateFlags(songs, r), |songs|, true) <==>
              IsrcTakesPart(songs[i], r) && exists j :: 0 <= j < i && songs[j].isrc == songs[i].isrc
  {
    var r := RulesFor(1, guarded);
    SelectAtPositions(songs, DuplicateFlags(songs, r), |songs|, true);
  }

  /** With the name axis alone, a song is flagged iff it takes part and an
      earlier participating song has the same (title + version, artist) key. */
  lemma NameAxisFlagsLaterHolders(songs: seq<Song>, guarded: bool, i: nat)
    requires i < |songs|
    ensures var r := RulesFor(2, guarded);
            i in Positions(DuplicateFlags(songs, r), |songs|, true) <==>
              && NameTakesPart(songs[i], r)
              && exists j :: 0 <= j < i && NameTakesPart(songs[j], r) && NameKeyOf(songs[j]) == NameKeyOf(songs[i])
  {
    var r := RulesFor(2, guarded);
    SelectAtPositions(songs, DuplicateFlags(songs, r), |songs|, true);
    assert forall j :: 0 <= j < |songs| ==> (NameChecked(songs, r, j) <==> NameTakesPart(songs[j], r));
  }

  /** Under the guards a song with a falsy ISRC is never an ISRC duplicate and
      no song is flagged by ISRC for matching it; likewise for a falsy ART_ID on
      the name axis. */
  lemma FalsyKeysTakeNoPart(songs: seq<Song>, r: Rules, i: nat)
    requires r.guarded && i < |songs|
    ensures !Truthy(songs[i].isrc) ==>
              && !IsrcDuplicateAt(songs, r, i)
              && forall j :: i < j < |songs| && IsrcDuplicateAt(songs, r, j) ==> songs[j].isrc != songs[i].isrc
    ensures !Truthy(songs[i].artist) ==>
              && !NameChecked(songs, r, i) && !NameDuplicateAt(songs, r, i)
              && forall j :: i < j < |songs| && NameChecked(songs, r, j) ==> NameKeyOf(songs[j]) != NameKeyOf(songs[i])
  {
  }

  /** A song flagged by name still puts its ISRC in the seen set, so a later
      song with that ISRC is flagged even though the holder is itself a duplicate. */
  lemma NameDuplicateStillClaimsItsIsrc(a: Song, b: Song, c: Song)
    requires Truthy(a.isrc) && Truthy(b.isrc) && a.isrc != b.isrc && c.isrc == b.isrc
    requires Truthy(a.artist) && NameKeyOf(a) == NameKeyOf(b)
    ensures DuplicateFlags([a, b, c], RulesFor(3, true)) == [false, true, true]
  {
    var songs, r := [a, b, c], RulesFor(3, true);
    assert !IsrcDuplicateAt(songs, r, 1) by {
      assert songs[0].isrc != songs[1].isrc;
    }
    assert NameChecked(songs, r, 0) && NameChecked(songs, r, 1);
    assert NameDuplicateAt(songs, r, 1) by {
      assert NameKeyOf(songs[0]) == NameKeyOf(songs[1]);
    }
    assert IsrcDuplicateAt(songs, r, 2) by {
      assert songs[1].isrc == songs[2].isrc;
    }
    assert !IsDuplicateAt(songs, r, 0);
  }

  // ---------------------------------------------------------------------------
  // Deduplication is idempotent

  /** K lists songs of `songs` that are not duplicates, at the strictly increasing positions P. */
  ghost predicate KeptAt(songs: seq<Song>, r: Rules, K: seq<Song>, P: seq<nat>) {
    && |K| == |P|
    && (forall m :: 0 <= m < |P| ==> P[m] < |songs| && K[m] == songs[P[m]] && !IsDuplicateAt(songs, r, P[m]))
    && (forall a, b :: 0 <= a < b < |P| ==> P[a] < P[b])
  }

  lemma KeptSongIsNotIsrcDuplicate(songs: seq<Song>, r: Rules, K: seq<Song>, P: seq<nat>, m: nat)
    requires KeptAt(songs, r, K, P) && m < |K|
    ensures !IsrcDuplicateAt(K, r, m) && NameChecked(K, r, m) == NameChecked(songs, r, P[m])
  {
    assert !IsrcDuplicateAt(songs, r, P[m]);
    forall j | 0 <= j < m
      ensures !(r.byIsrc && IsrcTakesPart(K[m], r) && K[j].isrc == K[m].isrc)
    {
      assert P[j] < P[m];
    }
  }

  lemma KeptSongIsNotNameDuplicate(songs: seq<Song>, r: Rules, K: seq<Song>, P: seq<nat>, m: nat)
    requires KeptAt(songs, r, K, P) && m < |K|
    ensures !NameDuplicateAt(K, r, m)
  {
    assert !NameDuplicateAt(songs, r, P[m]);
    forall j | 0 <= j < m
      ensures !(NameChecked(K, r, m) && NameChecked(K, r, j) && NameKeyOf(K[j]) == NameKeyOf(K[m]))
    {
      KeptSongIsNotIsrcDuplicate(songs, r, K, P, m);
      KeptSongIsNotIsrcDuplicate(songs, r, K, P, j);
      assert P[j] < P[m];
    }
  }

  lemma KeptSongRaisesAsBefore(songs: seq<Song>, r: Rules, K: seq<Song>, P: seq<nat>, m: nat)
    requires KeptAt(songs, r, K, P) && m < |K|
    ensures ErrorAt(K, r, m) == ErrorAt(songs, r, P[m])
  {
    KeptSongIsNotIsrcDuplicate(songs, r, K, P, m);
  }

  /** The songs left after removing the flagged ones contain no duplicates, and
      if classifying the list did not raise, classifying what is kept does not
      raise either and flags nothing. */
  lemma KeptIsDuplicateFree(songs: seq<Song>, r: Rules)
    ensures Flagged(Kept(songs, r), r) == []
    ensures Classify(songs, r).Returned? ==> Classify(Kept(songs, r), r) == Returned([])
  {
    var n := |songs|;
    var flags := DuplicateFlags(songs, r);
    var K := Kept(songs, r);
    var P := Positions(flags, n, false);
    SelectAtPositions(songs, flags, n, false);
    forall m | 0 <= m < |K|
      ensures !IsDuplicateAt(songs, r, P[m])
    {
      assert P[m] in P;
    }
    assert KeptAt(songs, r, K, P);
    forall m | 0 <= m < |K|
      ensures !DuplicateFlags(K, r)[m]
    {
      KeptSongIsNotIsrcDuplicate(songs, r, K, P, m);
      KeptSongIsNotNameDuplicate(songs, r, K, P, m);
    }
    NothingFlagged(K, DuplicateFlags(K, r), |K|);
    if Classify(songs, r).Returned? {
      FirstErrorIsEarliest(songs, r, n);
      forall m | 0 <= m < |K|
        ensures ErrorAt(K, r, m).None?
      {
        KeptSongRaisesAsBefore(songs, r, K, P, m);
      }
      FirstErrorIsEarliest(K, r, |K|);
    }
  }

  // ---------------------------------------------------------------------------
  // A song without ISRC and artist is inert under the guards

  /** Index of element i of a list once an element has been inserted at position k. */
  function Shift(i: nat, k: nat): nat {
    if i < k then i else i + 1
  }

  /** t is xs with x inserted at position k. */
  ghost predicate IsInsertion<T>(xs: seq<T>, k: nat, x: T, t: seq<T>) {
    && k <= |xs| && |t| == |xs| + 1 && t[k] == x
    && forall i :: 0 <= i < |xs| ==> t[Shift(i, k)] == xs[i]
  }

  lemma InsertedAt<T>(xs: seq<T>, k: nat, x: T)
    requires k <= |xs|
    ensures IsInsertion(xs, k, x, xs[..k] + [x] + xs[k..])
  {
  }

  /** Inserting an element whose flag is clear, without changing the other
      flags, leaves the selection of flagged elements unchanged. */
  lemma {:induction false} SelectIgnoresInserted<T>(xs: seq<T>, fs: seq<bool>, k: nat, x: T, t: seq<T>, ft: seq<bool>, n: nat)
    requires IsInsertion(xs, k, x, t) && |fs| == |xs| && |ft| == |t| && n <= |xs|
    requires !ft[k] && forall i :: 0 <= i < |xs| ==> ft[Shift(i, k)] == fs[i]
    ensures Select(t, ft, Shift(n, k), true) == Select(xs, fs, n, true)
  {
    if n == 0 {
      if k == 0 {
        assert Select(t, ft, 1, true) == Select(t, ft, 0, true);
      }
    } else {
      SelectIgnoresInserted(xs, fs, k, x, t, ft, n - 1);
      var m := Shift(n - 1, k);
      assert t[m] == xs[n - 1] && ft[m] == fs[n - 1];
      if n == k {
        assert Select(t, ft, k, true) == Select(xs, fs, k, true);
        assert Select(t, ft, k + 1, true) == Select(t, ft, k, true);
      } else {
        assert Shift(n, k) == m + 1;
      }
    }
  }

  /** The index in xs of an element of t other than the inserted one. */
  function Unshift(j: nat, k: nat): nat
    requires j != k
  {
    if j < k then j else j - 1
  }

  lemma InsertedIsrcTakesNoPart(songs: seq<Song>, r: Rules, k: nat, x: Song, t: seq<Song>, i: nat)
    requires r.guarded && IsInsertion(songs, k, x, t) && i < |t| && !Truthy(x.isrc)
    requires IsrcTakesPart(t[i], r)
    ensures i != k && forall j :: 0 <= j < |t| && t[j].isrc == t[i].isrc ==> j != k
  {
  }

  lemma InertIsrc(songs: seq<Song>, r: Rules, k: nat, x: Song, t: seq<Song>, i: nat)
    requires r.guarded && IsInsertion(songs, k, x, t) && i < |songs|
    requires !Truthy(x.isrc)
    ensures !IsrcDuplicateAt(t, r, k) && IsrcDuplicateAt(t, r, Shift(i, k)) == IsrcDuplicateAt(songs, r, i)
  {
    var i' := Shift(i, k);
    if IsrcDuplicateAt(t, r, i') {
      var j' :| 0 <= j' < i' && t[j'].isrc == t[i'].isrc;
      InsertedIsrcTakesNoPart(songs, r, k, x, t, i');
      var j := Unshift(j', k);
      assert Shift(j, k) == j' && j < i;
      assert songs[j].isrc == songs[i].isrc;
    }
    if IsrcDuplicateAt(songs, r, i) {
      var j :| 0 <= j < i && songs[j].isrc == songs[i].isrc;
      assert Shift(j, k) < i' && t[Shift(j, k)].isrc == t[i'].isrc;
    }
  }

  lemma InertNameChecked(songs: seq<Song>, r: Rules, k: nat, x: Song, t: seq<Song>)
    requires r.guarded && IsInsertion(songs, k, x, t)
    requires !Truthy(x.isrc) && !Truthy(x.artist)
    ensures !NameChecked(t, r, k)
    ensures forall i :: 0 <= i < |songs| ==> NameChecked(t, r, Shift(i, k)) == NameChecked(songs, r, i)
  {
    forall i | 0 <= i < |songs|
      ensures NameChecked(t, r, Shift(i, k)) == NameChecked(songs, r, i)
    {
      InertIsrc(songs, r, k, x, t, i);
    }
  }

  lemma InertName(songs: seq<Song>, r: Rules, k: nat, x: Song, t: seq<Song>, i: nat)
    requires r.guarded && IsInsertion(songs, k, x, t) && i < |songs|
    requires !Truthy(x.isrc) && !Truthy(x.artist)
    ensures NameDuplicateAt(t, r, Shift(i, k)) == NameDuplicateAt(songs, r, i)
  {
    var i' := Shift(i, k);
    InertNameChecked(songs, r, k, x, t);
    if NameDuplicateAt(t, r, i') {
      var j' :| 0 <= j' < i' && NameChecked(t, r, j') && NameKeyOf(t[j']) == NameKeyOf(t[i']);
      assert j' != k;
      var j := Unshift(j', k);
      assert Shift(j, k) == j' && j < i;
      assert NameChecked(songs, r, j) && NameKeyOf(songs[j]) == NameKeyOf(songs[i]);
    }
    if NameDuplicateAt(songs, r, i) {
      var j :| 0 <= j < i && NameChecked(songs, r, j) && NameKeyOf(songs[j]) == NameKeyOf(songs[i]);
      assert Shift(j, k) < i' && NameChecked(t, r, Shift(j, k)) && NameKeyOf(t[Shift(j, k)]) == NameKeyOf(t[i']);
    }
  }

  /** Inserting the song keeps the other songs' flags and adds a clear one. */
  lemma InertFlags(songs: seq<Song>, r: Rules, k: nat, x: Song, t: seq<Song>)
    requires r.guarded && IsInsertion(songs, k, x, t)
    requires !Truthy(x.isrc) && !Truthy(x.artist)
    ensures !IsDuplicateAt(t, r, k)
    ensures forall i :: 0 <= i < |songs| ==> DuplicateFlags(t, r)[Shift(i, k)] == DuplicateFlags(songs, r)[i]
  {
    InertNameChecked(songs, r, k, x, t);
    forall i | 0 <= i < |songs|
      ensures DuplicateFlags(t, r)[Shift(i, k)] == DuplicateFlags(songs, r)[i]
    {
      InertIsrc(songs, r, k, x, t, i);
      InertName(songs, r, k, x, t, i);
    }
    assert !IsrcTakesPart(t[k], r);
  }

  /** With the guards, the outcome of an insertion that adds no null VERSION is unchanged. */
  lemma InsertionRaisesAsBefore(songs: seq<Song>, r: Rules, k: nat, x: Song, t: seq<Song>)
    requires r.guarded && IsInsertion(songs, k, x, t) && x.version != Null
    ensures Classify(t, r).Raised? == Classify(songs, r).Raised?
  {
    GuardedRaisesOnlyOnNullVersion(songs, r);
    GuardedRaisesOnlyOnNullVersion(t, r);
    if exists j :: 0 <= j < |t| && t[j].version == Null {
      var j :| 0 <= j < |t| && t[j].version == Null;
      assert j != k;
      assert songs[Unshift(j, k)].version == Null by {
        assert Shift(Unshift(j, k), k) == j;
      }
    }
    if exists i :: 0 <= i < |songs| && songs[i].version == Null {
      var i :| 0 <= i < |songs| && songs[i].version == Null;
      assert t[Shift(i, k)].version == Null;
    }
  }

  /** Under the guards of library/util.py, a song with a falsy ISRC and a falsy
      ART_ID is never flagged and, wherever it is inserted, changes neither which
      other songs are flagged nor, when its VERSION is not null, the outcome. */
  lemma KeylessSongIsInert(songs: seq<Song>, r: Rules, k: nat, x: Song)
    requires r.guarded && k <= |songs|
    requires !Truthy(x.isrc) && !Truthy(x.artist)
    ensures !IsDuplicateAt(songs[..k] + [x] + songs[k..], r, k)
    ensures Flagged(songs[..k] + [x] + songs[k..], r) == Flagged(songs, r)
    ensures x.version != Null ==> Classify(songs[..k] + [x] + songs[k..], r) == Classify(songs, r)
  {
    var t := songs[..k] + [x] + songs[k..];
    InsertedAt(songs, k, x);
    InertFlags(songs, r, k, x, t);
    SelectIgnoresInserted(songs, DuplicateFlags(songs, r), k, x, t, DuplicateFlags(t, r), |songs|);
    assert Shift(|songs|, k) == |t|;
    if x.version != Null {
      InsertionRaisesAsBefore(songs, r, k, x, t);
      GuardedRaisesOnlyOnNullVersion(songs, r);
      GuardedRaisesOnlyOnNullVersion(t, r);
    }
  }
}
