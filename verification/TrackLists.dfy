/**
 The playback list: a paged context with a cursor, an optional shuffle and a queue
 on top (tracks/tracks.go), as a value and the effect of every operation on it.
 Module PlaybackLists holds the object.
 */
module TrackLists {
  import opened Common
  import opened Resolver
  import opened Paging
  import opened Shuffling
  import Ids

  /** What a list runs in: the network behind its resolver, the random source, the context's id type. */
  datatype World = World(net: Network, src: Source, typ: string)

  datatype TrackList = TrackList(
    tracks: Paged,
    shuffled: bool, seed: nat, shuffleLen: nat, keep: int,
    playingQueue: bool, queue: seq<ContextTrack>)

  const MAX_TRACKS_IN_CONTEXT := 32

  /** A new list over a resolver that knows `pages`. */
  function New(pages: seq<ContextPage>): (s: TrackList)
    requires pages != []
    ensures Safe(s)
  {
    TrackList(Paged([], -1, Snapshot(pages, 0)), false, 0, 0, 0, false, [])
  }

  ghost predicate CursorInRange(s: TrackList) {
    -1 <= s.tracks.pos < |s.tracks.list|
  }

  /** What no run of operations can break, whatever fails. */
  ghost predicate Safe(s: TrackList) {
    && Valid(s.tracks)
    && CursorInRange(s)
    && (s.playingQueue ==> s.queue != [])
    && (s.keep > 0 ==> s.keep < s.shuffleLen)
  }

  predicate HasCursor(s: TrackList) { s.tracks.pos >= 0 }

  // ----- navigation

  function Current(s: TrackList): ContextTrack
    requires Safe(s) && (s.playingQueue || HasCursor(s))
  {
    if s.playingQueue then s.queue[0] else s.tracks.list[s.tracks.pos].item
  }

  /** The queue once its playing head, if any, is taken off. */
  function Waiting(s: TrackList): seq<ContextTrack>
    requires Safe(s)
  {
    if s.playingQueue then s.queue[1..] else s.queue
  }

  function GoNext(w: World, s: TrackList): (TrackList, bool)
    requires Safe(s) && (Waiting(s) == [] ==> HasCursor(s))
  {
    var q := Waiting(s);
    if q != [] then (s.(queue := q, playingQueue := true), true)
    else
      var a := IterNext(w.net, s.tracks, s.tracks.pos);
      (s.(queue := q, playingQueue := false,
          tracks := if a.ok then a.st.(pos := s.tracks.pos + 1) else a.st), a.ok)
  }

  function GoPrev(s: TrackList): (TrackList, bool)
    requires Safe(s) && HasCursor(s)
  {
    var t := s.(playingQueue := false);
    if s.tracks.pos == 0 then (t, false)
    else (t.(tracks := s.tracks.(pos := s.tracks.pos - 1)), true)
  }

  function Seek(w: World, s: TrackList, f: ContextTrack -> bool): (TrackList, bool)
    requires Safe(s) && Finite(w.net)
  {
    var r := Scan(w.net, s.tracks, -1, f);
    if r.found >= 0 then (s.(tracks := r.st.(pos := r.found)), true)
    else (s.(tracks := r.st), false)
  }

  function GoStart(w: World, s: TrackList): (TrackList, bool)
    requires Safe(s)
  {
    if s.tracks.list != [] then (s.(tracks := s.tracks.(pos := 0)), true)
    else
      var (st, r) := FetchNextPage(w.net, s.tracks);
      if r == Fetched then (s.(tracks := st.(pos := 0)), true) else (s.(tracks := st), false)
  }

  function TrySeek(w: World, s: TrackList, f: ContextTrack -> bool): (TrackList, bool)
    requires Safe(s) && Finite(w.net)
  {
    var (t, ok) := Seek(w, s, f);
    SeekSafe(w, s, f);
    if ok then (t, true) else GoStart(w, t)
  }

  // ----- views

  /** The next `limit` tracks: first what waits in the queue, then the context after the cursor. */
  function Upcoming(w: World, s: TrackList, limit: nat): (TrackList, seq<ContextTrack>)
    requires Safe(s) && HasCursor(s)
  {
    var q := Waiting(s)[..Min(limit, |Waiting(s)|)];
    var (st, ts) := Collect(w.net, s.tracks, s.tracks.pos, limit - |q|);
    (s.(tracks := st), q + ts)
  }

  function NextTracks(w: World, s: TrackList): (TrackList, seq<ContextTrack>)
    requires Safe(s) && HasCursor(s)
  {
    Upcoming(w, s, MAX_TRACKS_IN_CONTEXT)
  }

  /** The tracks just before the cursor, in list order. */
  function PrevTracks(s: TrackList): (ts: seq<ContextTrack>)
    requires Safe(s) && HasCursor(s)
  {
    var n := Min(MAX_TRACKS_IN_CONTEXT, s.tracks.pos);
    seq(n, i requires 0 <= i < n => s.tracks.list[s.tracks.pos - n + i].item)
  }

  function PeekNext(w: World, s: TrackList): (TrackList, Option<ContextTrack>)
    requires Safe(s) && (Waiting(s) == [] ==> HasCursor(s))
  {
    if Waiting(s) != [] then (s, Some(Waiting(s)[0]))
    else
      var a := IterNext(w.net, s.tracks, s.tracks.pos);
      IterNextExtends(w.net, s.tracks, s.tracks.pos);
      (s.(tracks := a.st), if a.ok then Some(a.st.list[s.tracks.pos + 1].item) else None)
  }

  function FetchAll(w: World, s: TrackList): TrackList
    requires Safe(s) && Finite(w.net)
  {
    s.(tracks := Scan(w.net, s.tracks, -1, Never()).st)
  }

  /** Page and item index reported for the current track; zeros while the queue plays. */
  function Index(s: TrackList): (nat, nat)
    requires Safe(s) && (s.playingQueue || HasCursor(s))
  {
    if s.playingQueue then (0, 0)
    else var e := s.tracks.list[s.tracks.pos]; (e.pageIdx, e.itemIdx)
  }

  // ----- queue

  predicate IsQueued(t: ContextTrack) {
    "is_queued" in t.metadata && t.metadata["is_queued"] == "true"
  }

  function AddToQueue(s: TrackList, t: ContextTrack): TrackList {
    s.(queue := s.queue + [t.(metadata := t.metadata["is_queued" := "true"])])
  }

  /** The queued tracks of `next`, in order. */
  function OnlyQueued(next: seq<ContextTrack>): (r: seq<ContextTrack>)
    ensures forall t :: t in r <==> t in next && IsQueued(t)
  {
    if next == [] then []
    else
      var k := |next| - 1;
      assert next == next[..k] + [next[k]];
      OnlyQueued(next[..k]) + if IsQueued(next[k]) then [next[k]] else []
  }

  function SetQueue(s: TrackList, next: seq<ContextTrack>): TrackList
    requires Safe(s)
  {
    s.(queue := (if s.playingQueue then s.queue[..1] else []) + OnlyQueued(next))
  }

  function SetPlayingQueue(s: TrackList, val: bool): TrackList {
    s.(playingQueue := s.queue != [] && val)
  }

  // ----- shuffling

  function TargetUri(typ: string, target: ContextTrack): string {
    if target.uri == "" && |target.gid| > 0 then Ids.Uri(Ids.SpotifyId(typ, target.gid)) else target.uri
  }

  /** ContextTrackComparator: the same uid, the same uri, or a gid that spells the uri. */
  predicate SameTrack(typ: string, target: ContextTrack, t: ContextTrack) {
    || (t.uid != "" && t.uid == target.uid)
    || (t.uri != "" && t.uri == TargetUri(typ, target))
    || (|t.gid| > 0 && Ids.Uri(Ids.SpotifyId(typ, t.gid)) == TargetUri(typ, target))
  }

  function Matcher(typ: string, target: ContextTrack): ContextTrack -> bool {
    (t: ContextTrack) => SameTrack(typ, target, t)
  }

  function Bring<T>(d: Deck<T>, keep: int): (r: Deck<T>)
    requires keep > 0 ==> keep < |d.list|
    ensures |r.list| == |d.list|
  {
    if keep > 0 then SwapAt(d, 0, keep) else d
  }

  /** Shuffle, then move the current element to the front; `keep` remembers where it came from. */
  function Do<T>(src: Source, seed: nat, d: Deck<T>): (r: (Deck<T>, int))
    requires -1 <= d.pos < |d.list|
    ensures |r.0.list| == |d.list|
    ensures r.1 == -1 || 0 < r.1 < |d.list|
  {
    var m := Shuffle(src, src.seed(seed), d);
    ShuffleSameCards(src, src.seed(seed), d);
    var keep := if m.pos > 0 then m.pos else -1;
    (Bring(m, keep), keep)
  }

  /** Put the front element back where it came from, then replay the shuffle backwards. */
  function Undo<T>(src: Source, seed: nat, keep: int, d: Deck<T>): (r: Deck<T>)
    requires keep > 0 ==> keep < |d.list|
    ensures |r.list| == |d.list|
  {
    Unshuffle(src, src.seed(seed), Bring(d, keep))
  }

  function ShuffleOn(w: World, s: TrackList, u: nat): (r: TrackList)
    requires Safe(s) && Finite(w.net)
    ensures Safe(r)
  {
    var t := FetchAll(w, s);
    FetchAllSafe(w, s);
    var seed := (u + 1) % TWO_TO_THE_64;
    var deck := Deck(t.tracks.list, t.tracks.pos);
    var (d, keep) := Do(w.src, seed, deck);
    DoSameCards(w.src, seed, deck);
    SameCardsLocated(deck, d, t.tracks.res.pages);
    t.(tracks := t.tracks.(list := d.list, pos := d.pos),
       shuffled := true, seed := seed, shuffleLen := |d.list|, keep := keep)
  }

  /** The shuffle can be replayed backwards: it was seeded and no page has arrived since. */
  predicate CanUndo(s: TrackList) {
    s.seed != 0 && |s.tracks.list| == s.shuffleLen
  }

  function ShuffleOff(w: World, s: TrackList): (TrackList, bool)
    requires Safe(s) && Finite(w.net) && (CanUndo(s) || s.playingQueue || HasCursor(s))
  {
    if CanUndo(s) then
      var d := Undo(w.src, s.seed, s.keep, Deck(s.tracks.list, s.tracks.pos));
      (s.(tracks := s.tracks.(list := d.list, pos := d.pos), shuffled := false), true)
    else
      var cleared := s.(tracks := s.tracks.(list := [], pos := -1));
      var (t, ok) := Seek(w, cleared, Matcher(w.typ, Current(s)));
      (if ok then t.(shuffled := false) else t, ok)
  }

  function ToggleShuffle(w: World, s: TrackList, on: bool, u: nat): (TrackList, bool)
    requires Safe(s) && Finite(w.net)
    requires s.shuffled && !on ==> CanUndo(s) || s.playingQueue || HasCursor(s)
  {
    if on == s.shuffled then (s, true)
    else if on then (ShuffleOn(w, s, u), true)
    else ShuffleOff(w, s)
  }

  // ----- safety of the single operations

  lemma SeekSafe(w: World, s: TrackList, f: ContextTrack -> bool)
    requires Safe(s) && Finite(w.net)
    ensures Safe(Seek(w, s, f).0)
  {
    ScanFindsFirst(w.net, s.tracks, -1, f);
  }

  /** A seek lands on the first track that satisfies `f` or leaves the cursor where it was. */
  lemma SeekLands(w: World, s: TrackList, f: ContextTrack -> bool)
    requires Safe(s) && Finite(w.net)
    ensures var (t, ok) := Seek(w, s, f);
            if ok then FirstMatch(t.tracks.list, -1, f, t.tracks.pos)
            else t.tracks.pos == s.tracks.pos && forall k :: 0 <= k < |t.tracks.list| ==> !f(t.tracks.list[k].item)
  {
    ScanFindsFirst(w.net, s.tracks, -1, f);
  }

  /** Some track of the whole list, pages still to be fetched included, satisfies `f`. */
  predicate HasMatch(w: World, s: TrackList, f: ContextTrack -> bool)
    requires Safe(s) && Finite(w.net)
  {
    var all := FetchAll(w, s).tracks.list;
    exists k :: 0 <= k < |all| && f(all[k].item)
  }

  lemma SeekFindsExactly(w: World, s: TrackList, f: ContextTrack -> bool)
    requires Safe(s) && Finite(w.net)
    ensures Seek(w, s, f).1 <==> HasMatch(w, s, f)
  {
    hide Scan;
    ScanFindsExactly(w.net, s.tracks, -1, f);
    assert FetchAll(w, s).tracks == Scan(w.net, s.tracks, -1, Never()).st;
  }

  /**
   Trying to seek lands on the first match if the list holds one anywhere; else it goes to
   the first entry, and fails, leaving the cursor, only if there is none.
   */
  lemma TrySeekLands(w: World, s: TrackList, f: ContextTrack -> bool)
    requires Safe(s) && Finite(w.net)
    ensures var (t, ok) := TrySeek(w, s, f);
            if HasMatch(w, s, f) then ok && t.tracks.pos >= 0 && FirstMatch(t.tracks.list, -1, f, t.tracks.pos)
            else (ok <==> t.tracks.list != []) && t.tracks.pos == if ok then 0 else s.tracks.pos
  {
    hide Scan, HasMatch;
    SeekFindsExactly(w, s, f);
    SeekLands(w, s, f);
    if !Seek(w, s, f).1 {
      SeekSafe(w, s, f);
      GoStartLands(w, Seek(w, s, f).0);
    }
  }

  /** Going to the start puts the cursor on the first entry, fetching it if need be; it fails only if none can be had. */
  lemma GoStartLands(w: World, s: TrackList)
    requires Safe(s)
    ensures var (t, ok) := GoStart(w, s);
            && (ok <==> s.tracks.list != [] || PageArrives(w.net, s.tracks))
            && (ok <==> t.tracks.list != [])
            && t.tracks.pos == if ok then 0 else s.tracks.pos
  {
    FetchedExactly(w.net, s.tracks);
    FetchExtends(w.net, s.tracks);
  }

  /** A new list over a context whose first page has tracks starts with the first of them. */
  lemma NewStarts(w: World, pages: seq<ContextPage>)
    requires pages != [] && pages[0].tracks != []
    ensures var (t, ok) := GoStart(w, New(pages));
            && ok && Safe(t) && HasCursor(t) && !t.shuffled
            && Current(t) == pages[0].tracks[0] && Index(t) == (0, 0) && Waiting(t) == []
  {
    FetchExtends(w.net, New(pages).tracks);
  }

  /** Going on plays what waits, first come first served; then it moves the cursor by one, or leaves it at the end. */
  lemma GoNextLands(w: World, s: TrackList)
    requires Safe(s) && (Waiting(s) == [] ==> HasCursor(s))
    ensures var (t, ok) := GoNext(w, s);
            if Waiting(s) != [] then
              ok && t.tracks == s.tracks && Safe(t) && Current(t) == Waiting(s)[0] && Waiting(t) == Waiting(s)[1..]
            else
              && !t.playingQueue && t.queue == []
              && (ok <==> s.tracks.pos + 1 < |s.tracks.list| || PageArrives(w.net, s.tracks))
              && t.tracks.pos == if ok then s.tracks.pos + 1 else s.tracks.pos
  {
    if Waiting(s) == [] {
      IterNextExactly(w.net, s.tracks, s.tracks.pos);
      IterNextExtends(w.net, s.tracks, s.tracks.pos);
    }
  }

  /** Going back leaves the queue waiting, steps the cursor back by one, and at the first entry leaves it there. */
  lemma GoPrevLands(s: TrackList)
    requires Safe(s) && HasCursor(s)
    ensures var (t, ok) := GoPrev(s);
            && Safe(t) && HasCursor(t) && !t.playingQueue && Waiting(t) == s.queue
            && (ok <==> s.tracks.pos > 0)
            && Current(t) == s.tracks.list[if ok then s.tracks.pos - 1 else 0].item
            && t.tracks.list == s.tracks.list && t.tracks.res == s.tracks.res
  {
  }

  /** Forward within the context and back again is where it was. */
  lemma NextThenPrev(w: World, s: TrackList)
    requires Safe(s) && HasCursor(s) && Waiting(s) == [] && GoNext(w, s).1
    ensures var t := GoNext(w, s).0;
            Safe(t) && HasCursor(t) && GoPrev(t).1 && GoPrev(t).0.tracks.pos == s.tracks.pos
            && s.tracks.list <= GoPrev(t).0.tracks.list
            && (!s.playingQueue ==> Safe(GoPrev(t).0) && Current(GoPrev(t).0) == Current(s))
  {
    IterNextExtends(w.net, s.tracks, s.tracks.pos);
  }

  /** Setting the queue keeps the track that plays from it; what waits then is what is marked in `next`. */
  lemma SetQueueLands(s: TrackList, next: seq<ContextTrack>)
    requires Safe(s)
    ensures var t := SetQueue(s, next);
            && Safe(t) && t.tracks == s.tracks && t.playingQueue == s.playingQueue
            && (s.playingQueue || HasCursor(s) ==> Current(t) == Current(s))
            && Waiting(t) == OnlyQueued(next)
            && forall x :: x in Waiting(t) <==>
                 x in next && "is_queued" in x.metadata && x.metadata["is_queued"] == "true"
  {
  }

  /** The queue can be told to play only if there is one; then its first track is current, else the context's. */
  lemma SetPlayingQueueLands(s: TrackList, val: bool)
    requires Safe(s)
    ensures var t := SetPlayingQueue(s, val);
            && Safe(t) && t.queue == s.queue && t.tracks == s.tracks
            && (t.playingQueue <==> val && s.queue != [])
            && (val && s.queue != [] ==> Current(t) == s.queue[0])
            && (!val && HasCursor(s) ==> Current(t) == s.tracks.list[s.tracks.pos].item && Waiting(t) == s.queue)
  {
  }

  /** The index reported for a context track finds that very track in the resolver's pages; for a queued one it is zeros. */
  lemma IndexLocates(s: TrackList)
    requires Safe(s) && (s.playingQueue || HasCursor(s))
    ensures var (page, track) := Index(s);
            if s.playingQueue then page == track == 0
            else
              && page < |s.tracks.res.pages| && track < |s.tracks.res.pages[page].tracks|
              && s.tracks.res.pages[page].tracks[track] == Current(s)
  {
    if !s.playingQueue {
      assert LocatedAt(s.tracks.list[s.tracks.pos], s.tracks.res.pages);
    }
  }

  // ----- what makes two tracks the same

  /**
   The same uid, the same uri, or, of a target known by gid only, the same gid or the uri
   that prints it; of a target with a uri, a gid that prints it.
   */
  lemma SameTrackExactly(typ: string, target: ContextTrack, t: ContextTrack)
    ensures SameTrack(typ, target, t) <==>
            || (t.uid != "" && t.uid == target.uid)
            || (target.uri != "" &&
                 (t.uri == target.uri || (t.gid != [] && Ids.Uri(Ids.SpotifyId(typ, t.gid)) == target.uri)))
            || (target.uri == "" && target.gid != [] &&
                 (t.gid == target.gid || t.uri == Ids.Uri(Ids.SpotifyId(typ, target.gid))))
  {
    if target.gid != [] && t.gid != [] {
      Ids.UriOfGid(typ, t.gid, target.gid);
    }
  }

  // ----- the switch of the shuffle

  /**
   Every number drawn gives a seed of its own, and every one but the last a shuffle that
   can be undone: that one wraps to zero.
   */
  lemma SeedsDiffer(w: World, s: TrackList, u: nat, v: nat)
    requires Safe(s) && Finite(w.net) && u < TWO_TO_THE_64 && v < TWO_TO_THE_64
    ensures ShuffleOn(w, s, u).seed == ShuffleOn(w, s, v).seed <==> u == v
    ensures ShuffleOn(w, s, u).seed == if u == TWO_TO_THE_64 - 1 then 0 else u + 1
    ensures CanUndo(ShuffleOn(w, s, u)) <==> u != TWO_TO_THE_64 - 1
  {
  }

  /** Keeping the queued tracks keeps their order: it goes part by part. */
  lemma {:induction false} OnlyQueuedConcat(a: seq<ContextTrack>, b: seq<ContextTrack>)
    ensures OnlyQueued(a + b) == OnlyQueued(a) + OnlyQueued(b)
  {
    if b == [] {
      assert a + b == a;
    } else {
      var k := |b| - 1;
      assert (a + b)[..|a + b| - 1] == a + b[..k];
      OnlyQueuedConcat(a, b[..k]);
    }
  }

  /** The queue is first in, first out: a track added waits behind all that wait. */
  lemma AddedLast(s: TrackList, t: ContextTrack)
    requires Safe(s)
    ensures Safe(AddToQueue(s, t))
    ensures var w, w' := Waiting(s), Waiting(AddToQueue(s, t));
            |w'| == |w| + 1 && w <= w' && IsQueued(w'[|w|]) && w'[|w|].(metadata := t.metadata) == t
  {
  }

  lemma FetchAllSafe(w: World, s: TrackList)
    requires Safe(s) && Finite(w.net)
    ensures Safe(FetchAll(w, s))
    ensures Extends(w.net, s.tracks, FetchAll(w, s).tracks)
  {
    ScanFindsFirst(w.net, s.tracks, -1, Never());
  }

  lemma UndoSameCards<T>(src: Source, seed: nat, keep: int, d: Deck<T>)
    requires keep > 0 ==> keep < |d.list|
    ensures SameCards(d, Undo(src, seed, keep, d))
  {
    if keep > 0 {
      SwapSameCards(d, 0, keep);
    }
    ShuffleSameCards(src, src.seed(seed), Bring(d, keep));
  }

  lemma DoSameCards<T>(src: Source, seed: nat, d: Deck<T>)
    requires -1 <= d.pos < |d.list|
    ensures SameCards(d, Do(src, seed, d).0)
    ensures d.pos >= 0 ==> Do(src, seed, d).0.pos == 0
  {
    var m := Shuffle(src, src.seed(seed), d);
    ShuffleSameCards(src, src.seed(seed), d);
    if m.pos > 0 {
      SwapSameCards(m, 0, m.pos);
    }
  }

  /**
   Undoing what `Do` did gives the original list, wherever the cursor is by then,
   and leaves the cursor on the element it was on.
   */
  lemma UndoDo<T>(src: Source, seed: nat, d: Deck<T>, cursor: int)
    requires -1 <= d.pos < |d.list|
    ensures var (r, keep) := Do(src, seed, d);
            Undo(src, seed, keep, Deck(r.list, cursor)).list == d.list
  {
    var m := Shuffle(src, src.seed(seed), d);
    var (r, keep) := Do(src, seed, d);
    var back := Bring(Deck(r.list, cursor), keep);
    if keep > 0 {
      SwapTwice(m, 0, keep, cursor);
    }
    assert back == Deck(m.list, back.pos);
    UnshuffleShuffle(src, src.seed(seed), d, back.pos);
  }

  lemma SameCardsLocated(d: Deck<Item>, r: Deck<Item>, pages: seq<ContextPage>)
    requires SameCards(d, r) && Located(d.list, pages)
    ensures Located(r.list, pages)
  {
    forall i | 0 <= i < |r.list|
      ensures LocatedAt(r.list[i], pages)
    {
      assert r.list[i] in multiset(r.list);
      assert r.list[i] in d.list;
    }
  }
}
