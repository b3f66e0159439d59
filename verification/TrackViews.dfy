/**
 The views of the playback list are its future and its past: NextTracks and PeekNext
 foretell GoNext, PrevTracks foretells GoPrev (tracks/tracks.go).
 */
module TrackViews {
  import opened Common
  import opened Resolver
  import opened Paging
  import opened Shuffling
  import opened TrackLists

  /** `n` calls of GoNext and whether all of them found a track. */
  function GoNextN(w: World, s: TrackList, n: nat): (r: (TrackList, bool))
    requires Safe(s) && HasCursor(s)
    ensures Safe(r.0) && HasCursor(r.0)
    decreases n
  {
    if n == 0 then (s, true)
    else
      GoNextKeepsCursor(w, s);
      var (t, ok) := GoNext(w, s);
      var (u, rest) := GoNextN(w, t, n - 1);
      (u, ok && rest)
  }

  lemma GoNextKeepsCursor(w: World, s: TrackList)
    requires Safe(s) && HasCursor(s)
    ensures Safe(GoNext(w, s).0) && HasCursor(GoNext(w, s).0)
  {
    if Waiting(s) == [] {
      IterNextExtends(w.net, s.tracks, s.tracks.pos);
    }
  }

  /** The first upcoming track is where GoNext goes, and the rest is upcoming from there. */
  lemma UpcomingUnfolds(w: World, s: TrackList, limit: nat)
    requires Safe(s) && HasCursor(s) && limit > 0
    ensures Safe(GoNext(w, s).0) && HasCursor(GoNext(w, s).0)
    ensures var (t, ok) := GoNext(w, s);
            Upcoming(w, s, limit).1 == if ok then [Current(t)] + Upcoming(w, t, limit - 1).1 else []
  {
    GoNextKeepsCursor(w, s);
    if Waiting(s) != [] {
      QueueUnfolds(w, s, limit);
    } else {
      ContextUnfolds(w, s, limit);
    }
  }

  lemma QueueUnfolds(w: World, s: TrackList, limit: nat)
    requires Safe(s) && HasCursor(s) && limit > 0 && Waiting(s) != []
    ensures var t := GoNext(w, s).0;
            Upcoming(w, s, limit).1 == [Current(t)] + Upcoming(w, t, limit - 1).1
  {
    var t := GoNext(w, s).0;
    var q := Waiting(s);
    assert Waiting(t) == q[1..];
    var n, m := Min(limit, |q|), Min(limit - 1, |q| - 1);
    assert q[..n] == [q[0]] + q[1..][..m];
  }

  lemma ContextUnfolds(w: World, s: TrackList, limit: nat)
    requires Safe(s) && HasCursor(s) && limit > 0 && Waiting(s) == []
    requires Safe(GoNext(w, s).0) && HasCursor(GoNext(w, s).0)
    ensures var (t, ok) := GoNext(w, s);
            Upcoming(w, s, limit).1 == if ok then [Current(t)] + Upcoming(w, t, limit - 1).1 else []
  {
    var p := s.tracks.pos;
    var a := IterNext(w.net, s.tracks, p);
    CollectTurn(w.net, s.tracks, p, limit);
    ContextOnly(w, s, limit);
    if a.ok {
      var t := GoNext(w, s).0;
      ContextOnly(w, t, limit - 1);
      CollectIgnoresCursor(w.net, a.st, p + 1, limit - 1, p + 1);
    }
  }

  /** With nothing waiting, what comes is the context after the cursor. */
  lemma ContextOnly(w: World, s: TrackList, limit: nat)
    requires Safe(s) && HasCursor(s) && Waiting(s) == []
    ensures Upcoming(w, s, limit).1 == Collect(w.net, s.tracks, s.tracks.pos, limit).1
  {
  }

  /** The tracks that up to `limit` calls of GoNext lead to. */
  function Foreseen(w: World, s: TrackList, limit: nat): (ts: seq<ContextTrack>)
    requires Safe(s) && HasCursor(s)
    ensures |ts| <= limit
    decreases limit
  {
    if limit == 0 then []
    else
      GoNextKeepsCursor(w, s);
      var (t, ok) := GoNext(w, s);
      if ok then [Current(t)] + Foreseen(w, t, limit - 1) else []
  }

  lemma UpcomingNone(w: World, s: TrackList)
    requires Safe(s) && HasCursor(s)
    ensures Upcoming(w, s, 0).1 == []
  {
  }

  /** The view without a change of state is the run of GoNext. */
  lemma {:induction false} UpcomingForeseen(w: World, s: TrackList, limit: nat)
    requires Safe(s) && HasCursor(s)
    ensures Upcoming(w, s, limit).1 == Foreseen(w, s, limit)
    decreases limit
  {
    hide GoNext, Located, Collect, Upcoming;
    if limit == 0 {
      UpcomingNone(w, s);
    } else {
      UpcomingUnfolds(w, s, limit);
      if GoNext(w, s).1 {
        UpcomingForeseen(w, GoNext(w, s).0, limit - 1);
      }
    }
  }

  /** Track `t` is current after `n` successful calls of GoNext. */
  ghost predicate NextReaches(w: World, s: TrackList, n: nat, t: ContextTrack)
    requires Safe(s) && HasCursor(s)
  {
    GoNextN(w, s, n).1 && Current(GoNextN(w, s, n).0) == t
  }

  lemma {:induction false} ForeseenReached(w: World, s: TrackList, limit: nat, i: nat)
    requires Safe(s) && HasCursor(s) && i < |Foreseen(w, s, limit)|
    ensures NextReaches(w, s, i + 1, Foreseen(w, s, limit)[i])
    decreases limit
  {
    hide GoNext, Located;
    GoNextKeepsCursor(w, s);
    if i == 0 {
      GoNextOnce(w, s);
    } else {
      ForeseenReached(w, GoNext(w, s).0, limit - 1, i - 1);
    }
  }

  /** Fewer than asked for means that the next call fails. */
  lemma {:induction false} ForeseenEnds(w: World, s: TrackList, limit: nat)
    requires Safe(s) && HasCursor(s) && |Foreseen(w, s, limit)| < limit
    ensures !GoNextN(w, s, |Foreseen(w, s, limit)| + 1).1
    decreases limit
  {
    hide GoNext, Located;
    GoNextKeepsCursor(w, s);
    if GoNext(w, s).1 {
      ForeseenEnds(w, GoNext(w, s).0, limit - 1);
    } else {
      GoNextOnce(w, s);
    }
  }

  lemma GoNextOnce(w: World, s: TrackList)
    requires Safe(s) && HasCursor(s)
    ensures GoNextN(w, s, 1) == GoNext(w, s)
  {
    GoNextKeepsCursor(w, s);
    assert GoNextN(w, GoNext(w, s).0, 0) == (GoNext(w, s).0, true);
  }

  // ----- from the state a view leaves behind

  lemma UpcomingSafe(w: World, s: TrackList, limit: nat)
    requires Safe(s) && HasCursor(s)
    ensures Safe(Upcoming(w, s, limit).0) && HasCursor(Upcoming(w, s, limit).0)
  {
    CollectLonger(w.net, s.tracks, s.tracks.pos, limit - Min(limit, |Waiting(s)|));
  }

  /** Looking again from the state a view left shows at least the same. */
  lemma UpcomingAgain(w: World, s: TrackList, limit: nat)
    requires Safe(s) && HasCursor(s)
    ensures Safe(Upcoming(w, s, limit).0) && HasCursor(Upcoming(w, s, limit).0)
    ensures Upcoming(w, s, limit).1 <= Upcoming(w, Upcoming(w, s, limit).0, limit).1
  {
    hide Collect, Located;
    UpcomingSafe(w, s, limit);
    CollectAgain(w.net, s.tracks, limit - Min(limit, |Waiting(s)|));
  }

  lemma CollectAgain(net: Network, st: Paged, limit: nat)
    requires Valid(st) && 0 <= st.pos < |st.list|
    ensures var (st', ts) := Collect(net, st, st.pos, limit);
            Longer(st, st') && ts <= Collect(net, st', st.pos, limit).1
  {
    hide Collect, Located;
    var (st', ts) := Collect(net, st, st.pos, limit);
    CollectLonger(net, st, st.pos, limit);
    CollectLength(net, st, st.pos, limit);
    var again := Collect(net, st', st.pos, limit).1;
    if ts != [] {
      CollectInList(net, st', st.pos, limit, |ts| - 1);
      forall i | 0 <= i < |ts|
        ensures ts[i] == again[i]
      {
        CollectItem(net, st, st.pos, limit, i);
        CollectInList(net, st', st.pos, limit, i);
      }
    }
  }

  /** After a view that came out short, one call more succeeds exactly when the next page now arrives. */
  lemma ShortView(w: World, s: TrackList, limit: nat)
    requires Safe(s) && HasCursor(s) && |Upcoming(w, s, limit).1| < limit
    ensures var (t, ts) := Upcoming(w, s, limit);
            && Safe(t) && HasCursor(t)
            && (GoNextN(w, t, |ts| + 1).1 <==> PageArrives(w.net, t.tracks))
  {
    hide Upcoming, GoNext, Foreseen, Located, GoNextN, PageArrives;
    var (t, ts) := Upcoming(w, s, limit);
    UpcomingSafe(w, s, limit);
    var n := |ts|;
    OneMore(w, s, limit);
    UpcomingForeseen(w, t, n + 1);
    if |Foreseen(w, t, n + 1)| == n + 1 {
      ForeseenReached(w, t, n + 1, n);
    } else {
      NotFewer(w, s, limit);
      ForeseenEnds(w, t, n + 1);
    }
  }

  lemma OneMore(w: World, s: TrackList, limit: nat)
    requires Safe(s) && HasCursor(s) && |Upcoming(w, s, limit).1| < limit
    ensures var (t, ts) := Upcoming(w, s, limit);
            && Safe(t) && HasCursor(t)
            && (|Upcoming(w, t, |ts| + 1).1| == |ts| + 1 <==> PageArrives(w.net, t.tracks))
  {
    hide Collect, Located;
    UpcomingSafe(w, s, limit);
    var (t, ts) := Upcoming(w, s, limit);
    var q := |Waiting(s)|;
    CollectLength(w.net, s.tracks, s.tracks.pos, limit - Min(limit, q));
    CollectLonger(w.net, s.tracks, s.tracks.pos, limit - Min(limit, q));
    CollectPastEnd(w.net, t.tracks, t.tracks.pos, |ts| - q);
  }

  /** Asked for one more than before, the view from the state left shows no fewer. */
  lemma NotFewer(w: World, s: TrackList, limit: nat)
    requires Safe(s) && HasCursor(s) && |Upcoming(w, s, limit).1| < limit
    ensures var (t, ts) := Upcoming(w, s, limit);
            Safe(t) && HasCursor(t) && |Upcoming(w, t, |ts| + 1).1| >= |ts|
  {
    hide Collect, Located;
    UpcomingSafe(w, s, limit);
    var (t, ts) := Upcoming(w, s, limit);
    var q := |Waiting(s)|;
    CollectLength(w.net, s.tracks, s.tracks.pos, limit - Min(limit, q));
    CollectLonger(w.net, s.tracks, s.tracks.pos, limit - Min(limit, q));
    if |ts| > q {
      CollectInList(w.net, t.tracks, t.tracks.pos, |ts| - q + 1, |ts| - q - 1);
    }
  }

  /**
   NextTracks is the future of GoNext from the state it leaves: entry i is the current
   track after i + 1 calls, across the queue, the context and the pages fetched.  After a
   view shorter than its limit one call more succeeds exactly when the next page arrives
   at the clock the view left; at the end of the context it never does.
   */
  lemma NextTracksIsFuture(w: World, s: TrackList)
    requires Safe(s) && HasCursor(s)
    ensures Safe(NextTracks(w, s).0) && HasCursor(NextTracks(w, s).0)
    ensures var (t, ts) := NextTracks(w, s);
            && |ts| <= MAX_TRACKS_IN_CONTEXT
            && (forall i :: 0 <= i < |ts| ==> NextReaches(w, t, i + 1, ts[i]))
            && (|ts| < MAX_TRACKS_IN_CONTEXT ==>
                  && (GoNextN(w, t, |ts| + 1).1 <==> PageArrives(w.net, t.tracks))
                  && (AtEnd(t.tracks) ==> !GoNextN(w, t, |ts| + 1).1))
  {
    var (t, ts) := NextTracks(w, s);
    UpcomingAgain(w, s, MAX_TRACKS_IN_CONTEXT);
    UpcomingForeseen(w, s, MAX_TRACKS_IN_CONTEXT);
    UpcomingForeseen(w, t, MAX_TRACKS_IN_CONTEXT);
    forall i | 0 <= i < |NextTracks(w, s).1|
      ensures NextReaches(w, t, i + 1, NextTracks(w, s).1[i])
    {
      ForeseenReached(w, t, MAX_TRACKS_IN_CONTEXT, i);
    }
    if |ts| < MAX_TRACKS_IN_CONTEXT {
      ShortView(w, s, MAX_TRACKS_IN_CONTEXT);
      EndExactly(w.net, t.tracks);
      FetchedExactly(w.net, t.tracks);
    }
  }

  /** PeekNext shows where GoNext then goes; when it shows nothing, GoNext succeeds exactly if the next page now arrives. */
  lemma PeekIsNext(w: World, s: TrackList)
    requires Safe(s) && HasCursor(s)
    ensures Safe(PeekNext(w, s).0) && HasCursor(PeekNext(w, s).0)
    ensures var (t, x) := PeekNext(w, s);
            && (x.Some? ==> NextReaches(w, t, 1, x.value))
            && (x.None? ==> (GoNext(w, t).1 <==> PageArrives(w.net, t.tracks)))
            && (x.None? && AtEnd(t.tracks) ==> !GoNext(w, t).1)
  {
    if Waiting(s) != [] {
      GoNextOnce(w, s);
    } else {
      PeekInContext(w, s);
      GoNextOnce(w, PeekNext(w, s).0);
    }
  }

  lemma PeekInContext(w: World, s: TrackList)
    requires Safe(s) && HasCursor(s) && Waiting(s) == []
    ensures Safe(PeekNext(w, s).0) && HasCursor(PeekNext(w, s).0) && Waiting(PeekNext(w, s).0) == []
    ensures var (t, x) := PeekNext(w, s);
            && (x.Some? ==> GoNext(w, t).1 && Current(GoNext(w, t).0) == x.value)
            && (x.None? ==> (GoNext(w, t).1 <==> PageArrives(w.net, t.tracks)))
            && (AtEnd(t.tracks) ==> !PageArrives(w.net, t.tracks))
  {
    var t := PeekNext(w, s).0;
    CollectTurn(w.net, s.tracks, s.tracks.pos, 1);
    EndExactly(w.net, t.tracks);
    FetchedExactly(w.net, t.tracks);
    GoNextKeepsCursor(w, t);
  }

  /**
   Nothing shown does not mean nothing comes: one entry, a next link whose first load
   fails and whose second answers.  Both views show nothing, and GoNext then succeeds.
   */
  lemma ShortViewCanGrow()
    ensures exists w, s ::
              && Safe(s) && HasCursor(s)
              && NextTracks(w, s).1 == [] && PeekNext(w, s).1 == None
              && Safe(NextTracks(w, s).0) && HasCursor(NextTracks(w, s).0) && GoNext(w, NextTracks(w, s).0).1
              && Safe(PeekNext(w, s).0) && HasCursor(PeekNext(w, s).0) && GoNext(w, PeekNext(w, s).0).1
  {
    var a := ContextTrack("a", "", [], map[]);
    var page := ContextPage("", "", [a]);
    var net := Network((t, url) => if t == 0 then LoadFailed(false) else Loaded(page), url => 0);
    var w := World(net, RandSource(s => s, (s, bound) => (s, 0)), "track");
    var s := New([ContextPage("", "hm://x", [a])]).(tracks :=
               Paged([Item(a, 0, 0)], 0, Snapshot([ContextPage("", "hm://x", [a])], 0)));
    var st := s.tracks.(res := s.tracks.res.(clock := 1));
    assert LoadPage(net, 0, "hm://x") == LoadFailed(false);
    assert LoadPage(net, 1, "hm://x") == Loaded(page);
    assert FetchNextPage(net, s.tracks) == (st, FetchFailed);
    CollectTurn(net, s.tracks, 0, MAX_TRACKS_IN_CONTEXT);
    var q := Waiting(s)[..Min(MAX_TRACKS_IN_CONTEXT, |Waiting(s)|)];
    assert q == [] && s.tracks.pos == 0;
    assert Collect(net, s.tracks, 0, MAX_TRACKS_IN_CONTEXT) == (st, []);
    assert Collect(w.net, s.tracks, s.tracks.pos, MAX_TRACKS_IN_CONTEXT - |q|) == (st, []);
    var none: seq<ContextTrack> := [];
    assert q + none == none;
    assert Upcoming(w, s, MAX_TRACKS_IN_CONTEXT) == (s.(tracks := st), none);
    assert NextTracks(w, s) == (s.(tracks := st), []);
    assert PeekNext(w, s) == (s.(tracks := st), None);
    FetchedExactly(net, st);
    assert GoNext(w, s.(tracks := st)).1;
  }

  /** `n` calls of GoPrev and whether all of them found a track. */
  function GoPrevN(s: TrackList, n: nat): (r: (TrackList, bool))
    requires Safe(s) && HasCursor(s)
    ensures Safe(r.0) && HasCursor(r.0)
    decreases n
  {
    if n == 0 then (s, true)
    else
      var (t, ok) := GoPrev(s);
      var (u, rest) := GoPrevN(t, n - 1);
      (u, ok && rest)
  }

  /** Track `t` is current after `n` successful calls of GoPrev. */
  ghost predicate PrevReaches(s: TrackList, n: nat, t: ContextTrack)
    requires Safe(s) && HasCursor(s)
  {
    GoPrevN(s, n).1 && Current(GoPrevN(s, n).0) == t
  }

  lemma {:induction false} GoPrevNMoves(s: TrackList, n: nat)
    requires Safe(s) && HasCursor(s)
    ensures GoPrevN(s, n).1 <==> n <= s.tracks.pos
    ensures 0 < n <= s.tracks.pos ==>
              GoPrevN(s, n).0 == s.(playingQueue := false, tracks := s.tracks.(pos := s.tracks.pos - n))
    decreases n
  {
    if n > 0 {
      var (t, ok) := GoPrev(s);
      GoPrevNMoves(t, n - 1);
    }
  }

  /** PrevTracks read backwards is the run of GoPrev, whether or not the queue is playing. */
  lemma PrevTracksIsPast(s: TrackList)
    requires Safe(s) && HasCursor(s)
    ensures var ts := PrevTracks(s);
            && |ts| <= MAX_TRACKS_IN_CONTEXT
            && (forall j :: 0 <= j < |ts| ==> PrevReaches(s, |ts| - j, ts[j]))
            && (|ts| < MAX_TRACKS_IN_CONTEXT ==> !GoPrevN(s, |ts| + 1).1)
  {
    var n := |PrevTracks(s)|;
    forall j | 0 <= j < n
      ensures PrevReaches(s, n - j, PrevTracks(s)[j])
    {
      GoPrevNMoves(s, n - j);
    }
    GoPrevNMoves(s, n + 1);
  }
}
