/**
 What holds over whole runs of the playback list (tracks/tracks.go): any sequence of
 its operations, with pages arriving, failing or changing as the network pleases.
 */
module TrackRuns {
  import opened Common
  import opened Resolver
  import opened Paging
  import opened Shuffling
  import opened TrackLists

  datatype Op =
    | OpGoNext | OpGoPrev | OpGoStart | OpPeekNext | OpNextTracks | OpPrevTracks | OpAllTracks
    | OpSeek(f: ContextTrack -> bool) | OpTrySeek(f: ContextTrack -> bool)
    | OpAddToQueue(track: ContextTrack) | OpSetQueue(next: seq<ContextTrack>) | OpSetPlayingQueue(val: bool)
    | OpToggleShuffle(on: bool, u: nat)

  /** The operation does not panic in this state. */
  predicate Enabled(s: TrackList, op: Op)
    requires Safe(s)
  {
    match op
    case OpGoNext => Waiting(s) == [] ==> HasCursor(s)
    case OpPeekNext => Waiting(s) == [] ==> HasCursor(s)
    case OpGoPrev => HasCursor(s)
    case OpNextTracks => HasCursor(s)
    case OpPrevTracks => HasCursor(s)
    case OpToggleShuffle(on, _) => s.shuffled && !on ==> CanUndo(s) || s.playingQueue || HasCursor(s)
    case _ => true
  }

  /** One operation: the new state and whether the operation reported success. */
  function Step(w: World, s: TrackList, op: Op): (TrackList, bool)
    requires Safe(s) && Finite(w.net) && Enabled(s, op)
  {
    match op
    case OpGoNext => GoNext(w, s)
    case OpGoPrev => GoPrev(s)
    case OpGoStart => GoStart(w, s)
    case OpPeekNext => (PeekNext(w, s).0, true)
    case OpNextTracks => (NextTracks(w, s).0, true)
    case OpPrevTracks => (s, true)
    case OpAllTracks => (FetchAll(w, s), true)
    case OpSeek(f) => Seek(w, s, f)
    case OpTrySeek(f) => TrySeek(w, s, f)
    case OpAddToQueue(t) => (AddToQueue(s, t), true)
    case OpSetQueue(next) => (SetQueue(s, next), true)
    case OpSetPlayingQueue(val) => (SetPlayingQueue(s, val), true)
    case OpToggleShuffle(on, u) => ToggleShuffle(w, s, on, u)
  }

  // ----- invariants of one step

  /** Nothing but toggling the shuffle reorders the list or touches the shuffle's bookkeeping. */
  ghost predicate Keeps(s: TrackList, t: TrackList) {
    && t.shuffled == s.shuffled && t.seed == s.seed && t.shuffleLen == s.shuffleLen && t.keep == s.keep
    && s.tracks.list <= t.tracks.list
    && Grows(s.tracks.res, t.tracks.res)
    && (PageOrdered(s.tracks.list, s.tracks.res.pages) <==> PageOrdered(t.tracks.list, t.tracks.res.pages))
    && (NoGaps(s) ==> NoGaps(t))
  }

  /** Every page up to the page of any entry has tracks. */
  ghost predicate NoGaps(s: TrackList) { Filled(s.tracks.list, s.tracks.res.pages) }

  predicate Switches(s: TrackList, op: Op) { op.OpToggleShuffle? && op.on != s.shuffled }

  lemma StepKeeps(w: World, s: TrackList, op: Op)
    requires Safe(s) && Finite(w.net) && Enabled(s, op) && !Switches(s, op)
    ensures Safe(Step(w, s, op).0) && Keeps(s, Step(w, s, op).0)
  {
    hide Collect, Scan, IterNext;
    match op
    case OpGoNext => GoNextKeeps(w, s);
    case OpPeekNext => PeekNextKeeps(w, s);
    case OpNextTracks => NextTracksKeeps(w, s);
    case OpGoStart => GoStartKeeps(w, s);
    case OpAllTracks => FetchAllSafe(w, s);
    case OpSeek(f) => SeekKeeps(w, s, f);
    case OpTrySeek(f) => TrySeekKeeps(w, s, f);
    case _ =>
  }

  lemma GoNextKeeps(w: World, s: TrackList)
    requires Safe(s) && (Waiting(s) == [] ==> HasCursor(s))
    ensures Safe(GoNext(w, s).0) && Keeps(s, GoNext(w, s).0)
  {
    if Waiting(s) == [] {
      IterNextExtends(w.net, s.tracks, s.tracks.pos);
    }
  }

  lemma PeekNextKeeps(w: World, s: TrackList)
    requires Safe(s) && (Waiting(s) == [] ==> HasCursor(s))
    ensures Safe(PeekNext(w, s).0) && Keeps(s, PeekNext(w, s).0)
  {
    if Waiting(s) == [] {
      IterNextExtends(w.net, s.tracks, s.tracks.pos);
    }
  }

  lemma NextTracksKeeps(w: World, s: TrackList)
    requires Safe(s) && HasCursor(s)
    ensures Safe(NextTracks(w, s).0) && Keeps(s, NextTracks(w, s).0)
  {
    hide Collect;
    CollectExtends(w.net, s.tracks, s.tracks.pos,
                   MAX_TRACKS_IN_CONTEXT - Min(MAX_TRACKS_IN_CONTEXT, |Waiting(s)|));
  }

  lemma TrySeekKeeps(w: World, s: TrackList, f: ContextTrack -> bool)
    requires Safe(s) && Finite(w.net)
    ensures Safe(TrySeek(w, s, f).0) && Keeps(s, TrySeek(w, s, f).0)
  {
    var t := Seek(w, s, f).0;
    SeekKeeps(w, s, f);
    GoStartKeeps(w, t);
    KeepsTransitive(s, t, GoStart(w, t).0);
  }

  lemma KeepsTransitive(s: TrackList, t: TrackList, u: TrackList)
    requires Keeps(s, t) && Keeps(t, u)
    ensures Keeps(s, u)
  {
    GrowsTransitive(s.tracks.res, t.tracks.res, u.tracks.res);
  }

  lemma GoStartKeeps(w: World, s: TrackList)
    requires Safe(s)
    ensures Safe(GoStart(w, s).0) && Keeps(s, GoStart(w, s).0)
  {
    FetchExtends(w.net, s.tracks);
  }

  lemma SeekKeeps(w: World, s: TrackList, f: ContextTrack -> bool)
    requires Safe(s) && Finite(w.net)
    ensures Safe(Seek(w, s, f).0) && Keeps(s, Seek(w, s, f).0)
  {
    ScanFindsFirst(w.net, s.tracks, -1, f);
  }

  lemma ShuffleOffSafe(w: World, s: TrackList)
    requires Safe(s) && Finite(w.net) && (CanUndo(s) || s.playingQueue || HasCursor(s))
    ensures Safe(ShuffleOff(w, s).0)
  {
    if CanUndo(s) {
      var d := Deck(s.tracks.list, s.tracks.pos);
      UndoSameCards(w.src, s.seed, s.keep, d);
      SameCardsLocated(d, Undo(w.src, s.seed, s.keep, d), s.tracks.res.pages);
    } else {
      var cleared := s.(tracks := s.tracks.(list := [], pos := -1));
      SeekSafe(w, cleared, Matcher(w.typ, Current(s)));
    }
  }

  lemma StepSafe(w: World, s: TrackList, op: Op)
    requires Safe(s) && Finite(w.net) && Enabled(s, op)
    ensures Safe(Step(w, s, op).0)
  {
    if !Switches(s, op) {
      StepKeeps(w, s, op);
    } else if !op.on {
      ShuffleOffSafe(w, s);
    }
  }

  /** A switch touches no queue; after a successful one the mode is as asked for, and asking again changes nothing. */
  lemma ToggleSettles(w: World, s: TrackList, on: bool, u: nat, v: nat)
    requires Safe(s) && Finite(w.net)
    requires s.shuffled && !on ==> CanUndo(s) || s.playingQueue || HasCursor(s)
    ensures var (t, ok) := ToggleShuffle(w, s, on, u);
            && Safe(t) && t.queue == s.queue && t.playingQueue == s.playingQueue
            && t.shuffled == (if ok then on else s.shuffled)
            && (on || on == s.shuffled ==> ok)
            && (ok ==> ToggleShuffle(w, t, on, v) == (t, true))
            && (on == s.shuffled ==> t == s)
  {
    StepSafe(w, s, OpToggleShuffle(on, u));
  }

  /** The list that replaying the shuffle backwards over the first `shuffleLen` entries would give. */
  ghost function Restored(w: World, s: TrackList): seq<Item>
    requires s.keep > 0 ==> s.keep < s.shuffleLen
    requires s.shuffleLen <= |s.tracks.list|
  {
    Undo(w.src, s.seed, s.keep, Deck(s.tracks.list[..s.shuffleLen], -1)).list
  }

  /** Unshuffled means page order; shuffled by a seed means that undoing would give page order. */
  ghost predicate Consistent(w: World, s: TrackList)
    requires Safe(s)
  {
    && (!s.shuffled ==> PageOrdered(s.tracks.list, s.tracks.res.pages))
    && (s.shuffled && s.seed != 0 ==>
          && s.shuffleLen <= |s.tracks.list|
          && PageOrdered(Restored(w, s), s.tracks.res.pages))
  }

  lemma KeepsConsistent(w: World, s: TrackList, t: TrackList)
    requires Safe(s) && Safe(t) && Keeps(s, t) && Consistent(w, s)
    ensures Consistent(w, t)
  {
    if s.shuffled && s.seed != 0 {
      assert t.tracks.list[..t.shuffleLen] == s.tracks.list[..s.shuffleLen];
      OrderedGrows(Restored(w, s), s.tracks.res, t.tracks.res);
    }
  }

  lemma ShuffleOnConsistent(w: World, s: TrackList, u: nat)
    requires Safe(s) && Finite(w.net) && !s.shuffled && Consistent(w, s)
    ensures Consistent(w, ShuffleOn(w, s, u))
  {
    FetchAllSafe(w, s);
    var t := FetchAll(w, s);
    var s' := ShuffleOn(w, s, u);
    UndoDo(w.src, s'.seed, Deck(t.tracks.list, t.tracks.pos), -1);
    assert s'.tracks.list[..s'.shuffleLen] == s'.tracks.list;
  }

  /** The order an undo produces does not depend on the cursor. */
  lemma UndoIgnoresCursor<T>(src: Source, seed: nat, keep: int, list: seq<T>, p: int, q: int)
    requires keep > 0 ==> keep < |list|
    ensures Undo(src, seed, keep, Deck(list, p)).list == Undo(src, seed, keep, Deck(list, q)).list
  {
    var dp, dq := Bring(Deck(list, p), keep), Bring(Deck(list, q), keep);
    assert dp.list == dq.list;
    UnmixIgnoresCursor(dp.list, dp.pos, dq.pos, Draws(src, src.seed(seed), |list|), |list|);
  }

  lemma ShuffleOffConsistent(w: World, s: TrackList)
    requires Safe(s) && Finite(w.net) && (CanUndo(s) || s.playingQueue || HasCursor(s))
    requires s.shuffled && Consistent(w, s) && ShuffleOff(w, s).1
    ensures Safe(ShuffleOff(w, s).0) && Consistent(w, ShuffleOff(w, s).0)
  {
    ShuffleOffSafe(w, s);
    if CanUndo(s) {
      assert s.tracks.list[..s.shuffleLen] == s.tracks.list;
      UndoIgnoresCursor(w.src, s.seed, s.keep, s.tracks.list, s.tracks.pos, -1);
    } else {
      RefetchFindsTrack(w, s);
    }
  }

  /**
   The other way out of a shuffle: when pages have arrived since, the list is read
   again from the first page and the cursor is put on the first entry, in page
   order, that is the current track.  A re-read without a match changes neither the
   mode nor the cursor it has just cleared.
   */
  lemma RefetchFindsTrack(w: World, s: TrackList)
    requires Safe(s) && Finite(w.net) && !CanUndo(s) && (s.playingQueue || HasCursor(s))
    ensures var (t, ok) := ShuffleOff(w, s);
            && PageOrdered(t.tracks.list, t.tracks.res.pages)
            && Grows(s.tracks.res, t.tracks.res)
            && FirstMatch(t.tracks.list, -1, Matcher(w.typ, Current(s)), t.tracks.pos)
            && (ok <==> t.tracks.pos >= 0)
            && (ok ==> !t.shuffled) && (!ok ==> t.shuffled == s.shuffled)
  {
    var cleared := s.tracks.(list := [], pos := -1);
    ScanFindsFirst(w.net, cleared, -1, Matcher(w.typ, Current(s)));
    assert Flatten(cleared.res.pages, 0) == [];
    assert PageOrdered(cleared.list, cleared.res.pages);
  }

  // ----- when a re-read succeeds

  /** The track has something to be recognised by. */
  predicate Identified(t: ContextTrack) { t.uid != "" || t.uri != "" || |t.gid| > 0 }

  /** A track with an identifier is the same track as itself; one without is not the same as any. */
  lemma SameTrackReflexive(typ: string, t: ContextTrack, other: ContextTrack)
    ensures Identified(t) ==> SameTrack(typ, t, t)
    ensures SameTrack(typ, t, other) ==> Identified(t)
  {
  }

  /** The list itself holds an entry that is the current track. */
  predicate Held(w: World, s: TrackList)
    requires Safe(s) && (s.playingQueue || HasCursor(s))
  {
    exists i :: 0 <= i < |s.tracks.list| && SameTrack(w.typ, Current(s), s.tracks.list[i].item)
  }

  /** For a track of the context that is only a matter of identifiers. */
  lemma HeldInContext(w: World, s: TrackList)
    requires Safe(s) && !s.playingQueue && HasCursor(s)
    ensures Held(w, s) <==> Identified(Current(s))
  {
    var t := Current(s);
    SameTrackReflexive(w.typ, t, t);
    if Held(w, s) {
      var i :| 0 <= i < |s.tracks.list| && SameTrack(w.typ, t, s.tracks.list[i].item);
      SameTrackReflexive(w.typ, t, s.tracks.list[i].item);
    }
  }

  /**
   Re-reading cannot fail over the network: a current track that the list holds is found
   again, and without a single load, since every page up to it is known.
   */
  lemma RefetchSucceeds(w: World, s: TrackList)
    requires Safe(s) && Finite(w.net) && NoGaps(s) && !CanUndo(s) && (s.playingQueue || HasCursor(s))
    requires Held(w, s)
    ensures ShuffleOff(w, s).1 && ShuffleOff(w, s).0.tracks.res == s.tracks.res
  {
    var i :| 0 <= i < |s.tracks.list| && SameTrack(w.typ, Current(s), s.tracks.list[i].item);
    var cleared := s.tracks.(list := [], pos := -1);
    assert Flatten(cleared.res.pages, 0) == [];
    assert LocatedAt(s.tracks.list[i], s.tracks.res.pages) && FilledTo(s.tracks.list[i], s.tracks.res.pages);
    ScanFindsKnown(w.net, cleared, -1, Matcher(w.typ, Current(s)), s.tracks.list[i]);
  }

  /** The context as reading it from its first page gives it, to its end or to a load that fails. */
  function Whole(w: World, s: TrackList): seq<Item>
    requires Safe(s) && Finite(w.net)
  {
    FetchAll(w, s.(tracks := s.tracks.(list := [], pos := -1))).tracks.list
  }

  /** Somewhere in the whole context is the current track. */
  predicate InContext(w: World, s: TrackList)
    requires Safe(s) && Finite(w.net) && (s.playingQueue || HasCursor(s))
  {
    exists k :: 0 <= k < |Whole(w, s)| && SameTrack(w.typ, Current(s), Whole(w, s)[k].item)
  }

  lemma RefetchReadsWhole(w: World, s: TrackList)
    requires Safe(s) && Finite(w.net) && !CanUndo(s) && (s.playingQueue || HasCursor(s))
    ensures ShuffleOff(w, s).1 <==> InContext(w, s)
  {
    hide Scan, Current, SameTrack;
    var f := Matcher(w.typ, Current(s));
    var cleared := s.tracks.(list := [], pos := -1);
    ScanFindsExactly(w.net, cleared, -1, f);
    assert ShuffleOff(w, s).1 <==> Scan(w.net, cleared, -1, f).found >= 0;
    assert Whole(w, s) == Scan(w.net, cleared, -1, Never()).st.list;
    assert InContext(w, s) <==> exists k :: 0 <= k < |Whole(w, s)| && f(Whole(w, s)[k].item);
  }

  /**
   What decides whether a re-read succeeds: for a track of the context whether it has an
   identifier, for a queued one whether the context holds it.
   */
  predicate Recoverable(w: World, s: TrackList)
    requires Safe(s) && Finite(w.net) && (s.playingQueue || HasCursor(s))
  {
    if s.playingQueue then InContext(w, s) else Identified(Current(s))
  }

  lemma RefetchExactly(w: World, s: TrackList)
    requires Safe(s) && Finite(w.net) && NoGaps(s) && !CanUndo(s) && (s.playingQueue || HasCursor(s))
    ensures ShuffleOff(w, s).1 <==> Recoverable(w, s)
    ensures Held(w, s) ==> Recoverable(w, s)
  {
    hide ShuffleOff, Whole, SameTrack, Identified, Filled;
    RefetchReadsWhole(w, s);
    if Held(w, s) {
      RefetchSucceeds(w, s);
    }
    if !s.playingQueue {
      HeldInContext(w, s);
      if InContext(w, s) {
        var k :| 0 <= k < |Whole(w, s)| && SameTrack(w.typ, Current(s), Whole(w, s)[k].item);
        SameTrackReflexive(w.typ, Current(s), Whole(w, s)[k].item);
      }
    }
  }

  // ----- no operation leaves a gap

  lemma SameCardsFilled(d: Deck<Item>, r: Deck<Item>, pages: seq<ContextPage>)
    requires SameCards(d, r) && Filled(d.list, pages)
    ensures Filled(r.list, pages)
  {
    forall i | 0 <= i < |r.list|
      ensures FilledTo(r.list[i], pages)
    {
      assert r.list[i] in multiset(r.list);
      assert r.list[i] in d.list;
    }
  }

  lemma ShuffleOnFilled(w: World, s: TrackList, u: nat)
    requires Safe(s) && Finite(w.net) && NoGaps(s)
    ensures NoGaps(ShuffleOn(w, s, u))
  {
    FetchAllSafe(w, s);
    var all, t := FetchAll(w, s), ShuffleOn(w, s, u);
    var d := Deck(all.tracks.list, all.tracks.pos);
    DoSameCards(w.src, t.seed, d);
    SameCardsFilled(d, Do(w.src, t.seed, d).0, t.tracks.res.pages);
  }

  lemma ShuffleOffFilled(w: World, s: TrackList)
    requires Safe(s) && Finite(w.net) && (CanUndo(s) || s.playingQueue || HasCursor(s)) && NoGaps(s)
    ensures NoGaps(ShuffleOff(w, s).0)
  {
    if CanUndo(s) {
      var d := Deck(s.tracks.list, s.tracks.pos);
      UndoSameCards(w.src, s.seed, s.keep, d);
      SameCardsFilled(d, Undo(w.src, s.seed, s.keep, d), s.tracks.res.pages);
    } else {
      var t := ShuffleOff(w, s).0;
      RefetchFindsTrack(w, s);
      OrderedFilled(t.tracks.list, t.tracks.res.pages);
    }
  }

  /** Every operation, failing or not, keeps every page before an entry's known and with tracks. */
  lemma StepFilled(w: World, s: TrackList, op: Op)
    requires Safe(s) && Finite(w.net) && Enabled(s, op) && NoGaps(s)
    ensures NoGaps(Step(w, s, op).0)
  {
    if !Switches(s, op) {
      StepKeeps(w, s, op);
    } else if op.on {
      ShuffleOnFilled(w, s, op.u);
    } else {
      ShuffleOffFilled(w, s);
    }
  }

  lemma StepConsistent(w: World, s: TrackList, op: Op)
    requires Safe(s) && Finite(w.net) && Enabled(s, op) && Consistent(w, s)
    requires Switches(s, op) ==> Step(w, s, op).1
    ensures Safe(Step(w, s, op).0) && Consistent(w, Step(w, s, op).0)
  {
    if !Switches(s, op) {
      StepKeeps(w, s, op);
      KeepsConsistent(w, s, Step(w, s, op).0);
    } else if op.on {
      ShuffleOnConsistent(w, s, op.u);
    } else {
      ShuffleOffConsistent(w, s);
    }
  }

  // ----- runs

  /** The state after a run, or None when some operation of it panics. */
  function Run(w: World, s: TrackList, ops: seq<Op>): (r: Option<TrackList>)
    requires Safe(s) && Finite(w.net)
    ensures r.Some? ==> Safe(r.value)
    decreases |ops|
  {
    if ops == [] then Some(s)
    else if !Enabled(s, ops[0]) then None
    else
      StepSafe(w, s, ops[0]);
      Run(w, Step(w, s, ops[0]).0, ops[1..])
  }

  /** The operation would switch the shuffle off by a re-read. */
  predicate Rereads(s: TrackList, op: Op) { Switches(s, op) && !op.on && !CanUndo(s) }

  /**
   Whenever the run leaves the shuffle by a re-read, the list holds the current track:
   the context plays and its track has an identifier (HeldInContext), or the queued
   track is in the list as well.
   */
  predicate Clean(w: World, s: TrackList, ops: seq<Op>)
    requires Safe(s) && Finite(w.net)
    decreases |ops|
  {
    ops != [] && Enabled(s, ops[0]) ==>
      && (Rereads(s, ops[0]) ==> Held(w, s))
      && (StepSafe(w, s, ops[0]); Clean(w, Step(w, s, ops[0]).0, ops[1..]))
  }

  lemma {:induction false} RunConsistent(w: World, s: TrackList, ops: seq<Op>)
    requires Safe(s) && Finite(w.net) && Run(w, s, ops).Some?
    requires Consistent(w, s) && NoGaps(s) && Clean(w, s, ops)
    ensures Consistent(w, Run(w, s, ops).value)
    decreases |ops|
  {
    if ops != [] {
      if Rereads(s, ops[0]) {
        RefetchSucceeds(w, s);
      }
      StepConsistent(w, s, ops[0]);
      StepFilled(w, s, ops[0]);
      RunConsistent(w, Step(w, s, ops[0]).0, ops[1..]);
    }
  }

  lemma {:induction false} RunFilled(w: World, s: TrackList, ops: seq<Op>)
    requires Safe(s) && Finite(w.net) && Run(w, s, ops).Some? && NoGaps(s)
    ensures NoGaps(Run(w, s, ops).value)
    decreases |ops|
  {
    if ops != [] {
      StepSafe(w, s, ops[0]);
      StepFilled(w, s, ops[0]);
      RunFilled(w, Step(w, s, ops[0]).0, ops[1..]);
    }
  }

  /**
   Every state a new list can reach.  Four invariants hold whatever fails; page order
   of the unshuffled list, through both ways of leaving a shuffle, holds as long as every
   re-read is asked for while the list holds the current track, whatever the network does.
   */
  lemma ReachableInvariant(w: World, pages: seq<ContextPage>, ops: seq<Op>)
    requires Finite(w.net) && pages != []
    requires Run(w, New(pages), ops).Some?
    ensures var s := Run(w, New(pages), ops).value;
            && -1 <= s.tracks.pos < |s.tracks.list|
            && (s.playingQueue ==> s.queue != [])
            && (forall i :: 0 <= i < |s.tracks.list| ==> LocatedAt(s.tracks.list[i], s.tracks.res.pages))
            && (forall i :: 0 <= i < |s.tracks.list| ==> FilledTo(s.tracks.list[i], s.tracks.res.pages))
            && (Clean(w, New(pages), ops) && !s.shuffled ==> PageOrdered(s.tracks.list, s.tracks.res.pages))
  {
    assert Flatten(pages, 0) == [];
    RunFilled(w, New(pages), ops);
    if Clean(w, New(pages), ops) {
      RunConsistent(w, New(pages), ops);
    }
  }

  // ----- shuffle on, anything, shuffle off

  /** No operation of the run asks for the shuffle to be switched off. */
  predicate StaysOn(ops: seq<Op>) {
    forall i :: 0 <= i < |ops| ==> ops[i].OpToggleShuffle? ==> ops[i].on
  }

  lemma {:induction false} RunKeeps(w: World, s: TrackList, ops: seq<Op>)
    requires Safe(s) && Finite(w.net) && s.shuffled && StaysOn(ops) && Run(w, s, ops).Some?
    ensures Keeps(s, Run(w, s, ops).value)
    decreases |ops|
  {
    if ops != [] {
      var t := Step(w, s, ops[0]).0;
      StepKeeps(w, s, ops[0]);
      RunKeeps(w, t, ops[1..]);
      KeepsTransitive(s, t, Run(w, s, ops).value);
    }
  }

  /**
   After a shuffle and any run of other operations the undo is there exactly if the number
   drawn was not the last one and no page has arrived.
   */
  lemma CanUndoExactly(w: World, s: TrackList, u: nat, ops: seq<Op>)
    requires Safe(s) && Finite(w.net) && !s.shuffled && StaysOn(ops) && u < TWO_TO_THE_64
    requires Run(w, ShuffleOn(w, s, u), ops).Some?
    ensures CanUndo(Run(w, ShuffleOn(w, s, u), ops).value) <==>
            && u != TWO_TO_THE_64 - 1
            && |Run(w, ShuffleOn(w, s, u), ops).value.tracks.list| == |FetchAll(w, s).tracks.list|
  {
    SeedsDiffer(w, s, u, u);
    RunKeeps(w, ShuffleOn(w, s, u), ops);
  }

  /**
   Shuffle on, any run of other operations, shuffle off.  If the shuffle was seeded
   and the list has kept its length, the list is exactly the one before the shuffle
   and the cursor is on the very entry it was on just before; current track and index
   do not change, and in page order no other place holds that entry.
   */
  lemma ShuffleRoundTrip(w: World, s: TrackList, u: nat, ops: seq<Op>, u': nat)
    requires Safe(s) && Finite(w.net) && !s.shuffled && StaysOn(ops)
    requires Run(w, ShuffleOn(w, s, u), ops).Some? && CanUndo(Run(w, ShuffleOn(w, s, u), ops).value)
    ensures var before := Run(w, ShuffleOn(w, s, u), ops).value;
            var after := ToggleShuffle(w, before, false, u').0;
            && !after.shuffled
            && after.tracks.list == FetchAll(w, s).tracks.list
            && after.tracks.res == before.tracks.res
            && after.queue == before.queue && after.playingQueue == before.playingQueue
            && (before.tracks.pos < 0 ==> after.tracks.pos == before.tracks.pos)
            && (before.tracks.pos >= 0 ==>
                  && 0 <= after.tracks.pos < |after.tracks.list|
                  && after.tracks.list[after.tracks.pos] == before.tracks.list[before.tracks.pos]
                  && (Consistent(w, s) ==>
                        forall k :: 0 <= k < |after.tracks.list| && k != after.tracks.pos ==>
                          after.tracks.list[k] != after.tracks.list[after.tracks.pos]))
  {
    var on := ShuffleOn(w, s, u);
    RunKeeps(w, on, ops);
    var before := Run(w, on, ops).value;
    OffRestores(w, s, u, before);
    if Consistent(w, s) {
      FetchAllSafe(w, s);
      DistinctInOrder(FetchAll(w, s).tracks.list, FetchAll(w, s).tracks.res.pages);
    }
  }

  lemma OffRestores(w: World, s: TrackList, u: nat, before: TrackList)
    requires Safe(s) && Finite(w.net) && Safe(before)
    requires Keeps(ShuffleOn(w, s, u), before) && CanUndo(before)
    ensures var after := ShuffleOff(w, before).0;
            var d, e := Deck(before.tracks.list, before.tracks.pos), Deck(after.tracks.list, after.tracks.pos);
            && after == before.(tracks := Paged(e.list, e.pos, before.tracks.res), shuffled := false)
            && e.list == FetchAll(w, s).tracks.list
            && SameCards(d, e)
  {
    FetchAllSafe(w, s);
    var on, all := ShuffleOn(w, s, u), FetchAll(w, s);
    assert before.tracks.list == on.tracks.list;
    UndoDo(w.src, on.seed, Deck(all.tracks.list, all.tracks.pos), before.tracks.pos);
    UndoSameCards(w.src, on.seed, on.keep, Deck(before.tracks.list, before.tracks.pos));
  }

  lemma DistinctInOrder(list: seq<Item>, pages: seq<ContextPage>)
    requires PageOrdered(list, pages)
    ensures forall i, j :: 0 <= i < |list| && 0 <= j < |list| && i != j ==> list[i] != list[j]
  {
    forall i, j | 0 <= i < |list| && 0 <= j < |list| && i != j
      ensures list[i] != list[j]
    {
      OrderedDistinct(pages, NextPageIdx(list), if i < j then i else j, if i < j then j else i);
    }
  }
}
