/**
 When the unshuffled list is in page order, exactly, over every run.  Leaving a shuffle by
 re-reading the context can fail; the list then stays marked as shuffled although it is in
 page order (tracks/tracks.go).  If it has the remembered length, the next switch-off
 replays the inverse shuffle over it.
 */
module TrackStale {
  import opened Common
  import opened Resolver
  import opened Paging
  import opened Shuffling
  import opened TrackLists
  import opened TrackRuns

  // ----- in general

  lemma {:induction false} FlattenLonger(pages: seq<ContextPage>, j: nat, k: nat)
    requires j < k <= |pages| && forall i :: 0 <= i < k ==> pages[i].tracks != []
    ensures |Flatten(pages, j)| < |Flatten(pages, k)|
    decreases k
  {
    if j < k - 1 {
      FlattenLonger(pages, j, k - 1);
    }
  }

  /** Page order leaves no choice: two page-ordered lists of one length are the same list. */
  lemma OrderedUnique(list: seq<Item>, other: seq<Item>, pages: seq<ContextPage>)
    requires PageOrdered(list, pages) && PageOrdered(other, pages) && |list| == |other|
    ensures list == other
  {
    var j, k := NextPageIdx(list), NextPageIdx(other);
    if j < k {
      FlattenLonger(pages, j, k);
    } else if k < j {
      FlattenLonger(pages, k, j);
    }
  }

  /**
   Undoing moves nothing exactly when the seed draws the numbers that move nothing but
   bring the remembered place to the front: a matter of seed, length and `keep` alone.
   */
  lemma UndoMovesNothing<T>(src: Source, seed: nat, keep: int, list: seq<T>, p: int)
    requires Distinct(list) && (keep > 0 ==> keep < |list|)
    ensures Undo(src, seed, keep, Deck(list, p)).list == list <==>
            Draws(src, src.seed(seed), |list|) == Still(|list|, keep)
  {
    var n, d := |list|, Deck(list, p);
    var js, b := Draws(src, src.seed(seed), n), Bring(d, keep);
    MixStill(d, keep, n);
    assert b == Deck(Mix(d, Still(n, keep), n).list, b.pos);
    if js == Still(n, keep) {
      UnmixMix(d, js, n, b.pos);
    }
    if Unmix(b, js, n).list == list {
      MixUnmix(b, js, n, p);
      MixInjective(d, js, Still(n, keep), n);
    }
  }

  /** What the remembered shuffle draws. */
  function Drawn(w: World, s: TrackList): seq<nat> {
    Draws(w.src, w.src.seed(s.seed), s.shuffleLen)
  }

  /**
   Replaying the inverse shuffle over a list that is already in page order keeps page
   order exactly when the draws are those that move nothing.
   */
  lemma StaleUndo(w: World, s: TrackList)
    requires Safe(s) && Finite(w.net) && CanUndo(s) && PageOrdered(s.tracks.list, s.tracks.res.pages)
    ensures var t := ShuffleOff(w, s).0;
            && !t.shuffled
            && (PageOrdered(t.tracks.list, t.tracks.res.pages) <==> Drawn(w, s) == Still(s.shuffleLen, s.keep))
  {
    var t := ShuffleOff(w, s).0;
    DistinctInOrder(s.tracks.list, s.tracks.res.pages);
    UndoMovesNothing(w.src, s.seed, s.keep, s.tracks.list, s.tracks.pos);
    if PageOrdered(t.tracks.list, t.tracks.res.pages) {
      OrderedUnique(t.tracks.list, s.tracks.list, s.tracks.res.pages);
    }
  }

  /**
   A switch-off that fails, any run that does not switch off, a switch-off that succeeds:
   the list ends out of page order exactly when the last switch replayed the shuffle and
   the seed draws numbers that move something.
   */
  lemma AfterFailedSwitch(w: World, s: TrackList, ops: seq<Op>)
    requires Safe(s) && Finite(w.net) && s.shuffled && CanSwitchOff(s)
    requires !ShuffleOff(w, s).1 && StaysOn(ops) && Run(w, SwitchedOff(w, s), ops).Some?
    requires var s2 := Run(w, SwitchedOff(w, s), ops).value; CanSwitchOff(s2) && ShuffleOff(w, s2).1
    ensures var s2 := Run(w, SwitchedOff(w, s), ops).value;
            var s3 := SwitchedOff(w, s2);
            PageOrdered(s3.tracks.list, s3.tracks.res.pages) <==>
            !(CanUndo(s2) && Drawn(w, s2) != Still(s2.shuffleLen, s2.keep))
  {
    RefetchFindsTrack(w, s);
    var s1 := SwitchedOff(w, s);
    RunKeeps(w, s1, ops);
    var s2 := Run(w, s1, ops).value;
    if CanUndo(s2) {
      StaleUndo(w, s2);
    } else {
      RefetchFindsTrack(w, s2);
    }
  }

  /** Switching off does not panic. */
  predicate CanSwitchOff(s: TrackList) { CanUndo(s) || s.playingQueue || HasCursor(s) }

  function SwitchedOff(w: World, s: TrackList): (t: TrackList)
    requires Safe(s) && Finite(w.net) && CanSwitchOff(s)
    ensures Safe(t)
  {
    ShuffleOffSafe(w, s);
    ShuffleOff(w, s).0
  }

  // ----- every run

  /**
   Where the order of a list stands.  Intact: in page order, or shuffled so that undoing
   gives page order.  Stale: in page order though marked as shuffled.  Scrambled: out of page
   order, or shuffled so that undoing leaves it out of page order.
   */
  datatype Order = Intact | Stale | Scrambled

  ghost predicate Stands(w: World, s: TrackList, o: Order)
    requires Safe(s)
  {
    match o
    case Intact => Consistent(w, s)
    case Stale => s.shuffled && PageOrdered(s.tracks.list, s.tracks.res.pages)
    case Scrambled =>
      && (!s.shuffled ==> !PageOrdered(s.tracks.list, s.tracks.res.pages))
      && (s.shuffled && s.seed != 0 ==>
            s.shuffleLen <= |s.tracks.list| && !PageOrdered(Restored(w, s), s.tracks.res.pages))
  }

  /** How an operation moves it, told before the call. */
  function Track(w: World, s: TrackList, o: Order, op: Op): Order
    requires Safe(s) && Finite(w.net) && Enabled(s, op)
  {
    if !Switches(s, op) || op.on then o
    else if CanUndo(s) then
      if o != Stale then o
      else if Drawn(w, s) == Still(s.shuffleLen, s.keep) then Intact else Scrambled
    else if Recoverable(w, s) then Intact else Stale
  }

  lemma RestoredLocated(w: World, s: TrackList)
    requires Safe(s) && s.shuffleLen <= |s.tracks.list|
    ensures Located(Restored(w, s), s.tracks.res.pages)
  {
    var d := Deck(s.tracks.list[..s.shuffleLen], -1);
    UndoSameCards(w.src, s.seed, s.keep, d);
    SameCardsLocated(d, Undo(w.src, s.seed, s.keep, d), s.tracks.res.pages);
  }

  lemma KeepsStanding(w: World, s: TrackList, t: TrackList, o: Order)
    requires Safe(s) && Safe(t) && Keeps(s, t) && Stands(w, s, o)
    ensures Stands(w, t, o)
  {
    if o == Intact {
      KeepsConsistent(w, s, t);
    } else if o == Scrambled && s.shuffled && s.seed != 0 {
      assert t.tracks.list[..t.shuffleLen] == s.tracks.list[..s.shuffleLen];
      RestoredLocated(w, s);
      OrderedStays(Restored(w, s), s.tracks.res, t.tracks.res);
    }
  }

  /** Shuffling remembers the order it found, whether that was page order or not. */
  lemma ShuffleOnRestores(w: World, s: TrackList, u: nat)
    requires Safe(s) && Finite(w.net)
    ensures var t := ShuffleOn(w, s, u);
            && t.shuffled && t.shuffleLen == |t.tracks.list|
            && Restored(w, t) == FetchAll(w, s).tracks.list
            && t.tracks.res == FetchAll(w, s).tracks.res
  {
    FetchAllSafe(w, s);
    var all, t := FetchAll(w, s), ShuffleOn(w, s, u);
    UndoDo(w.src, t.seed, Deck(all.tracks.list, all.tracks.pos), -1);
    assert t.tracks.list[..t.shuffleLen] == t.tracks.list;
  }

  lemma StepStanding(w: World, s: TrackList, o: Order, op: Op)
    requires Safe(s) && Finite(w.net) && Enabled(s, op) && NoGaps(s) && Stands(w, s, o)
    ensures Safe(Step(w, s, op).0) && Stands(w, Step(w, s, op).0, Track(w, s, o, op))
  {
    StepSafe(w, s, op);
    if !Switches(s, op) {
      StepKeeps(w, s, op);
      KeepsStanding(w, s, Step(w, s, op).0, o);
    } else if op.on {
      ShuffleOnRestores(w, s, op.u);
      FetchAllSafe(w, s);
    } else if !CanUndo(s) {
      RefetchStanding(w, s);
    } else if o == Stale {
      StaleStanding(w, s);
    } else {
      ReplayStanding(w, s, o);
    }
  }

  lemma RefetchStanding(w: World, s: TrackList)
    requires Safe(s) && Finite(w.net) && s.shuffled && !CanUndo(s) && (s.playingQueue || HasCursor(s))
    requires NoGaps(s) && Safe(ShuffleOff(w, s).0)
    ensures Stands(w, ShuffleOff(w, s).0, if Recoverable(w, s) then Intact else Stale)
  {
    RefetchFindsTrack(w, s);
    RefetchExactly(w, s);
  }

  lemma StaleStanding(w: World, s: TrackList)
    requires Safe(s) && Finite(w.net) && CanUndo(s) && Stands(w, s, Stale) && Safe(ShuffleOff(w, s).0)
    ensures Stands(w, ShuffleOff(w, s).0, if Drawn(w, s) == Still(s.shuffleLen, s.keep) then Intact else Scrambled)
  {
    StaleUndo(w, s);
  }

  lemma ReplayStanding(w: World, s: TrackList, o: Order)
    requires Safe(s) && Finite(w.net) && s.shuffled && CanUndo(s) && Stands(w, s, o) && o != Stale
    requires Safe(ShuffleOff(w, s).0)
    ensures Stands(w, ShuffleOff(w, s).0, o)
  {
    UndoIsRestored(w, s);
  }

  lemma UndoIsRestored(w: World, s: TrackList)
    requires Safe(s) && Finite(w.net) && CanUndo(s)
    ensures var t := ShuffleOff(w, s).0;
            !t.shuffled && t.tracks.list == Restored(w, s) && t.tracks.res == s.tracks.res
  {
    assert s.tracks.list[..s.shuffleLen] == s.tracks.list;
    UndoIgnoresCursor(w.src, s.seed, s.keep, s.tracks.list, s.tracks.pos, -1);
  }

  function TrackRun(w: World, s: TrackList, o: Order, ops: seq<Op>): Order
    requires Safe(s) && Finite(w.net)
    decreases |ops|
  {
    if ops == [] || !Enabled(s, ops[0]) then o
    else
      StepSafe(w, s, ops[0]);
      TrackRun(w, Step(w, s, ops[0]).0, Track(w, s, o, ops[0]), ops[1..])
  }

  lemma {:induction false} RunStanding(w: World, s: TrackList, o: Order, ops: seq<Op>)
    requires Safe(s) && Finite(w.net) && Run(w, s, ops).Some? && NoGaps(s) && Stands(w, s, o)
    ensures Stands(w, Run(w, s, ops).value, TrackRun(w, s, o, ops))
    decreases |ops|
  {
    if ops != [] {
      StepStanding(w, s, o, ops[0]);
      StepFilled(w, s, ops[0]);
      RunStanding(w, Step(w, s, ops[0]).0, Track(w, s, o, ops[0]), ops[1..]);
    }
  }

  lemma {:induction false} CleanIsIntact(w: World, s: TrackList, ops: seq<Op>)
    requires Safe(s) && Finite(w.net) && NoGaps(s) && Clean(w, s, ops)
    ensures TrackRun(w, s, Intact, ops) == Intact
    decreases |ops|
  {
    if ops != [] && Enabled(s, ops[0]) {
      StepSafe(w, s, ops[0]);
      StepFilled(w, s, ops[0]);
      if Rereads(s, ops[0]) {
        RefetchExactly(w, s);
      }
      CleanIsIntact(w, Step(w, s, ops[0]).0, ops[1..]);
    }
  }

  /**
   For every run from a new list, failures included: an unshuffled list is in page order
   exactly when the run has left the order intact.  Each step of that account is told
   before the call: it stops being intact only by a re-read for a track that cannot be
   recovered, followed by a replay whose draws move something, and a run whose re-reads are
   all for tracks the list holds always leaves it intact.
   */
  lemma PageOrderExactly(w: World, pages: seq<ContextPage>, ops: seq<Op>)
    requires Finite(w.net) && pages != []
    requires Run(w, New(pages), ops).Some?
    ensures var s, o := Run(w, New(pages), ops).value, TrackRun(w, New(pages), Intact, ops);
            && (!s.shuffled ==> (PageOrdered(s.tracks.list, s.tracks.res.pages) <==> o == Intact))
            && (Clean(w, New(pages), ops) ==> o == Intact)
  {
    assert Flatten(pages, 0) == [];
    RunStanding(w, New(pages), Intact, ops);
    if Clean(w, New(pages), ops) {
      CleanIsIntact(w, New(pages), ops);
    }
  }

  // ----- a run that gets there

  const ONE := ContextTrack("one", "", [], map[])
  const TWO := ContextTrack("two", "", [], map[])
  const OTHER := ContextTrack("other", "", [], map[])

  const PAGES := [ContextPage("", "", [ONE]), ContextPage("", "", [TWO])]
  const E1 := Item(ONE, 0, 0)
  const E2 := Item(TWO, 1, 0)

  function Offline(): World {
    World(Network((t, url) => LoadFailed(false), url => 0), RandSource(s => s, (s, bound) => (s, 0)), "track")
  }

  function IsTwo(): ContextTrack -> bool { (t: ContextTrack) => t.uri == "two" }

  const LEADING_UP := [OpSeek(IsTwo()), OpToggleShuffle(true, 0), OpGoNext, OpGoNext, OpAddToQueue(OTHER), OpGoNext]

  lemma FetchOffline(list: seq<Item>, pos: int)
    ensures FetchNextPage(Offline().net, Paged(list, pos, Snapshot(PAGES, 0))) ==
            var st := Paged(list, pos, Snapshot(PAGES, 0));
            match NextPageIdx(list)
            case 0 => (st.(list := list + [E1]), Fetched)
            case 1 => (st.(list := list + [E2]), Fetched)
            case _ => (st, NoMorePages)
  {
    assert PageItems(0, [ONE]) == [E1];
    assert PageItems(1, [TWO]) == [E2];
  }

  /** Reading a cleared list to its end gives the two pages in order. */
  lemma ScanOffline(f: ContextTrack -> bool, pos: int)
    ensures Finite(Offline().net)
    ensures !f(ONE) ==>
              Scan(Offline().net, Paged([], pos, Snapshot(PAGES, 0)), -1, f) ==
              ScanResult(Paged([E1, E2], pos, Snapshot(PAGES, 0)), if f(TWO) then 1 else -1, false)
  {
    var net, res := Offline().net, Snapshot(PAGES, 0);
    FetchOffline([], pos);
    FetchOffline([E1], pos);
    FetchOffline([E1, E2], pos);
    assert [] + [E1] == [E1] && [E1] + [E2] == [E1, E2];
    ScanTurn(net, Paged([], pos, res), -1, f);
    if !f(ONE) {
      ScanTurn(net, Paged([E1], pos, res), 0, f);
      if !f(TWO) {
        ScanTurn(net, Paged([E1, E2], pos, res), 1, f);
      }
    }
  }

  function At(list: seq<Item>, pos: int, shuffled: bool, queue: seq<ContextTrack>): TrackList {
    TrackList(Paged(list, pos, Snapshot(PAGES, 0)), shuffled,
              if shuffled then 1 else 0, if shuffled then 2 else 0, if shuffled then -1 else 0,
              queue != [], queue)
  }

  lemma SeekTwo()
    ensures Finite(Offline().net)
    ensures Step(Offline(), New(PAGES), OpSeek(IsTwo())) == (At([E1, E2], 1, false, []), true)
  {
    ScanOffline(IsTwo(), -1);
  }

  lemma SwitchOn()
    ensures Finite(Offline().net) && Safe(At([E1, E2], 1, false, []))
    ensures ShuffleOn(Offline(), At([E1, E2], 1, false, []), 0) == At([E2, E1], 0, true, [])
  {
    var w, f := Offline(), Never();
    var st := Paged([E1, E2], 1, Snapshot(PAGES, 0));
    FetchOffline([E1, E2], 1);
    ScanOffline(f, 1);
    ScanTurn(w.net, st, -1, f);
    ScanTurn(w.net, st, 0, f);
    ScanTurn(w.net, st, 1, f);
    assert Draws(w.src, 1, 2) == [0];
    var d := Deck([E1, E2], 1);
    assert SwapAt(d, 1, 0) == Deck([E2, E1], 0);
    assert Mix(d, [0], 2) == Deck([E2, E1], 0);
  }

  lemma Navigate()
    ensures Finite(Offline().net) && Safe(At([E2, E1], 0, true, []))
    ensures Run(Offline(), At([E2, E1], 0, true, []), LEADING_UP[2..]) ==
            Some(At([E2, E1, E2], 2, true, [AddToQueue(New(PAGES), OTHER).queue[0]]))
  {
    var w := Offline();
    ScanOffline(Never(), 0);
    var a, b, c := At([E2, E1], 0, true, []), At([E2, E1], 1, true, []), At([E2, E1, E2], 2, true, []);
    assert Located([E2, E1], PAGES) && Located([E2, E1, E2], PAGES);
    FetchOffline([E2, E1], 1);
    assert [E2, E1] + [E2] == [E2, E1, E2];
    assert Step(w, a, OpGoNext) == (b, true);
    assert Step(w, b, OpGoNext) == (c, true);
    var d := Step(w, c, OpAddToQueue(OTHER)).0;
    var e := At([E2, E1, E2], 2, true, [AddToQueue(New(PAGES), OTHER).queue[0]]);
    assert d.queue == [AddToQueue(New(PAGES), OTHER).queue[0]];
    assert Step(w, d, OpGoNext) == (e, true);
    RunsOn(w, a, [OpGoNext, OpGoNext, OpAddToQueue(OTHER), OpGoNext]);
    RunsOn(w, b, [OpGoNext, OpAddToQueue(OTHER), OpGoNext]);
    RunsOn(w, c, [OpAddToQueue(OTHER), OpGoNext]);
    RunsOn(w, d, [OpGoNext]);
    assert LEADING_UP[2..] == [OpGoNext, OpGoNext, OpAddToQueue(OTHER), OpGoNext];
  }

  lemma RunsOn(w: World, s: TrackList, ops: seq<Op>)
    requires Safe(s) && Finite(w.net) && ops != [] && Enabled(s, ops[0])
    ensures Safe(Step(w, s, ops[0]).0)
    ensures Run(w, s, ops) == Run(w, Step(w, s, ops[0]).0, ops[1..])
  {
    StepSafe(w, s, ops[0]);
  }

  /**
   A run whose first switch-off fails and whose second reports success, and which ends
   unshuffled with the second page before the first.
   */
  lemma PageOrderCanFail()
    ensures Finite(Offline().net)
    ensures var r := Run(Offline(), New(PAGES),
                         LEADING_UP + [OpToggleShuffle(false, 0), OpToggleShuffle(false, 0)]);
            && r.Some? && !r.value.shuffled
            && r.value.tracks.list == [E2, E1]
            && !PageOrdered(r.value.tracks.list, r.value.tracks.res.pages)
  {
    var w := Offline();
    var off := OpToggleShuffle(false, 0);
    SeekTwo();
    SwitchOn();
    Navigate();
    var queued := [AddToQueue(New(PAGES), OTHER).queue[0]];
    var e := At([E2, E1, E2], 2, true, queued);
    RunConcat(w, New(PAGES), LEADING_UP, [off, off]);
    RunsOn(w, New(PAGES), LEADING_UP);
    RunsOn(w, At([E1, E2], 1, false, []), LEADING_UP[1..]);
    assert LEADING_UP[1..][1..] == LEADING_UP[2..];
    FailedSwitchOff(e, queued);
    var f := At([E1, E2], -1, true, queued);
    RunsOn(w, e, [off, off]);
    RunsOn(w, f, [off]);
    UndoneOutOfOrder(f);
  }

  lemma {:induction false} RunConcat(w: World, s: TrackList, ops: seq<Op>, more: seq<Op>)
    requires Safe(s) && Finite(w.net) && Run(w, s, ops).Some?
    ensures Run(w, s, ops + more) == Run(w, Run(w, s, ops).value, more)
    decreases |ops|
  {
    if ops == [] {
      assert ops + more == more;
    } else {
      RunsOn(w, s, ops);
      RunConcat(w, Step(w, s, ops[0]).0, ops[1..], more);
      assert (ops + more)[1..] == ops[1..] + more;
      RunsOn(w, s, ops + more);
    }
  }

  lemma FailedSwitchOff(e: TrackList, queued: seq<ContextTrack>)
    requires queued == AddToQueue(New(PAGES), OTHER).queue && e == At([E2, E1, E2], 2, true, queued)
    requires Finite(Offline().net) && Safe(e)
    ensures ShuffleOff(Offline(), e) == (At([E1, E2], -1, true, queued), false)
  {
    ScanOffline(Matcher("track", queued[0]), -1);
  }

  lemma UndoneOutOfOrder(f: TrackList)
    requires Finite(Offline().net) && Safe(f) && f == At([E1, E2], -1, true, f.queue)
    ensures var t := ShuffleOff(Offline(), f).0;
            !t.shuffled && t.tracks.list == [E2, E1] && !PageOrdered(t.tracks.list, t.tracks.res.pages)
  {
    var src := Offline().src;
    assert Draws(src, 1, 2) == [0];
    assert Unmix(Deck([E1, E2], -1), [0], 2).list == [E2, E1];
    assert Flatten(PAGES, 1) == [E1];
  }
}
