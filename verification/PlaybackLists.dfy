/**
 The playback list as an object (tracks/tracks.go).  Every method is proved against
 the operation of the same name on the value in module TrackLists.
 */
module PlaybackLists {
  import opened Common
  import opened Resolver
  import opened Paging
  import opened Shuffling
  import opened PagedLists
  import TL = TrackLists
  import TR = TrackRuns

  class List {
    const ctx: ContextResolver
    const src: Source
    const typ: string
    const tracks: PagedList

    var shuffled: bool
    var shuffleSeed: nat
    var shuffleLen: nat
    var shuffleKeep: int
    var playingQueue: bool
    var queue: seq<ContextTrack>

    constructor (ctx: ContextResolver, src: Source, typ: string)
      requires ctx.pages != [] && ctx.clock == 0 && Finite(ctx.net)
      ensures Valid() && State() == TL.New(ctx.pages)
      ensures World() == TL.World(ctx.net, src, typ) && this.ctx == ctx && fresh(tracks)
    {
      this.ctx, this.src, this.typ := ctx, src, typ;
      this.tracks := new PagedList(ctx);
      shuffled, shuffleSeed, shuffleLen, shuffleKeep := false, 0, 0, 0;
      playingQueue, queue := false, [];
    }

    ghost function World(): TL.World {
      TL.World(ctx.net, src, typ)
    }

    ghost function State(): TL.TrackList
      reads this, tracks, tracks.pages
    {
      TL.TrackList(tracks.State(), shuffled, shuffleSeed, shuffleLen, shuffleKeep, playingQueue, queue)
    }

    ghost predicate Valid()
      reads this, tracks, tracks.pages
    {
      tracks.pages == ctx && Finite(ctx.net) && TL.Safe(State())
    }

    method Current() returns (t: ContextTrack)
      requires Valid() && (playingQueue || tracks.pos >= 0)
      ensures t == TL.Current(State())
    {
      if playingQueue {
        return queue[0];
      }
      var curr := tracks.Get();
      return curr.item;
    }

    method Index() returns (page: nat, track: nat)
      requires Valid() && (playingQueue || tracks.pos >= 0)
      ensures (page, track) == TL.Index(State())
    {
      if playingQueue {
        return 0, 0;
      }
      var curr := tracks.Get();
      return curr.pageIdx, curr.itemIdx;
    }

    method Seek(f: ContextTrack -> bool) returns (ok: bool)
      requires Valid()
      modifies tracks, ctx
      ensures Valid()
      ensures (State(), ok) == TL.Seek(World(), old(State()), f)
    {
      hide Located, Scan;
      ghost var net, st := ctx.net, tracks.State();
      TL.SeekSafe(World(), State(), f);
      var iter := new Iterator.Start(tracks);
      while true
        invariant iter.list == tracks && tracks.pos == st.pos
        invariant Scannable(net, tracks.State(), iter.pos)
        invariant Scan(net, tracks.State(), iter.pos, f) == Scan(net, st, -1, f)
        decreases PagesLeft(net, tracks.State()), |tracks.list| - iter.pos
      {
        ScanTurn(net, tracks.State(), iter.pos, f);
        var more := iter.Next();
        if !more {
          break;
        }
        var curr := iter.Get();
        if f(curr.item) {
          tracks.Move(iter);
          return true;
        }
      }
      return false;
    }

    method TrySeek(f: ContextTrack -> bool) returns (ok: bool)
      requires Valid()
      modifies tracks, ctx
      ensures Valid()
      ensures (State(), ok) == TL.TrySeek(World(), old(State()), f)
    {
      assert TL.Safe(TL.TrySeek(World(), State(), f).0) by { TR.TrySeekKeeps(World(), State(), f); }
      ok := Seek(f);
      if !ok {
        ok := tracks.MoveStart();
      }
    }

    method GoStart() returns (ok: bool)
      requires Valid()
      modifies tracks, ctx
      ensures Valid()
      ensures (State(), ok) == TL.GoStart(World(), old(State()))
    {
      assert TL.Safe(TL.GoStart(World(), State()).0) by { TR.GoStartKeeps(World(), State()); }
      ok := tracks.MoveStart();
    }

    method GoNext() returns (ok: bool)
      requires Valid() && (TL.Waiting(State()) == [] ==> tracks.pos >= 0)
      modifies this, tracks, ctx
      ensures Valid()
      ensures (State(), ok) == TL.GoNext(World(), old(State()))
    {
      assert TL.Safe(TL.GoNext(World(), State()).0) by { TR.GoNextKeeps(World(), State()); }
      if playingQueue {
        queue := queue[1..];
      }
      if |queue| > 0 {
        playingQueue := true;
        return true;
      }
      playingQueue := false;

      var iter := new Iterator.Here(tracks);
      ok := iter.Next();
      if ok {
        tracks.Move(iter);
      }
    }

    method GoPrev() returns (ok: bool)
      requires Valid() && tracks.pos >= 0
      modifies this, tracks
      ensures Valid()
      ensures (State(), ok) == TL.GoPrev(old(State()))
    {
      if playingQueue {
        playingQueue := false;
      }
      var iter := new Iterator.Here(tracks);
      ok := iter.Prev();
      if ok {
        tracks.Move(iter);
      }
    }

    method PeekNext() returns (t: Option<ContextTrack>)
      requires Valid() && (TL.Waiting(State()) == [] ==> tracks.pos >= 0)
      modifies tracks, ctx
      ensures Valid()
      ensures (State(), t) == TL.PeekNext(World(), old(State()))
    {
      hide Located;
      assert TL.Safe(TL.PeekNext(World(), State()).0) by { TR.PeekNextKeeps(World(), State()); }
      if playingQueue && |queue| > 1 {
        return Some(queue[1]);
      } else if !playingQueue && |queue| > 0 {
        return Some(queue[0]);
      }
      IterNextExtends(ctx.net, tracks.State(), tracks.pos);
      var iter := new Iterator.Here(tracks);
      var ok := iter.Next();
      if ok {
        var curr := iter.Get();
        return Some(curr.item);
      }
      return None;
    }

    method NextTracks() returns (ts: seq<ContextTrack>)
      requires Valid() && tracks.pos >= 0
      modifies tracks, ctx
      ensures Valid()
      ensures (State(), ts) == TL.NextTracks(World(), old(State()))
    {
      hide Collect;
      assert TL.Safe(TL.NextTracks(World(), State()).0) by { TR.NextTracksKeeps(World(), State()); }
      ts := [];
      ghost var waiting := TL.Waiting(State());
      if |queue| > 0 {
        var q := queue;
        if playingQueue {
          q := q[1..];
        }
        var i := 0;
        while i < |q| && |ts| < TL.MAX_TRACKS_IN_CONTEXT
          invariant 0 <= i <= |q| && ts == q[..i] && i <= TL.MAX_TRACKS_IN_CONTEXT
        {
          ts := ts + [q[i]];
          i := i + 1;
        }
      }
      assert ts == waiting[..Min(TL.MAX_TRACKS_IN_CONTEXT, |waiting|)];
      var rest := CollectNext(TL.MAX_TRACKS_IN_CONTEXT - |ts|);
      ts := ts + rest;
    }

    /** The part of NextTracks that walks the context. */
    method CollectNext(limit: nat) returns (ts: seq<ContextTrack>)
      requires Valid() && tracks.pos >= 0
      modifies tracks, ctx
      ensures (tracks.State(), ts) == Collect(ctx.net, old(tracks.State()), old(tracks.pos), limit)
    {
      hide Located, IterNext;
      ghost var net, st := ctx.net, tracks.State();
      var iter := new Iterator.Here(tracks);
      ts := [];
      assert ts + Collect(net, st, st.pos, limit).1 == Collect(net, st, st.pos, limit).1;
      while |ts| < limit
        invariant iter.list == tracks && |ts| <= limit
        invariant Paging.Valid(tracks.State()) && -1 <= iter.pos < |tracks.list|
        invariant var (end, rest) := Collect(net, tracks.State(), iter.pos, limit - |ts|);
                  (end, ts + rest) == Collect(net, st, st.pos, limit)
      {
        CollectTurn(net, tracks.State(), iter.pos, limit - |ts|);
        var more := iter.Next();
        if !more {
          assert ts + [] == ts;
          return;
        }
        var curr := iter.Get();
        ghost var rest := Collect(net, tracks.State(), iter.pos, limit - |ts| - 1).1;
        assert ts + ([curr.item] + rest) == (ts + [curr.item]) + rest;
        ts := ts + [curr.item];
      }
      assert ts + [] == ts;
    }

    method PrevTracks() returns (ts: seq<ContextTrack>)
      requires Valid() && tracks.pos >= 0
      ensures ts == TL.PrevTracks(State())
    {
      var back: seq<ContextTrack> := [];
      var iter := new Iterator.Here(tracks);
      while |back| < TL.MAX_TRACKS_IN_CONTEXT
        invariant iter.list == tracks && |back| <= TL.MAX_TRACKS_IN_CONTEXT
        invariant |back| == tracks.pos - iter.pos && 0 <= iter.pos
        invariant forall k :: 0 <= k < |back| ==> back[k] == tracks.list[tracks.pos - 1 - k].item
      {
        var more := iter.Prev();
        if !more {
          break;
        }
        var curr := iter.Get();
        back := back + [curr.item];
      }
      ts := Reverse(back);
    }

    /** slices.Reverse */
    static method Reverse(back: seq<ContextTrack>) returns (ts: seq<ContextTrack>)
      ensures |ts| == |back|
      ensures forall k :: 0 <= k < |ts| ==> ts[k] == back[|back| - 1 - k]
    {
      ts := back;
      var i, j := 0, |back| - 1;
      while i < j
        invariant 0 <= i && j == |back| - 1 - i && |ts| == |back| && i <= j + 1
        invariant forall k :: i <= k <= j ==> ts[k] == back[k]
        invariant forall k :: 0 <= k < i ==> ts[k] == back[|back| - 1 - k]
        invariant forall k :: j < k < |ts| ==> ts[k] == back[|back| - 1 - k]
      {
        ts := ts[i := ts[j]][j := ts[i]];
        i, j := i + 1, j - 1;
      }
    }

    /** The bare loop over an iterator, as in AllTracks and before shuffling. */
    method Drain()
      requires Valid()
      modifies tracks, ctx
      ensures Valid()
      ensures State() == TL.FetchAll(World(), old(State()))
    {
      hide Located, IterNext, Scan;
      ghost var net, st := ctx.net, tracks.State();
      ghost var f := Never();
      assert TL.Safe(TL.FetchAll(World(), State())) by { TL.FetchAllSafe(World(), State()); }
      var iter := new Iterator.Start(tracks);
      while true
        invariant iter.list == tracks && tracks.pos == st.pos
        invariant Scannable(net, tracks.State(), iter.pos)
        invariant Scan(net, tracks.State(), iter.pos, f) == Scan(net, st, -1, f)
        decreases PagesLeft(net, tracks.State()), |tracks.list| - iter.pos
      {
        ScanTurn(net, tracks.State(), iter.pos, f);
        var more := iter.Next();
        if !more {
          break;
        }
      }
    }

    method AddToQueue(track: ContextTrack)
      requires Valid()
      modifies this
      ensures Valid()
      ensures State() == TL.AddToQueue(old(State()), track)
    {
      queue := queue + [track.(metadata := track.metadata["is_queued" := "true"])];
    }

    method SetQueue(next: seq<ContextTrack>)
      requires Valid()
      modifies this
      ensures State() == TL.SetQueue(old(State()), next)
      ensures Valid()
    {
      assert TL.Safe(TL.SetQueue(State(), next)) by { TL.SetQueueLands(State(), next); }
      if playingQueue {
        queue := queue[..1];
      } else {
        queue := [];
      }
      AppendQueued(next);
    }

    /** The loop of SetQueue. */
    method AppendQueued(next: seq<ContextTrack>)
      modifies this`queue
      ensures queue == old(queue) + TL.OnlyQueued(next)
    {
      ghost var head := queue;
      for i := 0 to |next|
        invariant queue == head + TL.OnlyQueued(next[..i])
      {
        var track := next[i];
        assert next[..i + 1][..i] == next[..i];
        if TL.IsQueued(track) {
          queue := queue + [track];
        }
      }
      assert next[..|next|] == next;
    }

    method SetPlayingQueue(val: bool)
      requires Valid()
      modifies this
      ensures Valid()
      ensures State() == TL.SetPlayingQueue(old(State()), val)
    {
      playingQueue := |queue| > 0 && val;
    }

    /** `u` stands for the number drawn from the global random source for the seed. */
    method ToggleShuffle(shuffle: bool, u: nat) returns (ok: bool)
      requires Valid() && u < TWO_TO_THE_64
      requires shuffled && !shuffle ==> TL.CanUndo(State()) || playingQueue || tracks.pos >= 0
      modifies this, tracks, ctx
      ensures Valid()
      ensures (State(), ok) == TL.ToggleShuffle(World(), old(State()), shuffle, u)
    {
      if shuffle == shuffled {
        return true;
      }
      if shuffle {
        SwitchOn(u);
        return true;
      } else {
        ok := SwitchOff();
      }
    }

    method SwitchOn(u: nat)
      requires Valid() && u < TWO_TO_THE_64
      modifies this, tracks, ctx
      ensures State() == TL.ShuffleOn(World(), old(State()), u)
      ensures Valid()
    {
      Drain();
      shuffleSeed := (u + 1) % TWO_TO_THE_64;
      ShuffleKeepingCurrent();
      shuffleLen := |tracks.list|;
      shuffled := true;
    }

    method ShuffleKeepingCurrent()
      requires -1 <= tracks.pos < |tracks.list|
      modifies this`shuffleKeep, tracks
      ensures (Deck(tracks.list, tracks.pos), shuffleKeep) ==
              TL.Do(src, shuffleSeed, old(Deck(tracks.list, tracks.pos)))
    {
      var rnd := new Rand(src, shuffleSeed);
      ShuffleSameCards(src, src.seed(shuffleSeed), Deck(tracks.list, tracks.pos));
      tracks.Shuffle(rnd);
      if tracks.pos > 0 {
        shuffleKeep := tracks.pos;
        tracks.Swap(0, tracks.pos);
      } else {
        shuffleKeep := -1;
      }
    }

    method SwitchOff() returns (ok: bool)
      requires Valid() && (TL.CanUndo(State()) || playingQueue || tracks.pos >= 0)
      modifies this, tracks, ctx
      ensures (State(), ok) == TL.ShuffleOff(World(), old(State()))
      ensures Valid()
    {
      TR.ShuffleOffSafe(World(), State());
      if shuffleSeed != 0 && |tracks.list| == shuffleLen {
        if shuffleKeep > 0 {
          tracks.Swap(0, shuffleKeep);
        }
        var rnd := new Rand(src, shuffleSeed);
        tracks.Unshuffle(rnd);
        shuffled := false;
        return true;
      } else {
        var currentTrack := Current();
        tracks.Clear();
        ok := Seek(TL.Matcher(typ, currentTrack));
        if ok {
          shuffled := false;
        }
      }
    }
  }
}
