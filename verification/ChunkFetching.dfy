/**
 Any number of goroutines calling fetchChunk on one chunk (audio/chunked_reader.go):
 the lock, the condition variable, the download outside the lock and the two locked
 sections after it, as a state machine over their steps.
 */
module ChunkFetching {
  import opened Common
  import opened Positional
  import opened ChunkedReaders

  /** Where a goroutine is inside fetchChunk; one that is not in the map is outside. */
  datatype Pc =
    | Entering                     // before Lock
    | Checking                     // holds the lock, at the test of `fetching`
    | Sleeping                     // in Wait, without the lock
    | Woken                        // holds the lock again, at the test of the inner loop
    | Downloading                  // has set `fetching` and released the lock
    | DownloadFailed               // the download gave an error
    | BodyRead(data: seq<byte>)    // the body has arrived, before the test of the old error
    | StaleError                   // the old error was still there
    | Storing(data: seq<byte>)     // about to store
    | Returned(data: seq<byte>)
    | GaveUp

  /** The chunk, its lock and the goroutines; `stores` and `downloads` count what has happened. */
  datatype State = State(
    data: Option<seq<byte>>, fetching: bool, err: bool,
    lock: Option<nat>, pcs: map<nat, Pc>,
    stores: nat, downloads: nat)

  datatype Step =
    | Call | Lock | Check | Wake | Recheck | Download(ok: bool) | TestOldError | Record | Leave

  predicate Busy(pc: Pc) {
    pc.Downloading? || pc.DownloadFailed? || pc.BodyRead? || pc.StaleError? || pc.Storing?
  }

  predicate Holding(pc: Pc) { pc.Checking? || pc.Woken? }

  predicate Enabled(s: State, t: nat, step: Step) {
    match step
    case Call => t !in s.pcs
    case Lock => t in s.pcs && s.pcs[t].Entering? && s.lock.None?
    case Check => t in s.pcs && s.pcs[t].Checking?
    case Wake => t in s.pcs && s.pcs[t].Sleeping? && s.lock.None?
    case Recheck => t in s.pcs && s.pcs[t].Woken?
    case Download(_) => t in s.pcs && s.pcs[t].Downloading?
    case TestOldError => t in s.pcs && s.pcs[t].BodyRead?
    case Record => t in s.pcs && (s.pcs[t].DownloadFailed? || s.pcs[t].StaleError? || s.pcs[t].Storing?) && s.lock.None?
    case Leave => t in s.pcs && (s.pcs[t].Returned? || s.pcs[t].GaveUp?)
  }

  function Goto(s: State, t: nat, pc: Pc): State { s.(pcs := s.pcs[t := pc]) }

  /** One step of goroutine `t`; `chunk` is what a download of this chunk delivers. */
  function Next(chunk: seq<byte>, s: State, t: nat, step: Step): State
    requires Enabled(s, t, step)
  {
    match step
    case Call => Goto(s, t, Entering)
    case Lock => Goto(s.(lock := Some(t)), t, Checking)
    case Check =>
      if s.fetching then
        if s.data.None? && !s.err then Goto(s.(lock := None), t, Sleeping)
        else s  // the loop turns again with the lock held
      else if s.data.Some? then Goto(s.(lock := None), t, Returned(s.data.value))
      else Goto(s.(fetching := true, lock := None), t, Downloading)
    case Wake => Goto(s.(lock := Some(t)), t, Woken)
    case Recheck =>
      if s.data.None? && !s.err then Goto(s.(lock := None), t, Sleeping)
      else Goto(s, t, Checking)
    case Download(ok) =>
      Goto(s.(downloads := s.downloads + 1), t, if ok then BodyRead(chunk) else DownloadFailed)
    case TestOldError => Goto(s, t, if s.err then StaleError else Storing(s.pcs[t].data))
    case Record =>
      var r := s.(fetching := false);
      if s.pcs[t].DownloadFailed? then Goto(r.(err := true), t, GaveUp)
      else if s.pcs[t].StaleError? then Goto(r.(err := false), t, GaveUp)
      else Goto(r.(data := Some(s.pcs[t].data), stores := s.stores + 1), t, Returned(s.pcs[t].data))
    case Leave => s.(pcs := s.pcs - {t})
  }

  /** Nobody inside; the constructor has stored the first chunk already, the others are empty. */
  predicate Initial(chunk: seq<byte>, s: State) {
    && s.pcs == map[] && s.lock.None? && !s.fetching && !s.err
    && s.stores == 0 && s.downloads == 0
    && (s.data.Some? ==> s.data.value == chunk)
  }

  // ----- the invariant

  /** The lock is held by exactly the goroutine that is in a locked section of the waiting loop. */
  ghost predicate LockInv(s: State) {
    && (s.lock.Some? ==> s.lock.value in s.pcs && Holding(s.pcs[s.lock.value]))
    && forall t :: t in s.pcs && Holding(s.pcs[t]) ==> s.lock == Some(t)
  }

  /** `fetching` holds exactly while one goroutine, and never two, is between claiming and recording. */
  ghost predicate OneFetcher(s: State) {
    && (forall t, u :: t in s.pcs && u in s.pcs && Busy(s.pcs[t]) && Busy(s.pcs[u]) ==> t == u)
    && (s.fetching <==> exists t :: t in s.pcs && Busy(s.pcs[t]))
  }

  /** Data, once there, is the chunk, nobody is fetching it, and everyone was given it. */
  ghost predicate DataInv(chunk: seq<byte>, s: State) {
    && (s.data.Some? ==> s.data.value == chunk && !s.fetching)
    && (forall t :: t in s.pcs && s.pcs[t].Returned? ==> s.data == Some(s.pcs[t].data))
    && (forall t :: t in s.pcs && (s.pcs[t].BodyRead? || s.pcs[t].Storing?) ==> s.pcs[t].data == chunk)
    && s.stores <= 1 && (s.stores == 1 ==> s.data.Some?)
  }

  ghost predicate Inv(chunk: seq<byte>, s: State) {
    LockInv(s) && OneFetcher(s) && DataInv(chunk, s)
  }

  lemma InitialInv(chunk: seq<byte>, s: State)
    requires Initial(chunk, s)
    ensures Inv(chunk, s)
  {
  }

  lemma NextLockInv(chunk: seq<byte>, s: State, t: nat, step: Step)
    requires Inv(chunk, s) && Enabled(s, t, step)
    ensures LockInv(Next(chunk, s, t, step))
  {
  }

  lemma NextOneFetcher(chunk: seq<byte>, s: State, t: nat, step: Step)
    requires Inv(chunk, s) && Enabled(s, t, step)
    ensures OneFetcher(Next(chunk, s, t, step))
  {
    var s' := Next(chunk, s, t, step);
    match step {
      case Record => assert forall u :: u in s'.pcs ==> !Busy(s'.pcs[u]);
      case Check =>
        assert forall u :: u in s'.pcs && u != t ==> u in s.pcs && s'.pcs[u] == s.pcs[u];
        if !s.fetching && s'.fetching {
          assert t in s'.pcs && Busy(s'.pcs[t]);
        } else {
          SameFetcher(s, s', t);
        }
      case _ => SameFetcher(s, s', t);
    }
  }

  /** A step that keeps its goroutine on the same side of the claim keeps the invariant. */
  lemma SameFetcher(s: State, s': State, t: nat)
    requires OneFetcher(s) && s'.fetching == s.fetching
    requires forall u :: u != t ==> (u in s.pcs <==> u in s'.pcs) && (u in s.pcs ==> s'.pcs[u] == s.pcs[u])
    requires (t in s.pcs && Busy(s.pcs[t])) <==> (t in s'.pcs && Busy(s'.pcs[t]))
    ensures OneFetcher(s')
  {
    if s.fetching {
      var u :| u in s.pcs && Busy(s.pcs[u]);
      assert u in s'.pcs && Busy(s'.pcs[u]);
    }
  }

  lemma NextDataInv(chunk: seq<byte>, s: State, t: nat, step: Step)
    requires Inv(chunk, s) && Enabled(s, t, step)
    ensures DataInv(chunk, Next(chunk, s, t, step))
  {
  }

  // ----- runs

  type Action = (nat, Step)

  predicate IsRun(chunk: seq<byte>, s: State, run: seq<Action>)
    decreases |run|
  {
    run == [] || (Enabled(s, run[0].0, run[0].1) && IsRun(chunk, Next(chunk, s, run[0].0, run[0].1), run[1..]))
  }

  function After(chunk: seq<byte>, s: State, run: seq<Action>): State
    requires IsRun(chunk, s, run)
    decreases |run|
  {
    if run == [] then s else After(chunk, Next(chunk, s, run[0].0, run[0].1), run[1..])
  }

  lemma {:induction false} RunInv(chunk: seq<byte>, s: State, run: seq<Action>)
    requires Inv(chunk, s) && IsRun(chunk, s, run)
    ensures Inv(chunk, After(chunk, s, run))
    decreases |run|
  {
    if run != [] {
      var (t, step) := run[0];
      NextLockInv(chunk, s, t, step);
      NextOneFetcher(chunk, s, t, step);
      NextDataInv(chunk, s, t, step);
      RunInv(chunk, Next(chunk, s, t, step), run[1..]);
    }
  }

  /** In every interleaving: one download at a time, flagged exactly while it lasts, and only the chunk is ever returned. */
  lemma OneDownloadAtATime(chunk: seq<byte>, s: State, run: seq<Action>, t: nat, u: nat)
    requires Initial(chunk, s) && IsRun(chunk, s, run)
    ensures var e := After(chunk, s, run);
            && (t in e.pcs && u in e.pcs && Busy(e.pcs[t]) && Busy(e.pcs[u]) ==> t == u)
            && (e.fetching <==> exists v :: v in e.pcs && Busy(e.pcs[v]))
            && (t in e.pcs && e.pcs[t].Returned? ==> e.pcs[t].data == chunk)
            && e.stores <= 1
  {
    InitialInv(chunk, s);
    RunInv(chunk, s, run);
  }

  /** Data once stored is never changed, stored or downloaded again, whoever calls and however often. */
  lemma {:induction false} WriteOnce(chunk: seq<byte>, s: State, run: seq<Action>)
    requires Inv(chunk, s) && s.data.Some? && IsRun(chunk, s, run)
    ensures var e := After(chunk, s, run);
            e.data == s.data && e.stores == s.stores && e.downloads == s.downloads && !e.fetching
    decreases |run|
  {
    if run != [] {
      var (t, step) := run[0];
      assert t in s.pcs ==> !Busy(s.pcs[t]);
      NextLockInv(chunk, s, t, step);
      NextOneFetcher(chunk, s, t, step);
      NextDataInv(chunk, s, t, step);
      WriteOnce(chunk, Next(chunk, s, t, step), run[1..]);
    }
  }

  // ----- what a fetch comes to

  function Outcome(pc: Pc): Option<seq<byte>> {
    match pc
    case Returned(data) => Some(data)
    case _ => None
  }

  /**
   A caller undisturbed by others, while nobody holds the lock or is fetching, comes to what
   a reader reckons with: the data if it is there, else one download, kept unless it fails or
   an old error stands, which it clears.
   */
  lemma SoloFetch(chunk: seq<byte>, s: State, t: nat, ok: bool) returns (run: seq<Action>)
    requires s.lock.None? && !s.fetching && t !in s.pcs
    ensures IsRun(chunk, s, run)
    ensures var e := After(chunk, s, run);
            && t in e.pcs && (e.pcs[t].Returned? || e.pcs[t].GaveUp?) && e.lock.None? && !e.fetching
            && (Chunk(e.data, e.err), Outcome(e.pcs[t])) == Attempt(Chunk(s.data, s.err), !ok, chunk)
            && e.downloads == s.downloads + if s.data.Some? then 0 else 1
  {
    var s1 := Next(chunk, s, t, Call);
    var s2 := Next(chunk, s1, t, Lock);
    var s3 := Next(chunk, s2, t, Check);
    run := [];
    if s.data.None? {
      run := DownloadAlone(chunk, s3, t, ok);
    }
    run := Prepend(chunk, s2, t, Check, run);
    run := Prepend(chunk, s1, t, Lock, run);
    run := Prepend(chunk, s, t, Call, run);
  }

  lemma DownloadAlone(chunk: seq<byte>, s: State, t: nat, ok: bool) returns (run: seq<Action>)
    requires s.lock.None? && t in s.pcs && s.pcs[t].Downloading? && s.data.None?
    ensures IsRun(chunk, s, run)
    ensures var e := After(chunk, s, run);
            && t in e.pcs && (e.pcs[t].Returned? || e.pcs[t].GaveUp?) && e.lock.None? && !e.fetching
            && (Chunk(e.data, e.err), Outcome(e.pcs[t])) == Attempt(Chunk(None, s.err), !ok, chunk)
            && e.downloads == s.downloads + 1
  {
    var s1 := Next(chunk, s, t, Download(ok));
    if ok {
      var s2 := Next(chunk, s1, t, TestOldError);
      run := Prepend(chunk, s2, t, Record, []);
      run := Prepend(chunk, s1, t, TestOldError, run);
    } else {
      run := Prepend(chunk, s1, t, Record, []);
    }
    run := Prepend(chunk, s, t, Download(ok), run);
  }

  /** Once the data is stored, whoever waits, for the lock or for the data, is given it in at most three steps. */
  lemma WaiterServed(chunk: seq<byte>, s: State, t: nat) returns (run: seq<Action>)
    requires Inv(chunk, s) && s.data.Some? && s.lock.None? && t in s.pcs && (s.pcs[t].Entering? || s.pcs[t].Sleeping?)
    ensures IsRun(chunk, s, run) && |run| <= 3
    ensures var e := After(chunk, s, run); t in e.pcs && e.pcs[t] == Returned(chunk) && e.lock.None?
  {
    if s.pcs[t].Entering? {
      var s1 := Next(chunk, s, t, Lock);
      run := Prepend(chunk, s1, t, Check, []);
      run := Prepend(chunk, s, t, Lock, run);
    } else {
      var s1 := Next(chunk, s, t, Wake);
      var s2 := Next(chunk, s1, t, Recheck);
      run := Prepend(chunk, s2, t, Check, []);
      run := Prepend(chunk, s1, t, Recheck, run);
      run := Prepend(chunk, s, t, Wake, run);
    }
  }

  // ----- when a waiter holds the lock for good

  /** A goroutine turns in the waiting loop with the lock held while another is fetching and an old error stands. */
  ghost predicate Stuck(s: State, t: nat) {
    && s.lock == Some(t) && t in s.pcs && s.pcs[t].Checking?
    && s.fetching && s.err && s.data.None?
  }

  /** The loop turns without effect exactly when the chunk is being fetched and an old error stands. */
  lemma TurnsInPlace(chunk: seq<byte>, s: State, t: nat)
    requires Inv(chunk, s) && t in s.pcs && s.pcs[t].Checking?
    ensures Next(chunk, s, t, Check) == s <==> s.fetching && s.err
    ensures Next(chunk, s, t, Check) == s <==> Stuck(s, t)
  {
    assert s.lock == Some(t);
  }

  /** From such a state nothing is ever stored or released again: every run stays in it. */
  lemma {:induction false} StuckForGood(chunk: seq<byte>, s: State, t: nat, run: seq<Action>)
    requires Inv(chunk, s) && Stuck(s, t) && IsRun(chunk, s, run)
    ensures Stuck(After(chunk, s, run), t)
    ensures After(chunk, s, run).stores == s.stores
    decreases |run|
  {
    if run != [] {
      var (u, step) := run[0];
      NextLockInv(chunk, s, u, step);
      NextOneFetcher(chunk, s, u, step);
      NextDataInv(chunk, s, u, step);
      StuckForGood(chunk, Next(chunk, s, u, step), t, run[1..]);
    }
  }

  /** No step of the run is a download that fails. */
  predicate NoFailures(run: seq<Action>) {
    forall i :: 0 <= i < |run| ==> run[i].1 != Download(false)
  }

  /** No error is recorded or about to be. */
  ghost predicate ErrorFree(s: State) {
    !s.err && forall u :: u in s.pcs ==> !s.pcs[u].DownloadFailed?
  }

  lemma {:induction false} ErrorFreeStays(chunk: seq<byte>, s: State, run: seq<Action>)
    requires ErrorFree(s) && IsRun(chunk, s, run) && NoFailures(run)
    ensures ErrorFree(After(chunk, s, run))
    decreases |run|
  {
    if run != [] {
      assert run[0].1 != Download(false);
      ErrorFreeStays(chunk, Next(chunk, s, run[0].0, run[0].1), run[1..]);
    }
  }

  /**
   Whatever other goroutines do to a chunk, over any run, is one step of what a reader
   reckons with, and it sets no error unless a download fails.
   */
  lemma OthersMeddle(chunk: seq<byte>, s: State, run: seq<Action>)
    requires Inv(chunk, s) && IsRun(chunk, s, run)
    ensures var e := After(chunk, s, run);
            && Meddled(Chunk(s.data, s.err), Becomes(e.data.Some?, e.err), chunk) == Chunk(e.data, e.err)
            && (ErrorFree(s) && NoFailures(run) ==> !e.err)
  {
    RunInv(chunk, s, run);
    if s.data.Some? {
      WriteOnce(chunk, s, run);
    }
    if ErrorFree(s) && NoFailures(run) {
      ErrorFreeStays(chunk, s, run);
    }
  }

  /** The chunk is empty and an error is recorded or about to be. */
  ghost predicate Tainted(s: State) {
    s.data.None? && (s.err || exists u :: u in s.pcs && s.pcs[u].DownloadFailed?)
  }

  lemma {:induction false} UntaintedStays(chunk: seq<byte>, s: State, run: seq<Action>)
    requires Inv(chunk, s) && !Tainted(s) && IsRun(chunk, s, run) && NoFailures(run)
    ensures !Tainted(After(chunk, s, run))
    decreases |run|
  {
    if run != [] {
      var (t, step) := run[0];
      assert step != Download(false);
      NextLockInv(chunk, s, t, step);
      NextOneFetcher(chunk, s, t, step);
      NextDataInv(chunk, s, t, step);
      UntaintedStep(chunk, s, t, step);
      UntaintedStays(chunk, Next(chunk, s, t, step), run[1..]);
    }
  }

  lemma UntaintedStep(chunk: seq<byte>, s: State, t: nat, step: Step)
    requires Inv(chunk, s) && !Tainted(s) && Enabled(s, t, step) && step != Download(false)
    ensures !Tainted(Next(chunk, s, t, step))
  {
    if s.data.Some? {
      assert t in s.pcs ==> !Busy(s.pcs[t]);
    }
  }

  /** A goroutine that is outside. */
  lemma Outsider(s: State) returns (t: nat)
    ensures t !in s.pcs
  {
    t := Above(s.pcs.Keys);
  }

  lemma {:induction false} Above(ts: set<nat>) returns (t: nat)
    ensures forall u :: u in ts ==> u < t
    decreases |ts|
  {
    if ts == {} {
      t := 0;
    } else {
      var u :| u in ts;
      var b := Above(ts - {u});
      t := Max(b, u + 1);
      forall v | v in ts
        ensures v < t
      {
        assert v == u || v in ts - {u};
      }
    }
  }

  /** With the lock free, a fetch under way and an old error, the next caller is stuck after Call and Lock. */
  lemma NextCallerStuck(chunk: seq<byte>, s: State) returns (run: seq<Action>, t: nat)
    requires s.lock.None? && s.fetching && s.err && s.data.None?
    ensures IsRun(chunk, s, run) && NoFailures(run) && Stuck(After(chunk, s, run), t)
  {
    t := Outsider(s);
    var s1 := Next(chunk, s, t, Call);
    run := Prepend(chunk, s1, t, Lock, []);
    run := Prepend(chunk, s, t, Call, run);
  }

  /** With the lock free and an old error, first someone starts to fetch. */
  lemma FreeAndErred(chunk: seq<byte>, s: State) returns (run: seq<Action>, t: nat)
    requires s.lock.None? && s.err && s.data.None?
    ensures IsRun(chunk, s, run) && NoFailures(run) && Stuck(After(chunk, s, run), t)
  {
    if s.fetching {
      run, t := NextCallerStuck(chunk, s);
    } else {
      var u := Outsider(s);
      var s1 := Next(chunk, s, u, Call);
      var s2 := Next(chunk, s1, u, Lock);
      var s3 := Next(chunk, s2, u, Check);
      run, t := NextCallerStuck(chunk, s3);
      run := Prepend(chunk, s2, u, Check, run);
      run := Prepend(chunk, s1, u, Lock, run);
      run := Prepend(chunk, s, u, Call, run);
    }
  }

  /** An old error and an empty chunk: whoever holds the lock is stuck already or gives it up. */
  lemma ErredGetsStuck(chunk: seq<byte>, s: State) returns (run: seq<Action>, t: nat)
    requires Inv(chunk, s) && s.err && s.data.None?
    ensures IsRun(chunk, s, run) && NoFailures(run) && Stuck(After(chunk, s, run), t)
  {
    if s.lock.None? {
      run, t := FreeAndErred(chunk, s);
    } else {
      var h := s.lock.value;
      if s.pcs[h].Woken? {
        var s1 := Next(chunk, s, h, Recheck);
        run, t := HolderErred(chunk, s1, h);
        run := Prepend(chunk, s, h, Recheck, run);
      } else {
        run, t := HolderErred(chunk, s, h);
      }
    }
  }

  lemma HolderErred(chunk: seq<byte>, s: State, h: nat) returns (run: seq<Action>, t: nat)
    requires s.lock == Some(h) && h in s.pcs && s.pcs[h].Checking? && s.err && s.data.None?
    ensures IsRun(chunk, s, run) && NoFailures(run) && Stuck(After(chunk, s, run), t)
  {
    if s.fetching {
      run, t := [], h;
    } else {
      run, t := FreeAndErred(chunk, Next(chunk, s, h, Check));
      run := Prepend(chunk, s, h, Check, run);
    }
  }

  /** A failed download not yet recorded: the lock comes free, the error is recorded. */
  lemma FailedGetsStuck(chunk: seq<byte>, s: State, u: nat) returns (run: seq<Action>, t: nat)
    requires Inv(chunk, s) && s.data.None? && !s.err && u in s.pcs && s.pcs[u].DownloadFailed?
    ensures IsRun(chunk, s, run) && NoFailures(run) && Stuck(After(chunk, s, run), t)
  {
    if s.lock.None? {
      run, t := FreeAndErred(chunk, Next(chunk, s, u, Record));
      run := Prepend(chunk, s, u, Record, run);
    } else {
      var h := s.lock.value;
      var step := if s.pcs[h].Woken? then Recheck else Check;
      var s1 := Next(chunk, s, h, step);
      run, t := FreeAndErred(chunk, Next(chunk, s1, u, Record));
      run := Prepend(chunk, s1, u, Record, run);
      run := Prepend(chunk, s, h, step, run);
    }
  }

  ghost predicate GetsStuck(chunk: seq<byte>, s: State, run: seq<Action>) {
    IsRun(chunk, s, run) && exists t :: Stuck(After(chunk, s, run), t)
  }

  lemma TaintedGetsStuck(chunk: seq<byte>, s: State) returns (run: seq<Action>)
    requires Inv(chunk, s) && Tainted(s)
    ensures NoFailures(run) && GetsStuck(chunk, s, run)
  {
    var t;
    if s.err {
      run, t := ErredGetsStuck(chunk, s);
    } else {
      var u :| u in s.pcs && s.pcs[u].DownloadFailed?;
      run, t := FailedGetsStuck(chunk, s, u);
    }
  }

  /**
   Exactly when a waiter can come to hold the lock for good without a further failed
   download: the chunk is empty and an error is recorded or about to be.
   */
  lemma StuckExactly(chunk: seq<byte>, s: State)
    requires Inv(chunk, s)
    ensures (exists run :: NoFailures(run) && GetsStuck(chunk, s, run)) <==> Tainted(s)
  {
    if Tainted(s) {
      var run := TaintedGetsStuck(chunk, s);
    } else {
      forall run | NoFailures(run)
        ensures !GetsStuck(chunk, s, run)
      {
        if IsRun(chunk, s, run) {
          UntaintedStays(chunk, s, run);
        }
      }
    }
  }

  /** With failing downloads allowed it can be reached from the start for every empty chunk, by one failure. */
  lemma StuckReachable(chunk: seq<byte>, s: State)
    requires Initial(chunk, s)
    ensures (exists run :: GetsStuck(chunk, s, run)) <==> s.data.None?
  {
    InitialInv(chunk, s);
    if s.data.None? {
      var s1 := Next(chunk, s, 0, Call);
      var s2 := Next(chunk, s1, 0, Lock);
      var s3 := Next(chunk, s2, 0, Check);
      var s4 := Next(chunk, s3, 0, Download(false));
      var s5 := Next(chunk, s4, 0, Record);
      var run, t := FreeAndErred(chunk, s5);
      run := Prepend(chunk, s4, 0, Record, run);
      run := Prepend(chunk, s3, 0, Download(false), run);
      run := Prepend(chunk, s2, 0, Check, run);
      run := Prepend(chunk, s1, 0, Lock, run);
      run := Prepend(chunk, s, 0, Call, run);
      assert GetsStuck(chunk, s, run);
    } else {
      forall run
        ensures !GetsStuck(chunk, s, run)
      {
        if IsRun(chunk, s, run) {
          WriteOnce(chunk, s, run);
        }
      }
    }
  }

  lemma Prepend(chunk: seq<byte>, s: State, t: nat, step: Step, run: seq<Action>) returns (longer: seq<Action>)
    requires Enabled(s, t, step) && IsRun(chunk, Next(chunk, s, t, step), run)
    ensures IsRun(chunk, s, longer)
    ensures NoFailures(run) && step != Download(false) ==> NoFailures(longer)
    ensures After(chunk, s, longer) == After(chunk, Next(chunk, s, t, step), run)
    ensures |longer| == |run| + 1
  {
    longer := [(t, step)] + run;
    assert longer[1..] == run;
  }
}
