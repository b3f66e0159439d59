/**
 Logging in over the local network (zeroconf/zeroconf.go): any number of handlers of
 addUser requests run at once, each claims the one login slot under a lock, hands its
 request to the serving loop, waits for the verdict, and releases the slot under the
 lock again.
 */
module Zeroconf {

  /** Where a handler is.  A user name is never empty: handleAddUser refuses that first. */
  datatype Phase =
    | Arrived                  // checks passed, before the first locked section
    | Claimed                  // has set authenticatingUser, request not yet taken
    | Dispatched               // the serving loop is deciding
    | Decided(accepted: bool)  // the verdict has arrived, before the second locked section
    | Replied(status: Status)

  datatype Status = AlreadyKnown | Busy | Refused | Accepted

  type Username = s: string | s != "" witness "u"

  datatype Handler = Handler(user: Username, phase: Phase)

  datatype State = State(
    authenticatingUser: string, currentUser: string,
    handlers: map<nat, Handler>,
    accepted: set<string>)    // users for whom the serving loop has ever said yes

  datatype Step =
    | Arrive(h: nat, user: Username)
    | Claim(h: nat)
    | Dispatch(h: nat)
    | Decide(h: nat, verdict: bool)
    | Release(h: nat)
    | SetCurrentUser(name: string)

  predicate At(s: State, h: nat, phase: Phase) {
    h in s.handlers && s.handlers[h].phase == phase
  }

  predicate Enabled(s: State, step: Step) {
    match step
    case Arrive(h, _) => h !in s.handlers
    case Claim(h) => At(s, h, Arrived)
    case Dispatch(h) => At(s, h, Claimed)
    case Decide(h, _) => At(s, h, Dispatched)
    case Release(h) => h in s.handlers && s.handlers[h].phase.Decided?
    case SetCurrentUser(_) => true
  }

  function Goto(s: State, h: nat, phase: Phase): State
    requires h in s.handlers
  {
    s.(handlers := s.handlers[h := s.handlers[h].(phase := phase)])
  }

  /** The first locked section: the login slot afterwards, and where the handler goes. */
  function FirstSection(authenticating: string, current: string, user: Username): (string, Phase) {
    if current == user || authenticating == user then (authenticating, Replied(AlreadyKnown))
    else if authenticating != "" then (authenticating, Replied(Busy))
    else (user, Claimed)
  }

  /** The second locked section, which always empties the slot: the current user afterwards, and the reply. */
  function SecondSection(current: string, user: Username, verdict: bool): (string, Phase) {
    if verdict then (user, Replied(Accepted)) else (current, Replied(Refused))
  }

  function Next(s: State, step: Step): State
    requires Enabled(s, step)
  {
    match step
    case Arrive(h, user) => s.(handlers := s.handlers[h := Handler(user, Arrived)])
    case Claim(h) =>
      var (auth, phase) := FirstSection(s.authenticatingUser, s.currentUser, s.handlers[h].user);
      Goto(s.(authenticatingUser := auth), h, phase)
    case Dispatch(h) => Goto(s, h, Dispatched)
    case Decide(h, verdict) =>
      Goto(s.(accepted := if verdict then s.accepted + {s.handlers[h].user} else s.accepted), h, Decided(verdict))
    case Release(h) =>
      var (user, phase) := SecondSection(s.currentUser, s.handlers[h].user, s.handlers[h].phase.accepted);
      Goto(s.(authenticatingUser := "", currentUser := user), h, phase)
    case SetCurrentUser(name) => s.(currentUser := name)
  }

  predicate InSlot(p: Phase) { p.Claimed? || p.Dispatched? || p.Decided? }

  /** At most one handler is between claim and release, and the slot bears that handler's user. */
  ghost predicate OneInSlot(s: State) {
    && (forall g, h :: g in s.handlers && h in s.handlers && InSlot(s.handlers[g].phase) && InSlot(s.handlers[h].phase)
                       ==> g == h)
    && (forall h :: h in s.handlers && InSlot(s.handlers[h].phase) ==> s.authenticatingUser == s.handlers[h].user)
  }

  /** The slot is not taken without a handler in it. */
  ghost predicate NobodyLocksOut(s: State) {
    s.authenticatingUser != "" ==> exists h :: h in s.handlers && InSlot(s.handlers[h].phase)
  }

  /** A positive verdict is on record. */
  ghost predicate OnRecord(s: State) {
    forall h :: h in s.handlers && s.handlers[h].phase == Decided(true) ==> s.handlers[h].user in s.accepted
  }

  ghost predicate Inv(s: State) {
    OneInSlot(s) && NobodyLocksOut(s) && OnRecord(s)
  }

  lemma NextInv(s: State, step: Step)
    requires Inv(s) && Enabled(s, step)
    ensures Inv(Next(s, step))
  {
    NextOneInSlot(s, step);
    NextNobodyLocksOut(s, step);
    NextOnRecord(s, step);
  }

  lemma NextOneInSlot(s: State, step: Step)
    requires Inv(s) && Enabled(s, step)
    ensures OneInSlot(Next(s, step))
  {
  }

  lemma NextOnRecord(s: State, step: Step)
    requires Inv(s) && Enabled(s, step)
    ensures OnRecord(Next(s, step))
  {
  }

  lemma NextNobodyLocksOut(s: State, step: Step)
    requires Inv(s) && Enabled(s, step)
    ensures NobodyLocksOut(Next(s, step))
  {
    var s' := Next(s, step);
    if s'.authenticatingUser == "" {
    } else if s.authenticatingUser == "" {
      assert step.Claim? && InSlot(s'.handlers[step.h].phase);
    } else {
      var h :| h in s.handlers && InSlot(s.handlers[h].phase);
      assert h in s'.handlers && InSlot(s'.handlers[h].phase);
    }
  }

  // ----- who gets in

  /** Some handler is between claim and release. */
  ghost predicate Occupied(s: State) { exists g :: g in s.handlers && InSlot(s.handlers[g].phase) }

  /** Some handler for this very user is. */
  ghost predicate LoggingIn(s: State, user: string) {
    exists g :: g in s.handlers && InSlot(s.handlers[g].phase) && s.handlers[g].user == user
  }

  /**
   A handler gets into the slot exactly if its user does not hold the session and nobody is
   in the slot.  Else it is told that its user is known, if that user holds the session or is
   just logging in, and otherwise that the server is busy.
   */
  lemma ClaimExactly(s: State, h: nat)
    requires Inv(s) && At(s, h, Arrived)
    ensures var user, t := s.handlers[h].user, Next(s, Claim(h));
            var phase := t.handlers[h].phase;
            && (InSlot(phase) <==> user != s.currentUser && !Occupied(s))
            && (phase == Replied(AlreadyKnown) <==> user == s.currentUser || LoggingIn(s, user))
            && (phase == Replied(Busy) <==> user != s.currentUser && Occupied(s) && !LoggingIn(s, user))
            && t.currentUser == s.currentUser && t.accepted == s.accepted
            && t.authenticatingUser == if InSlot(phase) then user else s.authenticatingUser
  {
    var user := s.handlers[h].user;
    if s.authenticatingUser == user {
      var g :| g in s.handlers && InSlot(s.handlers[g].phase);
      assert s.handlers[g].user == user;
    }
  }

  /** The verdict decides: an accepted user holds the session from then on, a refused one changes nothing; the slot is free. */
  lemma ReleaseExactly(s: State, h: nat)
    requires Inv(s) && Enabled(s, Release(h))
    ensures var t, yes := Next(s, Release(h)), s.handlers[h].phase == Decided(true);
            && t.currentUser == (if yes then s.handlers[h].user else s.currentUser)
            && t.handlers[h].phase == Replied(if yes then Accepted else Refused)
            && t.authenticatingUser == "" && !Occupied(t)
  {
  }

  /** From the slot on, a login does as the verdict says. */
  lemma ClaimedRuns(s: State, h: nat, verdict: bool)
    requires Inv(s) && At(s, h, Claimed)
    ensures var run := [Dispatch(h), Decide(h, verdict), Release(h)];
            && IsRun(s, run)
            && var e, user := After(s, run), s.handlers[h].user;
               && e.currentUser == (if verdict then user else s.currentUser)
               && h in e.handlers && e.handlers[h] == Handler(user, Replied(if verdict then Accepted else Refused))
               && !Occupied(e) && (verdict ==> user in e.accepted)
  {
    hide Inv, Occupied;
    var s1 := Next(s, Dispatch(h));
    NextInv(s, Dispatch(h));
    var s2 := Next(s1, Decide(h, verdict));
    NextInv(s1, Decide(h, verdict));
    ReleaseExactly(s2, h);
    var run := [Dispatch(h), Decide(h, verdict), Release(h)];
    Unroll(s, run);
    Unroll(s1, run[1..]);
    Unroll(s2, run[1..][1..]);
  }

  /** A server whose slot is free lets in any user but the one that holds the session, and does as the verdict says. */
  lemma LoginRuns(s: State, h: nat, user: Username, verdict: bool)
    requires Inv(s) && !Occupied(s) && h !in s.handlers && user != s.currentUser
    ensures var run := [Arrive(h, user), Claim(h), Dispatch(h), Decide(h, verdict), Release(h)];
            && IsRun(s, run)
            && var e := After(s, run);
               && e.currentUser == (if verdict then user else s.currentUser)
               && h in e.handlers && e.handlers[h] == Handler(user, Replied(if verdict then Accepted else Refused))
               && !Occupied(e) && (verdict ==> user in e.accepted)
  {
    hide Inv;
    var s1 := Next(s, Arrive(h, user));
    NextInv(s, Arrive(h, user));
    assert forall g :: g in s1.handlers && g != h ==> g in s.handlers && s1.handlers[g] == s.handlers[g];
    ClaimExactly(s1, h);
    var s2 := Next(s1, Claim(h));
    NextInv(s1, Claim(h));
    ClaimedRuns(s2, h, verdict);
    var run := [Arrive(h, user), Claim(h), Dispatch(h), Decide(h, verdict), Release(h)];
    Unroll(s, run);
    Unroll(s1, run[1..]);
    assert run[1..][1..] == [Dispatch(h), Decide(h, verdict), Release(h)];
  }

  lemma Unroll(s: State, run: seq<Step>)
    requires run != [] && Enabled(s, run[0])
    ensures IsRun(s, run) <==> IsRun(Next(s, run[0]), run[1..])
    ensures IsRun(s, run) ==> After(s, run) == After(Next(s, run[0]), run[1..])
  {
  }

  // ----- runs

  predicate IsRun(s: State, run: seq<Step>)
    decreases |run|
  {
    run == [] || (Enabled(s, run[0]) && IsRun(Next(s, run[0]), run[1..]))
  }

  function After(s: State, run: seq<Step>): State
    requires IsRun(s, run)
    decreases |run|
  {
    if run == [] then s else After(Next(s, run[0]), run[1..])
  }

  lemma {:induction false} RunInv(s: State, run: seq<Step>)
    requires Inv(s) && IsRun(s, run)
    ensures Inv(After(s, run))
    decreases |run|
  {
    if run != [] {
      NextInv(s, run[0]);
      RunInv(Next(s, run[0]), run[1..]);
    }
  }

  const IDLE := State("", "", map[], {})

  /** Over all interleavings: one login at a time, and the slot names its user exactly while it lasts. */
  lemma OneLoginAtATime(run: seq<Step>, g: nat, h: nat)
    requires IsRun(IDLE, run)
    ensures var s := After(IDLE, run);
            && (g in s.handlers && h in s.handlers && InSlot(s.handlers[g].phase) && InSlot(s.handlers[h].phase) ==> g == h)
            && (h in s.handlers && InSlot(s.handlers[h].phase) ==> s.authenticatingUser == s.handlers[h].user != "")
            && (s.authenticatingUser != "" <==> exists k :: k in s.handlers && InSlot(s.handlers[k].phase))
  {
    RunInv(IDLE, run);
  }

  /** No step of the run sets the current user from outside. */
  predicate Untouched(run: seq<Step>) {
    forall i :: 0 <= i < |run| ==> !run[i].SetCurrentUser?
  }

  /** Apart from SetCurrentUser, the current user changes only to one the serving loop has accepted. */
  lemma {:induction false} CurrentUserWasAccepted(s: State, run: seq<Step>)
    requires Inv(s) && IsRun(s, run) && Untouched(run)
    ensures var e := After(s, run);
            && s.accepted <= e.accepted
            && (e.currentUser == s.currentUser || e.currentUser in e.accepted)
    decreases |run|
  {
    if run != [] {
      NextInv(s, run[0]);
      CurrentUserWasAccepted(Next(s, run[0]), run[1..]);
    }
  }

  /**
   While a login is under way and has not been released, no other handler gets past the
   first section: whoever had replied has replied, all others wait or are turned away.
   */
  lemma {:induction false} SlotHolderUndisturbed(s: State, run: seq<Step>, h: nat)
    requires Inv(s) && IsRun(s, run) && h in s.handlers && InSlot(s.handlers[h].phase)
    requires forall i :: 0 <= i < |run| ==> run[i] != Release(h)
    ensures var e := After(s, run);
            && h in e.handlers && InSlot(e.handlers[h].phase) && e.handlers[h].user == s.handlers[h].user
            && e.authenticatingUser == s.handlers[h].user
            && forall g :: g in e.handlers && g != h ==>
                 if g in s.handlers && s.handlers[g].phase.Replied? then e.handlers[g] == s.handlers[g]
                 else e.handlers[g].phase in {Arrived, Replied(AlreadyKnown), Replied(Busy)}
    decreases |run|
  {
    if run != [] {
      var t := Next(s, run[0]);
      NextInv(s, run[0]);
      assert h in t.handlers && InSlot(t.handlers[h].phase);
      SlotHolderUndisturbed(t, run[1..], h);
    }
  }

  // ----- the server object

  class Server {
    var authenticatingUser: string
    var currentUser: string

    constructor ()
      ensures authenticatingUser == "" && currentUser == ""
    {
      authenticatingUser, currentUser := "", "";
    }

    /** What handleAddUser does under the lock before dispatching. */
    method BeginAddUser(user: Username) returns (phase: Phase)
      modifies this`authenticatingUser
      ensures (authenticatingUser, phase) == FirstSection(old(authenticatingUser), currentUser, user)
    {
      if currentUser == user || authenticatingUser == user {
        return Replied(AlreadyKnown);
      }
      if authenticatingUser != "" {
        return Replied(Busy);
      }
      authenticatingUser := user;
      return Claimed;
    }

    /** What handleAddUser does under the lock once the verdict is in. */
    method EndAddUser(user: Username, verdict: bool) returns (phase: Phase)
      modifies this
      ensures authenticatingUser == ""
      ensures (currentUser, phase) == SecondSection(old(currentUser), user, verdict)
    {
      if !verdict {
        authenticatingUser := "";
        return Replied(Refused);
      }
      authenticatingUser := "";
      currentUser := user;
      return Replied(Accepted);
    }
  }
}
