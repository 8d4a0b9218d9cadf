/** The RouterOS connection pool as an interleaving of many RunArgs calls and one keepalive worker.
    Every action is one critical section, one dial, or one communication. */
module ConnectionPool {
  import opened Options

  type Conn = nat
  type Token = nat

  /** One use of a connection, by a RunArgs call or by a keepalive round.
      Dialing: nothing was pooled.  Launched: the command runs, its user is not yet waiting.
      Answered: the completion arrived.  Discarding: it timed out or failed. */
  datatype Phase =
    | Dialing
    | Held(c: Conn)
    | Launched(c: Conn)
    | Waiting(c: Conn)
    | Answered(c: Conn)
    | Discarding(c: Conn)
    | Returned

  /** count is the number of connections the worker reckons with. */
  datatype Keeper =
    | Picking
    | Round(t: Token, count: nat)
    | Redialling
    | Sleeping(count: nat)

  /** cs: the pooled list.  users: all uses so far.  running: commands in flight.  closed: the Close
      calls so far.  orphans: connections dialled by the keepalive worker.  dialled: the number of
      connections so far. */
  datatype Pool = Pool(cs: seq<Conn>, users: map<Token, Phase>, keeper: Keeper,
                       running: map<Token, Conn>, closed: seq<Conn>, orphans: seq<Conn>,
                       dialled: nat, tokens: nat)

  const INITIAL := Pool([], map[], Picking, map[], [], [], 0, 0)

  datatype Action =
    | Call                            // RunArgs starts: Get takes the first pooled connection
    | Dialled(t: Token, ok: bool)     // Get ends with makeConnection
    | Launch(t: Token)                // the command starts in its own goroutine
    | Enter(t: Token)                 // its user enters the select
    | Finish(t: Token, reply: bool)   // the command ends; its signal is lost unless the user waits
    | Expire(t: Token)                // five seconds have passed in the select
    | Put(t: Token)                   // RunArgs appends the connection
    | Close(t: Token)                 // RunArgs closes the connection
    | Pick                            // the keepalive worker takes the last pooled connection
    | ChannelClosed                   // the worker reads nil from its closed channel
    | PushFront                       // the worker puts the connection back in front
    | Discard                         // the worker closes the connection
    | Redial(ok: bool)                // the worker's count is 0: it dials
    | Wake                            // the worker has slept

  function PhaseOf(s: Pool, t: Token): Phase {
    if t in s.users then s.users[t] else Returned
  }

  predicate IsKeeper(s: Pool, t: Token) {
    s.keeper.Round? && s.keeper.t == t
  }

  predicate Enabled(s: Pool, a: Action) {
    match a
    case Call => true
    case Dialled(t, _) => PhaseOf(s, t).Dialing?
    case Launch(t) => PhaseOf(s, t).Held?
    case Enter(t) => PhaseOf(s, t).Launched?
    case Finish(t, _) => t in s.running
    case Expire(t) => PhaseOf(s, t).Waiting?
    case Put(t) => PhaseOf(s, t).Answered? && !IsKeeper(s, t)
    case Close(t) => PhaseOf(s, t).Discarding? && !IsKeeper(s, t)
    case Pick => s.keeper.Picking?
    case ChannelClosed =>
      s.keeper.Round? && PhaseOf(s, s.keeper.t).Waiting? && s.keeper.t !in s.running
    case PushFront => s.keeper.Round? && PhaseOf(s, s.keeper.t).Answered?
    case Discard => s.keeper.Round? && PhaseOf(s, s.keeper.t).Discarding?
    case Redial(_) => s.keeper.Redialling?
    case Wake => s.keeper.Sleeping?
  }

  function Move(s: Pool, t: Token, p: Phase): Pool {
    s.(users := s.users[t := p])
  }

  function AfterCount(count: nat): Keeper {
    if count == 0 then Redialling else Sleeping(count)
  }

  function Step(s: Pool, a: Action): Pool
    requires Enabled(s, a)
  {
    match a
    case Call =>
      if |s.cs| > 0 then Move(s, s.tokens, Held(s.cs[0])).(cs := s.cs[1..], tokens := s.tokens + 1)
      else Move(s, s.tokens, Dialing).(tokens := s.tokens + 1)
    case Dialled(t, ok) =>
      if ok then Move(s, t, Held(s.dialled)).(dialled := s.dialled + 1) else Move(s, t, Returned)
    case Launch(t) =>
      var c := s.users[t].c;
      Move(s, t, Launched(c)).(running := s.running[t := c])
    case Enter(t) => Move(s, t, Waiting(s.users[t].c))
    case Finish(t, reply) =>
      var r := s.(running := s.running - {t});
      if !PhaseOf(s, t).Waiting? then r
      else if IsKeeper(s, t) && !reply then Move(r, t, Discarding(s.users[t].c))
      else Move(r, t, Answered(s.users[t].c))
    case Expire(t) => Move(s, t, Discarding(s.users[t].c))
    case Put(t) => Move(s, t, Returned).(cs := s.cs + [s.users[t].c])
    case Close(t) => Move(s, t, Returned).(closed := s.closed + [s.users[t].c])
    case Pick =>
      var n := |s.cs|;
      if n == 0 then s.(keeper := Redialling)
      else Move(s, s.tokens, Held(s.cs[n - 1])).(cs := s.cs[..n - 1], tokens := s.tokens + 1,
                                                 keeper := Round(s.tokens, n))
    case ChannelClosed => Move(s, s.keeper.t, Discarding(s.users[s.keeper.t].c))
    case PushFront =>
      Move(s, s.keeper.t, Returned).(cs := [s.users[s.keeper.t].c] + s.cs, keeper := Sleeping(s.keeper.count))
    case Discard =>
      Move(s, s.keeper.t, Returned).(closed := s.closed + [s.users[s.keeper.t].c],
                                     keeper := AfterCount(if s.keeper.count > 0 then s.keeper.count - 1 else 0))
    case Redial(ok) =>
      if ok then s.(keeper := Sleeping(1), orphans := s.orphans + [s.dialled], dialled := s.dialled + 1)
      else s.(keeper := Sleeping(1))
    case Wake => s.(keeper := Picking)
  }

  // ---------------------------------------------------------------- the invariant

  predicate NoDup(s: seq<Conn>) {
    forall i, j :: 0 <= i < j < |s| ==> s[i] != s[j]
  }

  function Using(p: Phase): Option<Conn> {
    match p
    case Dialing => None
    case Returned => None
    case Held(c) => Some(c)
    case Launched(c) => Some(c)
    case Waiting(c) => Some(c)
    case Answered(c) => Some(c)
    case Discarding(c) => Some(c)
  }

  predicate Holds(s: Pool, t: Token, c: Conn) {
    t in s.users && Using(s.users[t]) == Some(c)
  }

  /** No list names a connection twice, and no two lists share one. */
  predicate ListsDisjoint(s: Pool) {
    && NoDup(s.cs) && NoDup(s.closed) && NoDup(s.orphans)
    && (forall c :: c in s.cs ==> c < s.dialled && c !in s.closed && c !in s.orphans)
    && (forall c :: c in s.closed ==> c < s.dialled && c !in s.orphans)
    && (forall c :: c in s.orphans ==> c < s.dialled)
  }

  /** A connection in use is on no list and has one user. */
  ghost predicate HeldOnce(s: Pool) {
    && (forall t: Token, c: Conn :: Holds(s, t, c) ==> c < s.dialled && c !in s.cs && c !in s.closed && c !in s.orphans)
    && (forall t: Token, t': Token, c: Conn :: Holds(s, t, c) && Holds(s, t', c) ==> t == t')
  }

  predicate MayRun(p: Phase) {
    p.Launched? || p.Waiting? || p.Discarding?
  }

  predicate RunsWell(s: Pool, t: Token)
    requires t in s.running
  {
    || (s.running[t] in s.closed && PhaseOf(s, t).Returned?)
    || (Holds(s, t, s.running[t]) && MayRun(s.users[t]))
  }

  /** A command in flight runs on its user's connection, or on a closed one, and alone. */
  ghost predicate RunningWell(s: Pool) {
    && (forall t :: t in s.running ==> RunsWell(s, t))
    && (forall t, t' :: t in s.running && t' in s.running && s.running[t] == s.running[t'] ==> t == t')
  }

  predicate KeeperWell(s: Pool) {
    && (forall t :: t in s.users ==> t < s.tokens)
    && (forall t :: t in s.running ==> t < s.tokens)
    && (s.keeper.Round? ==> s.keeper.count >= 1 && s.keeper.t in s.users && Using(s.users[s.keeper.t]).Some?)
    && (s.keeper.Sleeping? ==> s.keeper.count >= 1)
  }

  ghost predicate Accounted(s: Pool, c: Conn) {
    c in s.cs || c in s.closed || c in s.orphans || exists t :: Holds(s, t, c)
  }

  ghost predicate AllAccounted(s: Pool) {
    forall c: Conn :: c < s.dialled ==> Accounted(s, c)
  }

  ghost predicate Inv(s: Pool) {
    ListsDisjoint(s) && HeldOnce(s) && RunningWell(s) && KeeperWell(s) && AllAccounted(s)
  }

  /** The user an action is about, and the connection it gives back, if any. */
  function Mover(s: Pool, a: Action): Option<Token> {
    match a
    case Put(t) => Some(t)
    case Close(t) => Some(t)
    case Launch(t) => Some(t)
    case Enter(t) => Some(t)
    case Expire(t) => Some(t)
    case Finish(t, _) => Some(t)
    case ChannelClosed => if s.keeper.Round? then Some(s.keeper.t) else None
    case PushFront => if s.keeper.Round? then Some(s.keeper.t) else None
    case Discard => if s.keeper.Round? then Some(s.keeper.t) else None
    case _ => None
  }

  lemma UserHolds(s: Pool, a: Action)
    requires Enabled(s, a)
    ensures Mover(s, a).Some? && Using(PhaseOf(s, Mover(s, a).value)).Some? ==>
              var t := Mover(s, a).value; Holds(s, t, Using(PhaseOf(s, t)).value)
  {
  }

  lemma TakenLists(s: Pool)
    requires NoDup(s.cs)
    ensures |s.cs| > 0 ==>
              var n := |s.cs| - 1;
              && s.cs[0] in s.cs && s.cs[0] !in s.cs[1..] && NoDup(s.cs[1..])
              && s.cs[n] in s.cs && s.cs[n] !in s.cs[..n] && NoDup(s.cs[..n])
              && (forall c :: c in s.cs[1..] ==> c in s.cs)
              && (forall c :: c in s.cs[..n] ==> c in s.cs)
  {
  }

  /** The connection that the action gives back, with the list it goes to unchanged so far. */
  lemma GivenBack(s: Pool, a: Action)
    requires HeldOnce(s) && Enabled(s, a) && Mover(s, a).Some?
    requires a.Put? || a.Close? || a.PushFront? || a.Discard?
    ensures var t := Mover(s, a).value;
            && t in s.users && Using(s.users[t]).Some?
            && var c := Using(s.users[t]).value;
               c < s.dialled && c !in s.cs && c !in s.closed && c !in s.orphans
  {
    UserHolds(s, a);
  }

  lemma StepLists(s: Pool, a: Action)
    requires Inv(s) && Enabled(s, a)
    ensures ListsDisjoint(Step(s, a))
  {
    hide HeldOnce, RunningWell, AllAccounted;
    match a
    case Call => TakenLists(s);
    case Pick => TakenLists(s);
    case Put(t) =>
      GivenBack(s, a);
      Added(s.cs, s.users[t].c);
    case PushFront =>
      GivenBack(s, a);
      Added(s.cs, s.users[s.keeper.t].c);
    case Close(t) =>
      GivenBack(s, a);
      Added(s.closed, s.users[t].c);
    case Discard =>
      GivenBack(s, a);
      Added(s.closed, s.users[s.keeper.t].c);
    case Redial(ok) =>
      Added(s.orphans, s.dialled);
    case _ =>
  }

  lemma Added(l: seq<Conn>, c: Conn)
    requires NoDup(l) && c !in l
    ensures NoDup(l + [c]) && NoDup([c] + l)
    ensures forall x :: x in l + [c] <==> x in l || x == c
    ensures forall x :: x in [c] + l <==> x in l || x == c
  {
    forall i, j | 0 <= i < j < |l| + 1 ensures (l + [c])[i] != (l + [c])[j] {
      assert l[i] in l;
    }
    forall i, j | 0 <= i < j < |l| + 1 ensures ([c] + l)[i] != ([c] + l)[j] {
      assert l[j - 1] in l;
    }
  }

  /** The action gives connection c to user t. */
  predicate Gives(s: Pool, a: Action, t: Token, c: Conn) {
    match a
    case Call => |s.cs| > 0 && t == s.tokens && c == s.cs[0]
    case Dialled(u, ok) => ok && t == u && c == s.dialled
    case Pick => |s.cs| > 0 && t == s.tokens && c == s.cs[|s.cs| - 1]
    case _ => false
  }

  lemma HoldsBefore(s: Pool, a: Action, t: Token, c: Conn)
    requires Enabled(s, a) && Holds(Step(s, a), t, c)
    ensures Holds(s, t, c) || Gives(s, a, t, c)
  {
  }

  lemma StepHeld(s: Pool, a: Action)
    requires Inv(s) && Enabled(s, a)
    ensures HeldOnce(Step(s, a))
  {
    var r := Step(s, a);
    forall t: Token, c: Conn | Holds(r, t, c)
      ensures c < r.dialled && c !in r.cs && c !in r.closed && c !in r.orphans
    {
      HoldsBefore(s, a, t, c);
      NotOnLists(s, a, t, c);
    }
    forall t: Token, t': Token, c: Conn | Holds(r, t, c) && Holds(r, t', c) ensures t == t' {
      HoldsBefore(s, a, t, c);
      HoldsBefore(s, a, t', c);
      TakenLists(s);
    }
  }

  lemma NotOnLists(s: Pool, a: Action, t: Token, c: Conn)
    requires Inv(s) && Enabled(s, a) && Holds(Step(s, a), t, c)
    requires Holds(s, t, c) || Gives(s, a, t, c)
    ensures var r := Step(s, a);
            c < r.dialled && c !in r.cs && c !in r.closed && c !in r.orphans
  {
    TakenLists(s);
    UserHolds(s, a);
  }

  lemma StepRuns(s: Pool, a: Action, t: Token)
    requires Inv(s) && Enabled(s, a) && t in Step(s, a).running
    ensures RunsWell(Step(s, a), t)
  {
    UserHolds(s, a);
    assert t in s.running ==> RunsWell(s, t);
    match a
    case Call =>
    case Dialled(u, ok) =>
    case Launch(u) =>
    case Enter(u) =>
    case Finish(u, reply) =>
    case Expire(u) =>
    case Put(u) =>
    case Close(u) =>
    case Pick =>
    case ChannelClosed =>
    case PushFront =>
    case Discard =>
    case Redial(ok) =>
    case Wake =>
  }

  lemma StepRunning(s: Pool, a: Action)
    requires Inv(s) && Enabled(s, a)
    ensures RunningWell(Step(s, a))
  {
    UserHolds(s, a);
    var r := Step(s, a);
    forall t | t in r.running ensures RunsWell(r, t) {
      StepRuns(s, a, t);
    }
    if a.Launch? {
      forall u | u in s.running && s.running[u] == s.users[a.t].c ensures u == a.t {
        assert RunsWell(s, u);
      }
    }
  }

  lemma StepKeeper(s: Pool, a: Action)
    requires Inv(s) && Enabled(s, a)
    ensures KeeperWell(Step(s, a))
  {
    UserHolds(s, a);
    var r := Step(s, a);
    match a
    case Call =>
    case Dialled(t, ok) =>
    case Launch(t) =>
    case Enter(t) =>
    case Finish(t, reply) =>
    case Expire(t) =>
    case Put(t) =>
    case Close(t) =>
    case Pick =>
    case ChannelClosed =>
    case PushFront =>
    case Discard =>
    case Redial(ok) =>
    case Wake =>
  }

  lemma StepAccounted(s: Pool, a: Action)
    requires Inv(s) && Enabled(s, a)
    ensures AllAccounted(Step(s, a))
  {
    var r := Step(s, a);
    forall c: Conn | c < r.dialled ensures Accounted(r, c) {
      if c < s.dialled {
        assert Accounted(s, c);
        StepAccounts(s, a, c);
      } else if a.Dialled? {
        assert Holds(r, a.t, c);
      }
    }
  }

  lemma StepAccounts(s: Pool, a: Action, c: Conn)
    requires Inv(s) && Enabled(s, a) && Accounted(s, c)
    ensures Accounted(Step(s, a), c)
  {
    var r := Step(s, a);
    if t: Token :| Holds(s, t, c) {
      if !Holds(r, t, c) {
        assert c in r.cs || c in r.closed;
      }
    } else if c in s.cs && c !in r.cs {
      assert Holds(r, s.tokens, c);
    }
  }

  lemma InvInitially()
    ensures Inv(INITIAL)
  {
  }

  // ---------------------------------------------------------------- every interleaving

  /** The state after the actions; None when one of them was not possible. */
  function Run(s: Pool, actions: seq<Action>): Option<Pool>
    decreases |actions|
  {
    if actions == [] then Some(s)
    else if !Enabled(s, actions[0]) then None
    else Run(Step(s, actions[0]), actions[1..])
  }

  lemma StepKeepsInv(s: Pool, a: Action)
    requires Inv(s) && Enabled(s, a)
    ensures Inv(Step(s, a))
  {
    hide Step;
    StepLists(s, a);
    StepHeld(s, a);
    StepRunning(s, a);
    StepKeeper(s, a);
    StepAccounted(s, a);
  }

  lemma {:induction false} RunKeepsInv(s: Pool, actions: seq<Action>)
    requires Inv(s) && Run(s, actions).Some?
    ensures Inv(Run(s, actions).value)
    decreases |actions|
  {
    if actions != [] {
      StepKeepsInv(s, actions[0]);
      RunKeepsInv(Step(s, actions[0]), actions[1..]);
    }
  }

  /** Ownership is exclusive in every interleaving: the pooled list has no duplicates, a pooled
      connection is neither in use nor closed and no command runs on it, no connection is in use
      twice or closed twice, and no two commands share a connection. */
  lemma OwnershipIsExclusive(actions: seq<Action>)
    requires Run(INITIAL, actions).Some?
    ensures var s := Run(INITIAL, actions).value;
            && NoDup(s.cs) && NoDup(s.closed)
            && (forall c :: c in s.cs ==> c !in s.closed)
            && (forall t: Token, c: Conn :: Holds(s, t, c) ==> c !in s.cs && c !in s.closed)
            && (forall t: Token, t': Token, c: Conn :: Holds(s, t, c) && Holds(s, t', c) ==> t == t')
            && (forall t :: t in s.running ==> s.running[t] !in s.cs)
            && (forall t, t' :: t in s.running && t' in s.running && s.running[t] == s.running[t'] ==> t == t')
  {
    InvInitially();
    RunKeepsInv(INITIAL, actions);
    var s := Run(INITIAL, actions).value;
    forall t | t in s.running ensures s.running[t] !in s.cs {
      assert RunsWell(s, t);
    }
  }

  ghost function One(b: bool): nat {
    if b then 1 else 0
  }

  /** Connections are conserved: each one ever dialled is in exactly one of four places: pooled, in
      use, closed, or dialled by the keepalive worker, which never pools what it dials. */
  lemma ConnectionsAreConserved(actions: seq<Action>, c: Conn)
    requires Run(INITIAL, actions).Some?
    ensures var s := Run(INITIAL, actions).value;
            One(c in s.cs) + One(c in s.closed) + One(c in s.orphans) + One(exists t :: Holds(s, t, c))
            == One(c < s.dialled)
  {
    InvInitially();
    RunKeepsInv(INITIAL, actions);
    var s := Run(INITIAL, actions).value;
    if c < s.dialled {
      assert Accounted(s, c);
    }
  }

  /** The keepalive worker never divides its sleep by zero. */
  lemma SleepDivisorIsPositive(actions: seq<Action>)
    requires Run(INITIAL, actions).Some?
    ensures Run(INITIAL, actions).value.keeper.Sleeping? ==> Run(INITIAL, actions).value.keeper.count >= 1
  {
    InvInitially();
    RunKeepsInv(INITIAL, actions);
  }

  predicate NoPick(acts: seq<Action>) {
    forall i :: 0 <= i < |acts| ==> !acts[i].Pick?
  }

  lemma StepReckons(s: Pool, a: Action)
    requires Enabled(s, a) && !a.Pick?
    ensures var k := Step(s, a).keeper;
            match s.keeper
            case Round(t, n) =>
              if a.PushFront? then k == Sleeping(n)
              else if a.Discard? then (if n > 1 then k == Sleeping(n - 1) else k == Redialling)
              else k == s.keeper
            case Redialling => if a.Redial? then k == Sleeping(1) else k == Redialling
            case Sleeping(c) => k == s.keeper || k.Picking?
            case Picking => k.Picking?
  {
  }

  /** Whatever else happens, from one pick to the next the worker divides its ten seconds of sleep by
      the connections it reckons with: those it counted when it picked, one less if it threw
      its own away, and never less than one. */
  lemma {:induction false} SleepReckons(s: Pool, acts: seq<Action>)
    requires Run(s, acts).Some? && NoPick(acts) && Run(s, acts).value.keeper.Sleeping?
    ensures var c := Run(s, acts).value.keeper.count;
            match s.keeper
            case Round(t, n) => if PushFront in acts then c == n else c == if n > 1 then n - 1 else 1
            case Redialling => c == 1
            case Sleeping(n) => c == n
            case Picking => false
    ensures s.keeper.Redialling? || s.keeper.Sleeping? || s.keeper.Picking? ==> PushFront !in acts
    decreases |acts|
  {
    hide Step, Enabled;
    if acts != [] {
      var a := acts[0];
      OnlyInRounds(s, a);
      StepReckons(s, a);
      SleepReckons(Step(s, a), acts[1..]);
      assert acts == [a] + acts[1..];
    }
  }

  lemma OnlyInRounds(s: Pool, a: Action)
    requires Enabled(s, a)
    ensures a.PushFront? || a.Discard? ==> s.keeper.Round?
  {
  }

  /** A user whose completion signal was lost can only time out: until it does, no action moves it,
      so its connection does not go back to the pool. */
  lemma LostSignalMeansTimeout(s: Pool, t: Token, a: Action)
    requires Inv(s) && PhaseOf(s, t).Waiting? && t !in s.running && !IsKeeper(s, t)
    requires Enabled(s, a)
    ensures if a == Expire(t) then PhaseOf(Step(s, a), t).Discarding?
            else PhaseOf(Step(s, a), t) == PhaseOf(s, t) && t !in Step(s, a).running
                 && !IsKeeper(Step(s, a), t)
  {
    assert t in s.users && t < s.tokens;
    match a
    case Call =>
    case Finish(u, _) => assert u != t;
    case Pick =>
    case _ =>
  }

  /** The signal is lost exactly when the command ends before its user waits. */
  lemma SignalArrivesExactly(s: Pool, t: Token, reply: bool)
    requires Inv(s) && t in s.running && !IsKeeper(s, t)
    ensures PhaseOf(Step(s, Finish(t, reply)), t).Answered? <==> PhaseOf(s, t).Waiting?
  {
    assert RunsWell(s, t);
  }

  // ---------------------------------------------------------------- undisturbed calls and rounds

  /** What an undisturbed RunArgs on a pooled connection does to the list: the oldest connection goes
      to the end, or is gone when its completion does not arrive in time. */
  function CallEffect(cs: seq<Conn>, signalled: bool): seq<Conn> {
    if cs == [] then [] else cs[1..] + if signalled then [cs[0]] else []
  }

  /** What an undisturbed round does to the pooled list. */
  function RoundEffect(cs: seq<Conn>, answered: bool): seq<Conn> {
    var n := |cs|;
    if n == 0 then cs
    else if answered then [cs[n - 1]] + cs[..n - 1]
    else cs[..n - 1]
  }

  lemma {:induction false} RunAppend(s: Pool, a: seq<Action>, b: seq<Action>)
    requires Run(s, a).Some?
    ensures Run(s, a + b) == Run(Run(s, a).value, b)
    decreases |a|
  {
    if a == [] {
      assert a + b == b;
    } else {
      assert (a + b)[1..] == a[1..] + b;
      RunAppend(Step(s, a[0]), a[1..], b);
    }
  }
}
