/** Every run of the pool in which one user works and nobody else takes, gives back or closes a
    connection: a call, a keepalive round, and a keepalive pass.  Other users may dial, run commands
    and time out meanwhile, and left-over commands may end. */
module Undisturbed {
  import opened Options
  import opened ConnectionPool
  import opened Keepalive

  // ---------------------------------------------------------------- what happened in a run

  /** The completion came while the user waited; with needReply, it brought a reply. */
  predicate Arrives(s: Pool, a: Action, t: Token, needReply: bool) {
    a.Finish? && a.t == t && PhaseOf(s, t).Waiting? && (needReply ==> a.reply)
  }

  predicate Arrived(s: Pool, acts: seq<Action>, t: Token, needReply: bool)
    decreases |acts|
  {
    acts != [] && Enabled(s, acts[0]) &&
    (Arrives(s, acts[0], t, needReply) || Arrived(Step(s, acts[0]), acts[1..], t, needReply))
  }

  predicate Finished(acts: seq<Action>, t: Token)
    decreases |acts|
  {
    acts != [] && ((acts[0].Finish? && acts[0].t == t) || Finished(acts[1..], t))
  }

  predicate Expired(acts: seq<Action>, t: Token)
    decreases |acts|
  {
    acts != [] && (acts[0] == Expire(t) || Expired(acts[1..], t))
  }

  /** Whether a use with these actions ahead will end well. */
  predicate EndsWell(s: Pool, acts: seq<Action>, t: Token, needReply: bool) {
    PhaseOf(s, t).Answered? || (!PhaseOf(s, t).Discarding? && Arrived(s, acts, t, needReply))
  }

  /** The user's command runs or is about to. */
  predicate Commands(s: Pool, t: Token) {
    t in s.running || PhaseOf(s, t).Held?
  }

  // ---------------------------------------------------------------- keepalive rounds

  predicate QuietStep(a: Action) {
    !a.Call? && !a.Put? && !a.Close? && !a.Pick?
  }

  predicate Quiet(acts: seq<Action>) {
    forall i :: 0 <= i < |acts| ==> QuietStep(acts[i])
  }

  lemma StepAfterRound(s: Pool, a: Action, t: Token)
    requires Enabled(s, a) && QuietStep(a) && !s.keeper.Round? && PhaseOf(s, t).Returned?
    ensures var r := Step(s, a);
            && r.cs == s.cs && r.closed == s.closed && !r.keeper.Round? && PhaseOf(r, t).Returned?
            && (t in r.running <==> t in s.running && !(a.Finish? && a.t == t))
  {
  }

  lemma {:induction false} AfterRound(s: Pool, acts: seq<Action>, t: Token)
    requires Run(s, acts).Some? && Quiet(acts) && !s.keeper.Round? && PhaseOf(s, t).Returned?
    ensures var r := Run(s, acts).value;
            r.cs == s.cs && r.closed == s.closed && (t in r.running <==> t in s.running && !Finished(acts, t))
    decreases |acts|
  {
    hide Step, Enabled;
    if acts != [] {
      StepAfterRound(s, acts[0], t);
      AfterRound(Step(s, acts[0]), acts[1..], t);
    }
  }

  predicate InRound(s: Pool, t: Token, c: Conn) {
    IsKeeper(s, t) && Using(PhaseOf(s, t)) == Some(c)
  }

  /** A step inside a round, or its end. */
  lemma StepInRound(s: Pool, a: Action, t: Token, c: Conn)
    requires Inv(s) && Enabled(s, a) && QuietStep(a) && InRound(s, t, c)
    ensures var (r, p) := (Step(s, a), PhaseOf(s, t));
            if a.PushFront? then
              p.Answered? && !r.keeper.Round? && PhaseOf(r, t).Returned?
              && r.cs == [c] + s.cs && r.closed == s.closed && r.running == s.running
            else if a.Discard? then
              p.Discarding? && !r.keeper.Round? && PhaseOf(r, t).Returned?
              && r.cs == s.cs && r.closed == s.closed + [c] && r.running == s.running
            else InRound(r, t, c) && r.cs == s.cs && r.closed == s.closed
  {
    assert t in s.users;
  }

  /** How the phase and the command of the worker's use move inside a round. */
  lemma PhaseInRound(s: Pool, a: Action, t: Token, c: Conn)
    requires Inv(s) && Enabled(s, a) && QuietStep(a) && InRound(s, t, c) && !a.PushFront? && !a.Discard?
    ensures var (p, q) := (PhaseOf(s, t), PhaseOf(Step(s, a), t));
            && (q.Answered? <==> p.Answered? || Arrives(s, a, t, true))
            && (q.Discarding? <==> p.Discarding? || a == Expire(t) || a.ChannelClosed?
                                   || (Arrives(s, a, t, false) && !a.reply))
            && (Commands(Step(s, a), t) <==> Commands(s, t) && !(a.Finish? && a.t == t))
            && (Arrives(s, a, t, true) ==> !p.Answered? && !p.Discarding?)
            && (a.ChannelClosed? ==> !Commands(s, t))
  {
    assert t in s.users;
    assert t in s.running ==> RunsWell(s, t);
  }

  /** From any point of a round to its end. */
  lemma {:induction false} RestOfRound(s: Pool, acts: seq<Action>, t: Token, c: Conn)
    requires Inv(s) && InRound(s, t, c) && Quiet(acts)
    requires Run(s, acts).Some? && !Run(s, acts).value.keeper.Round?
    ensures var (r, ok) := (Run(s, acts).value, EndsWell(s, acts, t, true));
            && r.cs == (if ok then [c] else []) + s.cs
            && r.closed == s.closed + (if ok then [] else [c])
            && (t in r.running <==> Commands(s, t) && !Finished(acts, t))
    ensures Commands(s, t) && !Finished(acts, t) && !PhaseOf(s, t).Discarding? ==> Expired(acts, t)
    decreases |acts|
  {
    hide Step, Enabled, Inv, Arrives, InRound;
    assert acts != [] by { NotOver(s, t, c); }
    var a, rest := acts[0], acts[1..];
    StepInRound(s, a, t, c);
    if a.PushFront? || a.Discard? {
      AfterRound(Step(s, a), rest, t);
      CommandsOutside(s, t);
      AnsweredIsQuiet(s, t);
      assert [] + s.cs == s.cs && s.closed + [] == s.closed;
      ArrivesByFinish(s, a, t);
    } else {
      PhaseInRound(s, a, t, c);
      ArrivesByFinish(s, a, t);
      StepKeepsInv(s, a);
      if PhaseOf(Step(s, a), t).Discarding? {
        InRoundUsed(Step(s, a), t, c);
        NothingArrivesLate(Step(s, a), rest, t, true);
      }
      RestOfRound(Step(s, a), rest, t, c);
    }
  }

  lemma InRoundUsed(s: Pool, t: Token, c: Conn)
    requires Inv(s) && InRound(s, t, c)
    ensures t < s.tokens
  {
    assert t in s.users;
  }

  lemma NotOver(s: Pool, t: Token, c: Conn)
    requires InRound(s, t, c)
    ensures s.keeper.Round?
  {
  }

  lemma CommandsOutside(s: Pool, t: Token)
    ensures !PhaseOf(s, t).Held? ==> (Commands(s, t) <==> t in s.running)
  {
  }

  lemma AnsweredIsQuiet(s: Pool, t: Token)
    requires Inv(s)
    ensures PhaseOf(s, t).Answered? ==> t !in s.running
  {
    assert t in s.running ==> RunsWell(s, t);
  }

  lemma ArrivesByFinish(s: Pool, a: Action, t: Token)
    ensures Arrives(s, a, t, true) || Arrives(s, a, t, false) ==> a.Finish? && a.t == t
  {
  }

  predicate Decided(s: Pool, t: Token) {
    t < s.tokens && (PhaseOf(s, t).Answered? || PhaseOf(s, t).Discarding? || PhaseOf(s, t).Returned?)
  }

  lemma StepKeepsDecided(s: Pool, a: Action, t: Token)
    requires Enabled(s, a) && Decided(s, t)
    ensures Decided(Step(s, a), t)
  {
  }

  /** What has been decided is not changed by a completion that comes later. */
  lemma {:induction false} NothingArrivesLate(s: Pool, acts: seq<Action>, t: Token, needReply: bool)
    requires Decided(s, t)
    ensures !Arrived(s, acts, t, needReply)
    decreases |acts|
  {
    hide Step, Enabled;
    if acts != [] && Enabled(s, acts[0]) {
      StepKeepsDecided(s, acts[0], t);
      NothingArrivesLate(Step(s, acts[0]), acts[1..], t, needReply);
    }
  }

  /** The worker picks, and nobody interferes before it picks again. */
  predicate IsRound(acts: seq<Action>) {
    acts != [] && acts[0].Pick? && Quiet(acts[1..])
  }

  /** The reply to the probe of this round came while the worker waited for it. */
  predicate InTime(s: Pool, acts: seq<Action>) {
    |s.cs| > 0 && Arrived(s, acts, s.tokens, true)
  }

  lemma PickOnly(s: Pool)
    requires Inv(s) && s.keeper.Picking? && |s.cs| > 0
    ensures var (n, r, t) := (|s.cs|, Step(s, Pick), s.tokens);
            && Inv(r) && InRound(r, t, s.cs[n - 1]) && PhaseOf(r, t).Held?
            && r.cs == s.cs[..n - 1] && r.closed == s.closed
  {
    hide Inv;
    StepKeepsInv(s, Pick);
  }

  /** Every round: the worker probes the last pooled connection and no other.  It goes to the front
      when the reply came in time, and is closed otherwise, also when its reply was early or late.
      The command is left in flight exactly when it has not ended, and then the round has expired. */
  lemma RoundExactly(s: Pool, acts: seq<Action>)
    requires Inv(s) && s.keeper.Picking? && IsRound(acts)
    requires Run(s, acts).Some? && Run(s, acts).value.keeper.Picking?
    ensures var (r, t, b) := (Run(s, acts).value, s.tokens, InTime(s, acts));
            && r.cs == RoundEffect(s.cs, b)
            && r.closed == s.closed + (if |s.cs| > 0 && !b then [s.cs[|s.cs| - 1]] else [])
            && (|s.cs| > 0 ==> (t in r.running <==> !Finished(acts, t)))
            && (t in r.running ==> Expired(acts, t))
  {
    var (r, rest, t, n) := (Step(s, Pick), acts[1..], s.tokens, |s.cs|);
    if n == 0 {
      NewTokenIsFree(s);
      AfterRound(r, rest, t);
    } else {
      PickOnly(s);
      RestOfRound(r, rest, t, s.cs[n - 1]);
    }
  }

  lemma NewTokenIsFree(s: Pool)
    requires Inv(s)
    ensures s.tokens !in s.users && s.tokens !in s.running
  {
  }

  // ---------------------------------------------------------------- calls

  predicate QuietFor(a: Action, t: Token) {
    && !a.Call? && !a.Pick? && !a.PushFront? && !a.Discard?
    && (a.Put? || a.Close? ==> a.t == t)
  }

  predicate AllQuietFor(acts: seq<Action>, t: Token) {
    forall i :: 0 <= i < |acts| ==> QuietFor(acts[i], t)
  }

  predicate InCall(s: Pool, t: Token, c: Conn) {
    !IsKeeper(s, t) && Using(PhaseOf(s, t)) == Some(c)
  }

  predicate CallOver(s: Pool, t: Token) {
    !IsKeeper(s, t) && PhaseOf(s, t).Returned?
  }

  lemma StepAfterCall(s: Pool, a: Action, t: Token)
    requires Enabled(s, a) && QuietFor(a, t) && CallOver(s, t)
    ensures var r := Step(s, a);
            && r.cs == s.cs && r.closed == s.closed && CallOver(r, t)
            && (t in r.running <==> t in s.running && !(a.Finish? && a.t == t))
  {
  }

  lemma {:induction false} AfterCall(s: Pool, acts: seq<Action>, t: Token)
    requires Run(s, acts).Some? && AllQuietFor(acts, t) && CallOver(s, t)
    ensures var r := Run(s, acts).value;
            r.cs == s.cs && r.closed == s.closed && (t in r.running <==> t in s.running && !Finished(acts, t))
    decreases |acts|
  {
    hide Step, Enabled, CallOver;
    if acts != [] {
      StepAfterCall(s, acts[0], t);
      AfterCall(Step(s, acts[0]), acts[1..], t);
    }
  }

  lemma StepInCall(s: Pool, a: Action, t: Token, c: Conn)
    requires Inv(s) && Enabled(s, a) && QuietFor(a, t) && InCall(s, t, c)
    ensures var (r, p) := (Step(s, a), PhaseOf(s, t));
            if a.Put? then
              p.Answered? && CallOver(r, t) && r.cs == s.cs + [c] && r.closed == s.closed && r.running == s.running
            else if a.Close? then
              p.Discarding? && CallOver(r, t) && r.cs == s.cs && r.closed == s.closed + [c]
              && r.running == s.running
            else InCall(r, t, c) && r.cs == s.cs && r.closed == s.closed
  {
    assert t in s.users;
  }

  lemma PhaseInCall(s: Pool, a: Action, t: Token, c: Conn)
    requires Inv(s) && Enabled(s, a) && QuietFor(a, t) && InCall(s, t, c) && !a.Put? && !a.Close?
    ensures var (p, q) := (PhaseOf(s, t), PhaseOf(Step(s, a), t));
            && (q.Answered? <==> p.Answered? || Arrives(s, a, t, false))
            && (q.Discarding? <==> p.Discarding? || a == Expire(t))
            && (Commands(Step(s, a), t) <==> Commands(s, t) && !(a.Finish? && a.t == t))
            && (Arrives(s, a, t, false) ==> !p.Answered? && !p.Discarding?)
  {
    assert t in s.users;
    assert t in s.running ==> RunsWell(s, t);
  }

  lemma InCallUsed(s: Pool, t: Token, c: Conn)
    requires Inv(s) && InCall(s, t, c)
    ensures t < s.tokens && !CallOver(s, t)
  {
    assert t in s.users;
  }

  /** From any point of a call that has its connection to its end. */
  lemma {:induction false} RestOfCall(s: Pool, acts: seq<Action>, t: Token, c: Conn)
    requires Inv(s) && InCall(s, t, c) && AllQuietFor(acts, t)
    requires Run(s, acts).Some? && CallOver(Run(s, acts).value, t)
    ensures var (r, ok) := (Run(s, acts).value, EndsWell(s, acts, t, false));
            && r.cs == s.cs + (if ok then [c] else [])
            && r.closed == s.closed + (if ok then [] else [c])
            && (t in r.running <==> Commands(s, t) && !Finished(acts, t))
    ensures !EndsWell(s, acts, t, false) && !PhaseOf(s, t).Discarding? ==> Expired(acts, t)
    decreases |acts|
  {
    hide Step, Enabled, Inv, Arrives, InCall, CallOver;
    InCallUsed(s, t, c);
    var a, rest := acts[0], acts[1..];
    StepInCall(s, a, t, c);
    ArrivesByFinish(s, a, t);
    if a.Put? || a.Close? {
      AfterCall(Step(s, a), rest, t);
      CommandsOutside(s, t);
      assert s.cs + [] == s.cs && s.closed + [] == s.closed;
    } else {
      PhaseInCall(s, a, t, c);
      StepKeepsInv(s, a);
      if PhaseOf(Step(s, a), t).Discarding? {
        InCallUsed(Step(s, a), t, c);
        NothingArrivesLate(Step(s, a), rest, t, false);
      }
      RestOfCall(Step(s, a), rest, t, c);
    }
  }

  /** The connection that the user dialled. */
  function DialledBy(s: Pool, acts: seq<Action>, t: Token): Option<Conn>
    decreases |acts|
  {
    if acts == [] || !Enabled(s, acts[0]) then None
    else if acts[0].Dialled? && acts[0].t == t then (if acts[0].ok then Some(s.dialled) else None)
    else DialledBy(Step(s, acts[0]), acts[1..], t)
  }

  predicate InDial(s: Pool, t: Token) {
    !IsKeeper(s, t) && PhaseOf(s, t).Dialing? && t !in s.running
  }

  lemma StepInDial(s: Pool, a: Action, t: Token)
    requires Inv(s) && Enabled(s, a) && QuietFor(a, t) && InDial(s, t)
    ensures var r := Step(s, a);
            && r.cs == s.cs && r.closed == s.closed && !(a.Finish? && a.t == t)
            && !Arrives(s, a, t, false)
            && if a.Dialled? && a.t == t then
                 if a.ok then InCall(r, t, s.dialled) && PhaseOf(r, t).Held?
                 else CallOver(r, t) && t !in r.running
               else InDial(r, t)
  {
    assert t in s.users && t < s.tokens;
  }

  lemma OverArrivesNot(s: Pool, acts: seq<Action>, t: Token)
    requires t < s.tokens && CallOver(s, t)
    ensures !Arrived(s, acts, t, false)
  {
    NothingArrivesLate(s, acts, t, false);
  }

  lemma InDialUsed(s: Pool, t: Token)
    requires Inv(s) && InDial(s, t)
    ensures t < s.tokens && !CallOver(s, t)
  {
    assert t in s.users;
  }

  lemma TokensStay(s: Pool, a: Action)
    requires Enabled(s, a)
    ensures Step(s, a).tokens >= s.tokens
  {
  }

  /** From any point of a call's dialling to the call's end. */
  lemma {:induction false} RestOfDial(s: Pool, acts: seq<Action>, t: Token)
    requires Inv(s) && InDial(s, t) && AllQuietFor(acts, t)
    requires Run(s, acts).Some? && CallOver(Run(s, acts).value, t)
    ensures var (r, c, ok) := (Run(s, acts).value, DialledBy(s, acts, t), Arrived(s, acts, t, false));
            && (ok ==> c.Some?)
            && r.cs == s.cs + (if ok then [c.value] else [])
            && r.closed == s.closed + (if c.Some? && !ok then [c.value] else [])
            && (t in r.running <==> c.Some? && !Finished(acts, t))
            && (c.Some? && !ok ==> Expired(acts, t))
    decreases |acts|
  {
    hide Step, Enabled, Inv, Arrives, InCall, CallOver, InDial;
    InDialUsed(s, t);
    var a, rest := acts[0], acts[1..];
    var m := Step(s, a);
    StepInDial(s, a, t);
    StepKeepsInv(s, a);
    TokensStay(s, a);
    if a.Dialled? && a.t == t {
      if a.ok {
        RestOfCall(m, rest, t, s.dialled);
        HeldEnds(m, rest, t, s.dialled);
      } else {
        AfterCall(m, rest, t);
        OverArrivesNot(m, rest, t);
        assert s.cs + [] == s.cs && s.closed + [] == s.closed;
      }
    } else {
      RestOfDial(m, rest, t);
    }
  }

  lemma HeldEnds(s: Pool, acts: seq<Action>, t: Token, c: Conn)
    requires PhaseOf(s, t).Held?
    ensures Commands(s, t) && (EndsWell(s, acts, t, false) <==> Arrived(s, acts, t, false))
  {
  }

  /** A call starts, and until it is over nobody else interferes. */
  predicate IsCall(acts: seq<Action>, t: Token) {
    acts != [] && acts[0].Call? && AllQuietFor(acts[1..], t)
  }

  /** The connection a call works on: the first pooled one, or one it dials. */
  function ConnOf(s: Pool, acts: seq<Action>): Option<Conn> {
    if |s.cs| > 0 then Some(s.cs[0]) else DialledBy(s, acts, s.tokens)
  }

  /** Every call: its connection goes to the end of the pool when the completion came while the caller
      waited, and is closed otherwise, after five seconds.  The command is left in flight exactly when
      it has not ended. */
  lemma CallExactly(s: Pool, acts: seq<Action>)
    requires Inv(s) && IsCall(acts, s.tokens)
    requires Run(s, acts).Some? && CallOver(Run(s, acts).value, s.tokens)
    ensures var (r, t) := (Run(s, acts).value, s.tokens);
            var (c, ok) := (ConnOf(s, acts), Arrived(s, acts, t, false));
            && (ok ==> c.Some?)
            && r.cs == (if |s.cs| > 0 then s.cs[1..] else []) + (if ok then [c.value] else [])
            && r.closed == s.closed + (if c.Some? && !ok then [c.value] else [])
            && (t in r.running <==> c.Some? && !Finished(acts, t))
            && (c.Some? && !ok ==> Expired(acts, t))
  {
    var (m, rest, t) := (Step(s, Call), acts[1..], s.tokens);
    CallTakes(s);
    hide Step, Inv, InCall, InDial, CallOver;
    if |s.cs| > 0 {
      RestOfCall(m, rest, t, s.cs[0]);
      HeldEnds(m, rest, t, s.cs[0]);
    } else {
      RestOfDial(m, rest, t);
    }
  }

  lemma CallTakes(s: Pool)
    requires Inv(s)
    ensures var (r, t) := (Step(s, Call), s.tokens);
            && Inv(r) && r.closed == s.closed && !Arrives(s, Call, t, false)
            && if |s.cs| > 0 then InCall(r, t, s.cs[0]) && PhaseOf(r, t).Held? && r.cs == s.cs[1..]
               else InDial(r, t) && r.cs == []
  {
    NewTokenIsFree(s);
    KeeperIsOld(s);
    StepKeepsInv(s, Call);
  }

  lemma KeeperIsOld(s: Pool)
    requires Inv(s)
    ensures !IsKeeper(s, s.tokens)
  {
  }

  // ---------------------------------------------------------------- keepalive passes

  /** The state after a round that ends with the worker about to pick. */
  function RunRound(s: Pool, acts: seq<Action>): (r: Option<Pool>)
    ensures r.Some? ==> r.value.keeper.Picking?
  {
    var r := Run(s, acts);
    if r.Some? && r.value.keeper.Picking? then r else None
  }

  function RunRounds(s: Pool, rounds: seq<seq<Action>>): Option<Pool>
    decreases |rounds|
  {
    if rounds == [] then Some(s) else
    match RunRounds(s, rounds[..|rounds| - 1])
    case None => None
    case Some(m) => RunRound(m, rounds[|rounds| - 1])
  }

  /** The k-th round's reply came in time. */
  predicate InTimeAt(s: Pool, rounds: seq<seq<Action>>, k: nat)
    requires k < |rounds|
  {
    RunRounds(s, rounds[..k]).Some? && InTime(RunRounds(s, rounds[..k]).value, rounds[k])
  }

  /** The connections whose reply came in time; the k-th round probes the k-th from the back. */
  function Answering(s: Pool, rounds: seq<seq<Action>>): Conn -> bool {
    (c: Conn) =>
      exists k :: 0 <= k < |rounds| && k < |s.cs| && s.cs[|s.cs| - k - 1] == c && InTimeAt(s, rounds, k)
  }

  lemma AnsweringAt(s: Pool, rounds: seq<seq<Action>>, k: nat)
    requires NoDup(s.cs) && k < |rounds| && k < |s.cs|
    ensures Answering(s, rounds)(s.cs[|s.cs| - k - 1]) <==> InTimeAt(s, rounds, k)
  {
    hide InTimeAt;
  }

  /** The pool after the first k rounds on `all`, with `closed` closed before. */
  predicate AfterRounds(r: Pool, all: seq<Conn>, closed: seq<Conn>, k: nat, answers: Conn -> bool)
    requires k <= |all|
  {
    && r.keeper.Picking? && r.cs == ListAfter(all, k, answers)
    && r.closed == closed + Reversed(Survivors(all[|all| - k..], Not(answers)))
  }

  lemma NextLists(all: seq<Conn>, closed: seq<Conn>, k: nat, answers: Conn -> bool, b: bool)
    requires k < |all| && (answers(all[|all| - k - 1]) <==> b)
    ensures var (now, x) := (ListAfter(all, k, answers), all[|all| - k - 1]);
            && |now| > 0 && now[|now| - 1] == x
            && RoundEffect(now, b) == ListAfter(all, k + 1, answers)
            && closed + Reversed(Survivors(all[|all| - k..], Not(answers))) + (if b then [] else [x])
               == closed + Reversed(Survivors(all[|all| - (k + 1)..], Not(answers)))
  {
    hide ListAfter, RoundEffect, Not, AllAnswer;
    PassStep(all, k, answers);
    var before := Reversed(Survivors(all[|all| - k..], Not(answers)));
    var x := all[|all| - k - 1];
    assert closed + before + [x] == closed + (before + [x]);
    assert closed + before + [] == closed + (before + []);
  }

  lemma NextRound(m: Pool, acts: seq<Action>, all: seq<Conn>, closed: seq<Conn>, k: nat, answers: Conn -> bool)
    requires Inv(m) && k < |all| && AfterRounds(m, all, closed, k, answers) && IsRound(acts)
    requires RunRound(m, acts).Some?
    requires answers(all[|all| - k - 1]) <==> InTime(m, acts)
    ensures Inv(RunRound(m, acts).value) && AfterRounds(RunRound(m, acts).value, all, closed, k + 1, answers)
  {
    hide Inv, IsRound, ListAfter, RoundEffect, Not, InTime, AllAnswer;
    RoundExactly(m, acts);
    RunKeepsInv(m, acts);
    NextLists(all, closed, k, answers, InTime(m, acts));
  }

  lemma RunRoundsNext(s: Pool, rounds: seq<seq<Action>>, k: nat)
    requires k < |rounds| && RunRounds(s, rounds[..k + 1]).Some?
    ensures RunRounds(s, rounds[..k]).Some?
    ensures var m := RunRounds(s, rounds[..k]).value;
            RunRound(m, rounds[k]) == RunRounds(s, rounds[..k + 1])
  {
    assert rounds[..k + 1][..k] == rounds[..k];
  }

  lemma InTimeAtIs(s: Pool, rounds: seq<seq<Action>>, k: nat)
    requires k < |rounds| && RunRounds(s, rounds[..k]).Some?
    ensures InTimeAt(s, rounds, k) <==> InTime(RunRounds(s, rounds[..k]).value, rounds[k])
  {
  }

  lemma NoRounds(s: Pool, rounds: seq<seq<Action>>, answers: Conn -> bool)
    requires s.keeper.Picking?
    ensures RunRounds(s, rounds[..0]) == Some(s) && AfterRounds(s, s.cs, s.closed, 0, answers)
  {
    PassEnds(s.cs, answers);
    assert s.closed + [] == s.closed;
  }

  lemma {:induction false} FirstRounds(s: Pool, rounds: seq<seq<Action>>, k: nat, answers: Conn -> bool)
    requires Inv(s) && s.keeper.Picking? && k <= |rounds| <= |s.cs|
    requires forall i :: 0 <= i < |rounds| ==> IsRound(rounds[i])
    requires RunRounds(s, rounds[..k]).Some?
    requires forall i :: 0 <= i < k ==> (answers(s.cs[|s.cs| - i - 1]) <==> InTimeAt(s, rounds, i))
    ensures Inv(RunRounds(s, rounds[..k]).value)
    ensures AfterRounds(RunRounds(s, rounds[..k]).value, s.cs, s.closed, k, answers)
  {
    hide Inv, IsRound, InTimeAt, AfterRounds, InTime, RunRound;
    if k == 0 {
      NoRounds(s, rounds, answers);
    } else {
      RunRoundsNext(s, rounds, k - 1);
      FirstRounds(s, rounds, k - 1, answers);
      InTimeAtIs(s, rounds, k - 1);
      NextRound(RunRounds(s, rounds[..k - 1]).value, rounds[k - 1], s.cs, s.closed, k - 1, answers);
    }
  }

  /** Every pass of as many rounds as connections leaves exactly those whose reply came in time, in
      their order, and closes the others, from the back. */
  lemma PassExactly(s: Pool, rounds: seq<seq<Action>>)
    requires Inv(s) && s.keeper.Picking? && |rounds| == |s.cs|
    requires forall i :: 0 <= i < |rounds| ==> IsRound(rounds[i])
    requires RunRounds(s, rounds).Some?
    ensures var (r, answers) := (RunRounds(s, rounds).value, Answering(s, rounds));
            && r.cs == Survivors(s.cs, answers)
            && r.closed == s.closed + Reversed(Survivors(s.cs, Not(answers)))
  {
    hide IsRound, Not, Answering, InTimeAt;
    var answers := Answering(s, rounds);
    assert NoDup(s.cs);
    forall k | 0 <= k < |rounds| ensures answers(s.cs[|s.cs| - k - 1]) <==> InTimeAt(s, rounds, k) {
      AnsweringAt(s, rounds, k);
    }
    assert rounds[..|rounds|] == rounds;
    FirstRounds(s, rounds, |rounds|, answers);
    PassEnds(s.cs, answers);
  }
}
