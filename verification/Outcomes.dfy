/** Every outcome of a call and of a keepalive round has a run, from every state of the pool. */
module Outcomes {
  import opened Options
  import opened ConnectionPool
  import opened Undisturbed

  // ---------------------------------------------------------------- single actions

  lemma OnCall(s: Pool)
    requires Inv(s)
    ensures Enabled(s, Call)
    ensures var (r, t) := (Step(s, Call), s.tokens);
            && PhaseOf(r, t) == (if |s.cs| > 0 then Held(s.cs[0]) else Dialing)
            && r.running == s.running && t !in r.running && !IsKeeper(r, t)
            && r.dialled == s.dialled
  {
  }

  lemma OnDialled(s: Pool, t: Token, ok: bool)
    requires PhaseOf(s, t).Dialing?
    ensures Enabled(s, Dialled(t, ok))
    ensures var r := Step(s, Dialled(t, ok));
            && PhaseOf(r, t) == (if ok then Held(s.dialled) else Returned)
            && r.running == s.running && r.keeper == s.keeper
  {
  }

  lemma OnLaunch(s: Pool, t: Token)
    requires PhaseOf(s, t).Held?
    ensures Enabled(s, Launch(t))
    ensures var (r, c) := (Step(s, Launch(t)), PhaseOf(s, t).c);
            && PhaseOf(r, t) == Launched(c) && r.running == s.running[t := c]
            && r.keeper == s.keeper && r.cs == s.cs
  {
  }

  lemma OnEnter(s: Pool, t: Token)
    requires PhaseOf(s, t).Launched?
    ensures Enabled(s, Enter(t))
    ensures var r := Step(s, Enter(t));
            && PhaseOf(r, t) == Waiting(PhaseOf(s, t).c) && r.running == s.running
            && r.keeper == s.keeper && r.cs == s.cs
  {
  }

  lemma OnFinish(s: Pool, t: Token, reply: bool)
    requires t in s.running && (PhaseOf(s, t).Waiting? || PhaseOf(s, t).Launched?)
    ensures Enabled(s, Finish(t, reply))
    ensures var (r, p) := (Step(s, Finish(t, reply)), PhaseOf(s, t));
            && PhaseOf(r, t) == (if p.Launched? then p
                                 else if IsKeeper(s, t) && !reply then Discarding(p.c) else Answered(p.c))
            && r.running == s.running - {t} && r.keeper == s.keeper && r.cs == s.cs
  {
  }

  lemma OnExpire(s: Pool, t: Token)
    requires PhaseOf(s, t).Waiting?
    ensures Enabled(s, Expire(t))
    ensures var r := Step(s, Expire(t));
            && PhaseOf(r, t) == Discarding(PhaseOf(s, t).c) && r.running == s.running
            && r.keeper == s.keeper && r.cs == s.cs
  {
  }

  lemma OnReturn(s: Pool, t: Token)
    requires !IsKeeper(s, t)
    ensures PhaseOf(s, t).Answered? ==>
              Enabled(s, Put(t)) && CallOver(Step(s, Put(t)), t) && Step(s, Put(t)).running == s.running
    ensures PhaseOf(s, t).Discarding? ==>
              Enabled(s, Close(t)) && CallOver(Step(s, Close(t)), t) && Step(s, Close(t)).running == s.running
  {
  }

  lemma OneAction(s: Pool, a: Action, rest: seq<Action>, t: Token, needReply: bool)
    requires Enabled(s, a)
    ensures Run(s, [a] + rest) == Run(Step(s, a), rest)
    ensures Arrived(s, [a] + rest, t, needReply) <==>
            Arrives(s, a, t, needReply) || Arrived(Step(s, a), rest, t, needReply)
    ensures DialledBy(s, [a] + rest, t) ==
            if a.Dialled? && a.t == t then (if a.ok then Some(s.dialled) else None)
            else DialledBy(Step(s, a), rest, t)
  {
    assert ([a] + rest)[1..] == rest;
  }

  lemma Nothing(s: Pool, t: Token, needReply: bool)
    ensures Run(s, []) == Some(s) && !Arrived(s, [], t, needReply)
  {
  }

  lemma AddedAndRemoved(m: map<Token, Conn>, t: Token, c: Conn)
    requires t !in m
    ensures m[t := c] - {t} == m
  {
  }

  // ---------------------------------------------------------------- calls

  /** How the command of a call that has a connection ends: its completion comes while the caller waits,
      not within five seconds, or before the caller waits. */
  datatype Ending = InTime(reply: bool) | TooLate | TooEarly(reply: bool)

  function EndActions(t: Token, how: Ending): seq<Action> {
    match how
    case InTime(reply) => [Launch(t)] + ([Enter(t)] + ([Finish(t, reply)] + ([Put(t)] + [])))
    case TooLate => [Launch(t)] + ([Enter(t)] + ([Expire(t)] + ([Close(t)] + [])))
    case TooEarly(reply) =>
      [Launch(t)] + ([Finish(t, reply)] + ([Enter(t)] + ([Expire(t)] + ([Close(t)] + []))))
  }

  predicate Ends(s: Pool, t: Token, how: Ending)
    requires PhaseOf(s, t).Held?
  {
    var r := Run(s, EndActions(t, how));
    && r.Some? && CallOver(r.value, t)
    && r.value.running == (if how.TooLate? then s.running[t := PhaseOf(s, t).c] else s.running)
    && (Arrived(s, EndActions(t, how), t, false) <==> how.InTime?)
  }

  lemma EndsInTime(s: Pool, t: Token, reply: bool)
    requires PhaseOf(s, t).Held? && t !in s.running && !IsKeeper(s, t)
    ensures Ends(s, t, InTime(reply))
  {
    hide Step, Enabled, PhaseOf;
    OnLaunch(s, t);
    var s1 := Step(s, Launch(t));
    OnEnter(s1, t);
    var s2 := Step(s1, Enter(t));
    OnFinish(s2, t, reply);
    var s3 := Step(s2, Finish(t, reply));
    OnReturn(s3, t);
    var s4 := Step(s3, Put(t));
    OneAction(s, Launch(t), [Enter(t)] + ([Finish(t, reply)] + ([Put(t)] + [])), t, false);
    OneAction(s1, Enter(t), [Finish(t, reply)] + ([Put(t)] + []), t, false);
    OneAction(s2, Finish(t, reply), [Put(t)] + [], t, false);
    OneAction(s3, Put(t), [], t, false);
    Nothing(s4, t, false);
    AddedAndRemoved(s.running, t, PhaseOf(s, t).c);
  }

  lemma EndsTooLate(s: Pool, t: Token)
    requires PhaseOf(s, t).Held? && t !in s.running && !IsKeeper(s, t)
    ensures Ends(s, t, TooLate)
  {
    hide Step, Enabled, PhaseOf;
    OnLaunch(s, t);
    var s1 := Step(s, Launch(t));
    OnEnter(s1, t);
    var s2 := Step(s1, Enter(t));
    OnExpire(s2, t);
    var s3 := Step(s2, Expire(t));
    OnReturn(s3, t);
    var s4 := Step(s3, Close(t));
    OneAction(s, Launch(t), [Enter(t)] + ([Expire(t)] + ([Close(t)] + [])), t, false);
    OneAction(s1, Enter(t), [Expire(t)] + ([Close(t)] + []), t, false);
    OneAction(s2, Expire(t), [Close(t)] + [], t, false);
    OneAction(s3, Close(t), [], t, false);
    Nothing(s4, t, false);
  }

  lemma EndsTooEarly(s: Pool, t: Token, reply: bool)
    requires PhaseOf(s, t).Held? && t !in s.running && !IsKeeper(s, t)
    ensures Ends(s, t, TooEarly(reply))
  {
    hide Step, Enabled, PhaseOf;
    OnLaunch(s, t);
    var s1 := Step(s, Launch(t));
    OnFinish(s1, t, reply);
    var s2 := Step(s1, Finish(t, reply));
    OnEnter(s2, t);
    var s3 := Step(s2, Enter(t));
    OnExpire(s3, t);
    var s4 := Step(s3, Expire(t));
    OnReturn(s4, t);
    var s5 := Step(s4, Close(t));
    OneAction(s, Launch(t), [Finish(t, reply)] + ([Enter(t)] + ([Expire(t)] + ([Close(t)] + []))), t, false);
    OneAction(s1, Finish(t, reply), [Enter(t)] + ([Expire(t)] + ([Close(t)] + [])), t, false);
    OneAction(s2, Enter(t), [Expire(t)] + ([Close(t)] + []), t, false);
    OneAction(s3, Expire(t), [Close(t)] + [], t, false);
    OneAction(s4, Close(t), [], t, false);
    Nothing(s5, t, false);
    AddedAndRemoved(s.running, t, PhaseOf(s, t).c);
  }

  lemma HeldEndsAnyWay(s: Pool, t: Token, how: Ending)
    requires PhaseOf(s, t).Held? && t !in s.running && !IsKeeper(s, t)
    ensures Ends(s, t, how)
  {
    hide Ends;
    match how
    case InTime(reply) => EndsInTime(s, t, reply);
    case TooLate => EndsTooLate(s, t);
    case TooEarly(reply) => EndsTooEarly(s, t, reply);
  }

  /** A call that gets a connection, pooled or dialled, and ends like that. */
  function CallActions(s: Pool, how: Ending): seq<Action> {
    var rest := EndActions(s.tokens, how);
    [Call] + if |s.cs| > 0 then rest else [Dialled(s.tokens, true)] + rest
  }

  function FirstOrDialled(s: Pool): Conn {
    if |s.cs| > 0 then s.cs[0] else s.dialled
  }

  lemma CallRuns(s: Pool, how: Ending)
    requires Inv(s)
    ensures var (acts, t, c) := (CallActions(s, how), s.tokens, FirstOrDialled(s));
            && Run(s, acts).Some? && CallOver(Run(s, acts).value, t)
            && Run(s, acts).value.running == (if how.TooLate? then s.running[t := c] else s.running)
            && (Arrived(s, acts, t, false) <==> how.InTime?)
            && ConnOf(s, acts) == Some(c)
  {
    hide Step, Enabled, PhaseOf, Ends, EndActions, CallOver, Inv;
    var (t, rest) := (s.tokens, EndActions(s.tokens, how));
    OnCall(s);
    var s1 := Step(s, Call);
    NoArrival(s, Call, t);
    if |s.cs| > 0 {
      OneAction(s, Call, rest, t, false);
      HeldEndsAnyWay(s1, t, how);
      WhatEnds(s1, t, how);
    } else {
      OnDialled(s1, t, true);
      var s2 := Step(s1, Dialled(t, true));
      NoArrival(s1, Dialled(t, true), t);
      OneAction(s, Call, [Dialled(t, true)] + rest, t, false);
      OneAction(s1, Dialled(t, true), rest, t, false);
      SameKeeper(s1, s2, t);
      HeldEndsAnyWay(s2, t, how);
      WhatEnds(s2, t, how);
    }
  }

  lemma NoArrival(s: Pool, a: Action, t: Token)
    requires !a.Finish?
    ensures !Arrives(s, a, t, false)
  {
  }

  lemma SameKeeper(s: Pool, r: Pool, t: Token)
    requires s.keeper == r.keeper
    ensures IsKeeper(s, t) <==> IsKeeper(r, t)
  {
  }

  lemma WhatEnds(s: Pool, t: Token, how: Ending)
    requires PhaseOf(s, t).Held? && Ends(s, t, how)
    ensures var (r, acts) := (Run(s, EndActions(t, how)), EndActions(t, how));
            && r.Some? && CallOver(r.value, t)
            && r.value.running == (if how.TooLate? then s.running[t := PhaseOf(s, t).c] else s.running)
            && (Arrived(s, acts, t, false) <==> how.InTime?)
  {
  }

  lemma QuietCons(a: Action, rest: seq<Action>, t: Token)
    requires QuietFor(a, t) && AllQuietFor(rest, t)
    ensures AllQuietFor([a] + rest, t)
  {
    forall i | 0 <= i < |rest| + 1 ensures QuietFor(([a] + rest)[i], t) {
      assert i > 0 ==> ([a] + rest)[i] == rest[i - 1];
    }
  }

  lemma TimeoutIsQuiet(t: Token)
    ensures AllQuietFor([Enter(t)] + ([Expire(t)] + ([Close(t)] + [])), t)
  {
    hide AllQuietFor;
    NoneIsQuiet(t);
    QuietCons(Close(t), [], t);
    QuietCons(Expire(t), [Close(t)] + [], t);
    QuietCons(Enter(t), [Expire(t)] + ([Close(t)] + []), t);
  }

  lemma NoneIsQuiet(t: Token)
    ensures AllQuietFor([], t)
  {
  }

  lemma EndIsQuiet(t: Token, how: Ending)
    ensures AllQuietFor(EndActions(t, how), t)
  {
    hide AllQuietFor;
    match how
    case InTime(reply) =>
      NoneIsQuiet(t);
      QuietCons(Put(t), [], t);
      QuietCons(Finish(t, reply), [Put(t)] + [], t);
      QuietCons(Enter(t), [Finish(t, reply)] + ([Put(t)] + []), t);
      QuietCons(Launch(t), [Enter(t)] + ([Finish(t, reply)] + ([Put(t)] + [])), t);
    case TooLate =>
      TimeoutIsQuiet(t);
      QuietCons(Launch(t), [Enter(t)] + ([Expire(t)] + ([Close(t)] + [])), t);
    case TooEarly(reply) =>
      TimeoutIsQuiet(t);
      QuietCons(Finish(t, reply), [Enter(t)] + ([Expire(t)] + ([Close(t)] + [])), t);
      QuietCons(Launch(t), [Finish(t, reply)] + ([Enter(t)] + ([Expire(t)] + ([Close(t)] + []))), t);
  }

  lemma CallIsCall(s: Pool, how: Ending)
    ensures IsCall(CallActions(s, how), s.tokens)
  {
    hide AllQuietFor, EndActions;
    var (t, rest) := (s.tokens, EndActions(s.tokens, how));
    EndIsQuiet(t, how);
    QuietCons(Dialled(t, true), rest, t);
    var later := if |s.cs| > 0 then rest else [Dialled(t, true)] + rest;
    assert ([Call] + later)[1..] == later;
  }

  /** From every state a call can end in each way, on a pooled connection or on one it dials: in time, it
      leaves the connection pooled last; too late or too early, closed; and only a late command is left
      in flight. */
  lemma CallOutcomes(s: Pool, how: Ending)
    requires Inv(s)
    ensures var (r, c) := (Run(s, CallActions(s, how)), FirstOrDialled(s));
            && r.Some?
            && r.value.cs == (if |s.cs| > 0 then s.cs[1..] else []) + (if how.InTime? then [c] else [])
            && r.value.closed == s.closed + (if how.InTime? then [] else [c])
            && r.value.running == (if how.TooLate? then s.running[s.tokens := c] else s.running)
  {
    hide Inv, CallActions, IsCall, CallOver, ConnOf, FirstOrDialled;
    CallRuns(s, how);
    CallIsCall(s, how);
    CallExactly(s, CallActions(s, how));
  }

  /** A call that finds nothing pooled can also fail to dial: nothing is pooled or closed. */
  lemma DialCanFail(s: Pool)
    requires Inv(s) && s.cs == []
    ensures var r := Run(s, [Call, Dialled(s.tokens, false)]);
            r.Some? && r.value.cs == [] && r.value.closed == s.closed && r.value.dialled == s.dialled
            && r.value.running == s.running && PhaseOf(r.value, s.tokens).Returned?
  {
    var t := s.tokens;
    OnCall(s);
    var s1 := Step(s, Call);
    OnDialled(s1, t, false);
    OneAction(s, Call, [Dialled(t, false)], t, false);
    OneAction(s1, Dialled(t, false), [], t, false);
    assert [Call] + [Dialled(t, false)] == [Call, Dialled(t, false)];
    assert [Dialled(t, false)] + [] == [Dialled(t, false)];
  }

  /** From the program's start the first call can leave its connection pooled. */
  lemma FirstConnectionIsPooled() returns (acts: seq<Action>)
    ensures var r := Run(INITIAL, acts); r.Some? && r.value.cs == [0] && r.value.closed == []
  {
    InvInitially();
    acts := CallActions(INITIAL, InTime(true));
    CallOutcomes(INITIAL, InTime(true));
  }

  /** A command left in flight can still end, and changes neither list. */
  lemma LateCommandCanEnd(s: Pool, t: Token, reply: bool)
    requires t in s.running
    ensures Enabled(s, Finish(t, reply))
    ensures var r := Step(s, Finish(t, reply));
            r.running == s.running - {t} && r.cs == s.cs && r.closed == s.closed && r.orphans == s.orphans
  {
  }

  // ---------------------------------------------------------------- keepalive rounds

  /** How the probe of a round ends: in time, with a reply or an error, too late, or too early. */
  function ProbeActions(t: Token, how: Ending): seq<Action> {
    match how
    case InTime(reply) => [Launch(t)] + ([Enter(t)] + ([Finish(t, reply)] + []))
    case TooLate => [Launch(t)] + ([Enter(t)] + ([Expire(t)] + []))
    case TooEarly(reply) =>
      [Launch(t)] + ([Finish(t, reply)] + ([Enter(t)] + ([ChannelClosed] + [])))
  }

  predicate Replies(how: Ending) {
    how.InTime? && how.reply
  }

  predicate ProbeEnds(s: Pool, t: Token, how: Ending)
    requires PhaseOf(s, t).Held?
  {
    var (r, c) := (Run(s, ProbeActions(t, how)), PhaseOf(s, t).c);
    && r.Some? && r.value.keeper == s.keeper && r.value.cs == s.cs
    && PhaseOf(r.value, t) == (if Replies(how) then Answered(c) else Discarding(c))
    && r.value.running == (if how.TooLate? then s.running[t := c] else s.running)
    && (Arrived(s, ProbeActions(t, how), t, true) <==> Replies(how))
  }

  lemma ProbeInTime(s: Pool, t: Token, reply: bool)
    requires PhaseOf(s, t).Held? && t !in s.running && IsKeeper(s, t)
    ensures ProbeEnds(s, t, InTime(reply))
  {
    hide Step, Enabled, PhaseOf;
    OnLaunch(s, t);
    var s1 := Step(s, Launch(t));
    OnEnter(s1, t);
    var s2 := Step(s1, Enter(t));
    OnFinish(s2, t, reply);
    var s3 := Step(s2, Finish(t, reply));
    OneAction(s, Launch(t), [Enter(t)] + ([Finish(t, reply)] + []), t, true);
    OneAction(s1, Enter(t), [Finish(t, reply)] + [], t, true);
    OneAction(s2, Finish(t, reply), [], t, true);
    Nothing(s3, t, true);
    AddedAndRemoved(s.running, t, PhaseOf(s, t).c);
  }

  lemma ProbeTooLate(s: Pool, t: Token)
    requires PhaseOf(s, t).Held? && t !in s.running && IsKeeper(s, t)
    ensures ProbeEnds(s, t, TooLate)
  {
    hide Step, Enabled, PhaseOf;
    OnLaunch(s, t);
    var s1 := Step(s, Launch(t));
    OnEnter(s1, t);
    var s2 := Step(s1, Enter(t));
    OnExpire(s2, t);
    var s3 := Step(s2, Expire(t));
    OneAction(s, Launch(t), [Enter(t)] + ([Expire(t)] + []), t, true);
    OneAction(s1, Enter(t), [Expire(t)] + [], t, true);
    OneAction(s2, Expire(t), [], t, true);
    Nothing(s3, t, true);
  }

  lemma OnChannelClosed(s: Pool, t: Token)
    requires IsKeeper(s, t) && PhaseOf(s, t).Waiting? && t !in s.running
    ensures Enabled(s, ChannelClosed)
    ensures var r := Step(s, ChannelClosed);
            && PhaseOf(r, t) == Discarding(PhaseOf(s, t).c) && r.running == s.running
            && r.keeper == s.keeper && r.cs == s.cs
  {
  }

  lemma ProbeTooEarly(s: Pool, t: Token, reply: bool)
    requires PhaseOf(s, t).Held? && t !in s.running && IsKeeper(s, t)
    ensures ProbeEnds(s, t, TooEarly(reply))
  {
    hide Step, Enabled, PhaseOf;
    OnLaunch(s, t);
    var s1 := Step(s, Launch(t));
    OnFinish(s1, t, reply);
    var s2 := Step(s1, Finish(t, reply));
    OnEnter(s2, t);
    var s3 := Step(s2, Enter(t));
    OnChannelClosed(s3, t);
    var s4 := Step(s3, ChannelClosed);
    OneAction(s, Launch(t), [Finish(t, reply)] + ([Enter(t)] + ([ChannelClosed] + [])), t, true);
    OneAction(s1, Finish(t, reply), [Enter(t)] + ([ChannelClosed] + []), t, true);
    OneAction(s2, Enter(t), [ChannelClosed] + [], t, true);
    OneAction(s3, ChannelClosed, [], t, true);
    Nothing(s4, t, true);
    AddedAndRemoved(s.running, t, PhaseOf(s, t).c);
  }

  lemma ProbeEndsAnyWay(s: Pool, t: Token, how: Ending)
    requires PhaseOf(s, t).Held? && t !in s.running && IsKeeper(s, t)
    ensures ProbeEnds(s, t, how)
  {
    hide ProbeEnds;
    match how
    case InTime(reply) => ProbeInTime(s, t, reply);
    case TooLate => ProbeTooLate(s, t);
    case TooEarly(reply) => ProbeTooEarly(s, t, reply);
  }

  /** What the worker does after the probe, with n the number of pooled connections it reckons with; it
      dials when nothing is left. */
  function AfterProbe(n: nat, good: bool, dialOk: bool): seq<Action> {
    if n == 0 then [Redial(dialOk), Wake]
    else if good then [PushFront, Wake]
    else if n == 1 then [Discard, Redial(dialOk), Wake]
    else [Discard, Wake]
  }

  lemma AfterProbeRuns(s: Pool, n: nat, good: bool, dialOk: bool)
    requires if n == 0 then s.keeper.Redialling?
             else s.keeper.Round? && s.keeper.count == n
                  && if good then PhaseOf(s, s.keeper.t).Answered? else PhaseOf(s, s.keeper.t).Discarding?
    ensures var r := Run(s, AfterProbe(n, good, dialOk));
            && r.Some? && r.value.keeper.Picking? && r.value.running == s.running
            && r.value.orphans == s.orphans + (if (n == 0 || (n == 1 && !good)) && dialOk then [s.dialled] else [])
  {
    var acts := AfterProbe(n, good, dialOk);
    var s1 := Step(s, acts[0]);
    OneAction(s, acts[0], acts[1..], 0, true);
    OneAction(s1, acts[1], acts[2..], 0, true);
    assert acts == [acts[0]] + acts[1..] && acts[1..] == [acts[1]] + acts[2..];
    if n == 1 && !good {
      OneAction(Step(s1, acts[1]), Wake, [], 0, true);
      assert acts[2..] == [Wake] + [];
    } else {
      assert acts[2..] == [];
    }
  }

  /** A round that ends like that. */
  function RoundActions(s: Pool, how: Ending, dialOk: bool): seq<Action> {
    var n := |s.cs|;
    [Pick] + ((if n == 0 then [] else ProbeActions(s.tokens, how)) + AfterProbe(n, Replies(how), dialOk))
  }

  lemma OnPick(s: Pool)
    requires Inv(s) && s.keeper.Picking?
    ensures Enabled(s, Pick)
    ensures var (r, t, n) := (Step(s, Pick), s.tokens, |s.cs|);
            && r.running == s.running && t !in r.running && r.dialled == s.dialled && r.orphans == s.orphans
            && if n == 0 then r.keeper.Redialling?
               else r.keeper == Round(t, n) && PhaseOf(r, t) == Held(s.cs[n - 1])
  {
  }

  lemma {:induction false} ArrivedAppend(s: Pool, a: seq<Action>, b: seq<Action>, t: Token)
    requires Run(s, a).Some?
    ensures Arrived(s, a + b, t, true) <==>
            Arrived(s, a, t, true) || Arrived(Run(s, a).value, b, t, true)
    decreases |a|
  {
    hide Step, Enabled, Arrives;
    if a == [] {
      assert a + b == b;
    } else {
      assert (a + b)[1..] == a[1..] + b;
      ArrivedAppend(Step(s, a[0]), a[1..], b, t);
    }
  }

  lemma {:induction false} NoFinishNoArrival(s: Pool, acts: seq<Action>, t: Token)
    requires forall i :: 0 <= i < |acts| ==> !acts[i].Finish?
    ensures !Arrived(s, acts, t, true)
    decreases |acts|
  {
    hide Step, Enabled;
    if acts != [] && Enabled(s, acts[0]) {
      NoFinishNoArrival(Step(s, acts[0]), acts[1..], t);
    }
  }

  lemma WhatProbeEnds(s: Pool, t: Token, how: Ending)
    requires PhaseOf(s, t).Held? && ProbeEnds(s, t, how) && IsKeeper(s, t)
    ensures var (r, acts) := (Run(s, ProbeActions(t, how)), ProbeActions(t, how));
            && r.Some? && r.value.keeper == s.keeper
            && (if Replies(how) then PhaseOf(r.value, t).Answered? else PhaseOf(r.value, t).Discarding?)
            && r.value.running == (if how.TooLate? then s.running[t := PhaseOf(s, t).c] else s.running)
            && (Arrived(s, acts, t, true) <==> Replies(how))
  {
  }

  lemma RoundRuns(s: Pool, how: Ending, dialOk: bool)
    requires Inv(s) && s.keeper.Picking?
    ensures var (acts, t, n) := (RoundActions(s, how, dialOk), s.tokens, |s.cs|);
            && Run(s, acts).Some? && Run(s, acts).value.keeper.Picking?
            && Run(s, acts).value.running
               == (if n > 0 && how.TooLate? then s.running[t := s.cs[n - 1]] else s.running)
            && (n > 0 ==> (Arrived(s, acts, t, true) <==> Replies(how)))
  {
    hide Step, Enabled, PhaseOf, ProbeEnds, ProbeActions, AfterProbe, Inv;
    var (t, n) := (s.tokens, |s.cs|);
    var tail := AfterProbe(n, Replies(how), dialOk);
    OnPick(s);
    var s1 := Step(s, Pick);
    if n == 0 {
      assert [] + tail == tail;
      OneAction(s, Pick, tail, t, true);
      AfterProbeRuns(s1, n, Replies(how), dialOk);
    } else {
      var probe := ProbeActions(t, how);
      OneAction(s, Pick, probe + tail, t, true);
      ProbeEndsAnyWay(s1, t, how);
      WhatProbeEnds(s1, t, how);
      RunAppend(s1, probe, tail);
      ArrivedAppend(s1, probe, tail, t);
      var s2 := Run(s1, probe).value;
      AfterProbeRuns(s2, n, Replies(how), dialOk);
      NoFinishInTail(n, Replies(how), dialOk);
      NoFinishNoArrival(s2, tail, t);
      PickIsNoArrival(s, t);
    }
  }

  lemma NoFinishInTail(n: nat, good: bool, dialOk: bool)
    ensures var a := AfterProbe(n, good, dialOk); forall i :: 0 <= i < |a| ==> !a[i].Finish?
  {
  }

  lemma PickIsNoArrival(s: Pool, t: Token)
    ensures !Arrives(s, Pick, t, true)
  {
  }

  lemma RoundIsRound(s: Pool, how: Ending, dialOk: bool)
    ensures IsRound(RoundActions(s, how, dialOk))
  {
    var acts := RoundActions(s, how, dialOk);
    var probe := if |s.cs| == 0 then [] else ProbeActions(s.tokens, how);
    var tail := AfterProbe(|s.cs|, Replies(how), dialOk);
    assert acts[1..] == probe + tail;
    assert Quiet(probe) && Quiet(tail);
  }

  /** From every state in which the worker picks, its round can end in each way: with a reply in time the
      probed connection is pooled first; with an error, too late or too early it is closed; and only a
      late probe is left in flight.  With nothing pooled the worker just dials. */
  lemma RoundOutcomes(s: Pool, how: Ending, dialOk: bool)
    requires Inv(s) && s.keeper.Picking?
    ensures var (r, n) := (Run(s, RoundActions(s, how, dialOk)), |s.cs|);
            && r.Some? && r.value.keeper.Picking?
            && r.value.cs == (if n == 0 then [] else (if Replies(how) then [s.cs[n - 1]] else []) + s.cs[..n - 1])
            && r.value.closed == s.closed + (if n > 0 && !Replies(how) then [s.cs[n - 1]] else [])
            && r.value.running == (if n > 0 && how.TooLate? then s.running[s.tokens := s.cs[n - 1]] else s.running)
  {
    hide Inv, RoundActions, IsRound;
    RoundRuns(s, how, dialOk);
    RoundIsRound(s, how, dialOk);
    RoundExactly(s, RoundActions(s, how, dialOk));
    if |s.cs| > 0 {
      assert [] + s.cs[..|s.cs| - 1] == s.cs[..|s.cs| - 1];
    }
  }
}
