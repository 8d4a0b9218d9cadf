/** Which connections successful calls and keepalive rounds work on, one after the other: calls turn
    the pooled list one way, rounds turn it back. */
module Rotation {
  import opened Options
  import opened ConnectionPool
  import opened Prefix
  import opened Undisturbed

  // ---------------------------------------------------------------- turning a list

  /** The list turned so that it starts at index k, counted modulo its length. */
  function Turned(cs: seq<Conn>, k: int): (r: seq<Conn>)
    requires cs != []
    ensures |r| == |cs|
  {
    cs[k % |cs|..] + cs[..k % |cs|]
  }

  lemma NextIndex(k: int, n: nat)
    requires n > 0
    ensures (k + 1) % n == if k % n == n - 1 then 0 else k % n + 1
    ensures (k - 1) % n == if k % n == 0 then n - 1 else k % n - 1
  {
    var q, r := k / n, k % n;
    assert k == q * n + r;
    if r == n - 1 {
      assert k + 1 == (q + 1) * n + 0;
      DivModUnique(k + 1, n, q + 1, 0);
    } else {
      DivModUnique(k + 1, n, q, r + 1);
    }
    if r == 0 {
      assert k - 1 == (q - 1) * n + (n - 1);
      DivModUnique(k - 1, n, q - 1, n - 1);
    } else {
      DivModUnique(k - 1, n, q, r - 1);
    }
  }

  /** A successful call turns the list forward, from its first connection. */
  lemma CallTurns(cs: seq<Conn>, k: int)
    requires cs != []
    ensures var now := Turned(cs, k);
            now[0] == cs[k % |cs|] && CallEffect(now, true) == Turned(cs, k + 1)
  {
    hide CallEffect;
    var n := |cs|;
    NextIndex(k, n);
    var now, next := Turned(cs, k), Turned(cs, k + 1);
    CallMoves(now);
    forall i | 0 <= i < n ensures CallEffect(now, true)[i] == next[i] {
    }
  }

  lemma CallMoves(cs: seq<Conn>)
    requires cs != []
    ensures CallEffect(cs, true) == cs[1..] + [cs[0]]
  {
  }

  /** A successful round turns the list back, from its last connection. */
  lemma RoundTurns(cs: seq<Conn>, k: int)
    requires cs != []
    ensures var now := Turned(cs, k);
            now[|now| - 1] == cs[(k - 1) % |cs|] && RoundEffect(now, true) == Turned(cs, k - 1)
  {
    var n := |cs|;
    NextIndex(k, n);
    var now, next := Turned(cs, k), Turned(cs, k - 1);
    forall i | 0 <= i < n ensures RoundEffect(now, true)[i] == next[i] {
    }
  }

  // ---------------------------------------------------------------- runs of turns

  /** A call or a keepalive round that nobody disturbs. */
  datatype Turn = CallTurn(acts: seq<Action>) | RoundTurn(acts: seq<Action>)

  /** The turn is complete, and its completion came in time. */
  predicate Succeeds(s: Pool, t: Turn) {
    Run(s, t.acts).Some? &&
    match t
    case CallTurn(acts) =>
      IsCall(acts, s.tokens) && CallOver(Run(s, acts).value, s.tokens) && Arrived(s, acts, s.tokens, false)
    case RoundTurn(acts) =>
      IsRound(acts) && s.keeper.Picking? && Run(s, acts).value.keeper.Picking? && InTime(s, acts)
  }

  function After(s: Pool, t: Turn): Pool
    requires Succeeds(s, t)
  {
    Run(s, t.acts).value
  }

  /** The pool after turns that all succeed. */
  function RunTurns(s: Pool, ts: seq<Turn>): Option<Pool> {
    if ts == [] then Some(s) else
    match RunTurns(s, ts[..|ts| - 1])
    case None => None
    case Some(m) => var t := ts[|ts| - 1]; if Succeeds(m, t) then Some(After(m, t)) else None
  }

  /** Calls minus rounds. */
  function Balance(ts: seq<Turn>): int {
    if ts == [] then 0
    else Balance(ts[..|ts| - 1]) + if ts[|ts| - 1].CallTurn? then 1 else -1
  }

  /** The turn's user works on the connection: it holds it from its first action on. */
  predicate WorksOn(s: Pool, t: Turn, c: Conn) {
    t.acts != [] && Enabled(s, t.acts[0]) && Holds(Step(s, t.acts[0]), s.tokens, c)
  }

  lemma CallWorks(s: Pool, t: Turn)
    requires Inv(s) && s.cs != [] && t.CallTurn? && Succeeds(s, t)
    ensures Inv(After(s, t)) && After(s, t).cs == CallEffect(s.cs, true)
    ensures forall c :: WorksOn(s, t, c) <==> c == s.cs[0]
  {
    CallMoves(s.cs);
    CallHolds(s);
    hide Inv, IsCall, CallOver, Arrived, CallEffect, Step;
    CallExactly(s, t.acts);
    RunKeepsInv(s, t.acts);
    CallBegins(t.acts, s.tokens);
  }

  lemma CallBegins(acts: seq<Action>, t: Token)
    requires IsCall(acts, t)
    ensures acts != [] && acts[0] == Call
  {
  }

  lemma CallHolds(s: Pool)
    requires Inv(s) && s.cs != []
    ensures forall c :: Holds(Step(s, Call), s.tokens, c) <==> c == s.cs[0]
  {
  }

  lemma PickHolds(s: Pool)
    requires Inv(s) && s.keeper.Picking? && s.cs != []
    ensures forall c :: Holds(Step(s, Pick), s.tokens, c) <==> c == s.cs[|s.cs| - 1]
  {
  }

  lemma RoundWorks(s: Pool, t: Turn)
    requires Inv(s) && s.cs != [] && t.RoundTurn? && Succeeds(s, t)
    ensures Inv(After(s, t)) && After(s, t).cs == RoundEffect(s.cs, true)
    ensures forall c :: WorksOn(s, t, c) <==> c == s.cs[|s.cs| - 1]
  {
    PickHolds(s);
    hide Inv, InTime, RoundEffect, Step, Quiet;
    RoundExactly(s, t.acts);
    RunKeepsInv(s, t.acts);
  }

  /** The index of the connection, in the first list, that the i-th turn works on. */
  function IndexAt(ts: seq<Turn>, i: nat, n: nat): (k: nat)
    requires i < |ts| && n > 0
    ensures k < n
  {
    (Balance(ts[..i]) - if ts[i].CallTurn? then 0 else 1) % n
  }

  lemma TurnTurns(s: Pool, cs: seq<Conn>, k: int, t: Turn)
    requires Inv(s) && cs != [] && s.cs == Turned(cs, k) && Succeeds(s, t)
    ensures Inv(After(s, t)) && After(s, t).cs == Turned(cs, if t.CallTurn? then k + 1 else k - 1)
    ensures forall c :: WorksOn(s, t, c) <==> c == cs[(k - if t.CallTurn? then 0 else 1) % |cs|]
  {
    hide Inv, Turned, Succeeds, WorksOn, CallEffect, RoundEffect;
    TurnedLength(cs, k);
    if t.CallTurn? {
      CallWorks(s, t);
      CallTurns(cs, k);
    } else {
      RoundWorks(s, t);
      RoundTurns(cs, k);
    }
  }

  lemma TurnedLength(cs: seq<Conn>, k: int)
    requires cs != []
    ensures |Turned(cs, k)| == |cs| > 0
  {
  }

  lemma RunTurnsLast(s: Pool, ts: seq<Turn>)
    requires ts != [] && RunTurns(s, ts).Some?
    ensures var (n, m) := (|ts| - 1, RunTurns(s, ts[..|ts| - 1]));
            m.Some? && Succeeds(m.value, ts[n]) && RunTurns(s, ts) == Some(After(m.value, ts[n]))
  {
    hide Succeeds, After;
  }

  lemma TurnedByNothing(cs: seq<Conn>)
    requires cs != []
    ensures Turned(cs, 0) == cs
  {
    assert cs[0..] + cs[..0] == cs;
  }

  /** After any successful turns the list is the first one turned by calls minus rounds. */
  lemma {:induction false} ListIsTurned(s: Pool, ts: seq<Turn>)
    requires Inv(s) && s.cs != [] && RunTurns(s, ts).Some?
    ensures Inv(RunTurns(s, ts).value)
    ensures RunTurns(s, ts).value.cs == Turned(s.cs, Balance(ts))
  {
    hide Inv, Turned, Succeeds, WorksOn, After;
    if ts == [] {
      TurnedByNothing(s.cs);
    } else {
      var n := |ts| - 1;
      RunTurnsLast(s, ts);
      ListIsTurned(s, ts[..n]);
      TurnTurns(RunTurns(s, ts[..n]).value, s.cs, Balance(ts[..n]), ts[n]);
    }
  }

  lemma {:induction false} PrefixRuns(s: Pool, ts: seq<Turn>, i: nat)
    requires RunTurns(s, ts).Some? && i < |ts|
    ensures RunTurns(s, ts[..i]).Some? && Succeeds(RunTurns(s, ts[..i]).value, ts[i])
    decreases |ts|
  {
    hide Succeeds;
    var n := |ts| - 1;
    if i < n {
      PrefixRuns(s, ts[..n], i);
      assert ts[..n][..i] == ts[..i];
    }
  }

  /** Each turn works on exactly one connection: the one that calls minus rounds so far point at, or
      for a round the one before it. */
  lemma EachTurnWorksOn(s: Pool, ts: seq<Turn>, i: nat)
    requires Inv(s) && s.cs != [] && RunTurns(s, ts).Some? && i < |ts|
    ensures RunTurns(s, ts[..i]).Some?
    ensures forall c :: WorksOn(RunTurns(s, ts[..i]).value, ts[i], c) <==> c == s.cs[IndexAt(ts, i, |s.cs|)]
  {
    hide Inv, Turned, Succeeds, WorksOn;
    PrefixRuns(s, ts, i);
    ListIsTurned(s, ts[..i]);
    TurnTurns(RunTurns(s, ts[..i]).value, s.cs, Balance(ts[..i]), ts[i]);
  }

  /** Some keepalive round of the run works on the connection. */
  predicate Probed(s: Pool, ts: seq<Turn>, c: Conn) {
    exists i :: 0 <= i < |ts| && ts[i].RoundTurn? && RunTurns(s, ts[..i]).Some?
                && WorksOn(RunTurns(s, ts[..i]).value, ts[i], c)
  }

  predicate ProbesIndex(ts: seq<Turn>, j: nat, n: nat)
    requires n > 0
  {
    exists i :: 0 <= i < |ts| && ts[i].RoundTurn? && IndexAt(ts, i, n) == j
  }

  /** A pooled connection is kept alive exactly when calls minus rounds come to point behind it. */
  lemma ProbedExactly(s: Pool, ts: seq<Turn>, j: nat)
    requires Inv(s) && RunTurns(s, ts).Some? && j < |s.cs|
    ensures Probed(s, ts, s.cs[j]) <==> ProbesIndex(ts, j, |s.cs|)
  {
    hide Inv, WorksOn, IndexAt;
    if Probed(s, ts, s.cs[j]) {
      var i :| 0 <= i < |ts| && ts[i].RoundTurn? && RunTurns(s, ts[..i]).Some?
               && WorksOn(RunTurns(s, ts[..i]).value, ts[i], s.cs[j]);
      EachTurnWorksOn(s, ts, i);
      PooledOnce(s, j, IndexAt(ts, i, |s.cs|));
    }
    if ProbesIndex(ts, j, |s.cs|) {
      var i :| 0 <= i < |ts| && ts[i].RoundTurn? && IndexAt(ts, i, |s.cs|) == j;
      EachTurnWorksOn(s, ts, i);
    }
  }

  lemma PooledOnce(s: Pool, i: nat, j: nat)
    requires Inv(s) && i < |s.cs| && j < |s.cs| && s.cs[i] == s.cs[j]
    ensures i == j
  {
  }

  // ---------------------------------------------------------------- starvation

  predicate Alternating(ts: seq<Turn>) {
    forall i :: 0 <= i < |ts| ==> (ts[i].CallTurn? <==> i % 2 == 0)
  }

  lemma {:induction false} AlternatingBalance(ts: seq<Turn>)
    requires Alternating(ts)
    ensures Balance(ts) == |ts| % 2
  {
    if ts != [] {
      AlternatingBalance(ts[..|ts| - 1]);
    }
  }

  /** One call before each round, and the first connection does all the work: it is used and probed
      every time, and no other connection is ever kept alive. */
  lemma AlternationStarves(s: Pool, ts: seq<Turn>, i: nat)
    requires Inv(s) && s.cs != [] && RunTurns(s, ts).Some? && Alternating(ts) && i < |ts|
    ensures RunTurns(s, ts[..i]).Some?
    ensures forall c :: WorksOn(RunTurns(s, ts[..i]).value, ts[i], c) <==> c == s.cs[0]
    ensures forall j :: 0 < j < |s.cs| ==> !Probed(s, ts, s.cs[j])
  {
    hide Inv, WorksOn, Probed;
    EachTurnWorksOn(s, ts, i);
    AlternatesAtFirst(ts, i, |s.cs|);
    forall j | 0 < j < |s.cs| ensures !Probed(s, ts, s.cs[j]) {
      ProbedExactly(s, ts, j);
      forall k | 0 <= k < |ts| ensures IndexAt(ts, k, |s.cs|) == 0 {
        AlternatesAtFirst(ts, k, |s.cs|);
      }
    }
  }

  lemma AlternatesAtFirst(ts: seq<Turn>, i: nat, n: nat)
    requires Alternating(ts) && i < |ts| && n > 0
    ensures IndexAt(ts, i, n) == 0
  {
    AlternatingBalance(ts[..i]);
  }

  /** Rounds alone keep every connection alive: as many rounds as connections probe each one. */
  lemma RoundsAloneProbeAll(s: Pool, ts: seq<Turn>, j: nat)
    requires Inv(s) && RunTurns(s, ts).Some? && j < |s.cs| <= |ts|
    requires forall i :: 0 <= i < |ts| ==> ts[i].RoundTurn?
    ensures Probed(s, ts, s.cs[j])
  {
    hide Inv, Probed;
    var n := |s.cs|;
    var i := n - 1 - j;
    RoundsBalance(ts[..i]);
    DivModUnique(-i - 1, n, -1, j);
    assert ts[i].RoundTurn? && IndexAt(ts, i, n) == j;
    ProbedExactly(s, ts, j);
  }

  lemma {:induction false} RoundsBalance(ts: seq<Turn>)
    requires forall i :: 0 <= i < |ts| ==> ts[i].RoundTurn?
    ensures Balance(ts) == -|ts|
  {
    if ts != [] {
      RoundsBalance(ts[..|ts| - 1]);
    }
  }
}
