/** The pooled list as the program changes it, and what one undisturbed keepalive pass leaves of it.
    A connection answers when the reply to its probe comes while the worker waits for it. */
module Keepalive {
  import opened Options
  import opened ConnectionPool

  const TEN_SECONDS := 10_000_000_000

  /** The connections that answer, in their order. */
  function Survivors(s: seq<Conn>, answers: Conn -> bool): seq<Conn> {
    if s == [] then []
    else (if answers(s[0]) then [s[0]] else []) + Survivors(s[1..], answers)
  }

  function Not(p: Conn -> bool): Conn -> bool {
    (c: Conn) => !p(c)
  }

  predicate AllAnswer(s: seq<Conn>, answers: Conn -> bool) {
    forall c :: c in s ==> answers(c)
  }

  /** The pooled list after k undisturbed rounds on `all`. */
  function ListAfter(all: seq<Conn>, k: nat, answers: Conn -> bool): seq<Conn>
    requires k <= |all|
  {
    Survivors(all[|all| - k..], answers) + all[..|all| - k]
  }

  function Reversed(s: seq<Conn>): seq<Conn> {
    if s == [] then [] else Reversed(s[1..]) + [s[0]]
  }

  function Sum(s: seq<nat>): nat {
    if s == [] then 0 else Sum(s[..|s| - 1]) + s[|s| - 1]
  }

  class ROSConnectionPool {
    var cs: seq<Conn>
    var closed: seq<Conn>
    var probed: seq<Conn>
    var dialled: nat

    constructor ()
      ensures cs == [] && closed == [] && probed == [] && dialled == 0
    {
      cs, closed, probed, dialled := [], [], [], 0;
    }

    method MakeConnection(ok: bool) returns (c: Option<Conn>)
      modifies `dialled
      ensures c == if ok then Some(old(dialled)) else None
      ensures dialled == old(dialled) + if ok then 1 else 0
    {
      if !ok {
        return None;
      }
      c := Some(dialled);
      dialled := dialled + 1;
    }

    /** The oldest pooled connection, or a new one when nothing is pooled. */
    method Get(dialOk: bool) returns (c: Option<Conn>)
      modifies this
      ensures closed == old(closed) && probed == old(probed)
      ensures if |old(cs)| > 0 then c == Some(old(cs)[0]) && cs == old(cs)[1..] && dialled == old(dialled)
              else c == (if dialOk then Some(old(dialled)) else None) && cs == []
                   && dialled == old(dialled) + if dialOk then 1 else 0
    {
      if |cs| > 0 {
        c := Some(cs[0]);
        cs := cs[1..];
        return;
      }
      c := MakeConnection(dialOk);
    }

    method Put(c: Conn)
      modifies this`cs
      ensures cs == old(cs) + [c]
    {
      cs := cs + [c];
    }

    /** A command on a pooled or new connection, without interference: the connection is pooled again
        when the completion arrives in time, and closed otherwise. */
    method RunArgs(dialOk: bool, signalled: bool) returns (ok: bool)
      modifies this
      ensures var had := |old(cs)| > 0;
              var c := if had then old(cs)[0] else old(dialled);
              && (ok <==> (had || dialOk) && signalled)
              && cs == CallEffect(old(cs), ok) + (if !had && ok then [c] else [])
              && closed == old(closed) + (if (had || dialOk) && !signalled then [c] else [])
              && dialled == old(dialled) + if !had && dialOk then 1 else 0
    {
      var conn := Get(dialOk);
      if conn.None? {
        return false;
      }
      if signalled {
        Put(conn.value);
      } else {
        closed := closed + [conn.value];
      }
      ok := signalled;
    }

    /** One round of the keepalive loop in which nobody else uses the pool. */
    method Round(answers: Conn -> bool, dialOk: bool) returns (sleep: nat)
      modifies this
      ensures var n := |old(cs)|;
              && cs == RoundEffect(old(cs), n > 0 && answers(old(cs)[n - 1]))
              && probed == old(probed) + (if n > 0 then [old(cs)[n - 1]] else [])
              && closed == old(closed)
                           + (if n > 0 && !answers(old(cs)[n - 1]) then [old(cs)[n - 1]] else [])
              && sleep == TEN_SECONDS / (if n > 0 && answers(old(cs)[n - 1]) then n
                                         else if n > 1 then n - 1 else 1)
    {
      var count := |cs|;
      if count > 0 {
        var c := cs[count - 1];
        cs := cs[..count - 1];
        probed := probed + [c];
        if answers(c) {
          cs := [c] + cs;
          return TEN_SECONDS / count;
        }
        closed := closed + [c];
        count := count - 1;
      }
      if count == 0 {
        count := 1;
        var _ := MakeConnection(dialOk);
      }
      sleep := TEN_SECONDS / count;
    }

    /** As many rounds as connections are pooled: each is probed once, from the back, and those that
        answer are left in their order. */
    method Pass(answers: Conn -> bool, dialOk: nat -> bool) returns (sleeps: seq<nat>)
      modifies this
      ensures cs == Survivors(old(cs), answers)
      ensures probed == old(probed) + Reversed(old(cs))
      ensures closed == old(closed) + Reversed(Survivors(old(cs), Not(answers)))
      ensures |sleeps| == |old(cs)|
      ensures AllAnswer(old(cs), answers) && |old(cs)| > 0 ==>
                cs == old(cs) && 10_000_000_000 - |sleeps| < Sum(sleeps) <= 10_000_000_000
    {
      hide ListAfter, RoundEffect, Not, AllAnswer;
      var n := |cs|;
      ghost var all, shut, seen := cs, closed, probed;
      sleeps := [];
      PassEnds(all, answers);
      for k := 0 to n
        invariant |sleeps| == k
        invariant cs == ListAfter(all, k, answers)
        invariant probed == seen + Reversed(all[n - k..])
        invariant closed == shut + Reversed(Survivors(all[n - k..], Not(answers)))
        invariant AllAnswer(all, answers) ==>
                    |cs| == n && forall i :: 0 <= i < k ==> sleeps[i] == TEN_SECONDS / n
      {
        PassStep(all, k, answers);
        RoundKeepsLength(cs);
        var sleep := Round(answers, dialOk(k));
        sleeps := sleeps + [sleep];
      }
      if n > 0 && AllAnswer(all, answers) {
        AllSurvive(all, answers);
        PassLastsTenSeconds(sleeps);
      }
    }
  }

  lemma RoundKeepsLength(cs: seq<Conn>)
    ensures |RoundEffect(cs, true)| == |cs|
  {
  }

  lemma PassEnds(all: seq<Conn>, answers: Conn -> bool)
    ensures ListAfter(all, 0, answers) == all
    ensures ListAfter(all, |all|, answers) == Survivors(all, answers)
    ensures all[|all|..] == [] && all[0..] == all
    ensures Survivors([], Not(answers)) == [] && Reversed([]) == []
  {
    assert all[..0] == [];
  }

  /** One more round probes the next connection from the back. */
  lemma PassStep(all: seq<Conn>, k: nat, answers: Conn -> bool)
    requires k < |all|
    ensures var (x, now) := (all[|all| - k - 1], ListAfter(all, k, answers));
            && |now| > 0 && now[|now| - 1] == x && (AllAnswer(all, answers) ==> answers(x))
            && RoundEffect(now, answers(x)) == ListAfter(all, k + 1, answers)
            && Reversed(all[|all| - k - 1..]) == Reversed(all[|all| - k..]) + [x]
            && Reversed(Survivors(all[|all| - k - 1..], Not(answers)))
               == Reversed(Survivors(all[|all| - k..], Not(answers))) + (if answers(x) then [] else [x])
  {
    var m := |all| - k;
    var x := all[m - 1];
    var now := ListAfter(all, k, answers);
    assert now[..|now| - 1] == Survivors(all[m..], answers) + all[..m - 1];
    assert all[m - 1..] == [x] + all[m..];
    SurvivorsCons(x, all[m..], answers);
    SurvivorsCons(x, all[m..], Not(answers));
  }

  lemma SurvivorsCons(x: Conn, rest: seq<Conn>, answers: Conn -> bool)
    ensures Survivors([x] + rest, answers)
            == (if answers(x) then [x] else []) + Survivors(rest, answers)
    ensures Reversed(Survivors([x] + rest, answers))
            == Reversed(Survivors(rest, answers)) + (if answers(x) then [x] else [])
    ensures Reversed([x] + rest) == Reversed(rest) + [x]
  {
    assert ([x] + rest)[1..] == rest;
    var s := Survivors(rest, answers);
    assert ([x] + s)[1..] == s && [] + s == s;
  }

  /** The survivors are exactly the connections that answer. */
  lemma {:induction false} SurvivorsAnswer(s: seq<Conn>, answers: Conn -> bool)
    ensures forall c :: c in Survivors(s, answers) <==> c in s && answers(c)
  {
    if s != [] {
      SurvivorsAnswer(s[1..], answers);
      assert s == [s[0]] + s[1..];
    }
  }

  /** What survives of two parts survives in the order of the parts. */
  lemma {:induction false} SurvivorsInOrder(s: seq<Conn>, t: seq<Conn>, answers: Conn -> bool)
    ensures Survivors(s + t, answers) == Survivors(s, answers) + Survivors(t, answers)
  {
    if s == [] {
      assert s + t == t;
    } else {
      assert (s + t)[1..] == s[1..] + t;
      SurvivorsInOrder(s[1..], t, answers);
      var head := if answers(s[0]) then [s[0]] else [];
      var a, b := Survivors(s[1..], answers), Survivors(t, answers);
      assert Survivors(s + t, answers) == head + (a + b) == (head + a) + b;
    }
  }

  lemma {:induction false} AllSurvive(s: seq<Conn>, answers: Conn -> bool)
    requires AllAnswer(s, answers)
    ensures Survivors(s, answers) == s
  {
    if s != [] {
      AllSurvive(s[1..], answers);
    }
  }

  lemma {:induction false} SumOfEqual(s: seq<nat>, v: nat)
    requires forall k :: 0 <= k < |s| ==> s[k] == v
    ensures Sum(s) == |s| * v
  {
    if s != [] {
      SumOfEqual(s[..|s| - 1], v);
      assert |s| * v == (|s| - 1) * v + v;
    }
  }

  /** When all n connections answer, the n sleeps of a pass add up to ten seconds, less than n
      nanoseconds short. */
  lemma PassLastsTenSeconds(sleeps: seq<nat>)
    requires |sleeps| > 0
    requires forall k :: 0 <= k < |sleeps| ==> sleeps[k] == TEN_SECONDS / |sleeps|
    ensures 10_000_000_000 - |sleeps| < Sum(sleeps) <= 10_000_000_000
  {
    SumOfEqual(sleeps, TEN_SECONDS / |sleeps|);
  }
}
