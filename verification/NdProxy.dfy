/** The neighbour discovery proxy's receive loop: which solicitations it takes up. */
module NdProxy {
  import opened Options
  import opened Prefix
  import opened FlexibleIPs
  import opened RouterOS
  import opened RaWorker
  import opened RaRuns
  import opened RaPrefixes
  import Epoll

  datatype NDConfig = NDConfig(prefixes: seq<FlexibleIP>, excludes: seq<FlexibleIP>)

  predicate ValidND(cfg: NDConfig) {
    && (forall i :: 0 <= i < |cfg.prefixes| ==> Valid(cfg.prefixes[i]))
    && (forall i :: 0 <= i < |cfg.excludes| ==> Valid(cfg.excludes[i]))
  }

  /** The router information as the resolution of each address finds it: the advertisement worker may
      change it at any time, also during a decision. */
  datatype Views = Views(prefix: nat -> Option<RouterInfo>, exclude: nat -> Option<RouterInfo>)

  function Steady(info: Option<RouterInfo>): Views {
    Views(_ => info, _ => info)
  }

  datatype Packet = Malformed | Solicitation(target: Bytes)

  /** One round of the loop: the system's answers to the read, and what a packet then contains. */
  datatype Reception = Reception(os: Epoll.Os, packet: Packet, views: Views)

  // ---------------------------------------------------------------- the decision

  predicate Hits(f: FlexibleIP, info: Option<RouterInfo>, x: Bytes)
    requires Valid(f)
  {
    Resolve(f, info).Some? && Contains(Resolve(f, info).value, x)
  }

  /** From the i-th on, some address resolves and contains x. */
  predicate CoveredFrom(l: seq<FlexibleIP>, i: nat, view: nat -> Option<RouterInfo>, x: Bytes)
    requires forall i :: 0 <= i < |l| ==> Valid(l[i])
  {
    exists n: nat :: i <= n < |l| && Hits(l[n], view(n), x)
  }

  /** Some prefix resolves and contains the target, and no resolvable exclude does. */
  predicate Dispatches(cfg: NDConfig, v: Views, x: Bytes)
    requires ValidND(cfg)
  {
    CoveredFrom(cfg.prefixes, 0, v.prefix, x) && !CoveredFrom(cfg.excludes, 0, v.exclude, x)
  }

  function Target(cfg: NDConfig, r: Reception): seq<Bytes>
    requires ValidND(cfg)
  {
    if r.packet.Solicitation? && Dispatches(cfg, r.views, r.packet.target) then [r.packet.target] else []
  }

  function Targets(cfg: NDConfig, rs: seq<Reception>): seq<Bytes>
    requires ValidND(cfg)
  {
    if rs == [] then []
    else Targets(cfg, rs[..|rs| - 1]) + Target(cfg, rs[|rs| - 1])
  }

  lemma TargetsNext(cfg: NDConfig, rs: seq<Reception>, k: nat)
    requires ValidND(cfg) && k < |rs|
    ensures Targets(cfg, rs[..k + 1]) == Targets(cfg, rs[..k]) + Target(cfg, rs[k])
  {
    assert rs[..k + 1][..k] == rs[..k];
  }

  /** One of the configured addresses, resolved with what is known then, is a network that contains x. */
  predicate InSome(l: seq<FlexibleIP>, view: nat -> Option<RouterInfo>, x: Bytes)
    requires forall i :: 0 <= i < |l| ==> Valid(l[i])
  {
    exists n: nat :: n < |l| && Valid(l[n])
                     && Resolve(l[n], view(n)).Some? && Contains(Resolve(l[n], view(n)).value, x)
  }

  /** The packet is a solicitation for an address in some configured prefix and in no exclude. */
  predicate Wanted(cfg: NDConfig, r: Reception)
    requires ValidND(cfg)
  {
    && r.packet.Solicitation?
    && InSome(cfg.prefixes, r.views.prefix, r.packet.target)
    && !InSome(cfg.excludes, r.views.exclude, r.packet.target)
  }

  /** out lists, in order, the targets of exactly the wanted packets, which are those at the indices ks. */
  predicate Picks(cfg: NDConfig, rs: seq<Reception>, ks: seq<nat>, out: seq<Bytes>)
    requires ValidND(cfg)
  {
    && |ks| == |out|
    && (forall i, j :: 0 <= i < j < |ks| ==> ks[i] < ks[j])
    && (forall j :: 0 <= j < |ks| ==>
          ks[j] < |rs| && rs[ks[j]].packet.Solicitation? && out[j] == rs[ks[j]].packet.target)
    && (forall i: nat :: i < |rs| ==> (i in ks <==> Wanted(cfg, rs[i])))
  }

  lemma TargetExactly(cfg: NDConfig, r: Reception)
    requires ValidND(cfg)
    ensures Target(cfg, r) == if Wanted(cfg, r) then [r.packet.target] else []
  {
    hide InSome, CoveredFrom;
    if r.packet.Solicitation? {
      CoveredIsInSome(cfg.prefixes, r.views.prefix, r.packet.target);
      CoveredIsInSome(cfg.excludes, r.views.exclude, r.packet.target);
    }
  }

  lemma CoveredIsInSome(l: seq<FlexibleIP>, view: nat -> Option<RouterInfo>, x: Bytes)
    requires forall i :: 0 <= i < |l| ==> Valid(l[i])
    ensures CoveredFrom(l, 0, view, x) <==> InSome(l, view, x)
  {
    hide Resolve, Contains;
    if CoveredFrom(l, 0, view, x) {
      var n: nat :| n < |l| && Hits(l[n], view(n), x);
      assert Contains(Resolve(l[n], view(n)).value, x);
    }
    if InSome(l, view, x) {
      var n: nat :| n < |l| && Valid(l[n])
                    && Resolve(l[n], view(n)).Some? && Contains(Resolve(l[n], view(n)).value, x);
      assert Hits(l[n], view(n), x);
    }
  }

  /** What is dispatched are the targets of exactly the wanted packets, in their order. */
  lemma {:induction false} TargetsExactly(cfg: NDConfig, rs: seq<Reception>) returns (ks: seq<nat>)
    requires ValidND(cfg)
    ensures Picks(cfg, rs, ks, Targets(cfg, rs))
  {
    hide Wanted, Target;
    if rs == [] {
      ks := [];
    } else {
      var n := |rs| - 1;
      ks := TargetsExactly(cfg, rs[..n]);
      TargetExactly(cfg, rs[n]);
      WantedIsSolicitation(cfg, rs[n]);
      if Wanted(cfg, rs[n]) {
        var all := ks + [n];
        forall i: nat | i < |rs| ensures i in all <==> Wanted(cfg, rs[i]) {
          assert i < n ==> rs[..n][i] == rs[i];
          assert i in all <==> i in ks || i == n;
        }
        ks := all;
      } else {
        forall i: nat | i < |rs| ensures i in ks <==> Wanted(cfg, rs[i]) {
          assert i < n ==> rs[..n][i] == rs[i];
        }
      }
    }
  }

  lemma WantedIsSolicitation(cfg: NDConfig, r: Reception)
    requires ValidND(cfg)
    ensures Wanted(cfg, r) ==> r.packet.Solicitation?
  {
  }

  /** How an activation ends: with an error, by indexing with -1, or not at all. */
  datatype Ending = Failed | Panicked | Waiting

  function EndOf(r: Epoll.ReadResult): Ending {
    match r
    case NoSocket => Panicked
    case ReadFrom(_, ok) => if ok then Waiting else Failed
    case _ => Failed
  }

  /** How a round of the loop ends. */
  function RoundEnd(fds: seq<int>, r: Reception): Ending {
    EndOf(Epoll.ReadOutcome(fds, r.os))
  }

  lemma CoveredNext(l: seq<FlexibleIP>, i: nat, view: nat -> Option<RouterInfo>, x: Bytes)
    requires forall i :: 0 <= i < |l| ==> Valid(l[i])
    ensures CoveredFrom(l, i, view, x) <==> (i < |l| && Hits(l[i], view(i), x)) || CoveredFrom(l, i + 1, view, x)
  {
  }

  lemma NothingBehind(l: seq<FlexibleIP>, i: nat, view: nat -> Option<RouterInfo>, x: Bytes)
    requires (forall i :: 0 <= i < |l| ==> Valid(l[i])) && i >= |l|
    ensures !CoveredFrom(l, i, view, x)
  {
  }

  class NDClient {
    const cfg: NDConfig
    const extSocks: seq<Epoll.Socket>
    var dispatched: seq<Bytes>

    constructor (cfg: NDConfig, extSocks: seq<Epoll.Socket>)
      ensures this.cfg == cfg && this.extSocks == extSocks && dispatched == []
    {
      this.cfg, this.extSocks, dispatched := cfg, extSocks, [];
    }

    /** The inner loops: the first prefix that contains the target is enough, and so is one exclude. */
    method Decide(v: Views, x: Bytes) returns (dispatch: bool)
      requires ValidND(cfg)
      ensures dispatch <==> Dispatches(cfg, v, x)
    {
      hide Resolve, Contains, Valid, CoveredFrom;
      var validPrefix := false;
      for i := 0 to |cfg.prefixes|
        invariant !validPrefix
        invariant CoveredFrom(cfg.prefixes, 0, v.prefix, x) <==> CoveredFrom(cfg.prefixes, i, v.prefix, x)
      {
        CoveredNext(cfg.prefixes, i, v.prefix, x);
        ParsedIsResolvable(cfg.prefixes[i], v.prefix(i));
        var pfip := ResolveFIP(cfg.prefixes[i], v.prefix(i));
        if pfip.None? {
          continue;
        }
        if Contains(pfip.value, x) {
          validPrefix := true;
          break;
        }
      }
      NothingBehind(cfg.prefixes, |cfg.prefixes|, v.prefix, x);
      if !validPrefix {
        return false;
      }
      for i := 0 to |cfg.excludes|
        invariant CoveredFrom(cfg.excludes, 0, v.exclude, x) <==> CoveredFrom(cfg.excludes, i, v.exclude, x)
      {
        CoveredNext(cfg.excludes, i, v.exclude, x);
        ParsedIsResolvable(cfg.excludes[i], v.exclude(i));
        var efip := ResolveFIP(cfg.excludes[i], v.exclude(i));
        if efip.None? {
          continue;
        }
        if Contains(efip.value, x) {
          return false;
        }
      }
      NothingBehind(cfg.excludes, |cfg.excludes|, v.exclude, x);
      dispatch := true;
    }

    /** The receive loop over the given input. */
    method WorkInternal(rs: seq<Reception>) returns (end: Ending, used: nat)
      requires ValidND(cfg)
      modifies this`dispatched, (set s | s in extSocks)`isValid
      ensures used <= |rs|
      ensures dispatched == old(dispatched) + Targets(cfg, rs[..used])
      ensures |old(dispatched)| <= |dispatched| && dispatched[..|old(dispatched)|] == old(dispatched)
      ensures exists ks :: Picks(cfg, rs[..used], ks, dispatched[|old(dispatched)|..])
      ensures forall i :: 0 <= i < used ==> RoundEnd(Epoll.Fds(extSocks), rs[i]).Waiting?
      ensures if end.Waiting? then used == |rs|
              else used < |rs| && end == RoundEnd(Epoll.Fds(extSocks), rs[used])
    {
      hide Dispatches, RoundEnd, Target, Picks;
      used := 0;
      ghost var before := dispatched;
      while used < |rs|
        invariant used <= |rs|
        invariant dispatched == old(dispatched) + Targets(cfg, rs[..used])
        invariant forall i :: 0 <= i < used ==> RoundEnd(Epoll.Fds(extSocks), rs[i]).Waiting?
      {
        var found;
        end, found := OneRound(rs[used]);
        if !end.Waiting? {
          ghost var ks := TargetsExactly(cfg, rs[..used]);
          assert dispatched[|before|..] == Targets(cfg, rs[..used]);
          return;
        }
        TargetsNext(cfg, rs, used);
        dispatched := dispatched + found;
        used := used + 1;
      }
      ghost var ks := TargetsExactly(cfg, rs[..used]);
      assert dispatched[|before|..] == Targets(cfg, rs[..used]);
      end := Waiting;
    }

    /** The body of the loop; found is what it dispatches. */
    method OneRound(r: Reception) returns (end: Ending, found: seq<Bytes>)
      requires ValidND(cfg)
      modifies (set s | s in extSocks)`isValid
      ensures end == RoundEnd(Epoll.Fds(extSocks), r)
      ensures end.Waiting? ==> found == Target(cfg, r)
    {
      hide Dispatches;
      var result := Epoll.ReadMultiSocksOnce(extSocks, r.os);
      if result.WaitFails? || (result.ReadFrom? && !result.ok) {
        return Failed, [];
      }
      if result.NoSocket? {
        return Panicked, [];
      }
      if r.packet.Malformed? {
        return Waiting, [];
      }
      var dispatch := Decide(r.views, r.packet.target);
      return Waiting, if dispatch then [r.packet.target] else [];
    }
  }

  /** A round goes on exactly when a socket was chosen and delivers, panics exactly when none was chosen
      although nothing failed, and fails otherwise. */
  lemma RoundEndExactly(fds: seq<int>, r: Reception)
    ensures var (o, e) := (Epoll.ReadOutcome(fds, r.os), RoundEnd(fds, r));
            && (e.Waiting? <==> o.ReadFrom? && r.os.delivers(o.index))
            && (e.Panicked? <==> o.NoSocket?)
            && (e.Failed? <==> o.WaitFails? || (o.ReadFrom? && !r.os.delivers(o.index)))
  {
  }

  /** Waiting without a timeout, a round of the loop panics exactly when all external sockets hung up,
      the last of them without data, or there are none. */
  lemma PanicsExactly(fds: seq<int>, r: Reception)
    requires var kernel := r.os.kernel;
             Epoll.Faithful(kernel) && Epoll.Meaningful(kernel) && Epoll.Untimed(kernel)
    ensures RoundEnd(fds, r).Panicked? <==>
              var p := Epoll.PollAll(fds, r.os.kernel);
              Epoll.Ready(r.os, fds) && !p.failed && (fds == [] || Epoll.AllHungUp(p.seen, |fds|))
  {
    Epoll.UntimedNoSocketExactly(fds, r.os);
  }

  // ---------------------------------------------------------------- both workers together

  /** Where the receive loop is: waiting, or about to resolve the i-th prefix or exclude for a target. */
  datatype Deciding = Idle | Checking(target: Bytes, i: nat) | Excluding(target: Bytes, i: nat)

  /** Steps of the advertisement worker, a received target, and the resolution of one address. */
  datatype Action = Ra(e: GoodEvent) | Hear(target: Bytes) | ResolveOne

  datatype System = System(ra: Worker, nd: Deciding, dispatched: seq<Bytes>)

  function Step(racfg: RAConfig, cfg: NDConfig, s: System, a: Action): System
    requires ValidConfig(racfg) && ValidND(cfg)
  {
    match (a, s.nd)
    case (Ra(e), _) => s.(ra := RaWorker.Step(racfg, s.ra, e, false))
    case (Hear(x), Idle) => s.(nd := Checking(x, 0))
    case (ResolveOne, Checking(x, i)) =>
      if i >= |cfg.prefixes| then s.(nd := Idle)
      else if Hits(cfg.prefixes[i], s.ra.info, x) then s.(nd := Excluding(x, 0))
      else s.(nd := Checking(x, i + 1))
    case (ResolveOne, Excluding(x, i)) =>
      if i >= |cfg.excludes| then s.(nd := Idle, dispatched := s.dispatched + [x])
      else if Hits(cfg.excludes[i], s.ra.info, x) then s.(nd := Idle)
      else s.(nd := Excluding(x, i + 1))
    case _ => s
  }

  function RunBoth(racfg: RAConfig, cfg: NDConfig, s: System, acts: seq<Action>): System
    requires ValidConfig(racfg) && ValidND(cfg)
    decreases |acts|
  {
    if acts == [] then s else RunBoth(racfg, cfg, Step(racfg, cfg, s, acts[0]), acts[1..])
  }

  predicate OnlyAdvertised(cfg: NDConfig) {
    forall i :: 0 <= i < |cfg.prefixes| ==> cfg.prefixes[i].raPrefix
  }

  /** In every interleaving of both workers, with prefixes in ra-prefix form only, nothing is
      dispatched before the first accepted advertisement. */
  lemma {:induction false} NothingBeforeFirstAdvert(racfg: RAConfig, cfg: NDConfig, s: System, acts: seq<Action>)
    requires ValidConfig(racfg) && ValidND(cfg) && OnlyAdvertised(cfg) && !s.nd.Excluding?
    ensures var r := RunBoth(racfg, cfg, s, acts);
            r.ra.info.None? ==> s.ra.info.None? && r.dispatched == s.dispatched && !r.nd.Excluding?
    decreases |acts|
  {
    hide Reconciled, Contains;
    if acts != [] {
      var t := Step(racfg, cfg, s, acts[0]);
      if t.nd.Excluding? {
        InfoPersists(racfg, cfg, t, acts[1..]);
      } else {
        NothingBeforeFirstAdvert(racfg, cfg, t, acts[1..]);
      }
    }
  }

  lemma {:induction false} InfoPersists(racfg: RAConfig, cfg: NDConfig, s: System, acts: seq<Action>)
    requires ValidConfig(racfg) && ValidND(cfg)
    ensures s.ra.info.Some? ==> RunBoth(racfg, cfg, s, acts).ra.info.Some?
    decreases |acts|
  {
    hide Reconciled, Hits;
    if acts != [] {
      InfoPersists(racfg, cfg, Step(racfg, cfg, s, acts[0]), acts[1..]);
    }
  }

  /** What a decision in progress will dispatch when it finds these views. */
  function Verdict(cfg: NDConfig, nd: Deciding, v: Views): seq<Bytes>
    requires ValidND(cfg)
  {
    match nd
    case Idle => []
    case Checking(x, i) =>
      if CoveredFrom(cfg.prefixes, i, v.prefix, x) && !CoveredFrom(cfg.excludes, 0, v.exclude, x) then [x] else []
    case Excluding(x, i) =>
      if CoveredFrom(cfg.excludes, i, v.exclude, x) then [] else [x]
  }

  /** The information was known at some point of the run. */
  predicate Known(racfg: RAConfig, cfg: NDConfig, s: System, acts: seq<Action>, info: Option<RouterInfo>)
    requires ValidConfig(racfg) && ValidND(cfg)
    decreases |acts|
  {
    s.ra.info == info || (acts != [] && Known(racfg, cfg, Step(racfg, cfg, s, acts[0]), acts[1..], info))
  }

  ghost predicate AllKnown(racfg: RAConfig, cfg: NDConfig, s: System, acts: seq<Action>, v: Views)
    requires ValidConfig(racfg) && ValidND(cfg)
  {
    forall n: nat :: Known(racfg, cfg, s, acts, v.prefix(n)) && Known(racfg, cfg, s, acts, v.exclude(n))
  }

  predicate NoneHeard(acts: seq<Action>) {
    forall i :: 0 <= i < |acts| ==> !acts[i].Hear?
  }

  function Put(view: nat -> Option<RouterInfo>, i: nat, info: Option<RouterInfo>): nat -> Option<RouterInfo> {
    (n: nat) => if n == i then info else view(n)
  }

  lemma PutSame(l: seq<FlexibleIP>, i: nat, j: nat, view: nat -> Option<RouterInfo>, info: Option<RouterInfo>, x: Bytes)
    requires (forall i :: 0 <= i < |l| ==> Valid(l[i])) && i < j
    ensures CoveredFrom(l, j, Put(view, i, info), x) <==> CoveredFrom(l, j, view, x)
  {
    hide Hits;
    if CoveredFrom(l, j, view, x) {
      var n: nat :| j <= n < |l| && Hits(l[n], view(n), x);
      assert Hits(l[n], Put(view, i, info)(n), x);
    }
    if CoveredFrom(l, j, Put(view, i, info), x) {
      var n: nat :| j <= n < |l| && Hits(l[n], Put(view, i, info)(n), x);
      assert Hits(l[n], view(n), x);
    }
  }

  /** The view that this step adds to those of the steps behind it. */
  function Seen(cfg: NDConfig, s: System, a: Action, v: Views): Views {
    match (a, s.nd)
    case (ResolveOne, Checking(_, i)) => v.(prefix := Put(v.prefix, i, s.ra.info))
    case (ResolveOne, Excluding(_, i)) => v.(exclude := Put(v.exclude, i, s.ra.info))
    case _ => v
  }

  /** A step of a decision goes on to a state with the same verdict. */
  lemma StepKeepsVerdict(racfg: RAConfig, cfg: NDConfig, s: System, a: Action, v: Views)
    requires ValidConfig(racfg) && ValidND(cfg) && !a.Hear?
    ensures var t := Step(racfg, cfg, s, a);
            s.dispatched + Verdict(cfg, s.nd, Seen(cfg, s, a, v)) == t.dispatched + Verdict(cfg, t.nd, v)
  {
    hide Hits, Reconciled, CoveredFrom, Put;
    var w := Seen(cfg, s, a, v);
    if a.ResolveOne? && s.nd.Checking? {
      var i := s.nd.i;
      CoveredNext(cfg.prefixes, i, w.prefix, s.nd.target);
      PutSame(cfg.prefixes, i, i + 1, v.prefix, s.ra.info, s.nd.target);
      PutHere(v.prefix, i, s.ra.info);
      if i >= |cfg.prefixes| {
        NothingBehind(cfg.prefixes, i, w.prefix, s.nd.target);
      }
    } else if a.ResolveOne? && s.nd.Excluding? {
      var i := s.nd.i;
      CoveredNext(cfg.excludes, i, w.exclude, s.nd.target);
      PutSame(cfg.excludes, i, i + 1, v.exclude, s.ra.info, s.nd.target);
      PutHere(v.exclude, i, s.ra.info);
      if i >= |cfg.excludes| {
        NothingBehind(cfg.excludes, i, w.exclude, s.nd.target);
      }
    }
  }

  lemma PutHere(view: nat -> Option<RouterInfo>, i: nat, info: Option<RouterInfo>)
    ensures Put(view, i, info)(i) == info
  {
  }

  /** However the advertisement worker interferes with a decision, it dispatches exactly what the
      information found by each resolution calls for, and that was known at some point of the run. */
  lemma {:induction false} InterleavedDecision(racfg: RAConfig, cfg: NDConfig, s: System, acts: seq<Action>)
    returns (v: Views)
    requires ValidConfig(racfg) && ValidND(cfg) && NoneHeard(acts)
    ensures AllKnown(racfg, cfg, s, acts, v)
    ensures var r := RunBoth(racfg, cfg, s, acts);
            r.nd.Idle? ==> r.dispatched == s.dispatched + Verdict(cfg, s.nd, v)
    decreases |acts|
  {
    hide Verdict, Put;
    if acts == [] {
      v := Steady(s.ra.info);
      assert s.nd.Idle? ==> Verdict(cfg, s.nd, v) == [] by {
        IdleVerdict(cfg, v);
      }
    } else {
      var t := Step(racfg, cfg, s, acts[0]);
      var later := InterleavedDecision(racfg, cfg, t, acts[1..]);
      v := Seen(cfg, s, acts[0], later);
      StepKeepsVerdict(racfg, cfg, s, acts[0], later);
      SeenIsKnown(racfg, cfg, s, acts, later);
    }
  }

  lemma IdleVerdict(cfg: NDConfig, v: Views)
    requires ValidND(cfg)
    ensures Verdict(cfg, Idle, v) == []
  {
  }

  lemma SeenIsKnown(racfg: RAConfig, cfg: NDConfig, s: System, acts: seq<Action>, later: Views)
    requires ValidConfig(racfg) && ValidND(cfg) && acts != []
    requires AllKnown(racfg, cfg, Step(racfg, cfg, s, acts[0]), acts[1..], later)
    ensures AllKnown(racfg, cfg, s, acts, Seen(cfg, s, acts[0], later))
  {
    hide Step;
    var v := Seen(cfg, s, acts[0], later);
    forall n: nat ensures Known(racfg, cfg, s, acts, v.prefix(n)) && Known(racfg, cfg, s, acts, v.exclude(n)) {
      assert v.prefix(n) == later.prefix(n) || v.prefix(n) == s.ra.info;
      assert v.exclude(n) == later.exclude(n) || v.exclude(n) == s.ra.info;
    }
  }

  /** A decision that begins in the run and ends in it dispatches the target exactly when it is wanted, in
      terms of the networks that the addresses resolve to when their turn comes. */
  lemma DecisionExactly(racfg: RAConfig, cfg: NDConfig, s: System, acts: seq<Action>, x: Bytes)
    returns (v: Views)
    requires ValidConfig(racfg) && ValidND(cfg) && NoneHeard(acts) && s.nd == Checking(x, 0)
    requires RunBoth(racfg, cfg, s, acts).nd.Idle?
    ensures AllKnown(racfg, cfg, s, acts, v)
    ensures RunBoth(racfg, cfg, s, acts).dispatched == s.dispatched +
            if InSome(cfg.prefixes, v.prefix, x) && !InSome(cfg.excludes, v.exclude, x) then [x] else []
  {
    hide InSome, AllKnown, CoveredFrom;
    v := InterleavedDecision(racfg, cfg, s, acts);
    CoveredIsInSome(cfg.prefixes, v.prefix, x);
    CoveredIsInSome(cfg.excludes, v.exclude, x);
  }

  /** Resolutions until the decision is over. */
  function Left(cfg: NDConfig, nd: Deciding): nat {
    match nd
    case Idle => 0
    case Checking(_, i) => (if i < |cfg.prefixes| then |cfg.prefixes| - i else 0) + |cfg.excludes| + 2
    case Excluding(_, i) => (if i < |cfg.excludes| then |cfg.excludes| - i else 0) + 1
  }

  predicate OnlyResolves(acts: seq<Action>) {
    forall i :: 0 <= i < |acts| ==> acts[i].ResolveOne?
  }

  lemma {:induction false} DecisionEnds(racfg: RAConfig, cfg: NDConfig, s: System, acts: seq<Action>)
    requires ValidConfig(racfg) && ValidND(cfg) && OnlyResolves(acts) && |acts| >= Left(cfg, s.nd)
    ensures RunBoth(racfg, cfg, s, acts).nd.Idle?
    decreases |acts|
  {
    hide Hits;
    if acts != [] {
      DecisionEnds(racfg, cfg, Step(racfg, cfg, s, acts[0]), acts[1..]);
    }
  }

  lemma {:induction false} OneInfoKnown(racfg: RAConfig, cfg: NDConfig, s: System, acts: seq<Action>,
        info: Option<RouterInfo>)
    requires ValidConfig(racfg) && ValidND(cfg) && OnlyResolves(acts) && Known(racfg, cfg, s, acts, info)
    ensures info == s.ra.info
    decreases |acts|
  {
    hide Hits;
    if s.ra.info != info {
      OneInfoKnown(racfg, cfg, Step(racfg, cfg, s, acts[0]), acts[1..], info);
    }
  }

  lemma SameViewSameCover(l: seq<FlexibleIP>, v: nat -> Option<RouterInfo>, w: nat -> Option<RouterInfo>, x: Bytes)
    requires (forall i :: 0 <= i < |l| ==> Valid(l[i])) && forall n: nat :: v(n) == w(n)
    ensures InSome(l, v, x) ==> InSome(l, w, x)
  {
    hide Resolve, Contains;
    if InSome(l, v, x) {
      var n: nat :| n < |l| && Valid(l[n])
                    && Resolve(l[n], v(n)).Some? && Contains(Resolve(l[n], v(n)).value, x);
      assert Resolve(l[n], w(n)).Some? && Contains(Resolve(l[n], w(n)).value, x);
    }
  }

  /** A target that is heard while the loop waits is decided on after finitely many resolutions; with
      steady router information it is dispatched exactly when it is wanted for that information. */
  lemma HeardIsDecided(racfg: RAConfig, cfg: NDConfig, s: System, x: Bytes, acts: seq<Action>)
    requires ValidConfig(racfg) && ValidND(cfg) && s.nd.Idle?
    requires OnlyResolves(acts) && |acts| >= |cfg.prefixes| + |cfg.excludes| + 2
    ensures var (r, v) := (RunBoth(racfg, cfg, s, [Hear(x)] + acts), Steady(s.ra.info));
            && r.nd.Idle?
            && r.dispatched == s.dispatched +
               if InSome(cfg.prefixes, v.prefix, x) && !InSome(cfg.excludes, v.exclude, x) then [x] else []
  {
    hide InSome, Hits, Known;
    var m := Step(racfg, cfg, s, Hear(x));
    assert ([Hear(x)] + acts)[1..] == acts;
    DecisionEnds(racfg, cfg, m, acts);
    var v := DecisionExactly(racfg, cfg, m, acts, x);
    var w := Steady(s.ra.info);
    forall n: nat ensures v.prefix(n) == w.prefix(n) && v.exclude(n) == w.exclude(n) {
      OneInfoKnown(racfg, cfg, m, acts, v.prefix(n));
      OneInfoKnown(racfg, cfg, m, acts, v.exclude(n));
    }
    SameViewSameCover(cfg.prefixes, v.prefix, w.prefix, x);
    SameViewSameCover(cfg.prefixes, w.prefix, v.prefix, x);
    SameViewSameCover(cfg.excludes, v.exclude, w.exclude, x);
    SameViewSameCover(cfg.excludes, w.exclude, v.exclude, x);
  }

  // ---------------------------------------------------------------- what is taken up

  lemma WholeMaskIsEquality(a: Bytes, x: Bytes)
    requires |a| == 16
    ensures Covers(a, CIDRMask(128), x) <==> x == a
  {
    if Covers(a, CIDRMask(128), x) {
      forall i | 0 <= i < 16 ensures x[i] == a[i] {
        assert OnesInByte(128, i) == 8;
        assert And(a[i], CIDRMask(128)[i]) == And(x[i], CIDRMask(128)[i]);
        AndWhole(a[i], x[i]);
      }
    }
  }

  lemma AndWhole(a: bv8, x: bv8)
    requires And(a, LeadingOnes(8)) == And(x, LeadingOnes(8))
    ensures a == x
  {
  }

  lemma CoveredByOne(f: FlexibleIP, view: nat -> Option<RouterInfo>, x: Bytes)
    requires Valid(f)
    ensures CoveredFrom([f], 0, view, x) <==> Hits(f, view(0), x)
  {
    hide Hits;
    if Hits(f, view(0), x) {
      assert Hits([f][0], view(0), x);
    }
  }

  /** The usual set-up, the bare prefix with the router's own address excluded: a target is taken up
      exactly when it is in the advertised prefix and is not that address. */
  lemma PrefixWithoutOwnAddress(bare: FlexibleIP, own: FlexibleIP, info: RouterInfo, ones: nat, x: Bytes)
    requires Valid(bare) && bare.cidr == -1
    requires Valid(own) && own.cidr == 128
    requires HasLength(info.prefix, ones) && |x| == 16
    ensures Dispatches(NDConfig([bare], [own]), Steady(Some(info)), x)
            <==> Contains(info.prefix, x) && x != Resolve(own, Some(info)).value.ip
  {
    var v := Steady(Some(info));
    BareIsThePrefix(bare, info, ones, x);
    WholeMaskIsEquality(Resolve(own, Some(info)).value.ip, x);
    CoveredByOne(bare, v.prefix, x);
    CoveredByOne(own, v.exclude, x);
  }

  /** Next to other prefixes, too, a bare one then takes up every target that is not excluded. */
  lemma MissingPrefixTakesUpEverything(cfg: NDConfig, i: nat, info: RouterInfo, x: Bytes)
    requires ValidND(cfg) && i < |cfg.prefixes| && cfg.prefixes[i].cidr == -1
    requires info.prefix.mask == [] && |x| == 16
    ensures var v := Steady(Some(info));
            Dispatches(cfg, v, x) <==> !CoveredFrom(cfg.excludes, 0, v.exclude, x)
  {
    MissingPrefixHoldsEverything(cfg.prefixes[i], info, x);
    assert Hits(cfg.prefixes[i], Steady(Some(info)).prefix(i), x);
  }

  /** In every run of the advertisement worker from the program's start, the bare prefix takes up every
      target that is not excluded exactly when the last Prefix Information option of the last
      advertisement taken in is missing, longer than 128, or of length 0. */
  lemma TakesUpEverythingExactly(racfg: RAConfig, s: State, es: seq<GoodEvent>, bare: FlexibleIP)
    requires ValidConfig(racfg) && RaWorker.Run(racfg, Started(s), es, false).info.Some?
    requires Valid(bare) && bare.cidr == -1
    ensures var (r, last) := (RaWorker.Run(racfg, Started(s), es, false), LastTakenIn(racfg, Started(s), es));
            last.Some? &&
            var length := LastLength(last.value.options);
            (forall excludes, x: Bytes | ValidND(NDConfig([bare], excludes)) && |x| == 16 ::
               Dispatches(NDConfig([bare], excludes), Steady(r.info), x)
               <==> !CoveredFrom(excludes, 0, Steady(r.info).exclude, x))
            <==> NoUsableLength(length) || length == Some(0)
  {
    hide HoldsEverything, NoUsableLength;
    HoldsEverythingExactly(racfg, s, es, bare);
    DispatchesAllOthersExactly(bare, RaWorker.Run(racfg, Started(s), es, false).info.value);
  }

  lemma DispatchesAllOthersExactly(bare: FlexibleIP, info: RouterInfo)
    requires Valid(bare)
    ensures (forall excludes, x: Bytes | ValidND(NDConfig([bare], excludes)) && |x| == 16 ::
               Dispatches(NDConfig([bare], excludes), Steady(Some(info)), x)
               <==> !CoveredFrom(excludes, 0, Steady(Some(info)).exclude, x))
            <==> HoldsEverything(bare, info)
  {
    hide Contains;
    var v := Steady(Some(info));
    if HoldsEverything(bare, info) {
      forall excludes, x: Bytes | ValidND(NDConfig([bare], excludes)) && |x| == 16
        ensures Dispatches(NDConfig([bare], excludes), v, x) <==> !CoveredFrom(excludes, 0, v.exclude, x)
      {
        CoveredByOne(bare, v.prefix, x);
        assert Hits(bare, Some(info), x);
      }
    } else {
      var x: Bytes :| |x| == 16 && !Contains(Resolve(bare, Some(info)).value, x);
      CoveredByOne(bare, v.prefix, x);
      NothingBehind([], 0, v.exclude, x);
      assert ValidND(NDConfig([bare], []));
      assert !Dispatches(NDConfig([bare], []), v, x);
    }
  }
}
