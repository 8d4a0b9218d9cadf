/** What becomes of commands that were lost: which events make up for them, and that nothing else does. */
module RaRepair {
  import opened Options
  import opened FlexibleIPs
  import opened RouterOS
  import opened Reconciliation
  import opened RaWorker
  import opened RaRuns

  /** The event is a restart, the answer to the solicitation, or an advertisement that differs from
      what the worker knows. */
  predicate ChangeOrRestart(w: Worker, e: GoodEvent) {
    match (w.phase, e)
    case (Down, Start(socketOk, _, _)) => socketOk && w.info.Some?
    case (Soliciting, Advert(_, _, _)) => Received(e).prefix.ip != []
    case (Listening, Advert(_, _, _)) => w.info.None? || !Unchanged(Received(e), w.info.value)
    case _ => false
  }

  /** One of the events is of that kind when it comes. */
  predicate AnyChangeOrRestart(cfg: RAConfig, w: Worker, es: seq<GoodEvent>)
    requires ValidConfig(cfg)
  {
    es != [] &&
    var n := |es| - 1;
    (AnyChangeOrRestart(cfg, w, es[..n]) || ChangeOrRestart(Run(cfg, w, es[..n], false), es[n]))
  }

  /** The router is as desired for what the worker knows. */
  predicate AsDesired(cfg: RAConfig, w: Worker)
    requires ValidConfig(cfg) && w.info.Some?
  {
    AllSettled(w.tables, Plan(cfg, w.info.value))
  }

  ghost predicate Knowing(w: Worker) {
    WellFormed(w.tables) && w.info.Some? && FromOption(w.info.value.prefix)
  }

  /** Each owner in the configuration has at most one entry, whatever is advertised. */
  ghost predicate OwnsAtMostOne(cfg: RAConfig, s: State)
    requires ValidConfig(cfg)
  {
    forall info: RouterInfo :: AllSingle(s, Plan(cfg, info))
  }

  /** Convergence can be told: either no wishes clash, or the router starts without extra entries. */
  ghost predicate Tellable(cfg: RAConfig, s: State)
    requires ValidConfig(cfg)
  {
    NoConflict(cfg) || OwnsAtMostOne(cfg, s)
  }

  lemma PassKeepsTellable(cfg: RAConfig, s: State, ops: seq<Op>, fs: seq<Fates>)
    requires ValidConfig(cfg) && Tellable(cfg, s) && |ops| == |fs|
    ensures Tellable(cfg, ApplyAll(s, ops, fs))
  {
    hide NoConflict, Plan, Single;
    if !NoConflict(cfg) {
      forall info: RouterInfo ensures AllSingle(ApplyAll(s, ops, fs), Plan(cfg, info)) {
        forall i | 0 <= i < |Plan(cfg, info)| ensures Single(ApplyAll(s, ops, fs), Plan(cfg, info)[i]) {
          RunKeepsSingle(s, ops, fs, Plan(cfg, info)[i]);
        }
      }
    }
  }

  lemma PassReachesExactly(cfg: RAConfig, info: RouterInfo, s: State, fs: seq<Fates>)
    requires ValidConfig(cfg) && Tellable(cfg, s) && WellFormed(s) && ErrorFree(fs)
    ensures AllSettled(Reconciled(cfg, info, s, fs), Plan(cfg, info)) <==> Consistent(Plan(cfg, info))
  {
    hide NoConflict, Plan, WellFormed, Consistent;
    var p := Plan(cfg, info);
    if NoConflict(cfg) {
      NoConflictIsConsistent(cfg, info);
      PassSettles(s, p, Padded(fs, |p|));
    } else {
      PlanHasOneGateway(cfg, info);
      ConvergesExactly(s, p, Padded(fs, |p|));
    }
  }

  /** Without a change or a restart nothing is done, whatever fails and whatever is configured: what
      was lost stays lost. */
  lemma {:induction false} NothingElseActs(cfg: RAConfig, w: Worker, es: seq<GoodEvent>)
    requires ValidConfig(cfg) && w.info.Some? && !AnyChangeOrRestart(cfg, w, es)
    ensures var r := Run(cfg, w, es, false);
            r.tables == w.tables && r.info == w.info
  {
    hide Plan, Unchanged, Reconciled;
    if es != [] {
      NothingElseActs(cfg, w, es[..|es| - 1]);
    }
  }

  lemma StepActs(cfg: RAConfig, w: Worker, e: GoodEvent) returns (info: RouterInfo)
    requires ValidConfig(cfg) && Knowing(w) && ChangeOrRestart(w, e)
    ensures !e.Fail? && FromOption(info.prefix) && Step(cfg, w, e, false) == Reconciling(cfg, w, info, e.fs)
  {
    hide Plan, Unchanged, Reconciled;
    if e.Advert? {
      LastPrefixFromOption(e.options);
      info := Received(e);
    } else {
      info := w.info.value;
    }
  }

  /** After an error-free step the router is as desired exactly when the step was a change or a restart
      and the wishes do not clash, or when it was neither and the router was as desired before. */
  lemma StepDesiredExactly(cfg: RAConfig, w: Worker, e: GoodEvent)
    requires ValidConfig(cfg) && Knowing(w) && Tellable(cfg, w.tables) && EventErrorFree(e)
    ensures var r := Step(cfg, w, e, false);
            && Knowing(r) && Tellable(cfg, r.tables)
            && (AsDesired(cfg, r) <==>
                if ChangeOrRestart(w, e) then Consistent(Plan(cfg, r.info.value)) else AsDesired(cfg, w))
  {
    hide Plan, Unchanged, WellFormed, Tellable, Consistent;
    if ChangeOrRestart(w, e) {
      var info := StepActs(cfg, w, e);
      var p := Plan(cfg, info);
      PassReachesExactly(cfg, info, w.tables, e.fs);
      PassKeepsTellable(cfg, w.tables, p, Padded(e.fs, |p|));
      RunKeepsWellFormed(w.tables, p, Padded(e.fs, |p|));
    }
  }

  /** Over any error-free run: a change or a restart repairs every command lost earlier, exactly when
      the wishes do not clash, and nothing else repairs one. */
  lemma {:induction false} RepairedExactly(cfg: RAConfig, w: Worker, es: seq<GoodEvent>)
    requires ValidConfig(cfg) && Knowing(w) && Tellable(cfg, w.tables) && AllErrorFree(es)
    ensures var r := Run(cfg, w, es, false);
            && Knowing(r) && Tellable(cfg, r.tables)
            && (AsDesired(cfg, r) <==>
                if AnyChangeOrRestart(cfg, w, es) then Consistent(Plan(cfg, r.info.value))
                else AsDesired(cfg, w))
  {
    hide Step, Plan, Knowing, Tellable, Consistent, AsDesired;
    if es != [] {
      var n := |es| - 1;
      RepairedExactly(cfg, w, es[..n]);
      var m := Run(cfg, w, es[..n], false);
      StepDesiredExactly(cfg, m, es[n]);
      KnowsInfo(m);
      KnowsInfo(Step(cfg, m, es[n], false));
      KnowsInfo(w);
      KnownStays(cfg, m, es[n]);
    }
  }

  lemma KnowsInfo(w: Worker)
    requires Knowing(w)
    ensures w.info.Some?
  {
  }

  /** Without a change or a restart, the known information and so the wishes are the same. */
  lemma KnownStays(cfg: RAConfig, w: Worker, e: GoodEvent)
    requires ValidConfig(cfg) && w.info.Some?
    ensures !ChangeOrRestart(w, e) ==> Step(cfg, w, e, false).info == w.info
  {
    hide Plan, Unchanged, Reconciled;
  }

  /** While the worker listens, an advertisement repairs exactly when it differs from what is known and
      the wishes do not clash. */
  lemma AdvertRepairsExactly(cfg: RAConfig, w: Worker, e: GoodEvent)
    requires ValidConfig(cfg) && Knowing(w) && Tellable(cfg, w.tables) && w.phase.Listening?
    requires e.Advert? && EventErrorFree(e)
    ensures var r := Step(cfg, w, e, false);
            r.info.Some? &&
            (AsDesired(cfg, r) <==>
             if Unchanged(Received(e), w.info.value) then AsDesired(cfg, w)
             else Consistent(Plan(cfg, Received(e))))
  {
    hide Plan, Tellable, Consistent;
    StepDesiredExactly(cfg, w, e);
  }

  /** A restart repairs without a new advertisement, exactly when the wishes do not clash. */
  lemma RestartRepairsExactly(cfg: RAConfig, w: Worker, sendOk: bool)
    requires ValidConfig(cfg) && Knowing(w) && Tellable(cfg, w.tables) && w.phase.Listening?
    ensures var r := Run(cfg, w, [Fail, Start(true, sendOk, [])], false);
            && r.phase.Listening? && r.info == w.info
            && (AsDesired(cfg, r) <==> Consistent(Plan(cfg, w.info.value)))
  {
    var es: seq<GoodEvent> := [Fail, Start(true, sendOk, [])];
    var first: seq<GoodEvent> := [Fail];
    assert es[..1] == first && first[..0] == [];
    var m := Run(cfg, w, first, false);
    assert Run(cfg, w, first[..0], false) == w;
    assert m == w.(phase := Down);
    StepDesiredExactly(cfg, m, es[1]);
  }

  // ---------------------------------------------------------------- lost commands

  const LOST := Fates(false, LostBefore)

  predicate NoEntries(s: State) {
    s.addresses == [] && s.routes == [] && s.pools == []
  }

  lemma {:induction false} LostCommandsWriteNothing(s: State, ops: seq<Op>, fs: seq<Fates>)
    requires |ops| == |fs| && NoEntries(s)
    requires forall i :: 0 <= i < |fs| ==> fs[i] == LOST
    ensures NoEntries(ApplyAll(s, ops, fs))
  {
    if ops != [] {
      var n := |ops| - 1;
      LostCommandsWriteNothing(s, ops[..n], fs[..n]);
    }
  }

  lemma NothingSettled(s: State, op: Op)
    requires NoEntries(s)
    ensures !SettledOp(s, op)
  {
  }

  lemma NothingIsOwned(cfg: RAConfig, s: State)
    requires ValidConfig(cfg) && NoEntries(s)
    ensures Tellable(cfg, s)
  {
    hide Plan;
  }

  /** For every configuration with something to do there is a run in which the commands are lost, the
      worker listens on, and the router stays as it is through any future, with or without errors, up
      to the next change or restart; in an error-free one, these repair it unless the wishes clash. */
  lemma LostUntilChangeOrRestart(cfg: RAConfig, info: RouterInfo) returns (es: seq<GoodEvent>)
    requires ValidConfig(cfg) && FromOption(info.prefix)
    requires info.prefix.ip != [] && Plan(cfg, info) != []
    ensures var w := Run(cfg, Started(EMPTY_ROUTER), es, false);
            && w.phase.Listening? && w.info == Some(info) && NoEntries(w.tables) && !AsDesired(cfg, w)
            && (forall later: seq<GoodEvent> | !AnyChangeOrRestart(cfg, w, later) ::
                  Run(cfg, w, later, false).tables == w.tables)
            && (forall later: seq<GoodEvent> | AllErrorFree(later) ::
                  var r := Run(cfg, w, later, false);
                  r.info.Some? &&
                  (AsDesired(cfg, r) <==>
                   AnyChangeOrRestart(cfg, w, later) && Consistent(Plan(cfg, r.info.value))))
  {
    hide Plan, Step, Tellable, Consistent;
    es := LostRun(cfg, info);
    var w := Run(cfg, Started(EMPTY_ROUTER), es, false);
    NothingSettled(w.tables, Plan(cfg, info)[0]);
    NothingIsOwned(cfg, w.tables);
    forall later: seq<GoodEvent> | !AnyChangeOrRestart(cfg, w, later)
      ensures Run(cfg, w, later, false).tables == w.tables
    {
      NothingElseActs(cfg, w, later);
    }
    forall later: seq<GoodEvent> | AllErrorFree(later)
      ensures var r := Run(cfg, w, later, false);
              r.info.Some? &&
              (AsDesired(cfg, r) <==>
               AnyChangeOrRestart(cfg, w, later) && Consistent(Plan(cfg, r.info.value)))
    {
      RepairedExactly(cfg, w, later);
    }
  }

  lemma LostRun(cfg: RAConfig, info: RouterInfo) returns (es: seq<GoodEvent>)
    requires ValidConfig(cfg) && FromOption(info.prefix) && info.prefix.ip != []
    ensures var w := Run(cfg, Started(EMPTY_ROUTER), es, false);
            w.phase.Listening? && w.info == Some(info) && NoEntries(w.tables) && Knowing(w)
  {
    hide Plan, Step;
    var n := |Plan(cfg, info)|;
    var fs := seq(n, _ => LOST);
    var good := CanBeAdvertised(info);
    var e: GoodEvent := Advert(good.source, good.options, fs);
    es := [Start(true, true, []), e];
    FirstAdvertReconciles(cfg, EMPTY_ROUTER, e, false);
    assert Padded(fs, n) == fs;
    LostCommandsWriteNothing(EMPTY_ROUTER, Plan(cfg, info), fs);
    assert WellFormed(EMPTY_ROUTER);
    RunKeepsWellFormed(EMPTY_ROUTER, Plan(cfg, info), fs);
  }
}
