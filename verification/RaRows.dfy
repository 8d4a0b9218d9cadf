/** What the router advertisement worker makes of the router, in terms of the configuration and the
    rows of the router's tables. */
module RaRows {
  import opened Options
  import opened Prefix
  import opened FlexibleIPs
  import opened RouterOS
  import opened Reconciliation
  import opened RouterRows
  import opened RaWorker
  import opened RaRuns
  import opened RaRepair

  /** The assignment's resolved address is on its interface, under its key, with its options. */
  predicate Assigned(s: State, a: ROSIPAssign, info: RouterInfo)
    requires Valid(a.ip)
  {
    HasAddress(s.addresses, a.ifname, Text(Resolve(a.ip, Some(info)).value), KeyOf(a.ip),
               a.options.advertise, a.options.eui64)
  }

  /** The first pool of the name hands out the resolved prefix in parts of the configured length. */
  predicate Exported(s: State, p: ROSPoolAssign, info: RouterInfo)
    requires Valid(p.ip)
  {
    HasPool(s.pools, p.poolname, Text(Resolve(p.ip, Some(info)).value), p.prefixLength)
  }

  /** Everything configured is on the router, for the advertised prefix and gateway. */
  predicate AsConfigured(cfg: RAConfig, info: RouterInfo, s: State)
    requires ValidConfig(cfg)
  {
    && (forall i :: 0 <= i < |cfg.rosExtIPs| ==> Assigned(s, cfg.rosExtIPs[i], info))
    && (forall i :: 0 <= i < |cfg.rosIntIPs| ==> Assigned(s, cfg.rosIntIPs[i], info))
    && (forall i :: 0 <= i < |cfg.rosPools| ==> Exported(s, cfg.rosPools[i], info))
    && (cfg.rosExtIf != "" ==> HasRoute(s.routes, cfg.rosExtIf, info.gateway))
  }

  // ---------------------------------------------------------------- the plan, in rows

  lemma AssignSettled(s: State, a: ROSIPAssign, info: RouterInfo)
    requires Valid(a.ip)
    ensures SettledOp(s, AssignOp(a, info)) <==> Assigned(s, a, info)
  {
    hide Resolve, KeyOf, HasAddress;
    AddressSettled(s.addresses, AssignOp(a, info));
  }

  lemma ExportSettled(s: State, p: ROSPoolAssign, info: RouterInfo)
    requires Valid(p.ip)
    ensures SettledOp(s, PoolOp(p, info)) <==> Exported(s, p, info)
  {
    hide Resolve, HasPool;
    PoolSettled(s.pools, PoolOp(p, info));
  }

  lemma GatewaySettled(s: State, cfg: RAConfig, info: RouterInfo)
    requires cfg.rosExtIf != ""
    ensures |GatewayOps(cfg, info)| == 1
    ensures SettledOp(s, GatewayOps(cfg, info)[0]) <==> HasRoute(s.routes, cfg.rosExtIf, info.gateway)
  {
    RouteSettled(s.routes, Op.SetIPv6Gateway(cfg.rosExtIf, info.gateway));
  }

  lemma AssignsConfigured(cfg: RAConfig, info: RouterInfo, s: State)
    requires ValidConfig(cfg)
    ensures forall i :: 0 <= i < |Assigns(cfg)| ==> Valid(Assigns(cfg)[i].ip)
    ensures (forall i :: 0 <= i < |Assigns(cfg)| ==> Assigned(s, Assigns(cfg)[i], info)) <==>
            && (forall i :: 0 <= i < |cfg.rosExtIPs| ==> Assigned(s, cfg.rosExtIPs[i], info))
            && (forall i :: 0 <= i < |cfg.rosIntIPs| ==> Assigned(s, cfg.rosIntIPs[i], info))
  {
    hide Assigned;
    AssignsAreValid(cfg);
    var n := |cfg.rosExtIPs|;
    assert forall i :: 0 <= i < n ==> Assigns(cfg)[i] == cfg.rosExtIPs[i];
    assert forall i :: 0 <= i < |cfg.rosIntIPs| ==> Assigns(cfg)[n + i] == cfg.rosIntIPs[i];
  }

  lemma ConfiguredSettles(cfg: RAConfig, info: RouterInfo, s: State, i: nat)
    requires ValidConfig(cfg) && cfg.mode == "ros" && AsConfigured(cfg, info, s) && i < |Plan(cfg, info)|
    ensures SettledOp(s, Plan(cfg, info)[i])
  {
    hide Plan, GatewayOps, AssignOp, PoolOp, SettledOp, Assigned, Exported, HasRoute;
    PlanIsThreeLists(cfg, info);
    AssignsConfigured(cfg, info, s);
    var p, a, n := Plan(cfg, info), |GatewayOps(cfg, info)|, |Assigns(cfg)|;
    if i < a {
      GatewayIsFirst(cfg, info);
      GatewaySettled(s, cfg, info);
    } else if i < a + n {
      assert p[a + (i - a)] == AssignOp(Assigns(cfg)[i - a], info);
      AssignSettled(s, Assigns(cfg)[i - a], info);
    } else {
      assert p[a + n + (i - a - n)] == PoolOp(cfg.rosPools[i - a - n], info);
      ExportSettled(s, cfg.rosPools[i - a - n], info);
    }
  }

  lemma GatewayIsFirst(cfg: RAConfig, info: RouterInfo)
    ensures |GatewayOps(cfg, info)| == if cfg.rosExtIf != "" then 1 else 0
  {
  }

  lemma SettlesConfigured(cfg: RAConfig, info: RouterInfo, s: State)
    requires ValidConfig(cfg) && cfg.mode == "ros" && AllSettled(s, Plan(cfg, info))
    ensures AsConfigured(cfg, info, s)
  {
    hide Plan, GatewayOps, AssignOp, PoolOp, SettledOp, Assigned, Exported, HasRoute;
    PlanIsThreeLists(cfg, info);
    var p, a, n := Plan(cfg, info), |GatewayOps(cfg, info)|, |Assigns(cfg)|;
    forall i | 0 <= i < n ensures Assigned(s, Assigns(cfg)[i], info) {
      assert SettledOp(s, p[a + i]);
      AssignSettled(s, Assigns(cfg)[i], info);
    }
    forall i | 0 <= i < |cfg.rosPools| ensures Exported(s, cfg.rosPools[i], info) {
      assert SettledOp(s, p[a + n + i]);
      ExportSettled(s, cfg.rosPools[i], info);
    }
    AssignsConfigured(cfg, info, s);
    if cfg.rosExtIf != "" {
      GatewaySettled(s, cfg, info);
      assert SettledOp(s, p[0]);
    }
  }

  /** The worker's plan is reached exactly when everything configured is on the router. */
  lemma PlanInRows(cfg: RAConfig, info: RouterInfo, s: State)
    requires ValidConfig(cfg) && cfg.mode == "ros"
    ensures AllSettled(s, Plan(cfg, info)) <==> AsConfigured(cfg, info, s)
  {
    hide Plan, SettledOp, AsConfigured;
    if AllSettled(s, Plan(cfg, info)) {
      SettlesConfigured(cfg, info, s);
    }
    if AsConfigured(cfg, info, s) {
      forall i | 0 <= i < |Plan(cfg, info)| ensures SettledOp(s, Plan(cfg, info)[i]) {
        ConfiguredSettles(cfg, info, s, i);
      }
    }
  }

  // ---------------------------------------------------------------- one reconcile

  /** One error-free reconcile puts everything configured on the router. */
  lemma ReconciledInRows(cfg: RAConfig, info: RouterInfo, s: State, fs: seq<Fates>)
    requires ValidConfig(cfg) && NoConflict(cfg) && cfg.mode == "ros" && WellFormed(s) && ErrorFree(fs)
    ensures AsConfigured(cfg, info, Reconciled(cfg, info, s, fs))
  {
    hide Plan, AsConfigured, WellFormed;
    var p := Plan(cfg, info);
    NoConflictIsConsistent(cfg, info);
    PassSettles(s, p, Padded(fs, |p|));
    PlanInRows(cfg, info, Reconciled(cfg, info, s, fs));
  }

  predicate IsConfigured(cfg: RAConfig, d: AddressData) {
    exists i :: 0 <= i < |Assigns(cfg)| && OwnAddress(d, Assigns(cfg)[i].ifname, KeyOf(Assigns(cfg)[i].ip))
  }

  predicate IsPool(cfg: RAConfig, name: string) {
    exists i :: 0 <= i < |cfg.rosPools| && cfg.rosPools[i].poolname == name
  }

  /** Whatever fails, a reconcile leaves all rows in their place and under their id, and changes no row
      that is not configured: no other address, no default route without the comment or without an
      external interface, no other pool, and in another mode nothing at all. */
  lemma ReconcileTouchesConfiguredOnly(cfg: RAConfig, info: RouterInfo, s: State, fs: seq<Fates>)
    requires ValidConfig(cfg) && WellFormed(s)
    ensures var r := Reconciled(cfg, info, s, fs);
            && (cfg.mode != "ros" ==> r == s)
            && |s.addresses| <= |r.addresses| && |s.routes| <= |r.routes| && |s.pools| <= |r.pools|
            && (forall i :: 0 <= i < |s.addresses| ==>
                  r.addresses[i].id == s.addresses[i].id
                  && (!IsConfigured(cfg, s.addresses[i].data) ==> r.addresses[i] == s.addresses[i]))
            && (forall i :: 0 <= i < |s.routes| ==>
                  r.routes[i].id == s.routes[i].id
                  && (!OwnRoute(s.routes[i].data) ==> r.routes[i] == s.routes[i]))
            && (forall i :: 0 <= i < |s.pools| ==>
                  r.pools[i].id == s.pools[i].id
                  && (!IsPool(cfg, s.pools[i].data.name) ==> r.pools[i] == s.pools[i]))
  {
    hide Plan, WellFormed, KeyOf;
    var p := Plan(cfg, info);
    RunTouchesOwnRowsOnly(s, p, Padded(fs, |p|));
    if cfg.mode != "ros" {
      OtherModes(cfg, info);
    } else {
      forall i | 0 <= i < |s.addresses| && !IsConfigured(cfg, s.addresses[i].data)
        ensures Reconciled(cfg, info, s, fs).addresses[i] == s.addresses[i]
      {
        NotAssigned(cfg, info, s.addresses[i].data);
      }
      forall i | 0 <= i < |s.pools| && !IsPool(cfg, s.pools[i].data.name)
        ensures Reconciled(cfg, info, s, fs).pools[i] == s.pools[i]
      {
        NotExported(cfg, info, s.pools[i].data.name);
      }
    }
  }

  lemma OtherModes(cfg: RAConfig, info: RouterInfo)
    requires ValidConfig(cfg) && cfg.mode != "ros"
    ensures Plan(cfg, info) == []
  {
  }

  lemma NotAssigned(cfg: RAConfig, info: RouterInfo, d: AddressData)
    requires ValidConfig(cfg) && cfg.mode == "ros" && !IsConfigured(cfg, d)
    ensures d.isDynamic || forall op :: op in Plan(cfg, info) && op.AssignIPv6? ==>
              d.iface != op.ifname || d.comment != RosCommentWith(op.key)
  {
    hide Plan, GatewayOps, ResolvedText, KeyOf;
    PlanIsThreeLists(cfg, info);
    var p, a := Plan(cfg, info), |GatewayOps(cfg, info)|;
    forall op | op in p && op.AssignIPv6? && !d.isDynamic
      ensures d.iface != op.ifname || d.comment != RosCommentWith(op.key)
    {
      var i :| 0 <= i < |p| && p[i] == op;
      PlanKinds(cfg, info, i);
      assert p[a + (i - a)] == AssignOp(Assigns(cfg)[i - a], info);
      assert !OwnAddress(d, Assigns(cfg)[i - a].ifname, KeyOf(Assigns(cfg)[i - a].ip));
    }
  }

  lemma NotExported(cfg: RAConfig, info: RouterInfo, name: string)
    requires ValidConfig(cfg) && cfg.mode == "ros" && !IsPool(cfg, name)
    ensures forall op :: op in Plan(cfg, info) && op.ExportIPv6Pool? ==> op.name != name
  {
    hide Plan, GatewayOps, ResolvedText, KeyOf;
    PlanIsThreeLists(cfg, info);
    var p, a, n := Plan(cfg, info), |GatewayOps(cfg, info)|, |Assigns(cfg)|;
    forall op | op in p && op.ExportIPv6Pool? ensures op.name != name {
      var i :| 0 <= i < |p| && p[i] == op;
      PlanKinds(cfg, info, i);
      assert p[a + n + (i - a - n)] == PoolOp(cfg.rosPools[i - a - n], info);
    }
  }

  /** Without an external interface the routes are left alone, whatever fails. */
  lemma {:induction false} NoGatewayNoRoutes(s: State, ops: seq<Op>, fs: seq<Fates>)
    requires |ops| == |fs| && forall i :: 0 <= i < |ops| ==> !ops[i].SetIPv6Gateway?
    ensures ApplyAll(s, ops, fs).routes == s.routes
  {
    if ops != [] {
      var n := |ops| - 1;
      NoGatewayNoRoutes(s, ops[..n], fs[..n]);
      assert ops[n] in ops;
    }
  }

  lemma RoutesLeftAlone(cfg: RAConfig, info: RouterInfo, s: State, fs: seq<Fates>)
    requires ValidConfig(cfg) && cfg.rosExtIf == ""
    ensures Reconciled(cfg, info, s, fs).routes == s.routes
  {
    hide Plan;
    var p := Plan(cfg, info);
    if cfg.mode == "ros" {
      GatewayIsFirst(cfg, info);
      forall i | 0 <= i < |p| ensures !p[i].SetIPv6Gateway? {
        PlanKinds(cfg, info, i);
      }
    } else {
      OtherModes(cfg, info);
    }
    NoGatewayNoRoutes(s, p, Padded(fs, |p|));
  }

  // ---------------------------------------------------------------- whole runs

  /** In every error-free run from the program's start, whenever the worker waits for the next
      advertisement, everything configured is on the router for the known prefix and gateway. */
  lemma ListeningAsConfigured(cfg: RAConfig, s: State, es: seq<GoodEvent>)
    requires ValidConfig(cfg) && NoConflict(cfg) && cfg.mode == "ros" && WellFormed(s) && AllErrorFree(es)
    ensures var r := Run(cfg, Started(s), es, false);
            r.phase.Listening? ==> r.info.Some? && AsConfigured(cfg, r.info.value, r.tables)
  {
    hide Plan, AsConfigured;
    ListeningIsSettled(cfg, Started(s), es, false);
    var r := Run(cfg, Started(s), es, false);
    if r.phase.Listening? {
      PlanInRows(cfg, r.info.value, r.tables);
    }
  }

  /** What repairs are about is the configuration on the router. */
  lemma DesiredIsConfigured(cfg: RAConfig, w: Worker)
    requires ValidConfig(cfg) && cfg.mode == "ros" && w.info.Some?
    ensures AsDesired(cfg, w) <==> AsConfigured(cfg, w.info.value, w.tables)
  {
    hide Plan, AsConfigured;
    PlanInRows(cfg, w.info.value, w.tables);
  }

  /** No run of the worker, whatever is lost in it, gives the router a second static address per
      interface and comment, a second commented default route, or a second pool of a name. */
  lemma NoRunAccumulates(cfg: RAConfig, w: Worker, es: seq<GoodEvent>, ifname: string, key: Key, name: string)
    requires ValidConfig(cfg)
    ensures var (s, r) := (w.tables, Run(cfg, w, es, false).tables);
            && (OneOwnAddress(s.addresses, ifname, key) ==> OneOwnAddress(r.addresses, ifname, key))
            && (OneOwnRoute(s.routes) ==> OneOwnRoute(r.routes))
            && (OnePool(s.pools, name) ==> OnePool(r.pools, name))
  {
    hide Single, OneOwnAddress, OneOwnRoute, OnePool;
    var (s, r) := (w.tables, Run(cfg, w, es, false).tables);
    var ops := [AssignIPv6(ifname, SOME_TEXT, key, false, false), Op.SetIPv6Gateway("", []),
                ExportIPv6Pool(name, SOME_TEXT, 0)];
    forall i | 0 <= i < 3 ensures Single(s, ops[i]) ==> Single(r, ops[i]) {
      if Single(s, ops[i]) {
        RunsNeverAccumulate(cfg, w, es, ops[i]);
      }
    }
    SingleInRows(s, ops[0]);
    SingleInRows(s, ops[1]);
    SingleInRows(s, ops[2]);
    SingleInRows(r, ops[0]);
    SingleInRows(r, ops[1]);
    SingleInRows(r, ops[2]);
  }
}
