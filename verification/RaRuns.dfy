/** Properties of whole runs of the router advertisement worker. */
module RaRuns {
  import opened Options
  import opened Prefix
  import opened FlexibleIPs
  import opened RouterOS
  import opened Reconciliation
  import opened RaWorker

  // ---------------------------------------------------------------- which configurations converge

  function Assigns(cfg: RAConfig): seq<ROSIPAssign> {
    cfg.rosExtIPs + cfg.rosIntIPs
  }

  predicate ClashingAssigns(a: ROSIPAssign, b: ROSIPAssign) {
    a.ifname == b.ifname && KeyOf(a.ip) == KeyOf(b.ip) && a != b
  }

  predicate ClashingPools(a: ROSPoolAssign, b: ROSPoolAssign) {
    a.poolname == b.poolname && a != b
  }

  /** Assignments that share interface and key are the same, and so are pools that share a name; the
      gateway's interface name can be read back.  Only mode "ros" works on the router at all. */
  predicate NoConflict(cfg: RAConfig) {
    cfg.mode == "ros" ==>
    && (forall i, j :: 0 <= i < j < |Assigns(cfg)| ==> !ClashingAssigns(Assigns(cfg)[i], Assigns(cfg)[j]))
    && (forall i, j :: 0 <= i < j < |cfg.rosPools| ==> !ClashingPools(cfg.rosPools[i], cfg.rosPools[j]))
    && '%' !in cfg.rosExtIf
  }

  lemma AssignsAreValid(cfg: RAConfig)
    requires ValidConfig(cfg)
    ensures forall i :: 0 <= i < |Assigns(cfg)| ==> Valid(Assigns(cfg)[i].ip)
  {
    forall i | 0 <= i < |Assigns(cfg)| ensures Valid(Assigns(cfg)[i].ip) {
      var n := |cfg.rosExtIPs|;
      if i < n {
        assert Assigns(cfg)[i] == cfg.rosExtIPs[i];
      } else {
        assert Assigns(cfg)[i] == cfg.rosIntIPs[i - n];
      }
    }
  }

  lemma PlanAssign(cfg: RAConfig, info: RouterInfo, i: nat)
    requires ValidConfig(cfg) && cfg.mode == "ros" && i < |Assigns(cfg)| && Valid(Assigns(cfg)[i].ip)
    ensures var a := |GatewayOps(cfg, info)|;
            a + i < |Plan(cfg, info)| && Plan(cfg, info)[a + i] == AssignOp(Assigns(cfg)[i], info)
  {
    hide Plan, GatewayOps, AssignOp, PoolOp;
    PlanParts(cfg, info);
    var p, a, n := Plan(cfg, info), |GatewayOps(cfg, info)|, |cfg.rosExtIPs|;
    if i < n {
      assert p[a + i] == p[a..a + n][i];
    } else {
      assert p[a + i] == p[a + n..a + n + |cfg.rosIntIPs|][i - n];
    }
  }

  lemma PlanIsThreeLists(cfg: RAConfig, info: RouterInfo)
    requires ValidConfig(cfg) && cfg.mode == "ros"
    ensures forall i :: 0 <= i < |Assigns(cfg)| ==> Valid(Assigns(cfg)[i].ip)
    ensures var (g, p) := (GatewayOps(cfg, info), Plan(cfg, info));
            var (n, m) := (|Assigns(cfg)|, |cfg.rosPools|);
            && |p| == |g| + n + m
            && (forall i :: 0 <= i < |g| ==> p[i] == g[i])
            && (forall i :: 0 <= i < n ==> p[|g| + i] == AssignOp(Assigns(cfg)[i], info))
            && (forall i :: 0 <= i < m ==> p[|g| + n + i] == PoolOp(cfg.rosPools[i], info))
  {
    hide Plan, GatewayOps, AssignOp, PoolOp;
    AssignsAreValid(cfg);
    PlanParts(cfg, info);
    var p, a, n, m := Plan(cfg, info), |GatewayOps(cfg, info)|, |Assigns(cfg)|, |cfg.rosPools|;
    forall i | 0 <= i < a ensures p[i] == GatewayOps(cfg, info)[i] {
      assert p[i] == p[..a][i];
    }
    forall i | 0 <= i < n ensures p[a + i] == AssignOp(Assigns(cfg)[i], info) {
      PlanAssign(cfg, info, i);
    }
    forall i | 0 <= i < m ensures p[a + n + i] == PoolOp(cfg.rosPools[i], info) {
      assert p[a + n + i] == p[a + n..a + n + m][i];
    }
  }

  lemma PlanHasOneGateway(cfg: RAConfig, info: RouterInfo)
    requires ValidConfig(cfg)
    ensures OneGateway(Plan(cfg, info))
  {
    if cfg.mode == "ros" {
      PlanIsThreeLists(cfg, info);
    }
  }

  lemma PlanKinds(cfg: RAConfig, info: RouterInfo, i: nat)
    requires ValidConfig(cfg) && cfg.mode == "ros" && i < |Plan(cfg, info)|
    ensures var (op, a, n) := (Plan(cfg, info)[i], |GatewayOps(cfg, info)|, |Assigns(cfg)|);
            && (op.SetIPv6Gateway? <==> i < a)
            && (op.AssignIPv6? <==> a <= i < a + n)
            && (op.ExportIPv6Pool? <==> a + n <= i)
            && (op.SetIPv6Gateway? ==> i == 0 && op.ifname == cfg.rosExtIf)
  {
    hide Plan, ResolvedText, KeyOf;
    PlanIsThreeLists(cfg, info);
    var p, a, n := Plan(cfg, info), |GatewayOps(cfg, info)|, |Assigns(cfg)|;
    if i < a {
      assert p[i] == GatewayOps(cfg, info)[i];
    } else if i < a + n {
      assert p[a + (i - a)] == AssignOp(Assigns(cfg)[i - a], info);
    } else {
      assert p[a + n + (i - a - n)] == PoolOp(cfg.rosPools[i - a - n], info);
    }
  }

  lemma SameTargetSameOp(cfg: RAConfig, info: RouterInfo, i: nat, j: nat)
    requires ValidConfig(cfg) && cfg.mode == "ros" && NoConflict(cfg)
    requires i < j < |Plan(cfg, info)| && SameTarget(Plan(cfg, info)[i], Plan(cfg, info)[j])
    ensures Plan(cfg, info)[i] == Plan(cfg, info)[j]
  {
    hide Plan, GatewayOps, ResolvedText, KeyOf;
    PlanIsThreeLists(cfg, info);
    PlanKinds(cfg, info, i);
    PlanKinds(cfg, info, j);
    var p, a, n := Plan(cfg, info), |GatewayOps(cfg, info)|, |Assigns(cfg)|;
    if p[i].AssignIPv6? {
      assert p[a + (i - a)] == AssignOp(Assigns(cfg)[i - a], info);
      assert p[a + (j - a)] == AssignOp(Assigns(cfg)[j - a], info);
    } else {
      assert p[a + n + (i - a - n)] == PoolOp(cfg.rosPools[i - a - n], info);
      assert p[a + n + (j - a - n)] == PoolOp(cfg.rosPools[j - a - n], info);
    }
  }

  lemma NoConflictIsConsistent(cfg: RAConfig, info: RouterInfo)
    requires ValidConfig(cfg) && NoConflict(cfg)
    ensures Consistent(Plan(cfg, info))
  {
    if cfg.mode == "ros" {
      var p := Plan(cfg, info);
      forall i, j | 0 <= i < j < |p| && SameTarget(p[i], p[j]) ensures p[i] == p[j] {
        SameTargetSameOp(cfg, info, i, j);
      }
      forall i | 0 <= i < |p| ensures Readable(p[i]) {
        PlanKinds(cfg, info, i);
      }
    }
  }

  lemma MaskInjective(x: nat, y: nat)
    requires x < y <= 128
    ensures CIDRMask(x) != CIDRMask(y)
  {
    var k := x / 8;
    LeadingOnesInjective(OnesInByte(y, k), OnesInByte(x, k));
    assert CIDRMask(x)[k] != CIDRMask(y)[k];
  }

  lemma LeadingOnesInjective(a: nat, b: nat)
    requires b < a <= 8
    ensures LeadingOnes(a) != LeadingOnes(b)
  {
  }

  function Advertised(ip: Bytes, ones: nat): RouterInfo
    requires |ip| == 16
  {
    RouterInfo(IPNet(ip, CIDRMask(ones)), Zeros(16))
  }

  lemma WholePrefix(h: Bytes, p: Bytes)
    requires |h| == |p| == 16
    ensures Substitute(h, p, CIDRMask(128)) == p
  {
    forall i | 0 <= i < 16 ensures Mix(p[i], h[i], LeadingOnes(8)) == p[i] && OnesInByte(128, i) == 8 {
    }
  }

  lemma NoPrefix(h: Bytes, p: Bytes)
    requires |h| == |p| == 16
    ensures Substitute(h, p, CIDRMask(0)) == h
  {
    SubstituteNothing(h, p, 0);
  }

  lemma FlippedByte(b: bv8)
    ensures !b != b
  {
  }

  lemma SeparatedByLength(a: FlexibleIP, b: FlexibleIP) returns (info: RouterInfo)
    requires Valid(a) && Valid(b) && a.cidr != b.cidr
    ensures FromOption(info.prefix) && |info.prefix.ip| == 16
    ensures ResolvedText(a, info) != ResolvedText(b, info)
  {
    hide Substitute, CIDRMask;
    var own := if a.cidr == -1 then b.cidr else if b.cidr == -1 then a.cidr else 0;
    var ones := if own == 0 then 1 else 0;
    info := AdvertisedWith(Zeros(16), ones);
    var x := if a.cidr == -1 then ones else a.cidr;
    var y := if b.cidr == -1 then ones else b.cidr;
    ResolvedLength(a, info, ones);
    ResolvedLength(b, info, ones);
    if x < y {
      MaskInjective(x, y);
    } else {
      MaskInjective(y, x);
    }
  }

  lemma AdvertisedWith(ip: Bytes, ones: nat) returns (info: RouterInfo)
    requires |ip| == 16 && ones <= 128
    ensures info == Advertised(ip, ones) && FromOption(info.prefix)
            && |info.prefix.ip| == 16 && |info.prefix.mask| == 16
  {
    info := Advertised(ip, ones);
  }

  lemma ResolvedLength(f: FlexibleIP, info: RouterInfo, ones: nat)
    requires Valid(f) && HasLength(info.prefix, ones)
    ensures ResolvedText(f, info).mask == CIDRMask(if f.cidr == -1 then ones else f.cidr)
  {
  }

  lemma SeparatedByHost(a: FlexibleIP, b: FlexibleIP) returns (info: RouterInfo)
    requires Valid(a) && Valid(b) && a.ip != b.ip && a.cidr != -1 && b.cidr != -1
    ensures FromOption(info.prefix) && |info.prefix.ip| == 16
    ensures ResolvedText(a, info) != ResolvedText(b, info)
  {
    info := AdvertisedWith(Zeros(16), 0);
    NoPrefix(Host(a), Zeros(16));
    NoPrefix(Host(b), Zeros(16));
    assert Host(a) == a.ip && Host(b) == b.ip;
  }

  lemma SeparatedByPrefix(a: FlexibleIP, b: FlexibleIP) returns (info: RouterInfo)
    requires Valid(a) && Valid(b) && a.raPrefix && !b.raPrefix && a.cidr == b.cidr
    ensures FromOption(info.prefix) && |info.prefix.ip| == 16
    ensures ResolvedText(a, info) != ResolvedText(b, info)
  {
    var p := b.ip[0 := !b.ip[0]];
    FlippedByte(b.ip[0]);
    info := AdvertisedWith(p, 128);
    WholePrefix(Host(a), p);
    assert Host(b) == b.ip;
    assert p[0] != b.ip[0];
  }

  /** Two different configured addresses are told apart by some advertisement. */
  lemma Separated(a: FlexibleIP, b: FlexibleIP) returns (info: RouterInfo)
    requires Valid(a) && Valid(b) && a != b
    ensures FromOption(info.prefix) && |info.prefix.ip| == 16
    ensures ResolvedText(a, info) != ResolvedText(b, info)
  {
    hide ResolvedText, FromOption;
    if a.cidr != b.cidr {
      info := SeparatedByLength(a, b);
    } else if a.raPrefix == b.raPrefix {
      info := SeparatedByHost(a, b);
    } else if a.raPrefix {
      info := SeparatedByPrefix(a, b);
    } else {
      info := SeparatedByPrefix(b, a);
    }
  }

  /** The plan is free of contradictions for every advertisement exactly when the configuration,
      which is there before the first one, has no conflict. */
  lemma ConsistentExactly(cfg: RAConfig)
    requires ValidConfig(cfg)
    ensures (forall info: RouterInfo | FromOption(info.prefix) :: Consistent(Plan(cfg, info)))
            <==> NoConflict(cfg)
  {
    if NoConflict(cfg) {
      forall info: RouterInfo | FromOption(info.prefix) ensures Consistent(Plan(cfg, info)) {
        NoConflictIsConsistent(cfg, info);
      }
    } else {
      var info := ConflictShows(cfg);
      assert FromOption(info.prefix) && !Consistent(Plan(cfg, info));
    }
  }

  lemma AssignConflictShows(cfg: RAConfig, i: nat, j: nat) returns (info: RouterInfo)
    requires ValidConfig(cfg) && cfg.mode == "ros"
    requires i < j < |Assigns(cfg)| && ClashingAssigns(Assigns(cfg)[i], Assigns(cfg)[j])
    ensures FromOption(info.prefix) && |info.prefix.ip| == 16 && !Consistent(Plan(cfg, info))
  {
    hide Plan, ResolvedText, FromOption;
    var a, b := Assigns(cfg)[i], Assigns(cfg)[j];
    info := AdvertisedWith(Zeros(16), 0);
    PlanIsThreeLists(cfg, info);
    if a.ip != b.ip {
      info := Separated(a.ip, b.ip);
      PlanIsThreeLists(cfg, info);
    }
    var p, g := Plan(cfg, info), |GatewayOps(cfg, info)|;
    assert p[g + i] == AssignOp(a, info) && p[g + j] == AssignOp(b, info);
    assert SameTarget(p[g + i], p[g + j]) && p[g + i] != p[g + j];
  }

  lemma PoolConflictShows(cfg: RAConfig, i: nat, j: nat) returns (info: RouterInfo)
    requires ValidConfig(cfg) && cfg.mode == "ros"
    requires i < j < |cfg.rosPools| && ClashingPools(cfg.rosPools[i], cfg.rosPools[j])
    ensures FromOption(info.prefix) && |info.prefix.ip| == 16 && !Consistent(Plan(cfg, info))
  {
    hide Plan, ResolvedText, FromOption;
    var a, b := cfg.rosPools[i], cfg.rosPools[j];
    info := AdvertisedWith(Zeros(16), 0);
    if a.ip != b.ip {
      info := Separated(a.ip, b.ip);
    }
    PlanIsThreeLists(cfg, info);
    var p, g := Plan(cfg, info), |GatewayOps(cfg, info)| + |Assigns(cfg)|;
    assert p[g + i] == PoolOp(a, info) && p[g + j] == PoolOp(b, info);
    assert SameTarget(p[g + i], p[g + j]) && p[g + i] != p[g + j];
  }

  lemma ConflictShows(cfg: RAConfig) returns (info: RouterInfo)
    requires ValidConfig(cfg) && !NoConflict(cfg)
    ensures FromOption(info.prefix) && |info.prefix.ip| == 16 && !Consistent(Plan(cfg, info))
  {
    hide FromOption;
    var l, m := Assigns(cfg), cfg.rosPools;
    if i, j :| 0 <= i < j < |l| && ClashingAssigns(l[i], l[j]) {
      info := AssignConflictShows(cfg, i, j);
    } else if i, j :| 0 <= i < j < |m| && ClashingPools(m[i], m[j]) {
      info := PoolConflictShows(cfg, i, j);
    } else {
      info := AdvertisedWith(Zeros(16), 0);
      assert '%' in cfg.rosExtIf;
      assert !Readable(Plan(cfg, info)[0]);
    }
  }

  const EMPTY_ROUTER := State([], [], [], 0, 0)

  lemma ConflictUnsettles(cfg: RAConfig) returns (info: RouterInfo)
    requires ValidConfig(cfg) && !NoConflict(cfg)
    ensures FromOption(info.prefix) && |info.prefix.ip| == 16
    ensures AllSingle(EMPTY_ROUTER, Plan(cfg, info))
    ensures !AllSettled(Reconciled(cfg, info, EMPTY_ROUTER, []), Plan(cfg, info))
  {
    hide Plan;
    info := ConflictShows(cfg);
    var p := Plan(cfg, info);
    PlanHasOneGateway(cfg, info);
    assert AllSingle(EMPTY_ROUTER, p) && WellFormed(EMPTY_ROUTER);
    ConvergesExactly(EMPTY_ROUTER, p, Padded([], |p|));
  }

  /** One error-free reconcile reaches the desired configuration, for every advertisement and every
      router that holds at most one entry per owner, exactly when the configuration has no conflict. */
  lemma ReconcileConvergesExactly(cfg: RAConfig)
    requires ValidConfig(cfg)
    ensures (forall info: RouterInfo, s: State, fs: seq<Fates> |
               FromOption(info.prefix) && WellFormed(s) && AllSingle(s, Plan(cfg, info)) && ErrorFree(fs) ::
               AllSettled(Reconciled(cfg, info, s, fs), Plan(cfg, info)))
            <==> NoConflict(cfg)
  {
    ConsistentExactly(cfg);
    if NoConflict(cfg) {
      forall info: RouterInfo, s: State, fs: seq<Fates> |
        FromOption(info.prefix) && WellFormed(s) && AllSingle(s, Plan(cfg, info)) && ErrorFree(fs)
        ensures AllSettled(Reconciled(cfg, info, s, fs), Plan(cfg, info))
      {
        PassSettles(s, Plan(cfg, info), Padded(fs, |Plan(cfg, info)|));
      }
    } else {
      var info := ConflictUnsettles(cfg);
      assert WellFormed(EMPTY_ROUTER) && ErrorFree([]);
    }
  }

  // ---------------------------------------------------------------- error-free runs

  ghost predicate Good(cfg: RAConfig, w: Worker)
    requires ValidConfig(cfg)
  {
    && WellFormed(w.tables)
    && (w.info.Some? ==> FromOption(w.info.value.prefix))
    && (w.phase.Listening? ==> w.info.Some? && AllSettled(w.tables, Plan(cfg, w.info.value)))
  }

  lemma StepKeepsGood(cfg: RAConfig, w: Worker, e: GoodEvent, eager: bool)
    requires ValidConfig(cfg) && NoConflict(cfg) && Good(cfg, w) && EventErrorFree(e)
    ensures Good(cfg, Step(cfg, w, e, eager))
  {
    if e.Advert? {
      LastPrefixFromOption(e.options);
    }
    var r := Step(cfg, w, e, eager);
    if !e.Fail? && r.info.Some? {
      var p := Plan(cfg, r.info.value);
      NoConflictIsConsistent(cfg, r.info.value);
      PassSettles(w.tables, p, Padded(e.fs, |p|));
      RunKeepsWellFormed(w.tables, p, Padded(e.fs, |p|));
    }
  }

  /** Whenever the worker waits for the next advertisement, the router is configured as desired for
      the current router information. */
  lemma {:induction false} ListeningIsSettled(cfg: RAConfig, w: Worker, es: seq<GoodEvent>, eager: bool)
    requires ValidConfig(cfg) && NoConflict(cfg) && Good(cfg, w) && AllErrorFree(es)
    ensures Good(cfg, Run(cfg, w, es, eager))
  {
    if es != [] {
      var n := |es| - 1;
      ListeningIsSettled(cfg, w, es[..n], eager);
      StepKeepsGood(cfg, Run(cfg, w, es[..n], eager), es[n], eager);
    }
  }

  predicate Alike(a: Option<RouterInfo>, b: Option<RouterInfo>) {
    match (a, b)
    case (None, None) => true
    case (Some(x), Some(y)) => Unchanged(x, y)
    case _ => false
  }

  lemma PlanAlike(cfg: RAConfig, a: RouterInfo, b: RouterInfo)
    requires ValidConfig(cfg) && FromOption(a.prefix) && FromOption(b.prefix) && Unchanged(a, b)
    ensures Plan(cfg, a) == Plan(cfg, b)
  {
    forall f | Valid(f) ensures ResolvedText(f, a) == ResolvedText(f, b) {
      SameTextSameResolution(f, a, b);
    }
    assert AssignOps(cfg.rosExtIPs, a) == AssignOps(cfg.rosExtIPs, b);
    assert AssignOps(cfg.rosIntIPs, a) == AssignOps(cfg.rosIntIPs, b);
    assert PoolOps(cfg.rosPools, a) == PoolOps(cfg.rosPools, b);
  }

  predicate SameView(a: Worker, b: Worker) {
    a.phase == b.phase && a.tables == b.tables && Alike(a.info, b.info)
  }

  lemma StepKeepsView(cfg: RAConfig, lazy: Worker, eager: Worker, e: GoodEvent)
    requires ValidConfig(cfg) && NoConflict(cfg) && EventErrorFree(e)
    requires Good(cfg, lazy) && Good(cfg, eager) && SameView(lazy, eager)
    ensures SameView(Step(cfg, lazy, e, false), Step(cfg, eager, e, true))
  {
    if lazy.info.Some? {
      PlanAlike(cfg, lazy.info.value, eager.info.value);
    }
    if e.Advert? && lazy.phase.Listening? && Unchanged(Received(e), lazy.info.value) {
      LastPrefixFromOption(e.options);
      PlanAlike(cfg, Received(e), lazy.info.value);
      var p := Plan(cfg, Received(e));
      SilentExactly(lazy.tables, p, Padded(e.fs, |p|));
    }
  }

  /** Reconciling only on a change of the prefix text or the gateway leaves the same tables, after the
      same commands, as reconciling on every advertisement. */
  lemma {:induction false} SkippingIsSound(cfg: RAConfig, w: Worker, es: seq<GoodEvent>)
    requires ValidConfig(cfg) && NoConflict(cfg) && Good(cfg, w) && AllErrorFree(es)
    ensures SameView(Run(cfg, w, es, false), Run(cfg, w, es, true))
  {
    if es != [] {
      var n := |es| - 1;
      SkippingIsSound(cfg, w, es[..n]);
      ListeningIsSettled(cfg, w, es[..n], false);
      ListeningIsSettled(cfg, w, es[..n], true);
      StepKeepsView(cfg, Run(cfg, w, es[..n], false), Run(cfg, w, es[..n], true), es[n]);
    }
  }

  // ---------------------------------------------------------------- exactly which configurations

  lemma NextByte(b: bv8)
    requires b as int < 255
    ensures (b + 1) as int == b as int + 1
  {
  }

  /** Go's conversion of a small number to a byte. */
  function LengthByte(n: nat): (b: bv8)
    requires n < 256
    ensures b as int == n
  {
    if n == 0 then 0 else
    NextByte(LengthByte(n - 1));
    LengthByte(n - 1) + 1
  }

  function PrefixOption(length: nat, ip: Bytes): (o: RAOption)
    requires length < 256 && |ip| == 16
    ensures o.kind == 3 && |o.data| == 30 && o.data[0] == LengthByte(length) && (o.data + o.behind)[14..30] == ip
  {
    RAOption(3, [LengthByte(length)] + Zeros(13) + ip, [])
  }

  lemma OneOption(length: nat, ip: Bytes)
    requires length < 256 && |ip| == 16
    ensures LastPrefix([PrefixOption(length, ip)]) == IPNet(ip, CIDRMask(length))
  {
    hide PrefixOption, CIDRMask;
    var o := PrefixOption(length, ip);
    assert [o][|[o]| - 1] == o;
  }

  /** Every prefix that has the form of an advertised one can be advertised. */
  lemma CanBeAdvertised(info: RouterInfo) returns (e: GoodEvent)
    requires FromOption(info.prefix)
    ensures e.Advert? && e.fs == [] && Received(e) == info
  {
    hide PrefixOption, CIDRMask;
    var n := info.prefix;
    if n.ip == [] {
      e := Advert(info.gateway, [], []);
    } else {
      var length := LengthOf(n);
      OneOption(length, n.ip);
      e := Advert(info.gateway, [PrefixOption(length, n.ip)], []);
    }
  }

  /** An option length of more than 128 gives no mask. */
  lemma LengthOf(n: IPNet) returns (length: nat)
    requires FromOption(n) && |n.ip| == 16
    ensures length < 256 && n.mask == CIDRMask(length)
  {
    hide PrefixMask;
    length := 255;
    if n.mask != [] {
      length :| 0 <= length <= 128 && n.mask == CIDRMask(length);
    }
  }

  /** The program's start, in front of a router with tables s. */
  function Started(s: State): Worker {
    Worker(Down, None, s)
  }

  /** The shortest run that reconciles: the solicitation is answered with a prefix. */
  lemma FirstAdvertReconciles(cfg: RAConfig, s: State, e: GoodEvent, eager: bool)
    requires ValidConfig(cfg) && e.Advert? && Received(e).prefix.ip != []
    ensures Run(cfg, Started(s), [Start(true, true, []), e], eager)
            == Reconciling(cfg, Started(s), Received(e), e.fs)
  {
    hide Reconciled;
    var es: seq<GoodEvent> := [Start(true, true, []), e];
    assert es[..1] == [Start(true, true, [])] && es[..1][..0] == [];
    assert Run(cfg, Started(s), es[..1], eager) == Worker(Soliciting, None, s);
  }

  /** In all error-free runs from the program's start, in front of any router, the router is as
      desired whenever the worker waits for the next advertisement, exactly when the configuration
      has no conflict. */
  lemma ListeningIsSettledExactly(cfg: RAConfig, eager: bool)
    requires ValidConfig(cfg)
    ensures (forall s: State, es: seq<GoodEvent> | WellFormed(s) && AllErrorFree(es) ::
               Good(cfg, Run(cfg, Started(s), es, eager)))
            <==> NoConflict(cfg)
  {
    hide Step, Plan, Reconciled;
    if NoConflict(cfg) {
      forall s: State, es: seq<GoodEvent> | WellFormed(s) && AllErrorFree(es)
        ensures Good(cfg, Run(cfg, Started(s), es, eager))
      {
        ListeningIsSettled(cfg, Started(s), es, eager);
      }
    } else {
      var info := ConflictUnsettles(cfg);
      var e := CanBeAdvertised(info);
      FirstAdvertReconciles(cfg, EMPTY_ROUTER, e, eager);
      assert WellFormed(EMPTY_ROUTER) && AllErrorFree([Start(true, true, []), e]);
      assert !Good(cfg, Run(cfg, Started(EMPTY_ROUTER), [Start(true, true, []), e], eager));
    }
  }

  /** Reconciling only on change leaves, in all error-free runs from the program's start, the same
      tables after the same commands as reconciling on every advertisement, exactly when the
      configuration has no conflict. */
  lemma SkippingIsSoundExactly(cfg: RAConfig)
    requires ValidConfig(cfg)
    ensures (forall s: State, es: seq<GoodEvent> | WellFormed(s) && AllErrorFree(es) ::
               SameView(Run(cfg, Started(s), es, false), Run(cfg, Started(s), es, true)))
            <==> NoConflict(cfg)
  {
    hide Step, Plan, Reconciled;
    if NoConflict(cfg) {
      forall s: State, es: seq<GoodEvent> | WellFormed(s) && AllErrorFree(es)
        ensures SameView(Run(cfg, Started(s), es, false), Run(cfg, Started(s), es, true))
      {
        SkippingIsSound(cfg, Started(s), es);
      }
    } else {
      var es := ConflictShowsInWrites(cfg);
      assert WellFormed(EMPTY_ROUTER);
      assert !SameView(Run(cfg, Started(EMPTY_ROUTER), es, false), Run(cfg, Started(EMPTY_ROUTER), es, true));
    }
  }

  /** With a conflict, a repeated advertisement that the worker skips would have caused a command. */
  lemma ConflictShowsInWrites(cfg: RAConfig) returns (es: seq<GoodEvent>)
    requires ValidConfig(cfg) && !NoConflict(cfg)
    ensures AllErrorFree(es)
    ensures Run(cfg, Started(EMPTY_ROUTER), es, false).tables.writes
            != Run(cfg, Started(EMPTY_ROUTER), es, true).tables.writes
  {
    hide Plan, Reconciled;
    var info := ConflictUnsettles(cfg);
    var e := CanBeAdvertised(info);
    es := [Start(true, true, []), e, e];
    assert es[..2] == [Start(true, true, []), e];
    FirstAdvertReconciles(cfg, EMPTY_ROUTER, e, false);
    FirstAdvertReconciles(cfg, EMPTY_ROUTER, e, true);
    UnsettledWrites(cfg, info);
  }

  lemma UnsettledWrites(cfg: RAConfig, info: RouterInfo)
    requires ValidConfig(cfg)
    requires !AllSettled(Reconciled(cfg, info, EMPTY_ROUTER, []), Plan(cfg, info))
    ensures var s := Reconciled(cfg, info, EMPTY_ROUTER, []);
            Reconciled(cfg, info, s, []).writes != s.writes
  {
    hide Plan;
    var p := Plan(cfg, info);
    SilentExactly(Reconciled(cfg, info, EMPTY_ROUTER, []), p, Padded([], |p|));
  }

  // ---------------------------------------------------------------- all runs

  /** Router information, once there, stays, and the worker only listens when it is there: nothing
      missing is dereferenced, whatever fails. */
  lemma {:induction false} InfoStays(cfg: RAConfig, w: Worker, es: seq<GoodEvent>)
    requires ValidConfig(cfg) && (w.phase.Listening? ==> w.info.Some?)
    ensures var r := Run(cfg, w, es, false);
            (w.info.Some? ==> r.info.Some?) && (r.phase.Listening? ==> r.info.Some?)
  {
    if es != [] {
      InfoStays(cfg, w, es[..|es| - 1]);
    }
  }

  /** A failed or timed-out receive ends the activation and changes nothing else; while the worker is
      down, advertisements do not reach it. */
  lemma FailureEndsActivation(cfg: RAConfig, w: Worker, e: GoodEvent, eager: bool)
    requires ValidConfig(cfg) && (e.Fail? || (e.Advert? && w.phase.Down?))
    ensures var r := Step(cfg, w, e, eager);
            r.phase.Down? && r.tables == w.tables && r.info == w.info
  {
  }

  /** The event starts an activation: the socket is there, and a solicitation was sent or is not needed. */
  predicate Begins(w: Worker, e: GoodEvent) {
    e.Start? && w.phase.Down? && e.socketOk && (w.info.Some? || e.sendOk)
  }

  /** A worker that waits was started after the last failure. */
  lemma {:induction false} ActiveSinceStart(cfg: RAConfig, s: State, es: seq<GoodEvent>)
    returns (k: nat)
    requires ValidConfig(cfg) && !Run(cfg, Started(s), es, false).phase.Down?
    ensures k < |es| && Begins(Run(cfg, Started(s), es[..k], false), es[k])
    ensures forall i :: k < i < |es| ==> !es[i].Fail?
  {
    hide Reconciled;
    var n := |es| - 1;
    var m := Run(cfg, Started(s), es[..n], false);
    if m.phase.Down? {
      k := n;
    } else {
      k := ActiveSinceStart(cfg, s, es[..n]);
      assert es[..n][..k] == es[..k] && es[..n][k] == es[k];
      forall i | k < i < |es| ensures !es[i].Fail? {
        if i < n {
          assert es[..n][i] == es[i];
        }
      }
    }
  }

  /** Whatever commands are lost, no run gives an owner a second entry. */
  lemma {:induction false} RunsNeverAccumulate(cfg: RAConfig, w: Worker, es: seq<GoodEvent>, mine: Op)
    requires ValidConfig(cfg) && Single(w.tables, mine)
    ensures Single(Run(cfg, w, es, false).tables, mine)
  {
    if es != [] {
      var n := |es| - 1;
      var m := Run(cfg, w, es[..n], false);
      RunsNeverAccumulate(cfg, w, es[..n], mine);
      var r := Step(cfg, m, es[n], false);
      if !es[n].Fail? && r.info.Some? {
        var p := Plan(cfg, r.info.value);
        RunKeepsSingle(m.tables, p, Padded(es[n].fs, |p|), mine);
      }
    }
  }

  /** Only the first advertisement has to carry a prefix address; its length is not looked at. */
  lemma SolicitedHasPrefix(cfg: RAConfig, w: Worker, e: GoodEvent)
    requires ValidConfig(cfg) && w.phase.Soliciting? && Step(cfg, w, e, false).phase.Listening?
    ensures e.Advert? && Step(cfg, w, e, false).info == Some(Received(e)) && |Received(e).prefix.ip| == 16
    ensures exists i :: 0 <= i < |e.options| && e.options[i].kind == 3
  {
    LastPrefixFromOption(e.options);
  }

  /** A lost update is not tried again: advertisements that repeat the current information leave the
      worker and the router as they are, settled or not. */
  lemma {:induction false} RepeatedAdvertsDoNothing(cfg: RAConfig, w: Worker, es: seq<GoodEvent>)
    requires ValidConfig(cfg) && w.phase.Listening? && w.info.Some?
    requires forall i :: 0 <= i < |es| ==>
               && es[i].Advert? && es[i].source == w.info.value.gateway
               && Text(LastPrefix(es[i].options)) == Text(w.info.value.prefix)
    ensures Run(cfg, w, es, false) == w
  {
    if es != [] {
      RepeatedAdvertsDoNothing(cfg, w, es[..|es| - 1]);
    }
  }
}
