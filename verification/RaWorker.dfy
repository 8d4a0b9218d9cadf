/** The router advertisement worker: it solicits, listens, and reconciles the router when the
    advertised prefix or gateway changes. */
module RaWorker {
  import opened Options
  import opened Prefix
  import opened FlexibleIPs
  import opened RouterOS
  import opened Reconciliation

  // ---------------------------------------------------------------- configuration

  datatype ROSIPOptions = ROSIPOptions(eui64: bool, advertise: bool)
  datatype ROSIPAssign = ROSIPAssign(ip: FlexibleIP, ifname: string, options: ROSIPOptions)
  datatype ROSPoolAssign = ROSPoolAssign(ip: FlexibleIP, poolname: string, prefixLength: int)
  datatype RAConfig = RAConfig(mode: string, rosExtIf: string, rosExtIPs: seq<ROSIPAssign>,
                               rosIntIPs: seq<ROSIPAssign>, rosPools: seq<ROSPoolAssign>)

  predicate ValidConfig(cfg: RAConfig) {
    && (forall i :: 0 <= i < |cfg.rosExtIPs| ==> Valid(cfg.rosExtIPs[i].ip))
    && (forall i :: 0 <= i < |cfg.rosIntIPs| ==> Valid(cfg.rosIntIPs[i].ip))
    && (forall i :: 0 <= i < |cfg.rosPools| ==> Valid(cfg.rosPools[i].ip))
  }

  function ResolvedText(f: FlexibleIP, info: RouterInfo): CidrText
    requires Valid(f)
  {
    Text(Resolve(f, Some(info)).value)
  }

  function AssignOp(a: ROSIPAssign, info: RouterInfo): Op
    requires Valid(a.ip)
  {
    AssignIPv6(a.ifname, ResolvedText(a.ip, info), KeyOf(a.ip), a.options.advertise, a.options.eui64)
  }

  function PoolOp(p: ROSPoolAssign, info: RouterInfo): Op
    requires Valid(p.ip)
  {
    ExportIPv6Pool(p.poolname, ResolvedText(p.ip, info), p.prefixLength)
  }

  function AssignOps(l: seq<ROSIPAssign>, info: RouterInfo): (ops: seq<Op>)
    requires forall i :: 0 <= i < |l| ==> Valid(l[i].ip)
    ensures |ops| == |l| && forall i :: 0 <= i < |l| ==> ops[i] == AssignOp(l[i], info)
  {
    seq(|l|, i requires 0 <= i < |l| => AssignOp(l[i], info))
  }

  function PoolOps(l: seq<ROSPoolAssign>, info: RouterInfo): (ops: seq<Op>)
    requires forall i :: 0 <= i < |l| ==> Valid(l[i].ip)
    ensures |ops| == |l| && forall i :: 0 <= i < |l| ==> ops[i] == PoolOp(l[i], info)
  {
    seq(|l|, i requires 0 <= i < |l| => PoolOp(l[i], info))
  }

  function GatewayOps(cfg: RAConfig, info: RouterInfo): seq<Op> {
    if cfg.rosExtIf != "" then [Op.SetIPv6Gateway(cfg.rosExtIf, info.gateway)] else []
  }

  /** The desired configuration, in the order in which it is worked on. */
  function Plan(cfg: RAConfig, info: RouterInfo): seq<Op>
    requires ValidConfig(cfg)
  {
    if cfg.mode != "ros" then [] else
    GatewayOps(cfg, info) + AssignOps(cfg.rosExtIPs, info) + AssignOps(cfg.rosIntIPs, info)
    + PoolOps(cfg.rosPools, info)
  }

  /** One fate per operation; operations without a given one do not fail. */
  function Padded(fs: seq<Fates>, n: nat): (r: seq<Fates>)
    ensures |r| == n
    ensures ErrorFree(fs) ==> ErrorFree(r)
  {
    seq(n, i requires 0 <= i => if i < |fs| then fs[i] else ERROR_FREE)
  }

  function Reconciled(cfg: RAConfig, info: RouterInfo, s: State, fs: seq<Fates>): State
    requires ValidConfig(cfg)
  {
    var ops := Plan(cfg, info);
    ApplyAll(s, ops, Padded(fs, |ops|))
  }

  lemma PlanParts(cfg: RAConfig, info: RouterInfo)
    requires ValidConfig(cfg) && cfg.mode == "ros"
    ensures var ops := Plan(cfg, info);
            var a := |GatewayOps(cfg, info)|;
            var b := a + |cfg.rosExtIPs|;
            var c := b + |cfg.rosIntIPs|;
            && |ops| == c + |cfg.rosPools|
            && ops[..a] == GatewayOps(cfg, info)
            && ops[a..b] == AssignOps(cfg.rosExtIPs, info)
            && ops[b..c] == AssignOps(cfg.rosIntIPs, info)
            && ops[c..c + |cfg.rosPools|] == PoolOps(cfg.rosPools, info)
  {
  }

  /** The tables after the first k operations. */
  function After(s: State, ops: seq<Op>, fs: seq<Fates>, k: nat): State
    requires k <= |ops| == |fs|
  {
    ApplyAll(s, ops[..k], fs[..k])
  }

  lemma AfterEnds(s: State, ops: seq<Op>, fs: seq<Fates>)
    requires |ops| == |fs|
    ensures After(s, ops, fs, 0) == s
    ensures After(s, ops, fs, |ops|) == ApplyAll(s, ops, fs)
  {
    assert ops[..|ops|] == ops && fs[..|fs|] == fs;
  }

  lemma AfterNext(s: State, ops: seq<Op>, fs: seq<Fates>, k: nat)
    requires k < |ops| == |fs|
    ensures After(s, ops, fs, k + 1) == Apply(After(s, ops, fs, k), ops[k], fs[k])
  {
    assert ops[..k + 1][..k] == ops[..k] && fs[..k + 1][..k] == fs[..k];
  }

  // ---------------------------------------------------------------- advertisements

  /** An option's bytes behind its type and length, and those of the packet buffer behind the option,
      up to which a slice may reach. */
  datatype RAOption = RAOption(kind: int, data: Bytes, behind: Bytes)

  /** The option loop's index and slice are in range; a Prefix Information option of the proper size has
      30 bytes: RFC 4861, section 4.6.2. */
  predicate Sliceable(o: RAOption) {
    o.kind == 3 ==> |o.data| >= 1 && |o.data| + |o.behind| >= 30
  }

  predicate Complete(options: seq<RAOption>) {
    forall i :: 0 <= i < |options| ==> Sliceable(options[i])
  }

  function PrefixOf(o: RAOption): IPNet
    requires o.kind == 3 && Sliceable(o)
  {
    IPNet((o.data + o.behind)[14..30], CIDRMask(o.data[0] as int))
  }

  function LastPrefix(options: seq<RAOption>): IPNet
    requires Complete(options)
  {
    if options == [] then IPNet([], [])
    else
      var o := options[|options| - 1];
      if o.kind == 3 then PrefixOf(o) else LastPrefix(options[..|options| - 1])
  }

  lemma {:induction false} LastPrefixFromOption(options: seq<RAOption>)
    requires Complete(options)
    ensures FromOption(LastPrefix(options))
    ensures LastPrefix(options).ip == [] <==>
            forall i :: 0 <= i < |options| ==> options[i].kind != 3
  {
    if options != [] {
      LastPrefixFromOption(options[..|options| - 1]);
      var o := options[|options| - 1];
      if o.kind != 3 {
        assert forall i :: 0 <= i < |options| - 1 ==> options[..|options| - 1][i] == options[i];
      }
    }
  }

  /** The option that counts is the last one of its kind: its address bytes and its length. */
  lemma {:induction false} LastPrefixAt(options: seq<RAOption>, k: nat)
    requires Complete(options) && k < |options| && options[k].kind == 3
    requires forall i :: k < i < |options| ==> options[i].kind != 3
    ensures var o := options[k];
            LastPrefix(options) == IPNet((o.data + o.behind)[14..30], CIDRMask(o.data[0] as int))
  {
    var n := |options| - 1;
    if k < n {
      LastPrefixAt(options[..n], k);
    }
  }

  /** The option loop of receive; without ok it ends in an index out of range. */
  method ReceivePrefix(options: seq<RAOption>) returns (prefix: IPNet, ok: bool)
    ensures ok <==> Complete(options)
    ensures ok ==> prefix == LastPrefix(options)
  {
    prefix := IPNet([], []);
    for i := 0 to |options|
      invariant Complete(options[..i]) && prefix == LastPrefix(options[..i])
    {
      var o := options[i];
      assert options[..i + 1][..i] == options[..i];
      if o.kind == 3 {
        if |o.data| < 1 || |o.data| + |o.behind| < 30 {
          assert !Sliceable(options[i]);
          return prefix, false;
        }
        var length := o.data[0] as int;
        prefix := IPNet((o.data + o.behind)[14..30], CIDRMask(length));
      }
    }
    assert options[..|options|] == options;
    ok := true;
  }

  // ---------------------------------------------------------------- runs

  /** Where the worker waits: for its restart, for the answer to a solicitation, for the next
      advertisement. */
  datatype Phase = Down | Soliciting | Listening

  /** Start: the worker is started again; opening the socket and sending the solicitation may fail.
      Fail: receiving ends with an error or times out.  fs: the fates of the commands that follow. */
  datatype Event =
    | Start(socketOk: bool, sendOk: bool, fs: seq<Fates>)
    | Fail
    | Advert(source: Bytes, options: seq<RAOption>, fs: seq<Fates>)

  type GoodEvent = e: Event | e.Advert? ==> Complete(e.options) witness Fail

  datatype Worker = Worker(phase: Phase, info: Option<RouterInfo>, tables: State)

  function Received(e: GoodEvent): RouterInfo
    requires e.Advert?
  {
    RouterInfo(LastPrefix(e.options), e.source)
  }

  predicate Unchanged(a: RouterInfo, b: RouterInfo) {
    Text(a.prefix) == Text(b.prefix) && a.gateway == b.gateway
  }

  function Reconciling(cfg: RAConfig, w: Worker, info: RouterInfo, fs: seq<Fates>): Worker
    requires ValidConfig(cfg)
  {
    Worker(Listening, Some(info), Reconciled(cfg, info, w.tables, fs))
  }

  /** One step; with eager, every advertisement reconciles, not only a changed one. */
  function Step(cfg: RAConfig, w: Worker, e: GoodEvent, eager: bool): Worker
    requires ValidConfig(cfg)
  {
    match (w.phase, e)
    case (Down, Start(socketOk, sendOk, fs)) =>
      if !socketOk then w
      else if w.info.Some? then Reconciling(cfg, w, w.info.value, fs)
      else if sendOk then w.(phase := Soliciting) else w
    case (Soliciting, Fail) => w.(phase := Down)
    case (Soliciting, Advert(_, _, fs)) =>
      var info := Received(e);
      if info.prefix.ip == [] then w.(phase := Down) else Reconciling(cfg, w, info, fs)
    case (Listening, Fail) => w.(phase := Down)
    case (Listening, Advert(_, _, fs)) =>
      var info := Received(e);
      if eager || w.info.None? || !Unchanged(info, w.info.value) then Reconciling(cfg, w, info, fs) else w
    case _ => w
  }

  function Run(cfg: RAConfig, w: Worker, es: seq<GoodEvent>, eager: bool): Worker
    requires ValidConfig(cfg)
  {
    if es == [] then w else Step(cfg, Run(cfg, w, es[..|es| - 1], eager), es[|es| - 1], eager)
  }

  predicate EventErrorFree(e: Event) {
    match e
    case Start(_, _, fs) => ErrorFree(fs)
    case Fail => true
    case Advert(_, _, fs) => ErrorFree(fs)
  }

  predicate AllErrorFree(es: seq<GoodEvent>) {
    forall i :: 0 <= i < |es| ==> EventErrorFree(es[i])
  }

  // ---------------------------------------------------------------- the worker as it runs

  class RAClient {
    const cfg: RAConfig
    const ros: ROSClient
    var routerInfo: Option<RouterInfo>

    constructor (cfg: RAConfig, ros: ROSClient)
      ensures this.cfg == cfg && this.ros == ros && routerInfo.None?
    {
      this.cfg, this.ros, routerInfo := cfg, ros, None;
    }

    function Now(phase: Phase): Worker
      reads this, ros.router
    {
      Worker(phase, routerInfo, ros.router.Now())
    }

    method AssignList(l: seq<ROSIPAssign>, ghost ops: seq<Op>, fs: seq<Fates>, base: nat, ghost s: State)
      requires routerInfo.Some?
      requires forall i :: 0 <= i < |l| ==> Valid(l[i].ip)
      requires base + |l| <= |ops| == |fs|
      requires ops[base..base + |l|] == AssignOps(l, routerInfo.value)
      requires ros.router.Now() == After(s, ops, fs, base)
      modifies ros.router
      ensures ros.router.Now() == After(s, ops, fs, base + |l|)
    {
      hide After;
      for i := 0 to |l|
        invariant ros.router.Now() == After(s, ops, fs, base + i)
      {
        var k := base + i;
        assert ops[k] == ops[base..base + |l|][i] == AssignOp(l[i], routerInfo.value);
        AfterNext(s, ops, fs, k);
        ParsedIsResolvable(l[i].ip, routerInfo);
        var ip := ResolveFIP(l[i].ip, routerInfo);
        var _ := ros.AssignIPv6(l[i].ifname, Text(ip.value), KeyOf(l[i].ip),
                                l[i].options.advertise, l[i].options.eui64, fs[k]);
      }
    }

    method ExportList(l: seq<ROSPoolAssign>, ghost ops: seq<Op>, fs: seq<Fates>, base: nat, ghost s: State)
      requires routerInfo.Some?
      requires forall i :: 0 <= i < |l| ==> Valid(l[i].ip)
      requires base + |l| <= |ops| == |fs|
      requires ops[base..base + |l|] == PoolOps(l, routerInfo.value)
      requires ros.router.Now() == After(s, ops, fs, base)
      modifies ros.router
      ensures ros.router.Now() == After(s, ops, fs, base + |l|)
    {
      hide After;
      for i := 0 to |l|
        invariant ros.router.Now() == After(s, ops, fs, base + i)
      {
        var k := base + i;
        assert ops[k] == ops[base..base + |l|][i] == PoolOp(l[i], routerInfo.value);
        AfterNext(s, ops, fs, k);
        ParsedIsResolvable(l[i].ip, routerInfo);
        var prefix := ResolveFIP(l[i].ip, routerInfo);
        var _ := ros.ExportIPv6Pool(l[i].poolname, Text(prefix.value), l[i].prefixLength, fs[k]);
      }
    }

    method ApplyGateway(info: RouterInfo, ghost ops: seq<Op>, fs: seq<Fates>) returns (a: nat)
      requires |GatewayOps(cfg, info)| <= |ops| == |fs|
      requires ops[..|GatewayOps(cfg, info)|] == GatewayOps(cfg, info)
      modifies ros.router
      ensures a == |GatewayOps(cfg, info)|
      ensures ros.router.Now() == After(old(ros.router.Now()), ops, fs, a)
    {
      a := 0;
      ghost var s := ros.router.Now();
      AfterEnds(s, ops, fs);
      if cfg.rosExtIf != "" {
        a := 1;
        AfterNext(s, ops, fs, 0);
        assert ops[0] == ops[..1][0];
        var _ := ros.SetIPv6Gateway(cfg.rosExtIf, info.gateway, fs[0]);
      }
    }

    /** Errors of the single operations are logged and the rest is still worked on. */
    method ReconcileRos(info: RouterInfo, ghost ops: seq<Op>, fs: seq<Fates>)
      requires routerInfo == Some(info) && ValidConfig(cfg) && cfg.mode == "ros"
      requires ops == Plan(cfg, info) && |fs| == |ops|
      modifies ros.router
      ensures ros.router.Now() == ApplyAll(old(ros.router.Now()), ops, fs)
    {
      hide AssignOp, PoolOp, Apply, After, Plan, GatewayOps;
      ghost var s := ros.router.Now();
      PlanParts(cfg, info);
      AfterEnds(s, ops, fs);
      var a := ApplyGateway(info, ops, fs);
      var b := a + |cfg.rosExtIPs|;
      var c := b + |cfg.rosIntIPs|;
      AssignList(cfg.rosExtIPs, ops, fs, a, s);
      AssignList(cfg.rosIntIPs, ops, fs, b, s);
      ExportList(cfg.rosPools, ops, fs, c, s);
    }

    method Reconcile(given: seq<Fates>)
      requires routerInfo.Some? && ValidConfig(cfg)
      modifies ros.router
      ensures ros.router.Now() == Reconciled(cfg, routerInfo.value, old(ros.router.Now()), given)
    {
      if cfg.mode == "ros" {
        var ops := Plan(cfg, routerInfo.value);
        ReconcileRos(routerInfo.value, ops, Padded(given, |ops|));
      }
    }

    /** The end of soilicit: the first advertisement must carry a prefix. */
    method FirstAdvert(e: GoodEvent) returns (phase: Phase)
      requires e.Advert? && ValidConfig(cfg)
      modifies this`routerInfo, ros.router
      ensures Now(phase) == Step(cfg, old(Now(Soliciting)), e, false)
      ensures phase.Listening? ==> routerInfo.Some?
    {
      var prefix, _ := ReceivePrefix(e.options);
      if prefix.ip == [] {
        return Down;
      }
      routerInfo := Some(RouterInfo(prefix, e.source));
      Reconcile(e.fs);
      phase := Listening;
    }

    /** One round of the listen loop. */
    method NextAdvert(e: GoodEvent)
      requires e.Advert? && routerInfo.Some? && ValidConfig(cfg)
      modifies this`routerInfo, ros.router
      ensures Now(Listening) == Step(cfg, old(Now(Listening)), e, false)
    {
      var prefix, _ := ReceivePrefix(e.options);
      var rinfo := RouterInfo(prefix, e.source);
      if Text(rinfo.prefix) != Text(routerInfo.value.prefix) || rinfo.gateway != routerInfo.value.gateway {
        routerInfo := Some(rinfo);
        Reconcile(e.fs);
      }
    }

    /** One activation of the worker, up to its first error or to the end of the given input, when
        it goes on waiting in the returned phase. */
    method WorkInternal(start: GoodEvent, es: seq<GoodEvent>) returns (phase: Phase, used: nat)
      requires start.Start? && ValidConfig(cfg)
      modifies this`routerInfo, ros.router
      ensures used <= |es| && (phase.Down? || used == |es|)
      ensures Now(phase) == Run(cfg, Step(cfg, old(Now(Down)), start, false), es[..used], false)
    {
      hide Reconciled;
      ghost var w := Step(cfg, Now(Down), start, false);
      used := 0;
      if !start.socketOk {
        return Down, 0;
      }
      phase := Listening;
      if routerInfo.None? {
        if !start.sendOk {
          return Down, 0;
        }
        phase := Soliciting;
      } else {
        Reconcile(start.fs);
      }
      while used < |es| && !phase.Down?
        invariant used <= |es|
        invariant phase.Listening? ==> routerInfo.Some?
        invariant Now(phase) == Run(cfg, w, es[..used], false)
      {
        var e := es[used];
        assert es[..used + 1][..used] == es[..used];
        used := used + 1;
        match e
        case Start(_, _, _) =>
        case Fail => phase := Down;
        case Advert(_, _, _) =>
          if phase.Soliciting? {
            phase := FirstAdvert(e);
          } else {
            NextAdvert(e);
          }
      }
    }
  }
}
