/** The router's three tables, the commands the client sends, and the three reconcilers that decide
    on them: default gateway, address assignment, prefix pool. */
module RouterOS {
  import opened Options
  import opened Prefix
  import opened FlexibleIPs
  import opened Tables

  // ---------------------------------------------------------------- rows

  /** Router replies hold CIDR text that parses. */
  type CidrText = t: NetText | t.NetText? witness NetText([], [])

  /** RosComment is the fixed text "set by fletsv6-companion"; with a key, the text, a blank and the key. */
  datatype Comment = NoComment | RosComment | RosCommentWith(key: Key) | Foreign(text: string)

  datatype Head = Address(ip: Bytes) | Unparsable(text: string)

  /** A gateway text split at '%'. */
  datatype Gateway = Gateway(head: Head, rest: seq<string>)

  datatype RouteData = RouteData(isDefault: bool, gateway: Gateway, comment: Comment)
  datatype AddressData = AddressData(iface: string, comment: Comment, isDynamic: bool,
                                     address: CidrText, advertise: bool, eui64: bool)
  datatype PoolData = PoolData(name: string, prefix: CidrText, prefixLength: int)

  /** writes counts the set and add commands sent so far. */
  datatype State = State(addresses: Table<AddressData>, routes: Table<RouteData>,
                         pools: Table<PoolData>, nextId: nat, writes: nat)

  /** strings.Split(s, "%"). */
  function SplitPercent(s: string): (r: seq<string>)
    ensures |r| >= 1
  {
    if s == "" then [""]
    else if s[0] == '%' then [""] + SplitPercent(s[1..])
    else
      var r := SplitPercent(s[1..]);
      [[s[0]] + r[0]] + r[1..]
  }

  /** The text "gateway%interface". */
  function GatewayText(gw: Bytes, ifname: string): Gateway {
    Gateway(Address(gw), SplitPercent(ifname))
  }

  predicate ProperGateway(g: Gateway) {
    forall i :: 0 <= i < |g.rest| ==> '%' !in g.rest[i]
  }

  lemma {:induction false} SplitParts(s: string)
    ensures forall i :: 0 <= i < |SplitPercent(s)| ==> '%' !in SplitPercent(s)[i]
    ensures |SplitPercent(s)| == 1 <==> '%' !in s
    ensures '%' !in s ==> SplitPercent(s) == [s]
  {
    if s != "" {
      SplitParts(s[1..]);
      assert s == [s[0]] + s[1..];
    }
  }

  // ---------------------------------------------------------------- commands

  datatype Command =
    | RouteSet(id: nat, gateway: Gateway)
    | RouteAdd(gateway: Gateway, comment: Comment)
    | AddressSet(id: nat, address: CidrText, advertise: bool, eui64: bool)
    | AddressAdd(iface: string, address: CidrText, advertise: bool, eui64: bool, comment: Comment)
    | PoolSet(id: nat, prefix: CidrText, prefixLength: int)
    | PoolAdd(name: string, prefix: CidrText, prefixLength: int)

  function Execute(s: State, c: Command): State {
    match c
    case RouteSet(id, gateway) =>
      s.(routes := SetRow(s.routes, id, (d: RouteData) => d.(gateway := gateway)))
    case RouteAdd(gateway, comment) =>
      s.(routes := s.routes + [Row(s.nextId, RouteData(true, gateway, comment))], nextId := s.nextId + 1)
    case AddressSet(id, address, advertise, eui64) =>
      s.(addresses := SetRow(s.addresses, id, (d: AddressData) =>
        d.(address := address, advertise := advertise, eui64 := eui64)))
    case AddressAdd(iface, address, advertise, eui64, comment) =>
      s.(addresses := s.addresses
                      + [Row(s.nextId, AddressData(iface, comment, false, address, advertise, eui64))],
         nextId := s.nextId + 1)
    case PoolSet(id, prefix, prefixLength) =>
      s.(pools := SetRow(s.pools, id, (d: PoolData) => d.(prefix := prefix, prefixLength := prefixLength)))
    case PoolAdd(name, prefix, prefixLength) =>
      s.(pools := s.pools + [Row(s.nextId, PoolData(name, prefix, prefixLength))], nextId := s.nextId + 1)
  }

  /** A command may fail, and a failure says nothing about whether the command took effect. */
  datatype WriteFate = Done | LostBefore | LostAfter

  datatype Fates = Fates(readFails: bool, write: WriteFate)

  const ERROR_FREE := Fates(false, Done)

  function Send(s: State, c: Command, fate: WriteFate): State {
    (if fate.LostBefore? then s else Execute(s, c)).(writes := s.writes + 1)
  }

  // ---------------------------------------------------------------- reconcilers

  datatype Op =
    | SetIPv6Gateway(ifname: string, gateway: Bytes)
    | AssignIPv6(ifname: string, address: CidrText, key: Key, advertise: bool, eui64: bool)
    | ExportIPv6Pool(name: string, prefix: CidrText, prefixLength: int)

  function GatewayWant(op: Op): Want<RouteData>
    requires op.SetIPv6Gateway?
  {
    var text := GatewayText(op.gateway, op.ifname);
    Want((d: RouteData) => d.isDefault && d.comment == RosComment,
         (d: RouteData) => d.isDefault && d.gateway.head == Address(op.gateway)
                           && d.gateway.rest == [op.ifname],
         (d: RouteData) => d.(gateway := text),
         RouteData(true, text, RosComment), false)
  }

  function AddressWant(op: Op): Want<AddressData>
    requires op.AssignIPv6?
  {
    var comment := RosCommentWith(op.key);
    Want((d: AddressData) => !d.isDynamic && d.iface == op.ifname && d.comment == comment,
         (d: AddressData) => !d.isDynamic && d.iface == op.ifname && d.comment == comment
                             && d.address == op.address && d.eui64 == op.eui64 && d.advertise == op.advertise,
         (d: AddressData) => d.(address := op.address, advertise := op.advertise, eui64 := op.eui64),
         AddressData(op.ifname, comment, false, op.address, op.advertise, op.eui64), false)
  }

  function PoolWant(op: Op): Want<PoolData>
    requires op.ExportIPv6Pool?
  {
    Want((d: PoolData) => d.name == op.name,
         (d: PoolData) => d.name == op.name && d.prefix == op.prefix && d.prefixLength == op.prefixLength,
         (d: PoolData) => d.(prefix := op.prefix, prefixLength := op.prefixLength),
         PoolData(op.name, op.prefix, op.prefixLength), true)
  }

  predicate SettledOp(s: State, op: Op) {
    match op
    case SetIPv6Gateway(_, _) => Settled(s.routes, GatewayWant(op))
    case AssignIPv6(_, _, _, _, _) => Settled(s.addresses, AddressWant(op))
    case ExportIPv6Pool(_, _, _) => Settled(s.pools, PoolWant(op))
  }

  /** The command a reconciler sends when no row is as wanted. */
  function CommandFor(s: State, op: Op): Command {
    match op
    case SetIPv6Gateway(ifname, gateway) =>
      (match Target(s.routes, GatewayWant(op))
       case Some(row) => RouteSet(row.id, GatewayText(gateway, ifname))
       case None => RouteAdd(GatewayText(gateway, ifname), RosComment))
    case AssignIPv6(ifname, address, key, advertise, eui64) =>
      (match Target(s.addresses, AddressWant(op))
       case Some(row) => AddressSet(row.id, address, advertise, eui64)
       case None => AddressAdd(ifname, address, advertise, eui64, RosCommentWith(key)))
    case ExportIPv6Pool(name, prefix, prefixLength) =>
      (match Target(s.pools, PoolWant(op))
       case Some(row) => PoolSet(row.id, prefix, prefixLength)
       case None => PoolAdd(name, prefix, prefixLength))
  }

  function Apply(s: State, op: Op, f: Fates): State {
    if f.readFails || SettledOp(s, op) then s else Send(s, CommandFor(s, op), f.write)
  }

  /** The reconciler returns no error. */
  predicate Succeeds(s: State, op: Op, f: Fates) {
    !f.readFails && (SettledOp(s, op) || f.write.Done?)
  }

  function ApplyAll(s: State, ops: seq<Op>, fs: seq<Fates>): State
    requires |ops| == |fs|
  {
    if ops == [] then s
    else
      var n := |ops| - 1;
      Apply(ApplyAll(s, ops[..n], fs[..n]), ops[n], fs[n])
  }

  lemma ApplyCases(s: State, op: Op, f: Fates)
    ensures f.readFails ==> Apply(s, op, f) == s && !Succeeds(s, op, f)
    ensures !f.readFails && SettledOp(s, op) ==> Apply(s, op, f) == s && Succeeds(s, op, f)
    ensures !f.readFails && !SettledOp(s, op) ==>
              && Apply(s, op, f) == Send(s, CommandFor(s, op), f.write)
              && (Succeeds(s, op, f) <==> f.write.Done?)
  {
  }

  // ---------------------------------------------------------------- the client as it runs

  function IdOf<D>(r: Option<Row<D>>): Option<nat> {
    match r case Some(row) => Some(row.id) case None => None
  }

  class Router {
    var addresses: Table<AddressData>
    var routes: Table<RouteData>
    var pools: Table<PoolData>
    var nextId: nat
    var writes: nat

    function Now(): State
      reads this
    {
      State(addresses, routes, pools, nextId, writes)
    }

    constructor (s: State)
      ensures Now() == s
    {
      addresses, routes, pools, nextId, writes := s.addresses, s.routes, s.pools, s.nextId, s.writes;
    }

    method Run(c: Command, fate: WriteFate) returns (ok: bool)
      modifies this
      ensures Now() == Send(old(Now()), c, fate)
      ensures ok <==> fate.Done?
    {
      writes := writes + 1;
      if !fate.LostBefore? {
        match c
        case RouteSet(id, gateway) =>
          routes := SetRow(routes, id, (d: RouteData) => d.(gateway := gateway));
        case RouteAdd(gateway, comment) =>
          routes, nextId := routes + [Row(nextId, RouteData(true, gateway, comment))], nextId + 1;
        case AddressSet(id, address, advertise, eui64) =>
          addresses := SetRow(addresses, id, (d: AddressData) =>
            d.(address := address, advertise := advertise, eui64 := eui64));
        case AddressAdd(iface, address, advertise, eui64, comment) =>
          addresses, nextId :=
            addresses + [Row(nextId, AddressData(iface, comment, false, address, advertise, eui64))],
            nextId + 1;
        case PoolSet(id, prefix, prefixLength) =>
          pools := SetRow(pools, id, (d: PoolData) => d.(prefix := prefix, prefixLength := prefixLength));
        case PoolAdd(name, prefix, prefixLength) =>
          pools, nextId := pools + [Row(nextId, PoolData(name, prefix, prefixLength))], nextId + 1;
      }
      ok := fate.Done?;
    }
  }

  class ROSClient {
    const router: Router

    constructor (router: Router)
      ensures this.router == router
    {
      this.router := router;
    }

    method SetIPv6Gateway(ifname: string, gateway: Bytes, f: Fates) returns (ok: bool)
      modifies router
      ensures router.Now() == Apply(old(router.Now()), Op.SetIPv6Gateway(ifname, gateway), f)
      ensures ok <==> Succeeds(old(router.Now()), Op.SetIPv6Gateway(ifname, gateway), f)
    {
      hide Send, Execute, Apply, Succeeds, Settled, Target;
      ghost var op := Op.SetIPv6Gateway(ifname, gateway);
      ghost var w := GatewayWant(op);
      ApplyCases(router.Now(), op, f);
      if f.readFails {
        return false;
      }
      var re := Query(router.routes, (d: RouteData) => d.isDefault);
      ReplyDecides(router.routes, (d: RouteData) => d.isDefault, w);
      QueryOnly(router.routes, (d: RouteData) => d.isDefault);
      var modTarget: Option<nat> := None;
      for k := 0 to |re|
        invariant modTarget == IdOf(LastOwned(re[..k], w.owned))
        invariant forall i :: 0 <= i < k ==> !w.good(re[i].data)
        invariant router.Now() == old(router.Now())
      {
        var d := re[k].data;
        assert re[..k + 1] == re[..k] + [re[k]];
        OwnedSnoc(re[..k], re[k], w.owned);
        if d.comment == RosComment {
          modTarget := Some(re[k].id);
        }
        if |d.gateway.rest| != 1 || d.gateway.head.Unparsable? {
          continue;
        }
        if d.gateway.head.ip == gateway && d.gateway.rest[0] == ifname {
          assert d.gateway.rest == [ifname];
          assert w.good(re[k].data);
          return true;
        }
      }
      assert re[..|re|] == re;
      match modTarget
      case Some(id) => ok := router.Run(RouteSet(id, GatewayText(gateway, ifname)), f.write);
      case None => ok := router.Run(RouteAdd(GatewayText(gateway, ifname), RosComment), f.write);
    }

    method ExportIPv6Pool(name: string, prefix: CidrText, prefixLength: int, f: Fates) returns (ok: bool)
      modifies router
      ensures router.Now() == Apply(old(router.Now()), Op.ExportIPv6Pool(name, prefix, prefixLength), f)
      ensures ok <==> Succeeds(old(router.Now()), Op.ExportIPv6Pool(name, prefix, prefixLength), f)
    {
      hide Send, Execute, Apply, Succeeds;
      ghost var op := Op.ExportIPv6Pool(name, prefix, prefixLength);
      ghost var w := PoolWant(op);
      ApplyCases(router.Now(), op, f);
      if f.readFails {
        return false;
      }
      var re := Query(router.pools, (d: PoolData) => d.name == name);
      QueryKeepsTargets(router.pools, (d: PoolData) => d.name == name, w.owned);
      QueryOnly(router.pools, (d: PoolData) => d.name == name);
      if |re| > 0 {
        FirstIs(re, w.owned, 0);
        if re[0].data.prefix == prefix && re[0].data.prefixLength == prefixLength {
          return true;
        }
        ok := router.Run(PoolSet(re[0].id, prefix, prefixLength), f.write);
      } else {
        ok := router.Run(PoolAdd(name, prefix, prefixLength), f.write);
      }
    }

    method AssignIPv6(ifname: string, address: CidrText, key: Key, advertise: bool, eui64: bool, f: Fates)
      returns (ok: bool)
      modifies router
      ensures router.Now() == Apply(old(router.Now()), Op.AssignIPv6(ifname, address, key, advertise, eui64), f)
      ensures ok <==> Succeeds(old(router.Now()), Op.AssignIPv6(ifname, address, key, advertise, eui64), f)
    {
      var comment := RosCommentWith(key);
      hide Send, Execute, Apply, Succeeds, Settled, Target;
      ghost var op := Op.AssignIPv6(ifname, address, key, advertise, eui64);
      ghost var w := AddressWant(op);
      ApplyCases(router.Now(), op, f);
      if f.readFails {
        return false;
      }
      var filter := (d: AddressData) => !d.comment.NoComment? && !d.isDynamic && d.iface == ifname;
      var re := Query(router.addresses, filter);
      ReplyDecides(router.addresses, filter, w);
      QueryOnly(router.addresses, filter);
      var target: Option<nat> := None;
      for k := 0 to |re|
        invariant target == IdOf(LastOwned(re[..k], w.owned))
        invariant forall i :: 0 <= i < k ==> !w.good(re[i].data)
        invariant router.Now() == old(router.Now())
      {
        var d := re[k].data;
        assert re[..k + 1] == re[..k] + [re[k]];
        OwnedSnoc(re[..k], re[k], w.owned);
        if d.comment != comment {
          continue;
        }
        target := Some(re[k].id);
        if d.address == address && d.eui64 == eui64 && d.advertise == advertise {
          assert w.good(re[k].data);
          return true;
        }
      }
      assert re[..|re|] == re;
      match target
      case Some(id) => ok := router.Run(AddressSet(id, address, advertise, eui64), f.write);
      case None => ok := router.Run(AddressAdd(ifname, address, advertise, eui64, comment), f.write);
    }
  }
}
