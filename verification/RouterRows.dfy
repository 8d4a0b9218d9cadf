/** What the reconcilers do to the rows of the router's tables, field by field. */
module RouterRows {
  import opened Prefix
  import opened FlexibleIPs
  import opened Tables
  import opened RouterOS
  import opened Reconciliation

  // ---------------------------------------------------------------- addresses

  /** A static address of the interface with the program's comment for the key. */
  predicate OwnAddress(d: AddressData, ifname: string, key: Key) {
    !d.isDynamic && d.iface == ifname && d.comment == RosCommentWith(key)
  }

  predicate HasAddress(t: Table<AddressData>, ifname: string, address: CidrText, key: Key, advertise: bool,
                       eui64: bool) {
    exists i :: 0 <= i < |t| && OwnAddress(t[i].data, ifname, key)
                && t[i].data.address == address && t[i].data.advertise == advertise && t[i].data.eui64 == eui64
  }

  predicate LastOwnAddress(t: Table<AddressData>, k: nat, ifname: string, key: Key) {
    k < |t| && OwnAddress(t[k].data, ifname, key)
    && forall i :: k < i < |t| ==> !OwnAddress(t[i].data, ifname, key)
  }

  /** The last own address is set in place, or the address is added when there is none. */
  predicate AddressWritten(s: State, r: State, ifname: string, address: CidrText, key: Key, advertise: bool,
                           eui64: bool) {
    if exists i :: 0 <= i < |s.addresses| && OwnAddress(s.addresses[i].data, ifname, key) then
      && r.nextId == s.nextId
      && exists k :: 0 <= k < |s.addresses| && LastOwnAddress(s.addresses, k, ifname, key)
                     && r.addresses == s.addresses[k := Row(s.addresses[k].id,
                          AddressData(ifname, RosCommentWith(key), false, address, advertise, eui64))]
    else
      && r.nextId == s.nextId + 1
      && r.addresses == s.addresses
                        + [Row(s.nextId, AddressData(ifname, RosCommentWith(key), false, address, advertise, eui64))]
  }

  lemma AddressRows(s: State, ifname: string, address: CidrText, key: Key, advertise: bool, eui64: bool)
    requires WellFormed(s)
    ensures var op := AssignIPv6(ifname, address, key, advertise, eui64);
            && (SettledOp(s, op) <==> HasAddress(s.addresses, ifname, address, key, advertise, eui64))
            && AddressWritten(s, Execute(s, CommandFor(s, op)), ifname, address, key, advertise, eui64)
            && Execute(s, CommandFor(s, op)).routes == s.routes
            && Execute(s, CommandFor(s, op)).pools == s.pools
  {
    var op := AssignIPv6(ifname, address, key, advertise, eui64);
    var w := AddressWant(op);
    CommandWrites(s, op);
    OwnedFound(s.addresses, w.owned);
    if Has(s.addresses, w.owned) {
      var i :| 0 <= i < |s.addresses| && w.owned(s.addresses[i].data);
      assert OwnAddress(s.addresses[i].data, ifname, key);
      var k := WrittenAt(s.addresses, w, s.nextId);
      assert LastOwnAddress(s.addresses, k, ifname, key);
    } else {
      forall i | 0 <= i < |s.addresses| ensures !OwnAddress(s.addresses[i].data, ifname, key) {
        assert !w.owned(s.addresses[i].data);
      }
    }
    AddressSettled(s.addresses, op);
  }

  lemma AddressSettled(t: Table<AddressData>, op: Op)
    requires op.AssignIPv6?
    ensures Settled(t, AddressWant(op)) <==> HasAddress(t, op.ifname, op.address, op.key, op.advertise, op.eui64)
  {
    var good := AddressWant(op).good;
    if Has(t, good) {
      var i :| 0 <= i < |t| && good(t[i].data);
      assert OwnAddress(t[i].data, op.ifname, op.key);
    }
    if HasAddress(t, op.ifname, op.address, op.key, op.advertise, op.eui64) {
      var i :| 0 <= i < |t| && OwnAddress(t[i].data, op.ifname, op.key) && t[i].data.address == op.address
               && t[i].data.advertise == op.advertise && t[i].data.eui64 == op.eui64;
      assert good(t[i].data);
    }
  }

  // ---------------------------------------------------------------- default routes

  predicate OwnRoute(d: RouteData) {
    d.isDefault && d.comment == RosComment
  }

  /** Some default route, whoever made it, leads to the gateway through the interface. */
  predicate HasRoute(t: Table<RouteData>, ifname: string, gateway: Bytes) {
    exists i :: 0 <= i < |t| && t[i].data.isDefault && t[i].data.gateway == Gateway(Address(gateway), [ifname])
  }

  predicate LastOwnRoute(t: Table<RouteData>, k: nat) {
    k < |t| && OwnRoute(t[k].data) && forall i :: k < i < |t| ==> !OwnRoute(t[i].data)
  }

  predicate RouteWritten(s: State, r: State, gateway: Gateway) {
    if exists i :: 0 <= i < |s.routes| && OwnRoute(s.routes[i].data) then
      && r.nextId == s.nextId
      && exists k :: 0 <= k < |s.routes| && LastOwnRoute(s.routes, k)
                     && r.routes == s.routes[k := Row(s.routes[k].id, RouteData(true, gateway, RosComment))]
    else
      && r.nextId == s.nextId + 1
      && r.routes == s.routes + [Row(s.nextId, RouteData(true, gateway, RosComment))]
  }

  lemma RouteRows(s: State, ifname: string, gateway: Bytes)
    requires WellFormed(s)
    ensures var op := Op.SetIPv6Gateway(ifname, gateway);
            && (SettledOp(s, op) <==> HasRoute(s.routes, ifname, gateway))
            && RouteWritten(s, Execute(s, CommandFor(s, op)), Gateway(Address(gateway), SplitPercent(ifname)))
            && Execute(s, CommandFor(s, op)).addresses == s.addresses
            && Execute(s, CommandFor(s, op)).pools == s.pools
  {
    var op := Op.SetIPv6Gateway(ifname, gateway);
    var w := GatewayWant(op);
    CommandWrites(s, op);
    OwnedFound(s.routes, w.owned);
    if Has(s.routes, w.owned) {
      var i :| 0 <= i < |s.routes| && w.owned(s.routes[i].data);
      assert OwnRoute(s.routes[i].data);
      var k := WrittenAt(s.routes, w, s.nextId);
      assert LastOwnRoute(s.routes, k);
    } else {
      forall i | 0 <= i < |s.routes| ensures !OwnRoute(s.routes[i].data) {
        assert !w.owned(s.routes[i].data);
      }
    }
    RouteSettled(s.routes, op);
  }

  lemma RouteSettled(t: Table<RouteData>, op: Op)
    requires op.SetIPv6Gateway?
    ensures Settled(t, GatewayWant(op)) <==> HasRoute(t, op.ifname, op.gateway)
  {
    var good := GatewayWant(op).good;
    if Has(t, good) {
      var i :| 0 <= i < |t| && good(t[i].data);
      assert t[i].data.gateway == Gateway(Address(op.gateway), [op.ifname]);
    }
    if HasRoute(t, op.ifname, op.gateway) {
      var i :| 0 <= i < |t| && t[i].data.isDefault && t[i].data.gateway == Gateway(Address(op.gateway), [op.ifname]);
      assert good(t[i].data);
    }
  }

  // ---------------------------------------------------------------- pools

  /** Row k is the first pool of the name. */
  predicate FirstPool(t: Table<PoolData>, k: nat, name: string) {
    k < |t| && t[k].data.name == name && forall i :: 0 <= i < k ==> t[i].data.name != name
  }

  /** The first pool of the name is as wished. */
  predicate HasPool(t: Table<PoolData>, name: string, prefix: CidrText, prefixLength: int) {
    exists k :: 0 <= k < |t| && FirstPool(t, k, name)
                && t[k].data.prefix == prefix && t[k].data.prefixLength == prefixLength
  }

  predicate PoolWritten(s: State, r: State, name: string, prefix: CidrText, prefixLength: int) {
    if exists i :: 0 <= i < |s.pools| && s.pools[i].data.name == name then
      && r.nextId == s.nextId
      && exists k :: 0 <= k < |s.pools| && FirstPool(s.pools, k, name)
                     && r.pools == s.pools[k := Row(s.pools[k].id, PoolData(name, prefix, prefixLength))]
    else
      && r.nextId == s.nextId + 1
      && r.pools == s.pools + [Row(s.nextId, PoolData(name, prefix, prefixLength))]
  }

  lemma PoolRows(s: State, name: string, prefix: CidrText, prefixLength: int)
    requires WellFormed(s)
    ensures var op := ExportIPv6Pool(name, prefix, prefixLength);
            && (SettledOp(s, op) <==> HasPool(s.pools, name, prefix, prefixLength))
            && PoolWritten(s, Execute(s, CommandFor(s, op)), name, prefix, prefixLength)
            && Execute(s, CommandFor(s, op)).addresses == s.addresses
            && Execute(s, CommandFor(s, op)).routes == s.routes
  {
    var op := ExportIPv6Pool(name, prefix, prefixLength);
    var w := PoolWant(op);
    CommandWrites(s, op);
    OwnedFound(s.pools, w.owned);
    if Has(s.pools, w.owned) {
      var i :| 0 <= i < |s.pools| && w.owned(s.pools[i].data);
      assert s.pools[i].data.name == name;
      var k := WrittenAt(s.pools, w, s.nextId);
      assert FirstPool(s.pools, k, name);
    } else {
      forall i | 0 <= i < |s.pools| ensures s.pools[i].data.name != name {
        assert !w.owned(s.pools[i].data);
      }
    }
    PoolSettled(s.pools, op);
  }

  lemma PoolSettled(t: Table<PoolData>, op: Op)
    requires op.ExportIPv6Pool?
    ensures Settled(t, PoolWant(op)) <==> HasPool(t, op.name, op.prefix, op.prefixLength)
  {
    var w := PoolWant(op);
    if HasPool(t, op.name, op.prefix, op.prefixLength) {
      var j :| 0 <= j < |t| && FirstPool(t, j, op.name) && t[j].data.prefix == op.prefix
               && t[j].data.prefixLength == op.prefixLength;
      assert w.owned(t[j].data);
      assert forall i :: 0 <= i < j ==> !w.owned(t[i].data);
      FirstIs(t, w.owned, j);
    }
    if Settled(t, w) {
      var k := FirstIndex(t, w.owned);
      assert FirstPool(t, k, op.name);
    }
  }

  // ---------------------------------------------------------------- one call

  /** The router holds what the call asks for. */
  predicate Present(s: State, op: Op) {
    match op
    case SetIPv6Gateway(ifname, gateway) => HasRoute(s.routes, ifname, gateway)
    case AssignIPv6(ifname, address, key, advertise, eui64) =>
      HasAddress(s.addresses, ifname, address, key, advertise, eui64)
    case ExportIPv6Pool(name, prefix, prefixLength) => HasPool(s.pools, name, prefix, prefixLength)
  }

  /** One write that took effect; the other two tables are as before. */
  predicate WrittenFor(s: State, r: State, op: Op) {
    match op
    case SetIPv6Gateway(ifname, gateway) =>
      r.addresses == s.addresses && r.pools == s.pools
      && RouteWritten(s, r, Gateway(Address(gateway), SplitPercent(ifname)))
    case AssignIPv6(ifname, address, key, advertise, eui64) =>
      r.routes == s.routes && r.pools == s.pools
      && AddressWritten(s, r, ifname, address, key, advertise, eui64)
    case ExportIPv6Pool(name, prefix, prefixLength) =>
      r.addresses == s.addresses && r.routes == s.routes && PoolWritten(s, r, name, prefix, prefixLength)
  }

  lemma OpRows(s: State, op: Op)
    requires WellFormed(s)
    ensures SettledOp(s, op) <==> Present(s, op)
    ensures WrittenFor(s, Execute(s, CommandFor(s, op)), op)
  {
    hide WellFormed, SettledOp, Execute, CommandFor, HasRoute, HasAddress, HasPool, RouteWritten, AddressWritten,
         PoolWritten;
    match op
    case SetIPv6Gateway(ifname, gateway) => RouteRows(s, ifname, gateway);
    case AssignIPv6(ifname, address, key, advertise, eui64) => AddressRows(s, ifname, address, key, advertise, eui64);
    case ExportIPv6Pool(name, prefix, prefixLength) => PoolRows(s, name, prefix, prefixLength);
  }

  /** Each call, for each fate, in rows: it sends one command exactly when reading works and what it asks
      for is not there; the tables change exactly when that command took effect, also when its answer was
      lost; and it succeeds exactly when reading works and either nothing was to do or the answer came. */
  lemma CallInRows(s: State, op: Op, f: Fates)
    requires WellFormed(s)
    ensures var r := Apply(s, op, f);
            && (f.readFails || Present(s, op) ==> r == s)
            && (!f.readFails && !Present(s, op) ==>
                  && r.writes == s.writes + 1
                  && (if f.write.LostBefore? then r == s.(writes := s.writes + 1) else WrittenFor(s, r, op)))
            && (Succeeds(s, op, f) <==> !f.readFails && (Present(s, op) || f.write.Done?))
  {
    hide WellFormed, Present, SettledOp, WrittenFor, CommandFor;
    OpRows(s, op);
    if !f.readFails && !Present(s, op) && !f.write.LostBefore? {
      var r := Execute(s, CommandFor(s, op));
      WritesDoNotMatter(s, r, op);
      SendWrites(s, CommandFor(s, op), f.write);
    }
  }

  lemma WritesDoNotMatter(s: State, r: State, op: Op)
    requires WrittenFor(s, r, op)
    ensures WrittenFor(s, r.(writes := s.writes + 1), op)
  {
  }

  lemma SendWrites(s: State, c: Command, fate: WriteFate)
    requires !fate.LostBefore?
    ensures Send(s, c, fate) == Execute(s, c).(writes := s.writes + 1)
  {
  }

  /** A call that succeeds leaves the router with what it asked for; the gateway, with its address and
      interface, unless the interface name has a '%'. */
  lemma SuccessInRows(s: State, op: Op, f: Fates)
    requires WellFormed(s) && Readable(op) && Succeeds(s, op, f)
    ensures Present(Apply(s, op, f), op)
  {
    hide WellFormed, SettledOp, Present, Apply, Succeeds;
    SuccessSettles(s, op, f);
    ApplyKeepsWellFormed(s, op, f);
    OpRows(Apply(s, op, f), op);
  }

  // ---------------------------------------------------------------- runs of calls

  predicate OneOwnAddress(t: Table<AddressData>, ifname: string, key: Key) {
    forall i, j :: 0 <= i < j < |t| && OwnAddress(t[i].data, ifname, key) ==> !OwnAddress(t[j].data, ifname, key)
  }

  predicate OneOwnRoute(t: Table<RouteData>) {
    forall i, j :: 0 <= i < j < |t| && OwnRoute(t[i].data) ==> !OwnRoute(t[j].data)
  }

  predicate OnePool(t: Table<PoolData>, name: string) {
    forall i, j :: 0 <= i < j < |t| && t[i].data.name == name ==> t[j].data.name != name
  }

  lemma SingleInRows(s: State, op: Op)
    ensures Single(s, op) <==>
            match op
            case SetIPv6Gateway(_, _) => OneOwnRoute(s.routes)
            case AssignIPv6(ifname, _, key, _, _) => OneOwnAddress(s.addresses, ifname, key)
            case ExportIPv6Pool(name, _, _) => OnePool(s.pools, name)
  {
    match op
    case SetIPv6Gateway(_, _) =>
      assert forall d :: GatewayWant(op).owned(d) <==> OwnRoute(d);
    case AssignIPv6(ifname, _, key, _, _) =>
      assert forall d :: AddressWant(op).owned(d) <==> OwnAddress(d, ifname, key);
    case ExportIPv6Pool(name, _, _) =>
      assert forall d :: PoolWant(op).owned(d) <==> d.name == name;
  }

  const SOME_TEXT: CidrText := NetText([], [])

  /** Over any calls with any fates: at most one static address per interface and comment, at most one
      commented default route, and at most one pool per name, if it was so before. */
  lemma NothingAccumulates(s: State, ops: seq<Op>, fs: seq<Fates>, ifname: string, key: Key, name: string)
    requires |ops| == |fs|
    ensures var r := ApplyAll(s, ops, fs);
            && (OneOwnAddress(s.addresses, ifname, key) ==> OneOwnAddress(r.addresses, ifname, key))
            && (OneOwnRoute(s.routes) ==> OneOwnRoute(r.routes))
            && (OnePool(s.pools, name) ==> OnePool(r.pools, name))
  {
    hide Single, OneOwnAddress, OneOwnRoute, OnePool;
    var r := ApplyAll(s, ops, fs);
    var a, g, p := AssignIPv6(ifname, SOME_TEXT, key, false, false), Op.SetIPv6Gateway("", []),
                   ExportIPv6Pool(name, SOME_TEXT, 0);
    SingleInRows(s, a);
    SingleInRows(s, g);
    SingleInRows(s, p);
    SingleInRows(r, a);
    SingleInRows(r, g);
    SingleInRows(r, p);
    if Single(s, a) {
      RunKeepsSingle(s, ops, fs, a);
    }
    if Single(s, g) {
      RunKeepsSingle(s, ops, fs, g);
    }
    if Single(s, p) {
      RunKeepsSingle(s, ops, fs, p);
    }
  }

  function JoinPercent(parts: seq<string>): string {
    if parts == [] then ""
    else if |parts| == 1 then parts[0]
    else parts[0] + "%" + JoinPercent(parts[1..])
  }

  /** Nothing of a text is lost by splitting it. */
  lemma {:induction false} SplitJoins(s: string)
    ensures JoinPercent(SplitPercent(s)) == s
  {
    if s != "" {
      SplitJoins(s[1..]);
      var r := SplitPercent(s[1..]);
      assert s == [s[0]] + s[1..];
      if s[0] == '%' {
        assert ([""] + r)[1..] == r;
      } else {
        assert ([[s[0]] + r[0]] + r[1..])[1..] == r[1..];
      }
    }
  }
}
