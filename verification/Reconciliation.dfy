/** What the reconcilers keep and what they reach: one own entry per key whatever fails, and
    convergence in one error-free pass exactly when the wishes do not contradict each other. */
module Reconciliation {
  import opened Prefix
  import opened Tables
  import opened RouterOS

  predicate WellFormed(s: State) {
    && DistinctIds(s.addresses, s.nextId)
    && DistinctIds(s.routes, s.nextId)
    && DistinctIds(s.pools, s.nextId)
    && forall i :: 0 <= i < |s.routes| ==> ProperGateway(s.routes[i].data.gateway)
  }

  /** The two wishes are about the same entry. */
  predicate SameTarget(a: Op, b: Op) {
    match (a, b)
    case (SetIPv6Gateway(_, _), SetIPv6Gateway(_, _)) => true
    case (AssignIPv6(i, _, k, _, _), AssignIPv6(i', _, k', _, _)) => i == i' && k == k'
    case (ExportIPv6Pool(n, _, _), ExportIPv6Pool(n', _, _)) => n == n'
    case _ => false
  }

  /** The router table has at most one entry of the op's owner. */
  predicate Single(s: State, op: Op) {
    match op
    case SetIPv6Gateway(_, _) => AtMostOne(s.routes, GatewayWant(op).owned)
    case AssignIPv6(_, _, _, _, _) => AtMostOne(s.addresses, AddressWant(op).owned)
    case ExportIPv6Pool(_, _, _) => AtMostOne(s.pools, PoolWant(op).owned)
  }

  /** A gateway text can only be read back when the interface name has no '%'. */
  predicate Readable(op: Op) {
    op.SetIPv6Gateway? ==> '%' !in op.ifname
  }

  // ---------------------------------------------------------------- one step

  /** A command that takes effect is a write of the generic controller. */
  lemma CommandWrites(s: State, op: Op)
    ensures Execute(s, CommandFor(s, op)) ==
            match op {
              case SetIPv6Gateway(_, _) =>
                var w := GatewayWant(op);
                s.(routes := Written(s.routes, w, s.nextId), nextId := IdAfter(s.routes, w, s.nextId))
              case AssignIPv6(_, _, _, _, _) =>
                var w := AddressWant(op);
                s.(addresses := Written(s.addresses, w, s.nextId), nextId := IdAfter(s.addresses, w, s.nextId))
              case ExportIPv6Pool(_, _, _) =>
                var w := PoolWant(op);
                s.(pools := Written(s.pools, w, s.nextId), nextId := IdAfter(s.pools, w, s.nextId))
            }
  {
    var r := Execute(s, CommandFor(s, op));
    match op
    case SetIPv6Gateway(_, _) => assert r.routes == Written(s.routes, GatewayWant(op), s.nextId);
    case AssignIPv6(_, _, _, _, _) => assert r.addresses == Written(s.addresses, AddressWant(op), s.nextId);
    case ExportIPv6Pool(_, _, _) => assert r.pools == Written(s.pools, PoolWant(op), s.nextId);
  }

  lemma MoreIds<D>(t: Table<D>, n: nat, m: nat)
    requires DistinctIds(t, n) && n <= m
    ensures DistinctIds(t, m)
  {
  }

  lemma RoutesStayProper(s: State, op: Op)
    requires WellFormed(s) && op.SetIPv6Gateway?
    ensures var r := Written(s.routes, GatewayWant(op), s.nextId);
            forall i :: 0 <= i < |r| ==> ProperGateway(r[i].data.gateway)
  {
    WrittenRows(s.routes, GatewayWant(op), s.nextId);
    SplitParts(op.ifname);
  }

  lemma ApplyKeepsWellFormed(s: State, op: Op, f: Fates)
    requires WellFormed(s)
    ensures WellFormed(Apply(s, op, f))
    ensures Apply(s, op, f).nextId >= s.nextId
  {
    hide AddressWant, PoolWant, GatewayWant, ProperGateway;
    var r := Execute(s, CommandFor(s, op));
    CommandWrites(s, op);
    MoreIds(s.addresses, s.nextId, r.nextId);
    MoreIds(s.routes, s.nextId, r.nextId);
    MoreIds(s.pools, s.nextId, r.nextId);
    match op
    case SetIPv6Gateway(_, _) =>
      WrittenRows(s.routes, GatewayWant(op), s.nextId);
      RoutesStayProper(s, op);
    case AssignIPv6(_, _, _, _, _) => WrittenRows(s.addresses, AddressWant(op), s.nextId);
    case ExportIPv6Pool(_, _, _) => WrittenRows(s.pools, PoolWant(op), s.nextId);
  }

  /** No command, lost or not, gives an owner a second entry. */
  lemma ApplyKeepsSingle(s: State, op: Op, f: Fates, mine: Op)
    requires Single(s, mine)
    ensures Single(Apply(s, op, f), mine)
  {
    CommandWrites(s, op);
    match (op, mine)
    case (SetIPv6Gateway(_, _), SetIPv6Gateway(_, _)) =>
      WriteKeepsAtMostOne(s.routes, GatewayWant(op), s.nextId, GatewayWant(mine));
    case (AssignIPv6(_, _, _, _, _), AssignIPv6(_, _, _, _, _)) =>
      WriteKeepsAtMostOne(s.addresses, AddressWant(op), s.nextId, AddressWant(mine));
    case (ExportIPv6Pool(_, _, _), ExportIPv6Pool(_, _, _)) =>
      WriteKeepsAtMostOne(s.pools, PoolWant(op), s.nextId, PoolWant(mine));
    case _ =>
  }

  /** A reconciler that reports success has reached its wish. */
  lemma SuccessSettles(s: State, op: Op, f: Fates)
    requires WellFormed(s) && Readable(op) && Succeeds(s, op, f)
    ensures SettledOp(Apply(s, op, f), op)
  {
    CommandWrites(s, op);
    match op
    case SetIPv6Gateway(_, _) =>
      SplitParts(op.ifname);
      WriteSettles(s.routes, GatewayWant(op), s.nextId);
    case AssignIPv6(_, _, _, _, _) => WriteSettles(s.addresses, AddressWant(op), s.nextId);
    case ExportIPv6Pool(_, _, _) => WriteSettles(s.pools, PoolWant(op), s.nextId);
  }

  /** A wish that was reached stays reached while others are worked on, whatever fails. */
  lemma ApplyKeepsSettled(s: State, op: Op, f: Fates, mine: Op)
    requires WellFormed(s) && SettledOp(s, mine) && (SameTarget(op, mine) ==> op == mine)
    ensures SettledOp(Apply(s, op, f), mine)
  {
    CommandWrites(s, op);
    match (op, mine)
    case (SetIPv6Gateway(_, _), SetIPv6Gateway(_, _)) =>
    case (AssignIPv6(_, _, _, _, _), AssignIPv6(_, _, _, _, _)) =>
      if op != mine {
        WriteKeepsSettled(s.addresses, AddressWant(op), s.nextId, AddressWant(mine));
      }
    case (ExportIPv6Pool(_, _, _), ExportIPv6Pool(_, _, _)) =>
      if op != mine {
        WriteKeepsSettled(s.pools, PoolWant(op), s.nextId, PoolWant(mine));
      }
    case _ =>
  }

  // ---------------------------------------------------------------- whole runs

  predicate ErrorFree(fs: seq<Fates>) {
    forall i :: 0 <= i < |fs| ==> fs[i] == ERROR_FREE
  }

  lemma {:induction false} RunKeepsWellFormed(s: State, ops: seq<Op>, fs: seq<Fates>)
    requires |ops| == |fs| && WellFormed(s)
    ensures WellFormed(ApplyAll(s, ops, fs))
  {
    if ops != [] {
      var n := |ops| - 1;
      RunKeepsWellFormed(s, ops[..n], fs[..n]);
      ApplyKeepsWellFormed(ApplyAll(s, ops[..n], fs[..n]), ops[n], fs[n]);
    }
  }

  /** Entries never accumulate: over any sequence of calls with changing wishes and with commands
      lost before or after taking effect, an owner keeps at most one entry. */
  lemma {:induction false} RunKeepsSingle(s: State, ops: seq<Op>, fs: seq<Fates>, mine: Op)
    requires |ops| == |fs| && Single(s, mine)
    ensures Single(ApplyAll(s, ops, fs), mine)
  {
    if ops != [] {
      var n := |ops| - 1;
      RunKeepsSingle(s, ops[..n], fs[..n], mine);
      ApplyKeepsSingle(ApplyAll(s, ops[..n], fs[..n]), ops[n], fs[n], mine);
    }
  }

  /** Rows keep their place, id and owner; rows nobody in ops owns keep all their data. */
  ghost predicate AddressesExtend(s: State, r: State, ops: seq<Op>) {
    && |s.addresses| <= |r.addresses|
    && forall i :: 0 <= i < |s.addresses| ==>
         var (a, b) := (s.addresses[i], r.addresses[i]);
         && a.id == b.id && a.data.iface == b.data.iface
         && a.data.comment == b.data.comment && a.data.isDynamic == b.data.isDynamic
         && (a.data.isDynamic
             || (forall op :: op in ops && op.AssignIPv6? ==>
                   a.data.iface != op.ifname || a.data.comment != RosCommentWith(op.key))
             ==> a == b)
  }

  ghost predicate RoutesExtend(s: State, r: State, ops: seq<Op>) {
    && |s.routes| <= |r.routes|
    && forall i :: 0 <= i < |s.routes| ==>
         var (a, b) := (s.routes[i], r.routes[i]);
         && a.id == b.id && a.data.isDefault == b.data.isDefault && a.data.comment == b.data.comment
         && (a.data.comment != RosComment || !a.data.isDefault ==> a == b)
  }

  ghost predicate PoolsExtend(s: State, r: State, ops: seq<Op>) {
    && |s.pools| <= |r.pools|
    && forall i :: 0 <= i < |s.pools| ==>
         var (a, b) := (s.pools[i], r.pools[i]);
         && a.id == b.id && a.data.name == b.data.name
         && ((forall op :: op in ops && op.ExportIPv6Pool? ==> op.name != a.data.name) ==> a == b)
  }

  ghost predicate Extends(s: State, r: State, ops: seq<Op>) {
    AddressesExtend(s, r, ops) && RoutesExtend(s, r, ops) && PoolsExtend(s, r, ops)
  }

  lemma AssignExtends(s: State, op: Op)
    requires WellFormed(s) && op.AssignIPv6?
    ensures AddressesExtend(s, Execute(s, CommandFor(s, op)), [op])
  {
    hide Execute, CommandFor;
    CommandWrites(s, op);
    assert op in [op];
    WrittenRows(s.addresses, AddressWant(op), s.nextId);
  }

  lemma ExportExtends(s: State, op: Op)
    requires WellFormed(s) && op.ExportIPv6Pool?
    ensures PoolsExtend(s, Execute(s, CommandFor(s, op)), [op])
  {
    hide Execute, CommandFor;
    CommandWrites(s, op);
    assert op in [op];
    WrittenRows(s.pools, PoolWant(op), s.nextId);
  }

  lemma GatewayExtends(s: State, op: Op)
    requires WellFormed(s) && op.SetIPv6Gateway?
    ensures RoutesExtend(s, Execute(s, CommandFor(s, op)), [op])
  {
    hide Execute, CommandFor;
    CommandWrites(s, op);
    WrittenRows(s.routes, GatewayWant(op), s.nextId);
  }

  lemma ApplyExtends(s: State, op: Op, f: Fates)
    requires WellFormed(s)
    ensures Extends(s, Apply(s, op, f), [op])
  {
    hide AddressWant, PoolWant, GatewayWant;
    CommandWrites(s, op);
    match op
    case SetIPv6Gateway(_, _) => GatewayExtends(s, op);
    case AssignIPv6(_, _, _, _, _) => AssignExtends(s, op);
    case ExportIPv6Pool(_, _, _) => ExportExtends(s, op);
  }

  /** Updates are made in place under the same id, and foreign entries are never touched. */
  lemma {:induction false} RunTouchesOwnRowsOnly(s: State, ops: seq<Op>, fs: seq<Fates>)
    requires |ops| == |fs| && WellFormed(s)
    ensures Extends(s, ApplyAll(s, ops, fs), ops)
  {
    if ops != [] {
      var n := |ops| - 1;
      var m := ApplyAll(s, ops[..n], fs[..n]);
      RunTouchesOwnRowsOnly(s, ops[..n], fs[..n]);
      RunKeepsWellFormed(s, ops[..n], fs[..n]);
      ApplyExtends(m, ops[n], fs[n]);
      assert ops[n] in ops && forall op :: op in ops[..n] ==> op in ops;
      assert forall op :: op in [ops[n]] ==> op in ops;
    }
  }

  // ---------------------------------------------------------------- convergence

  /** No two wishes about one entry differ, and the gateway can be read back. */
  predicate Consistent(ops: seq<Op>) {
    && (forall i, j :: 0 <= i < j < |ops| && SameTarget(ops[i], ops[j]) ==> ops[i] == ops[j])
    && (forall i :: 0 <= i < |ops| ==> Readable(ops[i]))
  }

  predicate AllSettled(s: State, ops: seq<Op>) {
    forall i :: 0 <= i < |ops| ==> SettledOp(s, ops[i])
  }

  predicate AllSingle(s: State, ops: seq<Op>) {
    forall i :: 0 <= i < |ops| ==> Single(s, ops[i])
  }

  predicate OneGateway(ops: seq<Op>) {
    forall i, j :: 0 <= i < j < |ops| && ops[i].SetIPv6Gateway? ==> !ops[j].SetIPv6Gateway?
  }

  /** A failure stops nothing: every wish whose own call did not fail is reached at the end, whatever
      happened to the others. */
  lemma {:induction false} EachSuccessLasts(s: State, ops: seq<Op>, fs: seq<Fates>, i: nat)
    requires |ops| == |fs| && WellFormed(s) && Consistent(ops) && i < |ops| && fs[i] == ERROR_FREE
    ensures SettledOp(ApplyAll(s, ops, fs), ops[i])
  {
    var n := |ops| - 1;
    var m := ApplyAll(s, ops[..n], fs[..n]);
    RunKeepsWellFormed(s, ops[..n], fs[..n]);
    if i == n {
      SuccessSettles(m, ops[n], fs[n]);
    } else {
      EachSuccessLasts(s, ops[..n], fs[..n], i);
      assert ops[..n][i] == ops[i];
      SameTargetSymmetric(ops[i], ops[n]);
      ApplyKeepsSettled(m, ops[n], fs[n], ops[i]);
    }
  }

  lemma PassSettles(s: State, ops: seq<Op>, fs: seq<Fates>)
    requires |ops| == |fs| && WellFormed(s) && Consistent(ops) && ErrorFree(fs)
    ensures AllSettled(ApplyAll(s, ops, fs), ops)
  {
    forall i | 0 <= i < |ops| ensures SettledOp(ApplyAll(s, ops, fs), ops[i]) {
      EachSuccessLasts(s, ops, fs, i);
    }
  }

  lemma SameTargetSymmetric(a: Op, b: Op)
    ensures SameTarget(a, b) <==> SameTarget(b, a)
  {
  }

  /** Two wishes reached through one entry are the same wish. */
  lemma SettledTogether(s: State, a: Op, b: Op)
    requires Single(s, a) && SettledOp(s, a) && SettledOp(s, b)
    requires SameTarget(a, b) && !a.SetIPv6Gateway?
    ensures a == b
  {
    match a
    case AssignIPv6(_, _, _, _, _) =>
      var i :| 0 <= i < |s.addresses| && AddressWant(a).good(s.addresses[i].data);
      var j :| 0 <= j < |s.addresses| && AddressWant(b).good(s.addresses[j].data);
      assert AddressWant(a).owned(s.addresses[i].data) && AddressWant(a).owned(s.addresses[j].data);
      assert i == j;
    case ExportIPv6Pool(_, _, _) =>
      var i := FirstIndex(s.pools, PoolWant(a).owned);
      var j := FirstIndex(s.pools, PoolWant(b).owned);
      assert PoolWant(a).owned(s.pools[j].data);
      assert i == j;
  }

  lemma SettledIsReadable(s: State, op: Op)
    requires WellFormed(s) && SettledOp(s, op)
    ensures Readable(op)
  {
    if op.SetIPv6Gateway? {
      var i :| 0 <= i < |s.routes| && GatewayWant(op).good(s.routes[i].data);
      assert ProperGateway(s.routes[i].data.gateway);
      assert s.routes[i].data.gateway.rest[0] == op.ifname;
    }
  }

  /** One error-free pass reaches every wish exactly when the wishes are consistent. */
  lemma ConvergesExactly(s: State, ops: seq<Op>, fs: seq<Fates>)
    requires |ops| == |fs| && WellFormed(s) && AllSingle(s, ops) && OneGateway(ops) && ErrorFree(fs)
    ensures AllSettled(ApplyAll(s, ops, fs), ops) <==> Consistent(ops)
  {
    var r := ApplyAll(s, ops, fs);
    RunKeepsWellFormed(s, ops, fs);
    if Consistent(ops) {
      PassSettles(s, ops, fs);
    } else if AllSettled(r, ops) {
      forall i, j | 0 <= i < j < |ops| && SameTarget(ops[i], ops[j]) ensures ops[i] == ops[j] {
        RunKeepsSingle(s, ops, fs, ops[i]);
        SettledTogether(r, ops[i], ops[j]);
      }
      forall i | 0 <= i < |ops| ensures Readable(ops[i]) {
        SettledIsReadable(r, ops[i]);
      }
      assert false;
    }
  }

  /** An error-free pass is silent exactly when there is nothing to do, and then changes nothing. */
  lemma {:induction false} SilentExactly(s: State, ops: seq<Op>, fs: seq<Fates>)
    requires |ops| == |fs| && ErrorFree(fs)
    ensures var r := ApplyAll(s, ops, fs);
            && r.writes >= s.writes
            && (r.writes == s.writes <==> AllSettled(s, ops))
            && (AllSettled(s, ops) ==> r == s)
  {
    if ops != [] {
      var n := |ops| - 1;
      SilentExactly(s, ops[..n], fs[..n]);
      assert AllSettled(s, ops) <==> AllSettled(s, ops[..n]) && SettledOp(s, ops[n]) by {
        assert forall i :: 0 <= i < n ==> ops[..n][i] == ops[i];
      }
    }
  }

  /** A second error-free pass sends no command exactly when the wishes are consistent. */
  lemma SecondPassSilentExactly(s: State, ops: seq<Op>, fs: seq<Fates>)
    requires |ops| == |fs| && WellFormed(s) && AllSingle(s, ops) && OneGateway(ops) && ErrorFree(fs)
    ensures var r := ApplyAll(s, ops, fs);
            ApplyAll(r, ops, fs).writes == r.writes <==> Consistent(ops)
  {
    ConvergesExactly(s, ops, fs);
    SilentExactly(ApplyAll(s, ops, fs), ops, fs);
  }

  /** After a successful gateway update, a repeated call writes nothing exactly when the interface
      name has no '%'; with one, every call writes. */
  lemma GatewayConvergesExactly(s: State, ifname: string, gateway: Bytes, f: Fates)
    requires WellFormed(s) && Succeeds(s, Op.SetIPv6Gateway(ifname, gateway), f)
    ensures var op := Op.SetIPv6Gateway(ifname, gateway);
            var r := Apply(s, op, f);
            Apply(r, op, ERROR_FREE).writes == r.writes <==> '%' !in ifname
  {
    var op := Op.SetIPv6Gateway(ifname, gateway);
    ApplyKeepsWellFormed(s, op, f);
    if '%' !in ifname {
      SuccessSettles(s, op, f);
    } else if SettledOp(Apply(s, op, f), op) {
      SettledIsReadable(Apply(s, op, f), op);
      assert false;
    }
  }
}
