/** Which prefix the router advertisement worker knows, in terms of the options it has received. */
module RaPrefixes {
  import opened Options
  import opened Prefix
  import opened FlexibleIPs
  import opened RouterOS
  import opened RaWorker
  import opened RaRuns

  // ---------------------------------------------------------------- one advertisement

  /** The length byte of the last Prefix Information option. */
  function LastLength(options: seq<RAOption>): Option<int>
    requires Complete(options)
  {
    if options == [] then None
    else
      var o := options[|options| - 1];
      if o.kind == 3 then Some(o.data[0] as int) else LastLength(options[..|options| - 1])
  }

  /** No length a mask can be made of. */
  predicate NoUsableLength(length: Option<int>) {
    length.None? || length.value > 128
  }

  lemma {:induction false} LastPrefixHasLastLength(options: seq<RAOption>)
    requires Complete(options)
    ensures var (n, length) := (LastPrefix(options), LastLength(options));
            && (length.None? <==> n.ip == [])
            && (length.Some? ==> |n.ip| == 16 && 0 <= length.value < 256)
            && n.mask == if length.Some? then CIDRMask(length.value) else []
  {
    hide CIDRMask;
    if options != [] {
      LastPrefixHasLastLength(options[..|options| - 1]);
    }
  }

  /** A received prefix prints as nothing exactly when its option is missing or longer than 128. */
  lemma NilTextExactly(options: seq<RAOption>)
    requires Complete(options)
    ensures Text(LastPrefix(options)).NilText? <==> NoUsableLength(LastLength(options))
  {
    LastPrefixHasLastLength(options);
  }

  /** The solicitation is content with any advertisement that has the option, whatever its length. */
  lemma SolicitationAcceptsExactly(cfg: RAConfig, w: Worker, e: GoodEvent)
    requires ValidConfig(cfg) && w.phase.Soliciting? && e.Advert?
    ensures Step(cfg, w, e, false).phase.Listening? <==> LastLength(e.options).Some?
  {
    LastPrefixHasLastLength(e.options);
  }

  /** An advertisement that is taken in is known afterwards, up to what is not compared. */
  lemma TakenInIsKnown(cfg: RAConfig, w: Worker, e: GoodEvent)
    requires ValidConfig(cfg) && e.Advert? && !w.phase.Down?
    requires Step(cfg, w, e, false).phase.Listening?
    ensures var r := Step(cfg, w, e, false);
            && r.info.Some? && Unchanged(Received(e), r.info.value)
            && r.info.value.gateway == e.source
            && Text(r.info.value.prefix) == Text(LastPrefix(e.options))
  {
  }

  // ---------------------------------------------------------------- whole runs

  predicate TakesIn(w: Worker, e: GoodEvent) {
    e.Advert? && (w.phase.Listening? || (w.phase.Soliciting? && LastLength(e.options).Some?))
  }

  /** The last advertisement the worker took in. */
  function LastTakenIn(cfg: RAConfig, w: Worker, es: seq<GoodEvent>): (r: Option<GoodEvent>)
    requires ValidConfig(cfg)
    ensures r.Some? ==> r.value.Advert?
  {
    if es == [] then None
    else
      var n := |es| - 1;
      if TakesIn(Run(cfg, w, es[..n], false), es[n]) then Some(es[n]) else LastTakenIn(cfg, w, es[..n])
  }

  /** In every run from the program's start, whatever fails, the worker knows the prefix text and the
      gateway of the last advertisement it took in, and nothing before the first. */
  lemma {:induction false} KnownIsLastTakenIn(cfg: RAConfig, s: State, es: seq<GoodEvent>)
    requires ValidConfig(cfg)
    ensures var (r, last) := (Run(cfg, Started(s), es, false), LastTakenIn(cfg, Started(s), es));
            && (r.info.None? <==> last.None?)
            && (last.Some? ==> Unchanged(Received(last.value), r.info.value))
            && (last.Some? ==> r.info.value.gateway == last.value.source)
            && (last.Some? ==> Text(r.info.value.prefix) == Text(LastPrefix(last.value.options)))
            && (r.phase.Listening? ==> r.info.Some?) && (r.phase.Soliciting? ==> r.info.None?)
            && (r.info.Some? ==> FromOption(r.info.value.prefix))
  {
    hide Reconciled, FromOption;
    if es != [] {
      var n := |es| - 1;
      KnownIsLastTakenIn(cfg, s, es[..n]);
      var e := es[n];
      if e.Advert? {
        LastPrefixHasLastLength(e.options);
        LastPrefixFromOption(e.options);
        UnchangedSelf(Received(e));
      }
    }
  }

  lemma UnchangedSelf(a: RouterInfo)
    ensures Unchanged(a, a)
  {
  }

  /** The known prefix is unusable exactly when the last advertisement taken in had no Prefix
      Information option or one, as its last, longer than 128. */
  lemma UnusableExactly(cfg: RAConfig, s: State, es: seq<GoodEvent>)
    requires ValidConfig(cfg) && Run(cfg, Started(s), es, false).info.Some?
    ensures var (r, last) := (Run(cfg, Started(s), es, false), LastTakenIn(cfg, Started(s), es));
            last.Some? &&
            (Text(r.info.value.prefix).NilText? <==> NoUsableLength(LastLength(last.value.options)))
  {
    KnownIsLastTakenIn(cfg, s, es);
    NilTextExactly(LastTakenIn(cfg, Started(s), es).value.options);
  }

  /** The bare form holds every address exactly when that last option is missing, longer than 128,
      or of length 0. */
  lemma HoldsEverythingExactly(cfg: RAConfig, s: State, es: seq<GoodEvent>, bare: FlexibleIP)
    requires ValidConfig(cfg) && Run(cfg, Started(s), es, false).info.Some?
    requires Valid(bare) && bare.cidr == -1
    ensures var (r, last) := (Run(cfg, Started(s), es, false), LastTakenIn(cfg, Started(s), es));
            last.Some? &&
            var length := LastLength(last.value.options);
            HoldsEverything(bare, r.info.value) <==> NoUsableLength(length) || length == Some(0)
  {
    hide HoldsEverything, PrefixMask, FromOption, Reconciled;
    KnownIsLastTakenIn(cfg, s, es);
    var info := Run(cfg, Started(s), es, false).info.value;
    var options := LastTakenIn(cfg, Started(s), es).value.options;
    BareHoldsEverythingExactly(bare, info);
    NilTextExactly(options);
    LastPrefixHasLastLength(options);
    LastPrefixFromOption(options);
    MasksOfOneText(info.prefix, LastPrefix(options));
    if LastLength(options).Some? && 0 < LastLength(options).value <= 128 {
      FirstBitMatters(LastLength(options).value);
    }
  }

  lemma MasksOfOneText(a: IPNet, b: IPNet)
    requires FromOption(a) && FromOption(b) && Text(a) == Text(b)
    ensures a.mask == b.mask
  {
  }

  /** The solicitation, too, can leave an unusable prefix behind: lengths from 129 to 255. */
  lemma SolicitedUnusable(cfg: RAConfig, s: State, gateway: Bytes, ip: Bytes, length: nat)
    returns (es: seq<GoodEvent>)
    requires ValidConfig(cfg) && |ip| == 16 && 128 < length < 256
    ensures var r := Run(cfg, Started(s), es, false);
            && r.phase.Listening? && r.info == Some(RouterInfo(IPNet(ip, []), gateway))
            && forall bare | Valid(bare) && bare.cidr == -1 :: HoldsEverything(bare, r.info.value)
  {
    hide HoldsEverything;
    OneOption(length, ip);
    var e: GoodEvent := Advert(gateway, [PrefixOption(length, ip)], []);
    es := [Start(true, true, []), e];
    FirstAdvertReconciles(cfg, s, e, false);
    var info := Received(e);
    forall bare | Valid(bare) && bare.cidr == -1 ensures HoldsEverything(bare, info) {
      BareHoldsEverythingExactly(bare, info);
    }
  }
}
