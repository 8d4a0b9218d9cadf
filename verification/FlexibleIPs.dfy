/** Addresses written relative to the prefix of the last router advertisement: parsing them and
    resolving them. */
module FlexibleIPs {
  import opened Prefix
  import opened Options

  /** net.IPNet; a nil address or mask is the empty byte string. */
  datatype IPNet = IPNet(ip: Bytes, mask: Bytes)

  datatype RouterInfo = RouterInfo(prefix: IPNet, gateway: Bytes)

  /** cidr -1 stands for the length of the received prefix. */
  datatype FlexibleIP = FlexibleIP(raPrefix: bool, ip: Bytes, cidr: int)

  /** What (*net.IPNet).String prints, up to the printing of the bytes. */
  datatype NetText = NilText | NetText(ip: Bytes, mask: Bytes)

  function Text(n: IPNet): NetText {
    if |n.ip| == 16 && |n.mask| == 16 then NetText(n.ip, n.mask) else NilText
  }

  /** FlexibleIP.String, up to the printing of the bytes. */
  datatype Key = BareKey | HostKey(ip: Bytes) | NetKey(ip: Bytes, cidr: int)

  function KeyOf(f: FlexibleIP): Key {
    if f.ip == [] then BareKey
    else if f.cidr == -1 then HostKey(f.ip)
    else NetKey(f.ip, f.cidr)
  }

  // ---------------------------------------------------------------- parsing

  /** net.ParseCIDR (address and mask length) and net.ParseIP. */
  datatype Parsers = Parsers(parseCIDR: string -> Option<(Bytes, int)>, parseIP: string -> Option<Bytes>)

  /** The parsers give 16-byte addresses and mask lengths of at most 128. */
  ghost predicate Sane(ps: Parsers) {
    && (forall s :: ps.parseCIDR(s).Some? ==>
          |ps.parseCIDR(s).value.0| == 16 && 0 <= ps.parseCIDR(s).value.1 <= 128)
    && (forall s :: ps.parseIP(s).Some? ==> |ps.parseIP(s).value| == 16)
  }

  const RA_PREFIX := "ra-prefix"

  function ParseFlexibleIP(ps: Parsers, ipstr: string): Option<FlexibleIP> {
    var raPrefix := RA_PREFIX <= ipstr;
    if ipstr == RA_PREFIX then Some(FlexibleIP(true, [], -1)) else
    var rest := if raPrefix then "0:0:0:0" + ipstr[|RA_PREFIX|..] else ipstr;
    match ps.parseCIDR(rest)
    case Some((ip, ones)) => Some(FlexibleIP(raPrefix, ip, ones))
    case None =>
      match ps.parseIP(rest)
      case Some(ip) => Some(FlexibleIP(raPrefix, ip, 128))
      case None => None
  }

  /** A missing length goes with a missing address, and only in the bare ra-prefix form. */
  predicate Valid(f: FlexibleIP) {
    if f.cidr == -1 then f.raPrefix && f.ip == [] else |f.ip| == 16 && 0 <= f.cidr <= 128
  }

  lemma ParsedIsValid(ps: Parsers, s: string)
    requires Sane(ps) && ParseFlexibleIP(ps, s).Some?
    ensures var f := ParseFlexibleIP(ps, s).value;
            && Valid(f)
            && (f.raPrefix <==> RA_PREFIX <= s)
            && (f.cidr == -1 <==> s == RA_PREFIX)
            && KeyOf(f) == if s == RA_PREFIX then BareKey else NetKey(f.ip, f.cidr)
  {
  }

  /** What the two parsers make of a text: an address with its length, a single address, or nothing. */
  predicate Understood(ps: Parsers, text: string, relative: bool, r: Option<FlexibleIP>) {
    && (r.None? <==> ps.parseCIDR(text).None? && ps.parseIP(text).None?)
    && (ps.parseCIDR(text).Some? ==>
          var (ip, ones) := ps.parseCIDR(text).value; r == Some(FlexibleIP(relative, ip, ones)))
    && (ps.parseCIDR(text).None? && ps.parseIP(text).Some? ==>
          r == Some(FlexibleIP(relative, ps.parseIP(text).value, 128)))
  }

  /** A text is understood as it is; behind the marker, with four zero groups in the marker's place; and
      the marker alone stands for the whole advertised prefix. */
  lemma ParsedExactly(ps: Parsers, s: string, t: string)
    ensures !("ra-prefix" <= s) ==> Understood(ps, s, false, ParseFlexibleIP(ps, s))
    ensures t != "" ==> Understood(ps, "0:0:0:0" + t, true, ParseFlexibleIP(ps, "ra-prefix" + t))
    ensures ParseFlexibleIP(ps, "ra-prefix") == Some(FlexibleIP(true, [], -1))
  {
    var m := "ra-prefix" + t;
    assert m[|RA_PREFIX|..] == t;
    assert t != "" ==> |m| > |RA_PREFIX|;
  }

  // ---------------------------------------------------------------- resolving

  /** Go's copy on byte slices. */
  function Overlay(dst: Bytes, src: Bytes): (r: Bytes)
    ensures |r| == |dst|
  {
    if |src| >= |dst| then src[..|dst|] else src + dst[|src|..]
  }

  method Copy(dst: array<bv8>, src: Bytes)
    modifies dst
    ensures dst[..] == Overlay(old(dst[..]), src)
  {
    var i := 0;
    while i < dst.Length && i < |src|
      invariant 0 <= i <= dst.Length && i <= |src|
      invariant forall k :: 0 <= k < dst.Length ==> dst[k] == if k < i then src[k] else old(dst[k])
    {
      dst[i] := src[i];
      i := i + 1;
    }
  }

  /** The case that does not dereference missing router information. */
  predicate Resolvable(f: FlexibleIP, info: Option<RouterInfo>) {
    f.cidr == -1 && !f.raPrefix ==> info.Some?
  }

  function Host(f: FlexibleIP): (h: Bytes)
    ensures |h| == 16
  {
    Overlay(Zeros(16), f.ip)
  }

  function Resolve(f: FlexibleIP, info: Option<RouterInfo>): Option<IPNet>
    requires Resolvable(f, info)
  {
    if f.raPrefix && info.None? then None else
    var ip := if f.raPrefix then Substitute(Host(f), info.value.prefix.ip, info.value.prefix.mask)
              else Host(f);
    var mask := if f.cidr == -1 then Overlay(Zeros(16), info.value.prefix.mask)
                else CIDRMask(f.cidr);
    Some(IPNet(ip, mask))
  }

  method ResolveFIP(f: FlexibleIP, info: Option<RouterInfo>) returns (r: Option<IPNet>)
    requires Resolvable(f, info)
    ensures r == Resolve(f, info)
  {
    var ip := new bv8[16](_ => 0);
    assert ip[..] == Zeros(16);
    Copy(ip, f.ip);
    if f.raPrefix && info.None? {
      return None;
    }
    if f.raPrefix {
      var prefix := info.value.prefix;
      var src := new bv8[|prefix.ip|](i requires 0 <= i < |prefix.ip| => prefix.ip[i]);
      var msk := new bv8[|prefix.mask|](i requires 0 <= i < |prefix.mask| => prefix.mask[i]);
      assert src[..] == prefix.ip && msk[..] == prefix.mask;
      MaskedIPAssign(ip, src, msk);
    }
    var mask: Bytes;
    if f.cidr == -1 {
      var buf := new bv8[16](_ => 0);
      assert buf[..] == Zeros(16);
      Copy(buf, info.value.prefix.mask);
      mask := buf[..];
    } else {
      mask := CIDRMask(f.cidr);
    }
    return Some(IPNet(ip[..], mask));
  }

  /** An address a parsed configuration can hold is always safe to resolve, and has no resolution
      exactly while an advertised prefix is wanted and none has been received. */
  lemma ParsedIsResolvable(f: FlexibleIP, info: Option<RouterInfo>)
    requires Valid(f)
    ensures Resolvable(f, info)
    ensures Resolve(f, info).None? <==> f.raPrefix && info.None?
    ensures Resolve(f, info).Some? ==> Text(Resolve(f, info).value).NetText?
    ensures !f.raPrefix ==> Resolve(f, info) == Some(IPNet(f.ip, CIDRMask(f.cidr)))
  {
    assert f.cidr != -1 ==> Host(f) == f.ip;
  }

  // ---------------------------------------------------------------- what a resolution means

  /** A prefix as an advertisement carries it: 16 address bytes and the mask of an 8-bit length,
      or nothing at all. */
  predicate FromOption(n: IPNet) {
    (n.ip == [] && n.mask == []) ||
    (|n.ip| == 16 && (n.mask == [] || exists ones :: 0 <= ones <= 128 && n.mask == CIDRMask(ones)))
  }

  predicate HasLength(n: IPNet, ones: nat) {
    |n.ip| == 16 && ones <= 128 && n.mask == CIDRMask(ones)
  }

  /** The resolved address is the prefix number above bit 128 - L and the configured number below it,
      which is 0 for the bare form. */
  lemma ResolvedValue(f: FlexibleIP, info: RouterInfo, ones: nat)
    requires Valid(f) && f.raPrefix && HasLength(info.prefix, ones)
    ensures var (n, u) := (Resolve(f, Some(info)).value, Pow2(128 - ones));
            && Value(n.ip) == Spliced(Value(info.prefix.ip), Value(Host(f)), u)
            && Value(n.ip) == (if f.cidr == -1 then Floor(Value(info.prefix.ip), u)
                               else Spliced(Value(info.prefix.ip), Value(f.ip), u))
            && n.mask == CIDRMask(if f.cidr == -1 then ones else f.cidr)
  {
    SubstituteIsArithmetic(Host(f), info.prefix.ip, ones);
    if f.cidr == -1 {
      assert Host(f) == Zeros(16);
      ValueZeros(16);
      SplicedWithZero(Value(info.prefix.ip), Pow2(128 - ones));
    } else {
      assert Host(f) == f.ip;
    }
  }

  lemma SplicedWithZero(p: nat, u: nat)
    requires u > 0
    ensures Spliced(p, 0, u) == Floor(p, u)
  {
  }

  /** Without a usable prefix the address is the configured one, or zero for the bare form. */
  lemma UnusablePrefixKeepsHost(f: FlexibleIP, info: RouterInfo)
    requires Valid(f) && f.raPrefix && info.prefix.mask == []
    ensures var n := Resolve(f, Some(info)).value;
            if f.cidr == -1 then n == IPNet(Zeros(16), Zeros(16)) else n == IPNet(f.ip, CIDRMask(f.cidr))
  {
    if f.cidr == -1 {
      assert Host(f) == Zeros(16);
    } else {
      assert Host(f) == f.ip;
    }
  }

  /** Bits of the advertised address behind the prefix length do not matter. */
  lemma ResolutionIgnoresLowBits(f: FlexibleIP, a: RouterInfo, b: RouterInfo, ones: nat)
    requires Valid(f) && HasLength(a.prefix, ones) && HasLength(b.prefix, ones)
    requires SameAbove(Value(a.prefix.ip), Value(b.prefix.ip), Pow2(128 - ones))
    ensures Resolve(f, Some(a)) == Resolve(f, Some(b))
  {
    if f.raPrefix {
      ResolvedValue(f, a, ones);
      ResolvedValue(f, b, ones);
      ValueInjective(Resolve(f, Some(a)).value.ip, Resolve(f, Some(b)).value.ip);
    }
  }

  predicate Contains(n: IPNet, x: Bytes) {
    Covers(n.ip, n.mask, x)
  }

  /** With an own length of at least L, the resolved network holds exactly the addresses of the
      advertised prefix that agree with the configured host part on the bits between. */
  lemma ResolvedMembers(f: FlexibleIP, info: RouterInfo, ones: nat, x: Bytes)
    requires Valid(f) && f.raPrefix && HasLength(info.prefix, ones) && |x| == 16
    requires ones <= f.cidr
    ensures Contains(Resolve(f, Some(info)).value, x)
            <==> && Contains(info.prefix, x)
                 && SameBetween(Value(x), Value(f.ip), Pow2(128 - ones), Pow2(128 - f.cidr))
  {
    hide Substitute, PrefixMask, Covers, Value, Pow2, SameAbove, SameBetween;
    assert Host(f) == f.ip;
    CoversSubstituted(f.ip, info.prefix.ip, ones, f.cidr, x);
    CoversIsArithmetic(info.prefix.ip, ones, x);
  }

  /** The bare form resolves to a network with the advertised prefix's members. */
  lemma BareIsThePrefix(f: FlexibleIP, info: RouterInfo, ones: nat, x: Bytes)
    requires Valid(f) && f.cidr == -1 && HasLength(info.prefix, ones) && |x| == 16
    ensures Contains(Resolve(f, Some(info)).value, x) <==> Contains(info.prefix, x)
  {
    hide Substitute, PrefixMask, Covers, Value, Pow2, SameAbove, SameBetween;
    assert Overlay(Zeros(16), info.prefix.mask) == info.prefix.mask;
    CoversSubstituted(Host(f), info.prefix.ip, ones, ones, x);
    CoversIsArithmetic(info.prefix.ip, ones, x);
    EmptyGap(Value(x), Value(Host(f)), Pow2(128 - ones));
  }

  lemma EmptyGap(x: nat, h: nat, u: nat)
    requires u > 0
    ensures SameBetween(x, h, u, u)
  {
    QuotientBelow(x % u, 1, u);
    QuotientBelow(h % u, 1, u);
  }

  /** A resolved network stays inside the advertised prefix exactly when it is the bare form or its
      own length is at least the advertised one. */
  lemma InsideThePrefix(f: FlexibleIP, info: RouterInfo, ones: nat)
    requires Valid(f) && f.raPrefix && HasLength(info.prefix, ones)
    ensures (forall x :: Contains(Resolve(f, Some(info)).value, x) ==> Contains(info.prefix, x))
            <==> f.cidr == -1 || ones <= f.cidr
  {
    hide Substitute, PrefixMask;
    var n := Resolve(f, Some(info)).value;
    if f.cidr == -1 || ones <= f.cidr {
      forall x | Contains(n, x) ensures Contains(info.prefix, x) {
        if f.cidr == -1 {
          BareIsThePrefix(f, info, ones, x);
        } else {
          ResolvedMembers(f, info, ones, x);
        }
      }
    } else {
      var x := ShorterCidrLeaks(Host(f), info.prefix.ip, ones, f.cidr);
      assert Contains(n, x) && !Contains(info.prefix, x);
    }
  }

  /** After an advertisement without a usable prefix, the bare form holds every address. */
  lemma MissingPrefixHoldsEverything(f: FlexibleIP, info: RouterInfo, x: Bytes)
    requires Valid(f) && f.cidr == -1 && info.prefix.mask == [] && |x| == 16
    ensures Contains(Resolve(f, Some(info)).value, x)
  {
    var n := Resolve(f, Some(info)).value;
    assert n.mask == Zeros(16);
    forall i | 0 <= i < 16 ensures And(n.ip[i], n.mask[i]) == And(x[i], n.mask[i]) {
    }
  }

  ghost predicate HoldsEverything(f: FlexibleIP, info: RouterInfo)
    requires Valid(f)
  {
    forall x: Bytes | |x| == 16 :: Contains(Resolve(f, Some(info)).value, x)
  }

  /** The bare form holds every address exactly when the advertised prefix has no mask or length 0. */
  lemma BareHoldsEverythingExactly(f: FlexibleIP, info: RouterInfo)
    requires Valid(f) && f.cidr == -1 && FromOption(info.prefix)
    ensures HoldsEverything(f, info) <==> info.prefix.mask == [] || info.prefix.mask == CIDRMask(0)
  {
    hide Substitute, PrefixMask, Covers;
    var r := Resolve(f, Some(info)).value;
    if info.prefix.mask == [] {
      forall x: Bytes | |x| == 16 ensures Contains(r, x) {
        MissingPrefixHoldsEverything(f, info, x);
      }
    } else {
      var ones :| 0 <= ones <= 128 && info.prefix.mask == CIDRMask(ones);
      if ones == 0 {
        forall x: Bytes | |x| == 16 ensures Contains(r, x) {
          BareIsThePrefix(f, info, 0, x);
          NoBitsCoverAll(info.prefix.ip, x);
        }
      } else {
        var x := ShorterCidrLeaks(Host(f), info.prefix.ip, ones, 0);
        BareIsThePrefix(f, info, ones, x);
        FirstBitMatters(ones);
      }
    }
  }

  lemma NoBitsCoverAll(ip: Bytes, x: Bytes)
    requires |ip| == |x| == 16
    ensures Covers(ip, CIDRMask(0), x)
  {
    forall i | 0 <= i < 16 ensures And(ip[i], CIDRMask(0)[i]) == And(x[i], CIDRMask(0)[i]) {
      assert CIDRMask(0)[i] == 0;
    }
  }

  lemma FirstBitMatters(ones: nat)
    requires 0 < ones <= 128
    ensures CIDRMask(ones) != CIDRMask(0)
  {
    assert CIDRMask(ones)[0] != CIDRMask(0)[0];
  }

  /** Prefixes that print alike resolve alike, also when they print as nothing. */
  lemma SameTextSameResolution(f: FlexibleIP, a: RouterInfo, b: RouterInfo)
    requires FromOption(a.prefix) && FromOption(b.prefix) && Text(a.prefix) == Text(b.prefix)
    ensures Resolve(f, Some(a)) == Resolve(f, Some(b))
  {
  }
}
