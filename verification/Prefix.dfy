/** Byte-wise prefix masking of addresses, and its meaning as arithmetic on the big-endian
    number the bytes spell. */
module Prefix {

  type Bytes = seq<bv8>

  // ---------------------------------------------------------------- numbers

  function Doubled(n: nat): (r: nat)
    ensures r > 0
  {
    if n == 0 then 1 else 2 * Doubled(n - 1)
  }

  function Pow2(n: nat): (r: nat)
    ensures r > 0
  {
    Doubled(n)
  }

  /** The largest multiple of u that is at most n. */
  function Floor(n: nat, u: nat): nat
    requires u > 0
  {
    n / u * u
  }

  /** The multiple-of-u part of p with the remainder of h. */
  function Spliced(p: nat, h: nat, u: nat): nat
    requires u > 0
  {
    Floor(p, u) + h % u
  }

  /** x and p spell the same digits above the unit u. */
  predicate SameAbove(x: nat, p: nat, u: nat)
    requires u > 0
  {
    x / u == p / u
  }

  /** x and h spell the same digits below the unit u, down to the unit w. */
  predicate SameBetween(x: nat, h: nat, u: nat, w: nat)
    requires u > 0 && w > 0
  {
    x % u / w == h % u / w
  }

  function Join(hi: nat, unit: nat, lo: nat): nat {
    hi * unit + lo
  }

  function Num(b: bv8): (n: nat)
    ensures n < 256
  {
    b as nat
  }

  function Spelled(s: Bytes): nat {
    if s == [] then 0 else Join(Num(s[0]), Pow2(8 * (|s| - 1)), Spelled(s[1..]))
  }

  /** The number a byte string spells, most significant byte first. */
  function Value(s: Bytes): nat {
    Spelled(s)
  }

  lemma ValueCons(s: Bytes)
    requires s != []
    ensures Value(s) == Join(Num(s[0]), Pow2(8 * (|s| - 1)), Value(s[1..]))
  {
  }

  // ---------------------------------------------------------------- masks

  /** A byte with its k most significant bits set. */
  function LeadingOnes(k: nat): bv8 {
    match k
    case 0 => 0x00
    case 1 => 0x80
    case 2 => 0xc0
    case 3 => 0xe0
    case 4 => 0xf0
    case 5 => 0xf8
    case 6 => 0xfc
    case 7 => 0xfe
    case _ => 0xff
  }

  function OnesInByte(ones: int, i: nat): nat {
    var left := ones - 8 * i;
    if left < 0 then 0 else if left > 8 then 8 else left
  }

  function PrefixMask(ones: int, len: nat): (m: Bytes)
    ensures |m| == len
  {
    seq(len, i requires i >= 0 => LeadingOnes(OnesInByte(ones, i)))
  }

  /** net.CIDRMask(ones, 128); nil is the empty byte string. */
  function CIDRMask(ones: int): Bytes {
    if 0 <= ones <= 128 then PrefixMask(ones, 16) else []
  }

  /** The bits of s under the mask m, and those of d elsewhere. */
  function Mix(s: bv8, d: bv8, m: bv8): bv8 {
    (s & m) | (d & !m)
  }

  function And(s: bv8, m: bv8): bv8 {
    s & m
  }

  function AndNot(s: bv8, m: bv8): bv8 {
    s & !m
  }

  /** The bits of src under the mask, the bits of dst elsewhere; dst itself when lengths differ. */
  function Substitute(dst: Bytes, src: Bytes, mask: Bytes): (r: Bytes)
    ensures |r| == |dst|
  {
    if |dst| != |src| || |dst| != |mask| then dst
    else seq(|dst|, i requires 0 <= i < |dst| => Mix(src[i], dst[i], mask[i]))
  }

  /** The in-place loop, for any three buffers, even the same one. */
  method MaskedIPAssign(dst: array<bv8>, src: array<bv8>, mask: array<bv8>)
    modifies dst
    ensures dst[..] == Substitute(old(dst[..]), old(src[..]), old(mask[..]))
  {
    if dst.Length != src.Length || dst.Length != mask.Length {
      return;
    }
    var i := 0;
    while i < dst.Length
      invariant 0 <= i <= dst.Length
      invariant forall k :: 0 <= k < i ==>
                  dst[k] == Mix(old(src[k]), old(dst[k]), old(mask[k]))
      invariant forall k :: i <= k < dst.Length ==>
                  dst[k] == old(dst[k]) && src[k] == old(src[k]) && mask[k] == old(mask[k])
    {
      dst[i] := (src[i] & mask[i]) | (dst[i] & !mask[i]);
      i := i + 1;
    }
  }

  /** (*net.IPNet).Contains for addresses of one family. */
  predicate Covers(ip: Bytes, mask: Bytes, x: Bytes) {
    && |x| == |ip| == |mask|
    && forall i :: 0 <= i < |x| ==> And(ip[i], mask[i]) == And(x[i], mask[i])
  }

  // ---------------------------------------------------------------- one byte

  lemma SplitByte(d: bv8, m: bv8)
    ensures Num(And(d, m)) + Num(AndNot(d, m)) == Num(d)
  {
  }

  lemma JoinByte(s: bv8, d: bv8, m: bv8)
    ensures Num(Mix(s, d, m)) == Num(And(s, m)) + Num(AndNot(d, m))
  {
  }

  lemma Top0(s: bv8) ensures Num(And(s, 0x00)) == Floor(Num(s), 256) {}
  lemma Top1(s: bv8) ensures Num(And(s, 0x80)) == Floor(Num(s), 128) {}
  lemma Top2(s: bv8) ensures Num(And(s, 0xc0)) == Floor(Num(s), 64) {}
  lemma Top3(s: bv8) ensures Num(And(s, 0xe0)) == Floor(Num(s), 32) {}
  lemma Top4(s: bv8) ensures Num(And(s, 0xf0)) == Floor(Num(s), 16) {}
  lemma Top5(s: bv8) ensures Num(And(s, 0xf8)) == Floor(Num(s), 8) {}
  lemma Top6(s: bv8) ensures Num(And(s, 0xfc)) == Floor(Num(s), 4) {}
  lemma Top7(s: bv8) ensures Num(And(s, 0xfe)) == Floor(Num(s), 2) {}
  lemma Top8(s: bv8) ensures Num(And(s, 0xff)) == Floor(Num(s), 1) {}

  lemma SmallPowers()
    ensures Pow2(0) == 1 && Pow2(1) == 2 && Pow2(2) == 4 && Pow2(3) == 8 && Pow2(4) == 16
    ensures Pow2(5) == 32 && Pow2(6) == 64 && Pow2(7) == 128 && Pow2(8) == 256
  {
    assert Doubled(4) == 16;
  }

  lemma TopBits(s: bv8, k: nat)
    requires k <= 8
    ensures Num(And(s, LeadingOnes(k))) == Floor(Num(s), Pow2(8 - k))
  {
    hide Num, Floor, And;
    SmallPowers();
    match k
    case 0 => Top0(s);
    case 1 => Top1(s);
    case 2 => Top2(s);
    case 3 => Top3(s);
    case 4 => Top4(s);
    case 5 => Top5(s);
    case 6 => Top6(s);
    case 7 => Top7(s);
    case _ => Top8(s);
  }

  lemma SplicedParts(p: nat, h: nat, u: nat)
    requires u > 0
    ensures Spliced(p, h, u) == Floor(p, u) + h - Floor(h, u)
  {
  }

  /** Masking one byte is division and remainder by a power of two. */
  lemma SubstituteByte(s: bv8, d: bv8, k: nat)
    requires k <= 8
    ensures Num(Mix(s, d, LeadingOnes(k)))
            == Spliced(Num(s), Num(d), Pow2(8 - k))
  {
    hide Num, LeadingOnes, Mix, And, AndNot, Floor, Pow2, Spliced;
    SplicedParts(Num(s), Num(d), Pow2(8 - k));
    JoinByte(s, d, LeadingOnes(k));
    SplitByte(d, LeadingOnes(k));
    TopBits(s, k);
    TopBits(d, k);
  }

  // ---------------------------------------------------------------- arithmetic helpers

  lemma {:induction false} PowAdd(m: nat, n: nat)
    ensures Pow2(m + n) == Pow2(m) * Pow2(n)
    decreases m
  {
    if m > 0 {
      PowAdd(m - 1, n);
    }
  }

  lemma DivModUnique(x: int, u: nat, q: int, r: nat)
    requires x == q * u + r && r < u
    ensures x / u == q && x % u == r
  {
    var d := x / u - q;
    assert x / u * u + x % u == q * u + r;
    assert d * u == x / u * u - q * u;
    if d != 0 {
      MultipleIsFar(d, u);
      assert false;
    }
  }

  lemma MultipleIsFar(d: int, u: nat)
    requires d != 0
    ensures d * u >= u || d * u <= 0 - u
  {
  }

  /** Adding a multiple of u leaves the remainder alone. */
  lemma AddMultiple(a: nat, u: nat, v: nat)
    requires u > 0
    ensures (a * u + v) / u == a + v / u && (a * u + v) % u == v % u
    ensures Floor(a * u + v, u) == a * u + Floor(v, u)
  {
    assert (a + v / u) * u == a * u + v / u * u;
    DivModUnique(a * u + v, u, a + v / u, v % u);
  }

  /** Division by b * w of a number whose low part is below b. */
  lemma DivTwoDigits(a: nat, b: nat, w: nat, v: nat)
    requires w > 0 && v < b
    ensures (a * b + v) / (b * w) == a / w
    ensures (a * b + v) % (b * w) == a % w * b + v
    ensures Floor(a * b + v, b * w) == Floor(a, w) * b
  {
    var q, r := a / w, a % w;
    calc {
      a * b + v;
      (q * w + r) * b + v;
      q * (b * w) + (r * b + v);
    }
    assert r * b + v < (r + 1) * b <= w * b;
    DivModUnique(a * b + v, b * w, q, r * b + v);
    assert q * (b * w) == q * w * b;
  }

  lemma PowByte(n: nat)
    ensures Pow2(8 * (n + 1)) == 256 * Pow2(8 * n)
  {
    SmallPowers();
    PowAdd(8, 8 * n);
  }

  lemma DigitBound(a: nat, b: nat, v: nat)
    requires a < 256 && v < b
    ensures a * b + v < 256 * b
  {
    assert a * b <= 255 * b;
  }

  lemma {:induction false} ValueBound(s: Bytes)
    ensures Value(s) < Pow2(8 * |s|)
  {
    hide Num;
    if s != [] {
      ValueCons(s);
      ValueBound(s[1..]);
      PowByte(|s| - 1);
      DigitBound(Num(s[0]), Pow2(8 * (|s| - 1)), Value(s[1..]));
    }
  }

  lemma JoinInjective(a: nat, v: nat, a': nat, v': nat, b: nat)
    requires v < b && v' < b && Join(a, b, v) == Join(a', b, v')
    ensures a == a' && v == v'
  {
    DivModUnique(Join(a, b, v), b, a, v);
    DivModUnique(Join(a, b, v), b, a', v');
  }

  lemma NumInjective(a: bv8, b: bv8)
    requires Num(a) == Num(b)
    ensures a == b
  {
  }

  lemma {:induction false} ValueInjective(s: Bytes, t: Bytes)
    requires |s| == |t| && Value(s) == Value(t)
    ensures s == t
  {
    hide Join, Num, Value;
    if s != [] {
      ValueCons(s);
      ValueCons(t);
      ValueBound(s[1..]);
      ValueBound(t[1..]);
      JoinInjective(Num(s[0]), Value(s[1..]), Num(t[0]), Value(t[1..]), Pow2(8 * (|s| - 1)));
      NumInjective(s[0], t[0]);
      ValueInjective(s[1..], t[1..]);
      assert s == [s[0]] + s[1..] && t == [t[0]] + t[1..];
    }
  }

  // ---------------------------------------------------------------- substitution is arithmetic

  lemma SubstituteNothing(h: Bytes, p: Bytes, ones: int)
    requires |p| == |h| && ones <= 0
    ensures Substitute(h, p, PrefixMask(ones, |h|)) == h
  {
    forall i | 0 <= i < |h| ensures Mix(p[i], h[i], LeadingOnes(0)) == h[i] {
    }
  }

  lemma SubstituteTail(h: Bytes, p: Bytes, ones: int)
    requires |p| == |h| > 0
    ensures Substitute(h, p, PrefixMask(ones, |h|))[1..]
            == Substitute(h[1..], p[1..], PrefixMask(ones - 8, |h| - 1))
  {
    var m, t := PrefixMask(ones, |h|), PrefixMask(ones - 8, |h| - 1);
    assert m[1..] == t;
    assert h[1..][..] == h[1..] && p[1..][..] == p[1..];
  }

  /** The masking loop computes (P div 2^r) * 2^r + H mod 2^r, where r host bits are kept. */
  lemma {:induction false} SubstituteIsArithmetic(h: Bytes, p: Bytes, ones: nat)
    requires |p| == |h| && ones <= 8 * |h|
    ensures Value(Substitute(h, p, PrefixMask(ones, |h|)))
            == Spliced(Value(p), Value(h), Pow2(8 * |h| - ones))
    decreases |h|
  {
    hide Num, LeadingOnes, Substitute, Spliced, Join, Pow2, Value;
    var n := |h|;
    if n == 0 {
      SplicedZero();
    } else {
      ValueCons(h);
      ValueCons(p);
      ValueCons(Substitute(h, p, PrefixMask(ones, n)));
      SubstituteTail(h, p, ones);
      SubstituteHead(h, p, ones);
      if ones >= 8 {
        SubstituteIsArithmetic(h[1..], p[1..], ones - 8);
        PowAdd(ones - 8, 8 * n - ones);
        WholeFirstByte(Num(p[0]), Num(h[0]), Pow2(ones - 8), Pow2(8 * n - ones),
                       Value(p[1..]), Value(h[1..]));
      } else {
        SubstituteNothing(h[1..], p[1..], ones - 8);
        PowAdd(8 * (n - 1), 8 - ones);
        ValueBound(p[1..]);
        ValueBound(h[1..]);
        PartFirstByte(Num(p[0]), Num(h[0]), Pow2(8 * (n - 1)), Pow2(8 - ones),
                      Value(p[1..]), Value(h[1..]));
      }
    }
  }

  lemma SubstituteHead(h: Bytes, p: Bytes, ones: nat)
    requires |p| == |h| > 0
    ensures var k := if ones > 8 then 8 else ones;
            Num(Substitute(h, p, PrefixMask(ones, |h|))[0])
            == Spliced(Num(p[0]), Num(h[0]), Pow2(8 - k))
  {
    hide Num, LeadingOnes, Mix, Spliced, Pow2;
    SubstituteByte(p[0], h[0], OnesInByte(ones, 0));
  }

  lemma SplicedZero()
    ensures Value([]) == 0 && Spliced(0, 0, Pow2(0)) == 0
  {
  }

  lemma WholeFirstByte(p: nat, h: nat, c: nat, u: nat, pv: nat, hv: nat)
    requires u > 0
    ensures Join(Spliced(p, h, Pow2(0)), c * u, Spliced(pv, hv, u))
            == Spliced(Join(p, c * u, pv), Join(h, c * u, hv), u)
  {
    assert Spliced(p, h, Pow2(0)) == p;
    MultipleAbove(p, c, u, pv);
    MultipleAbove(h, c, u, hv);
  }

  lemma PartFirstByte(p: nat, h: nat, b: nat, w: nat, pv: nat, hv: nat)
    requires w > 0 && pv < b && hv < b
    ensures Join(Spliced(p, h, w), b, hv) == Spliced(Join(p, b, pv), Join(h, b, hv), b * w)
  {
    DivTwoDigits(p, b, w, pv);
    DivTwoDigits(h, b, w, hv);
    assert (Floor(p, w) + h % w) * b == Floor(p, w) * b + h % w * b;
  }

  lemma MultipleAbove(a: nat, c: nat, u: nat, v: nat)
    requires u > 0
    ensures Floor(a * (c * u) + v, u) == a * (c * u) + Floor(v, u)
    ensures (a * (c * u) + v) % u == v % u
  {
    assert a * (c * u) == a * c * u;
    AddMultiple(a * c, u, v);
  }

  // ---------------------------------------------------------------- networks

  function Zeros(n: nat): Bytes {
    seq(n, _ => 0)
  }

  lemma {:induction false} ValueZeros(n: nat)
    ensures Value(Zeros(n)) == 0
  {
    if n > 0 {
      assert Zeros(n)[1..] == Zeros(n - 1);
      ValueZeros(n - 1);
    }
  }

  /** The network part of an address. */
  function Network(x: Bytes, mask: Bytes): Bytes {
    Substitute(Zeros(|x|), x, mask)
  }

  lemma OrZero(s: bv8, m: bv8)
    ensures Mix(s, 0, m) == And(s, m)
  {
  }

  lemma CoversIsSameNetwork(ip: Bytes, mask: Bytes, x: Bytes)
    requires |x| == |ip| == |mask|
    ensures Covers(ip, mask, x) <==> Network(x, mask) == Network(ip, mask)
  {
    hide Mix, And;
    var a, b := Network(ip, mask), Network(x, mask);
    forall i | 0 <= i < |x| ensures a[i] == And(ip[i], mask[i]) && b[i] == And(x[i], mask[i]) {
      OrZero(ip[i], mask[i]);
      OrZero(x[i], mask[i]);
    }
    if Covers(ip, mask, x) {
      assert a == b;
    }
  }

  lemma NetworkValue(x: Bytes, ones: nat)
    requires ones <= 8 * |x|
    ensures var u := Pow2(8 * |x| - ones);
            Value(Network(x, PrefixMask(ones, |x|))) == Value(x) / u * u
  {
    hide Substitute, PrefixMask, Pow2, Value;
    SubstituteIsArithmetic(Zeros(|x|), x, ones);
    ValueZeros(|x|);
  }

  /** Two addresses are in the same network exactly when their leading bits spell the same number. */
  lemma CoversIsArithmetic(ip: Bytes, ones: nat, x: Bytes)
    requires |x| == |ip| && ones <= 8 * |ip|
    ensures var u := Pow2(8 * |ip| - ones);
            Covers(ip, PrefixMask(ones, |ip|), x) <==> SameAbove(Value(x), Value(ip), u)
  {
    hide Substitute, Covers, Pow2, Value;
    var n, u := |ip|, Pow2(8 * |ip| - ones);
    var m := PrefixMask(ones, n);
    CoversIsSameNetwork(ip, m, x);
    NetworkValue(ip, ones);
    NetworkValue(x, ones);
    if Network(x, m) == Network(ip, m) {
      SameMultiple(Value(ip) / u, Value(x) / u, u);
    } else if Value(x) / u == Value(ip) / u {
      ValueInjective(Network(x, m), Network(ip, m));
      assert false;
    }
  }

  lemma SameMultiple(a: nat, b: nat, u: nat)
    requires u > 0 && a * u == b * u
    ensures a == b
  {
    DivModUnique(a * u, u, a, 0);
    DivModUnique(b * u, u, b, 0);
  }

  /** Membership in the network with `cidr` bits of an address made of `ones` bits of p and host
      part h: the address agrees with p on the prefix and with h on the bits between. */
  lemma CoversSubstituted(h: Bytes, p: Bytes, ones: nat, cidr: nat, x: Bytes)
    requires |p| == |h| == |x| && ones <= cidr <= 8 * |h|
    ensures var u, w := Pow2(8 * |h| - ones), Pow2(8 * |h| - cidr);
            Covers(Substitute(h, p, PrefixMask(ones, |h|)), PrefixMask(cidr, |h|), x)
            <==> SameAbove(Value(x), Value(p), u) && SameBetween(Value(x), Value(h), u, w)
  {
    hide Substitute, PrefixMask, Covers, Pow2, Value, Spliced, SameAbove, SameBetween;
    var r := Substitute(h, p, PrefixMask(ones, |h|));
    SubstituteIsArithmetic(h, p, ones);
    CoversIsArithmetic(r, cidr, x);
    SameDigits(Value(p), Value(h), Value(x), 8 * |h| - ones, 8 * |h| - cidr);
  }

  lemma SameDigits(p: nat, h: nat, x: nat, i: nat, j: nat)
    requires j <= i
    ensures SameAbove(x, Spliced(p, h, Pow2(i)), Pow2(j))
            <==> SameAbove(x, p, Pow2(i)) && SameBetween(x, h, Pow2(i), Pow2(j))
  {
    PowAdd(i - j, j);
    SameDigitsAt(p, h, x, Pow2(i - j), Pow2(j), Pow2(i));
  }

  lemma SameDigitsAt(p: nat, h: nat, x: nat, d: nat, w: nat, u: nat)
    requires w > 0 && d > 0 && u == d * w > 0
    ensures SameAbove(x, Spliced(p, h, u), w) <==> SameAbove(x, p, u) && SameBetween(x, h, u, w)
  {
    TwoDigits(p / u, h % u, d, w);
    assert x == x / u * u + x % u;
    TwoDigits(x / u, x % u, d, w);
  }

  lemma TwoDigits(a: nat, v: nat, d: nat, w: nat)
    requires w > 0 && d > 0 && v < d * w
    ensures var x := a * (d * w) + v;
            x / w / d == a && x / w % d == v / w
  {
    assert a * (d * w) == a * d * w;
    AddMultiple(a * d, w, v);
    QuotientBelow(v, d, w);
    DivModUnique(a * d + v / w, d, a, v / w);
  }

  lemma QuotientBelow(v: nat, d: nat, w: nat)
    requires w > 0 && v < d * w
    ensures v / w < d
  {
    MulMono(v / w, d, w);
  }

  lemma MulMono(a: nat, b: nat, w: nat)
    ensures a >= b ==> a * w >= b * w
  {
  }

  /** Flips the bits that mask m has and mask c lacks. */
  function Flip(b: bv8, m: bv8, c: bv8): bv8 {
    b ^ (m & !c)
  }

  lemma FlipBetween(p: bv8, h: bv8, a: nat, b: nat)
    requires b <= a <= 8
    ensures var m, c := LeadingOnes(a), LeadingOnes(b);
            var x := Flip(Mix(p, h, m), m, c);
            And(Mix(p, h, m), c) == And(x, c) && (b < a ==> And(x, m) != And(p, m))
  {
    var m, c := LeadingOnes(a), LeadingOnes(b);
    assert c & m == c && (b < a ==> m & !c != 0);
    FlipBits(p, h, m, c);
  }

  lemma FlipBits(p: bv8, h: bv8, m: bv8, c: bv8)
    requires c & m == c
    ensures var x := Flip(Mix(p, h, m), m, c);
            And(Mix(p, h, m), c) == And(x, c) && (m & !c != 0 ==> And(x, m) != And(p, m))
  {
  }

  /** A shorter cidr than the received prefix covers addresses outside that prefix. */
  lemma ShorterCidrLeaks(h: Bytes, p: Bytes, ones: nat, cidr: nat) returns (x: Bytes)
    requires |p| == |h| && cidr < ones <= 8 * |h|
    ensures Covers(Substitute(h, p, PrefixMask(ones, |h|)), PrefixMask(cidr, |h|), x)
    ensures |x| == |h| && !Covers(p, PrefixMask(ones, |h|), x)
  {
    hide LeadingOnes, Mix, And, Flip;
    var n := |h|;
    var m, c := PrefixMask(ones, n), PrefixMask(cidr, n);
    var r := Substitute(h, p, m);
    x := seq(n, i requires 0 <= i < n => Flip(r[i], m[i], c[i]));
    forall i | 0 <= i < n
      ensures And(r[i], c[i]) == And(x[i], c[i])
    {
      FlipBetween(p[i], h[i], OnesInByte(ones, i), OnesInByte(cidr, i));
    }
    var k := cidr / 8;
    FlipBetween(p[k], h[k], OnesInByte(ones, k), OnesInByte(cidr, k));
    assert And(x[k], m[k]) != And(p[k], m[k]);
  }
}
