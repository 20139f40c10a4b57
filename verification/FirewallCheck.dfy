/**
 The preflight check that security groups let DHCP through: every tested IPv4 block must be one of the
 sub-blocks of a permitted one.
 */
module FirewallCheck {

  function Pow2(n: nat): (p: nat)
    ensures p > 0
  {
    if n == 0 then 1 else 2 * Pow2(n - 1)
  }

  /** An IPv4Network: the first address and the prefix length. */
  datatype Block = Block(addr: nat, prefix: nat)

  function Size(b: Block): nat
    requires b.prefix <= 32
  {
    Pow2(32 - b.prefix)
  }

  /** ipaddress.ip_network refuses blocks with host bits set. */
  predicate Valid(b: Block) {
    b.prefix <= 32 && b.addr % Size(b) == 0 && b.addr + Size(b) <= Pow2(32)
  }

  type Network = b: Block | Valid(b) witness Block(0, 32)

  predicate Has(b: Network, address: int) {
    b.addr <= address < b.addr + Size(b)
  }

  /** Containment as sets of addresses. */
  ghost predicate Inside(s: Network, n: Network) {
    forall address :: Has(s, address) ==> Has(n, address)
  }

  const EVERYTHING: Network := Block(0, 0)

  // ---------------------------------------------------------------- arithmetic of powers of two

  lemma DoubleProduct(x: nat, y: nat)
    ensures 2 * (x * y) == (2 * x) * y
  {
  }

  lemma {:induction false} PowSum(a: nat, b: nat)
    ensures Pow2(a + b) == Pow2(a) * Pow2(b)
  {
    if a > 0 {
      PowSum(a - 1, b);
      var x, y := Pow2(a - 1), Pow2(b);
      assert Pow2(a) == 2 * x && Pow2(a + b) == 2 * Pow2(a - 1 + b);
      hide Pow2;
      DoubleProduct(x, y);
    }
  }

  lemma ProductSigns(d: int, m: int)
    requires m > 0
    ensures d >= 1 ==> d * m >= m
    ensures d <= -1 ==> d * m <= -m
    ensures d == 0 ==> d * m == 0
  {
  }

  lemma ProductDivides(q: int, m: int)
    requires m > 0
    ensures (q * m) % m == 0
  {
    var x := q * m;
    var d := x / m - q;
    assert x == (x / m) * m + x % m;
    assert d * m == (x / m) * m - q * m;
    ProductSigns(d, m);
  }

  lemma DividesTransitive(x: int, m: int, k: int)
    requires m > 0 && k > 0 && x % m == 0 && m % k == 0
    ensures x % k == 0
  {
    var q := (x / m) * (m / k);
    assert x == q * k by {
      assert x == (x / m) * m && m == (m / k) * k;
      assert (x / m) * ((m / k) * k) == q * k;
    }
    ProductDivides(q, k);
  }

  lemma MultiplesApart(x: int, y: int, m: int)
    requires m > 0 && x % m == 0 && y % m == 0 && x < y
    ensures x + m <= y
  {
    var d := y / m - x / m;
    assert y - x == d * m by {
      assert x == (x / m) * m && y == (y / m) * m;
    }
    ProductSigns(d, m);
  }

  lemma NextMultiple(x: int, m: int)
    requires m > 0 && x % m == 0
    ensures (x + m) % m == 0
  {
    assert x == (x / m) * m;
    assert x + m == (x / m + 1) * m;
    ProductDivides(x / m + 1, m);
  }

  lemma SizesDivide(n: Block, s: Block)
    requires n.prefix <= s.prefix <= 32
    ensures Size(n) % Size(s) == 0 && Size(s) <= Size(n)
  {
    var d := s.prefix - n.prefix;
    PowSum(d, 32 - s.prefix);
    ProductDivides(Pow2(d), Size(s));
    ProductSigns(Pow2(d), Size(s));
  }

  lemma {:induction false} PowGrows(a: nat, b: nat)
    requires a < b
    ensures Pow2(a) < Pow2(b)
  {
    if a + 1 < b {
      PowGrows(a, b - 1);
    }
  }

  /** A block fits into another only if its prefix is at least as long. */
  lemma InsideNeedsPrefix(s: Network, n: Network)
    requires Inside(s, n)
    ensures n.prefix <= s.prefix && n.addr <= s.addr && s.addr + Size(s) <= n.addr + Size(n)
  {
    assert Has(s, s.addr) && Has(s, s.addr + Size(s) - 1);
    if s.prefix < n.prefix {
      PowGrows(32 - n.prefix, 32 - s.prefix);
    }
  }

  lemma LongerPrefixOutside(s: Network, n: Network)
    requires s.prefix < n.prefix
    ensures !Inside(s, n)
  {
    if Inside(s, n) {
      InsideNeedsPrefix(s, n);
    }
  }

  /** Two blocks are nested or share no address. */
  lemma NestedOrDisjoint(s: Network, n: Network)
    requires n.prefix <= s.prefix
    ensures Inside(s, n) || forall address :: !(Has(s, address) && Has(n, address))
  {
    SizesDivide(n, s);
    DividesTransitive(n.addr, Size(n), Size(s));
    EndMultiple(n, s);
    if s.addr < n.addr {
      MultiplesApart(s.addr, n.addr, Size(s));
    } else if s.addr < n.addr + Size(n) {
      MultiplesApart(s.addr, n.addr + Size(n), Size(s));
    }
  }

  lemma EndMultiple(n: Network, s: Network)
    requires n.prefix <= s.prefix <= 32
    ensures (n.addr + Size(n)) % Size(s) == 0
  {
    SizesDivide(n, s);
    NextMultiple(n.addr, Size(n));
    DividesTransitive(n.addr + Size(n), Size(n), Size(s));
  }

  // ---------------------------------------------------------------- the check

  /** `subnet in net.subnets(new_prefix=subnet.prefixlen)`: walks the sub-blocks one by one. */
  method AmongSubnets(subnet: Network, net: Network) returns (found: bool)
    requires net.prefix <= subnet.prefix
    ensures found <==> Inside(subnet, net)
  {
    hide Pow2;
    ghost var step := Size(subnet);
    SizesDivide(net, subnet);
    DividesTransitive(net.addr, Size(net), step);
    EndMultiple(net, subnet);
    var addr := net.addr;
    while addr < net.addr + Size(net)
      invariant net.addr <= addr <= net.addr + Size(net) && addr % step == 0
      invariant subnet.addr < net.addr || addr <= subnet.addr
      decreases net.addr + Size(net) - addr
    {
      MultiplesApart(addr, net.addr + Size(net), step);
      if Block(addr, subnet.prefix) == subnet {
        return true;
      }
      if addr < subnet.addr {
        MultiplesApart(addr, subnet.addr, step);
      }
      NextMultiple(addr, step);
      addr := addr + Size(subnet);
    }
    assert Has(subnet, subnet.addr) && !Has(net, subnet.addr);
    return false;
  }

  /** The answer promised: each tested block lies wholly in one permitted block. */
  ghost predicate Allowed(tested: seq<Network>, permitted: seq<Network>)
  {
    forall t :: t in tested ==> exists p :: p in permitted && Inside(t, p)
  }

  /** 0.0.0.0/0 among the permitted blocks answers the question for all tested ones. */
  lemma EverythingAllows(tested: seq<Network>, permitted: seq<Network>)
    requires EVERYTHING in permitted
    ensures Allowed(tested, permitted)
  {
    forall t | t in tested ensures Inside(t, EVERYTHING) {
      var b: Network := t;
    }
  }

  method AreAddressesAllowed(tested: seq<Network>, permitted: seq<Network>) returns (allowed: bool)
    ensures allowed <==> Allowed(tested, permitted)
  {
    if EVERYTHING in permitted {
      EverythingAllows(tested, permitted);
      return true;
    }
    for i := 0 to |tested|
      invariant forall k :: 0 <= k < i ==> exists p :: p in permitted && Inside(tested[k], p)
    {
      var blocked := true;
      var subnet := tested[i];
      var j := 0;
      while j < |permitted| && blocked
        invariant 0 <= j <= |permitted|
        invariant blocked ==> forall k :: 0 <= k < j ==> !Inside(subnet, permitted[k])
        invariant !blocked ==> exists p :: p in permitted && Inside(subnet, p)
      {
        var net := permitted[j];
        if net.prefix <= subnet.prefix {
          var found := AmongSubnets(subnet, net);
          if found {
            blocked := false;
          }
        } else {
          LongerPrefixOutside(subnet, net);
        }
        j := j + 1;
      }
      if blocked {
        assert subnet in tested;
        return false;
      }
    }
    return true;
  }

  /** One permitted block has to do: a block whose two halves are permitted separately is refused,
      although each of its addresses is permitted. */
  lemma TwoHalvesAreRefused(b: Network)
    requires b.prefix < 32
    ensures Valid(Block(b.addr, b.prefix + 1)) && Valid(Block(b.addr + Pow2(31 - b.prefix), b.prefix + 1))
    ensures var lo: Network, hi: Network := Block(b.addr, b.prefix + 1), Block(b.addr + Pow2(31 - b.prefix), b.prefix + 1);
            && (forall address :: Has(b, address) ==> Has(lo, address) || Has(hi, address))
            && !Allowed([b], [lo, hi])
  {
    var lo, hi := Block(b.addr, b.prefix + 1), Block(b.addr + Pow2(31 - b.prefix), b.prefix + 1);
    SizesDivide(b, lo);
    DividesTransitive(b.addr, Size(b), Size(lo));
    NextMultiple(b.addr, Size(lo));
    assert Size(b) == 2 * Size(lo);
    assert b in [b];
    if p :| p in [lo, hi] && Inside(b, p) {
      InsideNeedsPrefix(b, p);
    }
  }

  // ---------------------------------------------------------------- blocks that are permitted jointly

  /** Every address of the block is in some permitted block. */
  ghost predicate Covered(t: Network, permitted: seq<Network>) {
    forall address :: Has(t, address) ==> exists p :: p in permitted && Has(p, address)
  }

  ghost predicate Held(t: Network, permitted: seq<Network>) {
    exists p :: p in permitted && Inside(t, p)
  }

  predicate Halves(b: Network, lo: Network, hi: Network) {
    b.prefix < 32 && lo == Block(b.addr, b.prefix + 1) && hi == Block(b.addr + Pow2(31 - b.prefix), b.prefix + 1)
  }

  /** No block is permitted by its two halves alone. */
  ghost predicate NoSplit(permitted: seq<Network>) {
    forall b: Network, lo: Network, hi: Network {:trigger Halves(b, lo, hi)} ::
      Halves(b, lo, hi) && lo in permitted && hi in permitted ==> Held(b, permitted)
  }

  lemma Split(b: Network) returns (lo: Network, hi: Network)
    requires b.prefix < 32
    ensures Halves(b, lo, hi)
    ensures forall address :: Has(b, address) <==> Has(lo, address) || Has(hi, address)
  {
    var l, h := Block(b.addr, b.prefix + 1), Block(b.addr + Pow2(31 - b.prefix), b.prefix + 1);
    SizesDivide(b, l);
    DividesTransitive(b.addr, Size(b), Size(l));
    NextMultiple(b.addr, Size(l));
    assert Size(b) == 2 * Size(l);
    lo, hi := l, h;
  }

  /** A block that holds one half of another, but not all of it, is that half. */
  lemma HoldsHalfOnly(b: Network, half: Network, p: Network)
    requires half.prefix == b.prefix + 1 && Inside(half, b) && Inside(half, p) && !Inside(b, p)
    ensures p == half
  {
    hide Pow2;
    InsideNeedsPrefix(half, p);
    assert Has(half, half.addr);
    assert Has(b, half.addr) && Has(p, half.addr);
    if p.prefix <= b.prefix {
      NestedOrDisjoint(b, p);
    }
  }

  lemma {:induction false} CoveredIsHeld(t: Network, permitted: seq<Network>)
    requires NoSplit(permitted) && Covered(t, permitted)
    ensures Held(t, permitted)
    decreases 32 - t.prefix
  {
    if t.prefix == 32 {
      assert Has(t, t.addr);
      var p :| p in permitted && Has(p, t.addr);
      assert Inside(t, p);
    } else {
      var lo, hi := Split(t);
      CoveredIsHeld(lo, permitted);
      CoveredIsHeld(hi, permitted);
      var p :| p in permitted && Inside(lo, p);
      var q :| q in permitted && Inside(hi, q);
      if !Inside(t, p) && !Inside(t, q) {
        HoldsHalfOnly(t, lo, p);
        HoldsHalfOnly(t, hi, q);
        assert Halves(t, lo, hi);
      }
    }
  }

  /** Every block whose addresses are all permitted lies in one permitted block, exactly if no block is
      permitted by its two halves alone. */
  lemma CoveredExactly(permitted: seq<Network>)
    ensures (forall t: Network :: Covered(t, permitted) ==> Held(t, permitted)) <==> NoSplit(permitted)
  {
    if NoSplit(permitted) {
      forall t: Network | Covered(t, permitted) ensures Held(t, permitted) {
        CoveredIsHeld(t, permitted);
      }
    }
    if forall t: Network :: Covered(t, permitted) ==> Held(t, permitted) {
      forall b: Network, lo: Network, hi: Network | Halves(b, lo, hi) && lo in permitted && hi in permitted
        ensures Held(b, permitted)
      {
        var l, h := Split(b);
        assert Covered(b, permitted);
      }
    }
  }

  /** So the check's answer is whether all tested addresses are permitted, for all tested blocks,
      exactly if no block is permitted by its two halves alone. */
  lemma AnswerExactly(permitted: seq<Network>)
    ensures (forall tested: seq<Network> :: Allowed(tested, permitted) <==> forall t :: t in tested ==> Covered(t, permitted))
            <==> NoSplit(permitted)
  {
    CoveredExactly(permitted);
    hide NoSplit;
    forall t: Network | Held(t, permitted) ensures Covered(t, permitted) {
      var p :| p in permitted && Inside(t, p);
    }
    hide Covered;
    if NoSplit(permitted) {
      forall tested: seq<Network>
        ensures Allowed(tested, permitted) <==> forall t :: t in tested ==> Covered(t, permitted)
      {
        assert forall t :: t in tested ==> (Held(t, permitted) <==> Covered(t, permitted));
        assert Allowed(tested, permitted) <==> forall t :: t in tested ==> Held(t, permitted);
      }
    } else {
      var t: Network :| Covered(t, permitted) && !Held(t, permitted);
      var tested := [t];
      assert t in tested;
      assert !Allowed(tested, permitted) && forall u :: u in tested ==> Covered(u, permitted);
    }
  }
}
