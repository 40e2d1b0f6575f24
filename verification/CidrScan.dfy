// pkg/util/icsvm.go, GetIPAddressByCIDR: the first address of a block that a
// filter does not hold.
module CidrScan {
  import opened Wrappers
  import opened Bytes
  import opened Ipv4

  function HostBits(c: Cidr): nat
    requires c.Valid()
  {
    32 - c.prefix
  }

  // The first number of the block.
  function First(c: Cidr): nat
    requires c.Valid()
  {
    BlockStart(Value(c.addr), HostBits(c))
  }

  function Size(c: Cidr): nat
    requires c.Valid()
  {
    Pow2(HostBits(c))
  }

  function TextOf(v: nat): string {
    Text(FromValue(v, 4))
  }

  ghost predicate Covered(c: Cidr, filter: set<string>)
    requires c.Valid()
  {
    forall v :: First(c) <= v < First(c) + Size(c) ==> TextOf(v) in filter
  }

  // The scan of a whole-space block whose every address is filtered wraps from
  // 255.255.255.255 to 0.0.0.0 and never stops; every other scan halts.
  ghost predicate ScanHalts(c: Cidr, filter: set<string>)
    requires c.Valid()
  {
    c.prefix == 0 ==> !Covered(c, filter)
  }

  // What a scan may return: the numerically least unfiltered address of the
  // block, or nothing when the filter covers the block.
  ghost predicate IsScanResult(c: Cidr, filter: set<string>, r: Option<seq<byte>>)
    requires c.Valid()
  {
    match r
    case None => Covered(c, filter)
    case Some(ip) =>
      && |ip| == 4
      && First(c) <= Value(ip) < First(c) + Size(c)
      && Text(ip) !in filter
      && forall v :: First(c) <= v < Value(ip) ==> TextOf(v) in filter
  }

  method GetIPAddressByCIDR(cidr: string, filter: set<string>) returns (r: Result<Option<seq<byte>>>)
    requires var c := ParseCIDR(cidr); c.Some? ==> ScanHalts(c.value, filter)
    ensures r.Err? <==> ParseCIDR(cidr).None?
    ensures r.Ok? ==> IsScanResult(ParseCIDR(cidr).value, filter, r.value)
    ensures r.Ok? <==> exists a: seq<byte>, k, p :: |a| == 4 && p <= 32 && cidr == CidrText(a, k, p)
    ensures forall a: seq<byte>, k, p :: |a| == 4 && p <= 32 && cidr == CidrText(a, k, p) ==>
              r.Ok? && IsScanResult(Cidr(a, p), filter, r.value)
  {
    forall a: seq<byte>, k, p | |a| == 4 && p <= 32 && cidr == CidrText(a, k, p)
      ensures ParseCIDR(cidr) == Some(Cidr(a, p))
    {
      ParsesCidrText(a, k, p);
    }
    var parsed := ParseCIDR(cidr);
    if parsed.None? {
      return Err("invalid CIDR address");
    }
    ghost var zeros := ParsedIsCidrText(cidr, parsed.value.addr, parsed.value.prefix);
    var found := ScanBlock(parsed.value, filter);
    return Ok(found);
  }

  method ScanBlock(c: Cidr, filter: set<string>) returns (r: Option<seq<byte>>)
    requires c.Valid() && ScanHalts(c, filter)
    ensures IsScanResult(c, filter, r)
  {
    var mask := MaskBytes(c.prefix, 4);
    var net := Masked(c.addr, mask);
    var ip := new byte[4](i requires 0 <= i < 4 => net[i]);
    assert ip[..] == net;
    BlockFacts(c, net);
    ghost var k := 0;
    while Contains(net, mask, ip[..])
      invariant 0 <= k <= Size(c)
      invariant AtCandidate(c, filter, k, Value(ip[..]))
      decreases Size(c) - k
    {
      TurnFacts(c, net, ip[..], k, filter);
      if Text(ip[..]) in filter {
        Advance(c, Value(ip[..]), k, filter);
        AddOffsetToIP(ip);
        k := k + 1;
        continue;
      }
      return Some(ip[..]);
    }
    TurnFacts(c, net, ip[..], k, filter);
    return None;
  }

  // What one test of the scan's loop tells.
  lemma TurnFacts(c: Cidr, net: seq<byte>, ip: seq<byte>, k: nat, filter: set<string>)
    requires c.Valid() && net == Masked(c.addr, MaskBytes(c.prefix, 4)) && |ip| == 4 && ScanHalts(c, filter)
    requires k <= Size(c) && AtCandidate(c, filter, k, Value(ip))
    ensures TextOf(Value(ip)) == Text(ip)
    ensures if Contains(net, MaskBytes(c.prefix, 4), ip) then k < Size(c) && Value(ip) == First(c) + k
            else Covered(c, filter)
  {
    TestIsRange(c, net, ip);
    TextOfValue(ip);
    CandidateInBlock(c, Value(ip), k, filter);
  }

  // The scan has passed over the first k addresses, all filtered, and looks at
  // the next number, or at zero after the largest one.
  ghost predicate AtCandidate(c: Cidr, filter: set<string>, k: nat, v: nat)
    requires c.Valid()
  {
    && (forall u :: First(c) <= u < First(c) + k ==> TextOf(u) in filter)
    && v == if First(c) + k == Pow2(32) then 0 else First(c) + k
  }

  lemma BlockFacts(c: Cidr, net: seq<byte>)
    requires c.Valid() && net == Masked(c.addr, MaskBytes(c.prefix, 4))
    ensures Value(net) == First(c) == BlockStart(Value(net), HostBits(c))
    ensures First(c) + Size(c) <= Pow2(32)
    ensures Size(c) == Pow2(32) ==> c.prefix == 0
  {
    MaskedValue(c.addr, c.prefix);
    BlockIsInterval(Value(c.addr), First(c), HostBits(c));
    ValueBound(c.addr);
    BlockFits(Value(c.addr), HostBits(c), 32);
    if c.prefix > 0 { Pow2Grows(HostBits(c), 31); }
  }

  // The mask test on a candidate is the interval test of the block.
  lemma TestIsRange(c: Cidr, net: seq<byte>, ip: seq<byte>)
    requires c.Valid() && net == Masked(c.addr, MaskBytes(c.prefix, 4)) && |ip| == 4
    ensures Contains(net, MaskBytes(c.prefix, 4), ip)
            <==> First(c) <= Value(ip) < First(c) + Size(c)
  {
    BlockFacts(c, net);
    ContainsIsRange(net, c.prefix, ip, HostBits(c));
  }

  // The scan has neither left the block nor wrapped back into it before it has
  // looked at all of it: while the candidate is inside, it is the k-th number,
  // and when it is outside, the whole block was filtered.
  lemma CandidateInBlock(c: Cidr, v: nat, k: nat, filter: set<string>)
    requires c.Valid() && ScanHalts(c, filter) && k <= Size(c) && AtCandidate(c, filter, k, v)
    ensures First(c) <= v < First(c) + Size(c) ==> k < Size(c) && v == First(c) + k
    ensures !(First(c) <= v < First(c) + Size(c)) ==> Covered(c, filter)
  {
    BlockFacts(c, Masked(c.addr, MaskBytes(c.prefix, 4)));
    if k == Size(c) {
      WrapsOutside(First(c), Size(c), Pow2(32), v);
    }
  }

  lemma WrapsOutside(lo: nat, size: nat, whole: nat, v: nat)
    requires lo + size <= whole && size != whole
    requires v == if lo + size == whole then 0 else lo + size
    ensures !(lo <= v < lo + size)
  {
  }

  // A filtered candidate moves the scan on by one.
  lemma Advance(c: Cidr, v: nat, k: nat, filter: set<string>)
    requires c.Valid() && AtCandidate(c, filter, k, v) && v == First(c) + k && TextOf(v) in filter
    ensures AtCandidate(c, filter, k + 1, if v + 1 == Pow2(32) then 0 else v + 1)
  {
  }

  lemma TextOfValue(ip: seq<byte>)
    requires |ip| == 4
    ensures TextOf(Value(ip)) == Text(ip)
  {
    FromValueOfValue(ip);
  }

  // -------------------------------------------------- what the result implies

  // The first k addresses of the block have k different texts.
  lemma {:induction false} TextsAreDistinct(c: Cidr, k: nat) returns (texts: set<string>)
    requires c.Valid() && k <= Size(c)
    ensures |texts| == k
    ensures forall t :: t in texts ==> exists v :: First(c) <= v < First(c) + k && t == TextOf(v)
  {
    if k == 0 {
      texts := {};
    } else {
      var smaller := TextsAreDistinct(c, k - 1);
      BlockFacts(c, Masked(c.addr, MaskBytes(c.prefix, 4)));
      var last := First(c) + (k - 1);
      forall v | First(c) <= v < last ensures TextOf(v) != TextOf(last) {
        TextOfInjective(v, last);
      }
      texts := smaller + {TextOf(last)};
    }
  }

  lemma TextOfInjective(u: nat, v: nat)
    requires u < Pow2(32) && v < Pow2(32)
    ensures TextOf(u) == TextOf(v) ==> u == v
  {
    ValueOfFromValue(u, 4);
    ValueOfFromValue(v, 4);
    if TextOf(u) == TextOf(v) {
      TextInjective(FromValue(u, 4), FromValue(v, 4));
    }
  }

  lemma SubsetSize(a: set<string>, b: set<string>)
    requires a <= b
    ensures |a| <= |b|
  {
    if a != {} {
      var x :| x in a;
      SubsetSize(a - {x}, b - {x});
    }
  }

  // Pigeonhole: a scan looks at no more than |filter|+1 candidates, and fails
  // only on blocks no larger than the filter.
  lemma ScanBound(c: Cidr, filter: set<string>, r: Option<seq<byte>>)
    requires c.Valid() && IsScanResult(c, filter, r)
    ensures r.Some? ==> Value(r.value) - First(c) <= |filter|
    ensures r.None? ==> Size(c) <= |filter|
  {
    var k := if r.Some? then Value(r.value) - First(c) else Size(c);
    var texts := TextsAreDistinct(c, k);
    assert texts <= filter;
    SubsetSize(texts, filter);
  }

  // Every filter and block have a scan result.
  lemma ScanExists(c: Cidr, filter: set<string>, k: nat) returns (r: Option<seq<byte>>)
    requires c.Valid() && k <= Size(c)
    requires forall v :: First(c) <= v < First(c) + k ==> TextOf(v) in filter
    ensures IsScanResult(c, filter, r)
    decreases Size(c) - k
  {
    if k == Size(c) {
      r := None;
    } else if TextOf(First(c) + k) in filter {
      r := ScanExists(c, filter, k + 1);
    } else {
      r := Some(FromValue(First(c) + k, 4));
      LeastUnfilteredIsResult(c, filter, First(c) + k);
    }
  }

  lemma LeastUnfilteredIsResult(c: Cidr, filter: set<string>, v: nat)
    requires c.Valid() && First(c) <= v < First(c) + Size(c) && TextOf(v) !in filter
    requires forall u :: First(c) <= u < v ==> TextOf(u) in filter
    ensures IsScanResult(c, filter, Some(FromValue(v, 4)))
  {
    BlockFacts(c, Masked(c.addr, MaskBytes(c.prefix, 4)));
    ValueOfFromValue(v, 4);
  }

  lemma ScanResultUnique(c: Cidr, filter: set<string>, r: Option<seq<byte>>, s: Option<seq<byte>>)
    requires c.Valid() && IsScanResult(c, filter, r) && IsScanResult(c, filter, s)
    ensures r == s
  {
    if r.Some? { TextOfValue(r.value); }
    if s.Some? { TextOfValue(s.value); }
    if r.Some? && s.Some? { ValueInjective(r.value, s.value); }
  }

  // Scans of a block that a larger filter still leaves open return the same
  // address or a later one.
  lemma ScanMonotone(c: Cidr, filter: set<string>, more: set<string>, r: Option<seq<byte>>, s: Option<seq<byte>>)
    requires c.Valid() && filter <= more
    requires IsScanResult(c, filter, r) && IsScanResult(c, more, s)
    ensures r.None? ==> s.None?
    ensures r.Some? && s.Some? ==> Value(r.value) <= Value(s.value)
  {
    if s.Some? { TextOfValue(s.value); }
  }

  // The address that the k-th turn of the scan looks at while none stops it: k
  // applications of AddOffsetToIP to the masked address.
  function Candidate(net: seq<byte>, k: nat): (ip: seq<byte>)
    ensures |ip| == |net|
  {
    if k == 0 then net else Incremented(Candidate(net, k - 1))
  }

  lemma WholeSpace(c: Cidr)
    requires c.Valid() && c.prefix == 0
    ensures First(c) == 0 && Size(c) == Pow2(32)
  {
    ValueBound(c.addr);
    BlockOfSmall(Value(c.addr), 32);
  }

  // The precondition of the scan is exact: over a fully filtered whole space,
  // every turn finds its address inside the block and inside the filter.
  lemma FullSpaceNeverStops(c: Cidr, filter: set<string>, k: nat)
    requires c.Valid() && !ScanHalts(c, filter)
    ensures var mask := MaskBytes(c.prefix, 4);
            var ip := Candidate(Masked(c.addr, mask), k);
            Contains(Masked(c.addr, mask), mask, ip) && Text(ip) in filter
  {
    var net := Masked(c.addr, MaskBytes(c.prefix, 4));
    var ip := Candidate(net, k);
    WholeSpace(c);
    ValueBound(ip);
    TestIsRange(c, net, ip);
    TextOfValue(ip);
    assert First(c) <= Value(ip) < First(c) + Size(c);
  }

  // Candidates count up from the masked address until they wrap.
  lemma {:induction false} CandidatesCount(net: seq<byte>, k: nat)
    requires Value(net) + k < Pow2(8 * |net|)
    ensures Value(Candidate(net, k)) == Value(net) + k
  {
    if k > 0 {
      CandidatesCount(net, k - 1);
      IncrementedValue(Candidate(net, k - 1));
    }
  }
}
