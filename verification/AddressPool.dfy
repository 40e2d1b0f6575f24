// pkg/util/icsvm.go, ConvertIPAddrsToPreAllocations and GetIPFromNetworkConfig:
// one device's pool of static addresses and CIDR blocks, and the address a
// caller takes from it.
module AddressPool {
  import opened Wrappers
  import opened Bytes
  import opened Ipv4
  import opened CidrScan

  // The fields of a NetworkDeviceSpec that allocation reads. A nil address list
  // is None; an empty one is Some([]).
  datatype Device = Device(dhcp4: bool, dhcp6: bool, ipAddrs: Option<seq<string>>,
                           netMask: string, gateway4: string) {
    predicate UsesDHCP() {
      dhcp4 || dhcp6
    }
  }

  datatype PoolKind = Block | Static

  datatype Grant = Grant(ip: string, netmask: string)

  // The text of a nil net.IP and of a nil net.IPMask.
  const NIL_TEXT := "<nil>"

  // How one list entry is classified; None for text that does not parse.
  function KindOf(s: string): Option<PoolKind> {
    if IndexOf(s, '/') < |s| then if ParseCIDR(s).Some? then Some(Block) else None
    else if ParseIP(s).Some? then Some(Static) else None
  }

  function Entries(d: Device): set<string> {
    if d.ipAddrs.None? then {} else set s | s in d.ipAddrs.value && KindOf(s).Some?
  }

  // The class A, B or C mask of an address, as IPMask.String prints it.
  function DefaultMaskText(a: seq<byte>): string
    requires |a| == 4
  {
    if a[0] < 0x80 then "ff000000" else if a[0] < 0xC0 then "ffff0000" else "ffffff00"
  }

  method ConvertIPAddrsToPreAllocations(ipAddrs: Option<seq<string>>) returns (m: map<string, PoolKind>)
    ensures ipAddrs.None? ==> m == map[]
    ensures ipAddrs.Some? ==>
              m == map s | s in ipAddrs.value && KindOf(s).Some? :: KindOf(s).value
  {
    m := map[];
    if ipAddrs.None? {
      return;
    }
    var list := ipAddrs.value;
    for i := 0 to |list|
      invariant m == map s | s in list[..i] && KindOf(s).Some? :: KindOf(s).value
    {
      assert list[..i + 1] == list[..i] + [list[i]];
      if IndexOf(list[i], '/') < |list[i]| {
        if ParseCIDR(list[i]).None? {
          continue;
        }
        m := m[list[i] := Block];
      } else if ParseIP(list[i]).Some? {
        m := m[list[i] := Static];
      }
    }
    assert list[..|list|] == list;
  }

  // ------------------------------------------------------------ what is taken

  // A static entry that is already recorded is passed over. Nothing else is:
  // `&ip != nil` always holds, so the search ends at the first entry not
  // passed over, an exhausted block included.
  predicate Skipped(e: string, taken: set<string>) {
    KindOf(e) == Some(Static) && e in taken
  }

  ghost predicate Exhausted(e: string, taken: set<string>) {
    KindOf(e) == Some(Block) && Covered(ParseCIDR(e).value, taken)
  }

  function MaskFor(e: string, d: Device): string
    requires ParseIP(e).Some?
  {
    if |d.netMask| >= 8 then d.netMask else DefaultMaskText(ParseIP(e).value)
  }

  function BlockGrant(r: Option<seq<byte>>): Grant
    requires r.Some? ==> |r.value| == 4
  {
    if r.Some? then Grant(Text(r.value), DefaultMaskText(r.value)) else Grant(NIL_TEXT, NIL_TEXT)
  }

  // What entry e yields when the search reaches it and does not pass it over.
  ghost predicate Yields(e: string, d: Device, taken: set<string>, g: Grant) {
    match KindOf(e)
    case None => false
    case Some(Static) => e !in taken && g == Grant(e, MaskFor(e, d))
    case Some(Block) =>
      exists r :: IsScanResult(ParseCIDR(e).value, taken, r) && g == BlockGrant(r)
  }

  // The outcomes of the search over every iteration order of the pool: what
  // any entry not passed over yields, or empty text when all are passed over.
  ghost predicate Picks(d: Device, taken: set<string>, g: Grant) {
    || (exists e :: e in Entries(d) && Yields(e, d, taken, g))
    || ((forall e :: e in Entries(d) ==> Skipped(e, taken)) && g == Grant("", ""))
  }

  ghost predicate PoolHalts(d: Device, taken: set<string>) {
    forall e :: e in Entries(d) && KindOf(e) == Some(Block) ==> ScanHalts(ParseCIDR(e).value, taken)
  }

  // No entry is a /0 block; then every search halts, whatever is recorded.
  predicate NoWholeSpace(d: Device) {
    forall e :: e in Entries(d) && KindOf(e) == Some(Block) ==> ParseCIDR(e).value.prefix > 0
  }

  // A failed List is treated as "nothing allocated".
  function Allocated(listed: Option<set<string>>): set<string> {
    if listed.Some? then listed.value else {}
  }

  method GetIPFromNetworkConfig(d: Device, listed: Option<set<string>>) returns (r: Result<Grant>)
    requires PoolHalts(d, Allocated(listed))
    ensures r.Err? <==> d.ipAddrs.None?
    ensures r.Ok? ==> Picks(d, Allocated(listed), r.value)
  {
    if d.ipAddrs.None? {
      return Err("invalid network config");
    }
    var ip, netmask := "", "";
    var taken := Allocated(listed);
    var preAllocations := ConvertIPAddrsToPreAllocations(d.ipAddrs);
    var todo := preAllocations.Keys;
    while todo != {}
      invariant todo <= preAllocations.Keys
      invariant ip == netmask == ""
      invariant forall e :: e in preAllocations.Keys - todo ==> Skipped(e, taken)
      decreases todo
    {
      var e :| e in todo;
      todo := todo - {e};
      match preAllocations[e] {
        case Block =>
          var preIP := GetIPAddressByCIDR(e, taken);
          if preIP.Err? {
            continue;
          }
          ip, netmask := BlockGrant(preIP.value).ip, BlockGrant(preIP.value).netmask;
        case Static =>
          if e in taken {
            continue;
          }
          ip, netmask := e, MaskFor(e, d);
      }
      assert Yields(e, d, taken, Grant(ip, netmask));
      assert e in Entries(d);
      break;
    }
    return Ok(Grant(ip, netmask));
  }

  // ------------------------------------------------------ what the search means

  predicate IsAddress(s: string) {
    ParseIP(s).Some?
  }

  // The text of an address has no slash, so as an entry it is static.
  lemma AddressIsStatic(a: string)
    requires IsAddress(a)
    ensures KindOf(a) == Some(Static)
  {
    var ip := ParseIP(a).value;
    ParseTextRoundTrip(a, ip);
    TextHasNoSlash(ip);
  }

  // A block is the canonical text of an address, a slash, and a prefix length of at
  // most 32, with or without zeros before it; anything else is not.
  lemma KindExactly(e: string)
    ensures KindOf(e) == Some(Static) <==> exists a: seq<byte> :: |a| == 4 && e == Text(a)
    ensures KindOf(e) == Some(Block) <==> exists a: seq<byte>, k, p :: |a| == 4 && p <= 32 && e == CidrText(a, k, p)
  {
    if KindOf(e) == Some(Block) {
      var c := ParseCIDR(e).value;
      var k := ParsedIsCidrText(e, c.addr, c.prefix);
    } else if KindOf(e) == Some(Static) {
      ParseTextRoundTrip(e, ParseIP(e).value);
    }
    if a: seq<byte> :| |a| == 4 && e == Text(a) {
      ParseTextRoundTrip(e, a);
      AddressIsStatic(e);
    }
    if a: seq<byte>, k, p :| |a| == 4 && p <= 32 && e == CidrText(a, k, p) {
      ParsesCidrText(a, k, p);
      TextHasNoSlash(a);
      assert '/' in e && IndexOf(e, '/') < |e|;
    }
  }

  // Classes A and B, and all others, by the leading bits of the address.
  function ClassMask(v: nat): seq<byte> {
    if v < 0x8000_0000 then MaskBytes(8, 4) else if v < 0xC000_0000 then MaskBytes(16, 4) else MaskBytes(24, 4)
  }

  // Two hexadecimal digits for each byte, as IPMask.String writes them.
  function HexOf(m: seq<byte>): string {
    if m == [] then "" else HexByte(m[0]) + HexOf(m[1..])
  }

  function HexByte(b: byte): string {
    ["0123456789abcdef"[b / 16], "0123456789abcdef"[b % 16]]
  }

  // The netmask written for a static entry is the device's when that has at least
  // eight characters, and otherwise that of the address's class; a block's grant
  // has the class's.
  lemma MaskExactly(d: Device, a: seq<byte>)
    requires |a| == 4
    ensures ParseIP(Text(a)) == Some(a)
    ensures MaskFor(Text(a), d) == if |d.netMask| >= 8 then d.netMask else HexOf(ClassMask(Value(a)))
    ensures BlockGrant(Some(a)) == Grant(Text(a), HexOf(ClassMask(Value(a))))
    ensures BlockGrant(None) == Grant("<nil>", "<nil>")
  {
    ParseTextRoundTrip(Text(a), a);
    ClassByFirstByte(a);
    MaskTexts();
  }

  lemma ClassByFirstByte(a: seq<byte>)
    requires |a| == 4
    ensures a[0] < 0x80 <==> Value(a) < 0x8000_0000
    ensures a[0] < 0xC0 <==> Value(a) < 0xC000_0000
  {
    assert a[..3][..2] == a[..2] && a[..2][..1] == a[..1] && a[..1][..0] == [];
    assert Value(a) == 256 * Value(a[..3]) + a[3];
    assert Value(a[..3]) == 256 * Value(a[..2]) + a[2];
    assert Value(a[..2]) == 256 * Value(a[..1]) + a[1];
    assert Value(a[..1]) == a[0];
  }

  lemma MaskTexts()
    ensures HexOf(MaskBytes(8, 4)) == "ff000000"
    ensures HexOf(MaskBytes(16, 4)) == "ffff0000"
    ensures HexOf(MaskBytes(24, 4)) == "ffffff00"
  {
    Pow2Table(8);
    assert MaskByte(0) == 0 && MaskByte(8) == 255;
    FourBytes(MaskBytes(8, 4), 255, 0, 0, 0);
    FourBytes(MaskBytes(16, 4), 255, 255, 0, 0);
    FourBytes(MaskBytes(24, 4), 255, 255, 255, 0);
  }

  lemma FourBytes(m: seq<byte>, a: byte, b: byte, c: byte, d: byte)
    requires m == [a, b, c, d]
    ensures HexOf(m) == HexByte(a) + (HexByte(b) + (HexByte(c) + HexByte(d)))
  {
    assert m[1..] == [b, c, d] && [b, c, d][1..] == [c, d] && [c, d][1..] == [d] && [d][1..] == [];
    assert HexOf([d]) == HexByte(d) + "" == HexByte(d);
    assert HexOf([c, d]) == HexByte(c) + HexOf([d]);
    assert HexOf([b, c, d]) == HexByte(b) + HexOf([c, d]);
  }

  // Address a belongs to entry e: it is that entry, or lies in that block.
  ghost predicate Offers(e: string, a: string) {
    match KindOf(e)
    case None => false
    case Some(Static) => a == e
    case Some(Block) =>
      var c := ParseCIDR(e).value;
      && IsAddress(a)
      && First(c) <= Value(ParseIP(a).value) < First(c) + Size(c)
  }

  lemma MarkersAreNotAddresses()
    ensures !IsAddress("") && !IsAddress(NIL_TEXT)
  {
  }

  // Whatever the iteration order, a grant that is an address comes from the
  // device's own list and was not allocated.
  lemma PickedAddressIsFreeAndListed(d: Device, taken: set<string>, g: Grant)
    requires Picks(d, taken, g) && IsAddress(g.ip)
    ensures g.ip !in taken
    ensures exists e :: e in Entries(d) && Offers(e, g.ip)
  {
    MarkersAreNotAddresses();
    var e :| e in Entries(d) && Yields(e, d, taken, g);
    if KindOf(e) == Some(Block) {
      var r :| IsScanResult(ParseCIDR(e).value, taken, r) && g == BlockGrant(r);
      ParseTextRoundTrip(g.ip, r.value);
    }
    assert Offers(e, g.ip);
  }

  // No listed block is exhausted, and some entry is not an already recorded
  // static address.
  ghost predicate PoolHasRoom(d: Device, taken: set<string>) {
    && (forall e :: e in Entries(d) ==> !Exhausted(e, taken))
    && (exists e :: e in Entries(d) && !Skipped(e, taken))
  }

  // The search grants an address in every iteration order exactly when the pool
  // has room in this sense.
  lemma GrantsAddressInEveryOrder(d: Device, taken: set<string>)
    ensures (forall g :: Picks(d, taken, g) ==> IsAddress(g.ip)) <==> PoolHasRoom(d, taken)
  {
    if PoolHasRoom(d, taken) {
      forall g | Picks(d, taken, g) ensures IsAddress(g.ip) {
        var e :| e in Entries(d) && Yields(e, d, taken, g);
        YieldOfUnexhaustedIsAddress(e, d, taken, g);
      }
    } else {
      var g := NoRoomGrantsMarker(d, taken);
      assert Picks(d, taken, g) && !IsAddress(g.ip);
    }
  }

  lemma NoRoomGrantsMarker(d: Device, taken: set<string>) returns (g: Grant)
    requires !PoolHasRoom(d, taken)
    ensures Picks(d, taken, g) && !IsAddress(g.ip)
  {
    MarkersAreNotAddresses();
    if exists e :: e in Entries(d) && Exhausted(e, taken) {
      var e :| e in Entries(d) && Exhausted(e, taken);
      g := BlockGrant(None);
      assert IsScanResult(ParseCIDR(e).value, taken, None);
      assert Yields(e, d, taken, g);
    } else {
      g := Grant("", "");
    }
  }

  lemma YieldOfUnexhaustedIsAddress(e: string, d: Device, taken: set<string>, g: Grant)
    requires Yields(e, d, taken, g) && !Exhausted(e, taken)
    ensures IsAddress(g.ip)
  {
    if KindOf(e) == Some(Block) {
      var r :| IsScanResult(ParseCIDR(e).value, taken, r) && g == BlockGrant(r);
      ParseTextRoundTrip(g.ip, r.value);
    }
  }

  // Every entry not passed over is granted in some iteration order.
  lemma EveryEntryCanBePicked(e: string, d: Device, taken: set<string>) returns (g: Grant)
    requires e in Entries(d) && !Skipped(e, taken)
    ensures Yields(e, d, taken, g) && Picks(d, taken, g)
  {
    match KindOf(e) {
      case Some(Static) =>
        g := Grant(e, MaskFor(e, d));
      case Some(Block) =>
        var r := ScanExists(ParseCIDR(e).value, taken, 0);
        g := BlockGrant(r);
    }
  }

  // --------------------------------------------- grants that are already taken

  // Address a is the first one of the block that is not taken.
  ghost predicate FirstFree(c: Cidr, taken: set<string>, a: string)
    requires c.Valid()
  {
    && IsAddress(a) && a !in taken
    && First(c) <= Value(ParseIP(a).value) < First(c) + Size(c)
    && forall v :: First(c) <= v < Value(ParseIP(a).value) ==> TextOf(v) in taken
  }

  // Some listed entry can give out address a.
  ghost predicate Grantable(d: Device, taken: set<string>, a: string) {
    exists e :: e in Entries(d) && GrantableFrom(e, taken, a)
  }

  ghost predicate GrantableFrom(e: string, taken: set<string>, a: string) {
    match KindOf(e)
    case None => false
    case Some(Static) => e == a && a !in taken
    case Some(Block) => FirstFree(ParseCIDR(e).value, taken, a)
  }

  lemma YieldGivesGrantable(e: string, d: Device, taken: set<string>, g: Grant)
    requires Yields(e, d, taken, g) && IsAddress(g.ip)
    ensures GrantableFrom(e, taken, g.ip)
  {
    MarkersAreNotAddresses();
    if KindOf(e) == Some(Block) {
      var r :| IsScanResult(ParseCIDR(e).value, taken, r) && g == BlockGrant(r);
      ParseTextRoundTrip(g.ip, r.value);
    }
  }

  lemma GrantableIsYielded(e: string, d: Device, taken: set<string>, a: string) returns (g: Grant)
    requires GrantableFrom(e, taken, a)
    ensures Yields(e, d, taken, g) && g.ip == a
  {
    match KindOf(e) {
      case Some(Static) =>
        g := Grant(a, MaskFor(a, d));
      case Some(Block) =>
        var ip := ParseIP(a).value;
        ParseTextRoundTrip(a, ip);
        assert IsScanResult(ParseCIDR(e).value, taken, Some(ip));
        g := BlockGrant(Some(ip));
    }
  }

  // A search can grant an address, in some iteration order, exactly when the
  // address is a listed static entry that is not taken, or the first address of a
  // listed block that is not taken.
  lemma GrantableExactly(d: Device, taken: set<string>, a: string)
    requires IsAddress(a)
    ensures (exists g :: Picks(d, taken, g) && g.ip == a) <==> Grantable(d, taken, a)
  {
    MarkersAreNotAddresses();
    if g :| Picks(d, taken, g) && g.ip == a {
      var e :| e in Entries(d) && Yields(e, d, taken, g);
      YieldGivesGrantable(e, d, taken, g);
    }
    if Grantable(d, taken, a) {
      var e :| e in Entries(d) && GrantableFrom(e, taken, a);
      var g := GrantableIsYielded(e, d, taken, a);
      assert Picks(d, taken, g);
    }
  }

  // The address that an entry gives out when nothing is listed as allocated.
  function FirstAddress(e: string): string {
    if KindOf(e) == Some(Block) then TextOf(First(ParseCIDR(e).value)) else e
  }

  lemma FirstAddressIsFree(e: string)
    requires KindOf(e).Some?
    ensures IsAddress(FirstAddress(e)) && GrantableFrom(e, {}, FirstAddress(e))
    ensures forall a :: GrantableFrom(e, {}, a) ==> a == FirstAddress(e)
  {
    if KindOf(e) == Some(Block) {
      var c := ParseCIDR(e).value;
      BlockFacts(c, Masked(c.addr, MaskBytes(c.prefix, 4)));
      var ip := FromValue(First(c), 4);
      ValueOfFromValue(First(c), 4);
      ParseTextRoundTrip(TextOf(First(c)), ip);
      forall a | GrantableFrom(e, {}, a) ensures a == FirstAddress(e) {
        assert Value(ParseIP(a).value) == First(c);
        TextOfValue(ParseIP(a).value);
        ParseTextRoundTrip(a, ParseIP(a).value);
      }
    }
  }

  // Some listed entry is the address, or a block that starts with it.
  ghost predicate GivesFirst(d: Device, a: string) {
    exists e :: e in Entries(d) && FirstAddress(e) == a
  }

  lemma EmptyListGrantsExactly(d: Device, a: string)
    ensures Grantable(d, {}, a) <==> GivesFirst(d, a)
  {
    forall e | e in Entries(d) ensures GrantableFrom(e, {}, a) <==> FirstAddress(e) == a {
      FirstAddressIsFree(e);
    }
  }

  // When the List call fails, the search can grant an address that is recorded
  // exactly when a listed static entry, or the first address of a listed block, is
  // recorded.
  lemma FailedListExactly(d: Device, recorded: set<string>)
    ensures (exists g :: Picks(d, {}, g) && IsAddress(g.ip) && g.ip in recorded)
            <==> exists e :: e in Entries(d) && FirstAddress(e) in recorded
  {
    if g :| Picks(d, {}, g) && IsAddress(g.ip) && g.ip in recorded {
      GrantableExactly(d, {}, g.ip);
      EmptyListGrantsExactly(d, g.ip);
    }
    if e :| e in Entries(d) && FirstAddress(e) in recorded {
      FirstAddressIsFree(e);
      GrantableExactly(d, {}, FirstAddress(e));
    }
  }
}
