// Big-endian byte strings, as Go's net.IP and net.IPMask hold them, and the
// numbers they stand for. Everything here holds for any length, so for IPv4
// (four bytes) and IPv6 (sixteen bytes) alike.
module Bytes {
  type byte = x: int | 0 <= x < 256

  function Pow2(n: nat): (p: nat)
    ensures p >= 1
  {
    if n == 0 then 1 else 2 * Pow2(n - 1)
  }

  // The number a big-endian byte string denotes.
  function Value(s: seq<byte>): nat {
    if s == [] then 0 else 256 * Value(s[..|s| - 1]) + s[|s| - 1]
  }

  // The n-byte string that denotes v modulo 256^n.
  function FromValue(v: nat, n: nat): (s: seq<byte>)
    ensures |s| == n
  {
    if n == 0 then [] else FromValue(v / 256, n - 1) + [v % 256]
  }

  // Bitwise conjunction, bit by bit.
  function BitAnd(x: nat, m: nat): (r: nat)
    ensures r <= x
  {
    if x == 0 || m == 0 then 0
    else 2 * BitAnd(x / 2, m / 2) + if x % 2 == 1 && m % 2 == 1 then 1 else 0
  }

  function And(x: byte, m: byte): byte {
    BitAnd(x, m)
  }

  // A byte whose first `ones` bits are set.
  function MaskByte(ones: nat): byte
    requires ones <= 8
  {
    Pow2Table(8 - ones);
    256 - Pow2(8 - ones)
  }

  // The mask of n bytes whose first p bits are set (section 3.1 of RFC 4632).
  function MaskBytes(p: nat, n: nat): (m: seq<byte>)
    requires p <= 8 * n
    ensures |m| == n
  {
    if n == 0 then []
    else if p <= 8 * (n - 1) then MaskBytes(p, n - 1) + [MaskByte(0)]
    else MaskBytes(8 * (n - 1), n - 1) + [MaskByte(p - 8 * (n - 1))]
  }

  // What Go's IP.Mask computes.
  function Masked(s: seq<byte>, m: seq<byte>): (r: seq<byte>)
    requires |s| == |m|
    ensures |r| == |s|
    ensures forall i :: 0 <= i < |s| ==> r[i] == And(s[i], m[i])
  {
    seq(|s|, i requires 0 <= i < |s| => And(s[i], m[i]))
  }

  // x with its low j bits cleared: the start of the aligned block of 2^j
  // numbers that x lies in.
  function BlockStart(x: nat, j: nat): nat {
    if j == 0 then x else 2 * BlockStart(x / 2, j - 1)
  }

  lemma Pow2Table(n: nat)
    requires n <= 8
    ensures Pow2(n) == [1, 2, 4, 8, 16, 32, 64, 128, 256][n]
  {
  }

  lemma {:induction false} Pow2Grows(j: nat, w: nat)
    requires j <= w
    ensures Pow2(j) <= Pow2(w)
  {
    if j < w { Pow2Grows(j, w - 1); }
  }

  lemma Pow2Eight(n: nat)
    ensures Pow2(n + 8) == 256 * Pow2(n)
  {
    assert Pow2(n + 8) == 16 * Pow2(n + 4) by {
      assert Pow2(n + 8) == 2 * Pow2(n + 7) && Pow2(n + 7) == 2 * Pow2(n + 6);
      assert Pow2(n + 6) == 2 * Pow2(n + 5) && Pow2(n + 5) == 2 * Pow2(n + 4);
    }
    assert Pow2(n + 4) == 2 * Pow2(n + 3) && Pow2(n + 3) == 2 * Pow2(n + 2);
    assert Pow2(n + 2) == 2 * Pow2(n + 1) && Pow2(n + 1) == 2 * Pow2(n);
  }

  // ------------------------------------------------------- value round trip

  lemma {:induction false} ValueBound(s: seq<byte>)
    ensures Value(s) < Pow2(8 * |s|)
  {
    if s != [] {
      ValueBound(s[..|s| - 1]);
      Pow2Eight(8 * (|s| - 1));
    }
  }

  lemma {:induction false} ValueOfFromValue(v: nat, n: nat)
    requires v < Pow2(8 * n)
    ensures Value(FromValue(v, n)) == v
  {
    if n > 0 {
      Pow2Eight(8 * (n - 1));
      ValueOfFromValue(v / 256, n - 1);
      assert FromValue(v, n)[..n - 1] == FromValue(v / 256, n - 1);
    }
  }

  lemma {:induction false} FromValueOfValue(s: seq<byte>)
    ensures FromValue(Value(s), |s|) == s
  {
    if s != [] {
      var h, l := s[..|s| - 1], s[|s| - 1];
      FromValueOfValue(h);
      assert Value(s) / 256 == Value(h) && Value(s) % 256 == l;
      assert s == h + [l];
    }
  }

  // Strings of one length are determined by the number they denote.
  lemma ValueInjective(s: seq<byte>, t: seq<byte>)
    requires |s| == |t| && Value(s) == Value(t)
    ensures s == t
  {
  }

  // ------------------------------------------------------------ mask = range

  lemma {:induction false} BitAndOnes(x: nat, w: nat)
    requires x < Pow2(w)
    ensures BitAnd(x, Pow2(w) - 1) == x
  {
    if w > 0 {
      var m := Pow2(w) - 1;
      assert m / 2 == Pow2(w - 1) - 1 && m % 2 == 1;
      BitAndOnes(x / 2, w - 1);
    }
  }

  lemma {:induction false} BlockOfSmall(x: nat, j: nat)
    ensures x < Pow2(j) ==> BlockStart(x, j) == 0
  {
    if j > 0 { BlockOfSmall(x / 2, j - 1); }
  }

  // A mask that clears the low j of w bits rounds down to the block start.
  lemma {:induction false} BitAndRoundsDown(x: nat, w: nat, j: nat)
    requires j <= w && x < Pow2(w)
    ensures Pow2(j) <= Pow2(w)
    ensures BitAnd(x, Pow2(w) - Pow2(j)) == BlockStart(x, j)
  {
    Pow2Grows(j, w);
    BlockOfSmall(x, j);
    if j == 0 {
      BitAndOnes(x, w);
    } else {
      var m := Pow2(w) - Pow2(j);
      Pow2Grows(j - 1, w - 1);
      assert m / 2 == Pow2(w - 1) - Pow2(j - 1) && m % 2 == 0;
      BitAndRoundsDown(x / 2, w - 1, j - 1);
    }
  }

  // v with the low k bits of l written after it.
  function Append(v: nat, l: nat, k: nat): nat {
    if k == 0 then v else 2 * Append(v, l / 2, k - 1) + l % 2
  }

  lemma AppendBits(v: nat, l: nat, k: nat)
    requires k <= 8 && l < [1, 2, 4, 8, 16, 32, 64, 128, 256][k]
    ensures Append(v, l, k) == [1, 2, 4, 8, 16, 32, 64, 128, 256][k] * v + l
  {
  }

  lemma AppendByte(v: nat, l: byte)
    ensures Append(v, l, 8) == 256 * v + l
  {
    AppendBits(v, l, 8);
  }

  lemma {:induction false} BlockStartAppend(v: nat, l: nat, j: nat, k: nat)
    ensures j >= k ==> BlockStart(Append(v, l, k), j) == Append(BlockStart(v, j - k), 0, k)
    ensures j <= k ==> BlockStart(Append(v, l, k), j) == Append(v, BlockStart(l, j), k)
  {
    if k > 0 && j > 0 {
      BlockStartAppend(v, l / 2, j - 1, k - 1);
    }
  }

  lemma {:induction false} BlockStartAtMost(x: nat, j: nat)
    ensures BlockStart(x, j) <= x
  {
    if j > 0 { BlockStartAtMost(x / 2, j - 1); }
  }

  // The block start of a number from those of its leading bytes and its last.
  lemma BlockStartByte(v: nat, l: byte, j: nat)
    ensures j >= 8 ==> BlockStart(256 * v + l, j) == 256 * BlockStart(v, j - 8)
    ensures j <= 8 ==> BlockStart(256 * v + l, j) == 256 * v + BlockStart(l, j)
  {
    AppendByte(v, l);
    BlockStartAppend(v, l, j, 8);
    if j >= 8 { AppendByte(BlockStart(v, j - 8), 0); }
    if j <= 8 {
      BlockStartAtMost(l, j);
      AppendByte(v, BlockStart(l, j));
    }
  }

  lemma MaskedLast(s: seq<byte>, p: nat)
    requires s != [] && p <= 8 * |s|
    ensures var n := |s|;
            var full := p > 8 * (n - 1);
            Masked(s, MaskBytes(p, n))
            == Masked(s[..n - 1], MaskBytes(if full then 8 * (n - 1) else p, n - 1))
               + [And(s[n - 1], MaskByte(if full then p - 8 * (n - 1) else 0))]
  {
  }

  lemma AndRoundsDown(l: byte, ones: nat)
    requires ones <= 8
    ensures And(l, MaskByte(ones)) == BlockStart(l, 8 - ones)
  {
    Pow2Table(8);
    BitAndRoundsDown(l, 8, 8 - ones);
  }

  lemma AndNone(l: byte)
    ensures And(l, MaskByte(0)) == 0
  {
    Pow2Table(8);
  }

  // The value of a masked string, when the mask ends before the last byte and
  // when it reaches into it.
  lemma MaskedShort(s: seq<byte>, p: nat)
    requires s != [] && p <= 8 * (|s| - 1)
    ensures Value(Masked(s, MaskBytes(p, |s|))) == 256 * Value(Masked(s[..|s| - 1], MaskBytes(p, |s| - 1)))
  {
    var n := |s|;
    var h, l := s[..n - 1], s[n - 1];
    MaskedLast(s, p);
    AndNone(l);
    var m := Masked(h, MaskBytes(p, n - 1));
    assert Masked(s, MaskBytes(p, n)) == m + [0];
    ValueSnoc(m, 0);
  }

  lemma MaskedLong(s: seq<byte>, p: nat)
    requires s != [] && 8 * (|s| - 1) < p <= 8 * |s|
    ensures Value(Masked(s, MaskBytes(p, |s|)))
            == 256 * Value(Masked(s[..|s| - 1], MaskBytes(8 * (|s| - 1), |s| - 1)))
               + BlockStart(s[|s| - 1], 8 * |s| - p)
  {
    var n := |s|;
    var l := s[n - 1];
    MaskedLast(s, p);
    AndRoundsDown(l, p - 8 * (n - 1));
    ValueSnoc(Masked(s[..n - 1], MaskBytes(8 * (n - 1), n - 1)), And(l, MaskByte(p - 8 * (n - 1))));
  }

  // Masking the first p bits of an n-byte string moves its value down to the
  // start of the block of 2^(8n-p) numbers around it.
  lemma {:induction false} MaskedValue(s: seq<byte>, p: nat)
    requires p <= 8 * |s|
    ensures Value(Masked(s, MaskBytes(p, |s|))) == BlockStart(Value(s), 8 * |s| - p)
  {
    if s != [] {
      var n := |s|;
      var h, l := s[..n - 1], s[n - 1];
      var v, j := Value(h), 8 * n - p;
      assert Value(s) == 256 * v + l;
      BlockStartByte(v, l, j);
      if j < 8 {
        MaskedValue(h, 8 * (n - 1));
        assert BlockStart(v, 0) == v;
        MaskedLong(s, p);
      } else {
        MaskedValue(h, p);
        MaskedShort(s, p);
      }
    }
  }

  lemma ValueSnoc(h: seq<byte>, l: byte)
    ensures Value(h + [l]) == 256 * Value(h) + l
  {
  }

  lemma {:induction false} BlockIsInterval(u: nat, v: nat, j: nat)
    ensures BlockStart(u, j) <= u < BlockStart(u, j) + Pow2(j)
    ensures BlockStart(u, j) == BlockStart(v, j)
            <==> BlockStart(u, j) <= v < BlockStart(u, j) + Pow2(j)
  {
    if j > 0 { BlockIsInterval(u / 2, v / 2, j - 1); }
  }

  lemma {:induction false} BlockFits(u: nat, j: nat, w: nat)
    requires j <= w && u < Pow2(w)
    ensures BlockStart(u, j) + Pow2(j) <= Pow2(w)
  {
    if j == 0 {
    } else {
      BlockFits(u / 2, j - 1, w - 1);
    }
  }

  // What IPNet.Contains computes, for a network and an address of one length.
  predicate Contains(net: seq<byte>, mask: seq<byte>, ip: seq<byte>)
    requires |net| == |mask| == |ip|
  {
    Masked(net, mask) == Masked(ip, mask)
  }

  lemma MaskedEqualIsSameBlock(net: seq<byte>, ip: seq<byte>, p: nat, j: nat)
    requires |net| == |ip| && p + j == 8 * |ip|
    ensures Masked(net, MaskBytes(p, |ip|)) == Masked(ip, MaskBytes(p, |ip|))
            <==> BlockStart(Value(net), j) == BlockStart(Value(ip), j)
  {
    var s, t := Masked(net, MaskBytes(p, |ip|)), Masked(ip, MaskBytes(p, |ip|));
    MaskedValue(net, p);
    MaskedValue(ip, p);
    assert Value(s) == BlockStart(Value(net), j) && Value(t) == BlockStart(Value(ip), j);
    if Value(s) == Value(t) {
      ValueInjective(s, t);
    }
  }

  // The byte-wise mask test is an interval test on values.
  lemma ContainsIsRange(net: seq<byte>, p: nat, ip: seq<byte>, j: nat)
    requires |net| == |ip| && p + j == 8 * |ip|
    ensures Contains(net, MaskBytes(p, |ip|), ip)
            <==> BlockStart(Value(net), j) <= Value(ip) < BlockStart(Value(net), j) + Pow2(j)
  {
    MaskedEqualIsSameBlock(net, ip, p, j);
    BlockIsInterval(Value(net), Value(ip), j);
  }

  // ----------------------------------------------------------- the carry loop

  // One more, modulo 256^n.
  function Successor(v: nat, n: nat): nat {
    if v + 1 == Pow2(8 * n) then 0 else v + 1
  }

  function Incremented(s: seq<byte>): (r: seq<byte>)
    ensures |r| == |s|
  {
    FromValue(Successor(Value(s), |s|), |s|)
  }

  lemma IncrementedValue(s: seq<byte>)
    ensures Value(Incremented(s)) == Successor(Value(s), |s|)
  {
    ValueBound(s);
    ValueOfFromValue(Successor(Value(s), |s|), |s|);
  }

  lemma NextIsIncremented(was: seq<byte>, now: seq<byte>)
    requires |was| == |now| && Value(now) == Successor(Value(was), |was|)
    ensures now == Incremented(was)
  {
    FromValueOfValue(now);
  }

  // Add one in place, carrying from the last byte towards the first; past the
  // largest value it wraps to all zeros.
  method AddOffsetToIP(ip: array<byte>)
    modifies ip
    ensures Value(ip[..]) == Successor(Value(old(ip[..])), ip.Length)
    ensures ip[..] == Incremented(old(ip[..]))
  {
    ghost var was := ip[..];
    var n := ip.Length;
    var j := n - 1;
    while j >= 0
      invariant -1 <= j < n
      invariant ip[..j + 1] == was[..j + 1]
      invariant forall i :: j < i < n ==> was[i] == 255 && ip[i] == 0
    {
      var b: int := ip[j];
      ip[j] := (b + 1) % 256;
      if ip[j] > 0 {
        assert was[j] == was[..j + 1][j];
        CarryStops(was, ip[..], j);
        NextIsIncremented(was, ip[..]);
        return;
      }
      assert was[j] == was[..j + 1][j];
      j := j - 1;
    }
    AllOnesWrap(was, ip[..]);
    NextIsIncremented(was, ip[..]);
  }

  lemma {:induction false} CarryStops(was: seq<byte>, now: seq<byte>, j: nat)
    requires |was| == |now| && j < |was|
    requires was[..j] == now[..j] && was[j] < 255 && now[j] == was[j] + 1
    requires forall i :: j < i < |was| ==> was[i] == 255 && now[i] == 0
    ensures Value(now) == Value(was) + 1 < Pow2(8 * |was|)
  {
    var n := |was|;
    ValueBound(now);
    if j < n - 1 {
      assert was[..n - 1][..j] == was[..j] && now[..n - 1][..j] == now[..j];
      CarryStops(was[..n - 1], now[..n - 1], j);
    }
  }

  lemma {:induction false} AllOnesWrap(was: seq<byte>, now: seq<byte>)
    requires |was| == |now|
    requires forall i :: 0 <= i < |was| ==> was[i] == 255 && now[i] == 0
    ensures Value(was) + 1 == Pow2(8 * |was|) && Value(now) == 0
  {
    var n := |was|;
    if n > 0 {
      AllOnesWrap(was[..n - 1], now[..n - 1]);
      Pow2Eight(8 * (n - 1));
    }
  }
}
