// IPv4 text: the canonical dotted-decimal form that Go's IP.String prints, and
// what ParseIP and ParseCIDR accept of it (Go 1.17: no leading zeros in a field
// of an address, leading zeros allowed in a prefix length).
module Ipv4 {
  import opened Wrappers
  import opened Bytes

  // An address with a prefix length, as ParseCIDR reads it.
  datatype Cidr = Cidr(addr: seq<byte>, prefix: nat) {
    predicate Valid() {
      |addr| == 4 && prefix <= 32
    }
  }

  // ----------------------------------------------------------------- decimals

  predicate IsDigit(c: char) {
    '0' <= c <= '9'
  }

  function DigitOf(d: nat): (c: char)
    requires d < 10
    ensures IsDigit(c) && DigitValue(c) == d
  {
    "0123456789"[d]
  }

  function DigitValue(c: char): (d: nat)
    requires IsDigit(c)
    ensures d < 10 && c == "0123456789"[d]
  {
    c as int - 48
  }

  function Decimal(n: nat): (s: string)
    ensures s != []
  {
    if n < 10 then [DigitOf(n)] else Decimal(n / 10) + [DigitOf(n % 10)]
  }

  // How many digits the string starts with.
  function DigitRun(s: string): (c: nat)
    ensures c <= |s|
    ensures forall i :: 0 <= i < c ==> IsDigit(s[i])
    ensures c < |s| ==> !IsDigit(s[c])
  {
    if s != [] && IsDigit(s[0]) then 1 + DigitRun(s[1..]) else 0
  }

  function DecimalValue(s: string): nat
    requires forall i :: 0 <= i < |s| ==> IsDigit(s[i])
  {
    if s == [] then 0
    else 10 * DecimalValue(s[..|s| - 1]) + DigitValue(s[|s| - 1])
  }

  lemma {:induction false} DecimalRoundTrip(n: nat)
    ensures var s := Decimal(n);
            && (forall i :: 0 <= i < |s| ==> IsDigit(s[i]))
            && DecimalValue(s) == n
            && (|s| > 1 ==> s[0] != '0')
  {
    if n >= 10 {
      DecimalRoundTrip(n / 10);
      var s := Decimal(n);
      assert s[..|s| - 1] == Decimal(n / 10);
      if |Decimal(n / 10)| == 1 { assert n / 10 < 10; }
    }
  }

  lemma {:induction false} DecimalPositive(s: string)
    requires s != [] && (forall i :: 0 <= i < |s| ==> IsDigit(s[i])) && s[0] != '0'
    ensures DecimalValue(s) > 0
  {
    if |s| > 1 { DecimalPositive(s[..|s| - 1]); }
  }

  lemma DecimalAppend(a: nat, c: char)
    requires a > 0 && IsDigit(c)
    ensures Decimal(10 * a + DigitValue(c)) == Decimal(a) + [c]
  {
  }

  lemma {:induction false} DecimalOfValue(s: string)
    requires s != [] && (forall i :: 0 <= i < |s| ==> IsDigit(s[i]))
    requires |s| > 1 ==> s[0] != '0'
    ensures Decimal(DecimalValue(s)) == s
  {
    var h, l := s[..|s| - 1], s[|s| - 1];
    if |s| == 1 {
      DecimalOfDigit(l);
    } else {
      DecimalOfValue(h);
      DecimalPositive(h);
      DecimalOfAppend(h, l);
    }
    assert s == h + [l];
  }

  lemma DecimalOfAppend(h: string, l: char)
    requires (forall i :: 0 <= i < |h| ==> IsDigit(h[i])) && IsDigit(l)
    requires DecimalValue(h) > 0 && Decimal(DecimalValue(h)) == h
    ensures forall i :: 0 <= i < |h + [l]| ==> IsDigit((h + [l])[i])
    ensures Decimal(DecimalValue(h + [l])) == h + [l]
  {
    DecimalValueAppend(h, l);
    DecimalAppend(DecimalValue(h), l);
  }

  lemma DecimalOfDigit(c: char)
    requires IsDigit(c)
    ensures Decimal(DecimalValue([c])) == [c]
  {
    assert [c][..0] == "";
  }

  lemma DecimalValueAppend(h: string, l: char)
    requires (forall i :: 0 <= i < |h| ==> IsDigit(h[i])) && IsDigit(l)
    ensures DecimalValue(h + [l]) == 10 * DecimalValue(h) + DigitValue(l)
  {
    assert (h + [l])[..|h|] == h;
  }

  lemma {:induction false} DigitRunOf(d: string, rest: string)
    requires forall i :: 0 <= i < |d| ==> IsDigit(d[i])
    requires rest != [] ==> !IsDigit(rest[0])
    ensures DigitRun(d + rest) == |d|
  {
    if d == [] {
      assert d + rest == rest;
    } else {
      assert (d + rest)[1..] == d[1..] + rest;
      DigitRunOf(d[1..], rest);
    }
  }

  // ---------------------------------------------------------------- addresses

  // The text of one or more bytes: decimal fields with dots between them.
  function FieldsText(a: seq<byte>): string
    requires a != []
    decreases |a|, 1
  {
    Decimal(a[0]) + TailText(a[1..])
  }

  function TailText(a: seq<byte>): string
    decreases |a|, 2
  {
    if a == [] then "" else "." + FieldsText(a)
  }

  function Text(a: seq<byte>): string
    requires |a| == 4
  {
    FieldsText(a)
  }

  // Read one decimal field of at most 255 without leading zeros.
  function ReadField(s: string): Option<(byte, string)> {
    var c := DigitRun(s);
    if c == 0 || DecimalValue(s[..c]) > 255 || (c > 1 && s[0] == '0') then None
    else Some((DecimalValue(s[..c]), s[c..]))
  }

  // Read k fields that make up the whole string.
  function ParseFields(s: string, k: nat): (r: Option<seq<byte>>)
    requires k >= 1
    ensures r.Some? ==> |r.value| == k
    decreases k, s, 1
  {
    var f := ReadField(s);
    if f.None? then None
    else
      var rest := ParseTail(f.value.1, k - 1);
      if rest.None? then None else Some([f.value.0] + rest.value)
  }

  function ParseTail(s: string, k: nat): (r: Option<seq<byte>>)
    ensures r.Some? ==> |r.value| == k
    decreases k, s, 2
  {
    if k == 0 then if s == "" then Some([]) else None
    else if s == "" || s[0] != '.' then None
    else ParseFields(s[1..], k)
  }

  function ParseIP(s: string): (r: Option<seq<byte>>)
    ensures r.Some? ==> |r.value| == 4
  {
    ParseFields(s, 4)
  }

  lemma ReadFieldOf(b: byte, rest: string)
    requires rest != [] ==> !IsDigit(rest[0])
    ensures ReadField(Decimal(b) + rest) == Some((b, rest))
  {
    var d := Decimal(b);
    DecimalRoundTrip(b);
    DigitRunOf(d, rest);
    assert (d + rest)[..|d|] == d && (d + rest)[|d|..] == rest;
  }

  lemma ReadFieldSplits(s: string)
    ensures var f := ReadField(s); f.Some? ==> s == Decimal(f.value.0) + f.value.1
  {
    var c := DigitRun(s);
    if ReadField(s).Some? {
      DecimalOfValue(s[..c]);
      assert s == s[..c] + s[c..];
    }
  }

  lemma TailStart(a: seq<byte>)
    ensures a != [] ==> TailText(a) != "" && TailText(a)[0] == '.'
  {
  }

  lemma ParsesOneField(b: byte, bs: seq<byte>)
    requires ParseTail(TailText(bs), |bs|) == Some(bs)
    ensures ParseFields(Decimal(b) + TailText(bs), |bs| + 1) == Some([b] + bs)
  {
    TailStart(bs);
    ReadFieldOf(b, TailText(bs));
  }

  lemma {:induction false} ParsesFieldsText(a: seq<byte>)
    requires a != []
    ensures ParseFields(FieldsText(a), |a|) == Some(a)
    decreases |a|, 1
  {
    ParsesTailText(a[1..]);
    ParsesOneField(a[0], a[1..]);
    assert [a[0]] + a[1..] == a;
  }

  lemma {:induction false} ParsesTailText(a: seq<byte>)
    ensures ParseTail(TailText(a), |a|) == Some(a)
    decreases |a|, 2
  {
    if a != [] {
      ParsesFieldsText(a);
      assert TailText(a)[1..] == FieldsText(a);
    }
  }

  lemma {:induction false} ParsedIsFieldsText(s: string, k: nat)
    requires k >= 1 && ParseFields(s, k).Some?
    ensures s == FieldsText(ParseFields(s, k).value)
    decreases k, s, 1
  {
    ReadFieldSplits(s);
    var (b, rest) := ReadField(s).value;
    var bs := ParseTail(rest, k - 1).value;
    ParsedIsTailText(rest, k - 1);
    assert ([b] + bs)[1..] == bs;
  }

  lemma {:induction false} ParsedIsTailText(s: string, k: nat)
    requires ParseTail(s, k).Some?
    ensures s == TailText(ParseTail(s, k).value)
    decreases k, s, 2
  {
    if k > 0 {
      ParsedIsFieldsText(s[1..], k);
      assert s == "." + s[1..];
    }
  }

  // Reading accepts exactly the canonical text, and reads it back as the bytes
  // it was printed from.
  lemma ParseTextRoundTrip(s: string, a: seq<byte>)
    requires |a| == 4
    ensures ParseIP(s) == Some(a) <==> s == Text(a)
  {
    ParsesFieldsText(a);
    if ParseIP(s) == Some(a) { ParsedIsFieldsText(s, 4); }
  }

  lemma TextHasNoSlash(a: seq<byte>)
    requires |a| == 4
    ensures '/' !in Text(a)
  {
    FieldsHaveNoSlash(a);
  }

  lemma {:induction false} FieldsHaveNoSlash(a: seq<byte>)
    requires a != []
    ensures '/' !in FieldsText(a)
  {
    DecimalRoundTrip(a[0]);
    if |a| > 1 { FieldsHaveNoSlash(a[1..]); }
  }

  lemma TextInjective(a: seq<byte>, b: seq<byte>)
    requires |a| == |b| == 4 && Text(a) == Text(b)
    ensures a == b
  {
    ParseTextRoundTrip(Text(a), a);
    ParseTextRoundTrip(Text(a), b);
  }

  // -------------------------------------------------------------------- CIDR

  // The position of the first c in s, or |s|.
  function IndexOf(s: string, c: char): (i: nat)
    ensures i <= |s|
    ensures i < |s| ==> s[i] == c
    ensures forall k :: 0 <= k < i ==> s[k] != c
  {
    if s == [] || s[0] == c then 0 else 1 + IndexOf(s[1..], c)
  }

  function ParseCIDR(s: string): (r: Option<Cidr>)
    ensures r.Some? ==> r.value.Valid()
  {
    var i := IndexOf(s, '/');
    if i == |s| then None
    else
      var addr, bits := ParseIP(s[..i]), s[i + 1..];
      if addr.None? || bits == [] || DigitRun(bits) < |bits| then None
      else
        var p := DecimalValue(bits);
        if p > 32 then None else Some(Cidr(addr.value, p))
  }

  function Zeros(k: nat): string {
    seq(k, _ => '0')
  }

  lemma {:induction false} LeadingZero(s: string)
    requires forall i :: 0 <= i < |s| ==> IsDigit(s[i])
    ensures forall i :: 0 <= i < |"0" + s| ==> IsDigit(("0" + s)[i])
    ensures DecimalValue("0" + s) == DecimalValue(s)
  {
    if s == "" {
      assert "0" + s == [] + ['0'];
      DecimalValueAppend([], '0');
    } else {
      var h, l := s[..|s| - 1], s[|s| - 1];
      LeadingZero(h);
      assert s == h + [l] && "0" + s == ("0" + h) + [l];
      DecimalValueAppend(h, l);
      DecimalValueAppend("0" + h, l);
    }
  }

  lemma {:induction false} LeadingZeros(k: nat, s: string)
    requires forall i :: 0 <= i < |s| ==> IsDigit(s[i])
    ensures forall i :: 0 <= i < |Zeros(k) + s| ==> IsDigit((Zeros(k) + s)[i])
    ensures DecimalValue(Zeros(k) + s) == DecimalValue(s)
  {
    if k == 0 {
      assert Zeros(k) + s == s;
    } else {
      LeadingZeros(k - 1, s);
      LeadingZero(Zeros(k - 1) + s);
      assert Zeros(k) + s == "0" + (Zeros(k - 1) + s);
    }
  }

  // Every run of digits is the canonical text of its value after some zeros.
  lemma {:induction false} DigitsAreZerosAndDecimal(s: string) returns (k: nat)
    requires s != "" && forall i :: 0 <= i < |s| ==> IsDigit(s[i])
    ensures s == Zeros(k) + Decimal(DecimalValue(s))
    decreases |s|
  {
    if |s| == 1 || s[0] != '0' {
      k := 0;
      DecimalOfValue(s);
    } else {
      var t := s[1..];
      var m := DigitsAreZerosAndDecimal(t);
      assert s == "0" + t;
      LeadingZero(t);
      k := m + 1;
      assert Zeros(k) == "0" + Zeros(m);
    }
  }

  function CidrText(a: seq<byte>, k: nat, p: nat): string
    requires |a| == 4
  {
    Text(a) + "/" + (Zeros(k) + Decimal(p))
  }

  // ParseCIDR reads address a and prefix length p exactly from the canonical text
  // of a, a slash, and the digits of p, which may have zeros before them.
  lemma ParseCIDRExactly(s: string, a: seq<byte>, p: nat)
    requires |a| == 4
    ensures ParseCIDR(s) == Some(Cidr(a, p)) <==> p <= 32 && exists k :: s == CidrText(a, k, p)
  {
    if ParseCIDR(s) == Some(Cidr(a, p)) {
      var k := ParsedIsCidrText(s, a, p);
    }
    if k :| p <= 32 && s == CidrText(a, k, p) {
      ParsesCidrText(a, k, p);
    }
  }

  lemma ParsesCidrText(a: seq<byte>, k: nat, p: nat)
    requires |a| == 4 && p <= 32
    ensures ParseCIDR(CidrText(a, k, p)) == Some(Cidr(a, p))
  {
    var s, bits := CidrText(a, k, p), Zeros(k) + Decimal(p);
    TextHasNoSlash(a);
    SlashAfter(Text(a), bits);
    ParseTextRoundTrip(Text(a), a);
    assert s[..|Text(a)|] == Text(a) && s[|Text(a)| + 1..] == bits;
    DecimalRoundTrip(p);
    LeadingZeros(k, Decimal(p));
    DigitRunOf(bits, "");
    assert bits + "" == bits;
  }

  lemma SlashAfter(t: string, rest: string)
    requires '/' !in t
    ensures IndexOf(t + "/" + rest, '/') == |t|
  {
    var s := t + "/" + rest;
    assert s[|t|] == '/';
    assert forall k :: 0 <= k < |t| ==> s[k] == t[k];
  }

  lemma ParsedIsCidrText(s: string, a: seq<byte>, p: nat) returns (k: nat)
    requires |a| == 4 && ParseCIDR(s) == Some(Cidr(a, p))
    ensures p <= 32 && s == CidrText(a, k, p)
  {
    var i := IndexOf(s, '/');
    var bits := s[i + 1..];
    ParseTextRoundTrip(s[..i], a);
    k := DigitsAreZerosAndDecimal(bits);
    assert s == s[..i] + [s[i]] + bits;
  }
}
