// pkg/util/machines.go: BIOS UUIDs and provider IDs. The two patterns ignore case;
// under Go's simple folding the prefix letter s also matches U+017F.
module ProviderId {
  import opened Wrappers

  const PREFIX := "ics://"

  predicate IsHex(c: char) {
    '0' <= c <= '9' || 'a' <= c <= 'f' || 'A' <= c <= 'F'
  }

  // 8-4-4-4-12 hexadecimal digits.
  predicate IsUUID(s: string) {
    |s| == 36 && forall i :: 0 <= i < 36 ==> if i in {8, 13, 18, 23} then s[i] == '-' else IsHex(s[i])
  }

  predicate FoldsTo(c: char, p: char) {
    || c == p
    || (p == 'i' && c == 'I') || (p == 'c' && c == 'C') || (p == 's' && c in {'S', '\U{017F}'})
  }

  predicate IsProviderID(s: string) {
    |s| == 42 && (forall i :: 0 <= i < 6 ==> FoldsTo(s[i], PREFIX[i])) && IsUUID(s[6..])
  }

  function ConvertUUIDToProviderID(uuid: string): string {
    if uuid == "" || !IsUUID(uuid) then "" else PREFIX + uuid
  }

  function ConvertProviderIDToUUID(providerID: Option<string>): string {
    if providerID.None? || !IsProviderID(providerID.value) then "" else providerID.value[6..]
  }

  // Decoding an encoded UUID gives it back, and gives nothing for anything else.
  lemma DecodeEncode(uuid: string)
    ensures ConvertProviderIDToUUID(Some(ConvertUUIDToProviderID(uuid))) == if IsUUID(uuid) then uuid else ""
  {
  }

  // Encoding a decoded provider ID gives it back exactly when it is valid and its
  // prefix is in lower case.
  lemma EncodeDecode(p: string)
    ensures ConvertUUIDToProviderID(ConvertProviderIDToUUID(Some(p))) == p
            <==> p == "" || (IsProviderID(p) && p[..6] == PREFIX)
  {
  }

  lemma EncodeInjective(u: string, v: string)
    requires IsUUID(u) && IsUUID(v) && ConvertUUIDToProviderID(u) == ConvertUUIDToProviderID(v)
    ensures u == v
  {
    DecodeEncode(u);
    DecodeEncode(v);
  }

  // A valid UUID is 36 characters: hexadecimal digits of either case, in groups of
  // 8, 4, 4, 4 and 12 with dashes between them.
  lemma UUIDExactly(s: string)
    ensures IsUUID(s) <==>
              exists a, b, c, d, e ::
                && HexRun(a, 8) && HexRun(b, 4) && HexRun(c, 4) && HexRun(d, 4) && HexRun(e, 12)
                && s == Dashed(a, b, c, d, e)
  {
    if IsUUID(s) {
      HexSlice(s, 0, 8);
      HexSlice(s, 9, 13);
      HexSlice(s, 14, 18);
      HexSlice(s, 19, 23);
      HexSlice(s, 24, 36);
      assert s == Dashed(s[0..8], s[9..13], s[14..18], s[19..23], s[24..36]);
    }
    if a, b, c, d, e :| && HexRun(a, 8) && HexRun(b, 4) && HexRun(c, 4) && HexRun(d, 4) && HexRun(e, 12)
                        && s == Dashed(a, b, c, d, e) {
      DashedIsUUID(a, b, c, d, e);
    }
  }

  lemma HexSlice(s: string, lo: nat, hi: nat)
    requires lo <= hi <= |s| && forall i :: lo <= i < hi ==> IsHex(s[i])
    ensures HexRun(s[lo..hi], hi - lo)
  {
    forall x | x in s[lo..hi] ensures x in "0123456789abcdefABCDEF" {
      HexExactly(x);
    }
  }

  lemma HexExactly(x: char)
    ensures IsHex(x) <==> x in "0123456789abcdefABCDEF"
  {
    if IsHex(x) {
      var k := if x <= '9' then x as int - '0' as int
               else if x >= 'a' then x as int - 'a' as int + 10 else x as int - 'A' as int + 16;
      assert "0123456789abcdefABCDEF"[k] == x;
    }
  }

  lemma DashedIsUUID(a: string, b: string, c: string, d: string, e: string)
    requires HexRun(a, 8) && HexRun(b, 4) && HexRun(c, 4) && HexRun(d, 4) && HexRun(e, 12)
    ensures IsUUID(Dashed(a, b, c, d, e))
  {
    var s := Dashed(a, b, c, d, e);
    forall i | 0 <= i < 36 ensures if i in {8, 13, 18, 23} then s[i] == '-' else IsHex(s[i]) {
      if i !in {8, 13, 18, 23} {
        assert s[i] == if i < 8 then a[i] else if i < 13 then b[i - 9] else if i < 18 then c[i - 14]
                       else if i < 23 then d[i - 19] else e[i - 24];
        HexExactly(s[i]);
      }
    }
  }

  predicate HexRun(s: string, n: nat) {
    |s| == n && forall c :: c in s ==> c in "0123456789abcdefABCDEF"
  }

  function Dashed(a: string, b: string, c: string, d: string, e: string): string {
    a + "-" + b + "-" + c + "-" + d + "-" + e
  }

  // A UUID is encoded as "ics://" and itself; anything else as nothing.
  lemma EncodeExactly(uuid: string)
    ensures ConvertUUIDToProviderID(uuid) == if IsUUID(uuid) then "ics://" + uuid else ""
  {
  }

  // A provider ID is decoded to UUID u exactly when it is u after "ics://" in upper
  // or lower case, where a long s stands for an s.
  lemma DecodeExactly(p: string, u: string)
    requires u != ""
    ensures ConvertProviderIDToUUID(Some(p)) == u
            <==> && IsUUID(u)
                 && exists i, c, s :: i in "iI" && c in "cC" && s in "sS\U{017F}" && p == [i, c, s] + "://" + u
  {
    if ConvertProviderIDToUUID(Some(p)) == u {
      assert FoldsTo(p[0], 'i') && FoldsTo(p[1], 'c') && FoldsTo(p[2], 's') && p[3] == ':' && p[4] == '/' && p[5] == '/';
      assert p == [p[0], p[1], p[2]] + "://" + p[6..];
    }
    if i, c, s :| i in "iI" && c in "cC" && s in "sS\U{017F}" && p == [i, c, s] + "://" + u {
      assert p[6..] == u;
    }
  }
}
