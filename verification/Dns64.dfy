/**
  Reverse mapping of DNS64 addresses (bin/named/builtin.c): an ip6.arpa name below a DNS64 prefix is
  answered with a CNAME to the in-addr.arpa name of the embedded IPv4 address (RFC 6052, RFC 6147).
 */
module Dns64 {
  import opened Names

  /** A name that is not there, an empty node, a CNAME, or the zone's own apex. */
  datatype Answer = NotFound | EmptyNode | Cname(rdata: Bytes) | Apex

  /** The `hex16` table: sixteen times the digit, or 1. */
  function Hex16(c: Byte): (n: Byte)
    ensures n == 1 || n % 16 == 0
  {
    if 48 <= c <= 57 then 16 * (c - 48)
    else if 65 <= c <= 70 then 16 * (c - 55)
    else if 97 <= c <= 102 then 16 * (c - 87)
    else 1
  }

  const IN_ADDR_ARPA: Bytes :=
    [7, 105, 110, 45, 97, 100, 100, 114, 4, 97, 114, 112, 97, 0]

  const RDATA_SIZE := 30

  // ----- what a name means

  /** The wire form of a relative name all of whose labels are single hex digits. */
  ghost predicate IsNibbleName(ndata: Bytes) {
    && |ndata| % 2 == 0
    && forall k :: 0 <= k < |ndata| / 2 ==> ndata[2 * k] == 1 && Hex16(ndata[2 * k + 1]) != 1
  }

  /** Digit `k` of a nibble name, counted from its first label, which is the least significant. */
  function Digit(ndata: Bytes, k: int): (d: nat)
    requires 0 <= k < |ndata| / 2
    ensures d < 16
  {
    Hex16(ndata[2 * k + 1]) / 16
  }

  /** Nibbles of the address that the zone's own name covers. */
  function ZoneNibbles(zlen: nat): int { (zlen - 10) / 2 }

  /** The zone lengths for prefixes of 32, 40, 48, 56, 64 and 96 bits. */
  predicate IsPrefixZone(zlen: nat) { zlen in {26, 30, 34, 38, 42, 58} }

  /** Address nibble `a`, counted from the top, as spelled by a name below the zone. */
  ghost function AddressNibble(zlen: nat, ndata: Bytes, a: int): nat
    requires ZoneNibbles(zlen) <= a < ZoneNibbles(zlen) + |ndata| / 2
  {
    Digit(ndata, |ndata| / 2 - 1 - (a - ZoneNibbles(zlen)))
  }

  /** The nibbles of the "u" octet, bits 64 to 71, are zero as far as the name spells them. */
  ghost predicate UOctetZero(zlen: nat, ndata: Bytes) {
    forall a :: 16 <= a <= 17 && ZoneNibbles(zlen) <= a < ZoneNibbles(zlen) + |ndata| / 2 ==>
                  AddressNibble(zlen, ndata, a) == 0
  }

  ghost predicate NameExists(zlen: nat, ndata: Bytes) {
    && IsPrefixZone(zlen)
    && IsNibbleName(ndata)
    && ZoneNibbles(zlen) + |ndata| / 2 <= 32
    && UOctetZero(zlen, ndata)
  }

  /** Where octet `k` of the IPv4 address stands in the IPv6 address: section 2.2 of RFC 6052. */
  function V4Position(zlen: nat, k: nat): (p: int) {
    var first := ZoneNibbles(zlen) / 2;
    if first <= 8 <= first + k then first + k + 1 else first + k
  }

  ghost function AddressOctet(zlen: nat, ndata: Bytes, p: int): Byte
    requires ZoneNibbles(zlen) <= 2 * p && 2 * p + 1 < ZoneNibbles(zlen) + |ndata| / 2
  {
    16 * AddressNibble(zlen, ndata, 2 * p) + AddressNibble(zlen, ndata, 2 * p + 1)
  }

  function Decimal(c: Byte): (s: Bytes)
    ensures 1 <= |s| <= 3
  {
    if c > 99 then [48 + c / 100, 48 + c % 100 / 10, 48 + c % 10]
    else if c > 9 then [48 + c / 10, 48 + c % 10]
    else [48 + c]
  }

  /** An octet as a label. */
  function Label(c: Byte): (s: Bytes)
    ensures 2 <= |s| <= 4
  {
    [|Decimal(c)|] + Decimal(c)
  }

  /** Reading a label back: the printed digits are the octet in decimal, without leading zeros. */
  lemma LabelReadsBack(c: Byte)
    ensures var s := Decimal(c);
            && (forall i :: 0 <= i < |s| ==> 48 <= s[i] <= 57)
            && (|s| > 1 ==> s[0] != 48)
            && c == (if |s| == 1 then s[0] - 48
                     else if |s| == 2 then 10 * (s[0] - 48) + (s[1] - 48)
                     else 100 * (s[0] - 48) + 10 * (s[1] - 48) + (s[2] - 48))
  {
    assert c == 100 * (c / 100) + c % 100;
    assert c % 100 % 10 == c % 10;
  }

  ghost function Labels(cs: seq<Byte>): (s: Bytes)
    ensures |s| <= 4 * |cs|
  {
    if cs == [] then [] else Labels(cs[..|cs| - 1]) + Label(cs[|cs| - 1])
  }

  /** The CNAME target for IPv4 octets a.b.c.d: d.c.b.a.in-addr.arpa. */
  ghost function InAddrArpa(v4: seq<Byte>): Bytes
    requires |v4| == 4
  {
    Labels([v4[3], v4[2], v4[1], v4[0]]) + IN_ADDR_ARPA
  }

  ghost function EmbeddedV4(zlen: nat, ndata: Bytes): (v4: seq<Byte>)
    requires IsPrefixZone(zlen) && ZoneNibbles(zlen) + |ndata| / 2 == 32
    ensures |v4| == 4
  {
    [AddressOctet(zlen, ndata, V4Position(zlen, 0)), AddressOctet(zlen, ndata, V4Position(zlen, 1)),
     AddressOctet(zlen, ndata, V4Position(zlen, 2)), AddressOctet(zlen, ndata, V4Position(zlen, 3))]
  }

  /** What a lookup should answer, by the meaning of the name. */
  ghost function Meaning(zlen: nat, ndata: Bytes): Answer {
    if ndata == [] then Apex
    else if !NameExists(zlen, ndata) then NotFound
    else if ZoneNibbles(zlen) + |ndata| / 2 < 32 then EmptyNode
    else Cname(InAddrArpa(EmbeddedV4(zlen, ndata)))
  }

  // ----- the code

  /** Writes one octet as a label. */
  method PutLabel(octet: Byte, rdata: array<Byte>, j: nat) returns (next: nat)
    requires j + 4 <= rdata.Length
    modifies rdata
    ensures j < next <= j + 4 && rdata[..next] == old(rdata[..j]) + Label(octet)
  {
    var c := octet;
    next := j;
    assert octet % 100 % 10 == octet % 10;
    if c > 99 {
      rdata[next] := 3;
      rdata[next + 1] := 48 + c / 100;
      c := c % 100;
      rdata[next + 2] := 48 + c / 10;
      c := c % 10;
      rdata[next + 3] := 48 + c;
      next := next + 4;
      assert rdata[j..next] == [3, 48 + octet / 100, 48 + octet % 100 / 10, 48 + octet % 10];
    } else if c > 9 {
      rdata[next] := 2;
      rdata[next + 1] := 48 + c / 10;
      c := c % 10;
      rdata[next + 2] := 48 + c;
      next := next + 3;
      assert rdata[j..next] == [2, 48 + octet / 10, 48 + octet % 10];
    } else {
      rdata[next] := 1;
      rdata[next + 1] := 48 + c;
      next := next + 2;
    }
    assert rdata[j..next] == Label(octet);
    assert rdata[..next] == rdata[..j] + rdata[j..next];
  }

  /** `dns64_rdata`: four labels and the suffix, never past the end of the buffer. */
  method Dns64Rdata(v: array<Byte>, start: nat, rdata: array<Byte>, ghost cs: seq<Byte>) returns (len: nat)
    requires v.Length == 16 && rdata.Length == RDATA_SIZE && v != rdata
    requires start in {0, 3, 4, 5, 6, 8} && |cs| == 4
    requires forall i :: 0 <= i < 4 ==> cs[i] == v[if start < 7 <= start + i then start + i + 1 else start + i]
    modifies rdata
    ensures len <= RDATA_SIZE && rdata[..len] == Labels(cs) + IN_ADDR_ARPA
  {
    hide Label;
    var at, j := start, 0;
    for i := 0 to 4
      invariant at == if start < 7 <= start + i then start + i + 1 else start + i
      invariant 0 <= j <= 4 * i && rdata[..j] == Labels(cs[..i])
    {
      var c := v[at];
      at := at + 1;
      if at == 7 {
        at := at + 1;
      }
      assert cs[..i + 1][..i] == cs[..i];
      j := PutLabel(c, rdata, j);
    }
    assert cs[..4] == cs;
    len := PutSuffix(rdata, j);
  }

  /** Copies the fixed suffix. */
  method PutSuffix(rdata: array<Byte>, j: nat) returns (len: nat)
    requires j + 14 <= rdata.Length
    modifies rdata
    ensures len == j + 14 && rdata[..len] == old(rdata[..j]) + IN_ADDR_ARPA
  {
    for k := 0 to 14
      invariant rdata[..j] == old(rdata[..j])
      invariant rdata[j..j + k] == IN_ADDR_ARPA[..k]
    {
      rdata[j + k] := IN_ADDR_ARPA[k];
    }
    len := j + 14;
    assert rdata[..len] == rdata[..j] + rdata[j..j + 14];
  }

  /** Byte `b` of the working array once `i` half-bytes, the first `s` of them skipped, have been shifted in. */
  ghost function Shifted(ndata: Bytes, s: nat, i: int, b: int): int
    requires s <= 1 && 0 <= b && i - s <= |ndata| / 2
  {
    if 2 * b + 1 < i then 16 * HalfByte(ndata, s, 2 * b + 1) + HalfByte(ndata, s, 2 * b)
    else if 2 * b < i then 16 * HalfByte(ndata, s, 2 * b)
    else 0
  }

  ghost function HalfByte(ndata: Bytes, s: nat, h: int): nat
    requires s <= 1 && 0 <= h && h - s < |ndata| / 2
  {
    if h < s then 0 else Digit(ndata, h - s)
  }

  lemma ShiftStart(ndata: Bytes, s: nat, b: int)
    requires s <= 1 && 0 <= b
    ensures Shifted(ndata, s, s, b) == 0
  {
  }

  /** Shifting one more half-byte in changes one byte of the working array. */
  lemma ShiftStep(ndata: Bytes, s: nat, i: nat, b: int)
    requires s <= 1 && 0 <= b && s <= i && i + 1 - s <= |ndata| / 2
    ensures Shifted(ndata, s, i + 1, b) ==
            if b == i / 2 then 16 * HalfByte(ndata, s, i) + Shifted(ndata, s, i, b) / 16 else Shifted(ndata, s, i, b)
  {
  }

  /** The first `n` labels are single hex digits. */
  ghost predicate NibblesTo(ndata: Bytes, n: int)
    requires n <= |ndata| / 2
  {
    forall k :: 0 <= k < n ==> ndata[2 * k] == 1 && Hex16(ndata[2 * k + 1]) != 1
  }

  /** One label, as the loop reads it. */
  lemma NibbleAt(ndata: Bytes, s: nat, k: nat)
    requires k < |ndata| / 2 && |ndata| % 2 == 0 && s <= 1 && NibblesTo(ndata, k)
    ensures var n := Hex16(ndata[2 * k + 1]);
            && (ndata[2 * k] == 1 && n != 1 ==>
                  NibblesTo(ndata, k + 1) && n == 16 * HalfByte(ndata, s, s + k) && n <= 240)
            && (ndata[2 * k] != 1 || n == 1 ==> !IsNibbleName(ndata))
  {
  }

  /** The first half-byte is skipped for an odd count, and so every index stays inside the array. */
  lemma Parity(nlen: nat, k: nat)
    requires k < nlen / 2 && nlen <= 64 && nlen % 2 == 0
    ensures var s := if nlen % 4 == 2 then 1 else 0;
            s == nlen / 2 % 2 && (s + k) / 2 < 16
  {
  }

  lemma NibblesEnds(ndata: Bytes)
    requires |ndata| % 2 == 0
    ensures NibblesTo(ndata, 0)
    ensures NibblesTo(ndata, |ndata| / 2) ==> IsNibbleName(ndata)
  {
  }

  /** The working array after `i` half-bytes. */
  ghost predicate Packed(ndata: Bytes, s: nat, i: int, v: seq<Byte>)
    requires s <= 1 && i - s <= |ndata| / 2
  {
    |v| == 16 && forall b :: 0 <= b < 16 ==> v[b] == Shifted(ndata, s, i, b)
  }

  lemma PackedNone(ndata: Bytes, s: nat, v: seq<Byte>)
    requires s <= 1 && |v| == 16 && forall b :: 0 <= b < 16 ==> v[b] == 0
    ensures Packed(ndata, s, s, v)
  {
    forall b | 0 <= b < 16 ensures v[b] == Shifted(ndata, s, s, b) {
      ShiftStart(ndata, s, b);
    }
  }

  lemma PackedOne(ndata: Bytes, s: nat, i: nat, v: seq<Byte>, n: Byte)
    requires s <= 1 && s <= i && i + 1 - s <= |ndata| / 2 && i / 2 < 16 && Packed(ndata, s, i, v)
    requires n == 16 * HalfByte(ndata, s, i) && n <= 240
    ensures Packed(ndata, s, i + 1, v[i / 2 := n + v[i / 2] / 16])
  {
    hide HalfByte, Shifted;
    var w: seq<Byte> := v[i / 2 := n + v[i / 2] / 16];
    forall b | 0 <= b < 16 ensures w[b] == Shifted(ndata, s, i + 1, b) {
      ShiftStep(ndata, s, i, b);
    }
  }

  /** The loop that packs nibbles into bytes; its INSIST on the index never fires. */
  method PackNibbles(ndata: Bytes, v: array<Byte>) returns (ok: bool, ghost s: nat)
    requires 0 < |ndata| <= 64 && |ndata| % 2 == 0 && v.Length == 16
    modifies v
    ensures ok <==> IsNibbleName(ndata)
    ensures s == |ndata| / 2 % 2
    ensures ok ==> Packed(ndata, s, s + |ndata| / 2, v[..])
  {
    hide IsNibbleName, NibblesTo, Hex16, HalfByte, Packed;
    var nlen := |ndata|;
    var i := if nlen % 4 == 2 then 1 else 0;
    s := i;
    Parity(nlen, 0);
    for b := 0 to 16
      invariant forall x :: 0 <= x < b ==> v[x] == 0
    {
      v[b] := 0;
    }
    PackedNone(ndata, s, v[..]);
    NibblesEnds(ndata);
    var j, at := nlen, 0;
    ghost var k := 0;
    while j != 0
      invariant 0 <= j && at + j == nlen && at == 2 * k && i == s + k && k <= nlen / 2
      invariant NibblesTo(ndata, k) && Packed(ndata, s, i, v[..])
    {
      Parity(nlen, k);
      NibbleAt(ndata, s, k);
      if ndata[at] != 1 {
        return false, s;
      }
      var n := Hex16(ndata[at + 1]);
      if n == 1 {
        return false, s;
      }
      PackedOne(ndata, s, i, v[..], n);
      ghost var was := v[..];
      assert i / 2 < v.Length;
      v[i / 2] := n + v[i / 2] / 16;
      assert v[..] == was[i / 2 := n + was[i / 2] / 16];
      j := j - 2;
      at := at + 2;
      i := i + 1;
      k := k + 1;
    }
    ok := true;
  }

  // ----- the working array and the address

  lemma OctetIndex(z: nat, k: nat, s: nat, p: int)
    requires z % 2 == 0 && s == k % 2 && z <= 2 * p < z + k
    ensures var b := (s + k) / 2 - 1 - (p - z / 2);
            0 <= b && 2 * b + 1 == s + k - 1 - (2 * p - z)
  {
    assert s + k == 2 * ((s + k) / 2);
  }

  /** Octet `p` of the address stands at place `B - 1 - (p - first)` of the working array. */
  lemma WorkingOctet(zlen: nat, ndata: Bytes, s: nat, p: int)
    requires IsPrefixZone(zlen) && s == |ndata| / 2 % 2
    requires ZoneNibbles(zlen) <= 2 * p < ZoneNibbles(zlen) + |ndata| / 2
    ensures var k := |ndata| / 2;
            var b := (s + k) / 2 - 1 - (p - ZoneNibbles(zlen) / 2);
            && 0 <= b
            && Shifted(ndata, s, s + k, b)
               == 16 * AddressNibble(zlen, ndata, 2 * p)
                  + if 2 * p + 1 < ZoneNibbles(zlen) + k then AddressNibble(zlen, ndata, 2 * p + 1) else 0
  {
    var k, z := |ndata| / 2, ZoneNibbles(zlen);
    OctetIndex(z, k, s, p);
    hide IsPrefixZone, ZoneNibbles, Digit;
  }

  /** The constants of one `case` of the switch on the zone length. */
  datatype Layout = Layout(limit: nat, back: nat, start: nat)

  function LayoutOf(zlen: nat): (l: Layout)
    requires IsPrefixZone(zlen)
  {
    match zlen
    case 26 => Layout(16, 4, 8)
    case 30 => Layout(12, 3, 6)
    case 34 => Layout(8, 2, 5)
    case 38 => Layout(4, 1, 4)
    case 42 => Layout(0, 0, 3)
    case _ => Layout(64, 0, 0)
  }

  lemma LayoutFacts(zlen: nat)
    requires IsPrefixZone(zlen)
    ensures var z, l := ZoneNibbles(zlen), LayoutOf(zlen);
            && z % 2 == 0 && l.start in {0, 3, 4, 5, 6, 8}
            && (if zlen == 58 then z == 24 && l.limit == 64 else z == 16 - 2 * l.back && l.limit == 4 * l.back)
  {
  }

  /** The test on the byte that must be zero is the test on the "u" octet, when the name reaches it. */
  lemma UOctetTest(zlen: nat, ndata: Bytes, s: nat)
    requires IsPrefixZone(zlen) && s == |ndata| / 2 % 2 && |ndata| % 2 == 0 && 0 < |ndata| <= 64
    ensures var l := LayoutOf(zlen);
            if |ndata| > l.limit
            then 0 <= (|ndata| - 1) / 4 - l.back < 16
                 && (UOctetZero(zlen, ndata) <==> Shifted(ndata, s, s + |ndata| / 2, (|ndata| - 1) / 4 - l.back) == 0)
            else UOctetZero(zlen, ndata)
  {
    hide LayoutOf, IsPrefixZone, ZoneNibbles, Shifted, AddressNibble;
    var k, z, l := |ndata| / 2, ZoneNibbles(zlen), LayoutOf(zlen);
    LayoutFacts(zlen);
    assert (|ndata| - 1) / 4 == (s + k) / 2 - 1;
    if |ndata| > l.limit {
      WorkingOctet(zlen, ndata, s, 8);
    }
    assert |ndata| > l.limit ==>
      (UOctetZero(zlen, ndata) <==>
       AddressNibble(zlen, ndata, 16) == 0 && (17 < z + k ==> AddressNibble(zlen, ndata, 17) == 0));
  }

  /** In a full name, octet `p` of the address stands at place `15 - p` of the working array. */
  lemma FullName(zlen: nat, ndata: Bytes, p: int)
    requires IsPrefixZone(zlen) && zlen + |ndata| == 74 && ZoneNibbles(zlen) / 2 <= p < 16
    ensures |ndata| / 2 % 2 == 0 && ZoneNibbles(zlen) + |ndata| / 2 == 32
    ensures Shifted(ndata, 0, |ndata| / 2, 15 - p) == AddressOctet(zlen, ndata, p)
  {
    assert |ndata| / 2 % 2 == 0 && ZoneNibbles(zlen) + |ndata| / 2 == 32 && ZoneNibbles(zlen) % 2 == 0;
    hide IsPrefixZone, ZoneNibbles, Shifted, AddressNibble;
    WorkingOctet(zlen, ndata, 0, p);
  }

  /** The four bytes `dns64_rdata` reads are the octets of the IPv4 address, last one first. */
  lemma {:induction false} OctetsRead(zlen: nat, ndata: Bytes, i: nat)
    requires IsPrefixZone(zlen) && zlen + |ndata| == 74 && i < 4
    ensures |ndata| / 2 % 2 == 0 && ZoneNibbles(zlen) + |ndata| / 2 == 32
    ensures var start := LayoutOf(zlen).start;
            var at := if start < 7 <= start + i then start + i + 1 else start + i;
            at < 16 && Shifted(ndata, 0, |ndata| / 2, at) == EmbeddedV4(zlen, ndata)[3 - i]
  {
    hide Shifted, AddressOctet;
    FullName(zlen, ndata, V4Position(zlen, 3 - i));
  }

  lemma LengthTests(zlen: nat, ndata: Bytes)
    ensures (zlen + |ndata| > 74 || zlen < 10 || |ndata| % 2 != 0) ==> !NameExists(zlen, ndata)
    ensures IsPrefixZone(zlen) && |ndata| % 2 == 0 && zlen + |ndata| <= 74 ==>
              (NameExists(zlen, ndata) <==> IsNibbleName(ndata) && UOctetZero(zlen, ndata))
              && (zlen + |ndata| == 74 <==> ZoneNibbles(zlen) + |ndata| / 2 == 32)
  {
    hide UOctetZero;
  }

  lemma NeedsNibblesAndPrefix(zlen: nat, ndata: Bytes)
    ensures NameExists(zlen, ndata) ==> IsNibbleName(ndata) && IsPrefixZone(zlen)
  {
  }

  /** `dns64_cname` answers what the name means. */
  method Dns64Cname(zlen: nat, ndata: Bytes) returns (r: Answer)
    requires ndata != []
    ensures r == Meaning(zlen, ndata)
  {
    hide NameExists, UOctetZero, IsNibbleName, EmbeddedV4, Shifted, LayoutOf;
    LengthTests(zlen, ndata);
    var nlen := |ndata|;
    if zlen + nlen > 74 || zlen < 10 || nlen % 2 != 0 {
      return NotFound;
    }
    var v := new Byte[16](_ => 0);
    var ok, s := PackNibbles(ndata, v);
    if !ok || !IsPrefixZone(zlen) {
      assert !NameExists(zlen, ndata) by { NeedsNibblesAndPrefix(zlen, ndata); }
      return NotFound;
    }
    UOctetTest(zlen, ndata, s);
    LayoutFacts(zlen);
    var layout := LayoutOf(zlen);
    if nlen > layout.limit && v[(nlen - 1) / 4 - layout.back] != 0 {
      return NotFound;
    }
    if nlen + zlen != 74 {
      return EmptyNode;
    }
    var rdata := new Byte[RDATA_SIZE](_ => 0);
    ghost var v4 := EmbeddedV4(zlen, ndata);
    ghost var cs := [v4[3], v4[2], v4[1], v4[0]];
    forall i | 0 <= i < 4
      ensures cs[i] == v[if layout.start < 7 <= layout.start + i then layout.start + i + 1 else layout.start + i]
    {
      OctetsRead(zlen, ndata, i);
    }
    var len := Dns64Rdata(v, layout.start, rdata, cs);
    r := Cname(rdata[..len]);
  }

  /** `dns64_lookup`: the empty name is the apex, everything else goes to `dns64_cname`. */
  method Dns64Lookup(zlen: nat, ndata: Bytes) returns (r: Answer)
    ensures r == Meaning(zlen, ndata)
  {
    if ndata == [] {
      r := Apex;
    } else {
      r := Dns64Cname(zlen, ndata);
    }
  }

  // ----- what the zone promises

  function NibbleOf(addr: Bytes, a: int): (d: nat)
    requires |addr| == 16 && 0 <= a < 32
    ensures d < 16
  {
    if a % 2 == 0 then addr[a / 2] / 16 else addr[a / 2] % 16
  }

  function HexDigit(d: nat): (c: Byte)
    requires d < 16
    ensures Hex16(c) == 16 * d
  {
    if d < 10 then 48 + d else 87 + d
  }

  /** The wire form of an address as nibble labels, least significant first, down to a zone of `z` nibbles. */
  function Ip6Name(addr: Bytes, z: nat): (n: Bytes)
    requires |addr| == 16 && z <= 32
    ensures |n| == 2 * (32 - z)
    decreases 32 - z
  {
    if z == 32 then [] else Ip6Name(addr, z + 1) + [1, HexDigit(NibbleOf(addr, z))]
  }

  lemma {:induction false} Ip6NameAt(addr: Bytes, z: nat, k: nat)
    requires |addr| == 16 && z <= 32 && k < 32 - z
    ensures Ip6Name(addr, z)[2 * k] == 1 && Ip6Name(addr, z)[2 * k + 1] == HexDigit(NibbleOf(addr, 31 - k))
    decreases 32 - z
  {
    hide NibbleOf, HexDigit;
    if k < 31 - z {
      Ip6NameAt(addr, z + 1, k);
    }
  }

  /** The name spells the address: digit by digit, and so octet by octet. */
  ghost predicate Spells(zlen: nat, n: Bytes, addr: Bytes)
    requires |addr| == 16 && 10 <= zlen
  {
    && IsNibbleName(n) && ZoneNibbles(zlen) + |n| / 2 == 32
    && forall a :: ZoneNibbles(zlen) <= a < 32 ==> AddressNibble(zlen, n, a) == NibbleOf(addr, a)
  }

  lemma Ip6Digit(addr: Bytes, z: nat, k: nat)
    requires |addr| == 16 && z <= 32 && k < 32 - z
    ensures var n := Ip6Name(addr, z);
            n[2 * k] == 1 && Hex16(n[2 * k + 1]) != 1 && Digit(n, k) == NibbleOf(addr, 31 - k)
  {
    hide Hex16, HexDigit, NibbleOf;
    Ip6NameAt(addr, z, k);
  }

  lemma Ip6NameSpells(zlen: nat, addr: Bytes)
    requires 10 <= zlen <= 74 && |addr| == 16
    ensures Spells(zlen, Ip6Name(addr, ZoneNibbles(zlen)), addr)
  {
    hide Digit, NibbleOf, Hex16, HexDigit;
    var z := ZoneNibbles(zlen);
    var n := Ip6Name(addr, z);
    assert |n| / 2 == 32 - z;
    forall k | 0 <= k < 32 - z
      ensures n[2 * k] == 1 && Hex16(n[2 * k + 1]) != 1
    {
      Ip6Digit(addr, z, k);
    }
    assert IsNibbleName(n);
    hide IsNibbleName;
    forall a | z <= a < 32 ensures AddressNibble(zlen, n, a) == NibbleOf(addr, a) {
      Ip6Digit(addr, z, 31 - a);
    }
  }

  lemma SpelledOctet(zlen: nat, n: Bytes, addr: Bytes, p: int)
    requires |addr| == 16 && 10 <= zlen && Spells(zlen, n, addr) && ZoneNibbles(zlen) <= 2 * p < 32
    ensures AddressOctet(zlen, n, p) == addr[p]
  {
    hide IsNibbleName, AddressNibble;
    assert NibbleOf(addr, 2 * p) == addr[p] / 16 && NibbleOf(addr, 2 * p + 1) == addr[p] % 16;
  }

  lemma SpelledUOctet(zlen: nat, n: Bytes, addr: Bytes)
    requires |addr| == 16 && 10 <= zlen && Spells(zlen, n, addr) && (ZoneNibbles(zlen) <= 17 ==> addr[8] == 0)
    ensures UOctetZero(zlen, n)
  {
    hide IsNibbleName, ZoneNibbles, AddressNibble;
    forall a | 16 <= a <= 17 && ZoneNibbles(zlen) <= a < ZoneNibbles(zlen) + |n| / 2
      ensures AddressNibble(zlen, n, a) == 0
    {
      assert NibbleOf(addr, a) == 0;
    }
  }

  /** An IPv4 address embedded after a prefix: section 2.2 of RFC 6052. */
  function Embed(prefix: Bytes, v4: Bytes, suffix: Bytes): (addr: Bytes)
    requires |v4| == 4 && |prefix| in {4, 5, 6, 7, 8, 12}
    requires |suffix| == if |prefix| == 12 then 0 else 11 - |prefix|
    ensures |addr| == 16
  {
    if |prefix| == 12 then prefix + v4
    else prefix + v4[..8 - |prefix|] + [0] + v4[8 - |prefix|..] + suffix
  }

  lemma EmbedPlaces(prefix: Bytes, v4: Bytes, suffix: Bytes, k: nat)
    requires |v4| == 4 && |prefix| in {4, 5, 6, 7, 8, 12} && k < 4
    requires |suffix| == if |prefix| == 12 then 0 else 11 - |prefix|
    ensures var zlen := 10 + 4 * |prefix|;
            && IsPrefixZone(zlen) && ZoneNibbles(zlen) == 2 * |prefix|
            && |prefix| <= V4Position(zlen, k) < 16
            && Embed(prefix, v4, suffix)[V4Position(zlen, k)] == v4[k]
            && (|prefix| != 12 ==> Embed(prefix, v4, suffix)[8] == 0)
  {
  }

  /**
    Looking up the ip6.arpa name of an embedded address yields the CNAME to the in-addr.arpa name of the
    IPv4 address, whatever the prefix and the suffix.
   */
  lemma {:induction false} ReverseMapping(prefix: Bytes, v4: Bytes, suffix: Bytes)
    requires |v4| == 4 && |prefix| in {4, 5, 6, 7, 8, 12}
    requires |suffix| == if |prefix| == 12 then 0 else 11 - |prefix|
    ensures Meaning(10 + 4 * |prefix|, Ip6Name(Embed(prefix, v4, suffix), 2 * |prefix|)) == Cname(InAddrArpa(v4))
    ensures |InAddrArpa(v4)| <= RDATA_SIZE
  {
    hide Embed, V4Position, Spells, ZoneNibbles, Meaning, InAddrArpa;
    var zlen, addr := 10 + 4 * |prefix|, Embed(prefix, v4, suffix);
    forall k | 0 <= k < 4
      ensures |prefix| <= V4Position(zlen, k) < 16 && addr[V4Position(zlen, k)] == v4[k]
      ensures IsPrefixZone(zlen) && ZoneNibbles(zlen) == 2 * |prefix| && (|prefix| != 12 ==> addr[8] == 0)
    {
      EmbedPlaces(prefix, v4, suffix, k);
    }
    EmbedPlaces(prefix, v4, suffix, 0);
    Ip6NameSpells(zlen, addr);
    SpelledMeaning(zlen, Ip6Name(addr, 2 * |prefix|), addr, v4);
    InAddrArpaFits(v4);
  }

  lemma InAddrArpaFits(v4: seq<Byte>)
    requires |v4| == 4
    ensures |InAddrArpa(v4)| <= RDATA_SIZE
  {
    hide Labels;
  }

  lemma SpelledMeaning(zlen: nat, n: Bytes, addr: Bytes, v4: seq<Byte>)
    requires |addr| == 16 && |v4| == 4 && 10 <= zlen && IsPrefixZone(zlen) && Spells(zlen, n, addr)
    requires zlen != 58 ==> addr[8] == 0
    requires forall k :: 0 <= k < 4 ==>
               ZoneNibbles(zlen) <= 2 * V4Position(zlen, k) < 32 && addr[V4Position(zlen, k)] == v4[k]
    ensures Meaning(zlen, n) == Cname(InAddrArpa(v4))
  {
    SpellsFully(zlen, n, addr);
    SpelledUOctet(zlen, n, addr);
    assert ZoneNibbles(zlen) < 32;
    hide V4Position, Spells, InAddrArpa, UOctetZero, IsNibbleName, ZoneNibbles, IsPrefixZone, EmbeddedV4;
    assert NameExists(zlen, n);
    SpelledV4(zlen, n, addr, v4);
  }

  lemma SpelledV4(zlen: nat, n: Bytes, addr: Bytes, v4: seq<Byte>)
    requires |addr| == 16 && |v4| == 4 && 10 <= zlen && IsPrefixZone(zlen) && Spells(zlen, n, addr)
    requires forall k :: 0 <= k < 4 ==>
               ZoneNibbles(zlen) <= 2 * V4Position(zlen, k) < 32 && addr[V4Position(zlen, k)] == v4[k]
    ensures ZoneNibbles(zlen) + |n| / 2 == 32 && EmbeddedV4(zlen, n) == v4
  {
    hide V4Position, Spells, AddressOctet, ZoneNibbles, IsPrefixZone;
    SpellsFully(zlen, n, addr);
    SpelledOctet(zlen, n, addr, V4Position(zlen, 0));
    SpelledOctet(zlen, n, addr, V4Position(zlen, 1));
    SpelledOctet(zlen, n, addr, V4Position(zlen, 2));
    SpelledOctet(zlen, n, addr, V4Position(zlen, 3));
  }

  lemma SpellsFully(zlen: nat, n: Bytes, addr: Bytes)
    requires |addr| == 16 && 10 <= zlen && Spells(zlen, n, addr)
    ensures IsNibbleName(n) && ZoneNibbles(zlen) + |n| / 2 == 32
  {
  }

  lemma DropLabel(ndata: Bytes)
    requires IsNibbleName(ndata) && 2 <= |ndata|
    ensures IsNibbleName(ndata[2..])
    ensures forall k :: 0 <= k < |ndata| / 2 - 1 ==> Digit(ndata[2..], k) == Digit(ndata, k + 1)
  {
    var rest := ndata[2..];
    assert |rest| / 2 == |ndata| / 2 - 1;
    forall k | 0 <= k < |rest| / 2
      ensures rest[2 * k] == 1 && Hex16(rest[2 * k + 1]) != 1 && Digit(rest, k) == Digit(ndata, k + 1)
    {
      assert rest[2 * k] == ndata[2 * (k + 1)] && rest[2 * k + 1] == ndata[2 * (k + 1) + 1];
    }
  }

  /** Every ancestor of an existing name exists; so below a name that is not found nothing is found. */
  lemma AncestorsExist(zlen: nat, head: Bytes, rest: Bytes)
    requires 0 < |head| < 64 && rest != []
    ensures Meaning(zlen, [|head|] + head + rest) != NotFound ==> Meaning(zlen, rest) != NotFound
  {
    var ndata := [|head|] + head + rest;
    if NameExists(zlen, ndata) {
      assert ndata[2 * 0] == 1 && 0 < |ndata| / 2;
      assert ndata[2..] == rest;
      DropLabel(ndata);
      var z, k := ZoneNibbles(zlen), |rest| / 2;
      forall a | 16 <= a <= 17 && z <= a < z + k ensures AddressNibble(zlen, rest, a) == 0 {
        assert AddressNibble(zlen, rest, a) == AddressNibble(zlen, ndata, a);
      }
    }
  }

  // ----- the notation

  /** Digits in either case are worth sixteen times their value; every other octet gives 1. */
  lemma HexDigits(c: Byte)
    ensures forall d :: 0 <= d < 16 ==>
              (Hex16(c) == 16 * d <==> c as char == "0123456789abcdef"[d] || c as char == "0123456789ABCDEF"[d])
    ensures Hex16(c) == 1 <==> c as char !in "0123456789abcdefABCDEF"
  {
  }

  /** A label is a length octet and that many digits, which read as the octet in decimal. */
  lemma LabelIsCounted(c: Byte)
    ensures var l := Label(c);
            && l[0] == |l| - 1
            && (forall i :: 1 <= i < |l| ==> 48 <= l[i] <= 57)
            && c == Value(l[1..])
  {
    LabelReadsBack(c);
    var s := Decimal(c);
    assert Label(c)[1..] == s;
    assert Value(s[..1]) == s[0] - 48 by { assert s[..1][..0] == []; }
    if |s| == 1 {
      assert s[..1] == s;
    } else {
      assert Value(s[..2]) == 10 * (s[0] - 48) + s[1] - 48 by { assert s[..2][..1] == s[..1]; }
      if |s| == 2 {
        assert s[..2] == s;
      } else {
        assert Value(s) == 10 * Value(s[..2]) + s[2] - 48;
      }
    }
  }

  function Value(digits: seq<Byte>): int {
    if digits == [] then 0 else 10 * Value(digits[..|digits| - 1]) + digits[|digits| - 1] - 48
  }

  /** The suffix spells in-addr.arpa and ends with the root. */
  lemma SuffixSpells()
    ensures IN_ADDR_ARPA == [7] + Spelled("in-addr") + [4] + Spelled("arpa") + [0]
  {
  }

  function Spelled(s: string): (b: Bytes)
    requires forall i :: 0 <= i < |s| ==> s[i] as int < 256
    ensures |b| == |s| && forall i :: 0 <= i < |s| ==> b[i] == s[i] as int
  {
    seq(|s|, i requires 0 <= i < |s| => s[i] as int)
  }

  /** Under a zone that is none of the six prefix lengths nothing is found. */
  lemma OnlySixPrefixes(zlen: nat, ndata: Bytes)
    requires ndata != [] && zlen !in {10 + 32 / 2, 10 + 40 / 2, 10 + 48 / 2, 10 + 56 / 2, 10 + 64 / 2, 10 + 96 / 2}
    ensures Meaning(zlen, ndata) == NotFound
  {
  }
}
