/** The scan of a STUN response for the mapped address (src/stun.rs; section 15 of RFC 5389). */
module Stun {
  import opened Wrappers
  import opened Bytes

  const MAGIC: bytes := [0x21, 0x12, 0xa4, 0x42]

  const MAPPED_ADDRESS := 0x0001
  const XOR_MAPPED_ADDRESS := 0x0020
  const IPV4: byte := 0x01
  const HEADER: nat := 20

  // ----- Exclusive or -----

  /** The exclusive or of the low `width` bits. */
  function XorBits(a: nat, b: nat, width: nat): (r: nat)
  {
    if width == 0 then 0 else 2 * XorBits(a / 2, b / 2, width - 1) + (a + b) % 2
  }

  function Pow2(width: nat): nat
  {
    if width == 0 then 1 else 2 * Pow2(width - 1)
  }

  lemma Parity(a: nat, b: nat, high: nat)
    ensures var r := 2 * high + (a + b) % 2;
            r / 2 == high && (r + b) % 2 == a % 2
  {
    var e := (a + b) % 2;
    assert (2 * high + e + b) % 2 == (e + b) % 2;
  }

  lemma {:induction false} XorInverts(a: nat, b: nat, width: nat)
    requires a < Pow2(width)
    ensures XorBits(a, b, width) < Pow2(width)
    ensures XorBits(XorBits(a, b, width), b, width) == a
  {
    if width > 0 {
      XorInverts(a / 2, b / 2, width - 1);
      Parity(a, b, XorBits(a / 2, b / 2, width - 1));
    }
  }

  const BITS: nat := 8

  lemma BytePower()
    ensures Pow2(BITS) == 256
  {
    assert Pow2(4) == 16;
    assert Pow2(8) == 256;
  }

  function Xor(a: byte, b: byte): byte
  {
    BytePower();
    XorInverts(a, b, BITS);
    XorBits(a, b, BITS)
  }

  /** The first four bytes, each with its byte of the magic cookie. */
  function XorMagic(ip: bytes): (r: bytes)
    requires |ip| == 4
    ensures |r| == 4
  {
    [Xor(ip[0], MAGIC[0]), Xor(ip[1], MAGIC[1]), Xor(ip[2], MAGIC[2]), Xor(ip[3], MAGIC[3])]
  }

  lemma XorMagicInverts(ip: bytes)
    requires |ip| == 4
    ensures XorMagic(XorMagic(ip)) == ip
  {
    BytePower();
    forall i | 0 <= i < 4
      ensures Xor(Xor(ip[i], MAGIC[i]), MAGIC[i]) == ip[i]
    {
      XorInverts(ip[i], MAGIC[i], BITS);
    }
    assert ip == [ip[0], ip[1], ip[2], ip[3]];
  }

  // ----- What the exclusive or is, bit by bit -----

  /** Bit `k` of a number, counted from the lowest. */
  predicate Bit(n: nat, k: nat)
    decreases k
  {
    if k == 0 then n % 2 == 1 else Bit(n / 2, k - 1)
  }

  /** Byte `i` of the magic cookie 0x2112A442, as RFC 5389 gives it. */
  function CookieByte(i: nat): byte
  {
    if i == 0 then 0x21 else if i == 1 then 0x12 else if i == 2 then 0xa4 else 0x42
  }

  /** The bits of the two differ exactly where the mask has a one. */
  predicate Flipped(a: nat, b: nat, mask: nat)
  {
    forall k: nat :: k < BITS ==> (Bit(a, k) != Bit(b, k) <==> Bit(mask, k))
  }

  /** Byte by byte the two differ exactly where the cookie has a one. */
  predicate FlippedByCookie(wire: bytes, plain: bytes)
  {
    |wire| == |plain| <= 4 && forall i :: 0 <= i < |wire| ==> Flipped(wire[i], plain[i], CookieByte(i))
  }

  lemma {:induction false} XorBitAt(a: nat, b: nat, width: nat, k: nat)
    requires k < width
    ensures Bit(XorBits(a, b, width), k) <==> (Bit(a, k) != Bit(b, k))
    decreases width
  {
    if k > 0 {
      XorBitAt(a / 2, b / 2, width - 1, k - 1);
      assert XorBits(a, b, width) / 2 == XorBits(a / 2, b / 2, width - 1);
    }
  }

  lemma {:induction false} BitsDetermine(a: nat, b: nat, width: nat)
    requires a < Pow2(width) && b < Pow2(width)
    requires forall k: nat :: k < width ==> (Bit(a, k) <==> Bit(b, k))
    ensures a == b
  {
    if width > 0 {
      forall k: nat | k < width - 1
        ensures Bit(a / 2, k) <==> Bit(b / 2, k)
      {
        assert Bit(a, k + 1) <==> Bit(b, k + 1);
      }
      BitsDetermine(a / 2, b / 2, width - 1);
      assert Bit(a, 0) <==> Bit(b, 0);
    }
  }

  /** The exclusive or is the one byte that differs exactly where the mask has a one. */
  lemma XorIs(a: byte, b: byte, mask: byte)
    ensures Xor(b, mask) == a <==> Flipped(a, b, mask)
  {
    BytePower();
    forall k: nat | k < BITS
      ensures Bit(Xor(b, mask), k) <==> (Bit(b, k) != Bit(mask, k))
    {
      XorBitAt(b, mask, BITS, k);
    }
    if Flipped(a, b, mask) {
      BitsDetermine(Xor(b, mask), a, BITS);
    }
  }

  lemma CookieIsMagic(i: nat)
    requires i < 4
    ensures MAGIC[i] == CookieByte(i)
  {
  }

  lemma XorMagicIs(wire: bytes, ip: bytes)
    requires |wire| == 4 && |ip| == 4
    ensures XorMagic(wire) == ip <==> FlippedByCookie(wire, ip)
  {
    forall i | 0 <= i < 4
      ensures XorMagic(wire)[i] == ip[i] <==> Flipped(wire[i], ip[i], CookieByte(i))
    {
      CookieIsMagic(i);
      assert XorMagic(wire)[i] == Xor(wire[i], MAGIC[i]);
      XorIs(ip[i], wire[i], MAGIC[i]);
    }
  }

  // ----- Attributes -----

  /** The IPv4 address an attribute carries, if it is one of the two kinds and long enough. */
  function AddressIn(kind: nat, value: bytes): Option<bytes>
  {
    if (kind == XOR_MAPPED_ADDRESS || kind == MAPPED_ADDRESS) && |value| >= 8 && value[1] == IPV4 then
      Some(if kind == XOR_MAPPED_ADDRESS then XorMagic(value[4..8]) else value[4..8])
    else None
  }

  /** A length rounded up to a multiple of four. */
  function Padded(n: nat): (p: nat)
    ensures n <= p < n + 4 && p % 4 == 0
  {
    (n + 3) / 4 * 4
  }

  datatype Attr = Attr(kind: nat, value: bytes, padding: bytes)

  predicate AttrOk(a: Attr)
  {
    a.kind < 0x1_0000 && |a.value| < 0x1_0000 && |a.value| + |a.padding| == Padded(|a.value|)
  }

  predicate AllOk(attrs: seq<Attr>)
  {
    forall i :: 0 <= i < |attrs| ==> AttrOk(attrs[i])
  }

  function AttrBytes(a: Attr): bytes
  {
    ToBE(a.kind, 2) + ToBE(|a.value|, 2) + a.value + a.padding
  }

  function AttrsBytes(attrs: seq<Attr>): bytes
  {
    if attrs == [] then [] else AttrBytes(attrs[0]) + AttrsBytes(attrs[1..])
  }

  function FirstAddress(attrs: seq<Attr>): Option<bytes>
  {
    if attrs == [] then None
    else if AddressIn(attrs[0].kind, attrs[0].value).Some? then AddressIn(attrs[0].kind, attrs[0].value)
    else FirstAddress(attrs[1..])
  }

  /** Not even one attribute, padding aside, is complete here. */
  predicate Incomplete(s: bytes)
  {
    |s| < 4 || |s| < 4 + FromBE(s[2..4])
  }

  /** The first address among the attributes of `s`. */
  function Scan(s: bytes): Option<bytes>
    decreases |s|
  {
    if Incomplete(s) then None
    else
      var kind, n := FromBE(s[..2]), FromBE(s[2..4]);
      var found := AddressIn(kind, s[4..4 + n]);
      if found.Some? then found
      else if 4 + Padded(n) > |s| then None
      else Scan(s[4 + Padded(n)..])
  }

  lemma ScanOverAttr(a: Attr, rest: bytes)
    requires AttrOk(a)
    ensures Scan(AttrBytes(a) + rest) ==
            if AddressIn(a.kind, a.value).Some? then AddressIn(a.kind, a.value) else Scan(rest)
  {
    var s := AttrBytes(a) + rest;
    var n := |a.value|;
    PowValues();
    ReadBackFits(a.kind, 2);
    ReadBackFits(n, 2);
    assert s[..2] == ToBE(a.kind, 2) && s[2..4] == ToBE(n, 2);
    assert s[4..4 + n] == a.value && s[4 + Padded(n)..] == rest;
  }

  /** On any attribute list, the first attribute that carries an IPv4 address wins, of either kind. */
  lemma {:induction false} ScanFindsFirst(attrs: seq<Attr>, tail: bytes)
    requires AllOk(attrs) && Incomplete(tail)
    ensures Scan(AttrsBytes(attrs) + tail) == FirstAddress(attrs)
  {
    if attrs == [] {
      assert AttrsBytes(attrs) + tail == tail;
    } else {
      var rest := AttrsBytes(attrs[1..]) + tail;
      assert AttrsBytes(attrs) + tail == AttrBytes(attrs[0]) + rest;
      ScanOverAttr(attrs[0], rest);
      ScanFindsFirst(attrs[1..], tail);
    }
  }

  /** The attribute of either kind for an IPv4 address, as section 15 of RFC 5389 lays it out. */
  predicate IsAddressAttr(a: Attr, ip: bytes, xored: bool)
  {
    && AttrOk(a) && |ip| == 4 && |a.value| >= 8 && a.value[1] == 1
    && if xored then a.kind == 0x20 && FlippedByCookie(a.value[4..8], ip)
       else a.kind == 1 && a.value[4..8] == ip
  }

  /** What carries an address, and which: an attribute of type 1 plainly, one of type 32 with the cookie's bits flipped. */
  lemma AddressInIff(kind: nat, value: bytes, ip: bytes)
    ensures AddressIn(kind, value) == Some(ip) <==>
            && |value| >= 8 && value[1] == 1 && |ip| == 4
            && ((kind == 1 && value[4..8] == ip) || (kind == 0x20 && FlippedByCookie(value[4..8], ip)))
  {
    if |value| >= 8 && |ip| == 4 {
      XorMagicIs(value[4..8], ip);
    }
  }

  /** For example, E1 12 A6 43 is 192.0.2.1. */
  lemma XoredExample()
    ensures AddressIn(0x20, [0, 1, 0, 0, 0xe1, 0x12, 0xa6, 0x43]) == Some([192, 0, 2, 1])
  {
    assert XorBits(0xe1, 0x21, BITS) == 192 && XorBits(0x12, 0x12, BITS) == 0;
    assert XorBits(0xa6, 0xa4, BITS) == 2 && XorBits(0x43, 0x42, BITS) == 1;
  }

  /** Such attributes exist for every address. */
  lemma AddressAttrExists(ip: bytes, port: bytes, xored: bool) returns (a: Attr)
    requires |ip| == 4 && |port| == 2
    ensures IsAddressAttr(a, ip, xored)
  {
    if xored {
      a := Attr(0x20, [0, 1] + port + XorMagic(ip), []);
      XorMagicInverts(ip);
      assert a.value[4..8] == XorMagic(ip);
      XorMagicIs(XorMagic(ip), ip);
    } else {
      a := Attr(1, [0, 1] + port + ip, []);
      assert a.value[4..8] == ip;
    }
  }

  lemma {:induction false} FirstAddressSkips(before: seq<Attr>, a: Attr, after: seq<Attr>)
    requires forall i :: 0 <= i < |before| ==> AddressIn(before[i].kind, before[i].value) == None
    requires AddressIn(a.kind, a.value).Some?
    ensures FirstAddress(before + [a] + after) == AddressIn(a.kind, a.value)
  {
    var all := before + [a] + after;
    if before == [] {
      assert all[0] == a;
    } else {
      FirstAddressSkips(before[1..], a, after);
      assert all[0] == before[0] && all[1..] == before[1..] + [a] + after;
    }
  }

  /** A response with either attribute gives the address, if no earlier attribute carries one. */
  lemma {:induction false} ResponseGivesAddress(header: bytes, before: seq<Attr>, a: Attr, after: seq<Attr>, ip: bytes, xored: bool)
    requires |header| == 20 && AllOk(before) && IsAddressAttr(a, ip, xored) && AllOk(after)
    requires forall i :: 0 <= i < |before| ==> AddressIn(before[i].kind, before[i].value) == None
    ensures Scan((header + AttrsBytes(before + [a] + after))[20..]) == Some(ip)
  {
    AddressInIff(a.kind, a.value, ip);
    FirstAddressSkips(before, a, after);
    AllOkAround(before, a, after);
    ScanBehindHeader(header, before + [a] + after);
  }

  lemma AllOkAround(before: seq<Attr>, a: Attr, after: seq<Attr>)
    requires AllOk(before) && AttrOk(a) && AllOk(after)
    ensures AllOk(before + [a] + after)
  {
  }

  lemma ScanBehindHeader(header: bytes, attrs: seq<Attr>)
    requires |header| == HEADER && AllOk(attrs)
    ensures Scan((header + AttrsBytes(attrs))[HEADER..]) == FirstAddress(attrs)
  {
    ScanFindsFirst(attrs, []);
    DropHeader(header, AttrsBytes(attrs));
  }

  lemma DropHeader(header: bytes, body: bytes)
    requires |header| == HEADER
    ensures (header + body)[HEADER..] == body + []
  {
  }

  // ----- The scanner -----

  datatype SocketAddr = SocketAddr(ip: bytes, port: nat)

  /** The address found, with the port the caller wants in its place. */
  method ParseXorMapped(msg: bytes, fallbackPort: nat) returns (r: Option<SocketAddr>)
    ensures |msg| < HEADER ==> r == None
    ensures |msg| >= HEADER ==>
              r == match Scan(msg[HEADER..])
                   case Some(ip) => Some(SocketAddr(ip, fallbackPort))
                   case None => None
  {
    if |msg| < HEADER {
      return None;
    }
    var i: nat := HEADER;
    while i + 4 <= |msg|
      invariant i % 4 == 0
      invariant Scan(msg[HEADER..]) == if i <= |msg| then Scan(msg[i..]) else None
      decreases |msg| + 4 - i
    {
      ghost var s := msg[i..];
      assert msg[i..i + 2] == s[..2] && msg[i + 2..i + 4] == s[2..4];
      var kind := FromBE(msg[i..i + 2]);
      var n := FromBE(msg[i + 2..i + 4]);
      i := i + 4;
      if i + n > |msg| {
        break;
      }
      var attr := msg[i..i + n];
      assert attr == s[4..4 + n];
      if (kind == XOR_MAPPED_ADDRESS || kind == MAPPED_ADDRESS) && |attr| >= 8 {
        var family := attr[1];
        if family == IPV4 {
          var ip := attr[4..8];
          if kind == XOR_MAPPED_ADDRESS {
            ip := XorMagic(ip);
          }
          return Some(SocketAddr(ip, fallbackPort));
        }
      }
      i := i + (n + 3) / 4 * 4;
    }
    return None;
  }
}
