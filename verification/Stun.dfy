/** Decoding a STUN Binding success response, the message format of section 6 and 15 of RFC 5389. */
module Stun {
  import opened Domain

  type Byte = x: nat | x < 0x100
  type Word = x: nat | x < 0x1_0000
  type DWord = x: nat | x < 0x1_0000_0000

  datatype Endpoint = Endpoint(addr: DWord, port: Word)

  /** An attribute as it stands in the datagram. */
  datatype RawAttribute = RawAttribute(kind: Word, value: seq<Byte>)

  datatype Probe = Mapped(endpoint: Endpoint) | TooShort | NotSuccess | NoAddress

  const BINDING_SUCCESS: Word := 0x0101
  const MAPPED_ADDRESS: Word := 0x0001
  const XOR_MAPPED_ADDRESS: Word := 0x0020
  const IPV4: Byte := 0x01

  /** The 16-bit value of two bytes in network order. */
  function U16(hi: Byte, lo: Byte): Word {
    0x100 * hi + lo
  }

  /** The 32-bit value of four bytes in network order. */
  function U32(a: Byte, b: Byte, c: Byte, d: Byte): DWord {
    0x100_0000 * a + 0x1_0000 * b + 0x100 * c + d
  }

  /** Bitwise exclusive or. */
  function Xor(x: nat, y: nat): nat
    decreases x + y
  {
    if x == 0 && y == 0 then 0 else 2 * Xor(x / 2, y / 2) + (if x % 2 == y % 2 then 0 else 1)
  }

  function Pow2(n: nat): (p: nat)
    ensures p > 0
  {
    if n == 0 then 1 else 2 * Pow2(n - 1)
  }

  lemma Pow2Eight(n: nat)
    ensures Pow2(n + 8) == 0x100 * Pow2(n)
  {
    assert Pow2(n + 2) == 4 * Pow2(n);
    assert Pow2(n + 4) == 4 * Pow2(n + 2);
    assert Pow2(n + 6) == 4 * Pow2(n + 4);
  }

  lemma {:induction false} XorBound(x: nat, y: nat, bits: nat)
    requires x < Pow2(bits) && y < Pow2(bits)
    ensures Xor(x, y) < Pow2(bits)
    decreases bits
  {
    if bits > 0 {
      XorBound(x / 2, y / 2, bits - 1);
    }
  }

  /** Masking twice with the same value restores the original. */
  lemma {:induction false} XorTwice(x: nat, y: nat)
    ensures Xor(Xor(x, y), y) == x
    decreases x + y
  {
    if x != 0 || y != 0 {
      XorTwice(x / 2, y / 2);
      assert Xor(x, y) / 2 == Xor(x / 2, y / 2);
      if Xor(x, y) == 0 && y == 0 {
        XorZero(x);
      }
    }
  }

  lemma {:induction false} XorZero(x: nat)
    ensures Xor(x, 0) == x
  {
    if x != 0 {
      XorZero(x / 2);
    }
  }

  function Xor16(x: Word, y: Word): Word {
    Pow2Eight(0);
    Pow2Eight(8);
    XorBound(x, y, 16);
    Xor(x, y)
  }

  function Xor32(x: DWord, y: DWord): DWord {
    Pow2Eight(0);
    Pow2Eight(8);
    Pow2Eight(16);
    Pow2Eight(24);
    XorBound(x, y, 32);
    Xor(x, y)
  }

  /** The upper half of the header's cookie masks ports. */
  function Upper(cookie: DWord): Word {
    cookie / 0x1_0000
  }

  /** Attributes are padded to a multiple of four bytes. */
  function Pad(n: nat): (p: nat)
    ensures p < 4 && (n + p) % 4 == 0
  {
    (4 - n % 4) % 4
  }

  function LengthAt(b: seq<Byte>, pos: nat): nat
    requires pos + 4 <= |b|
  {
    U16(b[pos + 2], b[pos + 3])
  }

  /** A whole attribute starts at the position. */
  predicate Fits(b: seq<Byte>, pos: nat) {
    pos + 4 <= |b| && pos + 4 + LengthAt(b, pos) <= |b|
  }

  function AttributeAt(b: seq<Byte>, pos: nat): RawAttribute
    requires Fits(b, pos)
  {
    RawAttribute(U16(b[pos], b[pos + 1]), b[pos + 4..pos + 4 + LengthAt(b, pos)])
  }

  function NextAt(b: seq<Byte>, pos: nat): (next: nat)
    requires Fits(b, pos)
    ensures next >= pos + 4
  {
    pos + 4 + LengthAt(b, pos) + Pad(LengthAt(b, pos))
  }

  /** The attributes that lie wholly inside the datagram, from a position on. */
  function Attributes(b: seq<Byte>, pos: nat): seq<RawAttribute>
    decreases |b| - pos
  {
    if !Fits(b, pos) then [] else [AttributeAt(b, pos)] + Attributes(b, NextAt(b, pos))
  }

  /** Looking for an address, one attribute at a time. */
  lemma FirstAddressFrom(b: seq<Byte>, pos: nat, cookie: DWord)
    ensures FirstAddress(Attributes(b, pos), cookie) ==
      if !Fits(b, pos) then None
      else if AddressIn(AttributeAt(b, pos), cookie).Some? then AddressIn(AttributeAt(b, pos), cookie)
      else FirstAddress(Attributes(b, NextAt(b, pos)), cookie)
  {
    if Fits(b, pos) {
      var all := Attributes(b, pos);
      assert all[0] == AttributeAt(b, pos) && all[1..] == Attributes(b, NextAt(b, pos));
    }
  }

  /** The IPv4 address an attribute carries, if it is of an address kind. */
  function AddressIn(a: RawAttribute, cookie: DWord): Option<Endpoint> {
    if (a.kind == XOR_MAPPED_ADDRESS || a.kind == MAPPED_ADDRESS) && |a.value| >= 8 && a.value[1] == IPV4 then
      var port, addr := U16(a.value[2], a.value[3]), U32(a.value[4], a.value[5], a.value[6], a.value[7]);
      if a.kind == XOR_MAPPED_ADDRESS then Some(Endpoint(Xor32(addr, cookie), Xor16(port, Upper(cookie))))
      else Some(Endpoint(addr, port))
    else None
  }

  function FirstAddress(attributes: seq<RawAttribute>, cookie: DWord): Option<Endpoint> {
    if attributes == [] then None
    else if AddressIn(attributes[0], cookie).Some? then AddressIn(attributes[0], cookie)
    else FirstAddress(attributes[1..], cookie)
  }

  /** The address an attribute carries, read at its place in the datagram. */
  lemma AddressAt(b: seq<Byte>, pos: nat, cookie: DWord)
    requires Fits(b, pos)
    ensures AddressIn(AttributeAt(b, pos), cookie) ==
      var kind, v := U16(b[pos], b[pos + 1]), pos + 4;
      if (kind == XOR_MAPPED_ADDRESS || kind == MAPPED_ADDRESS) && LengthAt(b, pos) >= 8 && b[v + 1] == IPV4 then
        var port, addr := U16(b[v + 2], b[v + 3]), U32(b[v + 4], b[v + 5], b[v + 6], b[v + 7]);
        Some(if kind == XOR_MAPPED_ADDRESS then Endpoint(Xor32(addr, cookie), Xor16(port, Upper(cookie))) else Endpoint(addr, port))
      else None
  {
    var a := AttributeAt(b, pos);
    assert forall k :: 0 <= k < |a.value| ==> a.value[k] == b[pos + 4 + k];
  }

  /** What a response means: the first address among the attributes behind its header. */
  function Answer(b: seq<Byte>): Probe {
    if |b| < 20 then TooShort
    else if U16(b[0], b[1]) != BINDING_SUCCESS then NotSuccess
    else
      match FirstAddress(Attributes(b, 20), U32(b[4], b[5], b[6], b[7]))
      case Some(e) => Mapped(e)
      case None => NoAddress
  }

  /** Walks any datagram and stops at the first address; it terminates and reads only inside the datagram. */
  method RequestMappedAddress(resp: seq<Byte>) returns (out: Probe)
    ensures out == Answer(resp)
    ensures out.TooShort? <==> |resp| < 20
    ensures out.NotSuccess? <==> |resp| >= 20 && !(resp[0] == 0x01 && resp[1] == 0x01)
  {
    if |resp| < 20 {
      return TooShort;
    }
    var msgType := U16(resp[0], resp[1]);
    if msgType != BINDING_SUCCESS {
      return NotSuccess;
    }
    var cookie := U32(resp[4], resp[5], resp[6], resp[7]);
    var pos := 20;
    while pos + 4 <= |resp|
      invariant 20 <= pos
      invariant FirstAddress(Attributes(resp, 20), cookie) == FirstAddress(Attributes(resp, pos), cookie)
    {
      var attrType := U16(resp[pos], resp[pos + 1]);
      var attrLen := U16(resp[pos + 2], resp[pos + 3]);
      ghost var start := pos;
      pos := pos + 4;
      FirstAddressFrom(resp, start, cookie);
      if pos + attrLen > |resp| {
        assert !Fits(resp, start);
        break;
      }
      AddressAt(resp, start, cookie);
      ghost var found := AddressIn(AttributeAt(resp, start), cookie);
      if (attrType == XOR_MAPPED_ADDRESS || attrType == MAPPED_ADDRESS) && attrLen >= 8 {
        var family := resp[pos + 1];
        if family == IPV4 {
          var mappedPort := U16(resp[pos + 2], resp[pos + 3]);
          var mappedAddr := U32(resp[pos + 4], resp[pos + 5], resp[pos + 6], resp[pos + 7]);
          if attrType == XOR_MAPPED_ADDRESS {
            mappedPort := Xor16(mappedPort, Upper(cookie));
            mappedAddr := Xor32(mappedAddr, cookie);
          }
          assert found == Some(Endpoint(mappedAddr, mappedPort));
          return Mapped(Endpoint(mappedAddr, mappedPort));
        }
      }
      assert found.None?;
      pos := pos + attrLen;
      var pad := (4 - attrLen % 4) % 4;
      pos := pos + pad;
      assert pos == NextAt(resp, start);
    }
    return NoAddress;
  }

  // ---- the encoder a server follows ----

  /** Attributes as a server means them. */
  datatype Attribute =
    | MappedAddress(endpoint: Endpoint)
    | XorMappedAddress(endpoint: Endpoint)
    | Other(raw: RawAttribute)

  /** Anything else a server may add: other kinds, or addresses that are not IPv4. */
  ghost predicate Plain(a: Attribute) {
    a.Other? ==>
      && |a.raw.value| < 0x1_0000
      && (a.raw.kind == MAPPED_ADDRESS || a.raw.kind == XOR_MAPPED_ADDRESS ==> |a.raw.value| < 8 || a.raw.value[1] != IPV4)
  }

  function Bytes16(x: Word): (b: seq<Byte>)
    ensures |b| == 2 && U16(b[0], b[1]) == x
  {
    [x / 0x100, x % 0x100]
  }

  function Bytes32(x: DWord): (b: seq<Byte>)
    ensures |b| == 4 && U32(b[0], b[1], b[2], b[3]) == x
  {
    Bytes16(x / 0x1_0000) + Bytes16(x % 0x1_0000)
  }

  /** Section 15.1: a zero byte, the family, the port and the address. */
  function AddressValue(e: Endpoint): (b: seq<Byte>)
    ensures |b| == 8
  {
    [0, IPV4] + Bytes16(e.port) + Bytes32(e.addr)
  }

  function Masked(e: Endpoint, cookie: DWord): Endpoint {
    Endpoint(Xor32(e.addr, cookie), Xor16(e.port, Upper(cookie)))
  }

  /** Section 15.2: the same, exclusive-ored with the header's cookie. */
  function Raw(a: Attribute, cookie: DWord): RawAttribute {
    match a
    case MappedAddress(e) => RawAttribute(MAPPED_ADDRESS, AddressValue(e))
    case XorMappedAddress(e) =>
      RawAttribute(XOR_MAPPED_ADDRESS, AddressValue(Masked(e, cookie)))
    case Other(raw) => raw
  }

  /** Type, length, value, and padding of any content. */
  function EncodeAttribute(raw: RawAttribute, padding: seq<Byte>): seq<Byte>
    requires |raw.value| < 0x1_0000
  {
    Bytes16(raw.kind) + Bytes16(|raw.value|) + raw.value + padding
  }

  function EncodeAll(raws: seq<RawAttribute>, paddings: seq<seq<Byte>>): seq<Byte>
    requires |raws| == |paddings|
    requires forall k :: 0 <= k < |raws| ==> |raws[k].value| < 0x1_0000
  {
    if raws == [] then [] else EncodeAttribute(raws[0], paddings[0]) + EncodeAll(raws[1..], paddings[1..])
  }

  /** A success response header; the length field and the transaction id may hold anything. */
  function Header(length: Word, cookie: DWord, transaction: seq<Byte>): seq<Byte> {
    Bytes16(BINDING_SUCCESS) + Bytes16(length) + Bytes32(cookie) + transaction
  }

  function MeantAddress(attributes: seq<Attribute>): Option<Endpoint> {
    if attributes == [] then None
    else
      match attributes[0]
      case MappedAddress(e) => Some(e)
      case XorMappedAddress(e) => Some(e)
      case Other(_) => MeantAddress(attributes[1..])
  }

  // ---- decoding inverts encoding ----

  /** The port and the address stand at their places in an address value. */
  lemma AddressValueFields(e: Endpoint)
    ensures var v := AddressValue(e);
            v[1] == IPV4 && U16(v[2], v[3]) == e.port && U32(v[4], v[5], v[6], v[7]) == e.addr
  {
    var v := AddressValue(e);
    var p, a := Bytes16(e.port), Bytes32(e.addr);
    assert v == [0, IPV4, p[0], p[1], a[0], a[1], a[2], a[3]];
  }

  /** An attribute's encoding carries the address the server meant, and no other attribute carries one. */
  lemma AddressInRaw(a: Attribute, cookie: DWord)
    requires Plain(a)
    ensures AddressIn(Raw(a, cookie), cookie) == if a.Other? then None else Some(a.endpoint)
  {
    if a.MappedAddress? {
      AddressValueFields(a.endpoint);
    } else if a.XorMappedAddress? {
      AddressValueFields(Masked(a.endpoint, cookie));
      XorTwice(a.endpoint.addr, cookie);
      XorTwice(a.endpoint.port, Upper(cookie));
    }
  }

  lemma {:induction false} FirstAddressOfRaw(attributes: seq<Attribute>, cookie: DWord)
    requires forall k :: 0 <= k < |attributes| ==> Plain(attributes[k])
    ensures FirstAddress(Raws(attributes, cookie), cookie) == MeantAddress(attributes)
  {
    if attributes != [] {
      AddressInRaw(attributes[0], cookie);
      FirstAddressOfRaw(attributes[1..], cookie);
      assert Raws(attributes, cookie)[1..] == Raws(attributes[1..], cookie);
    }
  }

  function Raws(attributes: seq<Attribute>, cookie: DWord): (r: seq<RawAttribute>)
    ensures |r| == |attributes|
    ensures forall k :: 0 <= k < |r| ==> r[k] == Raw(attributes[k], cookie)
  {
    if attributes == [] then [] else [Raw(attributes[0], cookie)] + Raws(attributes[1..], cookie)
  }

  ghost predicate Padded(raws: seq<RawAttribute>, paddings: seq<seq<Byte>>) {
    && |raws| == |paddings|
    && forall k :: 0 <= k < |raws| ==> |raws[k].value| < 0x1_0000 && |paddings[k]| == Pad(|raws[k].value|)
  }

  /** The four header bytes of an encoded attribute. */
  lemma EncodedHeader(raw: RawAttribute, padding: seq<Byte>)
    requires |raw.value| < 0x1_0000
    ensures var e := EncodeAttribute(raw, padding);
            && |e| == 4 + |raw.value| + |padding|
            && U16(e[0], e[1]) == raw.kind && U16(e[2], e[3]) == |raw.value|
            && e[4..4 + |raw.value|] == raw.value
  {
    var e, k, n := EncodeAttribute(raw, padding), Bytes16(raw.kind), Bytes16(|raw.value|);
    assert e[0] == k[0] && e[1] == k[1] && e[2] == n[0] && e[3] == n[1];
  }

  /** An encoded attribute is read back, and the walk goes on right behind its padding. */
  lemma ReadsAttribute(prefix: seq<Byte>, raw: RawAttribute, padding: seq<Byte>, rest: seq<Byte>)
    requires |raw.value| < 0x1_0000 && |padding| == Pad(|raw.value|)
    ensures var e := EncodeAttribute(raw, padding);
            Attributes(prefix + e + rest, |prefix|) == [raw] + Attributes(prefix + e + rest, |prefix + e|)
  {
    EncodedHeader(raw, padding);
    var e := EncodeAttribute(raw, padding);
    var b, p, n := prefix + e + rest, |prefix|, |raw.value|;
    assert b[p] == e[0] && b[p + 1] == e[1] && b[p + 2] == e[2] && b[p + 3] == e[3];
    assert b[p + 4..p + 4 + n] == e[4..4 + n];
    assert Fits(b, p) && AttributeAt(b, p) == raw && NextAt(b, p) == |prefix + e|;
  }

  /** Walking an encoded attribute list, behind any prefix, finds exactly the attributes encoded. */
  lemma {:induction false} AttributesOfEncoding(prefix: seq<Byte>, raws: seq<RawAttribute>, paddings: seq<seq<Byte>>)
    requires Padded(raws, paddings)
    ensures Attributes(prefix + EncodeAll(raws, paddings), |prefix|) == raws
    decreases |raws|
  {
    if raws != [] {
      var first := EncodeAttribute(raws[0], paddings[0]);
      var rest := EncodeAll(raws[1..], paddings[1..]);
      assert prefix + EncodeAll(raws, paddings) == prefix + first + rest;
      ReadsAttribute(prefix, raws[0], paddings[0], rest);
      AttributesOfEncoding(prefix + first, raws[1..], paddings[1..]);
    }
  }

  /** Whatever a server encodes, decoding returns the first IPv4 address it meant, or reports that there is none. */
  lemma DecodingInvertsEncoding(attributes: seq<Attribute>, paddings: seq<seq<Byte>>, length: Word, cookie: DWord,
                                transaction: seq<Byte>)
    requires |transaction| == 12
    requires forall k :: 0 <= k < |attributes| ==> Plain(attributes[k])
    requires Padded(Raws(attributes, cookie), paddings)
    ensures Answer(Header(length, cookie, transaction) + EncodeAll(Raws(attributes, cookie), paddings))
         == match MeantAddress(attributes) case Some(e) => Mapped(e) case None => NoAddress
  {
    var header := Header(length, cookie, transaction);
    var b := header + EncodeAll(Raws(attributes, cookie), paddings);
    AttributesOfEncoding(header, Raws(attributes, cookie), paddings);
    FirstAddressOfRaw(attributes, cookie);
    assert b[0] == Bytes16(BINDING_SUCCESS)[0] && b[1] == Bytes16(BINDING_SUCCESS)[1];
    assert b[4] == Bytes32(cookie)[0] && b[5] == Bytes32(cookie)[1]
        && b[6] == Bytes32(cookie)[2] && b[7] == Bytes32(cookie)[3];
  }

  // ---- what stands on the wire ----

  function Bit(x: nat, k: nat): nat {
    if k == 0 then x % 2 else Bit(x / 2, k - 1)
  }

  /** Exclusive or, bit by bit: a bit is set exactly if the two bits differ. */
  lemma {:induction false} XorBit(x: nat, y: nat, k: nat)
    ensures Bit(Xor(x, y), k) == if Bit(x, k) == Bit(y, k) then 0 else 1
    decreases k
  {
    XorHalves(x, y);
    if k > 0 {
      XorBit(x / 2, y / 2, k - 1);
    }
  }

  lemma XorHalves(x: nat, y: nat)
    ensures Xor(x, y) == 2 * Xor(x / 2, y / 2) + if x % 2 == y % 2 then 0 else 1
  {
  }

  /** A number moved up by k bits. */
  function Shifted(x: nat, k: nat): nat {
    if k == 0 then x else 2 * Shifted(x, k - 1)
  }

  /** Exclusive or works on the low bits and the high bits separately. */
  lemma {:induction false} XorSplit(h: nat, l: nat, h': nat, l': nat, k: nat)
    requires l < Pow2(k) && l' < Pow2(k)
    ensures Xor(Shifted(h, k) + l, Shifted(h', k) + l') == Shifted(Xor(h, h'), k) + Xor(l, l')
    decreases k
  {
    if k == 0 {
    } else {
      var x, y := Shifted(h, k) + l, Shifted(h', k) + l';
      assert x / 2 == Shifted(h, k - 1) + l / 2 && y / 2 == Shifted(h', k - 1) + l' / 2;
      assert x % 2 == l % 2 && y % 2 == l' % 2;
      XorSplit(h, l / 2, h', l' / 2, k - 1);
      XorHalves(x, y);
      XorHalves(l, l');
    }
  }

  lemma ShiftedEight(x: nat, k: nat)
    ensures Shifted(x, k + 8) == 0x100 * Shifted(x, k)
  {
    assert Shifted(x, k + 2) == 4 * Shifted(x, k);
    assert Shifted(x, k + 4) == 4 * Shifted(x, k + 2);
    assert Shifted(x, k + 6) == 4 * Shifted(x, k + 4);
  }

  /** Of two 16-bit values each byte is exclusive-ored with its like. */
  lemma XorBytes2(a: Byte, b: Byte, c: Byte, d: Byte)
    ensures Xor(U16(a, b), U16(c, d)) == 0x100 * Xor(a, c) + Xor(b, d)
  {
    Pow2Eight(0);
    ShiftedEight(a, 0);
    ShiftedEight(c, 0);
    ShiftedEight(Xor(a, c), 0);
    XorSplit(a, b, c, d, 8);
  }

  lemma XorWords(h: Word, l: Word, h': Word, l': Word)
    ensures Xor(0x1_0000 * h + l, 0x1_0000 * h' + l') == 0x1_0000 * Xor(h, h') + Xor(l, l')
  {
    Pow2Eight(0);
    Pow2Eight(8);
    ShiftedEight(h, 0);
    ShiftedEight(h, 8);
    ShiftedEight(h', 0);
    ShiftedEight(h', 8);
    ShiftedEight(Xor(h, h'), 0);
    ShiftedEight(Xor(h, h'), 8);
    XorSplit(h, l, h', l', 16);
  }

  /** Of two 32-bit values each byte is exclusive-ored with its like. */
  lemma XorBytes4(a: Byte, b: Byte, c: Byte, d: Byte, e: Byte, f: Byte, g: Byte, h: Byte)
    ensures Xor(U32(a, b, c, d), U32(e, f, g, h))
         == 0x100_0000 * Xor(a, e) + 0x1_0000 * Xor(b, f) + 0x100 * Xor(c, g) + Xor(d, h)
  {
    XorWords(U16(a, b), U16(c, d), U16(e, f), U16(g, h));
    XorBytes2(a, b, e, f);
    XorBytes2(c, d, g, h);
  }

  lemma XorByteBound(x: Byte, y: Byte)
    ensures Xor(x, y) < 0x100
  {
    Pow2Eight(0);
    XorBound(x, y, 8);
  }

  /** Two and four bytes in network order, and the first two of four. */
  lemma NetworkOrder(a: Byte, b: Byte, c: Byte, d: Byte)
    ensures U16(a, b) as int == (a as int) * 0x100 + b as int
    ensures U32(a, b, c, d) as int == (a as int) * 0x100_0000 + (b as int) * 0x1_0000 + (c as int) * 0x100 + d as int
    ensures Upper(U32(a, b, c, d)) as int == (a as int) * 0x100 + b as int
    ensures Bytes16(U16(a, b)) == [a, b] && Bytes32(U32(a, b, c, d)) == [a, b, c, d]
  {
    assert U32(a, b, c, d) as int == 0x1_0000 * (U16(a, b) as int) + U16(c, d) as int;
  }

  /**
   * Sections 15.1 and 15.2, read byte by byte: an attribute of kind 0x0020 has its port masked with the first two and
   * its address with all four cookie bytes; one of kind 0x0001 has them in the clear; nothing else carries an address.
   */
  lemma AddressOnWire(kind: Word, v: seq<Byte>, c0: Byte, c1: Byte, c2: Byte, c3: Byte)
    ensures AddressIn(RawAttribute(kind, v), U32(c0, c1, c2, c3)).Some? <==>
      (kind == 0x0001 || kind == 0x0020) && |v| >= 8 && v[1] == 0x01
    ensures kind == 0x0001 && |v| >= 8 && v[1] == 0x01 ==>
      AddressIn(RawAttribute(kind, v), U32(c0, c1, c2, c3)) == Some(Endpoint(U32(v[4], v[5], v[6], v[7]), U16(v[2], v[3])))
    ensures kind == 0x0020 && |v| >= 8 && v[1] == 0x01 ==>
      var e := AddressIn(RawAttribute(kind, v), U32(c0, c1, c2, c3)).value;
      && e.port == 0x100 * Xor(v[2], c0) + Xor(v[3], c1)
      && e.addr == 0x100_0000 * Xor(v[4], c0) + 0x1_0000 * Xor(v[5], c1) + 0x100 * Xor(v[6], c2) + Xor(v[7], c3)
  {
    NetworkOrder(c0, c1, c2, c3);
    if kind == 0x0020 && |v| >= 8 {
      XorBytes2(v[2], v[3], c0, c1);
      XorBytes4(v[4], v[5], v[6], v[7], c0, c1, c2, c3);
    }
  }

  /** An address value, byte by byte. */
  lemma AddressValueBytes(p0: Byte, p1: Byte, a0: Byte, a1: Byte, a2: Byte, a3: Byte)
    ensures AddressValue(Endpoint(U32(a0, a1, a2, a3), U16(p0, p1))) == [0x00, 0x01, p0, p1, a0, a1, a2, a3]
  {
    NetworkOrder(p0, p1, 0, 0);
    NetworkOrder(a0, a1, a2, a3);
  }

  lemma MaskedPort(p0: Byte, p1: Byte, c0: Byte, c1: Byte, c2: Byte, c3: Byte) returns (q0: Byte, q1: Byte)
    ensures q0 == Xor(p0, c0) && q1 == Xor(p1, c1)
    ensures Xor16(U16(p0, p1), Upper(U32(c0, c1, c2, c3))) == U16(q0, q1)
  {
    XorByteBound(p0, c0);
    XorByteBound(p1, c1);
    q0, q1 := Xor(p0, c0), Xor(p1, c1);
    NetworkOrder(c0, c1, c2, c3);
    assert Upper(U32(c0, c1, c2, c3)) == U16(c0, c1);
    XorBytes2(p0, p1, c0, c1);
  }

  lemma MaskedAddress(a0: Byte, a1: Byte, a2: Byte, a3: Byte, c0: Byte, c1: Byte, c2: Byte, c3: Byte)
    returns (b0: Byte, b1: Byte, b2: Byte, b3: Byte)
    ensures b0 == Xor(a0, c0) && b1 == Xor(a1, c1) && b2 == Xor(a2, c2) && b3 == Xor(a3, c3)
    ensures Xor32(U32(a0, a1, a2, a3), U32(c0, c1, c2, c3)) == U32(b0, b1, b2, b3)
  {
    XorByteBound(a0, c0);
    XorByteBound(a1, c1);
    XorByteBound(a2, c2);
    XorByteBound(a3, c3);
    b0, b1, b2, b3 := Xor(a0, c0), Xor(a1, c1), Xor(a2, c2), Xor(a3, c3);
    XorBytes4(a0, a1, a2, a3, c0, c1, c2, c3);
  }

  lemma RawOfMasked(e: Endpoint, cookie: DWord, q0: Byte, q1: Byte, b0: Byte, b1: Byte, b2: Byte, b3: Byte)
    requires Masked(e, cookie) == Endpoint(U32(b0, b1, b2, b3), U16(q0, q1))
    ensures Raw(XorMappedAddress(e), cookie) == RawAttribute(0x0020, [0x00, 0x01, q0, q1, b0, b1, b2, b3])
  {
    AddressValueBytes(q0, q1, b0, b1, b2, b3);
  }

  /** Section 15.2 of the encoder: the port's and the address's bytes are masked with the cookie's bytes, one by one. */
  lemma MaskOnWire(p0: Byte, p1: Byte, a0: Byte, a1: Byte, a2: Byte, a3: Byte, c0: Byte, c1: Byte, c2: Byte, c3: Byte)
    returns (q0: Byte, q1: Byte, b0: Byte, b1: Byte, b2: Byte, b3: Byte)
    ensures q0 == Xor(p0, c0) && q1 == Xor(p1, c1)
    ensures b0 == Xor(a0, c0) && b1 == Xor(a1, c1) && b2 == Xor(a2, c2) && b3 == Xor(a3, c3)
    ensures Raw(XorMappedAddress(Endpoint(U32(a0, a1, a2, a3), U16(p0, p1))), U32(c0, c1, c2, c3))
         == RawAttribute(0x0020, [0x00, 0x01, q0, q1, b0, b1, b2, b3])
  {
    q0, q1 := MaskedPort(p0, p1, c0, c1, c2, c3);
    b0, b1, b2, b3 := MaskedAddress(a0, a1, a2, a3, c0, c1, c2, c3);
    RawOfMasked(Endpoint(U32(a0, a1, a2, a3), U16(p0, p1)), U32(c0, c1, c2, c3), q0, q1, b0, b1, b2, b3);
  }

  /** Section 15.1 of the encoder: port and address in the clear. */
  lemma ClearOnWire(p0: Byte, p1: Byte, a0: Byte, a1: Byte, a2: Byte, a3: Byte, cookie: DWord)
    ensures Raw(MappedAddress(Endpoint(U32(a0, a1, a2, a3), U16(p0, p1))), cookie)
         == RawAttribute(0x0001, [0x00, 0x01, p0, p1, a0, a1, a2, a3])
  {
    AddressValueBytes(p0, p1, a0, a1, a2, a3);
  }

  /** One step of the walk: two bytes of kind, two of length, the value, and what is missing to a multiple of four. */
  lemma WalkOnWire(b: seq<Byte>, pos: nat)
    ensures pos + 4 > |b| ==> Attributes(b, pos) == []
    ensures pos + 4 <= |b| ==>
      var n: int := U16(b[pos + 2], b[pos + 3]);
      var next := pos + 4 + (n + 3) / 4 * 4;
      Attributes(b, pos) ==
        if pos + 4 + n > |b| then []
        else [RawAttribute(U16(b[pos], b[pos + 1]), b[pos + 4..pos + 4 + n])] + Attributes(b, next)
  {
    if pos + 4 <= |b| {
      var n: int := LengthAt(b, pos);
      assert n + Pad(n) == (n + 3) / 4 * 4;
    }
  }

  lemma {:induction false} FirstAddressAt(attributes: seq<RawAttribute>, cookie: DWord, k: nat)
    requires k <= |attributes| && forall j :: 0 <= j < k ==> AddressIn(attributes[j], cookie).None?
    ensures k == |attributes| ==> FirstAddress(attributes, cookie) == None
    ensures k < |attributes| && AddressIn(attributes[k], cookie).Some? ==>
      FirstAddress(attributes, cookie) == AddressIn(attributes[k], cookie)
  {
    if k > 0 {
      FirstAddressAt(attributes[1..], cookie, k - 1);
    }
  }

  /** A success response answers with the earliest of its attributes that carries an address, if any does. */
  lemma EarliestIsAnswered(b: seq<Byte>, k: nat)
    requires |b| >= 20 && b[0] == 0x01 && b[1] == 0x01
    requires k <= |Attributes(b, 20)|
    requires forall j :: 0 <= j < k ==> AddressIn(Attributes(b, 20)[j], U32(b[4], b[5], b[6], b[7])).None?
    ensures k == |Attributes(b, 20)| ==> Answer(b) == NoAddress
    ensures k < |Attributes(b, 20)| && AddressIn(Attributes(b, 20)[k], U32(b[4], b[5], b[6], b[7])).Some? ==>
      Answer(b) == Mapped(AddressIn(Attributes(b, 20)[k], U32(b[4], b[5], b[6], b[7])).value)
  {
    FirstAddressAt(Attributes(b, 20), U32(b[4], b[5], b[6], b[7]), k);
  }

  lemma XorStep(x: nat, y: nat, r: nat)
    requires Xor(x / 2, y / 2) == r
    ensures Xor(x, y) == 2 * r + if x % 2 == y % 2 then 0 else 1
  {
  }

  lemma {:induction false} XorSelf(x: nat)
    ensures Xor(x, x) == 0
  {
    if x > 0 {
      XorSelf(x / 2);
    }
  }

  /** The port bytes of the sample, unmasked. */
  lemma SamplePort()
    ensures Xor(0xa1, 0x21) == 0x80 && Xor(0x47, 0x12) == 0x55
  {
    XorStep(1, 0, 0);
    XorStep(2, 0, 1);
    XorStep(5, 1, 2);
    XorStep(10, 2, 4);
    XorStep(20, 4, 8);
    XorStep(40, 8, 16);
    XorStep(80, 16, 32);
    XorStep(161, 33, 64);
    XorStep(4, 1, 2);
    XorStep(8, 2, 5);
    XorStep(17, 4, 10);
    XorStep(35, 9, 21);
    XorStep(71, 18, 42);
  }

  /** The address bytes of the sample, unmasked. */
  lemma SampleAddress()
    ensures Xor(0xe1, 0x21) == 0xc0 && Xor(0x12, 0x12) == 0x00 && Xor(0xa6, 0xa4) == 0x02 && Xor(0x43, 0x42) == 0x01
  {
    XorStep(1, 0, 0);
    XorStep(3, 0, 1);
    XorStep(7, 1, 3);
    XorStep(14, 2, 6);
    XorStep(28, 4, 12);
    XorStep(56, 8, 24);
    XorStep(112, 16, 48);
    XorStep(225, 33, 96);
    XorSelf(0x12);
    XorSelf(41);
    XorStep(83, 82, 0);
    XorStep(166, 164, 1);
    XorSelf(33);
    XorStep(67, 66, 0);
  }

  /** A whole attribute and nothing behind it. */
  lemma OneAttribute(b: seq<Byte>, kind: Word, v: seq<Byte>)
    requires |b| == 24 + |v| && |v| == 8 && U16(b[20], b[21]) == kind && U16(b[22], b[23]) == 8 && b[24..32] == v
    ensures Attributes(b, 20) == [RawAttribute(kind, v)]
  {
    WalkOnWire(b, 20);
    WalkOnWire(b, 32);
  }

  lemma OnlyAddress(a: RawAttribute, cookie: DWord)
    ensures FirstAddress([a], cookie) == AddressIn(a, cookie)
  {
  }

  /** A response with one attribute of eight bytes means what that attribute carries. */
  lemma AnswerOfOne(b: seq<Byte>, a: RawAttribute, e: Endpoint)
    requires |b| == 32 && b[0] == 0x01 && b[1] == 0x01 && Attributes(b, 20) == [a]
    requires AddressIn(a, U32(b[4], b[5], b[6], b[7])) == Some(e)
    ensures Answer(b) == Mapped(e)
  {
    OnlyAddress(a, U32(b[4], b[5], b[6], b[7]));
  }

  /** The masked endpoint whose bytes, exclusive-ored with the cookie's, are given. */
  lemma Unmasks(v: seq<Byte>, c0: Byte, c1: Byte, c2: Byte, c3: Byte, q0: Byte, q1: Byte, a0: Byte, a1: Byte, a2: Byte, a3: Byte)
    requires |v| == 8 && v[1] == 0x01
    requires q0 == Xor(v[2], c0) && q1 == Xor(v[3], c1)
    requires a0 == Xor(v[4], c0) && a1 == Xor(v[5], c1) && a2 == Xor(v[6], c2) && a3 == Xor(v[7], c3)
    ensures AddressIn(RawAttribute(0x0020, v), U32(c0, c1, c2, c3)) == Some(Endpoint(U32(a0, a1, a2, a3), U16(q0, q1)))
  {
    var p0, p1 := MaskedPort(v[2], v[3], c0, c1, c2, c3);
    var b0, b1, b2, b3 := MaskedAddress(v[4], v[5], v[6], v[7], c0, c1, c2, c3);
  }

  /**
   * A response whose only attribute is an IPv4 XOR-MAPPED-ADDRESS is decoded to the port and address whose bytes are the
   * attribute's, exclusive-ored with the datagram's fifth to eighth byte.
   */
  lemma OneMaskedAddress(b: seq<Byte>, q0: Byte, q1: Byte, a0: Byte, a1: Byte, a2: Byte, a3: Byte)
    requires |b| == 32 && b[0] == 0x01 && b[1] == 0x01
    requires b[20] == 0x00 && b[21] == 0x20 && b[22] == 0x00 && b[23] == 0x08 && b[25] == 0x01
    requires q0 == Xor(b[26], b[4]) && q1 == Xor(b[27], b[5])
    requires a0 == Xor(b[28], b[4]) && a1 == Xor(b[29], b[5]) && a2 == Xor(b[30], b[6]) && a3 == Xor(b[31], b[7])
    ensures Answer(b) == Mapped(Endpoint(U32(a0, a1, a2, a3), U16(q0, q1)))
  {
    var v := b[24..32];
    OneAttribute(b, 0x0020, v);
    Unmasks(v, b[4], b[5], b[6], b[7], q0, q1, a0, a1, a2, a3);
    AnswerOfOne(b, RawAttribute(0x0020, v), Endpoint(U32(a0, a1, a2, a3), U16(q0, q1)));
  }

  lemma SampleDecoded(b: seq<Byte>)
    requires |b| == 32 && b[0] == 0x01 && b[1] == 0x01
    requires b[4] == 0x21 && b[5] == 0x12 && b[6] == 0xa4 && b[7] == 0x42
    requires b[20] == 0x00 && b[21] == 0x20 && b[22] == 0x00 && b[23] == 0x08 && b[25] == 0x01
    requires b[26] == 0xa1 && b[27] == 0x47
    requires b[28] == 0xe1 && b[29] == 0x12 && b[30] == 0xa6 && b[31] == 0x43
    ensures Answer(b) == Mapped(Endpoint(0xc000_0201, 32853))
  {
    SamplePort();
    SampleAddress();
    OneMaskedAddress(b, 0x80, 0x55, 0xc0, 0x00, 0x02, 0x01);
  }

  /** The response that section 2.2 of RFC 5769 gives for 192.0.2.1 and port 32853, without its other attributes. */
  lemma SampleResponse(b: seq<Byte>)
    requires b == [0x01, 0x01, 0x00, 0x0c, 0x21, 0x12, 0xa4, 0x42,
                   0xb7, 0xe7, 0xa7, 0x01, 0xbc, 0x34, 0xd6, 0x86, 0xfa, 0x87, 0xdf, 0xae,
                   0x00, 0x20, 0x00, 0x08, 0x00, 0x01, 0xa1, 0x47, 0xe1, 0x12, 0xa6, 0x43]
    ensures Answer(b) == Mapped(Endpoint(0xc000_0201, 32853))
  {
    SampleDecoded(b);
  }
}
