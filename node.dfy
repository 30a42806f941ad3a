/**
 * The WLED "sysinfo" beacon and the node descriptor decoded from it
 * (class `Node` of wtray/__main__.py).
 *
 * Layout of the datagram, by byte offset:
 *   0       protocol token, 255
 *   1       message kind, 1 for sysinfo
 *   2..5    IPv4 address of the node
 *   6..37   node name, 32 bytes of UTF-8
 *   38      high bit: on/off state; low seven bits: device type code
 *   39      node id
 *   40..43  firmware version, 32-bit little-endian
 */
module Nodes {
  import opened Text

  /** The table `Node.node_types`: device type codes with a name. */
  const NodeTypes: map<int, string> :=
    map[0 := "Undefined", 82 := "ESP8266", 32 := "ESP32",
        33 := "ESP32S2", 34 := "ESP32S3", 35 := "ESP32C3"]

  /** `Node.type`: a name from the table, or the raw code when the table lacks it. */
  datatype DeviceType = Named(typeName: string) | Unlisted(code: int)

  /**
   * The six attributes of a decoded `Node`. `name` holds the 32 raw bytes of
   * the name field; the decoder only builds a Node when they are valid UTF-8,
   * and on valid UTF-8 decoding is injective, so comparing these bytes is
   * comparing the decoded strings.
   */
  datatype Node = Node(ip: string, name: seq<bv8>, state: bool, nodeType: DeviceType,
                       id: int, version: int)

  /** The state flag: bit 0x80 of byte 38. */
  function StateFlag(b: bv8): (on: bool)
    ensures on <==> b as int >= 128
  {
    b & 0x80 == 0x80
  }

  /** The device type code: the low seven bits of byte 38. */
  function TypeCode(b: bv8): (code: int)
    ensures code == b as int % 128
    ensures 0 <= code < 128
  {
    (b & 0x7F) as int
  }

  /** The two fields packed into byte 38 lose nothing: they give the byte back. */
  lemma StateAndTypeCodeRebuildByte(b: bv8)
    ensures b as int == (if StateFlag(b) then 128 else 0) + TypeCode(b)
  {
  }

  /** The type lookup of `Node.__init__`: the table's name, else the code itself. */
  function DeviceTypeOf(code: int): (t: DeviceType)
    ensures t.Named? <==> code in {0, 82, 32, 33, 34, 35}
    ensures t.Named? ==> t.typeName == NodeTypes[code]
    ensures t.Unlisted? ==> t.code == code
  {
    if code in NodeTypes then Named(NodeTypes[code]) else Unlisted(code)
  }

  /** Distinct codes give distinct types: the table has no two codes with one name. */
  lemma DeviceTypeOfInjective(c1: int, c2: int)
    requires DeviceTypeOf(c1) == DeviceTypeOf(c2)
    ensures c1 == c2
  {
    if c1 in NodeTypes && c2 in NodeTypes {
      assert NodeTypes[c1] == NodeTypes[c2];
    }
  }

  /** `data[40] | (data[41] << 8) | (data[42] << 16) | (data[43] << 24)`. */
  function LittleEndian32(b0: bv8, b1: bv8, b2: bv8, b3: bv8): (v: int)
    ensures v == b0 as int + 256 * b1 as int + 65536 * b2 as int + 16777216 * b3 as int
    ensures 0 <= v < 0x1_0000_0000
  {
    ((b0 as bv32) | ((b1 as bv32) << 8) | ((b2 as bv32) << 16) | ((b3 as bv32) << 24)) as int
  }

  lemma Base256Digit(x: int, r: int, y: int, t: int)
    requires 0 <= x < 256 && 0 <= y < 256 && x + 256 * r == y + 256 * t
    ensures x == y && r == t
  {
  }

  /** Distinct version bytes give distinct versions. */
  lemma Base256Injective(a0: int, a1: int, a2: int, a3: int, b0: int, b1: int, b2: int, b3: int)
    requires 0 <= a0 < 256 && 0 <= a1 < 256 && 0 <= a2 < 256 && 0 <= a3 < 256
    requires 0 <= b0 < 256 && 0 <= b1 < 256 && 0 <= b2 < 256 && 0 <= b3 < 256
    requires a0 + 256 * a1 + 65536 * a2 + 16777216 * a3 == b0 + 256 * b1 + 65536 * b2 + 16777216 * b3
    ensures a0 == b0 && a1 == b1 && a2 == b2 && a3 == b3
  {
    var ra2, rb2 := a2 + 256 * a3, b2 + 256 * b3;
    var ra1, rb1 := a1 + 256 * ra2, b1 + 256 * rb2;
    Base256Digit(a0, ra1, b0, rb1);
    Base256Digit(a1, ra2, b1, rb2);
    Base256Digit(a2, a3, b2, b3);
  }

  /** `Node.__eq__`: the six attributes compare equal pairwise. */
  function Same(a: Node, b: Node): (eq: bool)
    ensures eq <==> a == b
  {
    a.ip == b.ip && a.name == b.name && a.state == b.state
    && a.nodeType == b.nodeType && a.id == b.id && a.version == b.version
  }

  /**
   * What `Node(data)` needs to return rather than raise: the indexing of
   * byte 43 needs 44 bytes, and the name field must decode as UTF-8.
   */
  predicate Decodable(data: seq<bv8>) {
    |data| >= 44 && ValidUtf8(data[6..38])
  }

  /** `Node.__init__`: the descriptor carried by a sysinfo datagram. */
  function Decode(data: seq<bv8>): (n: Node)
    requires Decodable(data)
    ensures n.ip == DottedQuad(data[2] as nat, data[3] as nat, data[4] as nat, data[5] as nat)
    ensures ParseDottedQuad(n.ip) == Some([data[2] as nat, data[3] as nat, data[4] as nat, data[5] as nat])
    ensures n.name == data[6..38] && |n.name| == 32
    ensures n.state <==> data[38] as int >= 128
    ensures n.nodeType == DeviceTypeOf(data[38] as int % 128)
    ensures n.id == data[39] as int && 0 <= n.id < 256
    ensures n.version == data[40] as int + 256 * data[41] as int
                         + 65536 * data[42] as int + 16777216 * data[43] as int
    ensures 0 <= n.version < 0x1_0000_0000
  {
    var typeIdState := data[38];
    var typeId := TypeCode(typeIdState);
    ParseDottedQuadOfDottedQuad(data[2] as nat, data[3] as nat, data[4] as nat, data[5] as nat);
    Node(DottedQuad(data[2] as nat, data[3] as nat, data[4] as nat, data[5] as nat),
         data[6..38],
         StateFlag(typeIdState),
         DeviceTypeOf(typeId),
         data[39] as int,
         LittleEndian32(data[40], data[41], data[42], data[43]))
  }

  /** The decoder reads bytes 2..43 and nothing else. */
  lemma DecodeReadsOnlyPayload(d1: seq<bv8>, d2: seq<bv8>)
    requires Decodable(d1) && Decodable(d2)
    requires d1[2..44] == d2[2..44]
    ensures Decode(d1) == Decode(d2)
  {
    forall i | 2 <= i < 44 ensures d1[i] == d2[i] {
      assert d1[i] == d1[2..44][i - 2];
    }
    assert d1[6..38] == d2[6..38];
  }

  lemma ByteFromInt(x: bv8, y: bv8)
    requires x as int == y as int
    ensures x == y
  {
  }

  /** Byte 38 is recovered from the state flag and the device type. */
  lemma Byte38Recovered(x: bv8, y: bv8)
    requires x as int >= 128 <==> y as int >= 128
    requires DeviceTypeOf(x as int % 128) == DeviceTypeOf(y as int % 128)
    ensures x == y
  {
    DeviceTypeOfInjective(x as int % 128, y as int % 128);
    ByteFromInt(x, y);
  }

  lemma SameIpSameAddressBytes(d1: seq<bv8>, d2: seq<bv8>)
    requires Decodable(d1) && Decodable(d2)
    requires Decode(d1).ip == Decode(d2).ip
    ensures d1[2..6] == d2[2..6]
  {
    ByteFromInt(d1[2], d2[2]);
    ByteFromInt(d1[3], d2[3]);
    ByteFromInt(d1[4], d2[4]);
    ByteFromInt(d1[5], d2[5]);
  }

  lemma SameVersionSameVersionBytes(d1: seq<bv8>, d2: seq<bv8>)
    requires Decodable(d1) && Decodable(d2)
    requires Decode(d1).version == Decode(d2).version
    ensures d1[40..44] == d2[40..44]
  {
    Base256Injective(d1[40] as int, d1[41] as int, d1[42] as int, d1[43] as int,
                     d2[40] as int, d2[41] as int, d2[42] as int, d2[43] as int);
    ByteFromInt(d1[40], d2[40]);
    ByteFromInt(d1[41], d2[41]);
    ByteFromInt(d1[42], d2[42]);
    ByteFromInt(d1[43], d2[43]);
  }

  /** The decoder loses nothing it reads: equal nodes come from equal bytes 2..43. */
  lemma DecodeLosesNothing(d1: seq<bv8>, d2: seq<bv8>)
    requires Decodable(d1) && Decodable(d2)
    requires Decode(d1) == Decode(d2)
    ensures d1[2..44] == d2[2..44]
  {
    SameIpSameAddressBytes(d1, d2);
    SameVersionSameVersionBytes(d1, d2);
    Byte38Recovered(d1[38], d2[38]);
    ByteFromInt(d1[39], d2[39]);
    assert d1[2..44] == d1[2..6] + d1[6..38] + [d1[38], d1[39]] + d1[40..44];
    assert d2[2..44] == d2[2..6] + d2[6..38] + [d2[38], d2[39]] + d2[40..44];
  }

  /**
   * Two sysinfo datagrams decode to equal nodes exactly when they agree on
   * bytes 2..43.
   */
  lemma DecodeEqualIffPayloadEqual(d1: seq<bv8>, d2: seq<bv8>)
    requires Decodable(d1) && Decodable(d2)
    ensures Decode(d1) == Decode(d2) <==> d1[2..44] == d2[2..44]
  {
    if d1[2..44] == d2[2..44] {
      DecodeReadsOnlyPayload(d1, d2);
    }
    if Decode(d1) == Decode(d2) {
      DecodeLosesNothing(d1, d2);
    }
  }
}
