/**
 * Concrete beacons and registries: what the decoder and the listener do on
 * hand-built inputs.
 */
module Scenarios {
  import opened Text
  import opened Nodes
  import opened Registry
  import opened NodeDiscovery

  /** A sysinfo beacon from 192.168.1.207 with the given name field and bytes 38..43. */
  function Beacon(name: seq<bv8>, typeState: bv8, id: bv8, version: seq<bv8>): (d: seq<bv8>)
    requires |name| == 32 && ValidUtf8(name) && |version| == 4
    ensures |d| == 44 && Decodable(d) && Admissible(d) && IsSysinfo(d)
    ensures d[2] == 192 && d[3] == 168 && d[4] == 1 && d[5] == 207
    ensures d[6..38] == name && d[38] == typeState && d[39] == id
    ensures d[40] == version[0] && d[41] == version[1] && d[42] == version[2] && d[43] == version[3]
  {
    var d := [255, 1, 192, 168, 1, 207] + name + [typeState, id] + version;
    assert d[6..38] == name;
    d
  }

  /** Byte 38 = 0x80 is "on" with type code 0; 0x23 is "off" with type code 35. */
  lemma Byte38Examples()
    ensures StateFlag(0x80) && TypeCode(0x80) == 0
    ensures !StateFlag(0x23) && TypeCode(0x23) == 35
  {
  }

  /** Every code of the table gets its own name; the unlisted code 99 stays the number 99. */
  lemma DeviceTypeExamples()
    ensures DeviceTypeOf(0) == Named("Undefined")
    ensures DeviceTypeOf(82) == Named("ESP8266")
    ensures DeviceTypeOf(32) == Named("ESP32")
    ensures DeviceTypeOf(33) == Named("ESP32S2")
    ensures DeviceTypeOf(34) == Named("ESP32S3")
    ensures DeviceTypeOf(35) == Named("ESP32C3")
    ensures DeviceTypeOf(99) == Unlisted(99)
  {
  }

  /** Version bytes [1,0,0,0] read as 1 and [0,1,0,0] as 256. */
  lemma VersionExamples()
    ensures LittleEndian32(1, 0, 0, 0) == 1
    ensures LittleEndian32(0, 1, 0, 0) == 256
    ensures LittleEndian32(0xFF, 0xFF, 0xFF, 0xFF) == 0xFFFF_FFFF
  {
  }

  lemma IpExample()
    ensures DottedQuad(192, 168, 1, 207) == "192.168.1.207"
  {
    assert Decimal(19) == "19" && Decimal(16) == "16" && Decimal(20) == "20";
  }

  /** A whole beacon: address, name, state, type, id and version as laid out. */
  lemma DecodeBeaconExample(name: seq<bv8>)
    requires |name| == 32 && ValidUtf8(name)
    ensures var n := Decode(Beacon(name, 0xA2, 7, [1, 1, 0, 0]));
      && n.ip == "192.168.1.207"
      && n.name == name
      && n.state
      && n.nodeType == Named("ESP32S3")
      && n.id == 7
      && n.version == 257
  {
    IpExample();
  }

  const Alpha: seq<bv8> := [0x41, 0x6C, 0x70, 0x68, 0x61]
  const Bravo: seq<bv8> := [0x42, 0x72, 0x61, 0x76, 0x6F]
  const Charlie: seq<bv8> := [0x43, 0x68, 0x61, 0x72, 0x6C, 0x69, 0x65]

  lemma AlphaBravoCharlieSorted(alpha: Node, bravo: Node, charlie: Node)
    requires alpha.name == Alpha && bravo.name == Bravo && charlie.name == Charlie
    ensures SortedByName([alpha, bravo, charlie])
    ensures alpha.name != bravo.name && bravo.name != charlie.name && alpha.name != charlie.name
  {
    assert NameLe(Alpha, Bravo) && NameLe(Bravo, Charlie) && NameLe(Alpha, Charlie);
    assert Alpha[0] != Bravo[0] && Bravo[0] != Charlie[0] && Alpha[0] != Charlie[0];
  }

  /**
   * Nodes named Bravo, Alpha and Charlie, arriving in that order and with
   * whatever ids, sort to Alpha, Bravo, Charlie.
   */
  lemma SortExample(alpha: Node, bravo: Node, charlie: Node)
    requires alpha.name == Alpha && bravo.name == Bravo && charlie.name == Charlie
    ensures SortByName([bravo, alpha, charlie]) == [alpha, bravo, charlie]
  {
    var expected := [alpha, bravo, charlie];
    AlphaBravoCharlieSorted(alpha, bravo, charlie);
    assert multiset([bravo, alpha, charlie]) == multiset(expected);
    SortedArrangementUnique(expected, SortByName([bravo, alpha, charlie]));
  }

  /**
   * The same beacon twice stores one node, and a beacon from the same id
   * with the state bit flipped replaces it; each sysinfo beacon is followed
   * by a callback.
   */
  method RegistryScenario(name: seq<bv8>)
    requires |name| == 32 && ValidUtf8(name)
  {
    var on := Beacon(name, 0xA2, 3, [0, 0, 14, 0]);
    var off := Beacon(name, 0x22, 3, [0, 0, 14, 0]);
    var d := new Discovery();
    d.ProcessDatagram(on);
    d.ProcessDatagram(on);
    assert d.nodes.entries == map[3 := Decode(on)];
    d.ProcessDatagram(off);
    assert d.nodes.entries == map[3 := Decode(off)] && d.nodes.order == [3];
    assert Decode(on) != Decode(off);
    assert d.notifications == 3;
  }

  /**
   * A datagram of another kind is dropped, and nothing after a stop request
   * is read; the callback still fires once when the loop ends.
   */
  method StopScenario(name: seq<bv8>)
    requires |name| == 32 && ValidUtf8(name)
  {
    var on := Beacon(name, 0xA2, 3, [0, 0, 14, 0]);
    var other: seq<bv8> := [255, 2];
    var d := new Discovery();
    var inputs := [Datagram(other), StopRequest, Datagram(on)];
    assert StopIndex(inputs) == 1;
    assert Window(inputs) == [Datagram(other)];
    assert Accepted(Window(inputs)) == [];
    d.Start(inputs);
    assert d.nodes == Empty && d.notifications == 1 && !d.running;
  }
}
