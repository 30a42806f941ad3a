# WTray node discovery, modelled in Dafny

WTray is a system-tray utility for WLED LED controllers. Its one piece of
real logic is node discovery. Each WLED node broadcasts a UDP "sysinfo"
beacon. The `Discovery` listener receives these beacons and decodes each one
into a `Node` descriptor. It keeps a registry of nodes keyed by node id, where
the last observation wins, and it hands the tray a view of the nodes sorted by
name. This project models that core (classes `Node` and `Discovery` of
`wtray/__main__.py`) and proves properties of it.

- `text.dfy` (module `Text`): decimal rendering of a byte, as Python's f-string
  does it, and the dotted-quad address built from four of them, with a parser
  as its inverse. It also holds UTF-8 well-formedness (RFC 3629, section 4),
  the condition under which `bytes.decode('utf-8')` returns instead of raising.
- `node.dfy` (module `Nodes`): the beacon layout and `Node.__init__` as the
  pure function `Decode`. Bytes are `bv8`. Bit 0x80 and mask 0x7F are applied
  as bit-vector operations, and the version is assembled with `|` and `<<` in
  32 bits. The contracts state what each field means in plain arithmetic.
  `Node.__eq__` is `Same`.
- `registry.dfy` (module `Registry`): the dict `_nodes` as a value
  `NodeTable`, with the order of first insertion, because Python dicts keep
  it and `sorted` is stable. Also the assignment `_nodes[id] = node` (`Put`),
  the fold of `set_nodes` (`PutAll`), and `sorted(values, key=name)` as a
  stable insertion sort (`SortByName`).
- `discovery.dfy` (module `NodeDiscovery`): class `Discovery`. Its fields
  `nodes` and `running` are the source's `_nodes` and `_running`, and
  `notifications` counts calls of `_discovered_func`. Its methods are
  `AppendNode`, `SetNodes`, `Stop`, `ProcessDatagram` (one pass of the receive
  loop) and `Start` (the loop).
- `scenarios.dfy` (module `Scenarios`): concrete beacons and registries.

The receive loop's socket, `select` and clock are replaced by a finite
sequence of `Input`s, one per pass of the loop:
- `Datagram(data)`: a datagram was read.
- `Quiet`: the 0.5 s poll ran out with nothing to read.
- `StopRequest`: another thread called `stop()`.
Running out of inputs stands for the 31-second window closing.

Two behaviours of the code shape the model:
- The code has no length check and no exception handling. A sysinfo
  datagram shorter than 44 bytes, one whose name field is not UTF-8, or any
  datagram shorter than 2 bytes raises and ends the discovery thread. The
  model therefore makes these preconditions (`Decodable`, `Admissible`).
- The callback runs after every accepted sysinfo datagram, whether or not
  the registry changed, and once more when the loop ends. The model counts
  exactly these calls.

## Model

| member | source | states |
|---|---|---|
| Text.Decimal | wtray/__main__.py:28 | an octet renders as 1 to 3 decimal digits with no leading zero (1 digit below 10, at most 2 below 100) |
| Text.ParseDecimalOfDecimal | wtray/__main__.py:28 | reading the rendered digits back gives the number: the rendering loses nothing |
| Text.DecimalInjective | wtray/__main__.py:28 | distinct numbers render differently |
| Text.ParseDottedQuadOfDottedQuad | wtray/__main__.py:28 | the ip string `a.b.c.d` parses back to exactly `[a, b, c, d]` |
| Text.DottedQuadInjective | wtray/__main__.py:28 | two ip strings are equal only when all four octets are |
| Text.AsciiIsValidUtf8 | wtray/__main__.py:29 | an all-ASCII name field, NUL padding included, decodes as UTF-8 |
| Text.InvalidLeadBytes | wtray/__main__.py:29 | a name field starting with 0xC0, 0xC1, 0xF5..0xFF or a lone continuation byte does not decode |
| Nodes.StateFlag | wtray/__main__.py:30-31 | `state` is true exactly when byte 38 is at least 128, i.e. its bit 0x80 is set |
| Nodes.TypeCode | wtray/__main__.py:30-32 | the type code is byte 38 modulo 128, always in 0..127 |
| Nodes.StateAndTypeCodeRebuildByte | wtray/__main__.py:30-32 | 128 times the state flag plus the type code gives byte 38 back: the split loses nothing |
| Nodes.DeviceTypeOf | wtray/__main__.py:19-33 | the type is a name exactly for codes 0, 82, 32, 33, 34, 35, and then it is that code's name in the table; any other code is passed through unchanged |
| Nodes.DeviceTypeOfInjective | wtray/__main__.py:19-26 | distinct codes give distinct types (no two table entries share a name) |
| Nodes.LittleEndian32 | wtray/__main__.py:35 | version = b40 + 256·b41 + 65536·b42 + 16777216·b43, and 0 ≤ version < 2^32 |
| Nodes.Base256Injective | wtray/__main__.py:35 | distinct version bytes give distinct versions |
| Nodes.Byte38Recovered | wtray/__main__.py:30-33 | byte 38 is determined by the decoded state flag and type |
| Nodes.SameIpSameAddressBytes | wtray/__main__.py:28 | equal decoded ips come from equal bytes 2..5 |
| Nodes.SameVersionSameVersionBytes | wtray/__main__.py:35 | equal decoded versions come from equal bytes 40..43 |
| Nodes.Same | wtray/__main__.py:36-39 | `__eq__` holds exactly when all six attributes agree (structural equality) |
| Nodes.Decode | wtray/__main__.py:27-35 | needs 44 bytes and a UTF-8 name field. The ip is the four octets of bytes 2..5 in decimal without leading zeros, joined by dots, and parses back to those bytes; the name is exactly bytes 6..37 (32 bytes), the state is byte 38 ≥ 128, the type is looked up from byte 38 mod 128, the id is byte 39 (0..255) and the version is the little-endian value of bytes 40..43 |
| Nodes.DecodeReadsOnlyPayload | wtray/__main__.py:27-35 | the descriptor depends on bytes 2..43 only |
| Nodes.DecodeLosesNothing | wtray/__main__.py:27-35 | equal descriptors come from equal bytes 2..43 |
| Nodes.DecodeEqualIffPayloadEqual | wtray/__main__.py:27-39 | two beacons decode to equal nodes if and only if they agree on bytes 2..43 |
| Registry.Put | wtray/__main__.py:60 | after `_nodes[n.id] = n` the id holds n, every other id keeps its node, no key is removed, a new id is appended to the insertion order, and well-formedness is kept |
| Registry.PutStoredIsIdentity | wtray/__main__.py:57-63 | storing a node equal to the stored one leaves the registry unchanged (idempotence) |
| Registry.PutTwice | wtray/__main__.py:57-63 | storing the same node twice equals storing it once |
| Registry.PutAllLastWins | wtray/__main__.py:53-56 | after `set_nodes(ns)` each id holds the last node of ns with that id, or its old node if ns has none; ids are only ever added |
| Registry.PutAllWellFormed | wtray/__main__.py:53-56 | a fold of stores keeps the registry well formed |
| Registry.Values | wtray/__main__.py:52 | `values()` lists every stored node once, in insertion order: entry i is the node stored under the i-th id inserted |
| Registry.NameLeTotal | wtray/__main__.py:52 | any two names compare |
| Registry.NameLeTransitive | wtray/__main__.py:52 | name order is transitive |
| Registry.NameLeAntisymmetric | wtray/__main__.py:52 | names that compare both ways are equal |
| Registry.InsertByName | wtray/__main__.py:52 | inserting adds exactly the one node |
| Registry.InsertByNameSorted | wtray/__main__.py:52 | inserting into a name-sorted list keeps it sorted |
| Registry.SortByName | wtray/__main__.py:52 | the result is a permutation of the input, sorted by name |
| Registry.SortedValues | wtray/__main__.py:50-52 | `get_sorted_nodes` is name-sorted, a permutation of the stored values, contains exactly the stored nodes, and has one entry per id |
| Registry.ValuesArePermuted | wtray/__main__.py:52 | two registries with the same entries list the same nodes, in some order |
| Registry.SortedArrangementUnique | wtray/__main__.py:52 | with no two names equal, there is only one name-sorted arrangement of a set of nodes |
| Registry.SortedValuesIgnoresArrivalOrder | wtray/__main__.py:50-52 | with distinct names, the sorted view depends only on the stored nodes, not on the order their ids arrived in |
| NodeDiscovery.StopIndex | wtray/__main__.py:80 | the loop handles exactly the passes before the first stop request |
| NodeDiscovery.Accepted | wtray/__main__.py:85-89 | every node merged by the loop was decoded from a received sysinfo datagram (token 255, kind 1), and there is at most one per pass |
| NodeDiscovery.AcceptedOnlySysinfo | wtray/__main__.py:85-89 | datagrams of any other token or kind never reach the decoder or the registry |
| NodeDiscovery.Discovery.constructor | wtray/__main__.py:45-49 | a new listener is not running, has an empty registry and has made no callback |
| NodeDiscovery.Discovery.SortedNodes | wtray/__main__.py:50-52 | the listener's sorted view is name-sorted and holds each registered node once |
| NodeDiscovery.Discovery.AppendNode | wtray/__main__.py:57-63 | `__append_node(n)` leaves the registry as `_nodes[n.id] = n` does, whether the id was new, changed or unchanged; nothing else changes |
| NodeDiscovery.Discovery.SetNodes | wtray/__main__.py:53-56 | `set_nodes(list)` is the left fold of appends (last node per id wins) |
| NodeDiscovery.Discovery.Stop | wtray/__main__.py:64-66 | `stop` clears the running flag whatever its value (idempotent), keeps the registry well formed and changes nothing else |
| NodeDiscovery.Discovery.ProcessDatagram | wtray/__main__.py:85-90 | a sysinfo datagram is decoded, merged and followed by exactly one callback; any other datagram leaves registry and callback count untouched |
| NodeDiscovery.Discovery.Start | wtray/__main__.py:67-93 | the loop merges, in arrival order, every sysinfo datagram before the first stop request. It makes one callback per merged datagram plus one at the end, and it always exits with the running flag cleared |
| Scenarios.Byte38Examples | wtray/__main__.py:30-32 | 0x80 gives state on and code 0; 0x23 gives state off and code 35 |
| Scenarios.DeviceTypeExamples | wtray/__main__.py:19-33 | each of the six table codes gives its own name (0 "Undefined", 82 "ESP8266", 32 "ESP32", 33 "ESP32S2", 34 "ESP32S3", 35 "ESP32C3"); 99 stays 99 |
| Scenarios.VersionExamples | wtray/__main__.py:35 | bytes [1,0,0,0] give 1, [0,1,0,0] give 256, all 0xFF give 2^32−1 |
| Scenarios.IpExample | wtray/__main__.py:28 | octets 192, 168, 1, 207 render as "192.168.1.207" |
| Scenarios.DecodeBeaconExample | wtray/__main__.py:27-35 | a beacon with byte 38 = 0xA2, id 7 and version bytes [1,1,0,0] decodes to an on, ESP32S3 node with id 7 and version 257 at 192.168.1.207 |
| Scenarios.SortExample | wtray/__main__.py:50-52 | Bravo, Alpha, Charlie, with whatever ids, sort to Alpha, Bravo, Charlie |

## Left out

- The UDP socket and its options, `select` polling, `recvfrom` and the 31-second clock (wtray/__main__.py:70-83) are network I/O and real time. They are replaced by the finite `Input` sequence. The socket is never closed in the source, and the model has nothing to say about that either.
- The background thread that runs `start` (wtray/__main__.py:181) and concurrent access to `_nodes` are left out. A `stop()` from another thread is modelled as taking effect at the top of the next pass, which is where the loop condition reads `_running`.
- `WTray` and `MenuItemWithTag` are not part of this model: the tray menu, the HTTP `__get`/`__post` calls, the pickle cache and the click handlers (wtray/__main__.py:95-190) are UI, network and serialisation plumbing.
- Logging and `Node.__str__` are cosmetic.
- The callback `_discovered_func` is external. Only the number of calls is modelled.
- Nodes.Same: the `isinstance(other, Node)` test is not modelled, because Dafny's types only allow comparing two `Node`s.
- Nodes.Decode: `name` is kept as its 32 raw bytes, not as a decoded `str`. Decoding valid UTF-8 is injective, so equality is the same either way.
- Registry.SortByName: sorts by the name's raw bytes. Python compares the decoded strings by code point. For well-formed UTF-8 the two orders agree, but that agreement is not proved here. Stability among equal names is built into the insertion sort but is not stated as a property.
- Registry.SortedValues: same as SortByName, so its order holds for byte order, not for code-point order.
- NodeDiscovery.Discovery.SortedNodes: same as SortByName, so its order holds for byte order, not for code-point order.
- A truncated or non-UTF-8 sysinfo datagram, or one shorter than 2 bytes, ends the source's discovery thread with an exception. Here that is a precondition of `ProcessDatagram` and `Start`, so the model does not describe what happens after such a datagram.
