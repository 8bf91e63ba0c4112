# axis: peer-to-peer datagram node, modelled in Dafny

This project models the core of `axis`, a small peer-to-peer message transport over
UDP. It is all in `lib/client.js`. A node keeps a list of peers (`peers`). It frames
every outgoing payload with one leading format byte (`zip`). It sends payloads to one
target or to every peer (`send`). It announces itself to others with one-byte CONNECT
and DISCONNECT datagrams (`connect`, `disconnect`). For each datagram that arrives
(`listener`), it either updates the peer list (`manage`) or decodes the payload
(`format`, `unzip`) and emits it as a `message` event.

Files, one module each:

- `formats.dfy` (`Formats`): the byte type and the five wire formats.
- `utf8.dfy` (`Utf8`): how a Buffer converts strings to bytes and back.
  `Buffer.byteLength` and `write` encode as UTF-8. `toString()` decodes and turns
  each ill-formed subpart into one U+FFFD.
- `wrappers.dfy` (`Wrappers`): `Option`, `Result`, and the two exceptions the modelled core
  raises.
- `codec.dfy` (`Codec`): payload values, `zip`, `format`, `unzip` and their round trips.
- `registry.dfy` (`Registry`): peer records, `manage` as a function (`Managed`) defined
  record by record, its agreement with the scan loop, and its properties.
- `endpoint.dfy` (`Endpoint`): peer descriptors and the "bare number means
  `localhost:<n>`" rule.
- `client.dfy` (`Node`): the `Client` class. It has a `peers` field, a ghost log
  `sent` of datagrams handed to the socket, and a ghost log `emitted` of `message`
  events.

The model follows the code, including these easily missed behaviours:

- `manage` appends the peer whenever the scan finds no match, whatever the format
  (lib/client.js:229). A DISCONNECT for an unknown peer therefore adds it
  (`Registry.ManageDisconnectAbsent`). "DISCONNECT leaves the peer absent" holds only
  when the peer was registered (`Registry.DisconnectRemoves`).
- `connect` registers the port as the digit string that `url.parse` returns. The
  socket reports a sender's port as a number. `manage` compares with `===`, so an
  inbound control datagram never matches a record that `connect` made
  (`Endpoint.InboundNeverRemovesResolved`). An inbound CONNECT or DISCONNECT from that
  same node therefore registers it a second time (`Endpoint.InboundRegistersTwice`).
  Duplicate-free means free of `===`-equal records only, so a broadcast can then reach
  one node twice.
- An exception inside `listener` is not contained. If the datagram is empty,
  `readUInt8(0)` throws a RangeError. If the JSON is malformed, `JSON.parse` throws a
  SyntaxError. Any byte other than CONNECT, DISCONNECT, STRING or BUFFER is parsed as
  JSON. `Node.Client.Listener` returns these exceptions as a `Fail` outcome and
  changes nothing.
- A Buffer is sent as the UTF-8 encoding of its `toString()`. So it arrives unchanged
  exactly when its bytes are well-formed UTF-8 (`Codec.UnzipZipBuffer`).

## Model

| member | source | states |
|---|---|---|
| `Utf8.EncodeChar` | lib/client.js:187-189 | one character is written as one to four bytes |
| `Utf8.Encode` | lib/client.js:187-189 | `Buffer.byteLength` of a string is between one and four bytes per character |
| `Utf8.Decode` | lib/client.js:179 | `toString()` yields at most one character per byte |
| `Utf8.DecodeStep` | lib/client.js:179 | a complete sequence decodes to its scalar value and consumes its bytes; anything else decodes to U+FFFD and consumes at least one byte |
| `Utf8.ScalarOf` | lib/client.js:179 | a complete sequence always stands for a Unicode scalar value (never a surrogate, never past U+10FFFF) |
| `Utf8.DecodeStepEncodeChar` | lib/client.js:187-189 | the bytes written for a character, whatever follows them, decode back to that character |
| `Utf8.EncodeCharDecodeStep` | lib/client.js:179 | re-encoding the character that a complete sequence decodes to gives that sequence back |
| `Utf8.DecodeEncode` | lib/client.js:204 | `toString()` of the bytes written for a string is that string |
| `Utf8.EncodeWellFormed` | lib/client.js:189 | the bytes written for any string are well-formed UTF-8 |
| `Utf8.EncodeDecode` | lib/client.js:179 | well-formed bytes survive `toString()` and re-encoding unchanged |
| `Utf8.RoundTripIffWellFormed` | lib/client.js:179 | bytes survive `toString()` and re-encoding if and only if they are well-formed |
| `Utf8.AsciiWellFormed` | test/index.js:57-66 | ASCII bytes such as the test's "YAHOOO!" are well-formed, so such a Buffer arrives unchanged |
| `Formats.IsControl` | lib/client.js:150 | a byte written for a format is a control byte exactly when that format is CONNECT or DISCONNECT |
| `Codec.FormatOf` | lib/client.js:177-185 | a payload is never tagged with a control format; the tag is BUFFER exactly for a Buffer and STRING exactly for a string |
| `Codec.TextOf` | lib/client.js:177-185 | a Buffer's `toString()` has at most one character per byte, and re-encoding it gives the Buffer back exactly when the Buffer is well-formed UTF-8 |
| `Codec.Zip` | lib/client.js:174-191 | a frame is never empty |
| `Codec.ZipLayout` | lib/client.js:174-190 | a frame is 1 + `byteLength` bytes; byte 0 is BUFFER for a Buffer, STRING for a string, OBJECT otherwise, in that order; the rest decodes to the text written; a well-formed Buffer is copied verbatim |
| `Codec.ReadFormat` | lib/client.js:163-165 | `format` is byte 0; reading it from an empty datagram throws |
| `Codec.ReadFormatZip` | lib/client.js:163-165 | `format` of a frame is the format `zip` chose |
| `Codec.FromJson` | lib/client.js:206 | a parsed value is a string exactly when the JSON text held a string |
| `Codec.Unzip` | lib/client.js:201-207 | only JSON parsing can fail, and only for a byte other than STRING and BUFFER; BUFFER yields the bytes after byte 0 |
| `Codec.UnzipZipString` | lib/client.js:201-204 | `unzip(format, zip(s))` of a string is that string |
| `Codec.UnzipZipBuffer` | lib/client.js:177-205 | `unzip(format, zip(b))` of a Buffer is the re-encoding of `b.toString()`, and it equals `b` if and only if `b` is well-formed UTF-8 |
| `Codec.UnzipZipObject` | lib/client.js:182-206 | `unzip(format, zip(v))` of any other value is deep-equal to `v` when `JSON.parse` inverts `JSON.stringify` |
| `Registry.IndexOf` | lib/client.js:222-227 | the scan stops at the first matching record; it finds none exactly when the peer is absent |
| `Registry.Managed` | lib/client.js:217-231 | `manage` changes the list by at most one record; it grows by one when the peer is absent; CONNECT never shrinks the list and always leaves the peer in it |
| `Registry.ManagedPrefix` | lib/client.js:222-223 | records in front of the first match are passed over and kept unchanged |
| `Registry.ManagedAbsent` | lib/client.js:222-229 | when no record matches, `manage` keeps every record and pushes the peer last, whatever the format |
| `Registry.ManagedAt` | lib/client.js:222-226 | when record i is the first match, the records before it are kept; it is kept for CONNECT and spliced out for any other format, and the rest follow unchanged |
| `Registry.ManagedByScan` | lib/client.js:217-231 | `manage` record by record agrees with the scan-then-act loop: keep for CONNECT or splice at the first match index, push when the scan finds none |
| `Registry.SpliceMultiset` | lib/client.js:224 | `splice(i, 1)` removes exactly one occurrence of record i and nothing else |
| `Registry.ManagedAll` | lib/client.js:90-99 | `manage` once per argument adds at most one record each; under CONNECT the list never shrinks and the last argument ends up registered |
| `Registry.ManagedAllStep` | lib/client.js:90-99 | handling one more argument is one more `manage` on the list so far |
| `Registry.ManageConnect` | lib/client.js:217-230 | CONNECT appends an absent peer as the last record and leaves the list alone when the peer is present |
| `Registry.ConnectIdempotent` | lib/client.js:217-230 | CONNECT twice is CONNECT once |
| `Registry.ManageDisconnectPresent` | lib/client.js:222-226 | DISCONNECT of a present peer removes exactly its first record and keeps all others in order |
| `Registry.ManageDisconnectAbsent` | lib/client.js:222-229 | DISCONNECT of an absent peer appends it |
| `Registry.ManageOthersUnchanged` | lib/client.js:222-229 | `manage` never adds or removes a record other than the one for `info` |
| `Registry.SpliceAt` | lib/client.js:224 | `splice(i, 1)` shifts every later record down by one |
| `Registry.ManagePreservesNoDuplicates` | lib/client.js:222-229 | no two records share (address, port) after `manage` if none did before, whatever the format |
| `Registry.DisconnectRemoves` | lib/client.js:224 | on a duplicate-free list, DISCONNECT of a present peer leaves it absent |
| `Registry.ManagedAllNoDuplicates` | lib/client.js:90-99 | `manage` applied to each argument in turn keeps the list duplicate-free |
| `Registry.ConnectAllContents` | lib/client.js:90-99 | `connect` keeps the old list as a prefix and ends with exactly the old peers plus the arguments |
| `Endpoint.Decimal` | lib/client.js:91 | a port number is written as at least one digit, and at least two from 10 up |
| `Endpoint.DecimalValue` | lib/client.js:91 | `'localhost:' + n` writes the decimal numeral of n: digits only, no leading zero, and it reads back as n |
| `Endpoint.NumeralPositive` | lib/client.js:91 | a numeral whose first digit is not zero stands for a positive number |
| `Endpoint.NumeralDecimal` | lib/client.js:91 | every decimal numeral is the one written for its value, so numerals and port numbers correspond one to one |
| `Endpoint.ResolveNumeral` | lib/client.js:91-93 | `connect(n)` and `connect('localhost:<digits>')` register the same record exactly when the digits are the numeral of n |
| `Endpoint.DecimalInjective` | lib/client.js:91 | distinct port numbers are written differently |
| `Endpoint.Resolve` | lib/client.js:91-97 | the registered port is always a string; a `host:port` descriptor keeps its host |
| `Endpoint.ResolveAll` | lib/client.js:90-93 | one record per argument, in argument order |
| `Endpoint.ResolvePortNumber` | lib/client.js:91 | a bare port number (1 to 65535) resolves to a `localhost` record with a string port; distinct numbers give distinct records |
| `Endpoint.InboundNeverRemovesResolved` | lib/client.js:150-151 | an inbound control datagram, whose sender port is a number, never matches a record that `connect` made, so that record survives it |
| `Endpoint.InboundRegistersTwice` | lib/client.js:150-151 | an inbound control datagram from a node that `connect` registered adds a second record for it, whatever the format |
| `Node.Fanout` | lib/client.js:71-73 | one datagram per endpoint, in list order, all with the same bytes |
| `Node.FanoutStep` | lib/client.js:71-73 | one more endpoint adds one datagram at the end |
| `Node.ConnectPair` | test/index.js:21-33 | a fresh node that connects to two distinct ports has exactly those two records, in argument order |
| `Node.FanoutReaches` | lib/client.js:71-73 | a broadcast reaches every peer in the list and no other endpoint |
| `Node.Client.constructor` | lib/client.js:24-32 | a new node is bound to its resolved address, has no peers, and has sent and emitted nothing |
| `Node.Client.Manage` | lib/client.js:217-231 | the loop leaves `peers` equal to `Managed(old peers, format, info)` and sends and emits nothing |
| `Node.Client.Send` | lib/client.js:61-75 | with a target, exactly one datagram carrying `zip(message)`; without one, that frame once to each peer in registry order; `peers` unchanged; nothing emitted |
| `Node.Client.Announce` | lib/client.js:90-99 | for each argument in order, one 1-byte control datagram to it, then `manage`; the final list is `manage` folded over the arguments and stays duplicate-free |
| `Node.Client.Connect` | lib/client.js:83-102 | CONNECT to every argument; the list becomes CONNECT folded over the arguments |
| `Node.Client.Disconnect` | lib/client.js:110-129 | DISCONNECT to every argument; the list becomes DISCONNECT folded over the arguments |
| `Node.Client.Listener` | lib/client.js:147-155 | a CONNECT or DISCONNECT datagram updates `peers` exactly as `manage` and emits nothing; any other datagram leaves `peers` alone and emits exactly one message with the unzipped payload and the sender info, unless `unzip` throws; an empty datagram throws; nothing is ever sent |

`Node.BroadcastScenario` and `Node.DeliveryScenario` are verified clients of
`Node.Client`. They follow the broadcast test (test/index.js:21-33). In the first, a
node connects to two distinct ports and sends a string. It sends one CONNECT datagram
to each port, then the same frame to each. In the second, a node receives that frame
and emits the string with the sender's info.

## Left out

- The `dgram` socket, binding and the `EventEmitter` are I/O. They are replaced by the
  ghost logs `Client.sent` and `Client.emitted`. Delivery, loss and the interleaving of
  several nodes are not modelled.
- `url.parse` is a library call. A `host:port` descriptor comes in already split
  (`Endpoint.HostPort`). Only the rule that a bare number means `localhost:<n>` is
  modelled, for port numbers 1 to 65535 (`Endpoint.UdpPort`).
- `send` with a numeric target builds `'localhost' + n` without a colon
  (lib/client.js:67), and an empty or zero target counts as no target. Neither is
  modelled: `Node.Client.Send` takes an already resolved target or none.
- Node.Client.Announce: assumes `socket.send` never throws. For a port outside 1 to
  65535, or one that is not a number, `send` at lib/client.js:94 (and :121) throws a
  RangeError before `manage` at :95 (:122) runs. `peers` then stays unchanged and the
  remaining arguments are skipped. The model sends to such a `host:port` descriptor and
  registers it. A bare number is restricted to 1 to 65535 (`Endpoint.UdpPort`). So the
  exponent form that `'localhost:' + n` writes from 10^21 up never arises. The same
  restriction applies to the address that `Node.Client.constructor` binds.
- `close` (lib/client.js:135-138) calls an undefined function `disconnect` and reads a
  `this.server` that is never assigned. It always throws, so it has no behaviour to
  model.
- `JSON.stringify` and `JSON.parse` are not modelled. They are a pair of functions in
  `Codec.JsonCodec`. `Codec.UnzipZipObject` holds for each value that `JSON.parse` reads
  back from its `JSON.stringify` text (`Codec.Survives`). That is a property of the value,
  not of every `Json`: an object with two equal keys or an integer beyond 2^53 does not
  survive, and the lemma says nothing about such values.
  JSON values are null, booleans, integers, strings, arrays and objects. Floating-point
  numbers, `undefined`, functions, cycles and `toJSON` are not modelled.
- JavaScript strings are UTF-16 and can hold lone surrogates, which encode as U+FFFD.
  Here a character is a Unicode scalar value, so such strings cannot be expressed.
- The numeric values of the formats come from lib/formats.js, which is not part of
  this model. `Formats.ByteOf` uses 0 to 4. Nothing depends on those values except
  that they are distinct.
- `manage` splices the caller's array in place. Here it is `Node.Client.Manage`, which
  reassigns the `peers` field. No other reference to that array is alive during the
  call.
- There is no concurrency. The event loop runs `listener` and the API calls one at a
  time.
