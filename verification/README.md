# fkie_iop_json_connector in Dafny

A model of the core of the IOP JSON connector. The connector is a bridge
between WebSocket clients that speak JSON and a JAUS (SAE AS5684) node
manager that speaks binary messages over UDP. The model has two parts.

**The message serializer** (`MessageSerializer`). It covers:

- the JAUS integer types and their little-endian wire formats (`Wire`);
- the presence vector of a record (`Presence`);
- `_addProperties`, which turns JSON into payload bytes (`Encoder`);
- `_getProperties`, which turns payload bytes into JSON (`Decoder`);
- the header logic of `pack` and `unpack`: choosing the message type for an
  outgoing envelope, rendering an incoming id as text, and the
  last-successful-type rule (`Serializer`);
- the schema registry `JSON_SCHEMES` that `init_schemes` fills from the
  schema files (`SchemaLoader`).

Message schemas are datatypes (`Schemas`). Each property kind stands for
the branch the encoder takes for it; the decoder tests the same attributes
in another order, which matters only for properties that carry attributes
of two kinds (see "Left out"). JSON documents are a small datatype
(`Json`). `RoundTrip` proves that encoding a conforming JSON object and
decoding the bytes gives the object back. The fragment it covers is the one
both directions treat alike: plain numbers, the presence vector, message-id
constants, one-to-one value sets, fixed-length strings, nested records and
counted lists, where optional numbers, value sets and strings after the
presence vector may be absent.

**The server** (`Server`, `WsClientHandler`). It covers:

- `splitUri`, which turns a URI or plain address into scheme, host and port
  (`Uri`). What `urlparse` makes of the text is an input.
- The handler bookkeeping (`Handler`), as a state machine over events:
  - `handle` records and connects source addresses, then packs and sends;
  - `connected` and `handle_close` maintain the shared client and address
    lists;
  - `route_udp_msg` sends the same unpacked JSON to every client.
- What the handlers ask of the UDP socket and of the clients is a list of
  effects. `ConnectedIffRecorded` proves that connects and disconnects
  balance exactly with the recorded address list.

Supporting text functions live in `Text`: ASCII encoding, `rstrip`, hex and
decimal numerals, `zfill`, `split`/`join` and `strip`. Bit arithmetic lives
in `Bits`, and `Result`/`Option` in `Results`.

Source paths below are relative to the repository root.

## Model

| member | source | states |
|---|---|---|
| Wire.Pack | fkie_iop_json_connector/fkie_iop_json_connector/message_serializer.py:30-42 | packing succeeds exactly for values in the type's signed or unsigned range; it then writes exactly the `JAUS_TYPES` width in bytes; an out-of-range value is a struct.error (the model keeps the value, where Python's message names the format's range) |
| Wire.Unpack | fkie_iop_json_connector/fkie_iop_json_connector/message_serializer.py:43-52 | unpacking succeeds exactly on a buffer of the type's width; the value is in range and agrees with the little-endian reading modulo the width |
| Wire.PackThenUnpack | fkie_iop_json_connector/fkie_iop_json_connector/message_serializer.py:33-52 | every in-range value packs and unpacks back to itself |
| Wire.UnpackThenPack | fkie_iop_json_connector/fkie_iop_json_connector/message_serializer.py:33-52 | every buffer of the type's width unpacks and packs back to the same bytes |
| Wire.UnpackAt | fkie_iop_json_connector/fkie_iop_json_connector/message_serializer.py:359-361 | the decoder's typed read at an index succeeds exactly when the type's width fits before the end, and then reads those bytes |
| Wire.UnpackAtPacked | fkie_iop_json_connector/fkie_iop_json_connector/message_serializer.py:359-361 | packed bytes are read back as the same value wherever they sit in a payload |
| Wire.PackAsWritten | fkie_iop_json_connector/fkie_iop_json_connector/message_serializer.py:33-42 | with the source's format strings, packing writes the format's standard size, which for `<l`/`<L` is 4 bytes, and accepts only values that fit it |
| Wire.UnpackAtAsWritten | fkie_iop_json_connector/fkie_iop_json_connector/message_serializer.py:359-361 | as written, a read succeeds only when the `JAUS_TYPES`-wide slice has exactly the format's standard size |
| Wire.LongIntegerAsWrittenFails | fkie_iop_json_connector/fkie_iop_json_connector/message_serializer.py:30-52 | as written, a 'long integer' 1 packs to fewer than its 8 `JAUS_TYPES` bytes, and a payload holding it and one more byte cannot be read back |
| Wire.LongIntegerAsWrittenRange | fkie_iop_json_connector/fkie_iop_json_connector/message_serializer.py:36 | as written, 2^32 is rejected for a 'long integer'; the corrected 8-byte pack accepts it |
| Presence.PresenceBits | fkie_iop_json_connector/fkie_iop_json_connector/message_serializer.py:125-136 | with one presence-vector field, bit k of the generated vector is set exactly when the k-th optional property after that field is in the JSON; no other bit is set |
| Presence.BeforeVector | fkie_iop_json_connector/fkie_iop_json_connector/message_serializer.py:128-135 | optional properties before the presence-vector field contribute no bits |
| Presence.AfterVector | fkie_iop_json_connector/fkie_iop_json_connector/message_serializer.py:131-135 | after the field, the flags gained are one per optional property in order, each its presence in the JSON; required properties take no bit |
| Presence.NoVectorIsZero | fkie_iop_json_connector/fkie_iop_json_connector/message_serializer.py:125-136 | a record without a presence-vector field generates the vector 0 |
| Encoder.EncodeNumber | fkie_iop_json_connector/fkie_iop_json_connector/message_serializer.py:188-213 | the presence vector is packed from the JSON; a present integer is packed; an absent required number is packed as 0; an absent optional one, or null, writes nothing; any success is empty or exactly the type's width |
| Encoder.NumberBitField | fkie_iop_json_connector/fkie_iop_json_connector/message_serializer.py:214-219 | a bit-range number adds its value shifted right by `from` to the accumulator; an absent one adds 0; a non-integer raises |
| Encoder.EnumIndexBefore | fkie_iop_json_connector/fkie_iop_json_connector/message_serializer.py:238-240 | the index is that of the last enumerant whose name matches, or the default when none matches |
| Encoder.ValueSetIndex | fkie_iop_json_connector/fkie_iop_json_connector/message_serializer.py:229-240 | a value-set word is 0 when the property is absent; an integer is used as is; a name gives its enumerant's index; any other JSON value gives 0 |
| Encoder.PackOrStop | fkie_iop_json_connector/fkie_iop_json_connector/message_serializer.py:211-213 | appending a packed word succeeds exactly in range; on failure the bytes written before it stay |
| Encoder.EncodeFixedString | fkie_iop_json_connector/fkie_iop_json_connector/message_serializer.py:249-271 | corrected: a fixed-length string is exactly `maxLength` bytes, the text's bytes and then NULs, cut to the length; it fails exactly for a non-string or non-ASCII value |
| Encoder.EncodeFixedStringAsWritten | fkie_iop_json_connector/fkie_iop_json_connector/message_serializer.py:255-271 | as written, any fixed-length string of positive length raises, because `struct.pack` with `s` is handed a `str` |
| Encoder.EncodeVarString | fkie_iop_json_connector/fkie_iop_json_connector/message_serializer.py:259-271 | corrected: a variable-length string is the packed `maxLength` followed by the text cut to at most `maxLength` bytes; an absent one is the prefix alone |
| Encoder.EncodeVarStringAsWritten | fkie_iop_json_connector/fkie_iop_json_connector/message_serializer.py:259-271 | as written, non-empty text raises after the `maxLength` prefix was appended, which stays in the payload; only empty text succeeds |
| Encoder.TextAsWrittenFails | fkie_iop_json_connector/fkie_iop_json_connector/message_serializer.py:249-271 | for non-empty ASCII text that fits, both corrected string branches write the text and both branches as written raise |
| Encoder.Truncate | fkie_iop_json_connector/fkie_iop_json_connector/message_serializer.py:261-271 | the text bytes written are a prefix of at most `maxLength` bytes, all of them when the text fits |
| Encoder.ArrayItems | fkie_iop_json_connector/fkie_iop_json_connector/message_serializer.py:273-284 | a list array gives its items; a string gives one item per character; any other value raises |
| Encoder.ValueSetAsWritten | fkie_iop_json_connector/fkie_iop_json_connector/message_serializer.py:229-248 | as written, a value set packs its word at the type's width (0 when absent), and the bytes unpack to the index the JSON names; with a bit range it writes nothing and adds the word shifted by `from` to the accumulator |
| Decoder.NextPresence | fkie_iop_json_connector/fkie_iop_json_connector/message_serializer.py:308-317 | after the vector is read, the presence index moves on once per optional property, whether it is skipped or read |
| Decoder.DecodeNumber | fkie_iop_json_connector/fkie_iop_json_connector/message_serializer.py:358-377 | a number succeeds exactly when its width fits. A plain number is the word read, and the index advances by exactly the width. A bit-range number is bits `from..to` of the word, and the index stays |
| Decoder.DecodeFixedString | fkie_iop_json_connector/fkie_iop_json_connector/message_serializer.py:383-390 | a fixed-length string succeeds exactly on ASCII bytes. The text is those bytes with trailing NULs dropped: at most the length, not ending in NUL, and only NULs cut |
| Decoder.DecodeCountedString | fkie_iop_json_connector/fkie_iop_json_connector/message_serializer.py:391-416 | a counted string succeeds exactly when the prefix fits, the count n does not move the index before the payload's start, and for n > 0 the bytes taken are ASCII. The text is `payload[start:start+n]` as Python slices it: empty for n <= 0, else min(n, bytes left) bytes, byte for byte. The index moves to start + n, backwards for a negative n |
| Decoder.NegativeCountMovesBack | fkie_iop_json_connector/fkie_iop_json_connector/message_serializer.py:412-416 | a signed one-byte count of -1 at the start of [0xFF, 65, 66] gives the empty text and moves the index back to 0 |
| Decoder.EnumNameBefore | fkie_iop_json_connector/fkie_iop_json_connector/message_serializer.py:409-411 | the name is that of the last enumerant with the word as index; there is none exactly when no enumerant has that index |
| Decoder.PyIndex | fkie_iop_json_connector/fkie_iop_json_connector/message_serializer.py:424-427 | a variant's count selects an alternative as a Python index: it succeeds exactly for -len <= n < len, and negative counts count from the end |
| RoundTrip.RecordRoundTrip | fkie_iop_json_connector/fkie_iop_json_connector/message_serializer.py:138-448 | a conforming JSON object encodes. Decoding the bytes, wherever they sit in a payload, gives back the object's fields, with the index just past the bytes; this includes optional numbers, value sets and strings absent after the presence vector, with the corrected encoder |
| RoundTrip.AbsentOmitted | fkie_iop_json_connector/fkie_iop_json_connector/message_serializer.py:229-271 | corrected: an optional value set or string the object lacks, after a presence-vector field, writes nothing, as an absent optional number does |
| RoundTrip.BeforeVectorAsWritten | fkie_iop_json_connector/fkie_iop_json_connector/message_serializer.py:229-248 | before any presence-vector field the value-set branch is the source's, absent or not, and the decoder does not skip the property there, so the word written is the word read |
| RoundTrip.ValueSetAsWrittenDesyncs | fkie_iop_json_connector/fkie_iop_json_connector/message_serializer.py:229-314 | as written, an absent optional value set after the presence vector is packed as a non-empty 0 word while the generated vector makes the decoder skip that property; the corrected encoder writes nothing for it |
| RoundTrip.ValueSetAsWrittenExample | fkie_iop_json_connector/fkie_iop_json_connector/message_serializer.py:229-377 | for the schema [presenceVector, optional value set `e`, required `x`] (all 'unsigned byte') and `{presenceVector: 0, x: 5}`, the branches as written give [0], [0], [5], and the bytes [0, 0, 5] decode to `x = 0` |
| RoundTrip.PropertyRoundTrip | fkie_iop_json_connector/fkie_iop_json_connector/message_serializer.py:141-444 | for each property of a conforming object, the encoder writes nothing when the object lacks it. Otherwise the decoder reads its bytes back into that field and moves just past them |
| RoundTrip.SkippedIffAbsent | fkie_iop_json_connector/fkie_iop_json_connector/message_serializer.py:308-317 | with the encoder's presence vector, the decoder skips a property exactly when it comes after the vector, is optional and is absent from the JSON |
| RoundTrip.DecodeFromSkip | fkie_iop_json_connector/fkie_iop_json_connector/message_serializer.py:308-314 | a skipped property consumes no bytes and adds no field |
| RoundTrip.AbsentNumber | fkie_iop_json_connector/fkie_iop_json_connector/message_serializer.py:197-205 | an absent optional number contributes no bytes |
| RoundTrip.EnumRoundTrip | fkie_iop_json_connector/fkie_iop_json_connector/message_serializer.py:229-411 | with a one-to-one enumeration, a name encodes to its index and the index decodes to the name |
| RoundTrip.EnumNameInverse | fkie_iop_json_connector/fkie_iop_json_connector/message_serializer.py:229-411 | with a one-to-one enumeration, a decoded name encodes back to the word read |
| RoundTrip.FixedStringRoundTrip | fkie_iop_json_connector/fkie_iop_json_connector/message_serializer.py:255-390 | ASCII text that fits and does not end in NUL decodes from its padded field to the same text |
| RoundTrip.RecordCase | fkie_iop_json_connector/fkie_iop_json_connector/message_serializer.py:185-354 | a nested record is written as its own body and read back as the nested object |
| RoundTrip.ArrayCase | fkie_iop_json_connector/fkie_iop_json_connector/message_serializer.py:272-435 | a counted list whose schema has `isVariant` false is written as its count and then its items, and is read back as the same list |
| RoundTrip.MissingVariantFlag | fkie_iop_json_connector/fkie_iop_json_connector/message_serializer.py:272-276 | a counted array whose schema has no `isVariant` makes the encoder raise before writing anything, while the decoder reads it exactly as a list with `isVariant` false (message_serializer.py:424) |
| RoundTrip.ItemsHeld | fkie_iop_json_connector/fkie_iop_json_connector/message_serializer.py:429-435 | decoding `count` items over the bytes written for them gives all the items in order, and the index just past them |
| Serializer.FirstTitled | fkie_iop_json_connector/fkie_iop_json_connector/message_serializer.py:79-80 | the chosen type is the first whose title equals the name; no earlier one has it |
| Serializer.Choose | fkie_iop_json_connector/fkie_iop_json_connector/message_serializer.py:72-84 | the only registered type is used whatever the name. Otherwise a type is chosen exactly when `messageName` is present and matches a title, and it is the first match |
| Serializer.Fill | fkie_iop_json_connector/fkie_iop_json_connector/message_serializer.py:74-83 | filling succeeds exactly when both addresses parse, `data` is present and encodes. The payload only grows: by the record's bytes on success, or by what was appended before an exception. The addresses are set once they parse |
| Serializer.Pack | fkie_iop_json_connector/fkie_iop_json_connector/message_serializer.py:62-88 | an unregistered id or no chosen type leaves the message untouched and returns False. True exactly when a type is chosen, the addresses parse and `data` encodes; then the payload is the encoded record |
| Serializer.IdTextValue | fkie_iop_json_connector/fkie_iop_json_connector/message_serializer.py:99 | the id text is at least four lowercase hex digits and denotes the id |
| Serializer.KeyRoundTrip | fkie_iop_json_connector/fkie_iop_json_connector/message_serializer.py:99-105 | every registry key of four lowercase hex digits is the id text of the number it denotes, so the lookup finds it |
| Serializer.DecodeEach | fkie_iop_json_connector/fkie_iop_json_connector/message_serializer.py:112-120 | the loop yields data exactly when some type reads the payload. The data is then what the last successful type read; with no success, the earlier value stays |
| Serializer.Unpack | fkie_iop_json_connector/fkie_iop_json_connector/message_serializer.py:90-123 | the result carries the zero-filled hex id and both address ids. It has data exactly when the id is non-zero, registered and read by some type, and the data is from the last type that reads the payload |
| Serializer.LastReader | fkie_iop_json_connector/fkie_iop_json_connector/message_serializer.py:112-120 | when some type reads the payload, a last such type exists and the loop's result is what it read |
| Serializer.PackThenUnpack | fkie_iop_json_connector/fkie_iop_json_connector/message_serializer.py:62-123 | an envelope whose id has one registered type, whose addresses parse and whose data conforms packs. The payload unpacks under the same id to the same data |
| Serializer.PackThenUnpackExample | fkie_iop_json_connector/fkie_iop_json_connector/message_serializer.py:62-123 | an instance of the round trip: under id 0001 with one required 'unsigned byte' field `x`, the envelope with `x = 7` packs to the single byte 7, and that payload unpacks under id 1 to `x = 7` |
| SchemaLoader.LoadAsWritten | fkie_iop_json_connector/fkie_iop_json_connector/schemes/__init__.py:22-27 | as written, an id is registered exactly when a titled schema file has it, and holds the single schema of the last such file read |
| SchemaLoader.PackAsWritten | fkie_iop_json_connector/fkie_iop_json_connector/message_serializer.py:71-88 | over the registry as loaded, `pack` returns False and leaves the message untouched for every envelope: `len()` of a schema object raises TypeError, and a missing id KeyError, both caught |
| SchemaLoader.UnpackAsWritten | fkie_iop_json_connector/fkie_iop_json_connector/message_serializer.py:99-118 | over the registry as loaded, `unpack` raises exactly for a non-zero registered id (`for schema in schemas` on a schema object); otherwise it returns the header without data |
| SchemaLoader.LoadAsWrittenFails | fkie_iop_json_connector/fkie_iop_json_connector/schemes/__init__.py:27 | for any titled schema file, as written `pack` of an envelope with its id is False and `unpack` of a message with its id raises, while the corrected loader lists the file's type under that id |
| SchemaLoader.Load | fkie_iop_json_connector/fkie_iop_json_connector/schemes/__init__.py:22-27 | corrected: every titled file's message type is listed under its id |
| SchemaLoader.LoadedIds | fkie_iop_json_connector/fkie_iop_json_connector/schemes/__init__.py:26-27 | corrected: an id is registered exactly when some titled file has it |
| SchemaLoader.OnlyLoaded | fkie_iop_json_connector/fkie_iop_json_connector/schemes/__init__.py:22-27 | corrected: a titled file whose id no other titled file shares is the only type registered under it |
| SchemaLoader.OnlyLoadedIsChosen | fkie_iop_json_connector/fkie_iop_json_connector/message_serializer.py:72-77 | with the corrected loader, `pack` chooses the only schema loaded for an id, whatever the envelope's `messageName` |
| Uri.SplitUri | fkie_iop_json_connector/fkie_iop_json_connector/server.py:131-173 | no URI gives None and the empty text is returned as is. When `urlparse` finds a host, its scheme, host and port are returned, with -1 for no port. A failure needs a non-empty URI and either an invalid `urlparse` port or no host |
| Uri.ByShape | fkie_iop_json_connector/fkie_iop_json_connector/server.py:150-168 | a port text is taken exactly for 2 or 3 `:`-pieces, or 4 pieces with `SHM` second, and it is the last piece; otherwise the whole text is the host |
| Uri.HostPort | fkie_iop_json_connector/fkie_iop_json_connector/server.py:151-154 | `host:port` with a numeric port splits into that host and port |
| Uri.SharedMemory | fkie_iop_json_connector/fkie_iop_json_connector/server.py:155-158 | `SHM:x:port` names `localhost` with that port |
| Uri.Bracketed | fkie_iop_json_connector/fkie_iop_json_connector/server.py:159-162 | `first:[host]:port` names the host without its brackets |
| Uri.SharedMemoryFour | fkie_iop_json_connector/fkie_iop_json_connector/server.py:163-165 | `x:SHM:y:port` names `localhost` with that port |
| Uri.OtherShape | fkie_iop_json_connector/fkie_iop_json_connector/server.py:166-168 | any other number of pieces keeps the whole text as host, with port -1 |
| Uri.PortNotNumeric | fkie_iop_json_connector/fkie_iop_json_connector/server.py:169-173 | a port text that is not a decimal integer raises ValueError, which `splitUri` does not catch |
| Handler.Handle | fkie_iop_json_connector/fkie_iop_json_connector/server.py:44-63 | clients and the socket flag are unchanged; at most one address is appended, it is new and it is connected first; the source address is recorded whenever it parses and the socket is set; with a `messageId`, the last effect sends what `pack` left in the message, even when `pack` returned False |
| Handler.RemoveFirst | fkie_iop_json_connector/fkie_iop_json_connector/server.py:72 | removing a listed client drops its first occurrence and keeps the others in order: the result is the list without position k, where k holds the client and no earlier position does |
| Handler.Close | fkie_iop_json_connector/fkie_iop_json_connector/server.py:71-79 | an unlisted client changes nothing. Otherwise its first occurrence is removed and the other clients keep their order (`Handler.RemoveFirst`). With a UDP socket, or no addresses, every recorded address is disconnected in order, the list is cleared, and each remaining client is told in order. Without a socket but with addresses, only the removal happens |
| Handler.Route | fkie_iop_json_connector/fkie_iop_json_connector/server.py:175-178 | every client, in order, is sent the same unpacked JSON; nothing else changes |
| Handler.StepBalance | fkie_iop_json_connector/fkie_iop_json_connector/server.py:44-79 | each event keeps the address list free of duplicates. It changes an address's connects less disconnects by as much as it changes whether the address is recorded |
| Handler.RunBalance | fkie_iop_json_connector/fkie_iop_json_connector/server.py:36-79 | over any run of events, the address list stays free of duplicates, and connects less disconnects tracks the change in whether each address is recorded |
| Handler.ConnectedIffRecorded | fkie_iop_json_connector/fkie_iop_json_connector/server.py:36-79 | from start-up, an address's connects less disconnects is 1 when it is recorded and 0 otherwise |
| Handler.SharedAddresses | fkie_iop_json_connector/fkie_iop_json_connector/server.py:41-76 | a source address recorded through one client is disconnected when any other client closes, because the address list is shared |
| Handler.CloseDisconnects | fkie_iop_json_connector/fkie_iop_json_connector/server.py:74-76 | with the UDP socket set, closing a listed client disconnects every recorded address |
| Text.RStripNulPadding | fkie_iop_json_connector/fkie_iop_json_connector/message_serializer.py:389 | stripping trailing NULs from NUL-padded text that does not end in NUL gives the text back |
| Text.ParseHexString | fkie_iop_json_connector/fkie_iop_json_connector/message_serializer.py:224 | `int(f'{n:x}', 16)` is n |
| Text.ZeroFill | fkie_iop_json_connector/fkie_iop_json_connector/message_serializer.py:99 | `zfill` keeps the text as the suffix and pads with zeros only up to the width |
| Text.SplitJoin | fkie_iop_json_connector/fkie_iop_json_connector/server.py:151 | joining the pieces of a split with the separator gives the text back |
| Text.JoinSplit | fkie_iop_json_connector/fkie_iop_json_connector/server.py:151 | splitting pieces joined with a separator none of them contains gives the pieces back |
| Text.StripFramed | fkie_iop_json_connector/fkie_iop_json_connector/server.py:161 | `strip` removes exactly the runs of the given characters around a middle part that neither starts nor ends with one |
| Text.ParseDecimalString | fkie_iop_json_connector/fkie_iop_json_connector/server.py:170 | `int(str(v))` is v |

## Left out

- Floating-point types (`float`, `long float`) and `scaleRange` scaling: real arithmetic and rounding are outside this model.
- The `JAUS MESSAGE` payload field format (nested message lookup by `payloadMessageId`) in both directions: it recurses through the schema registry and swallows exceptions per schema; the model treats no property as that kind.
- Bit fields, variant arrays and fixed arrays are modelled in each direction (`Encoder.EncodeProperty`, `Decoder.DecodeProperty`) but are outside `RoundTrip.RecordRoundTrip`, because the encoder does not write what the decoder reads (the encoder's bit-field accumulation is marked TODO, a variant counted or fixed array writes nothing, and a non-variant fixed array raises the AttributeError of its missing `jausType`). An array whose schema has no `isVariant` raises in the encoder (`not property.isVariant`) but is read by the decoder, whose test is `hasattr`; `RoundTrip.MissingVariantFlag` states both sides.
- RoundTrip.ArrayCase: covers only counted arrays whose schema sets `isVariant` to false. Without the attribute the source's encoder raises, so there is no round trip to state.
- RoundTrip.RecordRoundTrip: a present variable-length string is outside the round trip, because the encoder's length prefix is `maxLength`, not the text's length, so the decoder reads a different span. Absent optional value sets and strings after a presence-vector field round-trip only through the corrected encoder, which leaves them out (see "Findings"); as written, the value-set branch writes a 0 word for them that the decoder does not read. Before any presence-vector field the decoder reads every property, so the encoder keeps the source's bytes there (`RoundTrip.BeforeVectorAsWritten`), and an absent optional value set or string there is outside the round trip: the decoder reads a field for it, which the object lacks.
- Decoder.DecodeCountedString: a negative count that would move the index before the start of the payload is an error here (`IndexBeforeStart`). The source carries on with a negative index, which Python's slices count from the end of the payload. A negative count that keeps the index inside the payload is modelled.
- Decoder.DecodeProperty: a nested record named after a dict method (`items`, `keys`, `get`, …) is decoded into a fresh object here. The source's `hasattr(jsonObj, propertyName)` test on the result dict is true for such a name, so the key is never set and `jsonObj[propertyName]` raises KeyError.
- Schemas.Kind: a property is given one kind, decided in the encoder's order (a `MessageID` constant, then a value set, then `minLength`/`maxLength`). The decoder tests `minLength == maxLength` first, so in the source a property that carries both a constant or value set and equal lengths is written one way and read another. The model assumes no property carries both.
- Text.ParseHex: reads only hex digits. Python's `int(s, 16)` also accepts a `0x` prefix, a sign, surrounding whitespace and `_` between digits, so a `MessageID` constant such as "0x4b00" fails here (`BadHexConst`) where the source packs it.
- JSON booleans: `Json.Value` has no boolean. Python treats `true`/`false` as the integers 1 and 0 in the value-set `isinstance(..., int)` test and in `struct.pack`.
- Text outside ASCII: `str.encode`/`bytes.decode` are UTF-8 in the source; the model encodes one byte per ASCII character and treats other text as an encoding failure.
- Uri.SplitUri: `int()` also accepts surrounding whitespace, underscores between digits and non-ASCII digits; the model reads only an optional sign and ASCII digits and treats anything else as the ValueError.
- `urlparse` itself: its result (scheme, host name, port or the ValueError of an invalid port) is a parameter of `Uri.SplitUri`.
- JausAddress: compared by value (`__eq__` on the id), as the test `jAddr not in self.jausAddresses` of the handler assumes; the class is not part of this model, and were it compared by identity every message would record and connect its address again.
- `JausAddress.from_string` is a parameter (`Serializer.AddressParser`); the `Message` and `JausAddress` classes are not part of this model beyond the fields `pack` and `unpack` touch.
- `Message(msg.messageId)` is assumed not to raise for any `messageId` value; `Handler.Handle` sends whenever `messageId` is present.
- Sockets, threads and I/O: the UDP transport (`transport/udp_uc.py`), the WebSocket server, `Server.start`/`shutdown` beyond setting and clearing the UDP socket, logging and printing of tracebacks.
- Reading the schema files (`schemes/__init__.py`): the directory walk and the JSON parsing are left out, and the files, in the order read, are a parameter of `SchemaLoader.Load`. A file without a `title` attribute (AttributeError) is not modelled.
- `_safe_pack`, used by `test/test_pack.py`, is not defined in the serializer; the model follows the serializer, where an out-of-range value raises.

## Findings

| source | as written | input that shows it | evidently intended | confidence | as-written member | corrected member |
|---|---|---|---|---|---|---|
| fkie_iop_json_connector/fkie_iop_json_connector/message_serializer.py:30-52 | `'long integer'` and `'unsigned long integer'` use the formats `<l`/`<L`, whose standard size is 4 bytes, while `JAUS_TYPES` gives them 8 and the decoder slices 8 | a 'long integer' 1 followed by any other field: the encoder writes 4 bytes, the decoder passes 8 (or 5) bytes to `struct.unpack('<l', ...)`, which raises; 2^32 cannot be packed at all | 8-byte little-endian formats (`<q`/`<Q`) matching `JAUS_TYPES` | not executed | Wire.LongIntegerAsWrittenFails | Wire.PackThenUnpack |
| fkie_iop_json_connector/fkie_iop_json_connector/message_serializer.py:255-271 | the string branches hand a `str` to `struct.pack(f'{n}s', ...)`, which accepts only bytes | a fixed-length string property of length 3 with the JSON text "abc", or a variable-length one with any non-empty text: `struct.pack` raises and `pack` returns False | encode the text to bytes before packing | not executed | Encoder.TextAsWrittenFails | Encoder.EncodeFixedString |
| fkie_iop_json_connector/fkie_iop_json_connector/message_serializer.py:229-258 | the value-set branch packs a word, and the fixed-string branch pads to its length, even when an optional property after the presence-vector field is absent; `_generatePresenceVector` clears that property's bit and `_getProperties` skips it | schema [presenceVector, optional value set `e`, required `x`], all 'unsigned byte', with `{presenceVector: 0, x: 5}`: the payload is [0, 0, 5] and `unpack` gives `x = 0` | write nothing for an absent optional property after the presence vector, as the number branch does | not executed | RoundTrip.ValueSetAsWrittenDesyncs | RoundTrip.RecordRoundTrip |
| fkie_iop_json_connector/fkie_iop_json_connector/schemes/__init__.py:27 | the loader stores one schema object per id, while `pack` takes `len()` of the entry (line 73 of message_serializer.py) and `unpack` and the `JAUS MESSAGE` branches iterate it | any loaded schema, say with messageId "4b00": `pack` of an envelope with that id raises TypeError inside its try and returns False; `unpack` of a message with id 0x4b00 raises TypeError to its caller, `route_udp_msg` | a list per id, each titled schema appended to it | not executed | SchemaLoader.LoadAsWrittenFails | SchemaLoader.OnlyLoadedIsChosen |

The corrected definitions are the ones the rest of the model uses:
`Wire.Pack` and `Wire.UnpackAt` use the `JAUS_TYPES` width for every type;
`Encoder.EncodeFixedString` and `Encoder.EncodeVarString` encode the text as
ASCII bytes; `Encoder.EncodeProperty` writes nothing for an optional value
set or string the object lacks after a presence-vector field
(`Encoder.Omitted`); and the registry of
`Serializer` is a list of message types per id, as `SchemaLoader.Load`
builds it. `RoundTrip.RecordRoundTrip` and
`Serializer.PackThenUnpack` are proved over these corrected definitions.
