# A verified model of the driver/firmware protocol

A driver (on a Raspberry Pi) and a firmware (on an ATmega8) exchange bit-packed request and reply
packets over a byte channel. Each driver call packs a request, the firmware decodes it, changes its pin
tables and replies, and the driver stores what it has learnt in its own copy of the tables, its mirror.
This project models that protocol from the bit writer up to whole runs of driver calls, and proves when
the mirror agrees with the device.

`dafny verify dfyconfig.toml` checks the whole project.

## Layers

| files | source | content |
|---|---|---|
| `Words`, `BitStrings` | C integer types | truncating conversions, shifts, sign-extended bits; buffers as bit strings |
| `BitUtils`, `BitFields`, `ByteFields` | `src/bit_utils.c` | the bit-field writer and reader as loops, and where they are exact |
| `ValueLists`, `Spills`, `HeaderFields` | `src/bit_utils.c` | lists of fields, and what values too wide for their fields do to the fields in front of them; header, size, data and checksum fields |
| `Protocol`, `Masks`, `Failsafe`, `TableSpills`, `DeviceState`, `Connection` | `src/*.c` | packets and checksums, pin masks, the failsafe stream and what values too wide for their fields do to it, reply identifiers, the connection |
| `FirmwareSteps`, `Firmware` | `firmware/` | the device as a step function on packets, and its handlers as methods that refine it |
| `DriverCalls`, `Driver` | `driver/driver.c` | the twelve calls as functions of the bytes, and the methods that refine them |
| `Layouts`, `Decodings`, `Exchanges` | both sides | where each field is written and read, and the result of each call, through the bytes |
| `RequestBytes`, `ReplyBytes` | both sides | the packets in numbers: header, size and data bytes of every request and reply |
| `Outcomes`, `Answers`, `Limits`, `Domains`, `Effects`, `Runs` | both sides | exactly which pins agree after a call, read-backs, packet sizes, ordinary domains, what each call leaves behind in numbers, whole runs |

A method that models a C function is proved equal to a specification function (`WriteBits`, `ReadBits`,
`WriteList`, `WriteTable`, `WriteStep`, `MirrorAfter`, ...), which keeps the code's behaviour outside its
intended domain as well: spilled sign bits, three-byte misreads, truncations. The theorems are about those
functions. `Runs.Run` executes calls on a pair of a mirror and a device, and each call goes through the
bytes of its packets: request bits, framing, checksum, receive buffer, decoding, reply bits and back.

## Assumptions

- The channel delivers whole packets, in order and unchanged, one outstanding command at a time.
- The build has the failsafe code (the Makefile's default flags leave it out).
- The values of the pins that `connection_init_resources` allocates are unknown; every theorem holds for all of them.
- A pointer `p + k` into a buffer is an array and a base index. `malloc` succeeds.
- A precondition that names a buffer length or a pin number stands for a read or write outside an object in C.

## What the code does differently from what its comments and names suggest

- `write_bit_value` ORs ones in front of its field for a negative `int16_t`, or for a value wider than the
  field, unless the field starts on a byte boundary (`BitFields.WriteExactIff`, `BitFields.NegativeSpills`).
- So in a list, a value can set bits in the field before it, or in the mask: on 9 pins, `write_value_mask` with 16-bit
  values 4 and 0x8001 loses the first one, and on 16 pins `set_type_mask` with 0 and 8 does (`Spills.SpillsReachBack`).
  The outcomes of masked calls are therefore stated with the condition that the later values *spare* the field
  (`Spills.Spared`: none of them sets a zero bit of it), which a caller can check from the list alone.
- If values set bits of the mask, the device finds another mask (`Spills.MaskFound`) and takes zeros from the padding for
  the pins that were not meant, as it does for a digital value of 2 on 9 pins (`Exchanges.DisturbedMask`); it serves such
  a request if and only if the padding has room for them (`Exchanges.ListServedIff`).
- Likewise a 16-bit failsafe value of 0x8000 or more sets bits of the type in front of it. `get_failsafe` then returns the
  entry of a disabled pin (`Layouts.EntryReplyReads`, `Answers.SetThenGetFailsafe`), and the reader of a whole stream loses
  its place (`TableSpills.TypeIsLost`).
- `read_bit_value` misreads a field that touches three bytes, except when its first fragment is 0 (`BitFields.ReadExactIff`).
- A masked write goes through a `uint8_t`, so 16-bit values of 256 or more are cut (`Exchanges.WriteValueMaskExchange`).
- A single write sets the type of the pin on the device, not in the mirror (`Outcomes.TypesAfter`).
- `set_failsafe` sizes its buffer with one bit for the pin number, which is too small for digital pins
  (`Limits.FailsafeBufferIff`).
- `get_type_mask` does not send its last mask bit (`Limits.LastPinIsNotSent`). The driver then reads the type of the last
  pin from behind the types of the reply: from zero padding if there is room (`Limits.LastPinReadsDigital`), and from
  outside the reply otherwise (`Limits.TypeMaskBuffersIff`).
- `write_failsafe` skips disabled pins and `read_failsafe` does not (`Failsafes.StreamRoundTripIff`), so that behind a
  disabled pin or a damaged type an entry can at best be found by chance (`TableSpills.DisabledByChance`).
- The replies to `get_type`, `get_failsafe` and `set_failsafe` carry the number of `set_type`, and the reply to
  `ping` that of `get_caps` (`Firmwares.Firmware.Serve`).
- `write_mask` and `read_mask` return a number of pins where the comments promise a number of chars.

A pin is *settled* by a call when both peers hold the same value (type, failsafe entry) for it afterwards.
`Outcomes.ValueSettles`, `TypeSettles` and `FailsafeSettles` give the condition call by call, in terms a caller
can check beforehand, and `Runs.ValuesExact`, `TypesExact`, `FailsafesExact` and, over whole runs, `RunExact` say that
nothing else is settled.

## Model

| member | source | states |
|---|---|---|
| BitUtils.WriteBitValue | src/bit_utils.c:18-40 | the loop of shifts and ORs has exactly the effect of `WriteBits` on the bits of the whole buffer, for every `int16_t` value, any offset and width 0 to 16: the field gets the low bits of the value, the part of its first byte before it gets the sign-extended rest ORed in, and no other bit moves |
| BitUtils.ReadBitValue | src/bit_utils.c:42-65 | the loop returns `ReadBits` of the buffer: the two's complement value of fields of at most two bytes, and for three-byte fields the value with its first fragment shifted too far |
| BitFields.FieldReceives | src/bit_utils.c:18-40 | on a blank field, the field receives the big-endian low bits of any value; bytes before and bits after are untouched |
| BitFields.WriteExactIff | src/bit_utils.c:27-31 | a write changes the field and nothing else if and only if no bit of the sign-extended value falls between the start of the byte and the field |
| BitFields.FittingIsSpillFree | src/bit_utils.c:18-40 | that is so for non-negative values below 2^n at any offset and for every value at byte offsets |
| BitFields.NegativeSpills | src/bit_utils.c:29-31 | it is never so for a negative 16-bit value away from a byte boundary |
| BitFields.ReadExactIff | src/bit_utils.c:47-59 | on any field of 1 to 16 bits a read is exact if and only if the field touches at most two bytes or its first fragment is 0, by an argument modulo 2^16 |
| BitFields.MisreadIs | src/bit_utils.c:42-65 | where it is not exact, the wrong result in numbers: with r bits of the field in its third byte, the bits in its first byte count 2^r times, modulo 2^16 |
| BitFields.ReadFieldIff | src/bit_utils.c:42-65 | a field holding the low bits of a 16-bit value reads as that value if and only if it fits the width and, over three bytes, leaves the first fragment 0 |
| BitFields.RoundTripIff | src/bit_utils.c:18-65 | writing to blank bits and reading back gives the value if and only if the same condition holds |
| ValueLists.WriteValueList | src/bit_utils.c:133-144 | the list loop writes each value at its running offset, with the effect of `WriteList` on the whole buffer |
| ValueLists.ReadValueList | src/bit_utils.c:176-187 | the list loop stores what `ReadBits` gives at each running offset and no other entry of the array |
| ValueLists.WriteListExact | src/bit_utils.c:133-144 | values that do not spill end up one after the other, and the rest of the buffer is unchanged |
| ValueLists.ReadListIff | src/bit_utils.c:176-187 | a list laid out in a buffer is read back if and only if every field carries its value |
| ValueLists.ListDomains | src/bit_utils.c:133-187 | both conditions hold for fitting values of 1 to 8 bits at any offset and for any 16-bit values from a byte boundary |
| Spills.FieldHoldsIff | src/bit_utils.c:133-144 | of any list, the k-th field ends up with the low bits of its value if and only if the later values spare it |
| Spills.MaskHoldsIff | src/bit_utils.c:27-31 | a mask in front of a list is intact after the list is written if and only if no value sets a zero bit of it |
| Spills.MaskIsFound | src/bit_utils.c:27-31 | in any case, what is found in its place is the mask with the bits that the values set, one by one |
| Spills.FieldReadIff | src/bit_utils.c:133-187 | of any list, the k-th value is read back if and only if its place carries it and the later values spare its field |
| Spills.ListRoundTrip | src/bit_utils.c:133-187 | `read_value_list` inverts `write_value_list` on blank bits, for lists of any length and any values, spilling ones included, if and only if every field carries its value; bits behind the list and bytes in front of it never change |
| Spills.ArrivedLowByteIff | src/bit_utils.c:133-187 | what goes through a list and then a byte is the value modulo 2^width and 256 if and only if the later values spare it, also where the value itself is misread over three bytes |
| Spills.SpillsReachBack | src/bit_utils.c:29-31 | two concrete lists whose second value leaves the mask intact and destroys the first one |
| HeaderFields.InitPacket | src/bit_utils.c:10-14 | the first bytes become 0 and no others change |
| HeaderFields.WriteCmdAndParam | src/bit_utils.c:95-113 | on a zero byte, command and parameter become its high and low halves |
| HeaderFields.WriteDataSize | src/bit_utils.c:115-118 | on zero bytes, the size is stored high byte first for all 16-bit sizes, including those negative as `int16_t` |
| HeaderFields.WriteData | src/bit_utils.c:120-126 | on zero bytes, the data bytes follow the size and nothing else changes |
| HeaderFields.WriteChecksum | src/bit_utils.c:128-131 | on a zero byte, the checksum is stored behind the data |
| HeaderFields.ReadCmd | src/bit_utils.c:146-149 | returns the high half of the header |
| HeaderFields.ReadParam | src/bit_utils.c:151-154 | returns the low half of the header |
| HeaderFields.ReadDataSize | src/bit_utils.c:156-159 | returns the 16-bit big-endian size |
| HeaderFields.ReadData | src/bit_utils.c:166-169 | copies the data bytes and leaves the rest of the destination |
| HeaderFields.ReadChecksum | src/bit_utils.c:171-174 | returns the byte behind the data |
| Protocol.Packet.SetHeader | src/protocol.c:31-38 | command and parameter form the header byte; data and checksum keep their values |
| Protocol.Packet.ComputeChecksum | src/protocol.c:7-19 | the result is the one and only checksum that makes the packet valid |
| Protocol.Packet.PacketValid | src/protocol.c:26-29 | true if and only if all bytes on the wire sum to 255 modulo 256 |
| Protocol.Packet.PacketWrite | src/protocol.c:41-48 | a zeroed buffer becomes header, size high byte, size low byte, data, checksum; what follows is unchanged |
| Protocol.Packet.PacketRead | src/protocol.c:50-58 | the packet becomes what the buffer parses to, with freshly allocated data of exactly that size |
| Protocol.ParseOfWire | src/protocol.c:41-58 | reading undoes writing for every header, data and checksum, whatever follows in the receive buffer |
| Protocol.WireInjective | src/protocol.c:41-58 | different packets have different wire forms |
| Protocol.ValidIff | src/protocol.c:7-29 | a packet is valid exactly for one value of its checksum field |
| Protocol.AlterationPassesIff | src/protocol.c:7-29 | with the size unchanged, an altered packet passes if and only if its byte differences sum to 0 modulo 256 |
| Protocol.SingleChangeCaught | src/protocol.c:7-29 | any single changed header, data or checksum byte is caught |
| Protocol.Widths | src/protocol.c:65-79 | values have 1 bit for type 0, 8 bits for types 1 and 3, 16 bits for types 2 and 4, and no bits for any other number |
| Masks.NewMask | src/mask.c:6-14 | a new mask uses no pin |
| Masks.MaskNextPinUsed | src/mask.c:16-22 | the first used pin from the start on, or -1 if there is none |
| Masks.MaskNbPinsUsed | src/mask.c:24-34 | the number of pins used below the length |
| Masks.WriteMask | src/mask.c:36-45 | the bits of the mask are ORed in, one per pin, and no other bit moves |
| Masks.ReadMask | src/mask.c:47-57 | the mask becomes a slice of the bits of the buffer; entries beyond the length are unchanged |
| Masks.VisitsUsedPins | src/mask.c:16-34 | the list of the pins used holds each used pin once, in increasing order, and no other |
| Masks.VisitPins | driver/driver.c:238-246 | the loop over `mask_next_pin_used`, started again behind each pin found until it returns -1, visits that list |
| Masks.GatherOfScatter | driver/driver.c:238-246 | storing a list along a mask and collecting it along the same mask gives the list back |
| Masks.ScatterOfGather | src/failsafe.c:21-37 | storing what was collected along a mask changes nothing |
| Failsafes.Failsafe.constructor | src/failsafe.c:8-19 | a new table has timeout 0 and every pin disabled |
| Failsafes.Failsafe.SubFailsafe | src/failsafe.c:21-37 | a fresh table with the same timeout and the entries of the used pins in increasing order |
| Failsafes.Failsafe.NbBitsOf | src/failsafe.c:39-49 | 16 bits, one per pin, and the length of the stream of the pins that are not disabled |
| Failsafes.Failsafe.WriteFailsafe | src/failsafe.c:51-67 | the loop has the effect of `WriteTable` on the whole buffer, skipping disabled pins |
| Failsafes.Failsafe.ReadFailsafe | src/failsafe.c:69-85 | the table becomes `ReadTable` of the buffer, each type giving the next offset; the timeout is unchanged |
| Failsafes.WriteTableExact | src/failsafe.c:51-67 | a table whose values do not spill is laid out as its stream and the rest of the buffer is unchanged |
| Failsafes.StreamReadable | src/failsafe.c:69-85 | where a stream without disabled pins has been laid out undamaged, the reader stays inside the buffer and every type comes back |
| Failsafes.StreamOffsetsAgree | src/failsafe.c:69-85 | there, the running offsets of reader and writer agree in front of every pin |
| Failsafes.ReadTableIff | src/failsafe.c:69-85 | a table comes back from its stream if and only if no pin is disabled and every value survives its place |
| Failsafes.StreamRoundTripIff | src/failsafe.c:51-85 | for every table written to a blank buffer, spilling values and disabled pins included, at any start offset: the reader stays inside and returns the table if and only if no pin is disabled and every value survives its place |
| TableSpills.TypesReturnIff | src/failsafe.c:51-85 | of every table written to a blank buffer, spilling values included: the types of the first m pins, none of them disabled, come back with the reader inside the buffer if and only if no value sets a zero bit of them; then the running offsets of reader and writer agree behind those pins |
| TableSpills.EntryReturnsIff | src/failsafe.c:51-85 | of every such table that can be read: an entry that the reader reaches at its offset comes back if and only if no value sets a zero bit of its type, its place carries its value and no later value sets a zero bit of that |
| TableSpills.TypeIsLost | src/failsafe.c:56-64 | a 16-bit value of 0x8000 from a byte boundary is read back as type 7, with the reader 3 bits further and the writer 19 |
| TableSpills.DisabledByChance | src/failsafe.c:56-84 | a disabled pin in front of that entry, which the writer skips, is found by chance |
| Failsafes.StreamRoundTrip | src/failsafe.c:51-85 | in the domain the reader stays inside the buffer, the table comes back and the bits in front of it are unchanged |
| Failsafes.StreamDomainIff | src/failsafe.c:51-85 | that domain is exactly: types 0 to 4, fitting values, and 16-bit values byte-aligned or below 2^(8 + offset % 8) |
| Failsafes.StreamStaysInReply | firmware/src/firmware_packet_process.c:199-223 | from bit 24 the stream stays within a reply sized from `failsafe_nb_bits`, and uses that many bits less 16 and one per pin |
| Failsafes.ReplyCountFitsIff | firmware/src/firmware_packet_process.c:199-221 | the `uint8_t` byte count cannot wrap for any table of n selected pins if and only if n is at most 100 |
| DeviceState.ReplyIds.GetReplyId | src/device_state.c:8-18 | returns the counter and steps it, from 255 back to 16 |
| DeviceState.IdClosedForm | src/device_state.c:8-18 | the n-th identifier of every run is n below 256 and 16 + (n - 256) % 240 after that |
| DeviceState.IdsDistinct | src/device_state.c:8-18 | any 240 consecutive identifiers are distinct |
| DeviceState.LowIdsNeverReturn | src/device_state.c:8-18 | identifiers below 16 never return after the first pass |
| Connections.Connection.InitResources | src/connection.c:58-73 | every pin has no capability, a disabled type and a disabled failsafe entry; the timeout is 0; values are unknown |
| Connections.Connection.ViewIs | include/connection.h:14-21 | the value of a connection holds exactly its capabilities, the type and the value of each pin, and its failsafe table |
| Connections.SendPacket | src/connection.c:106-145 | the bytes sent are the wire form of a packet with the given header and data and the right checksum |
| Connections.ConnectionRead | src/connection.c:126-138 | -1 if and only if fewer than 4 bytes came in, and otherwise the packet at the start of the receive buffer |
| Connections.ReceivedWire | src/connection.c:126-138 | a whole packet of at most 612 bytes is received as it was sent |
| Firmwares.Firmware.constructor | firmware/firmware.c:25-47 | a new device has 16 pins, version 1, next identifier 0 and timeout 0; every pin has capabilities 0x1F, type 0, value 0 and the failsafe entry (7, 0) |
| Firmwares.Firmware.ReplyRead | firmware/src/firmware_packet_process.c:40-79 | the reply holds the identifier and the stored values of the pins of the request, in pin order; nothing else changes |
| Firmwares.Firmware.TreatWrite | firmware/src/firmware_packet_process.c:81-108 | the device becomes `WriteStep` of the request: a type and a value for one pin, or values cut to a byte along a mask |
| Firmwares.Firmware.ReplyWrite | firmware/src/firmware_packet_process.c:110-118 | the same, with a reply that holds only its identifier |
| Firmwares.Firmware.ReplyGetType | firmware/src/firmware_packet_process.c:120-157 | the reply holds the types of the pins of the request, in pin order |
| Firmwares.Firmware.TreatSetType | firmware/src/firmware_packet_process.c:159-182 | the device becomes `SetTypeStep` of the request |
| Firmwares.Firmware.ReplySetType | firmware/src/firmware_packet_process.c:184-192 | the same, with a reply that holds only its identifier |
| Firmwares.Firmware.ReplyGetFailsafe | firmware/src/firmware_packet_process.c:195-233 | the reply holds the identifier, the timeout and one entry or the stream of the selected pins |
| Firmwares.Firmware.ReplySetFailsafe | firmware/src/firmware_packet_process.c:235-272 | the device becomes `SetFailsafeStep` of the request, with a reply that holds only its identifier |
| Firmwares.Firmware.ReplyGetCaps | firmware/src/firmware_packet_process.c:11-22 | the reply holds the identifier, the number of pins and the capabilities of each |
| Firmwares.Firmware.ReplyPing | firmware/src/firmware_packet_process.c:28-38 | the reply holds the identifier and the version |
| Firmwares.Firmware.Serve | firmware/firmware.c:89-135 | one turn of the main loop: it stops exactly on short or invalid packets and then changes nothing; an accepted packet of an answered command takes the device one step and is answered with its reply; commands 1 and 9 to 15 are not answered; command 2 gets header 0 with the old identifier and the version, and changes only the identifier counter |
| Firmwares.AcceptsIff | firmware/firmware.c:93-96 | a packet is accepted if and only if at least 4 bytes came in and those of the packet sum to 255 modulo 256 |
| Layouts.ListRequestLayout | driver/driver.c:230-231 | a request has in its first bits the mask with the bits that the values set, which is the mask itself if and only if no value sets a zero bit of it; behind it the list that goes with the mask found can be read; the k-th field holds its value if and only if the later values spare it |
| Layouts.FailsafeListLayout | driver/driver.c:460-465 | a failsafe request has the timeout in its first 16 bits always, then mask and values as a request without timeout |
| Layouts.FailsafeRequestLayout | driver/driver.c:424-433 | a failsafe request for one pin has the timeout, the pin number and the value at bits 0, 16 and 24 |
| Layouts.EntryReplyReads | firmware/src/firmware_packet_process.c:202-213 | for every entry that the device can hold: read from bit 24 of a reply, it is a disabled pin if it was one or has a 16-bit value of 0x8000 or more, and otherwise has its type; its value comes back if and only if a 16-bit value is below 2048 |
| Exchanges.GenericReadExchange | driver/driver.c:86-107 | through the bytes of both packets, the mirror gets the device's value modulo 2^width and the device is unchanged |
| Exchanges.ReadValueMaskExchange | driver/driver.c:137-167 | the mirror gets, at the pins of the mask, the values of the device modulo 2^width: always for 8 and 16 bits, and for 1 bit if and only if the later values spare the field |
| Exchanges.GenericWriteExchange | driver/driver.c:169-189 | the device gets the value modulo 2^width and the type of the write; the mirror gets the whole value and keeps its type |
| Exchanges.WriteValueMaskExchange | driver/driver.c:216-248 | for every list whose request is served: the device stores the list received along the mask found and keeps its types; each value that was sent arrives modulo 2^width and 256 if and only if the later values spare it; the mirror gets the list along the mask given |
| Exchanges.GetTypeExchange | driver/driver.c:250-266 | the mirror gets the type that the device holds |
| Exchanges.GetTypeMaskExchange | driver/driver.c:268-299 | the mirror gets the device's types at the pins of the mask, with 0 (digital) for the last pin if the mask uses it |
| Exchanges.SetTypeExchange | driver/driver.c:301-320 | the device gets the type modulo 8, the mirror the type |
| Exchanges.SetTypeMaskExchange | driver/driver.c:323-353 | for every list whose request is served: the device stores the types received along the mask found; each type arrives modulo 8 if and only if the later ones spare it; the mirror gets the list along the mask given |
| Exchanges.GetFailsafeExchange | driver/driver.c:356-378 | neither side changes; whatever the device holds, the entry comes back as a disabled pin if it is one or has a 16-bit value of 0x8000 or more, otherwise with its type, and whole if and only if a 16-bit value is below 2048 |
| Exchanges.GetFailsafeMaskExchange | driver/driver.c:380-412 | the timeout comes back, and the whole selected table if and only if no selected pin is disabled and every value survives its place in the stream; each entry that the reader reaches comes back if and only if the values spare it; the mirror gets what was read in any case |
| Exchanges.SetFailsafeExchange | driver/driver.c:414-444 | both timeouts become the given one; the device gets the value modulo 2^width, the mirror the entry; other pins keep theirs |
| Exchanges.SetFailsafeMaskExchange | driver/driver.c:446-485 | for every list whose request is served: both timeouts become the given one; the device stores the type and the values received along the mask found, the mirror those given along the mask given; each value arrives as a lone field would if and only if the later values spare it, and as it is if and only if moreover its place carries it |
| Exchanges.ListServedIff | firmware/src/firmware_packet_process.c:81-272 | the device serves the request of a masked write without leaving it if and only if the values of the mask that it finds are inside the request |
| Exchanges.DisturbedMask | src/bit_utils.c:27-31 | a digital value of 2 for one of 9 pins is served, uses the last pin as well, and stores 0 for both |
| RequestBytes.FirstByte | driver/driver.c:86-485 | the first wire byte of each of the twelve requests as a number: 0x30 and 0x40 (read, write) plus twice the type, 0x50, 0x60, 0x70, and 0x80 plus twice the type, and 1 more for the masked calls |
| RequestBytes.RequestSize | driver/driver.c:86-485 | the two bytes behind it are the size, high byte first, and the size of each request in numbers |
| RequestBytes.PinBytes | driver/driver.c:86-378 | the requests that only name a pin have the pin as their one data byte |
| RequestBytes.WriteBytes | driver/driver.c:169-189 | the data of a single write: the pin, then 128 times the low bit of a digital value, the low byte of an 8-bit one, or both bytes of a 16-bit one, high byte first |
| RequestBytes.SetTypeBytes | driver/driver.c:301-320 | the pin, then 32 times the type modulo 8 |
| RequestBytes.SetFailsafeBytes | driver/driver.c:414-444 | timeout, pin and value, high bytes first |
| RequestBytes.ReadMaskBytes | driver/driver.c:137-152 | data bit p, the highest of each byte first, says whether pin p is asked for |
| RequestBytes.GetTypeMaskBytes | driver/driver.c:268-280 | the same for all pins but the last |
| RequestBytes.GetFailsafeMaskBytes | driver/driver.c:380-395 | the same for failsafes |
| RequestBytes.MaskIsDetermined | src/mask.c:36-45 | those bits determine the mask |
| RequestBytes.WriteMaskBytes | driver/driver.c:216-236 | on a multiple of 8 pins, whatever the values: the mask, then one or two bytes for each value, high byte first |
| RequestBytes.SetTypeMaskBytes | driver/driver.c:323-345 | the mask, and right behind it 3 bits for each type below 8 |
| RequestBytes.SetFailsafeMaskBytes | driver/driver.c:446-475 | on a multiple of 8 pins: two bytes of timeout, the mask, then one or two bytes for each value |
| RequestBytes.ValuesAreDetermined | driver/driver.c:216-236 | those bytes determine the list, modulo 256 for 8-bit values |
| RequestBytes.CapsRequestBytes | driver/driver.c:42-46 | the request of `get_caps` is 00 00 00 FF |
| RequestBytes.PingRequestBytes | driver/driver.c:69-78 | the request of `ping` has header 0x20 and the version of the driver as its one data byte |
| ReplyBytes.AnsweredIff | firmware/firmware.c:98-131 | commands 0 and 2 to 8 are answered, and no others |
| ReplyBytes.ReplyHeaderIs | firmware/src/firmware_packet_process.c:11-272 | the header of every reply as a number: 0x30 to a read, 0x40 to a write, 0x60 to commands 5 to 8, and 0 to `get_caps` and `ping` |
| ReplyBytes.PingServed | firmware/src/firmware_packet_process.c:28-38 | every valid packet of command 2 is served: header 0, identifier and version; the tables stay and the identifier steps, from 255 to 16 |
| ReplyBytes.CapsServed | firmware/src/firmware_packet_process.c:11-22 | every valid packet of command 0 is served: header 0, identifier, number of pins and one byte for each pin |
| ReplyBytes.ReadReplyBytes | firmware/src/firmware_packet_process.c:48-79 | identifier and value, which is 128 times the low bit, the low byte, or both bytes, high byte first |
| ReplyBytes.ReadMaskReplyBytes | firmware/src/firmware_packet_process.c:56-79 | identifier, then one or two bytes for each pin of the mask in increasing order |
| ReplyBytes.ReadDigitalReplyBits | firmware/src/firmware_packet_process.c:56-79 | identifier, then one bit for each pin of the mask |
| ReplyBytes.TypeReplyBytes | firmware/src/firmware_packet_process.c:120-157 | identifier, then 32 times the type modulo 8 |
| ReplyBytes.TypeMaskReplyBits | firmware/src/firmware_packet_process.c:133-157 | identifier, then the 3 bits of the type of each pin that the request has sent |
| ReplyBytes.EntryReplyBytes | firmware/src/firmware_packet_process.c:195-233 | identifier, both bytes of the timeout, and the entry in numbers: type times 32 with the value right behind its 3 bits, where a value of 0x8000 or more turns the type into 7 |
| ReplyBytes.StreamReplyBytes | firmware/src/firmware_packet_process.c:214-233 | identifier, both bytes of the timeout, then the stream of the selected pins if no value spills |
| ReplyBytes.StreamInBits | src/failsafe.c:51-67 | that stream in numbers: for each pin that is not disabled 3 bits of type, then 1, 8 or 16 bits of value |
| ReplyBytes.StoringReplyBytes | firmware/src/firmware_packet_process.c:110-272 | the six calls that store something are answered with nothing but the identifier, under 0x40 or 0x60 |
| Outcomes.ValuesAfter | driver/driver.c:86-248 | for every safe call and every pin: the value is left alone on both sides, or agrees if and only if it settles (fits its width; below 256 for masked writes; spared by the later values of its list; where the list has changed its mask, what the device takes is what the mirror has) |
| Outcomes.TypesAfter | driver/driver.c:169-353 | for every safe call and every pin: the type is left alone, or agrees if and only if it settles (the type written is the mirrored one; the type set is below 8 and spared; a last pin asked for is digital; where the list has changed its mask, what the device takes is what the mirror has) |
| Outcomes.FailsafesAfter | driver/driver.c:380-485 | for every safe call and every pin: the entry is left alone, or agrees if and only if it settles (its value survives its place in the request or in the reply and it is spared there); entries of a masked read behind a disabled pin or a damaged type are not settled |
| Outcomes.TimeoutsAfter | driver/driver.c:414-485 | both timeouts take any 16-bit value given to them, and no other call changes them |
| Outcomes.StaysReady | firmware/firmware.c:89-135 | every safe call leaves tables that the handlers can serve the next call from, on the same pins, and takes the next identifier |
| Answers.WriteThenRead | driver/driver.c:137-248 | for every list whose request is served, a masked read returns what a masked write of the same type was given if and only if every value is below 256 and fits its type |
| Answers.SetThenGetTypes | driver/driver.c:268-353 | for every list whose request is served, `get_type_mask` returns what `set_type_mask` was given if and only if all types are below 8 and that of a last pin is digital |
| Answers.SetThenGetFailsafe | driver/driver.c:356-444 | `get_failsafe` returns the entry given to `set_failsafe` if and only if the value fits its type and a 16-bit value is below 2048, for every value; from 0x8000 on it returns a disabled pin; no other entry changes |
| Limits.RequestAtMost | driver/driver.c:137-485 | every request for n pins is at most 4 bytes plus the bytes of 16 + 17 n bits |
| Limits.SafeConcerns | driver/driver.c:86-485 | every call that a device can serve concerns exactly the pins that it has |
| Limits.EmbeddedBufferIff | src/connection.c:15-23 | every request fits in the 42-byte buffer of the device if and only if there are at most 16 pins |
| Limits.PacketsFit | src/connection.c:15-23 | with any number of pins every request and every reply fits in 612 bytes |
| Limits.ValueBufferIff | driver/driver.c:169-189 | a value behind a pin number stays in its buffer if and only if its type is one of the five |
| Limits.FailsafeBufferIff | driver/driver.c:420-433 | the buffer of `set_failsafe` is large enough if and only if the type has 8 or 16 bits |
| Limits.LastPinIsNotSent | driver/driver.c:273-278 | the request of `get_type_mask` is the same whether or not the last pin is used |
| Limits.TypeMaskBuffersIff | driver/driver.c:268-288 | the mask read by the device is inside the request if and only if nb_pins - 1 is no multiple of 8; the types read by the driver are inside the reply if and only if the last pin is not asked for or 3k % 8 is from 1 to 5 for k other pins |
| Limits.LastPinReadsDigital | driver/driver.c:268-299 | in that case the mirror gets digital for the last pin, and agrees with the device if and only if the device has it digital |
| Domains.WriteValueMaskDomain | driver/driver.c:216-248 | with values below 256 that fit their type, for any mask and number of pins, the call is safe and settles every pin of the mask |
| Domains.ReadValueMaskDomain | driver/driver.c:137-167 | where the device's values fit the width asked for, the call is safe and settles every pin of the mask |
| Domains.SetTypeMaskDomain | driver/driver.c:323-353 | with types below 8 the call is safe and settles every pin of the mask |
| Domains.SetFailsafeMaskDomain | driver/driver.c:446-485 | with fitting 1-bit and 8-bit values, or any 16-bit values and a multiple of 8 pins, the call is safe and settles every pin of the mask |
| Domains.SetFailsafeDomain | driver/driver.c:414-444 | with a fitting value of an 8-bit or 16-bit type the call is safe and settles its pin |
| Domains.GetFailsafeMaskDomain | driver/driver.c:380-412 | where the selected table of the device is in the domain of the stream and its reply counts at most 255 bytes, the call is safe and settles every pin of the mask |
| Effects.ReadEffect | driver/driver.c:86-107 | for every pin and type 0 to 4: the mirror ends with the device's value modulo 2 (type 0), 256 (1, 3) or 65536 (2, 4); nothing else changes but the identifier counter |
| Effects.WriteEffect | driver/driver.c:169-189 | for every pin, type 0 to 4 and value: the device ends with the value modulo 2, 256 or 65536 and with that type, the mirror with the whole value; nothing else changes |
| Effects.GetTypeEffect | driver/driver.c:250-266 | the mirror ends with the device's type; nothing else changes |
| Effects.SetTypeEffect | driver/driver.c:301-320 | the device ends with the type modulo 8, the mirror with the type; nothing else changes |
| Effects.GetFailsafeEffect | driver/driver.c:356-378 | no table changes; the entry returned is that of the device for types 0, 1 and 3; for types 2 and 4 with a value below 0x8000 its five high bits count eight times, so it is exact if and only if it is below 2048; for type 7 and from 0x8000 on it is a disabled one |
| Effects.SetFailsafeEffect | driver/driver.c:414-444 | both timeouts become the given one, the device keeps the low byte of 8-bit values, the mirror the entry; nothing else changes |
| Effects.ReadMaskEffect | driver/driver.c:137-167 | at each pin of the mask, the mirror and the list of the caller get the device's value modulo 256 or 65536, or the digital value; nothing else changes |
| Effects.WriteMaskEffect | driver/driver.c:216-248 | at each pin of the mask, the device gets its value modulo 256 and the mirror the whole value, for values below 2 or 256 or, on a multiple of 8 pins, any values of 8 or 16 bits; nothing else changes |
| Effects.GetTypeMaskEffect | driver/driver.c:268-299 | at each pin of the mask, the mirror and the list of the caller get the device's type, and 0 for the last pin; nothing else changes |
| Effects.GetTypeMaskIsSafe | driver/driver.c:268-288 | when that call stays inside its buffers, in numbers |
| Effects.SetTypeMaskEffect | driver/driver.c:323-353 | at each pin of the mask, both sides get the type given, for types below 8; nothing else changes |
| Effects.GetFailsafeMaskEffect | driver/driver.c:380-412 | at each pin of the mask, the mirror and the table of the caller get the device's entry, for at most 100 pins without disabled ones and with 16-bit values below 256; the timeout is the device's; nothing else changes |
| Effects.SetFailsafeMaskEffect | driver/driver.c:446-485 | both timeouts become the given one; at each pin of the mask, the mirror gets type and value and the device the same, with the low byte of 8-bit values; nothing else changes |
| Effects.Counted | src/device_state.c:8-18 | every call steps the identifier of the device by 1, and from 255 to 16 |
| Runs.StepAgrees | driver/driver.c:42-485 | the pins known to agree, less those a call touches, plus those it settles, agree after the call |
| Runs.ValuesExact | driver/driver.c:86-248 | a value that a call touches agrees afterwards if and only if the call settles it |
| Runs.TypesExact | driver/driver.c:169-353 | a type that a call touches agrees afterwards if and only if the call settles it |
| Runs.FailsafesExact | driver/driver.c:380-485 | a failsafe entry that a call stores, or reads at its offset, agrees afterwards if and only if the call settles it |
| Runs.CertainIff | driver/driver.c:380-412 | what a call leaves to chance: the entries of a masked failsafe read that its reader does not reach |
| Runs.StepExact | driver/driver.c:42-485 | a call that leaves no entry to chance takes the set of all pins that agree to the set of all pins that agree |
| Runs.RunAgrees | driver/driver.c:42-485 | over every run of safe calls, from any pair of ready peers, everything known to agree agrees |
| Runs.RunExact | driver/driver.c:42-485 | over every such run in which no masked failsafe read leaves an entry to chance, starting from all that agrees, what is known is all that agrees: nothing is missed |
| Runs.CertainWithoutReads | driver/driver.c:380-412 | only masked failsafe reads leave an entry to chance |
| Runs.DomainRunLearns | driver/driver.c:42-485 | over runs in the domain nothing known is ever forgotten and everything touched is known |
| Runs.RunIds | src/device_state.c:8-18 | after n served calls the identifier counter has made n steps |
| Runs.MirrorIsDevice | driver/driver.c:42-485 | over every run in the domain after `get_caps` on a new device of any number of pins, mirror and device agree on every value and type that any of its calls touched, on the whole failsafe table and on the timeout |
| Runs.StartInNumbers | firmware/firmware.c:25-47 | that start in numbers: on the device, capabilities 0x1F, type 0 and value 0 for every pin; in the mirror the same capabilities and type 7; failsafe entries (7, 0) and timeout 0 on both sides; the next identifier is 1 |
| Runs.RunsCompose | driver/driver.c:42-485 | a run followed by a run from where it ends is a run, with the same result, and is in the domain exactly when both are |
| Runs.RunOfOne | driver/driver.c:42-485 | a single call is a run in the domain exactly when it is safe and settles everything that it touches |
| Drivers.Driver.Transact | driver/driver.c:16-40 | a request goes out, the device takes one step, and the data of its reply come back, whatever the device holds |
| Drivers.Driver.GetCaps | driver/driver.c:42-56 | the mirror gets the number of pins and every capability byte of the device, type 7 and failsafe entry (7, 0) for every pin, timeout 0 and unknown values; the device only takes an identifier |
| Drivers.Driver.Ping | driver/driver.c:69-84 | the version of the device is returned, its tables stay and its identifier steps |
| Drivers.RunsStartHere | driver/driver.c:42-56 | on a new device that state is the one the runs start from |
| Drivers.Driver.GenericRead | driver/driver.c:86-107 | the request bytes are built as the run semantics has them, both sides end as it says, and the value returned is the mirrored one |
| Drivers.Driver.ReadValueMask | driver/driver.c:137-167 | the same, and the list returned holds the device's values modulo 2^width in pin order (spared ones, for 1 bit); the rest of the caller's array is unchanged |
| Drivers.Driver.GenericWrite | driver/driver.c:169-189 | the request bytes are built as the run semantics has them, and both sides end as it says |
| Drivers.Driver.WriteValueMask | driver/driver.c:216-248 | the request bytes are built as the run semantics has them, and both sides end as it says |
| Drivers.Driver.GetType | driver/driver.c:250-266 | the request bytes are built as the run semantics has them, both sides end as it says, and the type returned is the mirrored one |
| Drivers.Driver.GetTypeMask | driver/driver.c:268-299 | the same for a mask; the list returned is the one read from the reply and the rest of the caller's array is unchanged |
| Drivers.Driver.SetType | driver/driver.c:301-320 | the request bytes are built as the run semantics has them, and both sides end as it says |
| Drivers.Driver.SetTypeMask | driver/driver.c:323-353 | the request bytes are built as the run semantics has them, and both sides end as it says |
| Drivers.Driver.GetFailsafe | driver/driver.c:356-378 | both sides end as the run semantics says, with the mirror unchanged, and the entry returned is the one read from the reply, whatever the device holds |
| Drivers.Driver.GetFailsafeMask | driver/driver.c:380-412 | both sides end as the run semantics says; the caller's table gets the timeout and the entries of the reply |
| Drivers.Driver.SetFailsafe | driver/driver.c:414-444 | the request bytes are built as the run semantics has them, and both sides end as it says |
| Drivers.Driver.SetFailsafeMask | driver/driver.c:446-485 | the request bytes are built as the run semantics has them, and both sides end as it says |

## Left out

- Opening, creating and closing the two fifo files, `perror` and `exit`: the channel is the sequence of bytes of each packet.
- Packets split over several reads: `connection_read` reads once and never reassembles, so a part of a packet is not a packet here.
- The UART, its interrupt routine and the embedded `read` and `write`: hardware registers and buffers that never wrap.
- `reset`: its handler is empty, so its exchange never completes; on the device it is one of the unanswered commands.
- The check of the reply code and the reply identifier in `read_reply`: it only prints.
- `digital_read`, `analogic_read`, `pwm8_read`, `pwm16_read` and the four `*_write` calls: thin wrappers.
- Values of types 5 to 7: their width is 0 and the code then touches a byte past an exactly sized buffer (`Limits.ValueBufferIff`).
- `get_failsafe_mask` on masks with more pins than bits in its buffer, which is sized from three bits for each used pin.
- `get_type_mask` where `Limits.TypeMaskBuffersIff` says that a buffer is left, or where no pin but the last is used: the firmware then
  reads past the request, the driver past the reply, or the reply has no size.
- Masked requests that the device does not serve inside their buffer, by `Exchanges.ListServedIff`.
- `get_failsafe_mask` where the driver would read past the reply, as it can when a selected pin is disabled or a value spills on its type.
- Wrap-around of the 16-bit offsets and of the 8-bit and 16-bit counts: buffers are at most 544 bytes and tables at most 255 pins, so
  only the reply count of `get_failsafe_mask` can wrap, and `Failsafes.ReplyCountFitsIff` says when.
- Drivers.Driver.GenericWrite: takes the width from the type, as the callers of `generic_write` do, instead of a separate parameter.
- `write_pin_type`, `write_mask_p` and `packet_bytes_nb`, which no protocol code calls.
- `device_caps_init` and `device_state_init`, which nothing calls; `display_*`, `packet_print`, `free` and the test programs.
- The ATmega8 build uses 16-bit `int`; shifts and sums here are those of a wider `int`, and values of `int16_t` are the same in both.
- Outcomes.FailsafesAfter: one direction only for entries of `get_failsafe_mask` behind a disabled pin or a damaged type, where the reader
  has lost its place and an entry can be found by chance (`TableSpills.DisabledByChance`); both directions for all entries up to there.
- Drivers.Driver.Transact: the reply is assumed to come from the step that the request triggers; a lost or late reply is not modelled.
