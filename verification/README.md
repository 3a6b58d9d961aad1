# Propeller firmware loader — a verified model

This project models the core of a desktop tool that finds Parallax
Propeller boards on serial ports and writes firmware to them. The model
covers the following:

- **Propeller 2 loader.** How an image is prepared and sent:
  - the `0x706F7250` ("Prop") checksum word;
  - `Prop_Txt` Base64 framing in 64-character slices, and the `Prop_Hex`
    hexadecimal alternative;
  - the flash sub-loader image with its length and checksum patches;
  - the `Prop_Chk` / `Prop_Ver` handshake and the `.` verdict;
  - closing the port on every path.
- **Discovery.** The Propeller 1 probe:
  - the 8-bit LFSR seeded with `'P'`;
  - the 250-byte challenge and the echo comparison;
  - the version byte assembled LSB first.

  Also the Propeller 2 probe, the version names, and the sorted merge of
  the devices found.
- **Devices.** Identity (`equals`, `hashCode`), the `compareTo` order,
  the port description, and the selection and status each device carries.
- **Firmware.** The chip version inferred from the byte sum modulo 256,
  firmware packs, and the permissive boolean decoder of network
  descriptors.
- **Parameters.** The loader's parameter state: the `setDevices`
  reconciliation that keeps existing device objects, `updateFrom`,
  `canDoUpdate` and `getSelectedDevices`, with the property-change events
  recorded by name.
- **Loader window.** The decisions it makes: relative paths, what a chosen
  file is read as, the device list filter, and the update run.

The serial port is a `ComPort` class whose reads come from a script.
Each read yields a byte, a timeout or an I/O fault. Everything written
to the port is appended to a log. Loops in the source are methods with
invariants, each proved against a function that specifies it. Objects
the source mutates are classes. Java exceptions are `Result`/`Outcome`
values. Java `int` sums are taken modulo 2^32. A signed `byte` is read
through `Signed` wherever its sign matters. The LFSR is a `bv8`, which
is exactly Java's byte expression.

Where the code departs from what its names and comments suggest, the
model follows the code:

- The parameter state does not keep "the firmware is null or in the
  firmware list":
  - `updateFrom(Firmware)` empties the list and chooses the firmware;
  - `updateFrom` with an empty pack empties the list and keeps the old
    firmware.
- `probeP1` receives 250 echo bits but compares only 249 of them: rounds
  1 to 249, after the first bit.
- `find` skips the Propeller 1 probe when the Propeller 2 probe throws,
  not only when it answers.
- A read timeout in `getBit` yields bit 1, because `-1 & 1 == 1`.
- `Device.equals` compares the address, MAC address and serial port all
  together.

## Model

| member | source | states |
|---|---|---|
| Port.ReadStringWithTimeout | loader/src/com/maccasoft/propeller/DeviceDiscover.java:217-233 | the loop returns, and consumes, exactly the line `ReadLine` reads: characters up to a CR or a timeout, one more byte dropped after the CR, a port fault raising |
| Port.ScanLine | loader/src/com/maccasoft/propeller/loader/Propeller2Loader.java:77-93 | a line read never contains CR, and a fault always yields the port exception |
| Port.ReadLineOfText | loader/src/com/maccasoft/propeller/DeviceDiscover.java:217-233 | a CR-terminated line followed by any byte that is not a fault reads back as that line, with both terminator bytes consumed |
| P2Image.Checksum | loader/src/com/maccasoft/propeller/loader/Propeller2Loader.java:191-205 | the trailer word lies in 0 .. 2^32-1 and brings the image's little-endian word sum to 0x706F7250 modulo 2^32 |
| P2Image.PreparedLength | loader/src/com/maccasoft/propeller/loader/Propeller2Loader.java:207 | `(len + 7) & ~3` is a multiple of 4, equals the length rounded up to whole words plus 4, and lies in len+4 .. len+7 |
| P2Image.PreparedLayout | loader/src/com/maccasoft/propeller/loader/Propeller2Loader.java:207-212 | the prepared image starts with the input, is zero up to the trailer, and ends with the checksum word little-endian |
| P2Image.PreparedWordSum | loader/src/com/maccasoft/propeller/loader/Propeller2Loader.java:191-212 | the words of the prepared image, a partial word zero-extended, sum to 0x706F7250 modulo 2^32 |
| P2Image.WordsOfPrepared | loader/src/com/maccasoft/propeller/loader/Propeller2Loader.java:191-212 | read word by word, the prepared image is the input's words followed by the checksum word |
| P2Loader.WordFrom | loader/src/com/maccasoft/propeller/loader/Propeller2Loader.java:193-202 | the nested reads build the little-endian word at offset n, missing bytes read as zero |
| P2Loader.WordSumOf | loader/src/com/maccasoft/propeller/loader/Propeller2Loader.java:191-204 | the summing loop computes the 32-bit word sum of the whole array |
| P2Loader.PutWordInto | loader/src/com/maccasoft/propeller/loader/Propeller2Loader.java:209-212 | the four `(byte) (sum >> 8k)` stores replace exactly the word at offset k |
| P2Loader.CopyInto | loader/src/com/maccasoft/propeller/loader/Propeller2Loader.java:207-208 | a fresh array of the given length holding the image followed by zeros |
| P2Loader.PrepareImage | loader/src/com/maccasoft/propeller/loader/Propeller2Loader.java:191-213 | a fresh array equal to the prepared image of the input |
| P2Image.SlicesFromLengths | loader/src/com/maccasoft/propeller/loader/Propeller2Loader.java:218-222 | every slice holds 1 to 64 characters, all but the last exactly 64, and there are ceil(len / 64) of them |
| P2Image.SlicesConcat | loader/src/com/maccasoft/propeller/loader/Propeller2Loader.java:218-222 | the slices put together give back the whole Base64 text |
| Base64.DecodeEncode | loader/src/com/maccasoft/propeller/loader/Propeller2Loader.java:217 | the standard Base64 encoding (section 4 of RFC 4648) decodes back to the bytes |
| Base64.EncodeInjective | loader/src/com/maccasoft/propeller/loader/Propeller2Loader.java:217 | distinct byte strings never share an encoding |
| P2Image.TxtUploadCarriesPrepared | loader/src/com/maccasoft/propeller/loader/Propeller2Loader.java:215-225 | the text sent after the `Prop_Txt` header decodes to exactly the prepared image, whose words sum to 0x706F7250 |
| P2Loader.Propeller2Loader.Base64Upload | loader/src/com/maccasoft/propeller/loader/Propeller2Loader.java:187-226 | the port log grows by the header, a `"\r> "` prompt and a slice for each 64-character slice of the encoded prepared image, then `" ?"`; nothing is read |
| P2Loader.Propeller2Loader.SendSlices | loader/src/com/maccasoft/propeller/loader/Propeller2Loader.java:218-222 | the chunking loop writes a prompt and a slice for each slice, in order |
| P2Loader.Propeller2Loader.HexUpload | loader/src/com/maccasoft/propeller/loader/Propeller2Loader.java:157-185 | the port log grows by the `Prop_Hex` header, the hex words with a `"\r>"` before each nonzero multiple of 64 bytes, then the checksum word and `" ?"` |
| P2Loader.Propeller2Loader.SendHexWords | loader/src/com/maccasoft/propeller/loader/Propeller2Loader.java:162-180 | the loop writes every word of the image as hex text and returns their 32-bit sum |
| P2Loader.Propeller2Loader.SendHexWord | loader/src/com/maccasoft/propeller/loader/Propeller2Loader.java:164-179 | one round of the loop adds the word at offset n to the sum and its text to the log |
| P2Loader.Propeller2Loader.WriteHexLine | loader/src/com/maccasoft/propeller/loader/Propeller2Loader.java:164-178 | a prompt exactly at nonzero multiples of 64, then the word's four bytes as `" %x"` |
| P2Image.HexUploadCarriesPrepared | loader/src/com/maccasoft/propeller/loader/Propeller2Loader.java:157-185 | the words `Prop_Hex` writes, followed by its checksum word, stand for exactly the image `Prop_Txt` sends |
| P2Image.ReadHexBytes | loader/src/com/maccasoft/propeller/loader/Propeller2Loader.java:178-184 | reading the `" %x"` text back, field by field, gives exactly the bytes it was written from |
| P2Image.HexLineReadsBack | loader/src/com/maccasoft/propeller/loader/Propeller2Loader.java:164-178 | the last write of each hex line is a string that reads back as that word's four bytes |
| P2Image.UnwordsWords | loader/src/com/maccasoft/propeller/loader/Propeller2Loader.java:168-177 | the first k words written back as bytes are the first 4k bytes of the zero-filled image |
| P2Loader.Propeller2Loader.Hwfind | loader/src/com/maccasoft/propeller/loader/Propeller2Loader.java:62-75 | pulses reset and sends `Prop_Chk`; succeeds unless a read faults, and returns 2 exactly when the second reply line starts with "Prop_Ver ", else 0 |
| P2Loader.Acknowledge | loader/src/com/maccasoft/propeller/loader/Propeller2Loader.java:246-254 | only a `.` passes; a timeout fails with "Timeout", any other byte with "Checksum error" |
| P2Loader.Propeller2Loader.VerifyRam | loader/src/com/maccasoft/propeller/loader/Propeller2Loader.java:240-255 | the result is the verdict on the next read, and exactly one read is consumed |
| P2Loader.Finally | loader/src/com/maccasoft/propeller/loader/Propeller2Loader.java:46-59 | an exception from closing the port replaces the outcome of the body, otherwise the body's outcome stands |
| P2Loader.Propeller2Loader.Upload | loader/src/com/maccasoft/propeller/loader/Propeller2Loader.java:44-60 | the port is closed on every path; the upload passes exactly when the port opens, the chip answers "Prop_Ver " and the verdict byte is `.`; no chip gives "No propeller chip on port …"; the full write log |
| P2Loader.Propeller2Loader.BufferUpload | loader/src/com/maccasoft/propeller/loader/Propeller2Loader.java:95-155 | sends the image, or for flash the sub-loader image built from it, by `Prop_Txt`, and returns the verdict on the next read |
| P2Loader.Propeller2Loader.CombineImages | loader/src/com/maccasoft/propeller/loader/Propeller2Loader.java:108-111 | a fresh array holding the sub-loader followed by the image zero-filled to whole words |
| P2Loader.Propeller2Loader.BuildFlashImage | loader/src/com/maccasoft/propeller/loader/Propeller2Loader.java:108-136 | the flash branch builds exactly `FlashImage`: the combined image, its length patched in at byte 8, then the negated word sum at byte 4 |
| P2Image.PatchOrderMatters | loader/src/com/maccasoft/propeller/loader/Propeller2Loader.java:113-136 | over any image, patching the length and then the negated sum (the source's order) makes the words sum to minus the word at byte 4; in the other order the sums agree exactly when the image already held the length at byte 8 |
| P2Image.SumBeforeLength | loader/src/com/maccasoft/propeller/loader/Propeller2Loader.java:113-136 | with the sum taken before the length is written, the words sum to the length minus the two words first held at bytes 4 and 8 |
| P2Image.FlashImageLayout | loader/src/com/maccasoft/propeller/loader/Propeller2Loader.java:108-136 | the flash image keeps the sub-loader outside bytes 4..11, holds its own length in bytes 8..11, and carries the zero-filled image after the sub-loader |
| P2Image.NegatedSumCancels | loader/src/com/maccasoft/propeller/loader/Propeller2Loader.java:118-136 | storing the negated word sum at offset 4 leaves a total equal to the negation of the word it overwrote |
| P2Image.FlashImageWordSum | loader/src/com/maccasoft/propeller/loader/Propeller2Loader.java:118-136 | the words of the flash image sum to minus the sub-loader's own word at offset 4, so zero exactly when those bytes are zero |
| Discovery.DeviceDiscover.Iterate | loader/src/com/maccasoft/propeller/DeviceDiscover.java:194-198 | returns bit 0 of the old register and steps it: shift left, feed in bit7 xor bit5 xor bit4 xor bit1 |
| Discovery.LfsrBackStep | loader/src/com/maccasoft/propeller/DeviceDiscover.java:194-198 | every step of the register can be undone |
| Discovery.LfsrStepInjective | loader/src/com/maccasoft/propeller/DeviceDiscover.java:194-198 | no two register states step to the same state |
| Discovery.LfsrStateNext | loader/src/com/maccasoft/propeller/DeviceDiscover.java:194-198 | n+1 steps are n steps and one more |
| Discovery.PatternAt | loader/src/com/maccasoft/propeller/DeviceDiscover.java:120-124 | byte i of the challenge pattern is 0xFE plus the register's output bit after i steps |
| Discovery.DeviceDiscover.FillPattern | loader/src/com/maccasoft/propeller/DeviceDiscover.java:121-124 | byte `n` of the buffer is 0xFE or-ed with the register's `n`-th output bit from its starting state, and the register has stepped once per byte |
| Discovery.DeviceDiscover.MakeChallenge | loader/src/com/maccasoft/propeller/DeviceDiscover.java:120-124 | seeded with 'P', the 250-byte buffer is exactly the challenge and the register has stepped 250 times |
| Discovery.Repeat | loader/src/com/maccasoft/propeller/DeviceDiscover.java:129-132 | n copies of the byte (the 258 clocking bytes 0xF9) |
| Discovery.BitOf | loader/src/com/maccasoft/propeller/DeviceDiscover.java:184-192 | the low bit of a received byte; a timeout gives 1, and -1 comes only from a port exception |
| Discovery.GetBit | loader/src/com/maccasoft/propeller/DeviceDiscover.java:184-192 | one read, reduced as `BitOf` says |
| Discovery.AwaitBit | loader/src/com/maccasoft/propeller/DeviceDiscover.java:155-164 | the retry reads until one does not fault, at most 101 reads; the result is a bit or -1 |
| Discovery.AwaitBitFrom | loader/src/com/maccasoft/propeller/DeviceDiscover.java:155-164 | the retry loop consumes and returns what `AwaitBit` says |
| Discovery.DrainBound | loader/src/com/maccasoft/propeller/DeviceDiscover.java:147-151 | draining after a mismatch consumes at most 300 reads, from the front |
| Discovery.DrainPort | loader/src/com/maccasoft/propeller/DeviceDiscover.java:147-151 | the drain loop leaves exactly the reads `Drain` leaves |
| Discovery.DeviceDiscover.EchoLoop | loader/src/com/maccasoft/propeller/DeviceDiscover.java:143-165 | the comparison of rounds 1 to 249 matches or rejects exactly as `EchoFrom` says, consuming the same reads |
| Discovery.EchoStep | loader/src/com/maccasoft/propeller/DeviceDiscover.java:143-165 | a matching round that receives byte b goes on to the next round with b's low bit and the stepped register |
| Discovery.EchoOfPattern | loader/src/com/maccasoft/propeller/DeviceDiscover.java:143-165 | a reply that continues the register's output is accepted and consumed exactly |
| Discovery.VersionFrom | loader/src/com/maccasoft/propeller/DeviceDiscover.java:167-175 | the version accumulator stays in 0 .. 255 |
| Discovery.VersionBit | loader/src/com/maccasoft/propeller/DeviceDiscover.java:169-172 | one round shifts right and sets bit 7 for a 1 bit; a faulted read adds nothing |
| Discovery.DeviceDiscover.ReadVersion | loader/src/com/maccasoft/propeller/DeviceDiscover.java:167-175 | the eight reads give exactly what `VersionFrom` says |
| Discovery.VersionSteps | loader/src/com/maccasoft/propeller/DeviceDiscover.java:167-175 | eight reads of bytes give the accumulator `AccBits` describes |
| Discovery.VersionStep | loader/src/com/maccasoft/propeller/DeviceDiscover.java:169-172 | one read of byte b turns rc into rc/2 + 128·(b mod 2) |
| Discovery.AccBitsValue | loader/src/com/maccasoft/propeller/DeviceDiscover.java:167-175 | the shifting and adding spells the eight low bits least significant first |
| Discovery.VersionOfAnswer | loader/src/com/maccasoft/propeller/DeviceDiscover.java:167-175 | eight version bytes give the number their low bits spell, LSB first, and are consumed exactly |
| Discovery.P1Reply | loader/src/com/maccasoft/propeller/DeviceDiscover.java:107-182 | what `probeP1` returns is in 0 .. 255 |
| Discovery.DeviceDiscover.ProbeP1 | loader/src/com/maccasoft/propeller/DeviceDiscover.java:107-182 | the probe returns and consumes what `P1Reply` says, and writes: 115200 baud, reset 90, 0xF9, the challenge, 258 × 0xF9 |
| Discovery.ChipRecognised | loader/src/com/maccasoft/propeller/DeviceDiscover.java:107-182 | a Propeller 1 answer (the register's continued output, one unchecked bit, eight version bytes) makes the probe return the version LSB first and consume exactly the answer |
| Discovery.MismatchGivesZero | loader/src/com/maccasoft/propeller/DeviceDiscover.java:143-152 | a first bit that differs from the register's output ends the probe with 0 after draining |
| Discovery.P2Answer | loader/src/com/maccasoft/propeller/DeviceDiscover.java:209-214 | the character after "Prop_Ver " as a number, 0 for any other line; exactly "Prop_Ver " raises |
| Discovery.DeviceDiscover.ProbeP2 | loader/src/com/maccasoft/propeller/DeviceDiscover.java:200-215 | the probe returns what `P2Answer` makes of the second reply line, consuming two lines, with its writes logged |
| Discovery.P2Recognised | loader/src/com/maccasoft/propeller/DeviceDiscover.java:200-215 | a second reply line "Prop_Ver c…" makes the probe return c |
| Discovery.VersionText | loader/src/com/maccasoft/propeller/DeviceDiscover.java:335-347 | no text exactly for version 0 |
| Discovery.UnknownSuffix | loader/src/com/maccasoft/propeller/DeviceDiscover.java:345 | an unknown version is quoted exactly when it is a letter or digit |
| Discovery.VersionTextInjective | loader/src/com/maccasoft/propeller/DeviceDiscover.java:335-347 | different versions are never shown by the same text |
| Discovery.DeviceDiscover.Find | loader/src/com/maccasoft/propeller/DeviceDiscover.java:84-105 | an open failure propagates; otherwise the port is closed again, the P2 probe runs first and the P1 probe only after a 0, and a device (version 1 iff rc is 1, else 2, unselected, no status) is returned iff rc is not 0 |
| Discovery.P2Preferred | loader/src/com/maccasoft/propeller/DeviceDiscover.java:89-93 | a port where a Propeller 2 answers is never probed for a Propeller 1 |
| Discovery.P2ErrorSkipsP1 | loader/src/com/maccasoft/propeller/DeviceDiscover.java:89-96 | an exception in the P2 probe skips the P1 probe and reports nothing |
| Discovery.KindOf | loader/src/com/maccasoft/propeller/DeviceDiscover.java:101 | the device kind is 1 exactly for rc 1, and 2 otherwise |
| Discovery.Insert | loader/src/com/maccasoft/propeller/DeviceDiscover.java:61 | insertion keeps the list sorted and adds exactly one element |
| Discovery.SortDevices | loader/src/com/maccasoft/propeller/DeviceDiscover.java:61 | the sorted list is a permutation of the input, in `compareTo` order |
| Discovery.Discovered | loader/src/com/maccasoft/propeller/DeviceDiscover.java:53-63 | the reported list is a permutation of the local then the network devices (each only when enabled), sorted |
| Discovery.SortedPairwise | loader/src/com/maccasoft/propeller/DeviceDiscover.java:61 | for located devices a sorted list is ordered pairwise, not only between neighbours |
| Discovery.SerialDevicesFirst | loader/src/com/maccasoft/propeller/DeviceDiscover.java:61 | in a sorted list every serial device comes before every network device |
| Devices.Device.Serial | loader/src/com/maccasoft/propeller/Device.java:31-35 | a serial device: the given name, version and port, no address, unselected, no status |
| Devices.Device.Network | loader/src/com/maccasoft/propeller/Device.java:37-43 | a network device: the given name, version, address, MAC and reset pin, no serial port, unselected, no status |
| Devices.Device.HashCode | loader/src/com/maccasoft/propeller/Device.java:97-99 | `Objects.hash(inetAddr, macAddr, serialPort)` as a 32-bit value |
| Devices.EqualsEquivalence | loader/src/com/maccasoft/propeller/Device.java:101-114 | `equals` is reflexive, symmetric and transitive |
| Devices.EqualsHashCode | loader/src/com/maccasoft/propeller/Device.java:97-114 | equal devices have equal hash codes |
| Devices.Device.PortDescription | loader/src/com/maccasoft/propeller/Device.java:69-74 | the serial port name when there is one, otherwise the dotted address |
| Devices.HostAddressInjective | loader/src/com/maccasoft/propeller/Device.java:73 | distinct addresses have distinct dotted texts |
| Devices.PortDescriptionIdentifies | loader/src/com/maccasoft/propeller/Device.java:69-74 | two network devices with the same description are at the same address |
| Devices.Device.CompareTo | loader/src/com/maccasoft/propeller/Device.java:117-140 | the comparison method computes `Order`, the address loop included |
| Devices.OrderAntisymmetric | loader/src/com/maccasoft/propeller/Device.java:117-140 | swapping the operands negates the result |
| Devices.SerialFirst | loader/src/com/maccasoft/propeller/Device.java:118-123 | a serial device sorts before any device without a serial port |
| Devices.OrderZero | loader/src/com/maccasoft/propeller/Device.java:117-140 | two located devices compare equal exactly when they have the same serial port, or, without one, the same address |
| Devices.OrderTransitive | loader/src/com/maccasoft/propeller/Device.java:117-140 | among located devices the order is transitive |
| Devices.AddressOrderAntisymmetric | loader/src/com/maccasoft/propeller/Device.java:129-137 | the signed byte-difference comparison of addresses is antisymmetric |
| Devices.AddressOrderZero | loader/src/com/maccasoft/propeller/Device.java:129-137 | two addresses compare 0 exactly when they are equal |
| Devices.AddressOrderTransitive | loader/src/com/maccasoft/propeller/Device.java:129-137 | the address comparison is transitive |
| Text.LexCompareAntisymmetric | loader/src/com/maccasoft/propeller/Device.java:126 | `String.compareTo` negates when the operands swap |
| Text.LexCompareZero | loader/src/com/maccasoft/propeller/Device.java:126 | `String.compareTo` is 0 exactly on equal strings |
| Text.LexCompareTransitive | loader/src/com/maccasoft/propeller/Device.java:126 | `String.compareTo` is transitive |
| Devices.Device.SetSelected | loader/src/com/maccasoft/propeller/Device.java:80-82 | sets the flag and leaves the status |
| Devices.Device.SetStatus | loader/src/com/maccasoft/propeller/Device.java:88-90 | sets the status and leaves the flag |
| Devices.Device.ClearStatus | loader/src/com/maccasoft/propeller/Device.java:92-94 | resets the status to null and leaves the flag |
| Firmwares.Checksum | loader/src/com/maccasoft/propeller/Firmware.java:40-43 | the signed byte accumulator stays in -128 .. 127 |
| Firmwares.ChecksumStep | loader/src/com/maccasoft/propeller/Firmware.java:41-43 | adding a byte to the accumulator is Java's narrowing `byte` addition |
| Firmwares.ImageChecksum | loader/src/com/maccasoft/propeller/Firmware.java:40-43 | the loop computes the accumulator, which equals 0x14 exactly when the byte sum is 0x14 modulo 256 |
| Firmwares.InferredVersion | loader/src/com/maccasoft/propeller/Firmware.java:40-44 | the inferred version is 1 or 2, and 1 exactly when the byte sum is 0x14 modulo 256 |
| Firmwares.DescriptionOf | loader/src/com/maccasoft/propeller/Firmware.java:46 | the description is "P8X32A Firmware" exactly for version 1, else "P2X8C4M64P Rev B/C Firmware" |
| Firmwares.FromImage | loader/src/com/maccasoft/propeller/Firmware.java:33-49 | a new firmware carrying the bytes unchanged, with the inferred version and its description |
| Firmwares.ByteSumAppend | loader/src/com/maccasoft/propeller/Firmware.java:40-43 | the byte sum of two images laid end to end is the sum of their sums |
| Firmwares.InferredVersionSwap | loader/src/com/maccasoft/propeller/Firmware.java:40-44 | the inference depends only on the sum, not on the order of the parts |
| Firmwares.MarkAsP1 | loader/src/com/maccasoft/propeller/Firmware.java:40-44 | one appended byte can make any image read as a Propeller 1 image |
| Firmwares.Firmware.Empty | loader/src/com/maccasoft/propeller/Firmware.java:59-61 | no description, version 0, no image |
| Firmwares.Firmware.constructor | loader/src/com/maccasoft/propeller/Firmware.java:63-67 | the three fields as given |
| Firmwares.Firmware.SetDescription | loader/src/com/maccasoft/propeller/Firmware.java:73-75 | changes only the description |
| Firmwares.Firmware.SetBinaryVersion | loader/src/com/maccasoft/propeller/Firmware.java:81-83 | changes only the version |
| Firmwares.Firmware.SetBinaryImage | loader/src/com/maccasoft/propeller/Firmware.java:89-91 | changes only the image |
| FirmwarePacks.FirmwarePack.constructor | loader/src/com/maccasoft/propeller/FirmwarePack.java:33-36 | an empty list, local discovery on, network discovery off |
| FirmwarePacks.FirmwarePack.SetEnableLocal | loader/src/com/maccasoft/propeller/FirmwarePack.java:42-44 | changes only the local flag |
| FirmwarePacks.FirmwarePack.SetEnableNetwork | loader/src/com/maccasoft/propeller/FirmwarePack.java:50-52 | changes only the network flag |
| FirmwarePacks.FirmwarePack.AddFirmware | loader/src/com/maccasoft/propeller/FirmwarePack.java:58-60 | appends at the end, the rest unchanged |
| FirmwarePacks.FirmwarePack.RemoveFirmware | loader/src/com/maccasoft/propeller/FirmwarePack.java:62-64 | removes the first occurrence of that very object, or nothing when it is absent |
| FirmwarePacks.RemoveAbsent | loader/src/com/maccasoft/propeller/FirmwarePack.java:62-64 | removing an absent firmware changes nothing |
| FirmwarePacks.RemoveAt | loader/src/com/maccasoft/propeller/FirmwarePack.java:62-64 | removing the first occurrence at index i closes the gap |
| FirmwarePacks.RemoveCount | loader/src/com/maccasoft/propeller/FirmwarePack.java:62-64 | removal takes away exactly one copy when there is one |
| FirmwarePacks.RemoveAfterAdd | loader/src/com/maccasoft/propeller/FirmwarePack.java:58-64 | removing a firmware just added (and not there before) restores the list |
| DeviceDescriptors.Deserialize | loader/src/com/maccasoft/propeller/port/DeviceDescriptor.java:51-60 | "1", "active", "true", "enabled" give true; "0", "inactive", "false", "disabled" give false; anything else gives null, both directions |
| DeviceDescriptors.WordsDisjoint | loader/src/com/maccasoft/propeller/port/DeviceDescriptor.java:53-58 | no text is in both word lists |
| DeviceDescriptors.CapitalsMeanNothing | loader/src/com/maccasoft/propeller/port/DeviceDescriptor.java:53-59 | any text with a capital letter (such as "TRUE") gives null |
| Parameters.LoaderParameters.constructor | loader/src/com/maccasoft/propeller/LoaderParameters.java:47-52 | update all, local discovery only, no devices, no firmware list, no firmware, no file, no events |
| Parameters.LoaderParameters.SetFile | loader/src/com/maccasoft/propeller/LoaderParameters.java:88-90 | sets the file, fires unless both sides are equal and non-null, nothing else changes |
| Parameters.LoaderParameters.SetUpdateAll | loader/src/com/maccasoft/propeller/LoaderParameters.java:96-98 | sets the flag, fires only on a change |
| Parameters.LoaderParameters.SetEnableLocal | loader/src/com/maccasoft/propeller/LoaderParameters.java:135-137 | sets the flag, fires only on a change |
| Parameters.LoaderParameters.SetEnableNetwork | loader/src/com/maccasoft/propeller/LoaderParameters.java:143-145 | sets the flag, fires only on a change |
| Parameters.LoaderParameters.SetFirmware | loader/src/com/maccasoft/propeller/LoaderParameters.java:161-163 | sets the firmware, fires unless the same object |
| Parameters.LoaderParameters.SetFirmwareList | loader/src/com/maccasoft/propeller/LoaderParameters.java:151-155 | the list becomes a copy of the argument and the event always fires |
| Parameters.LoaderParameters.UpdateFromFirmware | loader/src/com/maccasoft/propeller/LoaderParameters.java:54-57 | the list is emptied and the firmware becomes the argument |
| Parameters.LoaderParameters.UpdateFromPack | loader/src/com/maccasoft/propeller/LoaderParameters.java:59-66 | the pack's list and flags are copied; the firmware becomes the first of the list, or stays as it was for an empty pack |
| Parameters.LoaderParameters.SetDeviceSelection | loader/src/com/maccasoft/propeller/LoaderParameters.java:124-129 | sets the device's flag, with an event only when it changes; its status and the parameters stay |
| Parameters.LoaderParameters.SetDevices | loader/src/com/maccasoft/propeller/LoaderParameters.java:104-122 | the list becomes `Reconcile(old list, reported)` and the event fires |
| Parameters.LoaderParameters.AppendNew | loader/src/com/maccasoft/propeller/LoaderParameters.java:105-111 | the first loop appends each reported device that nothing held equals |
| Parameters.LoaderParameters.RemoveUnlisted | loader/src/com/maccasoft/propeller/LoaderParameters.java:113-119 | the second loop removes in place each held device that no reported device equals |
| Parameters.Contains | loader/src/com/maccasoft/propeller/LoaderParameters.java:108 | `List.contains` by `equals` |
| Parameters.AddNewExtends | loader/src/com/maccasoft/propeller/LoaderParameters.java:105-111 | the first loop only appends, and only reported devices equal to nothing before them |
| Parameters.AddNewCovers | loader/src/com/maccasoft/propeller/LoaderParameters.java:105-111 | after the first loop every reported device has an equal in the list |
| Parameters.NewOnesDistinct | loader/src/com/maccasoft/propeller/LoaderParameters.java:105-111 | equal reported devices are added once |
| Parameters.KeepListedAppend | loader/src/com/maccasoft/propeller/LoaderParameters.java:113-119 | the second loop is a filter |
| Parameters.KeepListedMembers | loader/src/com/maccasoft/propeller/LoaderParameters.java:113-119 | it keeps exactly the held devices some reported device equals |
| Parameters.KeepIncoming | loader/src/com/maccasoft/propeller/LoaderParameters.java:113-119 | devices that came from the reported list all survive the second loop |
| Parameters.ReconcileShape | loader/src/com/maccasoft/propeller/LoaderParameters.java:104-119 | the result is the surviving old devices in their old order, as the same objects, then the new ones |
| Parameters.ReconcileSound | loader/src/com/maccasoft/propeller/LoaderParameters.java:104-119 | every device held afterwards equals a reported device |
| Parameters.ReconcileComplete | loader/src/com/maccasoft/propeller/LoaderParameters.java:104-119 | every reported device equals a device held afterwards |
| Parameters.ReconcileKeeps | loader/src/com/maccasoft/propeller/LoaderParameters.java:104-119 | a held device that is reported again stays as the same object, with its selection and status |
| Parameters.SelectedInMembers | loader/src/com/maccasoft/propeller/LoaderParameters.java:179-185 | exactly the selected devices of the list |
| Parameters.LoaderParameters.SelectedDevices | loader/src/com/maccasoft/propeller/LoaderParameters.java:172-189 | all devices when updating all, else exactly the selected ones |
| Parameters.LoaderParameters.CanDoUpdate | loader/src/com/maccasoft/propeller/LoaderParameters.java:165-170 | true iff a firmware of nonzero version is chosen and all are updated or some device is selected |
| Parameters.LoaderParameters.GetSelectedDevices | loader/src/com/maccasoft/propeller/LoaderParameters.java:172-189 | the loop builds `SelectedDevices()`, order kept |
| Loader.RelativeFilePath | loader/src/com/maccasoft/propeller/Loader.java:317-335 | "" for no file; a path not under the application directory unchanged; otherwise the directory is stripped, then one leading '/' or '\' exactly when there is one |
| Loader.ToLowerIdempotent | loader/src/com/maccasoft/propeller/Loader.java:342 | lower-casing twice is lower-casing once |
| Loader.KindIgnoresCase | loader/src/com/maccasoft/propeller/Loader.java:342-354 | the extension dispatch gives the same answer for a name and its lower-cased form |
| Loader.HandleFileSelection | loader/src/com/maccasoft/propeller/Loader.java:337-358 | the file is always recorded; a ".json" name with a readable pack updates from the pack; ".binary"/".bin" with readable bytes updates from the inferred firmware; anything else or a read failure changes nothing more. The new firmware of an image carries the description of its inferred version. The events are the file's, then the list, firmware and flag events of the update made, or none more |
| Loader.TargetsShown | loader/src/com/maccasoft/propeller/Loader.java:524-531 | every device the update targets is one the device list shows |
| Loader.PortFor | loader/src/com/maccasoft/propeller/Loader.java:782-788 | a serial port exactly when the port name is present and not blank, else a network port from name, address, MAC and reset pin |
| Loader.MatchingVersionMembers | loader/src/com/maccasoft/propeller/Loader.java:720-725 | exactly the devices whose version equals the firmware's, order kept |
| Loader.KeepMatching | loader/src/com/maccasoft/propeller/Loader.java:720-725 | the iterator-removal loop leaves exactly `MatchingVersion` |
| Loader.AttemptsFor | loader/src/com/maccasoft/propeller/Loader.java:781-794 | one attempt per target, in order, with its port, the P1 loader exactly for version 1, and the flash flag |
| Loader.CandidatesFrom | loader/src/com/maccasoft/propeller/Loader.java:695-716 | every candidate is a known or a discovered device |
| Loader.SelectTargets | loader/src/com/maccasoft/propeller/Loader.java:695-725 | discovery when no device is known, else the selection, then the version filter |
| Loader.ClearStatuses | loader/src/com/maccasoft/propeller/Loader.java:736-738 | every target ends with no status and its selection kept |
| Loader.UploadAll | loader/src/com/maccasoft/propeller/Loader.java:781-810 | every target is visited in order and ends with status 0 on success, 1 on failure |
| Loader.RunUpdate | loader/src/com/maccasoft/propeller/Loader.java:733-810 | the confirmed run: statuses cleared, then each target uploaded and marked |
| Loader.StartUpdate | loader/src/com/maccasoft/propeller/Loader.java:694-810 | no upload when nothing matches or the user declines; otherwise exactly the matching devices are attempted and marked 0 or 1, and every other device keeps its status and selection |

## Left out

- Serial port library: the `SerialComPort`/`ComPort` wrappers are not
  part of this model. Their effect on the line is a scripted sequence of
  reads and a log of writes.
  - Writes never fail.
  - Wall-clock timeouts are a timeout read.
  - Baud rate, reset delays and purges are logged, not simulated.
- Network discovery (`findNetworkDevices`, UDP broadcast, `NetworkComPort`)
  and the enumeration of serial ports in `findLocalDevices`: socket and
  operating-system I/O. Their results are the `localDevices` and
  `networkDevices` parameters of `Discovered` and `StartUpdate`.
- The Propeller 1 loader, which is not part of this model. The outcome of
  each upload in `StartUpdate` is the `succeeds` parameter. The attempt
  records which port and loader were chosen.
- Jackson JSON parsing of packs and descriptors, and file reading. The
  pack or the bytes read, or the read failure, are parameters of
  `HandleFileSelection`. `File.getName` and `getAbsolutePath` are taken
  as given strings. A pack is always a list here, so a pack file with
  `"firmwareList": null`, which makes `setFirmwareList` dereference
  `null` in `updateFrom(FirmwarePack)`, is not modelled.
- The `APP_DIR` environment lookup and the current directory are the
  `appDir` parameter of `RelativeFilePath`.
- The SWT user interface:
  - dialogs (the confirmation is the `confirmed` parameter);
  - the choice of which firmware panel is shown;
  - progress reporting, listeners and threading.
  - The deferred `setDevices` after a discovery in `startUpdate` runs on
    the UI thread later. It is not part of `StartUpdate`.
- Property-change listeners: events are recorded by name in `changes`.
  The old and new values passed to listeners are not.
- Addresses are IPv4 only. `Character.isLetterOrDigit`,
  `Character.isWhitespace` and `String.toLowerCase` are modelled on ASCII
  only.
- The flash sub-loader resource is an opaque byte sequence of at least
  12 bytes. A failing resource read, whose exception `bufferUpload`
  swallows, is not modelled.
- `null` elements inside lists are not modelled. Neither is aliasing of
  the list passed to `setFirmwareList` with the parameters' own list,
  which the Java `clear` would empty first.
- Discovery.SortDevices: `Collections.sort` is modelled as a stable
  insertion sort. Its order is proved for located devices, those with a
  serial port or an address. Stability and the exact merge-sort sequence
  of the JDK are not.
- Loader.StartUpdate: requires a chosen firmware, which the enabled
  update button guarantees through `canDoUpdate`. The Java code would
  fail on the missing firmware without one.
- Devices.Device.HashCode: the hashes of `String` and `Inet4Address` are
  modelled. The MAC address uses `String.hashCode`.
