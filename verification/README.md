# Controller telemetry ingestion, modelled in Dafny

This project models how the IoT gateway firmware takes in telemetry from the
plant controller. It covers two variants of the firmware.

- **Legacy link** (stm32h745i board): the controller sends `D`-framed unit
  and skid status messages with a CRC-8. The gateway reads them with a
  four-stage polling state machine and decodes the big-endian fields,
  including Q16 fixed-point values. Each record goes into a 30-slot circular
  window. The gateway then aggregates the window into the per-sensor
  statistics (average, maximum, minimum, median) of the unit and skid
  snapshots that go to the cloud.
- **Command-framed link** (b-l475e board): the controller sends packets made
  of a header, command, version, length, payload and a CRC-16. The gateway
  reads them with a positional state machine. Accepted telemetry payloads are
  decoded into CCU and CMU windows.

Both variants share the error-code stringification and the fixed lock and
unlock commands sent back to the controller.

Modules, one concept each:

- `Bytes`: big-endian field readers and writers, signed reinterpretation,
  Q16 fixed point, bit flags, and byte-range placement (`Put`, `PutAll`).
- `SystemData`: the constants and enumerations of `system_data.h`.
- `ErrorCodes`: `stringifyErrorCode`.
- `Crc8`, `Crc16`: the two checksums, with the bit loops as methods.
- `SampleWindow`: the 30-slot circular buffer and its cursor.
- `LegacyCodec`, `LegacyFramer`: unit and skid decoding, and
  `read_incoming_system_data`.
- `Statistics`: the sensor bounds, `sensor_average_max_min` and the median.
- `Snapshot`: `get_sensor_value`, `get_unit_status` and `get_skid_status`.
- `Telemetry`, `CommandFramer`: CCU and CMU decoding, and
  `prvReadControllerData`.

Neither serial driver is part of the model. The byte source is a parameter:
each step of either state machine receives `None` for a failed poll or
`Some(bytes)` for the bytes delivered. Compile-time constants whose headers
are not part of this model are gathered in a `Layout` parameter with their
consistency conditions as predicates: the `T_M_*` offsets, the `IOT_*`
positions, the field widths, the telemetry tags, `MAX_PACKET_LENGTH` and
`CRC16_POLYNOMIAL`.

## Model

| member | source | states |
|---|---|---|
| Bytes.AsSigned | src/projects/ST/b-l475e-iot01a/controller_communication/controller_data.c:214-219 | reinterpreting a 32-bit pattern as `int32_t` yields a negative value exactly when the top bit is set, and the value agrees with the pattern modulo 2^32 |
| Bytes.AsUnsigned | src/projects/ST/b-l475e-iot01a/controller_communication/controller_data.c:214-219 | every signed value has an unsigned pattern that reinterprets back to it |
| Bytes.EncodeU16 | src/projects/ST/b-l475e-iot01a/controller_communication/controller_data.c:195-196 | the two-byte big-endian encoding of a value is read back by the field reader as that value |
| Bytes.EncodeU32 | src/projects/ST/b-l475e-iot01a/controller_communication/controller_data.c:207-212 | the four-byte big-endian encoding is read back as the same unsigned value |
| Bytes.EncodeS32 | src/projects/ST/b-l475e-iot01a/controller_communication/controller_data.c:214-219 | the four-byte encoding of a signed value is read back as the same signed value |
| Bytes.BeU16Bytes | src/projects/ST/b-l475e-iot01a/controller_communication/controller_data.c:195-196 | re-encoding a decoded two-byte field gives back exactly the bytes it was read from |
| Bytes.BeU32Bytes | src/projects/ST/b-l475e-iot01a/controller_communication/controller_data.c:207-212 | re-encoding a decoded four-byte field gives back its bytes |
| Bytes.BeS32Bytes | src/projects/ST/b-l475e-iot01a/controller_communication/controller_data.c:214-219 | re-encoding a decoded signed field gives back its bytes |
| Bytes.TopBit | src/projects/ST/stm32h745i-disco/cm7/controller_communication/controller_data.c:213-218 | a big-endian 32-bit field has its top bit set exactly when its first byte is at least 0x80 |
| Bytes.Q16Exact | src/projects/ST/stm32h745i-disco/cm7/controller_communication/controller_data.c:201-209 | dividing a raw value by 2^16 is exact: times 65536 it gives back the raw value, and its sign is the raw value's sign |
| Bytes.Q16Injective | src/projects/ST/stm32h745i-disco/cm7/controller_communication/controller_data.c:201-209 | two distinct raw fixed-point values never give the same reading |
| Bytes.Bits | src/projects/ST/stm32h745i-disco/cm7/controller_communication/controller_data.c:577-579 | the `n` flag bits of a status word are exactly its low `n` bits, in order |
| Bytes.BitsOfPack | src/projects/ST/stm32h745i-disco/cm7/controller_communication/controller_data.c:561-565 | unpacking a word packed from flags gives the same flags back |
| Bytes.HasBitOfPack | src/projects/ST/stm32h745i-disco/cm7/controller_communication/controller_data.c:561-565 | a packed word has bit `k` set exactly when flag `k` exists and is true |
| Bytes.PackBits | src/projects/ST/stm32h745i-disco/cm7/controller_communication/controller_data.c:561-565 | a word packed from `n` flags is below 2^n |
| SystemData.WireLengthsConsistent | demos/projects/ST/b-l475e-iot01a/system_data.h:21-27 | the unit and skid message lengths (62, 41, 6) equal header plus record plus checksum, the heater field is nine four-byte values, and nine heaters is three cartridges of three zones |
| SystemData.TwoValuedTables | demos/projects/ST/b-l475e-iot01a/system_data.h:104-132 | every two-valued status indexes every two-entry display table inside its bounds, and gets the matching label |
| SystemData.SequenceStateOf | demos/projects/ST/b-l475e-iot01a/system_data.h:135-146 | a code decodes to a state only when that state's code is the given code |
| SystemData.SequenceStateTable | demos/projects/ST/b-l475e-iot01a/system_data.h:135-159 | the ten sequence states have codes 0 to 9, exactly those codes decode, lock and safe are 6 and 8, and the display table names each state by its identifier |
| ErrorCodes.DigitsRoundTrip | src/projects/ST/b-l475e-iot01a/controller_communication/controller_data.c:672-674 | the decimal digits printed for a non-negative number parse back to that number |
| ErrorCodes.DecimalRoundTrip | src/projects/ST/b-l475e-iot01a/controller_communication/controller_data.c:672-674 | `%d` formatting of any integer, with its sign, parses back to the integer |
| ErrorCodes.StringifyErrorCode | src/projects/ST/b-l475e-iot01a/controller_communication/controller_data.c:638-676 | a non-warning enumerator renders as its own identifier; any code without a case renders as `UNKNOWN_CODE: ` followed by a decimal that parses back to the code |
| ErrorCodes.StringifyEnumerator | demos/projects/ST/b-l475e-iot01a/system_data.h:259-316 | every named error code is rendered as its identifier; the three warnings have no case and are rendered as `UNKNOWN_CODE: ` and their number |
| ErrorCodes.StringifyUnknown | src/projects/ST/b-l475e-iot01a/controller_communication/controller_data.c:638-676 | an unnamed code is rendered as the 14-character prefix followed by a decimal that parses back to the code |
| ErrorCodes.NamedInitial | src/projects/ST/stm32h745i-disco/cm7/controller_communication/controller_data.c:602-640 | no named code renders as text starting with `U`, so named and unknown renderings never collide |
| ErrorCodes.StringifyInjective | src/projects/ST/stm32h745i-disco/cm7/controller_communication/controller_data.c:602-640 | distinct codes always render as distinct strings |
| Crc8.CalcCrc | src/projects/ST/stm32h745i-disco/cm7/controller_communication/controller_data.c:67-91 | the byte and bit loops compute the CRC-8 with initial register 0xFF and generator 0x42 |
| Crc8.CrcFromAppend | src/projects/ST/stm32h745i-disco/cm7/controller_communication/controller_data.c:67-91 | checksumming a concatenation is checksumming the second part from the register the first part leaves |
| Crc8.CommandChecksums | src/projects/ST/stm32h745i-disco/cm7/controller_communication/controller_data.c:643-652 | the lock and unlock commands are six bytes, share the `C 0 L 0` header, differ in the fifth byte, and end in the CRC-8 of their first five bytes, 0x88 and 0x34 |
| Crc8.LockChecksum | src/projects/ST/b-l475e-iot01a/controller_communication/controller_data.c:679-682 | the fixed lock command's last byte is the checksum of the rest |
| Crc8.UnlockChecksum | src/projects/ST/b-l475e-iot01a/controller_communication/controller_data.c:685-688 | the fixed unlock command's last byte is the checksum of the rest |
| Crc8.DifferencePersists | src/projects/ST/stm32h745i-disco/cm7/controller_communication/controller_data.c:67-91 | once two registers differ in a bit the generator cannot cancel, they stay different whatever bytes follow |
| Crc8.FlipChangesCrc | src/projects/ST/stm32h745i-disco/cm7/controller_communication/controller_data.c:67-91 | flipping any one bit of the covered bytes changes the CRC-8, although the generator has no constant term |
| Crc8.SingleBitErrorDetected | src/projects/ST/stm32h745i-disco/cm7/controller_communication/controller_data.c:129-157 | a message whose last byte is the checksum of the rest stops being valid when any one bit, in the body or in the checksum, is flipped |
| Crc8.ChecksumFlipDetected | src/projects/ST/stm32h745i-disco/cm7/controller_communication/controller_data.c:134-137 | corrupting the checksum byte of a valid message makes it fail the check |
| Crc8.PayloadFlipDetected | src/projects/ST/stm32h745i-disco/cm7/controller_communication/controller_data.c:134-137 | corrupting any covered byte of a valid message makes it fail the check |
| Crc16.CalculateCrc16 | src/projects/ST/b-l475e-iot01a/controller_communication/controller_data.c:84-104 | the byte loop computes the MSB-first CRC-16 with initial register 0xFFFF and no final XOR |
| Crc16.ShiftEight | src/projects/ST/b-l475e-iot01a/controller_communication/controller_data.c:90-100 | the bit loop performs exactly eight generator shifts of the register |
| Crc16.CrcFromAppend | src/projects/ST/b-l475e-iot01a/controller_communication/controller_data.c:84-104 | the CRC-16 of a concatenation continues from the register the first part leaves |
| Crc16.OwnValueClears | src/projects/ST/b-l475e-iot01a/controller_communication/controller_data.c:84-104 | feeding a register its own value, high byte first, clears it, whatever the generator |
| Crc16.Residue | src/projects/ST/b-l475e-iot01a/controller_communication/controller_data.c:84-104 | data followed by its big-endian CRC-16 checksums to zero, whatever the generator |
| SampleWindow.Init | src/projects/ST/stm32h745i-disco/cm7/controller_communication/controller_data.c:23-26 | a fresh window has every slot zeroed and the cursor at slot 0 |
| SampleWindow.Advance | src/projects/ST/stm32h745i-disco/cm7/controller_communication/controller_data.c:240-245 | the cursor moves to the next slot and wraps from 29 back to 0 |
| SampleWindow.LatestIndex | src/projects/ST/stm32h745i-disco/cm7/controller_communication/controller_data.c:331-350 | the latest sample is the slot the cursor advanced from, with slot 29 when the cursor is at 0 |
| SampleWindow.LatestIndexUnique | src/projects/ST/stm32h745i-disco/cm7/controller_communication/controller_data.c:331-350 | a slot advances to the cursor if and only if it is the latest index |
| SampleWindow.Write | src/projects/ST/stm32h745i-disco/cm7/controller_communication/controller_data.c:185-248 | a record goes into the cursor's slot, no other slot changes, the cursor advances, and the latest index then names the new record |
| SampleWindow.WriteAllCursor | src/projects/ST/stm32h745i-disco/cm7/controller_communication/controller_data.c:240-245 | after `n` writes the cursor has moved `n` slots modulo 30 |
| SampleWindow.WriteAllRecent | src/projects/ST/stm32h745i-disco/cm7/controller_communication/controller_data.c:240-245 | any write among the last 30 is still in the slot it was written to |
| SampleWindow.WindowHoldsOnlyRecentWrites | src/projects/ST/stm32h745i-disco/cm7/controller_communication/controller_data.c:23-26 | after at least 30 writes every slot holds one of the last 30 records |
| SampleWindow.LatestIsLastWrite | src/projects/ST/stm32h745i-disco/cm7/controller_communication/controller_data.c:331-350 | after any non-empty run of writes the latest index names the last record written |
| SampleWindow.ThirtyOneWrites | src/projects/ST/stm32h745i-disco/cm7/controller_communication/controller_data.c:240-245 | the 31st write wraps around: it overwrites slot 0 and leaves the cursor at 1 |
| LegacyCodec.HeaterRawsAt | src/projects/ST/stm32h745i-disco/cm7/controller_communication/controller_data.c:201-209 | heater `i` is read from the four bytes at offset `4 * i` of the heater field |
| LegacyCodec.HeaterValues | src/projects/ST/stm32h745i-disco/cm7/controller_communication/controller_data.c:201-209 | each heater temperature is its raw value divided by 2^16 |
| LegacyCodec.ToUnitStatusInjective | src/projects/ST/stm32h745i-disco/cm7/controller_communication/controller_data.c:185-248 | conversion of the unit wire fields loses nothing: distinct wire records give distinct stored records |
| LegacyCodec.ToSkidStatusInjective | src/projects/ST/stm32h745i-disco/cm7/controller_communication/controller_data.c:251-328 | conversion of the skid wire fields loses nothing |
| LegacyCodec.ReadUnitStatus | src/projects/ST/stm32h745i-disco/cm7/controller_communication/controller_data.c:185-248 | heater temperatures and ambient humidity are unsigned, vacuum and ambient temperature are negative exactly when their first byte has the top bit set, and status, state and valve bytes are copied |
| LegacyCodec.ReadSkidStatus | src/projects/ST/stm32h745i-disco/cm7/controller_communication/controller_data.c:251-328 | O2, tank pressure and humidity are unsigned, mass flow, CO2, valve pressure and temperature take their sign from the top bit, and status and state bytes are copied |
| LegacyCodec.UnitRoundTrip | src/projects/ST/stm32h745i-disco/cm7/controller_communication/controller_data.c:185-248 | a unit record encoded after any four-byte header decodes back to itself, whatever follows it |
| LegacyCodec.SkidRoundTrip | src/projects/ST/stm32h745i-disco/cm7/controller_communication/controller_data.c:251-328 | a skid record encoded after any header decodes back to itself |
| LegacyCodec.HeatersRoundTrip | src/projects/ST/stm32h745i-disco/cm7/controller_communication/controller_data.c:201-209 | nine encoded heater values decode back to themselves |
| LegacyCodec.UnitBytesRoundTrip | src/projects/ST/stm32h745i-disco/cm7/controller_communication/controller_data.c:185-248 | re-encoding the decoded unit fields gives back exactly the record bytes of the buffer |
| LegacyCodec.SkidBytesRoundTrip | src/projects/ST/stm32h745i-disco/cm7/controller_communication/controller_data.c:251-328 | re-encoding the decoded skid fields gives back exactly the record bytes of the buffer |
| LegacyCodec.UnitMessage | src/projects/ST/stm32h745i-disco/cm7/controller_communication/controller_data.c:103-143 | a unit message has the unit length, starts with `D`, carries tag `U`, and passes the CRC-8 check |
| LegacyCodec.SkidMessage | src/projects/ST/stm32h745i-disco/cm7/controller_communication/controller_data.c:103-155 | a skid message has the skid length, starts with `D`, carries tag `S`, and passes the CRC-8 check |
| LegacyCodec.UnitMessageDecodes | src/projects/ST/stm32h745i-disco/cm7/controller_communication/controller_data.c:185-248 | the record inside a built unit message decodes back to the record it was built from |
| LegacyCodec.SkidMessageDecodes | src/projects/ST/stm32h745i-disco/cm7/controller_communication/controller_data.c:251-328 | the record inside a built skid message decodes back to the record it was built from |
| LegacyFramer.Initial | src/projects/ST/stm32h745i-disco/cm7/controller_communication/controller_data.c:97-102 | the reader starts by waiting for the sync byte |
| LegacyFramer.Step | src/projects/ST/stm32h745i-disco/cm7/controller_communication/controller_data.c:97-163 | each poll keeps the reader well formed; a failed poll changes nothing; only the body stage touches the windows, and never both |
| LegacyFramer.SyncStep | src/projects/ST/stm32h745i-disco/cm7/controller_communication/controller_data.c:103-113 | a `D` moves on to the prefix stage and any other byte keeps waiting for sync |
| LegacyFramer.PrefixStep | src/projects/ST/stm32h745i-disco/cm7/controller_communication/controller_data.c:114-128 | the three prefix bytes are stored; tag `U` or `S` moves on to the body, and any other tag goes to reset |
| LegacyFramer.UnitBodyStep | src/projects/ST/stm32h745i-disco/cm7/controller_communication/controller_data.c:132-143 | the unit body completes the message; the unit window gains the decoded record exactly when the checksum matches, and the skid window is untouched |
| LegacyFramer.SkidBodyStep | src/projects/ST/stm32h745i-disco/cm7/controller_communication/controller_data.c:144-155 | the skid body completes the message; the skid window gains the decoded record exactly when the checksum matches, and the unit window is untouched |
| LegacyFramer.ResetStep | src/projects/ST/stm32h745i-disco/cm7/controller_communication/controller_data.c:158-161 | reset zeroes the whole buffer, returns to waiting for sync, and keeps both windows |
| LegacyFramer.InitialConsistent | src/projects/ST/stm32h745i-disco/cm7/controller_communication/controller_data.c:97-163 | the initial reader satisfies the stage invariant, which ties the body stage to a stored `U` or `S` tag |
| LegacyFramer.StepConsistent | src/projects/ST/stm32h745i-disco/cm7/controller_communication/controller_data.c:97-163 | every poll preserves the stage invariant, so the body stage always knows its message length |
| LegacyFramer.PrefixDelivered | src/projects/ST/stm32h745i-disco/cm7/controller_communication/controller_data.c:103-128 | sync and prefix delivered in two polls reach the body stage with the header stored and no record written |
| LegacyFramer.FramedUnitStored | src/projects/ST/stm32h745i-disco/cm7/controller_communication/controller_data.c:97-163 | a valid unit message delivered in three polls, plus the reset poll, stores exactly its decoded record and leaves a zeroed reader waiting for sync |
| LegacyFramer.FramedSkidStored | src/projects/ST/stm32h745i-disco/cm7/controller_communication/controller_data.c:97-163 | a valid skid message delivered in three polls, plus the reset poll, stores exactly its decoded record |
| LegacyFramer.UnitMessageStored | src/projects/ST/stm32h745i-disco/cm7/controller_communication/controller_data.c:97-163 | sending any unit record as a message makes it the latest unit sample, with the skid window unchanged |
| LegacyFramer.SkidMessageStored | src/projects/ST/stm32h745i-disco/cm7/controller_communication/controller_data.c:97-163 | sending any skid record as a message makes it the latest skid sample, with the unit window unchanged |
| LegacyFramer.CorruptedUnitBodyDropped | src/projects/ST/stm32h745i-disco/cm7/controller_communication/controller_data.c:132-143 | a unit body with any one bit flipped is rejected and the unit window is unchanged |
| LegacyFramer.CorruptedSkidBodyDropped | src/projects/ST/stm32h745i-disco/cm7/controller_communication/controller_data.c:144-155 | a skid body with any one bit flipped is rejected and the skid window is unchanged |
| Statistics.Rejects | src/projects/ST/stm32h745i-disco/cm7/controller_communication/controller_data.c:427-437 | the per-sensor rejection test rejects exactly the values outside that sensor's inclusive range |
| Statistics.Accepts | src/projects/ST/stm32h745i-disco/cm7/controller_communication/controller_data.c:425-450 | a sample counts exactly when it lies inside its sensor's inclusive range |
| Statistics.OnlyMassFlowUnbounded | src/projects/ST/stm32h745i-disco/cm7/controller_communication/controller_data.c:427-437 | mass flow is the only sensor with no lower bound, so every value up to 60 counts |
| Statistics.Filter | src/projects/ST/stm32h745i-disco/cm7/controller_communication/controller_data.c:425-450 | the valid samples are never more than the samples |
| Statistics.FilterAccepted | src/projects/ST/stm32h745i-disco/cm7/controller_communication/controller_data.c:425-450 | every sample kept is one of the window's samples and within its sensor's range |
| Statistics.FilterKeeps | src/projects/ST/stm32h745i-disco/cm7/controller_communication/controller_data.c:425-450 | conversely, every sample of the window within its sensor's range is kept |
| Statistics.ScanCollects | src/projects/ST/stm32h745i-disco/cm7/controller_communication/controller_data.c:462-488 | after any prefix of the window the running count and total are those of the valid samples in that prefix |
| Statistics.ScanBrackets | src/projects/ST/stm32h745i-disco/cm7/controller_communication/controller_data.c:462-488 | the running maximum and minimum bracket every valid sample; they are themselves valid samples when the first sample is valid, and start from 0 otherwise |
| Statistics.Insert | src/projects/ST/stm32h745i-disco/cm7/controller_communication/controller_data.c:408-410 | inserting into a sorted sequence keeps it sorted and adds exactly one copy of the value |
| Statistics.Sort | src/projects/ST/stm32h745i-disco/cm7/controller_communication/controller_data.c:408-410 | the sort returns a sorted permutation of its input |
| Statistics.SortedHeadIsLeast | src/projects/ST/stm32h745i-disco/cm7/controller_communication/controller_data.c:408-410 | the first element of a sorted sequence is no larger than any element |
| Statistics.SortedUnique | src/projects/ST/stm32h745i-disco/cm7/controller_communication/controller_data.c:408-410 | two sorted sequences with the same elements are equal, so the sorted order is determined by the samples alone |
| Statistics.CompareForSort | src/projects/ST/stm32h745i-disco/cm7/controller_communication/controller_data.c:402-405 | the comparator's sign agrees with the order, but its difference is truncated to an integer, so values less than 1 apart compare equal |
| Statistics.ComparatorTiesCloseValues | src/projects/ST/stm32h745i-disco/cm7/controller_communication/controller_data.c:402-405 | 0.5 and 0.0 compare equal although they differ |
| Statistics.GetMedian | src/projects/ST/stm32h745i-disco/cm7/controller_communication/controller_data.c:408-422 | once more than half the array is sorted, the median is the mean of two of the sorted entries |
| Statistics.MedianOfSortedPrefix | src/projects/ST/stm32h745i-disco/cm7/controller_communication/controller_data.c:408-422 | for every number of valid samples, the median is the mean of entries 14 and 15 of the array whose first `count` entries are in sorted order (any sorted permutation of them) and whose other entries are unchanged |
| Statistics.MedianAtFifteen | src/projects/ST/stm32h745i-disco/cm7/controller_communication/controller_data.c:408-422 | with exactly 15 valid samples the median averages the largest valid sample with the untouched entry 15 |
| Statistics.MedianOfFullWindow | src/projects/ST/stm32h745i-disco/cm7/controller_communication/controller_data.c:408-422 | with all 30 samples sorted, the median is the mean of the 15th and 16th smallest |
| Statistics.MedianIgnoresCount | src/projects/ST/stm32h745i-disco/cm7/controller_communication/controller_data.c:408-422 | with fewer than 15 valid samples the sort leaves slots 14 and 15 untouched, and the median is the mean of whatever they held |
| Statistics.Arranged | src/projects/ST/stm32h745i-disco/cm7/controller_communication/controller_data.c:453-501 | the median array holds the valid samples at its front and 30 entries in all |
| Statistics.SensorAverageMaxMin | src/projects/ST/stm32h745i-disco/cm7/controller_communication/controller_data.c:453-501 | with some valid sample and a positive total the status is kept, the average is the mean of the valid samples and the median is taken over them; otherwise the status becomes invalid and the average 0; in the invalid case the median is sample 0 when it is valid and 0 otherwise; maximum and minimum always bracket the valid samples; when sample 0 is valid both are valid samples, otherwise each is either 0 or a valid sample, the maximum at least 0 and the minimum at most 0; with no valid sample all statistics are 0 |
| Statistics.SensorAverageMaxMinLoop | src/projects/ST/stm32h745i-disco/cm7/controller_communication/controller_data.c:453-501 | the loop over the window computes exactly the aggregate that the functional definition describes |
| Statistics.ScanWindow | src/projects/ST/stm32h745i-disco/cm7/controller_communication/controller_data.c:462-488 | the sample loop accumulates the same count, total and extremes as the scan, and packs the valid samples at the front of the median array |
| Statistics.MinSeededAtZero | src/projects/ST/stm32h745i-disco/cm7/controller_communication/controller_data.c:460-487 | when the first sample is invalid and every valid sample is positive, the minimum reported is 0 and not the least valid sample |
| Statistics.InvalidKeepsExtremes | src/projects/ST/stm32h745i-disco/cm7/controller_communication/controller_data.c:462-500 | a window whose valid samples total at most 0 is marked invalid but still reports computed extremes, and the median of the untouched first sample |
| Statistics.InvalidSticks | src/projects/ST/stm32h745i-disco/cm7/controller_communication/controller_data.c:491-500 | a sensor already marked invalid stays invalid whatever its samples |
| Snapshot.Reading | src/projects/ST/stm32h745i-disco/cm7/controller_communication/controller_data.c:353-398 | a skid sensor reads one of the skid record's analogue fields and a unit sensor one of the unit record's |
| Snapshot.SensorValue | src/projects/ST/stm32h745i-disco/cm7/controller_communication/controller_data.c:353-398 | sample `i` of a skid sensor is one of the analogue fields of skid slot `i`, and of a unit sensor one of unit slot `i` |
| Snapshot.ReadingSide | src/projects/ST/stm32h745i-disco/cm7/controller_communication/controller_data.c:353-398 | a skid sensor's reading depends only on the skid record and a unit sensor's only on the unit record |
| Snapshot.SamplesAfterSkidWrite | src/projects/ST/stm32h745i-disco/cm7/controller_communication/controller_data.c:353-398 | storing a skid record changes the samples of skid sensors in the cursor's slot only, and no unit sensor's samples |
| Snapshot.SamplesAfterUnitWrite | src/projects/ST/stm32h745i-disco/cm7/controller_communication/controller_data.c:353-398 | storing a unit record changes the samples of unit sensors in the cursor's slot only, and no skid sensor's samples |
| Snapshot.SkidSamplesAreRecent | src/projects/ST/stm32h745i-disco/cm7/controller_communication/controller_data.c:353-398 | after at least 30 skid records, every skid sample comes from one of the last 30 |
| Snapshot.SendAlert | src/projects/ST/stm32h745i-disco/cm7/controller_communication/controller_data.c:519-524 | an alert is raised exactly when the state changed since the last snapshot and is now lock or safe |
| Snapshot.FlagsOf | src/projects/ST/stm32h745i-disco/cm7/controller_communication/controller_data.c:512-514 | each flag is set exactly when its bit is |
| Snapshot.ComponentsOf | src/projects/ST/stm32h745i-disco/cm7/controller_communication/controller_data.c:526-534 | each component is on exactly when its bit is |
| Snapshot.SkidRecord | demos/projects/ST/b-l475e-iot01a/system_data.h:198-224 | the skid snapshot keeps its three flags, nine outputs and seven sensors in declaration order |
| Snapshot.GetSkidStatus | src/projects/ST/stm32h745i-disco/cm7/controller_communication/controller_data.c:504-550 | flags and outputs are the bits of the latest skid record, state and errors are copied from it, the alert follows the state, and each of the seven sensors gets its window statistics |
| Snapshot.SkidBitsRoundTrip | src/projects/ST/stm32h745i-disco/cm7/controller_communication/controller_data.c:512-534 | flags and outputs packed into the latest skid record come back unchanged in the snapshot |
| Snapshot.SkidPriorOnlyStatus | src/projects/ST/stm32h745i-disco/cm7/controller_communication/controller_data.c:537-543 | the previous skid snapshot influences the new one only through its sensor statuses |
| Snapshot.SkidInvalidSticks | src/projects/ST/stm32h745i-disco/cm7/controller_communication/controller_data.c:537-543 | a skid sensor marked invalid stays invalid in every later snapshot |
| Snapshot.SkidFirstValidIsZero | src/projects/ST/stm32h745i-disco/cm7/controller_communication/controller_data.c:537-543 | starting from the zeroed snapshot, a skid sensor with valid data reports status zero |
| Snapshot.UnitRecord | demos/projects/ST/b-l475e-iot01a/system_data.h:175-196 | the unit snapshot keeps its five flags, heater infos, three valves and three sensors in declaration order |
| Snapshot.HeaterInfos | src/projects/ST/stm32h745i-disco/cm7/controller_communication/controller_data.c:577-583 | each of the nine heaters gets its own statistics |
| Snapshot.GetUnitStatus | src/projects/ST/stm32h745i-disco/cm7/controller_communication/controller_data.c:553-599 | flags and valves are the bits of the latest unit record, state and errors are copied, the alert follows the state, each heater's status is its heater bit, and each sensor gets its window statistics |
| Snapshot.UnitBitsRoundTrip | src/projects/ST/stm32h745i-disco/cm7/controller_communication/controller_data.c:561-587 | flags, valves and heater bits packed into the latest unit record come back unchanged wherever the heater data is valid |
| Snapshot.HeaterStatusRecovers | src/projects/ST/stm32h745i-disco/cm7/controller_communication/controller_data.c:577-583 | a heater with valid data reports its bit from the latest record, even if an earlier snapshot marked it invalid |
| Snapshot.UnitPriorOnlyStatus | src/projects/ST/stm32h745i-disco/cm7/controller_communication/controller_data.c:590-592 | the previous unit snapshot influences the new one only through its sensor statuses |
| Snapshot.UnitInvalidSticks | src/projects/ST/stm32h745i-disco/cm7/controller_communication/controller_data.c:590-592 | a unit sensor marked invalid stays invalid in every later snapshot |
| Telemetry.CcuFitsInside | src/projects/ST/b-l475e-iot01a/controller_communication/controller_data.c:184-264 | the CCU offsets fit the record exactly when every field lies inside it |
| Telemetry.ToCcuInjective | src/projects/ST/b-l475e-iot01a/controller_communication/controller_data.c:184-264 | conversion of the CCU wire fields loses nothing |
| Telemetry.DecodeCcu | src/projects/ST/b-l475e-iot01a/controller_communication/controller_data.c:184-264 | O2, CO2 and both pressures are unsigned, mass flow, temperature and humidity take their sign from the field's top bit, and the state byte is copied |
| Telemetry.CcuRoundTrip | src/projects/ST/b-l475e-iot01a/controller_communication/controller_data.c:184-264 | a CCU record encoded into any buffer with separate fields decodes back to itself |
| Telemetry.CcuReencodes | src/projects/ST/b-l475e-iot01a/controller_communication/controller_data.c:184-264 | re-encoding the decoded CCU fields into the same buffer leaves it unchanged |
| Telemetry.InitialStore | src/projects/ST/b-l475e-iot01a/controller_communication/controller_data.c:110-264 | both windows start zeroed with their cursors at 0 |
| Telemetry.ReadCcuData | src/projects/ST/b-l475e-iot01a/controller_communication/controller_data.c:184-264 | the decoded record goes into the CCU cursor's slot, the cursor advances, and neither any other slot nor the CMU window changes |
| Telemetry.HeaterRaws | src/projects/ST/b-l475e-iot01a/controller_communication/controller_data.c:159-168 | heater `i` is read from the four bytes at `4 * i` past the first heater |
| Telemetry.HeaterValues | src/projects/ST/b-l475e-iot01a/controller_communication/controller_data.c:159-168 | heaters up to the announced count are their raw value over 2^16, and the rest keep their previous values |
| Telemetry.ReadCmuData | src/projects/ST/b-l475e-iot01a/controller_communication/controller_data.c:110-178 | a record whose heater count fits is written into the slot at the CCU cursor while the CMU cursor advances; the state, count and first heaters are decoded, later heaters and other slots are kept, and the CCU window is untouched; a count past the buffer or the capacity is refused |
| Telemetry.CmuRoundTrip | src/projects/ST/b-l475e-iot01a/controller_communication/controller_data.c:110-178 | a CMU record encoded into any buffer is accepted and decodes back to itself |
| Telemetry.CmuCarriedDecodes | src/projects/ST/b-l475e-iot01a/controller_communication/controller_data.c:110-178 | a buffer carrying a record's fields, whatever else it holds, decodes to that record |
| Telemetry.CmuLatestIsStale | src/projects/ST/b-l475e-iot01a/controller_communication/controller_data.c:119-175 | when the two cursors differ, the slot the CMU cursor now names as latest is not the one just written |
| Telemetry.CmuOverwritesItself | src/projects/ST/b-l475e-iot01a/controller_communication/controller_data.c:119-175 | two CMU records in a row both land in the same slot, the second over the first |
| Telemetry.AlternationKeepsCursorsTogether | src/projects/ST/b-l475e-iot01a/controller_communication/controller_data.c:110-264 | when CMU and CCU records alternate from equal cursors, the cursors stay equal and each latest slot holds the record just received |
| CommandFramer.StageOfLabel | src/projects/ST/b-l475e-iot01a/controller_communication/controller_data.c:277-362 | with distinct positions, each position label selects its own case of the switch |
| CommandFramer.Initial | src/projects/ST/b-l475e-iot01a/controller_communication/controller_data.c:272-275 | the reader starts at the header position with a zeroed buffer |
| CommandFramer.Receive | src/projects/ST/b-l475e-iot01a/controller_communication/controller_data.c:279-314 | a read succeeds exactly when the bytes fit the buffer; it stores them at the current position and advances the 8-bit position |
| CommandFramer.Dispatch | src/projects/ST/b-l475e-iot01a/controller_communication/controller_data.c:320-350 | dispatch stores data only for the telemetry command with a CCU or CMU tag, and changes nothing else |
| CommandFramer.ReceivePayload | src/projects/ST/b-l475e-iot01a/controller_communication/controller_data.c:315-358 | the payload stage always moves on to restart; a failed poll changes nothing else; data is stored only after a matching checksum on a telemetry packet with a known tag |
| CommandFramer.Step | src/projects/ST/b-l475e-iot01a/controller_communication/controller_data.c:270-364 | every poll keeps the reader well formed, and no stage but the payload stage changes the stored telemetry |
| CommandFramer.FailedPollChangesNothing | src/projects/ST/b-l475e-iot01a/controller_communication/controller_data.c:279-314 | a failed poll in a fixed-width stage leaves the reader as it was |
| CommandFramer.FixedStageAdvances | src/projects/ST/b-l475e-iot01a/controller_communication/controller_data.c:279-314 | a fixed-width field is stored at its position, the position advances by its width, and only the command and length stages record their byte |
| CommandFramer.VersionIgnored | src/projects/ST/b-l475e-iot01a/controller_communication/controller_data.c:296-306 | the version byte has no effect on the reader beyond the buffer: an unsupported version is only logged |
| CommandFramer.PayloadStageRestarts | src/projects/ST/b-l475e-iot01a/controller_communication/controller_data.c:315-358 | after the payload stage the reader is at restart, even when the poll failed |
| CommandFramer.RestartClears | src/projects/ST/b-l475e-iot01a/controller_communication/controller_data.c:354-358 | restart zeroes the whole buffer and returns to the header, keeping the stored telemetry |
| CommandFramer.OnlyTelemetryIsStored | src/projects/ST/b-l475e-iot01a/controller_communication/controller_data.c:315-352 | stored telemetry changes only in the payload stage, for the telemetry command, with a matching checksum and a CCU or CMU tag |
| CommandFramer.InitialClean | src/projects/ST/b-l475e-iot01a/controller_communication/controller_data.c:272-275 | the initial reader has nothing past its position |
| CommandFramer.StepKeepsClean | src/projects/ST/b-l475e-iot01a/controller_communication/controller_data.c:270-364 | every poll keeps the buffer zero from the position on, because restart clears it and each stage writes only its own field |
| CommandFramer.FieldReceived | src/projects/ST/b-l475e-iot01a/controller_communication/controller_data.c:279-314 | with contiguous positions each field lands exactly after the previous one |
| CommandFramer.CleanCrcCheck | src/projects/ST/b-l475e-iot01a/controller_communication/controller_data.c:315-320 | the two bytes compared as the checksum are never polled and are always zero, so a packet is accepted exactly when the CRC-16 of its metadata and payload is zero |
| CommandFramer.TrailingCrcAccepted | src/projects/ST/b-l475e-iot01a/controller_communication/controller_data.c:318-320 | a payload that ends in the big-endian CRC-16 of the metadata and the rest of the payload passes that check |
| CommandFramer.CheckedPayloadDispatched | src/projects/ST/b-l475e-iot01a/controller_communication/controller_data.c:315-352 | a payload that checksums to zero is stored in the buffer and dispatched |
| CommandFramer.Run | src/projects/ST/b-l475e-iot01a/controller_communication/controller_data.c:270-364 | any sequence of polls keeps the reader well formed |
| CommandFramer.RunAppend | src/projects/ST/b-l475e-iot01a/controller_communication/controller_data.c:270-364 | running one more poll continues from where the earlier polls left off |
| CommandFramer.MetadataField | src/projects/ST/b-l475e-iot01a/controller_communication/controller_data.c:279-314 | each metadata field delivered in turn is stored in place, keeps the buffer clean, and records the command or length when it is one |
| CommandFramer.MetadataReceived | src/projects/ST/b-l475e-iot01a/controller_communication/controller_data.c:279-314 | four polls deliver the metadata intact: the reader reaches the payload position with the command and length recorded and nothing stored |
| CommandFramer.TelemetryPayload | src/projects/ST/b-l475e-iot01a/controller_communication/controller_data.c:315-332 | a telemetry payload is the tag, the record and two checksum bytes |
| CommandFramer.PacketDispatched | src/projects/ST/b-l475e-iot01a/controller_communication/controller_data.c:270-364 | a whole packet with a trailing checksum, delivered in five polls, is dispatched with the tag and record in place |
| CommandFramer.CcuPacketStored | src/projects/ST/b-l475e-iot01a/controller_communication/controller_data.c:270-364 | a CCU telemetry packet delivered in five polls adds exactly its record to the CCU window |
| CommandFramer.CcuRecordDecoded | src/projects/ST/b-l475e-iot01a/controller_communication/controller_data.c:184-264 | a CCU record decodes the same way whatever bytes follow it in the buffer |
| CommandFramer.CmuPacketStored | src/projects/ST/b-l475e-iot01a/controller_communication/controller_data.c:270-364 | a CMU telemetry packet delivered in five polls writes its record into the slot at the CCU cursor and advances only the CMU cursor |
| CommandFramer.CmuRecordDecoded | src/projects/ST/b-l475e-iot01a/controller_communication/controller_data.c:110-178 | a CMU record decodes the same way whatever bytes follow it in the buffer |

## Left out

- Mutexes, FreeRTOS task creation, `taskYIELD` and the endless polling
  loops: the model is sequential. `prvReadCmuData` takes the CCU mutex and gives back the CMU
  one. That mismatch is a concurrency defect, and it is not modelled.
- The UART and GUI drivers (`gui_comm_check_for_received_data`, the
  `uart_api` reads, `gui_comm_send_data`): each poll's result is a parameter,
  and the lock and unlock commands are modelled as their fixed bytes.
- Logging (`LogDebug`, including the unsupported-version message) and the
  JSON/MQTT publication of the snapshots: these are I/O.
- `system_data_init` and `prvControllerCommunicationTask`: the model's
  initial states are `Init`, `Initial` and `InitialStore`.
- The `#if 0` blocks of the b-l475e `controller_data.c` (lines 368 and
  714), of `system_data.h` (lines 29 and 226) and of both `errors.h` files:
  they are not compiled. The stm32h745i `controller_data.c` has none.
- Snapshot.HeaterBitsKept, Snapshot.UnitBitsRoundTrip and
  Snapshot.HeaterStatusRecovers assume that `SENSOR_DATA_INVALID` differs
  from `ZERO` and `ONE`. No source file gives it a value; it is only
  assigned (stm32h745i `controller_data.c` line 499, b-l475e
  `controller_data.c` line 533). The model makes it a status of its own
  (`SensorDataInvalid`). If the missing header made it equal to `ZERO` or
  `ONE`, these three lemmas would not hold.
- Statistics.Sort: `double` arithmetic is modelled as exact reals. The qsort
  is modelled with the true order instead of the truncating comparator.
  `CompareForSort` and `ComparatorTiesCloseValues` show how the truncating
  comparator orders values, but it is not used for the median.
- Statistics.GetMedian: `NUMBER_OF_SAMPLES` is even, so the odd branch,
  which reads `skid_status[15].o2_sensor`, cannot run and is not modelled.
- Statistics.SensorAverageMaxMin: the median array's slots beyond the valid
  samples are uninitialised stack memory in the source. The model takes them
  as the parameter `stale`, or `scratch` in `Snapshot`, so the median is
  stated in terms of that parameter.
- Telemetry.ReadCmuData: a heater count that reaches past the received
  buffer or the heater array is undefined behaviour in C. The model refuses
  it with `None` and states nothing about what the firmware would do.
- Telemetry: the `T_M_*` offsets, heater capacity, tags, `IOT_*` positions,
  widths, `MAX_PACKET_LENGTH` and `CRC16_POLYNOMIAL` are defined in headers
  that are not part of this model, so they are parameters.
- CommandFramer.CleanCrcCheck: the checksum field is read as a native
  `uint16_t` by casting its address. The model assumes a little-endian host
  (`LeU16`).
- Integer widths: the 8-bit byte position wraps modulo 256 (`Bump`), and
  the cursors are bounded by 30. Field values are decoded into unbounded
  integers after masking, which matches the source's masks.
