# ADSBee receiver core in Dafny

This project models two parts of the ADSBee 1090 MHz receiver firmware.

**The aircraft dictionary** (`firmware/common/adsb/aircraft_dictionary.hh`):
- the `Aircraft` record, with its in-class defaults;
- its bit-flag word, where the "updated" flags are cleared at each reporting interval;
- its NIC supplement bits and their "written" latch;
- its two CPR parity slots and `CanDecodePosition`;
- the `AircraftDictionary` of at most 100 records keyed by ICAO address: insertion, removal, lookup, the Mode A/C fast path that creates unknown aircraft, and pruning of stale records.

**The receiver's integer arithmetic and packet framing** (`firmware/pico/src/app/ads_bee.cc`):
- the trigger-level (TL) bias setter and its PWM compare level;
- the ADC-count to millivolt and millivolt to dBm conversions;
- the 48 MHz and 12 MHz MLAT counters;
- the framing of demodulated FIFO words into Squitter (56-bit) and Extended Squitter (112-bit) packets;
- the dictionary prune trigger of the main loop.

Files:
- `c_types.dfy` (module `CTypes`): the C integer widths, unsigned 32-bit subtraction with wrap-around, C's truncating division, and the powers of two and remainders by which unsigned shifts and masks are written as arithmetic.
- `bits.dfy` (module `Bits`): single-bit reads and masked writes on `bv32`/`bv8` words.
- `aircraft.dfy` (module `AircraftModel`): the enums, `class Aircraft`, the flag lemmas, and `WriteNICBit` sequences with their lemmas.
- `aircraft_dictionary.dfy` (module `Dictionary`): `class AircraftDictionary` over a `map<uint32, Aircraft>` of record objects.
- `ads_bee.dfy` (module `AdsBee`): the conversions, MLAT counters and framing functions, and `class ADSBee` with `SetTLMilliVolts`, `ReadTLMilliVolts`, `OnDemodComplete` and `Update`.

The code that changes state in place is modelled as classes whose methods name their frames:
- the record's setters;
- the dictionary's operations;
- the receiver's TL setter, demodulation handler and update step;
- the packet buffer, which stays an `array`, filled by a loop.

Pure arithmetic is modelled as functions with lemmas.

The bodies of the dictionary operations are not in the modelled sources; only their declarations and documentation are. Their contracts follow that documentation, and each decision that had to be made is listed below.

## Model

| member | source | states |
|---|---|---|
| CTypes.SubU32 | firmware/pico/src/app/ads_bee.cc:158 | `a - b` on `uint32_t`: the true difference when `a >= b`, the difference plus 2^32 otherwise |
| CTypes.CDiv | firmware/pico/src/app/ads_bee.cc:259 | C's `/` by a positive divisor rounds toward zero: `0 <= q*b <= a < q*b + b` for `a >= 0`, the mirror bounds for `a < 0` |
| Bits.WriteBit32 | firmware/common/adsb/aircraft_dictionary.hh:188 | after the masked write, bit `i` reads back as the value written |
| Bits.WriteBit32Unchanged | firmware/common/adsb/aircraft_dictionary.hh:188 | writing a bit the value it already holds leaves the word as it is, and writing the other value changes it |
| Bits.WriteBit32KeepsOthers | firmware/common/adsb/aircraft_dictionary.hh:188 | the masked write changes no bit other than bit `i` (equality under the mask `~(1 << i)`) |
| Bits.KeepBelow32 | firmware/common/adsb/aircraft_dictionary.hh:222 | `w & ~(~0 << k)` has no bit at or above `k` set |
| Bits.KeepBelow32KeepsLow | firmware/common/adsb/aircraft_dictionary.hh:222 | `w & ~(~0 << k)` leaves every bit below `k` as it was |
| Bits.WriteBit8 | firmware/common/adsb/aircraft_dictionary.hh:197 | after the masked byte write, bit `i` reads back as the value written |
| Bits.WriteBit8KeepsOther | firmware/common/adsb/aircraft_dictionary.hh:197 | the masked byte write leaves every other bit as it was |
| Bits.SetBit8 | firmware/common/adsb/aircraft_dictionary.hh:201 | `w \| (1 << i)` has bit `i` set |
| Bits.SetBit8KeepsOther | firmware/common/adsb/aircraft_dictionary.hh:201 | `w \| (1 << i)` leaves every other bit as it was |
| Bits.SetBit8Monotone | firmware/common/adsb/aircraft_dictionary.hh:201 | `w \| (1 << i)` never clears a bit of `w` |
| AircraftModel.Aircraft.constructor | firmware/common/adsb/aircraft_dictionary.hh:224-292 | `Aircraft(icao_address_in)` stores the address and gives every other field its in-class default (callsign "?", antenna offset INT8_MAX, ADS-B version -1, empty CPR slots); no position decode can be attempted yet |
| AircraftModel.Aircraft.Copy | firmware/common/adsb/aircraft_dictionary.hh:371 | the copy that `InsertAircraft(const Aircraft &)` stores holds the same record, field for field |
| AircraftModel.Aircraft.CopyFrom | firmware/common/adsb/aircraft_dictionary.hh:386 | the assignment into `aircraft_out` leaves it holding the same record as the source, field for field |
| AircraftModel.Aircraft.ApplyModeAReply | firmware/common/adsb/aircraft_dictionary.hh:332-340 | a Mode A reply sets the squawk and the last-seen time; every other field of the record stays |
| AircraftModel.Aircraft.ApplyModeCReply | firmware/common/adsb/aircraft_dictionary.hh:342-350 | a Mode C reply sets the barometric altitude and the last-seen time; every other field of the record stays |
| AircraftModel.Aircraft.HasBitFlag | firmware/common/adsb/aircraft_dictionary.hh:217 | a flag reads as set iff setting it would leave the flag word as it is |
| AircraftModel.Aircraft.WriteBitFlag | firmware/common/adsb/aircraft_dictionary.hh:185-188 | `HasBitFlag(bit)` afterwards equals the value written, and every other bit of `flags` is unchanged |
| AircraftModel.Aircraft.ResetUpdatedBitFlags | firmware/common/adsb/aircraft_dictionary.hh:72-79 | for every flag: it is set afterwards iff it is a persistent flag (below `kBitFlagUpdatedBaroAltitude`) and was set before |
| AircraftModel.ResetKeepsPersistentFlag | firmware/common/adsb/aircraft_dictionary.hh:219-222 | the reset keeps each flag below `kBitFlagUpdatedBaroAltitude` |
| AircraftModel.ResetClearsUpdatedFlag | firmware/common/adsb/aircraft_dictionary.hh:72-79 | the reset clears `kBitFlagUpdatedBaroAltitude` and every flag after it |
| AircraftModel.ResetUpdatedBitFlagsIdempotent | firmware/common/adsb/aircraft_dictionary.hh:222 | resetting twice gives the same flag word as resetting once |
| AircraftModel.ResetKeepsWrittenFlag | firmware/common/adsb/aircraft_dictionary.hh:188 | a flag written and then reset reads as the value written if it is persistent, and as clear if it is an "updated" flag |
| AircraftModel.Aircraft.WriteNICBit | firmware/common/adsb/aircraft_dictionary.hh:196-202 | `nic_bits` takes the value in bit `bit`; `nic_bits_valid` latches bit `bit`, whatever the value |
| AircraftModel.NICBitsHoldLastWrite | firmware/common/adsb/aircraft_dictionary.hh:190-197 | after any sequence of `WriteNICBit` calls, each NIC bit holds the last value written to it, or its initial value if it was never written |
| AircraftModel.NICValidRecordsWrites | firmware/common/adsb/aircraft_dictionary.hh:196-202 | after any sequence of writes, a "written" bit is set iff it was set before or that bit was written at least once |
| AircraftModel.NICValidNeverCleared | firmware/common/adsb/aircraft_dictionary.hh:198-201 | the "written" latch is permanent: no sequence of writes clears a bit of `nic_bits_valid` |
| AircraftModel.Aircraft.NICBitIsValid | firmware/common/adsb/aircraft_dictionary.hh:210 | as written it reads `nic_bits`; while no value bit is set outside the "written" latch, a true answer still means the bit was written (the converse fails, see Findings) |
| AircraftModel.Aircraft.NICBitWasWritten | firmware/common/adsb/aircraft_dictionary.hh:204-209 | the documented answer: bit `bit` of `nic_bits_valid`, read from the low end; a record with a clear latch has no bit written |
| AircraftModel.WriteNICBitStaysWithinLatch | firmware/common/adsb/aircraft_dictionary.hh:196-202 | one `WriteNICBit` sets no value bit outside the latch if there was none before |
| AircraftModel.NICBitsStayWithinLatch | firmware/common/adsb/aircraft_dictionary.hh:196-202 | from a record with no value bit outside the latch (the default record), no sequence of writes sets one: `nic_bits & ~nic_bits_valid` stays 0 |
| AircraftModel.LastWrittenValue | firmware/common/adsb/aircraft_dictionary.hh:196-197 | the reference for `NICBitsHoldLastWrite`: with no write to the bit, the initial value |
| AircraftModel.NICBitWrittenIffWritten | firmware/common/adsb/aircraft_dictionary.hh:204-209 | from a default record, the documented answer of `NICBitIsValid` (bit `b` of `nic_bits_valid`) is true iff `b` was written |
| AircraftModel.NICBitIsValidMissesFalseWrite | firmware/common/adsb/aircraft_dictionary.hh:210 | after `WriteNICBit(kNICBitA, false)`, bit A has been written, yet bit A of `nic_bits` (what the getter reads) is clear |
| AircraftModel.Aircraft.CanDecodePosition | firmware/common/adsb/aircraft_dictionary.hh:175-177 | a decode can be attempted only when neither parity slot is empty |
| AircraftModel.Aircraft.RecordCPRFrame | firmware/common/adsb/aircraft_dictionary.hh:156-177 | a frame's 17-bit counts and reception time go into the slot of its parity and the other slot stays; with a non-zero time, `CanDecodePosition` then holds iff the other parity had already been received |
| Dictionary.IsStale | firmware/common/adsb/aircraft_dictionary.hh:317-322 | a record is stale iff more than the prune interval has passed since it was last seen |
| Dictionary.Pruned | firmware/common/adsb/aircraft_dictionary.hh:317-322 | a prune only removes addresses, and every record it keeps is not stale |
| Dictionary.PruneBoundary | firmware/common/adsb/aircraft_dictionary.hh:317-322 | a record last seen at `t` survives a prune at any time up to `t + interval` and is pruned at `t + interval + 1` |
| Dictionary.PrunedUnique | firmware/common/adsb/aircraft_dictionary.hh:317-322 | the result of a prune is determined by the dictionary and the time |
| Dictionary.PrunedIdempotent | firmware/common/adsb/aircraft_dictionary.hh:317-322 | a second prune at the same time removes nothing more |
| Dictionary.AircraftDictionary.constructor | firmware/common/adsb/aircraft_dictionary.hh:307-310 | a dictionary built from a config is empty and keeps that config |
| Dictionary.AircraftDictionary.Init | firmware/common/adsb/aircraft_dictionary.hh:312-315 | `Init` removes every aircraft |
| Dictionary.AircraftDictionary.GetNumAircraft | firmware/common/adsb/aircraft_dictionary.hh:360-364 | the count is the number of stored records and never exceeds 100 |
| Dictionary.AircraftDictionary.InsertAircraft | firmware/common/adsb/aircraft_dictionary.hh:366-371 | insertion succeeds iff the address is already present or fewer than 100 records are stored. On success it stores a fresh copy under the aircraft's address and leaves every other record as it was. On failure nothing changes. |
| Dictionary.AircraftDictionary.RemoveAircraft | firmware/common/adsb/aircraft_dictionary.hh:373-378 | removal succeeds iff the address was present; afterwards exactly that address is gone |
| Dictionary.AircraftDictionary.GetAircraft | firmware/common/adsb/aircraft_dictionary.hh:380-386 | found iff the address is present; when found, `aircraft_out` holds the stored record; otherwise it is untouched |
| Dictionary.AircraftDictionary.ContainsAircraft | firmware/common/adsb/aircraft_dictionary.hh:388-393 | true iff the address is present |
| Dictionary.AircraftDictionary.GetAircraftPtr | firmware/common/adsb/aircraft_dictionary.hh:395-400 | non-null iff the address is present, and then it is the stored record itself |
| Dictionary.AircraftDictionary.FindOrInsert | firmware/common/adsb/aircraft_dictionary.hh:335-336 | an unknown address gets a new default record while there is room; a known one yields its stored record; when full, there is no record and nothing changes |
| Dictionary.AircraftDictionary.IngestModeAPacket | firmware/common/adsb/aircraft_dictionary.hh:332-340 | succeeds iff the packet is valid and its address is known or there is room. A known record stays the same object and keeps every field except the squawk and the last-seen time, which take the packet's code and the sighting time. A new record is fresh and is the default record for the address with those two fields set. On failure the map and the known record are unchanged. |
| Dictionary.AircraftDictionary.IngestModeCPacket | firmware/common/adsb/aircraft_dictionary.hh:342-350 | as for Mode A, with the barometric altitude in place of the squawk: every other field of a known record stays, and a new record is the default one with the altitude and last-seen time set |
| Dictionary.AircraftDictionary.Update | firmware/common/adsb/aircraft_dictionary.hh:317-322 | exactly the records last seen before `timestamp - prune interval` are removed; all the others remain, the same objects unchanged |
| AdsBee.AdcCountsToMv | firmware/pico/src/app/ads_bee.cc:264 | `3300 * counts / 0xFFF` rounded down: `mv * 4095 <= 3300 * counts < (mv + 1) * 4095`, at most 3300 for a 12-bit reading |
| AdsBee.AdcCountsToMvMonotone | firmware/pico/src/app/ads_bee.cc:264 | a larger reading never converts to fewer millivolts |
| AdsBee.RssiDbmFromMv | firmware/pico/src/app/ads_bee.cc:277 | for readings 0 to 3300 mV the RSSI lies between -96 and 102 dBm |
| AdsBee.RssiDbm | firmware/pico/src/app/ads_bee.cc:273-278 | for a 12-bit ADC reading, `ReadRSSIdBm` lies between -96 and 102 dBm |
| AdsBee.RssiDbmAntisymmetric | firmware/pico/src/app/ads_bee.cc:277 | with truncating division the formula is odd about the 1.6 V intercept |
| AdsBee.RssiDbmSlope | firmware/pico/src/app/ads_bee.cc:277 | every 50 mV from the intercept is exactly 3 dB (60 dB per volt) |
| AdsBee.RssiDbmZeroBand | firmware/pico/src/app/ads_bee.cc:277 | the result is 0 dBm iff the voltage is within 16 mV of 1600 mV |
| AdsBee.RssiDbmMonotone | firmware/pico/src/app/ads_bee.cc:277 | a higher voltage never reports less power |
| AdsBee.TLPwmCount | firmware/pico/src/app/ads_bee.cc:259 | the compare level is `tl_mv * kTLMaxPWMCount / kVDDMV` rounded down |
| AdsBee.TLPwmCountInRange | firmware/pico/src/app/ads_bee.cc:252-259 | a voltage between 0 and the supply gives a level between 0 and the PWM wrap value |
| AdsBee.TLPwmCountMonotone | firmware/pico/src/app/ads_bee.cc:259 | a higher bias voltage never gives a lower compare level |
| AdsBee.ADSBee.constructor | firmware/pico/src/app/ads_bee.cc:135 | construction together with this state step of `Init`: an empty packet queue, an empty dictionary, and the boot time as the last dictionary update |
| AdsBee.ADSBee.SetTLMilliVolts | firmware/pico/src/app/ads_bee.cc:252-262 | a voltage outside `[kTLMinMV, kTLMaxMV]` is refused and changes nothing; one inside is stored with its PWM compare level, which stays within `[0, kTLMaxPWMCount]` |
| AdsBee.ADSBee.ReadTLMilliVolts | firmware/pico/src/app/ads_bee.cc:266-271 | stores the ADC reading and returns its conversion to millivolts |
| AdsBee.Mlat48MhzCounts | firmware/pico/src/app/ads_bee.cc:241-245 | the result fits in `num_bits` bits |
| AdsBee.Mlat48MhzCountsUnwrapped | firmware/pico/src/app/ads_bee.cc:244 | the 64-bit wrap-around of `wraps << 24` makes no difference once the result is masked |
| AdsBee.Mlat48MhzCountsSplit | firmware/pico/src/app/ads_bee.cc:242-244 | with at least 24 bits, the count is the wrap counter masked to `num_bits - 24` bits, times 2^24, plus `0xFFFFFF - cvr` |
| AdsBee.Mlat48MhzCountsLowHigh | firmware/pico/src/app/ads_bee.cc:244 | the low 24 bits are `0xFFFFFF - cvr`; the bits above them are the wrap counter masked to `num_bits - 24` bits |
| AdsBee.Mlat48MhzCountsIncreasing | firmware/pico/src/app/ads_bee.cc:242-244 | within one SysTick period, a lower SysTick value gives a strictly larger count (the down-counter is turned into an up-counter) |
| AdsBee.Mlat48MhzCountsWrapStep | firmware/pico/src/app/ads_bee.cc:239-244 | one more SysTick wrap adds exactly 2^24 ticks, modulo the counter's width |
| AdsBee.Mlat12MhzCountsAsWritten | firmware/pico/src/app/ads_bee.cc:247-250 | as written, the result always fits in 48 bits, whatever `num_bits` is |
| AdsBee.Mlat12MhzCountsAsWrittenExceedsWidth | firmware/pico/src/app/ads_bee.cc:249 | with `num_bits = 24`, wrap count 4 and SysTick value `0xFFFFFF`, the as-written result is at least 2^24 |
| AdsBee.Mlat12MhzCounts | firmware/pico/src/app/ads_bee.cc:247-250 | the corrected counter fits in `num_bits` bits |
| AdsBee.Mlat12MhzCountsIsQuarterRate | firmware/pico/src/app/ads_bee.cc:248-249 | the corrected counter is the unmasked 48 MHz count divided by 4, then truncated to `num_bits` bits |
| AdsBee.NumWordsToRead | firmware/pico/src/app/ads_bee.cc:187-196 | the FIFO level (held in 16 bits) clamped to the buffer capacity: never more than the capacity or the FIFO holds, and exactly the level when it fits |
| AdsBee.PacketLenBits | firmware/pico/src/app/ads_bee.cc:204-223 | there is a packet length iff the word count is 2 (Squitter) or 4 (Extended Squitter), and the length fits in the last word |
| AdsBee.AlignLastWord | firmware/pico/src/app/ads_bee.cc:204-211 | a Squitter's last word has its low 8 bits clear, an Extended Squitter's its low 16 bits; a word of any other count stays as read |
| AdsBee.AlignSquitterLastWord | firmware/pico/src/app/ads_bee.cc:205-206 | a Squitter's last word carries its 24 valid bits at the top |
| AdsBee.AlignExtendedSquitterLastWord | firmware/pico/src/app/ads_bee.cc:210-211 | an Extended Squitter's last word carries its 16 valid bits at the top |
| AdsBee.DemodWord | firmware/pico/src/app/ads_bee.cc:198-211 | with the intended whole-buffer clear: words before the last are as read, the words after it are 0, and no bit after the end of a Squitter or Extended Squitter is set |
| AdsBee.DemodBuffer | firmware/pico/src/app/ads_bee.cc:183-225 | with the intended whole-buffer clear, the packet buffer after a read keeps its capacity |
| AdsBee.DemodBufferSquitter | firmware/pico/src/app/ads_bee.cc:198-209 | with the intended whole-buffer clear, after a two-word read the buffer holds the first word, the aligned second word, then zeros |
| AdsBee.DemodBufferExtendedSquitter | firmware/pico/src/app/ads_bee.cc:198-214 | with the intended whole-buffer clear, after a four-word read the buffer holds three words as read, the aligned fourth word, then zeros |
| AdsBee.MemsetWordAsWritten | firmware/pico/src/app/ads_bee.cc:184 | the byte-count `memset` only clears bits: a word within the first `kMaxPacketLenWords32` bytes becomes 0, a word beyond them keeps its stale contents |
| AdsBee.DemodBufferAsWritten | firmware/pico/src/app/ads_bee.cc:183-200 | the buffer after the as-written byte-count clear and read keeps its capacity |
| AdsBee.DemodBufferAsWrittenKeepsStaleWord | firmware/pico/src/app/ads_bee.cc:183-184 | with a capacity of at least four words, a Squitter read keeps the previous packet's last buffer word, where the intended clear leaves 0 |
| AdsBee.ADSBee.OnDemodComplete | firmware/pico/src/app/ads_bee.cc:173-237 | runs the intended whole-buffer clear: records the RSSI of the reading, leaves the buffer equal to `DemodBuffer` of the FIFO, and queues exactly one packet (the buffer, its bit length, RSSI and MLAT time) iff the clamped word count is 2 or 4; otherwise the queue and length are unchanged |
| AdsBee.PruneDueAsWritten | firmware/pico/src/app/ads_bee.cc:158 | as written, `last - now` on `uint32_t`: never due at once, but due after any `d` ms with `0 < d < 2^32 - interval` |
| AdsBee.PruneDue | firmware/pico/src/app/ads_bee.cc:158 | the intended trigger: due iff the time elapsed since the last update (modulo 2^32) exceeds the interval |
| AdsBee.PruneDueAsWrittenFiresEarly | firmware/pico/src/app/ads_bee.cc:158 | with a last update at 5000 ms and an interval of 1000 ms, the as-written trigger fires at 5001 ms; the intended one does not |
| AdsBee.ADSBee.Update | firmware/pico/src/app/ads_bee.cc:147-162 | when the intended trigger is due, the dictionary is pruned at the current time, otherwise it is unchanged; the last-update timestamp is not refreshed, as in the source |

## Left out

- Floating-point fields are not modelled. These are latitude, longitude, heading, velocity and the CPR slots' `lat_cpr`/`lon_cpr`/`lat`.
- `SetCPRLatLon` and `DecodePosition`: only the storage step is modelled (`RecordCPRFrame`). The CPR zone arithmetic is floating point and its body is not part of this model.
- `IngestDecodedTransponderPacket`, `IngestADSBPacket` and the seven `Apply…Message` helpers are not modelled. They are the ADS-B message decoders, whose bodies and packet types live in files outside this model.
- The default constructor `Aircraft()` is not modelled. Every record in the dictionary is created from an address.
- AircraftModel.Aircraft.constructor: `Aircraft(uint32_t)` is only declared (aircraft_dictionary.hh:153); its body is not part of this model. The contract, the address plus the in-class defaults, is a modelling decision.
- AircraftModel.Aircraft.ApplyModeAReply and AircraftModel.Aircraft.ApplyModeCReply: the bodies of Mode A/C ingestion are not part of this model. That a reply writes its one field and the last-seen time, and nothing else, is a modelling decision.
- Dictionary.AircraftDictionary.IngestModeAPacket: the source takes no timestamp, so the sighting time is a parameter. The source's clock read is not visible, and a packet's validity mark is a field of the packet.
- Dictionary.AircraftDictionary.InsertAircraft: overwriting an existing address is a modelling decision, and so is refusing a new address once `kMaxNumAircraft` (aircraft_dictionary.hh:300) records are stored. The body is not visible.
- Dictionary.AircraftDictionary.Update: the staleness test `last_seen < now - interval` is evaluated on unbounded integers. The body is not visible, so any 32-bit wrap-around of that subtraction is not modelled.
- AdsBee.ADSBee.Update: runs the intended `now - last_update` trigger (`PruneDue`), not the `last_update - now` test at ads_bee.cc:158. The as-written trigger is `PruneDueAsWritten`; see Findings.
- AdsBee.ADSBee.Update: the dictionary's `Update` documents a timestamp in microseconds, and the main loop passes milliseconds. The model passes the millisecond time through unchanged.
- Dictionary.AircraftDictionary.GetAircraft requires that `aircraft_out` is not itself a stored record. C++ reference aliasing of that kind is not modelled.
- AdsBee.ADSBee.OnDemodComplete: runs the intended whole-buffer clear (`DemodBuffer`), not the byte-count `memset` at ads_bee.cc:184. The as-written buffer is `DemodBufferAsWritten`; see Findings.
- AdsBee.ADSBee.OnDemodComplete: the queue is an unbounded sequence, so a `Push` into a full queue is not modelled. The FIFO is a parameter holding the words waiting in it.
- The ADC, PIO, GPIO, PWM, I2C, SysTick, LED and console calls are left out, and so are `Init`, `OnDemodBegin`, `OnSysTickWrap` and `FlashStatusLED`. Hardware reads (ADC counts, the SysTick `cvr`, the wrap counter, the clock) are parameters.
- AdsBee.Mlat48MhzCounts: `num_bits` is a `uint16_t` in the source. Only widths 1 to 64 give a defined C shift, and the model requires those. The wrap counter `mlat_counter_1s_wraps_` is taken as a 64-bit unsigned value; its declaration is not part of this model. The SysTick value is a 24-bit register value, so `0xFFFFFF - cvr` never wraps.
- AdsBee.Mlat48MhzCounts: the bit operations are written as the equivalent arithmetic on unsigned integers. `w << 24` on `uint64_t` is `w * 2^24 mod 2^64`; the `|` with a value below 2^24 is a sum; the mask `UINT64_MAX >> (64 - n)` is `mod 2^n`; `>> 2` is `/ 4`.
- `kTLMinMV`, `kTLMaxMV`, `kTLMaxPWMCount`, `kVDDMV` and `kMaxPacketLenWords32` are declared outside the modelled files. They are constructor parameters of `ADSBee`, whose precondition states the ranges the arithmetic needs: bias limits within the supply, no 32-bit overflow of `tl_mv * kTLMaxPWMCount`, and room for an Extended Squitter.
- The Squitter and Extended Squitter word counts (2 and 4) and bit lengths (56 and 112) are declared outside the modelled files. They are inferred from the masks at ads_bee.cc:206 and 211, which keep 24 bits of the second word and 16 bits of the fourth.
- `ReadRSSIdBm` writes its ADC-to-millivolt step inline as `counts * 3300 / 4095`. That is the same value as `adc_counts_to_mv`, and the model uses `AdcCountsToMv` for both.

## Findings

| source | as written | input that shows it | evidently intended | confidence | as-written member | corrected member |
|---|---|---|---|---|---|---|
| firmware/common/adsb/aircraft_dictionary.hh:210 | `NICBitIsValid` tests bit `bit` of `nic_bits`, the written value | `WriteNICBit(kNICBitA, false)` on a new record: the bit was written, but the getter answers false | test bit `bit` of `nic_bits_valid`, as its documentation says ("has been written to") | high; not executed | AircraftModel.NICBitIsValidMissesFalseWrite | AircraftModel.NICBitWrittenIffWritten |
| firmware/pico/src/app/ads_bee.cc:158 | the prune trigger computes `last_update - now` on `uint32_t` | last update 5000 ms, now 5001 ms, interval 1000 ms: the trigger fires 1 ms after the last update | compare `now - last_update` with the interval | high; not executed | AdsBee.PruneDueAsWrittenFiresEarly | AdsBee.PruneDue |
| firmware/pico/src/app/ads_bee.cc:247-250 | `GetMLAT12MHzCounts` ignores `num_bits` and always masks the 48 MHz counter to 50 bits | `num_bits = 24`, wrap count 4, SysTick `0xFFFFFF`: the result is 2^24, which needs 25 bits | widen the requested mask by 2 bits, `GetMLAT48MHzCounts(num_bits + 2) >> 2`, as the comment says | medium; not executed | AdsBee.Mlat12MhzCountsAsWrittenExceedsWidth | AdsBee.Mlat12MhzCounts |
| firmware/pico/src/app/ads_bee.cc:184 | `memset` clears `kMaxPacketLenWords32` bytes of a buffer of 32-bit words | an Extended Squitter followed by a Squitter: the queued Squitter buffer still holds the earlier packet's last word | clear `kMaxPacketLenWords32 * 4` bytes, i.e. every word | high; not executed | AdsBee.DemodBufferAsWrittenKeepsStaleWord | AdsBee.ADSBee.OnDemodComplete |
