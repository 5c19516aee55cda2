# Berry Fix Program: save engine and clock logic in Dafny

The Berry Fix Program is a small Game Boy Advance payload. It repairs the
real-time clock date of a Ruby/Sapphire cartridge and resets the Pacifidlog
TM variable in the cartridge's save. This project models three parts of it
as pure functions over immutable data and proves properties of them.

- **The redundant flash save engine** (`payload/src/save.c`). The flash
  chip has 32 sectors of 4 KiB. Sectors 0-13 form save slot 1 and sectors
  14-27 form slot 2. The save is cut into 14 chunks:
  - SaveBlock2;
  - four chunks of SaveBlock1;
  - nine chunks of PokemonStorage.

  Each chunk is written to one sector with a footer. The footer holds the
  chunk id, a folded 16-bit checksum, a security magic and a save counter.
  A full write goes to the slot the next counter's parity names, rotated by
  one sector. If any sector fails, the counter and the rotation roll back.
  Loading validates both slots, picks the newer one (with a wrap-around
  tie-break) and copies back every sector that validates.
- **The RTC date logic** (`payload/src/rtc.c`):
  - binary-coded decimal fields;
  - the day count since 2000;
  - the sanity flags of a clock sample;
  - the time arithmetic against the saved local-time offset;
  - the date fix, which moves a clock still in 2000 or 2001 forward a year.
- **The Pacifidlog TM reset** (`payload/src/event_data.c`). The same code
  is repeated at `payload/src/save.c:767-799`; it is modelled once.

Modules, in dependency order:

| file | module | contents |
|---|---|---|
| c_ints.dfy | CInts | C integer widths and their wrap-around stores |
| options.dfy | Options | `Option` |
| bcd.dfy | Bcd | ConvertBcdToBinary, ConvertBinaryToBcd, sii_rtc_inc |
| calendar.dfy | Calendar | month table, IsLeapYear, ConvertDateToDayCount, calendar successor |
| rtc_info.dfy | RtcInfo | the raw clock sample, RtcGetDayCount |
| rtc_status.dfy | RtcStatus | RtcCheckInfo, RtcInit, rtc_maincb_is_rtc_working |
| date_fix.dfy | DateFix | sii_rtc_inc_day/month, rtc_is_past_feb_28_2000, rtc_maincb_fix_date |
| elapsed_time.dfy | ElapsedTime | CalcTimeDifference, RtcCalcTimeDifference, the "positive" gate |
| save_layout.dfy | SaveLayout | sectors, chunk table, flash, engine globals, bit-mask facts |
| sector_codec.dfy | SectorCodec | CalculateChecksum, the sector image |
| damage_tracker.dfy | DamageTracker | SetDamagedSectorBits |
| slot_writer.dfy | SlotWriter | placement, TryWriteSector, HandleWriteSector, WriteSaveSectorOrSlot, BerryFix_Save/TrySave |
| slot_validator.dfy | SlotValidator | GetSaveValidStatus, CopySaveSlotData, TryLoadSaveSlot |
| save_theorems.dfy | SaveTheorems | write-then-load round trip, rollback, resolution after a write |
| event_data.dfy | EventData | GetVarPointer, BerryFix_ShouldResetPacifidlogTM, BerryFix_ResetPacifidlogTM |

How the model represents the system:

- Values the C code stores into a `u8`, `u16`, `u32`, `s8` or `s16` go
  through an explicit wrap-around store.
- Bit masks are bitvectors: the damaged-sector mask, the valid-sector mask
  of a scan, and the RTC error flags.
- The flash is a map from sector number 0..31 to a sector record.
- The engine globals (`gSaveCounter`, `gLastWrittenSector`,
  `gLastKnownGoodSector`, `gLastSaveCounter`, `gDamagedSaveSectors`) form
  one immutable record. It is passed into every operation and returned by
  it.
- Programming a sector is an oracle: for each chunk id the caller says
  whether the program-and-verify succeeded. On failure it also says what
  the sector was left holding.

## Model

| member | source | states |
|---|---|---|
| SaveLayout.ChunkTable | payload/src/save.c:42-66 | The 14 chunk lengths are 2192, 3968 ×3, 3136, 3968 ×8 and 2000. Each is the struct's remaining size capped at one sector, and each is a multiple of 4 |
| SectorCodec.CalculateChecksum | payload/src/save.c:738-750 | The wrapping word loop returns the fold of the exact sum of the first size/4 little-endian words, taken modulo 2^32 |
| SectorCodec.ChecksumIgnoresTail | payload/src/save.c:738-750 | Bytes at or beyond 4·(size/4) never affect the checksum |
| SectorCodec.ChecksumDetectsByteChange | payload/src/save.c:738-750 | Changing any single covered byte always changes the folded checksum |
| SectorCodec.SectorImage | payload/src/save.c:269-284 | The programmed image is zero everywhere except: the chunk's bytes at the start, the id, the magic 0x8012025, the current counter, and the checksum of the chunk |
| DamageTracker.SetDamagedSectorBits | payload/src/save.c:195-214 | DAMAGED sets exactly bit n; OK clears exactly bit n; CHECK reports bit n and keeps the mask; any other op code does nothing and reports FALSE |
| SlotWriter.TryWriteSector | payload/src/save.c:307-321 | Program failure gives ERROR and sets the sector's damage bit; success gives OK and clears it. Only that sector and that bit change |
| SlotWriter.SectorNumber | payload/src/save.c:260-263 | The physical sector is below 28, and it lies in the slot the counter's parity names |
| SlotWriter.PlacementInverse | payload/src/save.c:260-263 | For a rotation below 14, the chunk id can be recovered from its sector, which lies in the counter's slot |
| SlotWriter.PlacementInjective | payload/src/save.c:260-263 | Distinct chunk ids go to distinct sectors |
| SlotWriter.HandleWriteSector | payload/src/save.c:253-285 | Only the chunk's rotated sector is programmed, with the chunk's image. Only its damage bit changes, and the status is OK exactly when it programmed |
| SlotWriter.WriteChunksFlash | payload/src/save.c:238-239 | After the write loop over ids 0..count-1, each id's sector holds the image (or the failure leftover). Every other sector is unchanged |
| SlotWriter.WriteChunksDamage | payload/src/save.c:238-239 | After the write loop, each written sector's damage bit records its outcome, and every other bit is unchanged |
| SlotWriter.WriteSaveSectorOrSlot | payload/src/save.c:216-251 | A full write:<br>• only writes sectors of the slot of counter+1;<br>• programs every chunk's image there;<br>• gives OK exactly when the damage mask is 0, keeping counter+1 and the next rotation;<br>• otherwise gives ERROR with both restored.<br>A single-id write programs only that chunk's sector and keeps the counter and rotation |
| SlotWriter.Save | payload/src/save.c:105-124 | SAVE_SAVEBLOCKS writes chunks 0-4 in place, SAVE_SAVEBLOCK2 writes chunk 0 in place, and every other mode writes the full slot. Counter and rotation move only for a full write |
| SlotWriter.TrySave | payload/src/save.c:126-132 | The result is OK exactly when no damage bit is set afterwards, and ERROR otherwise. For the full-write modes it is the full-slot write |
| SlotValidator.ScanSlotBit | payload/src/save.c:584-613 | Bit k of the scan mask is set exactly when some sector has the magic, a matching checksum and id k |
| SlotValidator.ValidateSlot | payload/src/save.c:584-644 | A slot is EMPTY exactly when no sector has the magic, and OK exactly when its valid sectors cover all 14 ids; otherwise it is ERROR. The counter is that of the last valid sector scanned, or 0 |
| SlotValidator.MostRecentCounterChoice | payload/src/save.c:646-663 | With both slots OK: the pair {0xFFFFFFFF, 0} picks 0, every other pair picks the larger counter, and the choice ignores slot order |
| SlotValidator.NextGenerationWins | payload/src/save.c:646-663 | The counter after c always outranks c, including across the 32-bit wrap |
| SlotValidator.GetSaveValidStatus | payload/src/save.c:572-700 | The resolution table:<br>• both OK → OK with the most recent counter;<br>• one OK → its counter, with ERROR if the other slot is ERROR and OK if it is EMPTY;<br>• both EMPTY → EMPTY;<br>• otherwise → CORRUPT.<br>EMPTY and CORRUPT reset the counter and rotation to 0; no other engine field changes |
| SlotValidator.ResolutionMeaning | payload/src/save.c:646-699 | Restated in terms of slot contents: OK exactly when some slot is complete and each slot is complete or blank; EMPTY when both are blank; ERROR or CORRUPT otherwise |
| SlotValidator.ResolutionIsIdempotent | payload/src/save.c:572-700 | Resolution reads only the flash: the status and counter do not depend on the engine state, and resolving again gives the same result |
| SlotValidator.CopyRotation | payload/src/save.c:549-558 | The copy sets the rotation to the last sector whose id field is 0, valid or not, and keeps it when there is none |
| SlotValidator.TryLoadSaveSlot | payload/src/save.c:524-540 | Any id other than FULL_SAVE_SLOT gives ERROR and changes nothing. A full load reports the resolution's status and counter, and changes no engine field other than the counter and the rotation. The flash is never changed |
| SlotValidator.LoadKeepsUncovered | payload/src/save.c:543-570 | A chunk that no valid sector of the loaded slot holds keeps its buffer |
| SlotValidator.LoadTakesLastHolder | payload/src/save.c:543-570 | A chunk takes the table-length bytes of the last valid sector holding it |
| SlotValidator.LoadRotation | payload/src/save.c:543-570 | After a full load, the rotation is the last sector of the loaded slot whose id is 0 |
| SaveTheorems.TargetIsOtherSlot | payload/src/save.c:231-235 | A full write targets the slot other than the current counter's, even across the 32-bit wrap |
| SaveTheorems.FullWriteKeepsOtherSlot | payload/src/save.c:216-251 | A full write never touches the slot that holds the previous generation |
| SaveTheorems.ResolutionAfterWrite | payload/src/save.c:216-251 | After a fully programmed write, resolution picks the new slot and counter, unless the old slot holds a newer generation |
| SaveTheorems.WriteThenLoad | payload/src/save.c:216-251 | Round trip: a fully programmed write followed by a full load restores every chunk's bytes, the new counter and the new rotation |
| SaveTheorems.CleanWriteStatus | payload/src/save.c:241-247 | With every sector programmed, a full write reports OK exactly when no damage bit outside the target slot was already set |
| SaveTheorems.StaleDamageForcesError | payload/src/save.c:241-247 | A damage bit left by an earlier call makes a full write report ERROR and roll back, whatever the driver reports now |
| SaveTheorems.FailedWriteRollsBack | payload/src/save.c:241-247 | A program failure on any chunk gives ERROR and restores the counter and rotation |
| SaveTheorems.InvariantPreserved | payload/src/save.c:216-251 | Writes, resolution and loads all keep the rotation offset below 14 |
| Bcd.BcdToBinary | payload/src/rtc.c:46-51 | The result is 0xFF exactly for a malformed byte. Otherwise it is tens·10 + units, at most 99 |
| Bcd.BinaryToBcd | payload/src/rtc.c:288-296 | Values above 99 encode to 0xFF. Others encode to a well-formed byte that decodes back |
| Bcd.BcdRoundTrip | payload/src/rtc.c:46-51 | decode(encode(v)) = v for v ≤ 99, and encode(decode(b)) = b for every well-formed byte |
| Bcd.Inc | payload/src/rtc.c:298-301 | A valid byte below 99 becomes the encoding of the value plus 1; 0x99 becomes 0xFF; a malformed byte becomes 0x00 |
| Calendar.LeapYearsOfAByte | payload/src/rtc.c:53-58 | Within a byte, the leap years are the multiples of 4 except 100 and 200, so year 0 is leap |
| Calendar.ConvertDateToDayCount | payload/src/rtc.c:60-82 | The two loops compute, modulo 2^16, the sum of: the lengths of years 1..year-1 (year 0 never counts), the months before this one, the leap day past February, and the day |
| Calendar.DayCountOfNextDate | payload/src/rtc.c:60-82 | The count grows by exactly one from a date to its calendar successor, except across the end of year 0 |
| RtcInfo.RtcGetDayCount | payload/src/rtc.c:84-89 | The sample's decoded date counted as above. For a calendar date the count does not wrap |
| RtcStatus.RtcCheckInfo | payload/src/rtc.c:149-198 | Each flag is raised exactly when its defect is present:<br>• power bit set;<br>• 24-hour bit clear;<br>• year malformed;<br>• month not 1..12;<br>• day past the month's length (for a valid month);<br>• hour above 24; minute or second above 60.<br>No bit outside 0x0FF0 is ever raised |
| RtcStatus.RtcInit | payload/src/rtc.c:91-113 | A failed probe leaves exactly RTC_INIT_ERROR; otherwise the status is the check of the sample. The warning bit is never left set |
| RtcStatus.IsRtcWorking | payload/src/rtc.c:261-267 | Working exactly when the probe failed or the sample passes every check |
| DateFix.IncMonth | payload/src/rtc.c:303-311 | A valid month below December steps by one. December becomes January and steps the year. The day and time are kept |
| DateFix.IncDay | payload/src/rtc.c:313-324 | Only the date fields change:<br>• a day before the end of its month steps by one in the same month and year;<br>• the month's last day (February 29 in a leap year) becomes day 1 of the next month, December rolling over the year;<br>• a malformed day byte becomes 0x00 |
| DateFix.IncDayIsNextDate | payload/src/rtc.c:313-324 | Stepping the day of a calendar date before 2099 gives its calendar successor, with February 29 only in a leap year |
| DateFix.IsPastFeb28 | payload/src/rtc.c:326-341 | TRUE for every sample of 2001 and FALSE for every year after it |
| DateFix.PastFeb28Meaning | payload/src/rtc.c:326-341 | On a calendar date of 2000 the test holds exactly when the day count is past 59 (February 28) |
| DateFix.FixDate | payload/src/rtc.c:343-369 | Year 1 → January 2 of year 2. Year 0 → written back with date changes only. Any later year → nothing is written. Weekday and time are kept |
| DateFix.FixDateKeepsDayCount | payload/src/rtc.c:343-369 | The fix rewrites every calendar date of 2000 as a calendar date of 2001, or of 2002 for December 31, with the same day count |
| ElapsedTime.CalcTimeDifference | payload/src/rtc.c:235-259 | For normalized inputs whose day difference fits an s16, the result is normalized and spans exactly the seconds between them |
| ElapsedTime.RtcCalcTimeDifference | payload/src/rtc.c:208-233 | Subtracting from the raw sample equals CalcTimeDifference from t to the sample read as a Time |
| ElapsedTime.IsTimeSincePositive | payload/src/rtc.c:277-286 | Reports the decoded year; the UTC time is the sample minus the local offset; the time since the update is UTC minus the update time; for a normalized span the answer is TRUE exactly when its day count is not negative |
| ElapsedTime.PositiveMeansNotEarlier | payload/src/rtc.c:277-286 | For in-range inputs, the gate is TRUE exactly when the UTC reading is not earlier than the last berry update |
| EventData.GetVarPointer | payload/src/event_data.c:21-28 | A variable is returned exactly for ids in 0x4000..0x7FFF, namely vars[id - 0x4000]; any other id gives NULL |
| EventData.GetVarPointerInjective | payload/src/event_data.c:21-28 | Distinct ids name distinct variables |
| EventData.ShouldResetPacifidlogTM | payload/src/event_data.c:30-39 | TRUE exactly when the stored received day is not later than the UTC day, compared as signed ints |
| EventData.ResetPacifidlogTM | payload/src/event_data.c:41-52 | Three outcomes:<br>• day not in the future → TRUE, nothing changes;<br>• negative UTC day → FALSE, nothing changes;<br>• otherwise → the variable (only) is set to 1, a full save follows, and the answer is whether it reported OK |
| EventData.ResetPersists | payload/src/event_data.c:49-52 | When the reset saves and every sector programs, loading reads back the updated buffers, received day 1 included |

The model reproduces these behaviours of the code as written:

- `rtc_maincb_is_rtc_working` tests every flag under `RTC_ERR_FLAG_MASK`
  (0x0FF0), so a bad date or time field makes the clock count as not
  working, not only the power-fail and 12-hour flags.
- A failed probe stores `RTC_INIT_ERROR` (0x1). That bit lies outside
  0x0FF0, so the clock then reads as working.
- The init warning for a set high probe nibble is always overwritten.
- An hour of 24 and a minute or second of 60 pass the checks.
- Day 0 passes the day check.
- Incrementing a malformed BCD byte gives 0x00.
- The year-0 branch of the date fix always steps the year.
- Year 0 is never counted in the day count of later years.
- A full write reports ERROR when any damage bit is set, including bits
  left by earlier calls.

## Left out

- Display code (`msg_load_gfx`, `msg_display`): it only drives the video hardware.
- Flash driver calls (`IdentifyFlash`, `ReadFlash`, `EraseFlashSector`, `ProgramFlashByte`, `BerryFix_IdentifyFlash`): the flash is a sector map, and `ProgramFlashSectorAndVerify` is the per-chunk outcome oracle.
- RTC chip access (`SiiRtc*`, `RtcGetRawInfo`, `rtc_set_datetime`, `REG_IME` interrupt masking): the probe result and the samples are inputs, and the fix's write is a returned value.
- Code the program never calls (marked unused): `ClearSaveData`, `Save_ResetSaveCounters`, the byte-wise and incremental sector writers, `HandleReplaceSector` and the byte-wise commit path at `payload/src/save.c:392-522`, `TryLoadSaveSector`, `RtcGetInfo`, `RtcReset`, the dummies.
- `LocalTimeOffset` and `LastBerryTreeUpdate` live at fixed addresses; here they are `Time` parameters.
- The globals `gRtcUTCTime` and `gTimeSinceBerryUpdate` are fields of the gate's result, not state.
- `BerryFix_ResetPacifidlogTM` reads the clock twice; the two samples are separate parameters.
- Unchecked indices are preconditions, not models of stray memory:
  - a sector with the magic must name a chunk id below 14 (`payload/src/save.c:558`, `:593`, `:624`);
  - the decoded month must be at most 13 for the day count, since the loop reads the month table up to month-1;
  - the month must be 1..12 wherever `sii_rtc_inc_day` runs.
- RtcStatus.RtcCheckInfo: for a month outside 1..12, the day flag compares with a stray read past the month table. That read is a parameter, so the contract leaves the day flag unconstrained there.
- SlotValidator.CopyRotation: `CopySaveSlotData` also reads `chunks[id].size` for sectors without the magic. The value is unused there, so only sectors with the magic need an id below 14.
- Constants from `siirtc.h` and `event_data.h`, which are not part of this model:
  - status bits `SIIRTCINFO_POWER` 0x80 and `SIIRTCINFO_24HOUR` 0x40;
  - `VARS_START` 0x4000, `SPECIAL_VARS_START` 0x8000 and `VAR_PACIFIDLOG_TM_RECEIVED_DAY` 0x4049.

  They are written out as constants.
- ElapsedTime.PositiveMeansNotEarlier: stated only when no s16 day field wraps. Otherwise the gate is modelled exactly but characterised only by its day sign.
- The BCD nibble operations are written as `% 16` and `/ 16` on the byte's value.
