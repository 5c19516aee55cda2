/**
 * The Pacifidlog TM reset of event_data.c (and its copy at the end of
 * save.c): the day stored in a SaveBlock1 variable is compared with the
 * clock's UTC day and, when it lies in the future, set to 1 and saved.
 */
module EventData {
  import opened CInts
  import opened SaveLayout
  import opened Options
  import opened Bcd
  import opened RtcInfo
  import opened ElapsedTime
  import opened SlotWriter
  import opened SlotValidator
  import opened SaveTheorems

  // Variable ids (event_data.h is not part of this model).
  const VARS_START: u16 := 0x4000
  const SPECIAL_VARS_START: u16 := 0x8000
  const VAR_PACIFIDLOG_TM_RECEIVED_DAY: u16 := 0x4049

  /**
   * GetVarPointer: ids from VARS_START up to SPECIAL_VARS_START name
   * vars[id - VARS_START]; every other id gives NULL.
   */
  function GetVarPointer(id: u16): (index: Option<nat>)
    ensures index.Some? <==> VARS_START <= id < SPECIAL_VARS_START
    ensures index.Some? ==> index.value < SPECIAL_VARS_START - VARS_START && VARS_START + index.value == id
  {
    if id < VARS_START then None
    else if id < SPECIAL_VARS_START then Some(id - VARS_START)
    else None
  }

  /** Two ids that name a variable name different variables. */
  lemma GetVarPointerInjective(a: u16, b: u16)
    requires GetVarPointer(a).Some? && GetVarPointer(a) == GetVarPointer(b)
    ensures a == b
  {
  }

  /** The received-day variable is vars[0x49], inside the array. */
  const TM_DAY_INDEX: nat := 0x49

  lemma TmDayVariable()
    ensures GetVarPointer(VAR_PACIFIDLOG_TM_RECEIVED_DAY) == Some(TM_DAY_INDEX)
    ensures TM_DAY_INDEX < VARS_COUNT
  {
  }

  // SaveBlock1 is cut into chunks 1-4 of one sector's data each, so its
  // byte 0x1340, where vars[] starts, is byte 960 of chunk 2.
  const VARS_CHUNK: nat := 2
  const VARS_OFFSET_IN_CHUNK: nat := SAVEBLOCK1_VARS_OFFSET - SECTOR_DATA_SIZE

  /** The whole vars[] array lies inside chunk 2, which holds SaveBlock1's second sector of data. */
  lemma VarsInOneChunk()
    ensures SECTOR_DATA_SIZE <= SAVEBLOCK1_VARS_OFFSET < 2 * SECTOR_DATA_SIZE
    ensures CHUNK_SIZES[1] == SECTOR_DATA_SIZE
    ensures VARS_OFFSET_IN_CHUNK + 2 * VARS_COUNT <= CHUNK_SIZES[VARS_CHUNK]
  {
  }

  /** vars[index], a little-endian u16 in the chunk buffers. */
  function GetVar(chunks: Chunks, index: nat): u16
    requires WellSizedChunks(chunks) && index < VARS_COUNT
  {
    var at := VARS_OFFSET_IN_CHUNK + 2 * index;
    chunks[VARS_CHUNK][at] as int + 0x100 * chunks[VARS_CHUNK][at + 1] as int
  }

  /**
   * Storing into vars[index]: it then reads back the stored value, every
   * other variable and every other chunk keep their contents, and only the
   * variable's two bytes of its chunk change.
   */
  function SetVar(chunks: Chunks, index: nat, value: u16): (r: Chunks)
    requires WellSizedChunks(chunks) && index < VARS_COUNT
    ensures WellSizedChunks(r)
    ensures GetVar(r, index) == value
    ensures forall j :: 0 <= j < VARS_COUNT && j != index ==> GetVar(r, j) == GetVar(chunks, j)
    ensures forall k :: 0 <= k < |chunks| && k != VARS_CHUNK ==> r[k] == chunks[k]
    ensures forall b :: 0 <= b < |chunks[VARS_CHUNK]| && b / 2 != (VARS_OFFSET_IN_CHUNK + 2 * index) / 2 ==>
      r[VARS_CHUNK][b] == chunks[VARS_CHUNK][b]
  {
    var at := VARS_OFFSET_IN_CHUNK + 2 * index;
    var low: u8 := value % 0x100;
    var high: u8 := value / 0x100;
    var chunk: seq<u8> := chunks[VARS_CHUNK][at := low][at + 1 := high];
    chunks[VARS_CHUNK := chunk]
  }

  /** The stored received day. */
  function TmDay(chunks: Chunks): u16
    requires WellSizedChunks(chunks)
  {
    GetVar(chunks, TM_DAY_INDEX)
  }

  /** The UTC day count the clock check leaves in gRtcUTCTime. */
  function UtcDay(rtc: SiiRtcInfo, localOffset: Time): s16
    requires BcdToBinary(rtc.month) <= 13
  {
    IsTimeSincePositive(rtc, localOffset, localOffset).utc.days
  }

  /**
   * BerryFix_ShouldResetPacifidlogTM: TRUE when the stored received day is
   * not later than the UTC day (both widened to int), i.e. when nothing
   * needs resetting. The update time only feeds the unused positive flag.
   */
  function ShouldResetPacifidlogTM(chunks: Chunks, rtc: SiiRtcInfo, localOffset: Time, lastUpdate: Time): (notAhead: bool)
    requires WellSizedChunks(chunks) && BcdToBinary(rtc.month) <= 13
    ensures notAhead <==> TmDay(chunks) <= UtcDay(rtc, localOffset)
  {
    TmDayVariable();
    var index := GetVarPointer(VAR_PACIFIDLOG_TM_RECEIVED_DAY).value;
    var clock := IsTimeSincePositive(rtc, localOffset, lastUpdate);
    GetVar(chunks, index) <= clock.utc.days
  }

  /** The outcome of the reset: its answer, the chunk buffers and the engine afterwards. */
  datatype TmReset = TmReset(done: bool, chunks: Chunks, engine: Engine)

  /**
   * BerryFix_ResetPacifidlogTM with the two clock samples it reads. A
   * received day not in the future leaves everything alone and answers
   * TRUE. Otherwise a negative UTC day at the second reading answers FALSE
   * and changes nothing; else the day is set to 1, nothing else in the
   * buffers changes, a full save follows and the answer is whether it
   * reported OK.
   */
  function ResetPacifidlogTM(chunks: Chunks, first: SiiRtcInfo, second: SiiRtcInfo, localOffset: Time,
                             lastUpdate: Time, outcomes: seq<ProgramOutcome>, e: Engine): (r: TmReset)
    requires WellSizedChunks(chunks) && WellFormedOutcomes(outcomes) && IsFlash(e.flash)
    requires BcdToBinary(first.month) <= 13 && BcdToBinary(second.month) <= 13
    ensures TmDay(chunks) <= UtcDay(first, localOffset) ==> r == TmReset(true, chunks, e)
    ensures TmDay(chunks) > UtcDay(first, localOffset) && UtcDay(second, localOffset) < 0 ==>
      r == TmReset(false, chunks, e)
    ensures TmDay(chunks) > UtcDay(first, localOffset) && UtcDay(second, localOffset) >= 0 ==>
      && WellSizedChunks(r.chunks)
      && TmDay(r.chunks) == 1
      && (forall j :: 0 <= j < VARS_COUNT && j != TM_DAY_INDEX ==> GetVar(r.chunks, j) == GetVar(chunks, j))
      && (forall k :: 0 <= k < |chunks| && k != VARS_CHUNK ==> r.chunks[k] == chunks[k])
      && r.engine == WriteSaveSectorOrSlot(FULL_SAVE_SLOT, r.chunks, outcomes, e).engine
      && (r.done <==> r.engine.state.damagedSaveSectors == 0)
  {
    if ShouldResetPacifidlogTM(chunks, first, localOffset, lastUpdate) then TmReset(true, chunks, e)
    else
      var clock := IsTimeSincePositive(second, localOffset, lastUpdate);
      if clock.utc.days < 0 then TmReset(false, chunks, e)
      else
        TmDayVariable();
        var updated := SetVar(chunks, GetVarPointer(VAR_PACIFIDLOG_TM_RECEIVED_DAY).value, 1);
        var saved := TrySave(SAVE_NORMAL, updated, outcomes, e);
        TmReset(saved.status == Ok, updated, saved.engine)
  }

  /**
   * When the reset writes and the flash programs every sector, loading the
   * save back yields exactly the updated buffers, received day 1 included.
   */
  lemma ResetPersists(chunks: Chunks, buffers: Chunks, first: SiiRtcInfo, second: SiiRtcInfo, localOffset: Time,
                      lastUpdate: Time, outcomes: seq<ProgramOutcome>, e: Engine)
    requires WellSizedChunks(chunks) && WellSizedChunks(buffers) && AllProgrammed(outcomes)
    requires ReadableFlash(e.flash) && PreviousSlotNotNewer(e)
    requires BcdToBinary(first.month) <= 13 && BcdToBinary(second.month) <= 13
    requires TmDay(chunks) > UtcDay(first, localOffset) && UtcDay(second, localOffset) >= 0
    ensures var r := ResetPacifidlogTM(chunks, first, second, localOffset, lastUpdate, outcomes, e);
      && ReadableFlash(r.engine.flash)
      && var loaded := TryLoadSaveSlot(FULL_SAVE_SLOT, buffers, r.engine);
      && loaded.chunks == r.chunks
      && TmDay(loaded.chunks) == 1
  {
    assert WellFormedOutcomes(outcomes);
    var r := ResetPacifidlogTM(chunks, first, second, localOffset, lastUpdate, outcomes, e);
    WriteThenLoad(r.chunks, buffers, outcomes, e);
  }
}
