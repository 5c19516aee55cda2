/**
 * Writing chunks into flash: the rotating placement, TryWriteSector,
 * HandleWriteSector, WriteSaveSectorOrSlot, BerryFix_Save and BerryFix_TrySave.
 *
 * The flash driver's ProgramFlashSectorAndVerify is an oracle: for every
 * chunk id the caller supplies the outcome of programming that chunk's
 * sector in this call, and on failure the contents the sector is left with.
 */
module SlotWriter {
  import opened CInts
  import opened SaveLayout
  import opened SectorCodec
  import opened DamageTracker

  datatype ProgramOutcome = Programmed | Failed(left: SaveSector)

  predicate WellFormedOutcomes(o: seq<ProgramOutcome>) {
    && |o| == NUM_SECTORS_PER_SLOT
    && forall i :: 0 <= i < |o| ==> (o[i].Failed? ==> WellFormedSector(o[i].left))
  }

  /** What a sector holds after one program attempt with the given image. */
  function AfterProgram(outcome: ProgramOutcome, image: SaveSector): SaveSector {
    if outcome.Programmed? then image else outcome.left
  }

  datatype WriteResult = WriteResult(status: SaveStatus, engine: Engine)

  const SAVE_NORMAL: u8 := 0
  const SAVE_SAVEBLOCKS: u8 := 1
  const SAVE_SAVEBLOCK2: u8 := 2

  // ---- Placement ----

  /**
   * Physical sector of chunk `sectorId`: rotated by the last written sector
   * within the slot, the slot chosen by the counter's parity.
   */
  function SectorNumber(sectorId: u16, lastWritten: u16, counter: u32): (n: u16)
    ensures n < NUM_SAVE_SLOTS * NUM_SECTORS_PER_SLOT
    ensures n / NUM_SECTORS_PER_SLOT == counter % NUM_SAVE_SLOTS
  {
    ToU16(sectorId + lastWritten) % NUM_SECTORS_PER_SLOT + NUM_SECTORS_PER_SLOT * (counter % NUM_SAVE_SLOTS)
  }

  /** The chunk id whose rotated position is sector n (inverse of SectorNumber). */
  function ChunkIdAt(n: int, lastWritten: u16): (id: nat)
    ensures id < NUM_SECTORS_PER_SLOT
  {
    (n % NUM_SECTORS_PER_SLOT - lastWritten) % NUM_SECTORS_PER_SLOT
  }

  /** Sectors of slot s. */
  predicate InSlot(n: int, slot: int) {
    0 <= n < NUM_SAVE_SLOTS * NUM_SECTORS_PER_SLOT && n / NUM_SECTORS_PER_SLOT == slot
  }

  /** For a rotation offset below 14 the 14 chunk ids map one-to-one onto the sectors of the slot. */
  lemma PlacementInverse(id: u16, lastWritten: u16, counter: u32)
    requires id < NUM_SECTORS_PER_SLOT && lastWritten < NUM_SECTORS_PER_SLOT
    ensures InSlot(SectorNumber(id, lastWritten, counter), counter % 2)
    ensures ChunkIdAt(SectorNumber(id, lastWritten, counter), lastWritten) == id
  {
    var slot := counter % NUM_SAVE_SLOTS;
    var pos := if id + lastWritten < NUM_SECTORS_PER_SLOT then id + lastWritten else id + lastWritten - NUM_SECTORS_PER_SLOT;
    assert ToU16(id + lastWritten) % NUM_SECTORS_PER_SLOT == pos;
    var n := pos + NUM_SECTORS_PER_SLOT * slot;
    assert n % NUM_SECTORS_PER_SLOT == pos && n / NUM_SECTORS_PER_SLOT == slot;
  }

  lemma PlacementOnto(n: int, lastWritten: u16, counter: u32)
    requires InSlot(n, counter % 2) && lastWritten < NUM_SECTORS_PER_SLOT
    ensures SectorNumber(ChunkIdAt(n, lastWritten), lastWritten, counter) == n
  {
  }

  lemma PlacementInjective(i: u16, j: u16, lastWritten: u16, counter: u32)
    requires i < NUM_SECTORS_PER_SLOT && j < NUM_SECTORS_PER_SLOT && lastWritten < NUM_SECTORS_PER_SLOT
    requires i != j
    ensures SectorNumber(i, lastWritten, counter) != SectorNumber(j, lastWritten, counter)
  {
    PlacementInverse(i, lastWritten, counter);
    PlacementInverse(j, lastWritten, counter);
  }

  // ---- One sector ----

  /** Program one sector; failure marks it damaged, success clears its damage bit. */
  function TryWriteSector(sectorNum: u8, image: SaveSector, outcome: ProgramOutcome, e: Engine): (r: WriteResult)
    requires sectorNum < SECTORS_COUNT
    ensures r.status == Ok <==> outcome.Programmed?
    ensures r.status == Error <==> outcome.Failed?
    ensures r.engine.flash == e.flash[sectorNum := AfterProgram(outcome, image)]
    ensures r.engine.state == e.state.(damagedSaveSectors := r.engine.state.damagedSaveSectors)
    ensures IsSet(r.engine.state.damagedSaveSectors, sectorNum) <==> outcome.Failed?
    ensures forall k :: 0 <= k < 32 && k != sectorNum ==>
      (IsSet(r.engine.state.damagedSaveSectors, k) <==> IsSet(e.state.damagedSaveSectors, k))
  {
    var flash' := e.flash[sectorNum := AfterProgram(outcome, image)];
    if outcome.Failed? then
      var bits := SetDamagedSectorBits(SECTOR_DAMAGED, sectorNum, e.state.damagedSaveSectors);
      WriteResult(Error, Engine(e.state.(damagedSaveSectors := bits.mask), flash'))
    else
      var bits := SetDamagedSectorBits(SECTOR_OK, sectorNum, e.state.damagedSaveSectors);
      WriteResult(Ok, Engine(e.state.(damagedSaveSectors := bits.mask), flash'))
  }

  /** A sector that carries chunk `chunk` as chunk id `id` of generation `counter`. */
  predicate Carries(s: SaveSector, chunk: seq<u8>, id: u16, counter: u32) {
    && |chunk| <= SECTOR_DATA_SIZE && |chunk| <= |s.data|
    && s.security == SECTOR_SECURITY_NUM
    && s.id == id
    && s.counter == counter
    && s.data[..|chunk|] == chunk
    && s.checksum == Checksum(s.data, |chunk|)
  }

  /** The image of chunk `id` stamped with the current counter. */
  function ChunkImage(chunks: Chunks, id: u16, counter: u32): (s: SaveSector)
    requires WellSizedChunks(chunks) && id < NUM_SECTORS_PER_SLOT
    ensures WellFormedSector(s) && Carries(s, chunks[id], id, counter)
  {
    SectorImage(chunks[id], id, counter)
  }

  /** Write chunk `sectorId` to its rotated sector in the slot of the current counter. */
  function HandleWriteSector(sectorId: u16, chunks: Chunks, outcome: ProgramOutcome, e: Engine): (r: WriteResult)
    requires WellSizedChunks(chunks) && sectorId < NUM_SECTORS_PER_SLOT
    ensures r.status == Ok <==> outcome.Programmed?
    ensures r.engine.state == e.state.(damagedSaveSectors := r.engine.state.damagedSaveSectors)
    ensures var n := SectorNumber(sectorId, e.state.lastWrittenSector, e.state.saveCounter);
      && r.engine.flash == e.flash[n := AfterProgram(outcome, ChunkImage(chunks, sectorId, e.state.saveCounter))]
      && (IsSet(r.engine.state.damagedSaveSectors, n) <==> outcome.Failed?)
      && forall k :: 0 <= k < 32 && k != n ==>
           (IsSet(r.engine.state.damagedSaveSectors, k) <==> IsSet(e.state.damagedSaveSectors, k))
  {
    var n := SectorNumber(sectorId, e.state.lastWrittenSector, e.state.saveCounter);
    TryWriteSector(n, ChunkImage(chunks, sectorId, e.state.saveCounter), outcome, e)
  }

  // ---- Several sectors ----

  /** Sector n is one of those written for chunk ids 0..count-1 under the engine's placement. */
  predicate WrittenBy(n: int, count: nat, st: EngineState) {
    InSlot(n, st.saveCounter % 2) && ChunkIdAt(n, st.lastWrittenSector) < count
  }

  /** Writing one more chunk id adds exactly the sector the placement puts it on. */
  lemma WrittenByStep(count: nat, st: EngineState)
    requires 0 < count <= NUM_SECTORS_PER_SLOT && EngineInvariant(st)
    ensures var m := SectorNumber(count - 1, st.lastWrittenSector, st.saveCounter);
      && ChunkIdAt(m, st.lastWrittenSector) == count - 1
      && forall n :: WrittenBy(n, count, st) <==> WrittenBy(n, count - 1, st) || n == m
  {
    var id := count - 1;
    var m := SectorNumber(id, st.lastWrittenSector, st.saveCounter);
    PlacementInverse(id, st.lastWrittenSector, st.saveCounter);
    forall n
      ensures WrittenBy(n, count, st) <==> WrittenBy(n, count - 1, st) || n == m
    {
      if InSlot(n, st.saveCounter % 2) && ChunkIdAt(n, st.lastWrittenSector) == id {
        PlacementOnto(n, st.lastWrittenSector, st.saveCounter);
      }
    }
  }

  /**
   * HandleWriteSector for chunk ids 0, 1, ..., count-1 in turn. Only the
   * current slot's sectors and damage bits change; WriteChunksFlash and
   * WriteChunksDamage say how.
   */
  function WriteChunks(count: nat, chunks: Chunks, outcomes: seq<ProgramOutcome>, e: Engine): (r: Engine)
    requires count <= NUM_SECTORS_PER_SLOT
    requires WellSizedChunks(chunks) && WellFormedOutcomes(outcomes) && IsFlash(e.flash)
    ensures IsFlash(r.flash)
    ensures r.state == e.state.(damagedSaveSectors := r.state.damagedSaveSectors)
    ensures forall n :: n in e.flash && !InSlot(n, e.state.saveCounter % 2) ==> r.flash[n] == e.flash[n]
    ensures forall k :: 0 <= k < 32 && !InSlot(k, e.state.saveCounter % 2) ==>
      (IsSet(r.state.damagedSaveSectors, k) <==> IsSet(e.state.damagedSaveSectors, k))
  {
    if count == 0 then e
    else
      var prev := WriteChunks(count - 1, chunks, outcomes, e);
      var id := count - 1;
      HandleWriteSector(id, chunks, outcomes[id], prev).engine
  }

  /** After writing chunk ids 0..count-1, each sector they map to holds its programmed image; every other sector is as before. */
  lemma {:induction false} WriteChunksFlash(count: nat, chunks: Chunks, outcomes: seq<ProgramOutcome>, e: Engine)
    requires count <= NUM_SECTORS_PER_SLOT && EngineInvariant(e.state)
    requires WellSizedChunks(chunks) && WellFormedOutcomes(outcomes) && IsFlash(e.flash)
    ensures var r := WriteChunks(count, chunks, outcomes, e);
      forall n :: n in e.flash ==>
        r.flash[n] == if WrittenBy(n, count, e.state)
                      then AfterProgram(outcomes[ChunkIdAt(n, e.state.lastWrittenSector)],
                                        ChunkImage(chunks, ChunkIdAt(n, e.state.lastWrittenSector), e.state.saveCounter))
                      else e.flash[n]
  {
    if count > 0 {
      WriteChunksFlash(count - 1, chunks, outcomes, e);
      WrittenByStep(count, e.state);
    }
  }

  /** After writing chunk ids 0..count-1, their sectors' damage bits record their outcomes; every other bit is as before. */
  lemma {:induction false} WriteChunksDamage(count: nat, chunks: Chunks, outcomes: seq<ProgramOutcome>, e: Engine)
    requires count <= NUM_SECTORS_PER_SLOT && EngineInvariant(e.state)
    requires WellSizedChunks(chunks) && WellFormedOutcomes(outcomes) && IsFlash(e.flash)
    ensures var r := WriteChunks(count, chunks, outcomes, e);
      forall k :: 0 <= k < 32 ==>
        (IsSet(r.state.damagedSaveSectors, k) <==>
          if WrittenBy(k, count, e.state) then outcomes[ChunkIdAt(k, e.state.lastWrittenSector)].Failed?
          else IsSet(e.state.damagedSaveSectors, k))
  {
    if count > 0 {
      WriteChunksDamage(count - 1, chunks, outcomes, e);
      WrittenByStep(count, e.state);
    }
  }

  // ---- Whole slot or single chunk ----

  /** The state a full write runs with: rollback point saved, rotation and counter advanced. */
  function Advance(st: EngineState): (st': EngineState)
    ensures EngineInvariant(st')
    ensures st'.lastKnownGoodSector == st.lastWrittenSector && st'.lastSaveCounter == st.saveCounter
    ensures st'.saveCounter == ToU32(st.saveCounter + 1)
    ensures st'.damagedSaveSectors == st.damagedSaveSectors
  {
    st.(lastKnownGoodSector := st.lastWrittenSector,
        lastSaveCounter := st.saveCounter,
        lastWrittenSector := ToU16(st.lastWrittenSector + 1) % NUM_SECTORS_PER_SLOT,
        saveCounter := ToU32(st.saveCounter + 1))
  }

  /** Writing all 14 chunks under the advanced state programs every chunk's sector and records every outcome of the slot. */
  lemma WriteAllChunks(chunks: Chunks, outcomes: seq<ProgramOutcome>, e: Engine)
    requires WellSizedChunks(chunks) && WellFormedOutcomes(outcomes) && IsFlash(e.flash)
    ensures var st' := Advance(e.state);
      var w := WriteChunks(NUM_SECTORS_PER_SLOT, chunks, outcomes, Engine(st', e.flash));
      && (forall id: u16 :: id < NUM_SECTORS_PER_SLOT ==>
            w.flash[SectorNumber(id, st'.lastWrittenSector, st'.saveCounter)]
              == AfterProgram(outcomes[id], ChunkImage(chunks, id, st'.saveCounter)))
      && (forall k :: 0 <= k < 32 ==>
            (IsSet(w.state.damagedSaveSectors, k) <==>
              if InSlot(k, st'.saveCounter % 2) then outcomes[ChunkIdAt(k, st'.lastWrittenSector)].Failed?
              else IsSet(e.state.damagedSaveSectors, k)))
  {
    var st' := Advance(e.state);
    var w := WriteChunks(NUM_SECTORS_PER_SLOT, chunks, outcomes, Engine(st', e.flash));
    WriteChunksFlash(NUM_SECTORS_PER_SLOT, chunks, outcomes, Engine(st', e.flash));
    WriteChunksDamage(NUM_SECTORS_PER_SLOT, chunks, outcomes, Engine(st', e.flash));
    forall id: u16 | id < NUM_SECTORS_PER_SLOT
      ensures w.flash[SectorNumber(id, st'.lastWrittenSector, st'.saveCounter)]
              == AfterProgram(outcomes[id], ChunkImage(chunks, id, st'.saveCounter))
    {
      PlacementInverse(id, st'.lastWrittenSector, st'.saveCounter);
    }
  }

  /**
   * FULL_SAVE_SLOT writes all 14 chunks into the other slot under a new
   * counter and rotation and rolls both back if any damage bit is set
   * afterwards; any other id writes that one chunk in place.
   */
  function WriteSaveSectorOrSlot(sectorId: u16, chunks: Chunks, outcomes: seq<ProgramOutcome>, e: Engine): (r: WriteResult)
    requires sectorId == FULL_SAVE_SLOT || sectorId < NUM_SECTORS_PER_SLOT
    requires WellSizedChunks(chunks) && WellFormedOutcomes(outcomes) && IsFlash(e.flash)
    ensures IsFlash(r.engine.flash)
    // a single chunk: only its own sector and damage bit change
    ensures sectorId != FULL_SAVE_SLOT ==>
      && r.engine.state == e.state.(damagedSaveSectors := r.engine.state.damagedSaveSectors)
      && (r.status == Ok <==> outcomes[sectorId].Programmed?)
      && var n := SectorNumber(sectorId, e.state.lastWrittenSector, e.state.saveCounter);
         r.engine.flash == e.flash[n := AfterProgram(outcomes[sectorId], ChunkImage(chunks, sectorId, e.state.saveCounter))]
    // the whole slot
    ensures sectorId == FULL_SAVE_SLOT ==>
      var st' := Advance(e.state);
      && r.engine.state.lastKnownGoodSector == e.state.lastWrittenSector
      && r.engine.state.lastSaveCounter == e.state.saveCounter
      && (r.status == Ok <==> r.engine.state.damagedSaveSectors == 0)
      && (r.status == Ok ==> r.engine.state.saveCounter == st'.saveCounter
                             && r.engine.state.lastWrittenSector == st'.lastWrittenSector)
      && (r.status != Ok ==> r.status == Error
                             && r.engine.state.saveCounter == e.state.saveCounter
                             && r.engine.state.lastWrittenSector == e.state.lastWrittenSector)
      && (forall n :: n in e.flash && !InSlot(n, st'.saveCounter % 2) ==> r.engine.flash[n] == e.flash[n])
      && (forall id: u16 :: id < NUM_SECTORS_PER_SLOT ==>
            r.engine.flash[SectorNumber(id, st'.lastWrittenSector, st'.saveCounter)]
              == AfterProgram(outcomes[id], ChunkImage(chunks, id, st'.saveCounter)))
      && (forall k :: 0 <= k < 32 ==>
            (IsSet(r.engine.state.damagedSaveSectors, k) <==>
              if InSlot(k, st'.saveCounter % 2) then outcomes[ChunkIdAt(k, st'.lastWrittenSector)].Failed?
              else IsSet(e.state.damagedSaveSectors, k)))
  {
    if sectorId != FULL_SAVE_SLOT then
      HandleWriteSector(sectorId, chunks, outcomes[sectorId], e)
    else
      var st' := Advance(e.state);
      var w := WriteChunks(NUM_SECTORS_PER_SLOT, chunks, outcomes, Engine(st', e.flash));
      WriteAllChunks(chunks, outcomes, e);
      if w.state.damagedSaveSectors != 0 then
        WriteResult(Error, Engine(w.state.(lastWrittenSector := st'.lastKnownGoodSector,
                                           saveCounter := st'.lastSaveCounter), w.flash))
      else
        WriteResult(Ok, w)
  }

  /** BerryFix_Save: the mode picks the whole slot, chunks 0-4 one by one, or chunk 0 alone. */
  function Save(mode: u8, chunks: Chunks, outcomes: seq<ProgramOutcome>, e: Engine): (r: Engine)
    requires WellSizedChunks(chunks) && WellFormedOutcomes(outcomes) && IsFlash(e.flash)
    ensures IsFlash(r.flash)
    // the partial modes write in place: no counter, rotation or slot change
    ensures mode == SAVE_SAVEBLOCKS || mode == SAVE_SAVEBLOCK2 ==>
      r.state == e.state.(damagedSaveSectors := r.state.damagedSaveSectors)
    ensures mode == SAVE_SAVEBLOCKS && EngineInvariant(e.state) ==> forall n :: n in e.flash ==>
      r.flash[n] == if WrittenBy(n, 5, e.state)
                    then AfterProgram(outcomes[ChunkIdAt(n, e.state.lastWrittenSector)],
                                      ChunkImage(chunks, ChunkIdAt(n, e.state.lastWrittenSector), e.state.saveCounter))
                    else e.flash[n]
    ensures mode == SAVE_SAVEBLOCK2 ==>
      r.flash == e.flash[SectorNumber(0, e.state.lastWrittenSector, e.state.saveCounter)
                           := AfterProgram(outcomes[0], ChunkImage(chunks, 0, e.state.saveCounter))]
    // every other mode is a full-slot write, which records its rollback point
    ensures mode != SAVE_SAVEBLOCKS && mode != SAVE_SAVEBLOCK2 ==>
      && r == WriteSaveSectorOrSlot(FULL_SAVE_SLOT, chunks, outcomes, e).engine
      && r.state.lastKnownGoodSector == e.state.lastWrittenSector && r.state.lastSaveCounter == e.state.saveCounter
  {
    if mode == SAVE_SAVEBLOCKS then
      SaveBlocksFlash(chunks, outcomes, e);
      WriteChunks(5, chunks, outcomes, e)
    else if mode == SAVE_SAVEBLOCK2 then
      WriteSaveSectorOrSlot(0, chunks, outcomes, e).engine
    else
      WriteSaveSectorOrSlot(FULL_SAVE_SLOT, chunks, outcomes, e).engine
  }

  /** The SAVE_SAVEBLOCKS loop on an engine whose rotation offset is below 14 programs the sectors of chunks 0-4 and nothing else. */
  lemma SaveBlocksFlash(chunks: Chunks, outcomes: seq<ProgramOutcome>, e: Engine)
    requires WellSizedChunks(chunks) && WellFormedOutcomes(outcomes) && IsFlash(e.flash)
    ensures var r := WriteChunks(5, chunks, outcomes, e);
      EngineInvariant(e.state) ==> forall n :: n in e.flash ==>
        r.flash[n] == if WrittenBy(n, 5, e.state)
                      then AfterProgram(outcomes[ChunkIdAt(n, e.state.lastWrittenSector)],
                                        ChunkImage(chunks, ChunkIdAt(n, e.state.lastWrittenSector), e.state.saveCounter))
                      else e.flash[n]
  {
    if EngineInvariant(e.state) {
      WriteChunksFlash(5, chunks, outcomes, e);
    }
  }

  /** BerryFix_TrySave: OK exactly when no damage bit at all is set afterwards. */
  function TrySave(mode: u8, chunks: Chunks, outcomes: seq<ProgramOutcome>, e: Engine): (r: WriteResult)
    requires WellSizedChunks(chunks) && WellFormedOutcomes(outcomes) && IsFlash(e.flash)
    ensures IsFlash(r.engine.flash)
    ensures r.status == Ok <==> r.engine.state.damagedSaveSectors == 0
    ensures r.status != Ok ==> r.status == Error
    ensures mode != SAVE_SAVEBLOCKS && mode != SAVE_SAVEBLOCK2 ==>
      r == WriteSaveSectorOrSlot(FULL_SAVE_SLOT, chunks, outcomes, e)
  {
    var e' := Save(mode, chunks, outcomes, e);
    if e'.state.damagedSaveSectors == 0 then WriteResult(Ok, e') else WriteResult(Error, e')
  }
}
