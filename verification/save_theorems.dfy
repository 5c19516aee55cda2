/**
 * Properties that relate writing and reading: a full write that programs
 * every sector is read back intact, a failed or stale-damaged write rolls
 * the counter and rotation back, and the rotation offset stays in range.
 */
module SaveTheorems {
  import opened CInts
  import opened SaveLayout
  import opened SectorCodec
  import opened SlotWriter
  import opened SlotValidator

  /** The flash driver reports success for every sector. */
  predicate AllProgrammed(o: seq<ProgramOutcome>) {
    |o| == NUM_SECTORS_PER_SLOT && forall i :: 0 <= i < |o| ==> o[i].Programmed?
  }

  /** The slot a full write targets and the rotation it uses. */
  function TargetSlot(st: EngineState): nat {
    SlotOf(Advance(st).saveCounter)
  }

  /** The previous generation sits in the other slot: the counter's parity flips, even across the 32-bit wrap. */
  lemma TargetIsOtherSlot(st: EngineState)
    ensures TargetSlot(st) == 1 - SlotOf(st.saveCounter)
  {
  }

  /** No sector of the previous slot belongs to the slot a full write targets. */
  lemma PreviousSlotOutsideTarget(st: EngineState, i: nat)
    requires i < NUM_SECTORS_PER_SLOT
    ensures !InSlot(NUM_SECTORS_PER_SLOT * SlotOf(st.saveCounter) + i, Advance(st).saveCounter % 2)
  {
    TargetIsOtherSlot(st);
  }

  /** Every image a full write programs carries the magic, its id and a checksum over its chunk's table length. */
  lemma ImageIsValid(chunks: Chunks, id: u16, counter: u32)
    requires WellSizedChunks(chunks) && id < NUM_SECTORS_PER_SLOT
    ensures var s := ChunkImage(chunks, id, counter);
      && WellFormedSector(s)
      && s.security == SECTOR_SECURITY_NUM && s.id == id && s.counter == counter
      && ChunkBytes(s, id) == chunks[id]
      && (ChunkTable(); s.checksum == Checksum(s.data, CHUNK_SIZES[id]))
  {
  }

  // ---- A slot of images ----

  /** Sector i of the slot holds the image of the chunk the rotation puts there, all under one counter. */
  predicate ImageSlot(ss: seq<SaveSector>, chunks: Chunks, slot: nat, lastWritten: u16, counter: u32)
    requires WellSizedChunks(chunks)
  {
    && |ss| == NUM_SECTORS_PER_SLOT
    && forall i :: 0 <= i < NUM_SECTORS_PER_SLOT ==>
         ss[i] == ChunkImage(chunks, ChunkIdAt(NUM_SECTORS_PER_SLOT * slot + i, lastWritten), counter)
  }

  /** The sector of a slot that the rotation puts chunk k on. */
  function SlotIndexOf(k: nat, slot: nat, lastWritten: u16): (i: nat)
    requires k < NUM_SECTORS_PER_SLOT && slot < NUM_SAVE_SLOTS && lastWritten < NUM_SECTORS_PER_SLOT
    ensures i < NUM_SECTORS_PER_SLOT
    ensures ChunkIdAt(NUM_SECTORS_PER_SLOT * slot + i, lastWritten) == k
  {
    PlacementInverse(k, lastWritten, slot);
    SectorNumber(k, lastWritten, slot) - NUM_SECTORS_PER_SLOT * slot
  }

  /** Within one slot, distinct sectors carry distinct rotated chunk ids. */
  lemma SlotIdsDistinct(slot: nat, lastWritten: u16, i: nat, j: nat)
    requires slot < NUM_SAVE_SLOTS && lastWritten < NUM_SECTORS_PER_SLOT
    requires i < NUM_SECTORS_PER_SLOT && j < NUM_SECTORS_PER_SLOT && i != j
    ensures ChunkIdAt(NUM_SECTORS_PER_SLOT * slot + i, lastWritten) != ChunkIdAt(NUM_SECTORS_PER_SLOT * slot + j, lastWritten)
  {
    PlacementOnto(NUM_SECTORS_PER_SLOT * slot + i, lastWritten, slot);
    PlacementOnto(NUM_SECTORS_PER_SLOT * slot + j, lastWritten, slot);
  }

  lemma ImageSlotReadable(ss: seq<SaveSector>, chunks: Chunks, slot: nat, lastWritten: u16, counter: u32)
    requires WellSizedChunks(chunks) && ImageSlot(ss, chunks, slot, lastWritten, counter)
    ensures ReadableSlot(ss)
  {
  }

  /**
   * Against the checksums `sums`, sector i of the slot is valid and holds the
   * chunk the rotation puts there, with that chunk's bytes, under `counter`.
   */
  predicate RotatedAt(ss: seq<SaveSector>, sums: seq<u16>, chunks: Chunks, slot: nat, lastWritten: u16, counter: u32, i: nat)
    requires WellSizedChunks(chunks) && ReadableSlot(ss) && i < |ss| == |sums|
  {
    var k := ChunkIdAt(NUM_SECTORS_PER_SLOT * slot + i, lastWritten);
    && Holds(ss, sums, i, k)
    && ss[i].counter == counter
    && ChunkBytes(ss[i], k) == chunks[k]
  }

  /** A readable slot every sector of which is rotated in place. */
  predicate RotatedSlot(ss: seq<SaveSector>, sums: seq<u16>, chunks: Chunks, slot: nat, lastWritten: u16, counter: u32)
    requires WellSizedChunks(chunks)
  {
    && ReadableSlot(ss) && |sums| == |ss|
    && forall i :: 0 <= i < NUM_SECTORS_PER_SLOT ==> RotatedAt(ss, sums, chunks, slot, lastWritten, counter, i)
  }

  /** Sector i of an image slot is valid against the recomputed checksums and carries its chunk. */
  lemma ImageSlotSector(ss: seq<SaveSector>, chunks: Chunks, slot: nat, lastWritten: u16, counter: u32, i: nat)
    requires WellSizedChunks(chunks) && ImageSlot(ss, chunks, slot, lastWritten, counter) && i < NUM_SECTORS_PER_SLOT
    ensures ReadableSlot(ss) && RotatedAt(ss, Recomputed(ss), chunks, slot, lastWritten, counter, i)
  {
    ImageSlotReadable(ss, chunks, slot, lastWritten, counter);
    ImageIsValid(chunks, ChunkIdAt(NUM_SECTORS_PER_SLOT * slot + i, lastWritten), counter);
    RecomputedAt(ss, i);
  }

  /** Every image slot is a rotated slot under its recomputed checksums. */
  lemma ImageSlotIsRotated(ss: seq<SaveSector>, chunks: Chunks, slot: nat, lastWritten: u16, counter: u32)
    requires WellSizedChunks(chunks) && ImageSlot(ss, chunks, slot, lastWritten, counter)
    ensures ReadableSlot(ss) && RotatedSlot(ss, Recomputed(ss), chunks, slot, lastWritten, counter)
  {
    ImageSlotReadable(ss, chunks, slot, lastWritten, counter);
    var sums := Recomputed(ss);
    forall i | 0 <= i < NUM_SECTORS_PER_SLOT
      ensures RotatedAt(ss, sums, chunks, slot, lastWritten, counter, i)
    {
      ImageSlotSector(ss, chunks, slot, lastWritten, counter, i);
    }
  }

  /** A rotated slot validates as OK with its counter. */
  lemma RotatedSlotIsOk(ss: seq<SaveSector>, sums: seq<u16>, chunks: Chunks, slot: nat, lastWritten: u16, counter: u32)
    requires WellSizedChunks(chunks) && slot < NUM_SAVE_SLOTS && lastWritten < NUM_SECTORS_PER_SLOT
    requires RotatedSlot(ss, sums, chunks, slot, lastWritten, counter)
    ensures ValidateSlot(ss, sums) == SlotVerdict(Ok, counter)
  {
    forall k | 0 <= k < NUM_SECTORS_PER_SLOT
      ensures Covered(ss, sums, k)
    {
      var i := SlotIndexOf(k, slot, lastWritten);
      assert RotatedAt(ss, sums, chunks, slot, lastWritten, counter, i);
    }
    assert RotatedAt(ss, sums, chunks, slot, lastWritten, counter, NUM_SECTORS_PER_SLOT - 1);
  }

  /** Copying a rotated slot puts chunk k's bytes back. */
  lemma RotatedSlotCopyChunk(ss: seq<SaveSector>, sums: seq<u16>, chunks: Chunks, slot: nat, lastWritten: u16, counter: u32,
                             buffers: Chunks, start: u16, k: nat)
    requires WellSizedChunks(chunks) && WellSizedChunks(buffers)
    requires slot < NUM_SAVE_SLOTS && lastWritten < NUM_SECTORS_PER_SLOT && k < NUM_SECTORS_PER_SLOT
    requires RotatedSlot(ss, sums, chunks, slot, lastWritten, counter)
    ensures CopySectors(ss, sums, NUM_SECTORS_PER_SLOT, buffers, start).chunks[k] == chunks[k]
  {
    var i := SlotIndexOf(k, slot, lastWritten);
    assert RotatedAt(ss, sums, chunks, slot, lastWritten, counter, i);
    forall j | i < j < NUM_SECTORS_PER_SLOT
      ensures !Holds(ss, sums, j, k)
    {
      SlotIdsDistinct(slot, lastWritten, i, j);
      assert RotatedAt(ss, sums, chunks, slot, lastWritten, counter, j);
    }
    CopyTakesLastHolder(ss, sums, NUM_SECTORS_PER_SLOT, buffers, start, i, k);
  }

  /** Copying a rotated slot recovers its rotation offset: the sector carrying chunk 0. */
  lemma RotatedSlotCopyRotation(ss: seq<SaveSector>, sums: seq<u16>, chunks: Chunks, slot: nat, lastWritten: u16, counter: u32,
                                buffers: Chunks, start: u16)
    requires WellSizedChunks(chunks) && WellSizedChunks(buffers)
    requires slot < NUM_SAVE_SLOTS && lastWritten < NUM_SECTORS_PER_SLOT
    requires RotatedSlot(ss, sums, chunks, slot, lastWritten, counter)
    ensures CopySectors(ss, sums, NUM_SECTORS_PER_SLOT, buffers, start).lastWrittenSector == lastWritten
  {
    var zero := SlotIndexOf(0, slot, lastWritten);
    ChunkZeroAtOffset(slot, lastWritten);
    assert RotatedAt(ss, sums, chunks, slot, lastWritten, counter, zero);
    assert ss[zero].id == 0;
    NoLaterChunkZero(ss, sums, chunks, slot, lastWritten, counter, zero);
    CopyRotation(ss, sums, NUM_SECTORS_PER_SLOT, buffers, start);
  }

  /** The rotation puts chunk 0 on the slot's sector lastWritten. */
  lemma ChunkZeroAtOffset(slot: nat, lastWritten: u16)
    requires slot < NUM_SAVE_SLOTS && lastWritten < NUM_SECTORS_PER_SLOT
    ensures SlotIndexOf(0, slot, lastWritten) == lastWritten
  {
    InRangeU16(lastWritten);
    assert SectorNumber(0, lastWritten, slot) == lastWritten + NUM_SECTORS_PER_SLOT * slot;
  }

  /** In a rotated slot no sector after the one carrying chunk 0 carries chunk 0. */
  lemma NoLaterChunkZero(ss: seq<SaveSector>, sums: seq<u16>, chunks: Chunks, slot: nat, lastWritten: u16, counter: u32, zero: nat)
    requires WellSizedChunks(chunks) && slot < NUM_SAVE_SLOTS && lastWritten < NUM_SECTORS_PER_SLOT
    requires RotatedSlot(ss, sums, chunks, slot, lastWritten, counter)
    requires zero == SlotIndexOf(0, slot, lastWritten)
    ensures forall j :: zero < j < NUM_SECTORS_PER_SLOT ==> ss[j].id != 0
  {
    forall j | zero < j < NUM_SECTORS_PER_SLOT
      ensures ss[j].id != 0
    {
      SlotIdsDistinct(slot, lastWritten, zero, j);
      assert RotatedAt(ss, sums, chunks, slot, lastWritten, counter, j);
    }
  }

  /** Copying a rotated slot restores every chunk and the rotation offset the slot was written with. */
  lemma RotatedSlotCopy(ss: seq<SaveSector>, sums: seq<u16>, chunks: Chunks, slot: nat, lastWritten: u16, counter: u32,
                        buffers: Chunks, start: u16)
    requires WellSizedChunks(chunks) && WellSizedChunks(buffers)
    requires slot < NUM_SAVE_SLOTS && lastWritten < NUM_SECTORS_PER_SLOT
    requires RotatedSlot(ss, sums, chunks, slot, lastWritten, counter)
    ensures CopySectors(ss, sums, NUM_SECTORS_PER_SLOT, buffers, start) == Restored(chunks, lastWritten)
  {
    var r := CopySectors(ss, sums, NUM_SECTORS_PER_SLOT, buffers, start);
    forall k | 0 <= k < NUM_SECTORS_PER_SLOT
      ensures r.chunks[k] == chunks[k]
    {
      RotatedSlotCopyChunk(ss, sums, chunks, slot, lastWritten, counter, buffers, start, k);
    }
    RotatedSlotCopyRotation(ss, sums, chunks, slot, lastWritten, counter, buffers, start);
  }

  // ---- A full write ----

  /** A fully programmed write leaves an image slot, rotated and stamped with the advanced state, in the target slot. */
  lemma FullWriteImageSlot(chunks: Chunks, outcomes: seq<ProgramOutcome>, e: Engine)
    requires WellSizedChunks(chunks) && AllProgrammed(outcomes) && IsFlash(e.flash)
    ensures var st' := Advance(e.state);
      ImageSlot(SlotSectors(WriteSaveSectorOrSlot(FULL_SAVE_SLOT, chunks, outcomes, e).engine.flash, TargetSlot(e.state)),
                chunks, TargetSlot(e.state), st'.lastWrittenSector, st'.saveCounter)
  {
    var st' := Advance(e.state);
    var w := WriteSaveSectorOrSlot(FULL_SAVE_SLOT, chunks, outcomes, e).engine;
    var t := TargetSlot(e.state);
    forall i | 0 <= i < NUM_SECTORS_PER_SLOT
      ensures SlotSectors(w.flash, t)[i] == ChunkImage(chunks, ChunkIdAt(NUM_SECTORS_PER_SLOT * t + i, st'.lastWrittenSector), st'.saveCounter)
    {
      var n := NUM_SECTORS_PER_SLOT * t + i;
      PlacementOnto(n, st'.lastWrittenSector, st'.saveCounter);
      var id: u16 := ChunkIdAt(n, st'.lastWrittenSector);
      assert SectorNumber(id, st'.lastWrittenSector, st'.saveCounter) == n;
    }
  }

  /** A full write never touches the slot it does not target. */
  lemma FullWriteKeepsOtherSlot(chunks: Chunks, outcomes: seq<ProgramOutcome>, e: Engine)
    requires WellSizedChunks(chunks) && WellFormedOutcomes(outcomes) && IsFlash(e.flash)
    ensures SlotSectors(WriteSaveSectorOrSlot(FULL_SAVE_SLOT, chunks, outcomes, e).engine.flash, SlotOf(e.state.saveCounter))
         == SlotSectors(e.flash, SlotOf(e.state.saveCounter))
  {
    var w := WriteSaveSectorOrSlot(FULL_SAVE_SLOT, chunks, outcomes, e).engine;
    var s := SlotOf(e.state.saveCounter);
    TargetIsOtherSlot(e.state);
    forall i | 0 <= i < NUM_SECTORS_PER_SLOT
      ensures SlotSectors(w.flash, s)[i] == SlotSectors(e.flash, s)[i]
    {
      PreviousSlotOutsideTarget(e.state, i);
    }
  }

  /**
   * The previous slot does not outrank the new generation: it is not OK, or
   * it is OK with the counter the engine held before the write.
   */
  predicate PreviousSlotNotNewer(e: Engine)
    requires ReadableFlash(e.flash)
  {
    var v := SlotVerdictOf(e.flash, SlotOf(e.state.saveCounter));
    v.status != Ok || v.counter == e.state.saveCounter
  }

  /**
   * With one slot OK under a counter that outranks the other slot's, resolution
   * picks that counter; it reports ERROR exactly when the other slot is in error.
   */
  lemma ResolutionPicksNewer(flash: Flash, st: EngineState, t: nat, o: nat, newer: u32, older: u32)
    requires ReadableFlash(flash) && t < NUM_SAVE_SLOTS && o == 1 - t
    requires MostRecentCounter(older, newer) == newer && MostRecentCounter(newer, older) == newer
    requires SlotVerdictOf(flash, t) == SlotVerdict(Ok, newer)
    requires SlotVerdictOf(flash, o).status != Ok || SlotVerdictOf(flash, o).counter == older
    ensures GetSaveValidStatus(flash, st).state.saveCounter == newer
    ensures GetSaveValidStatus(flash, st).status == if SlotVerdictOf(flash, o).status == Error then Error else Ok
  {
    if t == 0 {
      assert o == 1;
    } else {
      assert t == 1 && o == 0;
    }
  }

  /** A chip is readable when both its slots are. */
  lemma ReadableFromSlots(flash: Flash, t: nat, o: nat)
    requires IsFlash(flash) && t < NUM_SAVE_SLOTS && o == 1 - t
    requires ReadableSlot(SlotSectors(flash, t)) && ReadableSlot(SlotSectors(flash, o))
    ensures ReadableFlash(flash)
  {
    if t == 0 {
      assert o == 1;
    } else {
      assert t == 1 && o == 0;
    }
  }

  /** After a fully programmed write the chip is readable: the new slot is OK under c+1 and the old one is as it was. */
  lemma FullWriteVerdicts(chunks: Chunks, outcomes: seq<ProgramOutcome>, e: Engine)
    requires WellSizedChunks(chunks) && AllProgrammed(outcomes) && ReadableFlash(e.flash)
    ensures var w := WriteSaveSectorOrSlot(FULL_SAVE_SLOT, chunks, outcomes, e).engine;
      && ReadableFlash(w.flash)
      && SlotVerdictOf(w.flash, TargetSlot(e.state)) == SlotVerdict(Ok, Advance(e.state).saveCounter)
      && SlotVerdictOf(w.flash, SlotOf(e.state.saveCounter)) == SlotVerdictOf(e.flash, SlotOf(e.state.saveCounter))
  {
    var st' := Advance(e.state);
    var w := WriteSaveSectorOrSlot(FULL_SAVE_SLOT, chunks, outcomes, e).engine;
    var t, p := TargetSlot(e.state), SlotOf(e.state.saveCounter);
    TargetIsOtherSlot(e.state);
    FullWriteImageSlot(chunks, outcomes, e);
    ImageSlotIsRotated(SlotSectors(w.flash, t), chunks, t, st'.lastWrittenSector, st'.saveCounter);
    RotatedSlotIsOk(SlotSectors(w.flash, t), Recomputed(SlotSectors(w.flash, t)), chunks, t, st'.lastWrittenSector, st'.saveCounter);
    FullWriteKeepsOtherSlot(chunks, outcomes, e);
    assert ReadableSlot(SlotSectors(e.flash, p));
    ReadableFromSlots(w.flash, t, p);
  }

  /** The counter a write advances to outranks the one it replaces. */
  lemma AdvanceWins(st: EngineState)
    ensures MostRecentCounter(st.saveCounter, Advance(st).saveCounter) == Advance(st).saveCounter
    ensures MostRecentCounter(Advance(st).saveCounter, st.saveCounter) == Advance(st).saveCounter
  {
    NextGenerationWins(st.saveCounter, Advance(st).saveCounter);
  }

  /**
   * After a fully programmed write, resolution selects the new generation
   * unless the previous slot holds a newer one.
   */
  lemma ResolutionAfterWrite(chunks: Chunks, outcomes: seq<ProgramOutcome>, e: Engine, st: EngineState)
    requires WellSizedChunks(chunks) && AllProgrammed(outcomes) && ReadableFlash(e.flash)
    requires PreviousSlotNotNewer(e)
    ensures var w := WriteSaveSectorOrSlot(FULL_SAVE_SLOT, chunks, outcomes, e).engine;
      && ReadableFlash(w.flash)
      && GetSaveValidStatus(w.flash, st).state.saveCounter == Advance(e.state).saveCounter
      && GetSaveValidStatus(w.flash, st).status
           == (if SlotVerdictOf(e.flash, SlotOf(e.state.saveCounter)).status == Error then Error else Ok)
  {
    AdvanceWins(e.state);
    var w := WriteSaveSectorOrSlot(FULL_SAVE_SLOT, chunks, outcomes, e).engine;
    var t, o := TargetSlot(e.state), SlotOf(e.state.saveCounter);
    var newer, older := Advance(e.state).saveCounter, e.state.saveCounter;
    FullWriteVerdicts(chunks, outcomes, e);
    TargetIsOtherSlot(e.state);
    ResolutionPicksNewer(w.flash, st, t, o, newer, older);
  }

  /**
   * Write-then-load round trip: a full write in which every sector programs,
   * followed by a full load, puts every chunk's bytes back, and restores the
   * new counter and rotation offset.
   */
  lemma WriteThenLoad(chunks: Chunks, buffers: Chunks, outcomes: seq<ProgramOutcome>, e: Engine)
    requires WellSizedChunks(chunks) && WellSizedChunks(buffers) && AllProgrammed(outcomes)
    requires ReadableFlash(e.flash) && PreviousSlotNotNewer(e)
    ensures var w := WriteSaveSectorOrSlot(FULL_SAVE_SLOT, chunks, outcomes, e).engine;
      && ReadableFlash(w.flash)
      && var l := TryLoadSaveSlot(FULL_SAVE_SLOT, buffers, w);
      && l.chunks == chunks
      && l.engine.state.saveCounter == Advance(e.state).saveCounter
      && l.engine.state.lastWrittenSector == Advance(e.state).lastWrittenSector
      && l.status in {Ok, Error}
  {
    var st' := Advance(e.state);
    var w := WriteSaveSectorOrSlot(FULL_SAVE_SLOT, chunks, outcomes, e).engine;
    var t := TargetSlot(e.state);
    ResolutionAfterWrite(chunks, outcomes, e, w.state);
    FullWriteImageSlot(chunks, outcomes, e);
    var ss := LoadedSlot(w);
    assert ss == SlotSectors(w.flash, t);
    LoadIsCopy(buffers, w);
    ImageSlotIsRotated(ss, chunks, t, st'.lastWrittenSector, st'.saveCounter);
    RotatedSlotCopy(ss, Recomputed(ss), chunks, t, st'.lastWrittenSector, st'.saveCounter, buffers,
                    GetSaveValidStatus(w.flash, w.state).state.lastWrittenSector);
  }

  /** A full write in which every sector programs reports OK exactly when no damage bit outside the target slot was left set. */
  lemma CleanWriteStatus(chunks: Chunks, outcomes: seq<ProgramOutcome>, e: Engine)
    requires WellSizedChunks(chunks) && AllProgrammed(outcomes) && IsFlash(e.flash)
    ensures var r := WriteSaveSectorOrSlot(FULL_SAVE_SLOT, chunks, outcomes, e);
      r.status == Ok <==>
        forall k :: 0 <= k < 32 && !InSlot(k, TargetSlot(e.state)) ==> !IsSet(e.state.damagedSaveSectors, k)
  {
    var r := WriteSaveSectorOrSlot(FULL_SAVE_SLOT, chunks, outcomes, e);
    var m := r.engine.state.damagedSaveSectors;
    if m == 0 {
      NoBitOfZero(m);
    } else {
      var k := SomeBitOfNonZero(m);
    }
  }

  /**
   * A damage bit left set by an earlier call, on a sector outside the slot
   * being written, makes a full write report ERROR and roll back, whatever
   * the driver reports now.
   */
  lemma StaleDamageForcesError(chunks: Chunks, outcomes: seq<ProgramOutcome>, e: Engine, k: nat)
    requires WellSizedChunks(chunks) && WellFormedOutcomes(outcomes) && IsFlash(e.flash)
    requires k < 32 && !InSlot(k, TargetSlot(e.state)) && IsSet(e.state.damagedSaveSectors, k)
    ensures var r := WriteSaveSectorOrSlot(FULL_SAVE_SLOT, chunks, outcomes, e);
      && r.status == Error
      && r.engine.state.saveCounter == e.state.saveCounter
      && r.engine.state.lastWrittenSector == e.state.lastWrittenSector
  {
    var r := WriteSaveSectorOrSlot(FULL_SAVE_SLOT, chunks, outcomes, e);
    if r.engine.state.damagedSaveSectors == 0 {
      NoBitOfZero(r.engine.state.damagedSaveSectors);
    }
  }

  /** A program failure on any chunk makes a full write report ERROR and restore counter and rotation. */
  lemma FailedWriteRollsBack(chunks: Chunks, outcomes: seq<ProgramOutcome>, e: Engine, id: nat)
    requires WellSizedChunks(chunks) && WellFormedOutcomes(outcomes) && IsFlash(e.flash)
    requires id < NUM_SECTORS_PER_SLOT && outcomes[id].Failed?
    ensures var r := WriteSaveSectorOrSlot(FULL_SAVE_SLOT, chunks, outcomes, e);
      && r.status == Error
      && r.engine.state.saveCounter == e.state.saveCounter
      && r.engine.state.lastWrittenSector == e.state.lastWrittenSector
      && SlotSectors(r.engine.flash, SlotOf(e.state.saveCounter)) == SlotSectors(e.flash, SlotOf(e.state.saveCounter))
  {
    var st' := Advance(e.state);
    var r := WriteSaveSectorOrSlot(FULL_SAVE_SLOT, chunks, outcomes, e);
    PlacementInverse(id, st'.lastWrittenSector, st'.saveCounter);
    var n := SectorNumber(id, st'.lastWrittenSector, st'.saveCounter);
    assert IsSet(r.engine.state.damagedSaveSectors, n);
    if r.engine.state.damagedSaveSectors == 0 {
      NoBitOfZero(r.engine.state.damagedSaveSectors);
    }
    FullWriteKeepsOtherSlot(chunks, outcomes, e);
  }

  /** Every engine operation keeps the rotation offset below 14. */
  lemma InvariantPreserved(sectorId: u16, chunks: Chunks, outcomes: seq<ProgramOutcome>, e: Engine)
    requires sectorId == FULL_SAVE_SLOT || sectorId < NUM_SECTORS_PER_SLOT
    requires WellSizedChunks(chunks) && WellFormedOutcomes(outcomes) && IsFlash(e.flash)
    requires EngineInvariant(e.state)
    ensures EngineInvariant(WriteSaveSectorOrSlot(sectorId, chunks, outcomes, e).engine.state)
    ensures ReadableFlash(e.flash) ==> EngineInvariant(GetSaveValidStatus(e.flash, e.state).state)
    ensures ReadableFlash(e.flash) && WellSizedChunks(chunks) ==>
      EngineInvariant(TryLoadSaveSlot(sectorId, chunks, e).engine.state)
  {
    if ReadableFlash(e.flash) {
      var res := GetSaveValidStatus(e.flash, e.state);
      var ss := LoadedSlot(e);
      var copy := CopySectors(ss, Recomputed(ss), |ss|, chunks, res.state.lastWrittenSector);
      LoadIsCopy(chunks, e);
    }
  }
}
