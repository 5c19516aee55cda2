/**
 * Reading flash back: the per-slot scan and the two-slot resolution of
 * GetSaveValidStatus, the partial-recovery copy of CopySaveSlotData and
 * TryLoadSaveSlot. Nothing here changes the flash.
 *
 * The scans work on the 14 sectors of one slot together with the checksums
 * recomputed from their data, so that the loop logic is stated apart from
 * the checksum arithmetic.
 */
module SlotValidator {
  import opened CInts
  import opened SaveLayout
  import opened SectorCodec

  /**
   * The sectors of one slot as the scans read them. A sector carrying the
   * magic has its id used as an index into the chunk table without a bounds
   * check, so such ids must name a table entry.
   */
  predicate ReadableSlot(ss: seq<SaveSector>) {
    && |ss| == NUM_SECTORS_PER_SLOT
    && (forall i :: 0 <= i < |ss| ==> WellFormedSector(ss[i]))
    && (forall i :: 0 <= i < |ss| ==> ss[i].security == SECTOR_SECURITY_NUM ==> ss[i].id < NUM_SECTORS_PER_SLOT)
  }

  /** Sectors 14*slot .. 14*slot+13 of the chip. */
  function SlotSectors(flash: Flash, slot: nat): (ss: seq<SaveSector>)
    requires IsFlash(flash) && slot < NUM_SAVE_SLOTS
    ensures |ss| == NUM_SECTORS_PER_SLOT
    ensures forall i :: 0 <= i < NUM_SECTORS_PER_SLOT ==> ss[i] == flash[NUM_SECTORS_PER_SLOT * slot + i]
  {
    seq(NUM_SECTORS_PER_SLOT, i requires 0 <= i < NUM_SECTORS_PER_SLOT => flash[NUM_SECTORS_PER_SLOT * slot + i])
  }

  predicate ReadableFlash(flash: Flash) {
    IsFlash(flash) && forall slot :: 0 <= slot < NUM_SAVE_SLOTS ==> ReadableSlot(SlotSectors(flash, slot))
  }

  /**
   * The checksum the scan recomputes for each sector: over the table length
   * of the chunk its id names, for sectors carrying the magic (the others
   * are never compared).
   */
  function Recomputed(ss: seq<SaveSector>): (sums: seq<u16>)
    requires ReadableSlot(ss)
    ensures |sums| == |ss|
  {
    ChunkTable();
    seq(|ss|, i requires 0 <= i < |ss| =>
      if ss[i].security == SECTOR_SECURITY_NUM then Checksum(ss[i].data, CHUNK_SIZES[ss[i].id]) else 0)
  }

  /** Entry i of the recomputed checksums, for a sector carrying the magic. */
  lemma RecomputedAt(ss: seq<SaveSector>, i: nat)
    requires ReadableSlot(ss) && i < |ss| && ss[i].security == SECTOR_SECURITY_NUM
    ensures (ChunkTable(); Recomputed(ss)[i] == Checksum(ss[i].data, CHUNK_SIZES[ss[i].id]))
  {
  }

  /** Sector i is valid: it carries the magic and its stored checksum matches the recomputed one. */
  predicate ValidIn(ss: seq<SaveSector>, sums: seq<u16>, i: nat)
    requires i < |ss| == |sums|
  {
    ss[i].security == SECTOR_SECURITY_NUM && ss[i].checksum == sums[i]
  }

  /** Sector i is valid and holds chunk k. */
  predicate Holds(ss: seq<SaveSector>, sums: seq<u16>, i: nat, k: nat)
    requires i < |ss| == |sums|
  {
    ValidIn(ss, sums, i) && ss[i].id == k
  }

  datatype SlotScan = SlotScan(securityPassed: bool, validSectors: bv32, counter: u32)

  /** The scan loop of GetSaveValidStatus over the first `count` sectors of a slot. */
  function ScanSlot(ss: seq<SaveSector>, sums: seq<u16>, count: nat): (r: SlotScan)
    requires ReadableSlot(ss) && |sums| == |ss| && count <= |ss|
    ensures r.securityPassed <==> exists i :: 0 <= i < count && ss[i].security == SECTOR_SECURITY_NUM
  {
    if count == 0 then SlotScan(false, 0, 0)
    else
      var prev := ScanSlot(ss, sums, count - 1);
      var s := ss[count - 1];
      if s.security == SECTOR_SECURITY_NUM then
        if s.checksum == sums[count - 1] then
          SlotScan(true, prev.validSectors | Bit(s.id), s.counter)
        else
          SlotScan(true, prev.validSectors, prev.counter)
      else
        SlotScan(prev.securityPassed, prev.validSectors, prev.counter)
  }

  /** How one scan step changes the mask and the counter. */
  lemma ScanSlotStep(ss: seq<SaveSector>, sums: seq<u16>, count: nat)
    requires ReadableSlot(ss) && |sums| == |ss| && 0 < count <= |ss|
    ensures ValidIn(ss, sums, count - 1) ==>
      && ss[count - 1].id < 32
      && ScanSlot(ss, sums, count).validSectors == ScanSlot(ss, sums, count - 1).validSectors | Bit(ss[count - 1].id)
      && ScanSlot(ss, sums, count).counter == ss[count - 1].counter
    ensures !ValidIn(ss, sums, count - 1) ==>
      && ScanSlot(ss, sums, count).validSectors == ScanSlot(ss, sums, count - 1).validSectors
      && ScanSlot(ss, sums, count).counter == ScanSlot(ss, sums, count - 1).counter
  {
  }

  /** One scan step: the new mask has bit k iff the old one had it or this sector validly holds chunk k. */
  lemma ScanSlotBitStep(ss: seq<SaveSector>, sums: seq<u16>, count: nat, k: nat)
    requires ReadableSlot(ss) && |sums| == |ss| && 0 < count <= |ss| && k < 32
    ensures IsSet(ScanSlot(ss, sums, count).validSectors, k) <==>
      IsSet(ScanSlot(ss, sums, count - 1).validSectors, k) || Holds(ss, sums, count - 1, k)
  {
    if ValidIn(ss, sums, count - 1) {
      ScanSlotValidBit(ss, sums, count, k);
    } else {
      ScanSlotStep(ss, sums, count);
    }
  }

  /** A valid sector adds exactly its own id's bit to the mask. */
  lemma ScanSlotValidBit(ss: seq<SaveSector>, sums: seq<u16>, count: nat, k: nat)
    requires ReadableSlot(ss) && |sums| == |ss| && 0 < count <= |ss| && k < 32
    requires ValidIn(ss, sums, count - 1)
    ensures IsSet(ScanSlot(ss, sums, count).validSectors, k) <==>
      IsSet(ScanSlot(ss, sums, count - 1).validSectors, k) || ss[count - 1].id == k
  {
    var before := ScanSlot(ss, sums, count - 1).validSectors;
    var id := ss[count - 1].id;
    assert id < NUM_SECTORS_PER_SLOT;
    assert ScanSlot(ss, sums, count).validSectors == before | Bit(id);
    OrBitIff(before, id, k);
  }

  /** Bit k of the scanned mask is set exactly when some scanned sector validly holds chunk k. */
  lemma {:induction false} ScanSlotBit(ss: seq<SaveSector>, sums: seq<u16>, count: nat, k: nat)
    requires ReadableSlot(ss) && |sums| == |ss| && count <= |ss| && k < 32
    ensures IsSet(ScanSlot(ss, sums, count).validSectors, k) <==> exists i :: 0 <= i < count && Holds(ss, sums, i, k)
  {
    if count == 0 {
      NoBitOfZero(0);
    } else {
      ScanSlotBit(ss, sums, count - 1, k);
      ScanSlotBitStep(ss, sums, count, k);
    }
  }

  /** The scanned counter is that of the last valid sector, or 0 when none is valid. */
  lemma {:induction false} ScanSlotCounter(ss: seq<SaveSector>, sums: seq<u16>, count: nat)
    requires ReadableSlot(ss) && |sums| == |ss| && count <= |ss|
    ensures (forall i :: 0 <= i < count ==> !ValidIn(ss, sums, i)) ==> ScanSlot(ss, sums, count).counter == 0
    ensures forall i :: (0 <= i < count && ValidIn(ss, sums, i)
      && (forall j :: i < j < count ==> !ValidIn(ss, sums, j))) ==> ScanSlot(ss, sums, count).counter == ss[i].counter
  {
    if count > 0 {
      ScanSlotCounter(ss, sums, count - 1);
      ScanSlotStep(ss, sums, count);
    }
  }

  /** Chunk k is held by some valid sector of the slot. */
  predicate Covered(ss: seq<SaveSector>, sums: seq<u16>, k: nat)
    requires |ss| == |sums|
  {
    exists i :: 0 <= i < |ss| && Holds(ss, sums, i, k)
  }

  predicate HasMagic(ss: seq<SaveSector>) {
    exists i :: 0 <= i < |ss| && ss[i].security == SECTOR_SECURITY_NUM
  }

  /** A slot in which every chunk is held by a valid sector. */
  predicate Complete(ss: seq<SaveSector>, sums: seq<u16>)
    requires |ss| == |sums|
  {
    forall k :: 0 <= k < NUM_SECTORS_PER_SLOT ==> Covered(ss, sums, k)
  }

  /** A slot whose chunk 0 is held by a valid sector has a sector carrying the magic. */
  lemma CoveredHasMagic(ss: seq<SaveSector>, sums: seq<u16>)
    requires |ss| == |sums|
    ensures Covered(ss, sums, 0) ==> HasMagic(ss)
  {
    if Covered(ss, sums, 0) {
      var i :| 0 <= i < |ss| && Holds(ss, sums, i, 0);
      assert ss[i].security == SECTOR_SECURITY_NUM;
    }
  }

  datatype SlotVerdict = SlotVerdict(status: SaveStatus, counter: u32)

  /**
   * A slot is EMPTY when no sector carries the magic, OK when its valid
   * sectors cover every chunk id, ERROR otherwise; its counter is that of the
   * last valid sector scanned.
   */
  function ValidateSlot(ss: seq<SaveSector>, sums: seq<u16>): (v: SlotVerdict)
    requires ReadableSlot(ss) && |sums| == |ss|
    ensures v.status == Empty <==> !HasMagic(ss)
    ensures v.status == Ok <==> Complete(ss, sums)
    ensures v.status in {Empty, Ok, Error}
    ensures (forall i :: 0 <= i < |ss| ==> !ValidIn(ss, sums, i)) ==> v.counter == 0
    ensures forall i :: (0 <= i < |ss| && ValidIn(ss, sums, i)
      && (forall j :: i < j < |ss| ==> !ValidIn(ss, sums, j))) ==> v.counter == ss[i].counter
  {
    var scan := ScanSlot(ss, sums, |ss|);
    ScanSlotCounter(ss, sums, |ss|);
    forall k | 0 <= k < 32
      ensures IsSet(scan.validSectors, k) <==> exists i :: 0 <= i < |ss| && Holds(ss, sums, i, k)
    {
      ScanSlotBit(ss, sums, |ss|, k);
    }
    AllSectorsMask(scan.validSectors);
    CoveredHasMagic(ss, sums);
    assert forall k :: 0 <= k < NUM_SECTORS_PER_SLOT ==> (IsSet(scan.validSectors, k) <==> Covered(ss, sums, k));
    assert scan.validSectors == ALL_SECTORS <==> Complete(ss, sums);
    var status :=
      if !scan.securityPassed then Empty
      else if scan.validSectors == ALL_SECTORS then Ok
      else Error;
    SlotVerdict(status, scan.counter)
  }

  /** The verdict on slot `slot` of the chip, checksums recomputed from the sectors. */
  function SlotVerdictOf(flash: Flash, slot: nat): SlotVerdict
    requires ReadableFlash(flash) && slot < NUM_SAVE_SLOTS
  {
    var ss := SlotSectors(flash, slot);
    ValidateSlot(ss, Recomputed(ss))
  }

  /**
   * The counter chosen when both slots are OK: the larger one, comparing
   * counter+1 instead when the pair is {0xFFFFFFFF, 0}.
   */
  function MostRecentCounter(c1: u32, c2: u32): u32 {
    if (c1 == 0xFFFF_FFFF && c2 == 0) || (c1 == 0 && c2 == 0xFFFF_FFFF) then
      if ToU32(c1 + 1) < ToU32(c2 + 1) then c2 else c1
    else
      if c1 < c2 then c2 else c1
  }

  /** Both-OK choice: the wrap pair picks 0, every other pair picks the larger counter; the order of the slots does not matter. */
  lemma MostRecentCounterChoice(c1: u32, c2: u32)
    ensures (c1 == 0xFFFF_FFFF && c2 == 0) || (c1 == 0 && c2 == 0xFFFF_FFFF) ==> MostRecentCounter(c1, c2) == 0
    ensures !((c1 == 0xFFFF_FFFF && c2 == 0) || (c1 == 0 && c2 == 0xFFFF_FFFF)) ==>
      MostRecentCounter(c1, c2) == (if c1 < c2 then c2 else c1)
    ensures MostRecentCounter(c1, c2) == MostRecentCounter(c2, c1)
    ensures MostRecentCounter(c1, c2) in {c1, c2}
  {
  }

  /** The generation written right after counter c always wins against c, wrap included. */
  lemma NextGenerationWins(c: u32, next: u32)
    requires next == ToU32(c + 1)
    ensures MostRecentCounter(c, next) == next
    ensures MostRecentCounter(next, c) == next
  {
  }

  datatype Resolution = Resolution(status: SaveStatus, state: EngineState)

  /**
   * GetSaveValidStatus: validate both slots, then decide. Both OK: OK with
   * the most recent counter. One OK: its counter, and ERROR when the other
   * slot is in error, OK when it is empty. Neither OK: EMPTY when both are
   * empty, CORRUPT otherwise, and the counter and rotation offset are reset.
   */
  function GetSaveValidStatus(flash: Flash, st: EngineState): (r: Resolution)
    requires ReadableFlash(flash)
    ensures r.state == st.(saveCounter := r.state.saveCounter, lastWrittenSector := r.state.lastWrittenSector)
    ensures r.status in {Empty, Ok, Corrupt, Error}
    ensures var v1, v2 := SlotVerdictOf(flash, 0), SlotVerdictOf(flash, 1);
      && (r.status == Empty <==> v1.status == Empty && v2.status == Empty)
      && (r.status == Error <==> (v1.status == Ok && v2.status == Error) || (v1.status == Error && v2.status == Ok))
      && (r.status == Corrupt <==> v1.status != Ok && v2.status != Ok && !(v1.status == Empty && v2.status == Empty))
      && (v1.status == Ok || v2.status == Ok ==> r.state.lastWrittenSector == st.lastWrittenSector)
      && (v1.status != Ok && v2.status != Ok ==> r.state.saveCounter == 0 && r.state.lastWrittenSector == 0)
      && (v1.status == Ok && v2.status == Ok ==> r.state.saveCounter == MostRecentCounter(v1.counter, v2.counter))
      && (v1.status == Ok && v2.status != Ok ==> r.state.saveCounter == v1.counter)
      && (v2.status == Ok && v1.status != Ok ==> r.state.saveCounter == v2.counter)
  {
    var v1 := SlotVerdictOf(flash, 0);
    var v2 := SlotVerdictOf(flash, 1);
    if v1.status == Ok && v2.status == Ok then
      Resolution(Ok, st.(saveCounter := MostRecentCounter(v1.counter, v2.counter)))
    else if v1.status == Ok then
      Resolution(if v2.status == Error then Error else Ok, st.(saveCounter := v1.counter))
    else if v2.status == Ok then
      Resolution(if v1.status == Error then Error else Ok, st.(saveCounter := v2.counter))
    else if v1.status == Empty && v2.status == Empty then
      Resolution(Empty, st.(saveCounter := 0, lastWrittenSector := 0))
    else
      Resolution(Corrupt, st.(saveCounter := 0, lastWrittenSector := 0))
  }

  /**
   * The resolution in terms of slot contents: OK exactly when some slot is
   * complete and every slot is complete or blank; ERROR when one slot is
   * complete and the other holds an incomplete save; EMPTY when both are
   * blank; CORRUPT when neither is complete and one is not blank.
   */
  lemma ResolutionMeaning(flash: Flash, st: EngineState)
    requires ReadableFlash(flash)
    ensures var s1, s2 := SlotSectors(flash, 0), SlotSectors(flash, 1);
      var ok1, ok2 := Complete(s1, Recomputed(s1)), Complete(s2, Recomputed(s2));
      var r := GetSaveValidStatus(flash, st);
      && (r.status == Ok <==> (ok1 || ok2) && (ok1 || !HasMagic(s1)) && (ok2 || !HasMagic(s2)))
      && (r.status == Error <==> (ok1 && !ok2 && HasMagic(s2)) || (ok2 && !ok1 && HasMagic(s1)))
      && (r.status == Empty <==> !HasMagic(s1) && !HasMagic(s2))
      && (r.status == Corrupt <==> !ok1 && !ok2 && (HasMagic(s1) || HasMagic(s2)))
  {
  }

  /**
   * Resolution reads only the flash: its status and counter do not depend on
   * the engine state, and resolving again from its own result changes nothing.
   */
  lemma {:induction false} ResolutionIsIdempotent(flash: Flash, st: EngineState, other: EngineState)
    requires ReadableFlash(flash)
    ensures GetSaveValidStatus(flash, st).status == GetSaveValidStatus(flash, other).status
    ensures GetSaveValidStatus(flash, st).state.saveCounter == GetSaveValidStatus(flash, other).state.saveCounter
    ensures GetSaveValidStatus(flash, GetSaveValidStatus(flash, st).state) == GetSaveValidStatus(flash, st)
  {
    var v1 := SlotVerdictOf(flash, 0);
    var v2 := SlotVerdictOf(flash, 1);
    MostRecentCounterChoice(v1.counter, v2.counter);
  }

  // ---- Partial-recovery copy ----

  datatype Restored = Restored(chunks: Chunks, lastWrittenSector: u16)

  /** Sector i holds chunk k validly and no later sector of the first `count` does. */
  predicate LastHolder(ss: seq<SaveSector>, sums: seq<u16>, count: nat, i: nat, k: nat)
    requires count <= |ss| == |sums|
  {
    && i < count
    && Holds(ss, sums, i, k)
    && forall j :: i < j < count ==> !Holds(ss, sums, j, k)
  }

  /**
   * CopySaveSlotData over the first `count` sectors of a slot: each valid
   * sector's bytes go to its chunk's buffer, and the rotation offset becomes
   * the index of the last sector whose id field is 0, valid or not.
   */
  function CopySectors(ss: seq<SaveSector>, sums: seq<u16>, count: nat, chunks: Chunks, lastWritten: u16): (r: Restored)
    requires ReadableSlot(ss) && |sums| == |ss| && count <= |ss| && WellSizedChunks(chunks)
    ensures WellSizedChunks(r.chunks)
    ensures r.lastWrittenSector == lastWritten || r.lastWrittenSector < count
  {
    if count == 0 then Restored(chunks, lastWritten)
    else
      var prev := CopySectors(ss, sums, count - 1, chunks, lastWritten);
      var i := count - 1;
      var s := ss[i];
      var lws := if s.id == 0 then i else prev.lastWrittenSector;
      if ValidIn(ss, sums, i) then
        Restored(prev.chunks[s.id := ChunkBytes(s, s.id)], lws)
      else
        Restored(prev.chunks, lws)
  }

  /** A chunk no valid sector holds keeps its buffer. */
  lemma {:induction false} CopyKeepsUncovered(ss: seq<SaveSector>, sums: seq<u16>, count: nat, chunks: Chunks, lastWritten: u16, k: nat)
    requires ReadableSlot(ss) && |sums| == |ss| && count <= |ss| && WellSizedChunks(chunks)
    requires k < NUM_SECTORS_PER_SLOT
    requires forall i :: 0 <= i < count ==> !Holds(ss, sums, i, k)
    ensures CopySectors(ss, sums, count, chunks, lastWritten).chunks[k] == chunks[k]
  {
    if count > 0 {
      assert !Holds(ss, sums, count - 1, k);
      CopyKeepsUncovered(ss, sums, count - 1, chunks, lastWritten, k);
    }
  }

  /** A chunk takes the bytes of the last valid sector holding it, cut to its table length. */
  lemma {:induction false} CopyTakesLastHolder(ss: seq<SaveSector>, sums: seq<u16>, count: nat, chunks: Chunks, lastWritten: u16, i: nat, k: nat)
    requires ReadableSlot(ss) && |sums| == |ss| && count <= |ss| && WellSizedChunks(chunks)
    requires k < NUM_SECTORS_PER_SLOT && LastHolder(ss, sums, count, i, k)
    ensures CopySectors(ss, sums, count, chunks, lastWritten).chunks[k] == ChunkBytes(ss[i], k)
  {
    if i < count - 1 {
      assert !Holds(ss, sums, count - 1, k);
      assert LastHolder(ss, sums, count - 1, i, k);
      CopyTakesLastHolder(ss, sums, count - 1, chunks, lastWritten, i, k);
    }
  }

  /** The rotation offset is recovered as the last sector whose id field is 0, or kept when there is none. */
  lemma {:induction false} CopyRotation(ss: seq<SaveSector>, sums: seq<u16>, count: nat, chunks: Chunks, lastWritten: u16)
    requires ReadableSlot(ss) && |sums| == |ss| && count <= |ss| && WellSizedChunks(chunks)
    ensures (forall i :: 0 <= i < count ==> ss[i].id != 0) ==>
      CopySectors(ss, sums, count, chunks, lastWritten).lastWrittenSector == lastWritten
    ensures forall i :: (0 <= i < count && ss[i].id == 0 && (forall j :: i < j < count ==> ss[j].id != 0)) ==>
      CopySectors(ss, sums, count, chunks, lastWritten).lastWrittenSector == i
  {
    if count > 0 {
      CopyRotation(ss, sums, count - 1, chunks, lastWritten);
    }
  }

  datatype LoadResult = LoadResult(status: SaveStatus, chunks: Chunks, engine: Engine)

  /** The slot the counter's parity names. */
  function SlotOf(counter: u32): nat {
    counter % NUM_SAVE_SLOTS
  }

  /**
   * TryLoadSaveSlot: only FULL_SAVE_SLOT is accepted; it resolves the two
   * slots, then copies every valid sector of the slot the new counter's
   * parity names. Loading never writes the flash.
   */
  function TryLoadSaveSlot(sectorId: u16, chunks: Chunks, e: Engine): (r: LoadResult)
    requires ReadableFlash(e.flash) && WellSizedChunks(chunks)
    ensures WellSizedChunks(r.chunks)
    ensures r.engine.flash == e.flash
    ensures sectorId != FULL_SAVE_SLOT ==> r == LoadResult(Error, chunks, e)
    ensures sectorId == FULL_SAVE_SLOT ==>
      && r.status == GetSaveValidStatus(e.flash, e.state).status
      && r.engine.state.saveCounter == GetSaveValidStatus(e.flash, e.state).state.saveCounter
      && r.engine.state == e.state.(saveCounter := r.engine.state.saveCounter,
                                    lastWrittenSector := r.engine.state.lastWrittenSector)
  {
    if sectorId != FULL_SAVE_SLOT then
      LoadResult(Error, chunks, e)
    else
      var res := GetSaveValidStatus(e.flash, e.state);
      var ss := SlotSectors(e.flash, SlotOf(res.state.saveCounter));
      var copy := CopySectors(ss, Recomputed(ss), NUM_SECTORS_PER_SLOT, chunks, res.state.lastWrittenSector);
      LoadResult(res.status, copy.chunks, Engine(res.state.(lastWrittenSector := copy.lastWrittenSector), e.flash))
  }

  /** The slot a full load copies from: the one the resolved counter names. */
  function LoadedSlot(e: Engine): (ss: seq<SaveSector>)
    requires ReadableFlash(e.flash)
    ensures ReadableSlot(ss)
  {
    SlotSectors(e.flash, SlotOf(GetSaveValidStatus(e.flash, e.state).state.saveCounter))
  }

  /** A full load is the copy of the loaded slot, started from the resolved state. */
  lemma LoadIsCopy(chunks: Chunks, e: Engine)
    requires ReadableFlash(e.flash) && WellSizedChunks(chunks)
    ensures var ss := LoadedSlot(e);
      var copy := CopySectors(ss, Recomputed(ss), |ss|, chunks, GetSaveValidStatus(e.flash, e.state).state.lastWrittenSector);
      && TryLoadSaveSlot(FULL_SAVE_SLOT, chunks, e).chunks == copy.chunks
      && TryLoadSaveSlot(FULL_SAVE_SLOT, chunks, e).engine.state.lastWrittenSector == copy.lastWrittenSector
  {
  }

  /** A full load leaves the buffer of every chunk the loaded slot does not validly hold untouched. */
  lemma LoadKeepsUncovered(chunks: Chunks, e: Engine, k: nat)
    requires ReadableFlash(e.flash) && WellSizedChunks(chunks) && k < NUM_SECTORS_PER_SLOT
    requires !Covered(LoadedSlot(e), Recomputed(LoadedSlot(e)), k)
    ensures TryLoadSaveSlot(FULL_SAVE_SLOT, chunks, e).chunks[k] == chunks[k]
  {
    var ss := LoadedSlot(e);
    LoadIsCopy(chunks, e);
    CopyKeepsUncovered(ss, Recomputed(ss), |ss|, chunks, GetSaveValidStatus(e.flash, e.state).state.lastWrittenSector, k);
  }

  /** A full load fills a chunk's buffer from the last valid sector of the loaded slot holding it. */
  lemma LoadTakesLastHolder(chunks: Chunks, e: Engine, i: nat, k: nat)
    requires ReadableFlash(e.flash) && WellSizedChunks(chunks) && k < NUM_SECTORS_PER_SLOT
    requires LastHolder(LoadedSlot(e), Recomputed(LoadedSlot(e)), NUM_SECTORS_PER_SLOT, i, k)
    ensures TryLoadSaveSlot(FULL_SAVE_SLOT, chunks, e).chunks[k] == ChunkBytes(LoadedSlot(e)[i], k)
  {
    var ss := LoadedSlot(e);
    LoadIsCopy(chunks, e);
    CopyTakesLastHolder(ss, Recomputed(ss), |ss|, chunks, GetSaveValidStatus(e.flash, e.state).state.lastWrittenSector, i, k);
  }

  /** A full load sets the rotation offset to the last sector of the loaded slot whose id field is 0. */
  lemma LoadRotation(chunks: Chunks, e: Engine, i: nat)
    requires ReadableFlash(e.flash) && WellSizedChunks(chunks) && i < NUM_SECTORS_PER_SLOT
    requires LoadedSlot(e)[i].id == 0
    requires forall j :: i < j < NUM_SECTORS_PER_SLOT ==> LoadedSlot(e)[j].id != 0
    ensures TryLoadSaveSlot(FULL_SAVE_SLOT, chunks, e).engine.state.lastWrittenSector == i
  {
    var ss := LoadedSlot(e);
    LoadIsCopy(chunks, e);
    CopyRotation(ss, Recomputed(ss), |ss|, chunks, GetSaveValidStatus(e.flash, e.state).state.lastWrittenSector);
  }
}
