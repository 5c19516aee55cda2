/**
 * Physical layout of the save flash, the chunk table and the engine's
 * global variables, as fixed by save.h, global.h and the top of save.c.
 */
module SaveLayout {
  import opened CInts

  const SECTOR_DATA_SIZE: nat := 3968
  const SECTOR_FOOTER_SIZE: nat := 128
  /** The footer uses only its last 12 bytes (id, checksum, security, counter). */
  const SECTOR_UNUSED_SIZE: nat := SECTOR_FOOTER_SIZE - 12
  const NUM_SAVE_SLOTS: nat := 2
  const NUM_SECTORS_PER_SLOT: nat := 14
  const SECTORS_COUNT: nat := 32
  const SECTOR_SECURITY_NUM: u32 := 0x8012025
  /** Sector id meaning "the whole slot" rather than one chunk. */
  const FULL_SAVE_SLOT: u16 := 0xFFFF
  /** Valid-sector mask of a complete slot: bits 0..13. */
  const ALL_SECTORS: bv32 := 0x3FFF

  /** Status codes handed back to the program loop. */
  datatype SaveStatus = Empty | Ok | Corrupt | NoFlash | Error {
    function Code(): u8 {
      match this
      case Empty => 0
      case Ok => 1
      case Corrupt => 2
      case NoFlash => 4
      case Error => 0xFF
    }
  }

  // Sizes of the three saved structures.
  const SAVEBLOCK2_SIZE: nat := 0x890
  const VARS_COUNT: nat := 256
  /** Byte offset of `vars` inside SaveBlock1. */
  const SAVEBLOCK1_VARS_OFFSET: nat := 0x1340
  const SAVEBLOCK1_SIZE: nat := SAVEBLOCK1_VARS_OFFSET + 2 * VARS_COUNT + 0x2580
  const POKEMON_STORAGE_SIZE: nat := 0x83D0

  /** Length of chunk `chunkNum` of a structure: what is left of it, at most one sector. */
  function ChunkLength(structSize: nat, chunkNum: nat): (n: nat)
    requires chunkNum * SECTOR_DATA_SIZE < structSize
    ensures 0 < n <= SECTOR_DATA_SIZE
    ensures n == SECTOR_DATA_SIZE || chunkNum * SECTOR_DATA_SIZE + n == structSize
  {
    var rest := structSize - chunkNum * SECTOR_DATA_SIZE;
    if rest < SECTOR_DATA_SIZE then rest else SECTOR_DATA_SIZE
  }

  /**
   * The chunk table: chunk 0 is SaveBlock2, chunks 1-4 cover SaveBlock1 and
   * chunks 5-13 cover the Pokemon storage, each a consecutive slice of at
   * most one sector (ChunkTable relates each entry to ChunkLength).
   */
  const CHUNK_SIZES: seq<nat> := [2192, 3968, 3968, 3968, 3136,
                                  3968, 3968, 3968, 3968, 3968, 3968, 3968, 3968, 2000]

  /**
   * Every entry is the slice length of its structure; there is one entry per
   * sector of a slot, and every chunk fits a sector and is a whole number of words.
   */
  lemma ChunkTable()
    ensures CHUNK_SIZES[0] == ChunkLength(SAVEBLOCK2_SIZE, 0)
    ensures forall i :: 1 <= i <= 4 ==> CHUNK_SIZES[i] == ChunkLength(SAVEBLOCK1_SIZE, i - 1)
    ensures forall i :: 5 <= i < 14 ==> CHUNK_SIZES[i] == ChunkLength(POKEMON_STORAGE_SIZE, i - 5)
    ensures |CHUNK_SIZES| == NUM_SECTORS_PER_SLOT
    ensures forall i :: 0 <= i < |CHUNK_SIZES| ==> 0 < CHUNK_SIZES[i] <= SECTOR_DATA_SIZE
    ensures forall i :: 0 <= i < |CHUNK_SIZES| ==> CHUNK_SIZES[i] % 4 == 0
  {
  }

  /** One 4096-byte flash sector: data, the unused footer part, then the 12-byte footer. */
  datatype SaveSector = SaveSector(
    data: seq<u8>,
    unused: seq<u8>,
    id: u16,
    checksum: u16,
    security: u32,
    counter: u32)

  predicate WellFormedSector(s: SaveSector) {
    |s.data| == SECTOR_DATA_SIZE && |s.unused| == SECTOR_UNUSED_SIZE
  }

  /** The leading bytes of a sector's data that make up chunk k, of the chunk's table length. */
  function ChunkBytes(s: SaveSector, k: nat): (b: seq<u8>)
    requires WellFormedSector(s) && k < NUM_SECTORS_PER_SLOT
    ensures |b| == CHUNK_SIZES[k] && b <= s.data
  {
    ChunkTable();
    s.data[..CHUNK_SIZES[k]]
  }

  /** The whole flash chip: sector number to contents. */
  type Flash = map<int, SaveSector>

  predicate IsFlash(f: Flash) {
    && (forall n :: n in f ==> 0 <= n < SECTORS_COUNT)
    && (forall n :: 0 <= n < SECTORS_COUNT ==> n in f)
    && (forall n :: n in f ==> WellFormedSector(f[n]))
  }

  /** The 14 in-memory buffers the chunk table points at, each of its table length. */
  type Chunks = seq<seq<u8>>

  predicate WellSizedChunks(c: Chunks) {
    ChunkTable();
    && |c| == NUM_SECTORS_PER_SLOT
    && forall i :: 0 <= i < |c| ==> |c[i]| == CHUNK_SIZES[i]
  }

  /** The save engine's globals (gSaveCounter and friends). */
  datatype EngineState = EngineState(
    saveCounter: u32,
    lastWrittenSector: u16,
    lastKnownGoodSector: u16,
    lastSaveCounter: u32,
    damagedSaveSectors: bv32)

  /**
   * The rotation offset stays below the slot size: it starts at zero (a C
   * global), a full write stores it modulo 14, resolution resets it to zero
   * and loading sets it to a sector index of the slot.
   */
  predicate EngineInvariant(st: EngineState) {
    st.lastWrittenSector < NUM_SECTORS_PER_SLOT
  }

  const INITIAL_STATE := EngineState(0, 0, 0, 0, 0)

  /** The engine's globals together with the flash chip they describe. */
  datatype Engine = Engine(state: EngineState, flash: Flash)

  // ---- Bits of a u32 mask ----

  function Bit(n: nat): bv32
    requires n < 32
  {
    1 << (n as bv5)
  }

  predicate IsSet(m: bv32, k: nat)
    requires k < 32
  {
    m & Bit(k) != 0
  }

  lemma OrBitSets(m: bv32, j: nat, k: nat)
    requires j < 32 && k < 32
    ensures IsSet(m, k) || j == k ==> IsSet(m | Bit(j), k)
  {
  }

  lemma OrBitOnly(m: bv32, j: nat, k: nat)
    requires j < 32 && k < 32
    ensures IsSet(m | Bit(j), k) ==> IsSet(m, k) || j == k
  {
  }

  lemma OrBitIff(m: bv32, j: nat, k: nat)
    requires j < 32 && k < 32
    ensures IsSet(m | Bit(j), k) <==> IsSet(m, k) || j == k
  {
    OrBitSets(m, j, k);
    OrBitOnly(m, j, k);
  }

  lemma AndNotBitKeeps(m: bv32, j: nat, k: nat)
    requires j < 32 && k < 32
    ensures IsSet(m, k) && j != k ==> IsSet(m & !Bit(j), k)
  {
  }

  lemma AndNotBitOnly(m: bv32, j: nat, k: nat)
    requires j < 32 && k < 32
    ensures IsSet(m & !Bit(j), k) ==> IsSet(m, k) && j != k
  {
  }

  lemma SomeBitOfNonZero(m: bv32) returns (k: nat)
    requires m != 0
    ensures k < 32 && IsSet(m, k)
  {
    var j: bv32 := 0;
    while j < 32 && m & (1 << j) == 0
      invariant j <= 32
      invariant m << (32 - j) == 0
    {
      j := j + 1;
    }
    var b := j as bv5;
    assert (1 as bv32) << b == (1 as bv32) << j;
    k := b as int;
    assert k as bv5 == b;
  }

  lemma AndBitBoth(x: bv32, y: bv32, k: nat)
    requires k < 32
    ensures IsSet(x & y, k) ==> IsSet(x, k) && IsSet(y, k)
  {
  }

  lemma NotBitFlips(x: bv32, k: nat)
    requires k < 32
    ensures IsSet(!x, k) ==> !IsSet(x, k)
  {
  }

  lemma LowBitsOfAllSectors(k: nat)
    requires k < NUM_SECTORS_PER_SLOT
    ensures IsSet(ALL_SECTORS, k)
  {
  }

  lemma HighBitsOfAllSectors(k: nat)
    requires NUM_SECTORS_PER_SLOT <= k < 32
    ensures !IsSet(ALL_SECTORS, k)
  {
  }

  /** For a mask with no bit at 14 or above, equality with 0x3FFF means bits 0..13 are all set. */
  lemma AllSectorsMask(m: bv32)
    requires forall k :: NUM_SECTORS_PER_SLOT <= k < 32 ==> !IsSet(m, k)
    ensures m == ALL_SECTORS <==> forall k :: 0 <= k < NUM_SECTORS_PER_SLOT ==> IsSet(m, k)
  {
    if m == ALL_SECTORS {
      forall k | 0 <= k < NUM_SECTORS_PER_SLOT ensures IsSet(m, k) {
        LowBitsOfAllSectors(k);
      }
    } else if forall k :: 0 <= k < NUM_SECTORS_PER_SLOT ==> IsSet(m, k) {
      var high := m & !ALL_SECTORS;
      var missing := !m & ALL_SECTORS;
      if high != 0 {
        var k := SomeBitOfNonZero(high);
        AndBitBoth(m, !ALL_SECTORS, k);
        NotBitFlips(ALL_SECTORS, k);
        if k < NUM_SECTORS_PER_SLOT {
          LowBitsOfAllSectors(k);
        }
        assert false;
      }
      if missing != 0 {
        var k := SomeBitOfNonZero(missing);
        AndBitBoth(!m, ALL_SECTORS, k);
        NotBitFlips(m, k);
        if k >= NUM_SECTORS_PER_SLOT {
          HighBitsOfAllSectors(k);
        }
        assert false;
      }
      assert false;
    }
  }

  lemma NoBitOfZero(m: bv32)
    requires m == 0
    ensures forall k :: 0 <= k < 32 ==> !IsSet(m, k)
  {
  }
}
