/**
 * The per-sector footer and the folded 16-bit checksum (CalculateChecksum,
 * and the sector image HandleWriteSector builds in the scratch buffer).
 */
module SectorCodec {
  import opened CInts
  import opened SaveLayout

  const TWO16: int := 0x1_0000
  const TWO32: int := 0x1_0000_0000

  /** The little-endian u32 that starts at byte 4*k. */
  function Word(data: seq<u8>, k: nat): u32
    requires 4 * k + 4 <= |data|
  {
    data[4 * k] as int + 0x100 * data[4 * k + 1] as int + 0x1_0000 * data[4 * k + 2] as int
      + 0x100_0000 * data[4 * k + 3] as int
  }

  /** The exact (unbounded) sum of the first n words. */
  function WordTotal(data: seq<u8>, n: nat): nat
    requires 4 * n <= |data|
  {
    if n == 0 then 0 else WordTotal(data, n - 1) + Word(data, n - 1)
  }

  /** Folding a 32-bit sum into 16 bits: high half plus low half, carry dropped. */
  function Fold(sum: u32): u16 {
    (sum / TWO16 + sum % TWO16) % TWO16
  }

  /**
   * The checksum of `size` bytes: only the size/4 whole words count, summed
   * modulo 2^32 and folded to 16 bits.
   */
  function Checksum(data: seq<u8>, size: u16): u16
    requires 4 * (size / 4) <= |data|
  {
    Fold(WordTotal(data, size / 4) % TWO32)
  }

  lemma ModAddStep(a: int, b: int)
    ensures (a % TWO32 + b) % TWO32 == (a + b) % TWO32
  {
  }

  /** `(sum >> 16) + sum` truncated to 16 bits is the fold of sum. */
  lemma TruncatedFold(sum: u32)
    ensures ToU16(ToU32(sum / TWO16 + sum)) == Fold(sum)
  {
    var hi, lo := sum / TWO16, sum % TWO16;
    assert sum == hi * TWO16 + lo;
    assert (hi + sum) % TWO16 == (hi + lo) % TWO16;
  }

  /**
   * The C loop: a u32 accumulator that wraps at every addition, walking a
   * word pointer, then `(sum >> 16) + sum` truncated to u16.
   */
  method CalculateChecksum(data: seq<u8>, size: u16) returns (result: u16)
    requires 4 * (size / 4) <= |data|
    ensures result == Fold(WordTotal(data, size / 4) % TWO32)
  {
    var checksum: u32 := 0;
    var i := 0;
    while i < size / 4
      invariant 0 <= i <= size / 4
      invariant checksum == WordTotal(data, i) % TWO32
    {
      var w := Word(data, i);
      ModAddStep(WordTotal(data, i), w);
      checksum := ToU32(checksum + w);
      i := i + 1;
    }
    TruncatedFold(checksum);
    result := ToU16(ToU32(checksum / TWO16 + checksum));
  }

  lemma {:induction false} WordTotalPrefix(a: seq<u8>, b: seq<u8>, n: nat)
    requires 4 * n <= |a| && 4 * n <= |b|
    requires a[..4 * n] == b[..4 * n]
    ensures WordTotal(a, n) == WordTotal(b, n)
  {
    if n > 0 {
      assert a[..4 * (n - 1)] == a[..4 * n][..4 * (n - 1)];
      assert b[..4 * (n - 1)] == b[..4 * n][..4 * (n - 1)];
      WordTotalPrefix(a, b, n - 1);
      assert a[4 * (n - 1) + 3] == a[..4 * n][4 * (n - 1) + 3];
      assert b[4 * (n - 1) + 3] == b[..4 * n][4 * (n - 1) + 3];
      assert Word(a, n - 1) == Word(b, n - 1);
    }
  }

  /** Bytes at or beyond 4*(size/4) never influence the checksum. */
  lemma ChecksumIgnoresTail(a: seq<u8>, b: seq<u8>, size: u16)
    requires 4 * (size / 4) <= |a| && 4 * (size / 4) <= |b|
    requires a[..4 * (size / 4)] == b[..4 * (size / 4)]
    ensures Checksum(a, size) == Checksum(b, size)
  {
    WordTotalPrefix(a, b, size / 4);
  }

  function Pow256(e: nat): nat
    requires e < 4
  {
    if e == 0 then 1 else if e == 1 then 0x100 else if e == 2 then 0x1_0000 else 0x100_0000
  }

  /** Changing byte j (inside the first n words) shifts the exact sum by the byte delta times its weight. */
  lemma {:induction false} WordTotalByteDelta(a: seq<u8>, b: seq<u8>, n: nat, j: nat)
    requires |a| == |b| && 4 * n <= |a| && j < 4 * n
    requires forall k :: 0 <= k < |a| && k != j ==> a[k] == b[k]
    ensures WordTotal(b, n) - WordTotal(a, n) == (b[j] as int - a[j] as int) * Pow256(j % 4)
  {
    if j < 4 * (n - 1) {
      WordTotalByteDelta(a, b, n - 1, j);
      assert Word(a, n - 1) == Word(b, n - 1);
    } else {
      WordTotalPrefix(a, b, n - 1);
      var k := n - 1;
      assert j == 4 * k + j % 4;
    }
  }

  /** A non-zero change of the low half, of at most 0xFF00, changes the fold. */
  lemma HalvesOf(t: int, hi: int, lo: int)
    requires 0 <= lo < TWO16 && t == hi * TWO16 + lo
    ensures t / TWO16 == hi && t % TWO16 == lo
  {
  }

  lemma FoldSeesLowChange(s: u32, d: int)
    requires d != 0 && -0xFF00 <= d <= 0xFF00
    ensures Fold((s + d) % TWO32) != Fold(s)
  {
    var hi, lo := s / TWO16, s % TWO16;
    HalvesOf(s, hi, lo);
    var t := (s + d) % TWO32;
    if 0 <= lo + d < TWO16 {
      assert t == hi * TWO16 + (lo + d);
      HalvesOf(t, hi, lo + d);
    } else if lo + d >= TWO16 {
      var hi' := if hi + 1 < TWO16 then hi + 1 else 0;
      assert t == hi' * TWO16 + (lo + d - TWO16);
      HalvesOf(t, hi', lo + d - TWO16);
    } else {
      var hi' := if hi > 0 then hi - 1 else TWO16 - 1;
      assert t == hi' * TWO16 + (lo + d + TWO16);
      HalvesOf(t, hi', lo + d + TWO16);
    }
  }

  lemma FoldSeesHighChange(s: u32, e: int)
    requires e != 0 && -0xFF00 <= e <= 0xFF00
    ensures Fold((s + e * TWO16) % TWO32) != Fold(s)
  {
    var hi, lo := s / TWO16, s % TWO16;
    var t := (s + e * TWO16) % TWO32;
    assert t == ((hi + e) % TWO16) * TWO16 + lo;
    assert t / TWO16 == (hi + e) % TWO16 && t % TWO16 == lo;
  }

  /**
   * Corruption of any single byte covered by the checksum is always
   * detected: the folded checksum of the corrupted data differs.
   */
  lemma ChecksumDetectsByteChange(a: seq<u8>, b: seq<u8>, size: u16, j: nat)
    requires |a| == |b| && 4 * (size / 4) <= |a|
    requires j < 4 * (size / 4) && a[j] != b[j]
    requires forall k :: 0 <= k < |a| && k != j ==> a[k] == b[k]
    ensures Checksum(a, size) != Checksum(b, size)
  {
    var n := size / 4;
    WordTotalByteDelta(a, b, n, j);
    var s := WordTotal(a, n) % TWO32;
    var delta := b[j] as int - a[j] as int;
    ModAddStep(WordTotal(a, n), delta * Pow256(j % 4));
    assert WordTotal(b, n) % TWO32 == (s + delta * Pow256(j % 4)) % TWO32;
    if j % 4 == 0 {
      FoldSeesLowChange(s, delta);
    } else if j % 4 == 1 {
      FoldSeesLowChange(s, delta * 0x100);
    } else if j % 4 == 2 {
      FoldSeesHighChange(s, delta);
    } else {
      FoldSeesHighChange(s, delta * 0x100);
      assert delta * 0x100 * TWO16 == delta * 0x100_0000;
    }
  }

  function Zeros(n: nat): (z: seq<u8>)
    ensures |z| == n && forall k :: 0 <= k < n ==> z[k] == 0
  {
    seq(n, _ => 0)
  }

  /**
   * The sector image HandleWriteSector programs: a zeroed 4096-byte buffer
   * holding the chunk's bytes, its id, the security magic, the counter and
   * the checksum of the chunk.
   */
  function SectorImage(chunk: seq<u8>, id: u16, counter: u32): (s: SaveSector)
    requires |chunk| <= SECTOR_DATA_SIZE
    ensures WellFormedSector(s)
    ensures s.data[..|chunk|] == chunk
    ensures forall k :: |chunk| <= k < SECTOR_DATA_SIZE ==> s.data[k] == 0
    ensures forall k :: 0 <= k < SECTOR_UNUSED_SIZE ==> s.unused[k] == 0
    ensures s.id == id && s.security == SECTOR_SECURITY_NUM && s.counter == counter
    ensures s.checksum == Checksum(s.data, |chunk|)
  {
    var data := chunk + Zeros(SECTOR_DATA_SIZE - |chunk|);
    assert data[..|chunk|] == chunk;
    assert data[..4 * (|chunk| / 4)] == chunk[..4 * (|chunk| / 4)];
    ChecksumIgnoresTail(chunk, data, |chunk|);
    SaveSector(data, Zeros(SECTOR_UNUSED_SIZE), id, Checksum(chunk, |chunk|), SECTOR_SECURITY_NUM, counter)
  }
}
