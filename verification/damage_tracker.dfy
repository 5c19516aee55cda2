/** SetDamagedSectorBits: the per-session record of sectors whose last program failed. */
module DamageTracker {
  import opened CInts
  import opened SaveLayout

  const SECTOR_DAMAGED: u8 := 0
  const SECTOR_OK: u8 := 1
  const SECTOR_CHECK: u8 := 2

  datatype BitsResult = BitsResult(isSet: bool, mask: bv32)

  /**
   * SECTOR_DAMAGED sets bit n, SECTOR_OK clears it, SECTOR_CHECK only asks;
   * any other op code falls through the switch and does nothing.
   */
  function SetDamagedSectorBits(op: u8, sectorNum: u8, mask: bv32): (r: BitsResult)
    requires sectorNum < 32
    ensures op == SECTOR_DAMAGED ==> !r.isSet && IsSet(r.mask, sectorNum)
    ensures op == SECTOR_DAMAGED ==>
      forall k :: 0 <= k < 32 && k != sectorNum ==> (IsSet(r.mask, k) <==> IsSet(mask, k))
    ensures op == SECTOR_OK ==> !r.isSet && !IsSet(r.mask, sectorNum)
    ensures op == SECTOR_OK ==>
      forall k :: 0 <= k < 32 && k != sectorNum ==> (IsSet(r.mask, k) <==> IsSet(mask, k))
    ensures op == SECTOR_CHECK ==> r.mask == mask && (r.isSet <==> IsSet(mask, sectorNum))
    ensures op > SECTOR_CHECK ==> r == BitsResult(false, mask)
  {
    if op == SECTOR_DAMAGED then
      var m := mask | Bit(sectorNum);
      OrBitSets(mask, sectorNum, sectorNum);
      assert forall k :: 0 <= k < 32 && k != sectorNum ==> (IsSet(m, k) <==> IsSet(mask, k)) by {
        forall k | 0 <= k < 32 && k != sectorNum
          ensures IsSet(m, k) <==> IsSet(mask, k)
        {
          OrBitSets(mask, sectorNum, k);
          OrBitOnly(mask, sectorNum, k);
        }
      }
      BitsResult(false, m)
    else if op == SECTOR_OK then
      var m := mask & !Bit(sectorNum);
      AndNotBitOnly(mask, sectorNum, sectorNum);
      assert forall k :: 0 <= k < 32 && k != sectorNum ==> (IsSet(m, k) <==> IsSet(mask, k)) by {
        forall k | 0 <= k < 32 && k != sectorNum
          ensures IsSet(m, k) <==> IsSet(mask, k)
        {
          AndNotBitKeeps(mask, sectorNum, k);
          AndNotBitOnly(mask, sectorNum, k);
        }
      }
      BitsResult(false, m)
    else if op == SECTOR_CHECK then
      BitsResult(mask & Bit(sectorNum) != 0, mask)
    else
      BitsResult(false, mask)
  }
}
