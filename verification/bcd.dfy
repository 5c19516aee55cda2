/**
 * The RTC chip reports every date and time field as a binary-coded decimal
 * byte: the tens digit in the high nibble, the units digit in the low one.
 * rtc.c decodes with ConvertBcdToBinary, encodes with ConvertBinaryToBcd and
 * steps a field with sii_rtc_inc.
 */
module Bcd {
  import opened CInts

  /** What a malformed byte decodes to, and what an out-of-range value encodes to. */
  const BCD_INVALID: u8 := 0xFF

  /** `b & 0xF` of a byte. */
  function LowNibble(b: u8): nat {
    b % 16
  }

  /** `(b >> 4) & 0xF` of a byte. */
  function HighNibble(b: u8): nat {
    b / 16
  }

  lemma NibblesOf(hi: nat, lo: nat)
    requires hi < 16 && lo < 16
    ensures HighNibble(hi * 16 + lo) == hi && LowNibble(hi * 16 + lo) == lo
  {
  }

  lemma DigitsOf(hi: nat, lo: nat)
    requires lo < 10
    ensures (hi * 10 + lo) / 10 == hi && (hi * 10 + lo) % 10 == lo
  {
  }

  /** Storing v + 1 into a u8. */
  lemma ByteSuccessor(v: u8)
    ensures ToU8(v + 1) == if v == 0xFF then 0 else v + 1
  {
  }

  /** A well-formed BCD byte: both digits decimal. */
  predicate IsBcd(b: u8) {
    HighNibble(b) < 10 && LowNibble(b) < 10
  }

  /**
   * ConvertBcdToBinary: 0xFF for a byte of 0xA0 or more or with a low digit
   * above 9, otherwise the decimal value of the two digits.
   */
  function BcdToBinary(bcd: u8): (v: u8)
    ensures v == BCD_INVALID <==> !IsBcd(bcd)
    ensures IsBcd(bcd) ==> v <= 99 && v / 10 == HighNibble(bcd) && v % 10 == LowNibble(bcd)
  {
    if bcd >= 0xA0 || LowNibble(bcd) >= 10 then BCD_INVALID
    else
      DigitsOf(HighNibble(bcd), LowNibble(bcd));
      HighNibble(bcd) * 10 + LowNibble(bcd)
  }

  /**
   * ConvertBinaryToBcd: 0xFF above 99, otherwise the tens shifted into the
   * high nibble or-ed with the units (the or of disjoint nibbles is a sum).
   */
  function BinaryToBcd(binary: u8): (r: u32)
    ensures binary > 99 ==> r == 0xFF
    ensures binary <= 99 ==> r < 0xA0 && IsBcd(r) && BcdToBinary(r) == binary
  {
    if binary > 99 then 0xFF
    else
      NibblesOf(binary / 10, binary % 10);
      DigitsOf(binary / 10, binary % 10);
      (binary / 10) * 16 + binary % 10
  }

  /** Encoding after decoding gives back every well-formed byte. */
  lemma BcdRoundTrip(bcd: u8)
    requires IsBcd(bcd)
    ensures BinaryToBcd(BcdToBinary(bcd)) == bcd
  {
    var v := BcdToBinary(bcd);
    assert v == HighNibble(bcd) * 10 + LowNibble(bcd);
  }

  /** Two well-formed bytes with the same value are the same byte. */
  lemma BcdInjective(a: u8, b: u8)
    requires IsBcd(a) && IsBcd(b) && BcdToBinary(a) == BcdToBinary(b)
    ensures a == b
  {
    BcdRoundTrip(a);
    BcdRoundTrip(b);
  }

  /**
   * sii_rtc_inc: decode, add one, encode. The encoder takes a u8, so a
   * malformed byte (decoded 0xFF, plus one) becomes 0 and encodes to 0x00;
   * 0x99 steps past the two digits and encodes to 0xFF.
   */
  function Inc(b: u8): (r: u8)
    ensures !IsBcd(b) ==> r == 0
    ensures IsBcd(b) && BcdToBinary(b) < 99 ==> IsBcd(r) && BcdToBinary(r) == BcdToBinary(b) + 1
    ensures b == 0x99 ==> r == BCD_INVALID
  {
    var v := BcdToBinary(b);
    ByteSuccessor(v);
    var e := BinaryToBcd(ToU8(v + 1));
    assert b == 0x99 ==> v == 99;
    InRangeU8(e);
    ToU8(e)
  }
}
