/**
 * Offset correction of the FOXML parser (FoxmlParser::getOffset and
 * FoxmlParser::correctOffset).
 *
 * The XML engine may report its current byte index as a signed 32-bit
 * integer, which wraps around on files larger than 2 GiB. The true file
 * position (ftell) is a wide integer. The correction adds to the reported
 * index a multiple of 2^32 chosen from the 2^31-sized "slot" the file
 * position lies in.
 */
module OffsetCorrection {

  const P31: int := 0x8000_0000      // 2^31
  const P32: int := 0x1_0000_0000    // 2^32

  /** PHP's intdiv: the quotient truncated toward zero. */
  function PhpIntDiv(a: int, b: int): (q: int)
    requires b > 0
    ensures a >= 0 ==> q * b <= a < q * b + b
    ensures a < 0 ==> q * b - b < a <= q * b
  {
    if a >= 0 then a / b else -((-a) / b)
  }

  /** PHP's %: the remainder takes the sign of the dividend. */
  function PhpMod(a: int, b: int): (m: int)
    requires b > 0
    ensures a == PhpIntDiv(a, b) * b + m
    ensures a >= 0 ==> 0 <= m < b
    ensures a < 0 ==> -b < m <= 0
  {
    if a >= 0 then a % b else -((-a) % b)
  }

  /**
   * correctOffset, literally: with slot = intdiv(pos, 2^31),
   *   index + (slot % 2) * ((slot + 1) * 2^31) + ((slot + 1) % 2) * (slot * 2^31).
   * Whatever the slot, what is added is a multiple of 2^32; for a
   * non-negative position it is non-negative, and below 2^31 it is zero.
   */
  function CorrectOffset(index: int, pos: int): (r: int)
    ensures (r - index) % P32 == 0
    ensures pos >= 0 ==> r >= index
    ensures 0 <= pos < P31 ==> r == index
  {
    var slot := PhpIntDiv(pos, P31);
    var odd := PhpMod(slot, 2);
    var even := PhpMod(slot + 1, 2);
    SlotCorrectionIsWholeWraps(slot);
    index + odd * ((slot + 1) * P31) + even * (slot * P31)
  }

  /** The amount the literal formula adds for a given slot is a whole number of 2^32 wraps. */
  lemma SlotCorrectionIsWholeWraps(slot: int)
    ensures (PhpMod(slot, 2) * ((slot + 1) * P31) + PhpMod(slot + 1, 2) * (slot * P31)) % P32 == 0
    ensures slot >= 0 ==> PhpMod(slot, 2) * ((slot + 1) * P31) + PhpMod(slot + 1, 2) * (slot * P31) >= 0
  {
  }

  /**
   * getOffset, with the two readings it takes (ftell of the file and the
   * engine's current byte index) as parameters. An index above 2^31 is
   * taken to come from an engine that does not wrap; a negative index, or a
   * small one while the file position is past 2^31, is corrected; anything
   * else (including index == 2^31) is returned as it is.
   */
  function GetOffset(index: int, pos: int): (r: int)
    ensures (r - index) % P32 == 0
    ensures pos >= 0 ==> r >= index
    ensures index >= P31 ==> r == index
    ensures 0 <= pos < P31 ==> r == index
  {
    if index > P31 then
      index
    else if index < 0 then
      CorrectOffset(index, pos)
    else if index >= 0 && index < P31 && pos >= P31 then
      CorrectOffset(index, pos)
    else
      index
  }

  /** What a signed 32-bit counter shows for the true offset t. */
  function Int32(t: int): (w: int)
    ensures -P31 <= w < P31
    ensures (t - w) % P32 == 0
  {
    var m := t % P32;
    if m >= P31 then m - P32 else m
  }

  /** For a non-negative position the formula adds (slot+1)*2^31 on an odd slot and slot*2^31 on an even one. */
  lemma CorrectOffsetBySlot(index: int, pos: int)
    requires pos >= 0
    ensures var slot := pos / P31;
      CorrectOffset(index, pos) == if slot % 2 == 1 then index + (slot + 1) * P31 else index + slot * P31
  {
  }

  /**
   * The correction undoes the wrap-around: when the engine shows the signed
   * 32-bit image of the true offset t, and t lies in the same 2^31 slot as
   * the file position, correctOffset gives t back.
   */
  lemma {:induction false} CorrectOffsetUnwraps(t: int, pos: int)
    requires t >= 0 && pos >= 0
    requires t / P31 == pos / P31
    ensures CorrectOffset(Int32(t), pos) == t
  {
    CorrectOffsetBySlot(Int32(t), pos);
  }

  /** getOffset recovers the true offset from a wrapped 32-bit index reported at a position in the same slot. */
  lemma GetOffsetRecoversWrapped(t: int, pos: int)
    requires t >= 0 && pos >= 0
    requires t / P31 == pos / P31
    ensures GetOffset(Int32(t), pos) == t
  {
    CorrectOffsetUnwraps(t, pos);
  }

  /** An engine that reports the true (wide) offset gets it back unchanged: the correction degenerates to identity. */
  lemma GetOffsetWideIdentity(t: int, pos: int)
    requires t >= 0 && pos >= 0
    requires t / P31 == pos / P31
    ensures GetOffset(t, pos) == t
  {
  }

  /** The worked values of the correction, as the code computes them. */
  lemma OffsetVectors()
    ensures GetOffset(100, 100) == 100
    ensures GetOffset(5, 4294967500) == 4294967301
    ensures CorrectOffset(-50, 2147483700) == 4294967246
    ensures GetOffset(-50, 2147483700) == 4294967246
    ensures GetOffset(P31, 3 * P31) == P31
  {
  }

  /**
   * As written, the same-slot condition above is not always met. 2^31 is a
   * multiple of the read size 2^18, so once the chunk ending at byte 2^31
   * has been read, ftell is exactly 2^31 while every offset in that chunk
   * is still below 2^31. getOffset then corrects an index that needed no
   * correction and overshoots by 2^32.
   */
  lemma GetOffsetOvershootsAtSlotBoundary(t: int)
    requires P31 - 262144 <= t < P31
    ensures GetOffset(Int32(t), P31) == t + P32
    ensures GetOffset(t, P31) == t + P32
  {
    assert Int32(t) == t;
  }

  /**
   * The evidently intended correction: the value congruent to the index
   * modulo 2^32 that lies in (pos - 2^32, pos], i.e. the closest offset at
   * or before the file position that the index can stand for.
   */
  function IntendedOffset(index: int, pos: int): (r: int)
    ensures (r - index) % P32 == 0
    ensures pos - P32 < r <= pos
  {
    pos - (pos - index) % P32
  }

  /**
   * The intended correction recovers the true offset t, from a wrapped
   * 32-bit index or from an unwrapped one, whenever t is at most 2^32 - 1
   * bytes behind the file position; slots do not matter.
   */
  lemma IntendedOffsetRecovers(t: int, pos: int)
    requires 0 <= pos - t < P32
    ensures IntendedOffset(Int32(t), pos) == t
    ensures IntendedOffset(t, pos) == t
  {
    var r := IntendedOffset(Int32(t), pos);
    assert (r - t) % P32 == 0;
  }
}
