/**
  Hash-slot numbers and slot ranges. Slot numbers are Go `uint16` values, so
  every arithmetic step on them wraps modulo 2^16; the wrap is written out.
*/
module Slots {

  /** The number of uint16 values: slot arithmetic wraps modulo it. */
  const U16_MODULUS: int := 0x1_0000

  /** An unsigned 16-bit slot number. */
  newtype u16 = x: int | 0 <= x < 0x1_0000

  /** `x + 1` in uint16 arithmetic: 65535 wraps to 0. */
  function Inc16(x: u16): u16 {
    ((x as int + 1) % U16_MODULUS) as u16
  }

  /** `x - 1` in uint16 arithmetic: 0 wraps to 65535. */
  function Dec16(x: u16): u16 {
    ((x as int + U16_MODULUS - 1) % U16_MODULUS) as u16
  }

  /** Decrementing undoes incrementing, for every 16-bit value. */
  lemma DecInc(x: u16)
    ensures Dec16(Inc16(x)) == x
  {
    if x as int == U16_MODULUS - 1 {
      assert Inc16(x) == 0;
    } else {
      assert Inc16(x) as int == x as int + 1;
    }
  }

  /** Incrementing undoes decrementing, for every 16-bit value. */
  lemma IncDec(x: u16)
    ensures Inc16(Dec16(x)) == x
  {
    if x == 0 {
      assert Dec16(x) as int == U16_MODULUS - 1;
    } else {
      assert Dec16(x) as int == x as int - 1;
    }
  }

  /** The only value whose successor is 0 is 65535. */
  lemma IncWrapsOnlyAtTop(x: u16)
    ensures Inc16(x) == 0 <==> x as int == U16_MODULUS - 1
  {
    if x as int < U16_MODULUS - 1 {
      assert Inc16(x) as int == x as int + 1;
    }
  }

  /** A slot range: `start` is inclusive, `end` is exclusive (Go `[2]uint16`). */
  datatype SlotRange = SlotRange(start: u16, end: u16)

  /** Sort key of a range: its start. */
  function RangeStart(r: SlotRange): int {
    r.start as int
  }

  /** Ranges are in non-decreasing order of start. */
  ghost predicate StartsSorted(rs: seq<SlotRange>) {
    forall p, q :: 0 <= p < q < |rs| ==> rs[p].start <= rs[q].start
  }
}
