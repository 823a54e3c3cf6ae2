// Unsigned 64-bit words and the byte extents built from them.
module Words {
  type u64 = x: int | 0 <= x < 0x1_0000_0000_0000_0000
  const MAX_U64: u64 := 0xffff_ffff_ffff_ffff

  function Max(x: u64, y: u64): u64 { if x > y then x else y }
  function Min(x: u64, y: u64): u64 { if x < y then x else y }

  datatype Extent = Extent(start: u64, end: u64)

  predicate Overlap(a: Extent, b: Extent) { a.start <= b.end && b.start <= a.end }

  // The order of the interval tree: by start, then by end.
  predicate Less(a: Extent, b: Extent) {
    a.start < b.start || (a.start == b.start && a.end < b.end)
  }

  /** Which is the order of the numbers whose digits, to the base 2^64, are start and end. */
  lemma LessIsNumeric(a: Extent, b: Extent)
    ensures Less(a, b) <==>
      a.start * 0x1_0000_0000_0000_0000 + a.end < b.start * 0x1_0000_0000_0000_0000 + b.end
  {
    if a.start < b.start {
      assert a.start + 1 <= b.start;
    } else if b.start < a.start {
      assert b.start + 1 <= a.start;
    }
  }
}
