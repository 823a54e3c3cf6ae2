/** Lock modes, their compatibility matrix, and the index of the interval tree that holds the locks of a mode. */
module LockModes {
  import opened Powers

  datatype Mode = EX | PW | PR | CW | CR | NL {
    // The value of the mode in the source: one bit each.
    function Bit(): nat {
      match this
      case EX => 1
      case PW => 2
      case PR => 4
      case CW => 8
      case CR => 16
      case NL => 32
    }

    // The modes that may be granted next to this one on overlapping extents.
    function CompatSet(): set<Mode> {
      match this
      case EX => {NL}
      case PW => {NL, CR}
      case PR => {NL, CR, PR}
      case CW => {NL, CR, CW}
      case CR => {NL, CR, CW, PR, PW}
      case NL => {NL, CR, CW, PR, PW, EX}
    }
  }

  // What is done to the bytes of an extent.
  datatype Access = Rd | Wr

  // What the holder of a mode may do, and what it lets others do meanwhile.
  ghost function Needs(mode: Mode): set<Access> {
    match mode
    case NL => {}
    case CR => {Rd}
    case PR => {Rd}
    case CW => {Rd, Wr}
    case PW => {Rd, Wr}
    case EX => {Rd, Wr}
  }

  ghost function Allows(mode: Mode): set<Access> {
    match mode
    case NL => {Rd, Wr}
    case CR => {Rd, Wr}
    case CW => {Rd, Wr}
    case PR => {Rd}
    case PW => {Rd}
    case EX => {}
  }

  const LCK_MODE_NUM: nat := 6

  predicate Compat(exist: Mode, newMode: Mode) { newMode in exist.CompatSet() }

  /** Two modes are compatible if and only if either holder lets the other do what it needs to do. */
  lemma CompatMeans(a: Mode, b: Mode)
    ensures Compat(a, b) <==> Needs(a) <= Allows(b) && Needs(b) <= Allows(a)
  {
    assert a.PW? || a.CW? || a.EX? ==> Rd in Needs(a) && Wr in Needs(a);
    assert b.PW? || b.CW? || b.EX? ==> Rd in Needs(b) && Wr in Needs(b);
    assert a.CR? || a.PR? ==> Rd in Needs(a);
    assert b.CR? || b.PR? ==> Rd in Needs(b);
  }

  lemma CompatSymmetric(a: Mode, b: Mode)
    ensures Compat(a, b) == Compat(b, a)
  {
    match a {
      case EX =>
      case PW =>
      case PR =>
      case CW =>
      case CR =>
      case NL =>
    }
  }

  // lit_mode of the tree at index i is 1 << i.
  function TreeMode(i: nat): Mode
    requires i < LCK_MODE_NUM
  {
    [EX, PW, PR, CW, CR, NL][i]
  }

  lemma TreeModeBit(i: nat)
    requires i < LCK_MODE_NUM
    ensures TreeMode(i).Bit() == Pow2(i)
  {
    assert Pow2(5) == 2 * Pow2(4) && Pow2(4) == 2 * Pow2(3) && Pow2(3) == 2 * Pow2(2);
  }

  ghost function Index(mode: Mode): nat {
    match mode
    case EX => 0
    case PW => 1
    case PR => 2
    case CW => 3
    case CR => 4
    case NL => 5
  }

  // Shifts the mode right until nothing is left; the number of shifts less one is the index.
  method LockModeToIndex(mode: Mode) returns (index: int)
    ensures 0 <= index < LCK_MODE_NUM && TreeMode(index) == mode && index == Index(mode)
  {
    var tmp := mode.Bit();
    index := -1;
    ghost var i := Index(mode);
    TreeModeBit(i);
    while tmp != 0
      invariant -1 <= index <= i
      invariant tmp == if index == i then 0 else Pow2(i - index - 1)
      decreases tmp
    {
      index := index + 1;
      tmp := tmp / 2;
    }
  }
}
