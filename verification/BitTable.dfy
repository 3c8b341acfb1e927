/** The byte table of __rt_ffs: for each byte but zero, the number of its lowest one bit. */
module BitTables {
  const LOWEST_BIT: seq<seq<nat>> := [
    [0, 0, 1, 0, 2, 0, 1, 0, 3, 0, 1, 0, 2, 0, 1, 0],
    [4, 0, 1, 0, 2, 0, 1, 0, 3, 0, 1, 0, 2, 0, 1, 0],
    [5, 0, 1, 0, 2, 0, 1, 0, 3, 0, 1, 0, 2, 0, 1, 0],
    [4, 0, 1, 0, 2, 0, 1, 0, 3, 0, 1, 0, 2, 0, 1, 0],
    [6, 0, 1, 0, 2, 0, 1, 0, 3, 0, 1, 0, 2, 0, 1, 0],
    [4, 0, 1, 0, 2, 0, 1, 0, 3, 0, 1, 0, 2, 0, 1, 0],
    [5, 0, 1, 0, 2, 0, 1, 0, 3, 0, 1, 0, 2, 0, 1, 0],
    [4, 0, 1, 0, 2, 0, 1, 0, 3, 0, 1, 0, 2, 0, 1, 0],
    [7, 0, 1, 0, 2, 0, 1, 0, 3, 0, 1, 0, 2, 0, 1, 0],
    [4, 0, 1, 0, 2, 0, 1, 0, 3, 0, 1, 0, 2, 0, 1, 0],
    [5, 0, 1, 0, 2, 0, 1, 0, 3, 0, 1, 0, 2, 0, 1, 0],
    [4, 0, 1, 0, 2, 0, 1, 0, 3, 0, 1, 0, 2, 0, 1, 0],
    [6, 0, 1, 0, 2, 0, 1, 0, 3, 0, 1, 0, 2, 0, 1, 0],
    [4, 0, 1, 0, 2, 0, 1, 0, 3, 0, 1, 0, 2, 0, 1, 0],
    [5, 0, 1, 0, 2, 0, 1, 0, 3, 0, 1, 0, 2, 0, 1, 0],
    [4, 0, 1, 0, 2, 0, 1, 0, 3, 0, 1, 0, 2, 0, 1, 0]]

  /** The bits of a nibble as a number. */
  function Nibble(b0: bool, b1: bool, b2: bool, b3: bool): (v: nat)
    ensures v < 16
  {
    (if b0 then 1 else 0) + (if b1 then 2 else 0) + (if b2 then 4 else 0) + (if b3 then 8 else 0)
  }

  /** The number whose one bits are the elements of a set. */
  function Value(byte: set<nat>): (v: nat)
    ensures v < 256
  {
    Nibble(0 in byte, 1 in byte, 2 in byte, 3 in byte) + 16 * Nibble(4 in byte, 5 in byte, 6 in byte, 7 in byte)
  }

  function LookUp(v: nat): nat
    requires v < 256
  {
    LOWEST_BIT[v / 16][v % 16]
  }

  function Lowest(b0: bool, b1: bool, b2: bool): nat {
    if b0 then 0 else if b1 then 1 else if b2 then 2 else 3
  }

  lemma Row(h: nat, v: nat)
    requires h < 16 && 0 < v < 16
    ensures LOWEST_BIT[h][v] == [0, 0, 1, 0, 2, 0, 1, 0, 3, 0, 1, 0, 2, 0, 1, 0][v]
  {
  }

  lemma Column(h: nat)
    requires 0 < h < 16
    ensures LOWEST_BIT[h][0] == 4 + [0, 0, 1, 0, 2, 0, 1, 0, 3, 0, 1, 0, 2, 0, 1, 0][h]
  {
  }

  lemma NibbleLowest(b0: bool, b1: bool, b2: bool, b3: bool)
    requires b0 || b1 || b2 || b3
    ensures Nibble(b0, b1, b2, b3) > 0
    ensures [0, 0, 1, 0, 2, 0, 1, 0, 3, 0, 1, 0, 2, 0, 1, 0][Nibble(b0, b1, b2, b3)] == Lowest(b0, b1, b2)
  {
  }

  /** The table gives the lowest bit of every byte but zero. */
  lemma LookUpIsLowest(byte: set<nat>)
    requires exists b :: 0 <= b < 8 && b in byte
    ensures var r := LookUp(Value(byte)); r < 8 && r in byte && forall b :: 0 <= b < r ==> b !in byte
  {
    hide LookUp, Nibble;
    var low, high := Nibble(0 in byte, 1 in byte, 2 in byte, 3 in byte),
      Nibble(4 in byte, 5 in byte, 6 in byte, 7 in byte);
    assert Value(byte) / 16 == high && Value(byte) % 16 == low;
    LookUpAt(low, high);
    if 0 in byte || 1 in byte || 2 in byte || 3 in byte {
      NibbleLowest(0 in byte, 1 in byte, 2 in byte, 3 in byte);
    } else {
      NoBits();
      NibbleLowest(4 in byte, 5 in byte, 6 in byte, 7 in byte);
    }
  }

  lemma NoBits()
    ensures Nibble(false, false, false, false) == 0
  {
  }

  lemma LookUpAt(low: nat, high: nat)
    requires low < 16 && high < 16
    ensures low > 0 ==> LookUp(low + 16 * high) == [0, 0, 1, 0, 2, 0, 1, 0, 3, 0, 1, 0, 2, 0, 1, 0][low]
    ensures low == 0 < high ==> LookUp(low + 16 * high) == 4 + [0, 0, 1, 0, 2, 0, 1, 0, 3, 0, 1, 0, 2, 0, 1, 0][high]
  {
    assert (low + 16 * high) / 16 == high && (low + 16 * high) % 16 == low;
    if low > 0 { Row(high, low); } else if high > 0 { Column(high); }
  }
}
