/**
  The SEC-DED Hamming code that the NAND driver keeps for every 256-byte block.

  A block has 2048 bits; the code has 22 used bits, a pair (odd, even) of parities for each of the
  eight bits of the byte index ("lines") and each of the three bits of the bit index ("columns").
  `Code` is the bit-by-bit definition. The driver computes it with a lookup table and two registers
  (`CalculateEcc`) and repairs a block with it (`CorrectData`).
 */
module NandEcc {

  // ---------------------------------------------------------------------------------------------
  // Bits of a byte
  // ---------------------------------------------------------------------------------------------

  predicate Bit(x: bv8, i: bv8)
    requires i < 8
  {
    (x >> i) & 1 == 1
  }

  function Xor(x: bv8, y: bv8): bv8 {
    x ^ y
  }

  function OneBit(i: bv8): bv8
    requires i < 8
  {
    1 << i
  }

  function Flip(x: bv8, i: bv8): bv8
    requires i < 8
  {
    Xor(x, OneBit(i))
  }

  /** Exclusive or of a sequence of bits. */
  predicate Parity(s: seq<bool>) {
    s != [] && Parity(s[..|s| - 1]) != s[|s| - 1]
  }

  function Bits(x: bv8): seq<bool> {
    seq(8, i requires 0 <= i < 8 => Bit(x, i as bv8))
  }

  predicate Odd(x: bv8) {
    Parity(Bits(x))
  }

  // ---------------------------------------------------------------------------------------------
  // The bit-by-bit definition of the code
  // ---------------------------------------------------------------------------------------------

  /** The bits of one byte whose position has `v` as its bit `i`. */
  function Picked(x: bv8, i: bv8, v: bool): seq<bool>
    requires i < 3
  {
    seq(8, b requires 0 <= b < 8 => Bit(x, b as bv8) && Bit(b as bv8, i) == v)
  }

  predicate ByteColumn(x: bv8, i: bv8, v: bool)
    requires i < 3
  {
    Parity(Picked(x, i, v))
  }

  function ColumnBits(d: seq<bv8>, i: bv8, v: bool): seq<bool>
    requires i < 3
  {
    seq(|d|, j requires 0 <= j < |d| => ByteColumn(d[j], i, v))
  }

  function LineBits(d: seq<bv8>, i: bv8, v: bool): seq<bool>
    requires i < 8 && |d| <= 256
  {
    seq(|d|, j requires 0 <= j < |d| => Bit(j as bv8, i) == v && Odd(d[j]))
  }

  /** CP(2i+1) for `v`, CP(2i) for `!v`: parity of all bits at positions with `v` as bit `i`. */
  predicate ColumnParity(d: seq<bv8>, i: bv8, v: bool)
    requires i < 3
  {
    Parity(ColumnBits(d, i, v))
  }

  /** LP(2i+1) for `v`, LP(2i) for `!v`: parity of all bytes whose index has `v` as bit `i`. */
  predicate LineParity(d: seq<bv8>, i: bv8, v: bool)
    requires i < 8 && |d| <= 256
  {
    Parity(LineBits(d, i, v))
  }

  datatype Ecc = Ecc(b0: bv8, b1: bv8, b2: bv8)

  /** Bits `k` and `k+1` of a code byte are the even and the odd line parity of index bit `i`. */
  predicate LinePair(x: bv8, k: bv8, d: seq<bv8>, i: bv8)
    requires |d| <= 256 && i < 8 && k < 7
  {
    Bit(x, k) == LineParity(d, i, false) && Bit(x, k + 1) == LineParity(d, i, true)
  }

  predicate ColumnPair(x: bv8, k: bv8, d: seq<bv8>, i: bv8)
    requires i < 3 && k < 7
  {
    Bit(x, k) == ColumnParity(d, i, false) && Bit(x, k + 1) == ColumnParity(d, i, true)
  }

  predicate HoldsLines(x: bv8, d: seq<bv8>, i: bv8)
    requires |d| <= 256 && i <= 4
  {
    LinePair(x, 0, d, i) && LinePair(x, 2, d, i + 1) && LinePair(x, 4, d, i + 2) && LinePair(x, 6, d, i + 3)
  }

  predicate HoldsColumns(x: bv8, d: seq<bv8>) {
    x & 3 == 0 && ColumnPair(x, 2, d, 0) && ColumnPair(x, 4, d, 1) && ColumnPair(x, 6, d, 2)
  }

  /** The twenty-two parities of a block, in the order of the code bytes. */
  predicate IsParities(p: Ecc, d: seq<bv8>)
    requires |d| <= 256
  {
    HoldsLines(p.b0, d, 4) && HoldsLines(p.b1, d, 0) && HoldsColumns(p.b2, d)
  }

  function XorEcc(c: Ecc, c': Ecc): Ecc {
    Ecc(Xor(c.b0, c'.b0), Xor(c.b1, c'.b1), Xor(c.b2, c'.b2))
  }

  function Invert(c: Ecc): Ecc {
    Ecc(!c.b0, !c.b1, !c.b2)
  }

  /** The code of a block is its inverted parities. */
  predicate IsCode(c: Ecc, d: seq<bv8>)
    requires |d| == 256
  {
    IsParities(Invert(c), d)
  }

  // ---------------------------------------------------------------------------------------------
  // Parity is linear
  // ---------------------------------------------------------------------------------------------

  lemma BitXor(x: bv8, y: bv8, i: bv8)
    requires i < 8
    ensures Bit(x ^ y, i) == (Bit(x, i) != Bit(y, i))
  {
  }

  lemma {:induction false} ParityLinear(s: seq<bool>, t: seq<bool>, u: seq<bool>)
    requires |s| == |t| == |u|
    requires forall k | 0 <= k < |s| :: s[k] == (t[k] != u[k])
    ensures Parity(s) == (Parity(t) != Parity(u))
  {
    if s == [] {
    } else {
      var n := |s| - 1;
      ParityLinear(s[..n], t[..n], u[..n]);
    }
  }

  lemma OddLinear(x: bv8, y: bv8)
    ensures Odd(x ^ y) == (Odd(x) != Odd(y))
  {
    forall k | 0 <= k < 8
      ensures Bits(x ^ y)[k] == (Bits(x)[k] != Bits(y)[k])
    {
      BitXor(x, y, k as bv8);
    }
    ParityLinear(Bits(x ^ y), Bits(x), Bits(y));
  }

  lemma ByteColumnLinear(x: bv8, y: bv8, i: bv8, v: bool)
    requires i < 3
    ensures ByteColumn(x ^ y, i, v) == (ByteColumn(x, i, v) != ByteColumn(y, i, v))
  {
    forall k | 0 <= k < 8
      ensures Picked(x ^ y, i, v)[k] == (Picked(x, i, v)[k] != Picked(y, i, v)[k])
    {
      BitXor(x, y, k as bv8);
    }
    ParityLinear(Picked(x ^ y, i, v), Picked(x, i, v), Picked(y, i, v));
  }

  ghost predicate IsXor(f: seq<bv8>, d: seq<bv8>, e: seq<bv8>) {
    |f| == |d| == |e| && forall k | 0 <= k < |f| :: f[k] == d[k] ^ e[k]
  }

  lemma LineParityLinear(f: seq<bv8>, d: seq<bv8>, e: seq<bv8>, i: bv8, v: bool)
    requires IsXor(f, d, e) && |d| <= 256 && i < 8
    ensures LineParity(f, i, v) == (LineParity(d, i, v) != LineParity(e, i, v))
  {
    forall k | 0 <= k < |d|
      ensures LineBits(f, i, v)[k] == (LineBits(d, i, v)[k] != LineBits(e, i, v)[k])
    {
      OddLinear(d[k], e[k]);
    }
    ParityLinear(LineBits(f, i, v), LineBits(d, i, v), LineBits(e, i, v));
  }

  lemma ColumnParityLinear(f: seq<bv8>, d: seq<bv8>, e: seq<bv8>, i: bv8, v: bool)
    requires IsXor(f, d, e) && i < 3
    ensures ColumnParity(f, i, v) == (ColumnParity(d, i, v) != ColumnParity(e, i, v))
  {
    forall k | 0 <= k < |d|
      ensures ColumnBits(f, i, v)[k] == (ColumnBits(d, i, v)[k] != ColumnBits(e, i, v)[k])
    {
      ByteColumnLinear(d[k], e[k], i, v);
    }
    ParityLinear(ColumnBits(f, i, v), ColumnBits(d, i, v), ColumnBits(e, i, v));
  }

  lemma LinePairLinear(x: bv8, y: bv8, k: bv8, f: seq<bv8>, d: seq<bv8>, e: seq<bv8>, i: bv8)
    requires IsXor(f, d, e) && |d| <= 256 && i < 8 && k < 7
    requires LinePair(x, k, d, i) && LinePair(y, k, e, i)
    ensures LinePair(x ^ y, k, f, i)
  {
    LineParityLinear(f, d, e, i, false);
    LineParityLinear(f, d, e, i, true);
    BitXor(x, y, k);
    BitXor(x, y, k + 1);
  }

  lemma ColumnPairLinear(x: bv8, y: bv8, k: bv8, f: seq<bv8>, d: seq<bv8>, e: seq<bv8>, i: bv8)
    requires IsXor(f, d, e) && i < 3 && k < 7
    requires ColumnPair(x, k, d, i) && ColumnPair(y, k, e, i)
    ensures ColumnPair(x ^ y, k, f, i)
  {
    ColumnParityLinear(f, d, e, i, false);
    ColumnParityLinear(f, d, e, i, true);
    BitXor(x, y, k);
    BitXor(x, y, k + 1);
  }

  lemma LinesLinear(x: bv8, y: bv8, f: seq<bv8>, d: seq<bv8>, e: seq<bv8>, i: bv8)
    requires IsXor(f, d, e) && |d| <= 256 && i <= 4
    requires HoldsLines(x, d, i) && HoldsLines(y, e, i)
    ensures HoldsLines(Xor(x, y), f, i)
  {
    LinePairLinear(x, y, 0, f, d, e, i);
    LinePairLinear(x, y, 2, f, d, e, i + 1);
    LinePairLinear(x, y, 4, f, d, e, i + 2);
    LinePairLinear(x, y, 6, f, d, e, i + 3);
  }

  lemma ColumnsLinear(x: bv8, y: bv8, f: seq<bv8>, d: seq<bv8>, e: seq<bv8>)
    requires IsXor(f, d, e)
    requires HoldsColumns(x, d) && HoldsColumns(y, e)
    ensures HoldsColumns(Xor(x, y), f)
  {
    ColumnPairLinear(x, y, 2, f, d, e, 0);
    ColumnPairLinear(x, y, 4, f, d, e, 1);
    ColumnPairLinear(x, y, 6, f, d, e, 2);
    assert (x ^ y) & 3 == (x & 3) ^ (y & 3);
  }

  lemma SameBits(x: bv8, y: bv8)
    requires Bit(x, 0) == Bit(y, 0) && Bit(x, 1) == Bit(y, 1) && Bit(x, 2) == Bit(y, 2) && Bit(x, 3) == Bit(y, 3)
    requires Bit(x, 4) == Bit(y, 4) && Bit(x, 5) == Bit(y, 5) && Bit(x, 6) == Bit(y, 6) && Bit(x, 7) == Bit(y, 7)
    ensures x == y
  {
  }

  lemma ParitiesUnique(p: Ecc, q: Ecc, d: seq<bv8>)
    requires |d| <= 256 && IsParities(p, d) && IsParities(q, d)
    ensures p == q
  {
    SameBits(p.b0, q.b0);
    SameBits(p.b1, q.b1);
    SameColumns(p.b2, q.b2);
  }

  lemma SameColumns(x: bv8, y: bv8)
    requires Bit(x, 2) == Bit(y, 2) && Bit(x, 3) == Bit(y, 3) && Bit(x, 4) == Bit(y, 4)
    requires Bit(x, 5) == Bit(y, 5) && Bit(x, 6) == Bit(y, 6) && Bit(x, 7) == Bit(y, 7)
    requires x & 3 == y & 3
    ensures x == y
  {
  }

  lemma ParitiesLinear(p: Ecc, q: Ecc, f: seq<bv8>, d: seq<bv8>, e: seq<bv8>)
    requires IsXor(f, d, e) && |d| <= 256 && IsParities(p, d) && IsParities(q, e)
    ensures IsParities(XorEcc(p, q), f)
  {
    hide HoldsLines, HoldsColumns, Xor;
    LinesLinear(p.b0, q.b0, f, d, e, 4);
    LinesLinear(p.b1, q.b1, f, d, e, 0);
    ColumnsLinear(p.b2, q.b2, f, d, e);
  }

  // ---------------------------------------------------------------------------------------------
  // The code of a block as a function
  // ---------------------------------------------------------------------------------------------

  function Pack(b7: bool, b6: bool, b5: bool, b4: bool, b3: bool, b2: bool, b1: bool, b0: bool): bv8 {
    (if b7 then 0x80 else 0) | (if b6 then 0x40 else 0) | (if b5 then 0x20 else 0)
    | (if b4 then 0x10 else 0) | (if b3 then 8 else 0) | (if b2 then 4 else 0)
    | (if b1 then 2 else 0) | (if b0 then 1 else 0)
  }

  lemma PackBits(b7: bool, b6: bool, b5: bool, b4: bool, b3: bool, b2: bool, b1: bool, b0: bool)
    ensures var x := Pack(b7, b6, b5, b4, b3, b2, b1, b0);
            && Bit(x, 7) == b7 && Bit(x, 6) == b6 && Bit(x, 5) == b5 && Bit(x, 4) == b4
            && Bit(x, 3) == b3 && Bit(x, 2) == b2 && Bit(x, 1) == b1 && Bit(x, 0) == b0
    ensures !b1 && !b0 ==> Pack(b7, b6, b5, b4, b3, b2, b1, b0) & 3 == 0
  {
  }

  function LineByte(d: seq<bv8>, i: bv8): (x: bv8)
    requires |d| <= 256 && i <= 4
    ensures HoldsLines(x, d, i)
  {
    var o3, e3 := LineParity(d, i + 3, true), LineParity(d, i + 3, false);
    var o2, e2 := LineParity(d, i + 2, true), LineParity(d, i + 2, false);
    var o1, e1 := LineParity(d, i + 1, true), LineParity(d, i + 1, false);
    var o0, e0 := LineParity(d, i, true), LineParity(d, i, false);
    PackBits(o3, e3, o2, e2, o1, e1, o0, e0);
    Pack(o3, e3, o2, e2, o1, e1, o0, e0)
  }

  function ColumnByte(d: seq<bv8>): (x: bv8)
    ensures HoldsColumns(x, d)
  {
    var o2, e2 := ColumnParity(d, 2, true), ColumnParity(d, 2, false);
    var o1, e1 := ColumnParity(d, 1, true), ColumnParity(d, 1, false);
    var o0, e0 := ColumnParity(d, 0, true), ColumnParity(d, 0, false);
    PackBits(o2, e2, o1, e1, o0, e0, false, false);
    Pack(o2, e2, o1, e1, o0, e0, false, false)
  }

  /** The code of a block: its parities, inverted. */
  function Code(d: seq<bv8>): (c: Ecc)
    requires |d| == 256
    ensures IsCode(c, d)
  {
    var p := Ecc(LineByte(d, 4), LineByte(d, 0), ColumnByte(d));
    InvertTwice(p);
    Invert(p)
  }

  lemma InvertTwice(c: Ecc)
    ensures Invert(Invert(c)) == c
  {
  }

  lemma CodeUnique(c: Ecc, d: seq<bv8>)
    requires |d| == 256 && IsCode(c, d)
    ensures c == Code(d)
  {
    ParitiesUnique(Invert(c), Invert(Code(d)), d);
    InvertTwice(c);
    InvertTwice(Code(d));
  }

  lemma InvertXor(a: Ecc, b: Ecc)
    ensures XorEcc(Invert(a), Invert(b)) == XorEcc(a, b)
  {
  }

  /** The exclusive or of two blocks' codes is fixed by the exclusive or of the blocks. */
  lemma CodeIsLinear(f: seq<bv8>, d: seq<bv8>, e: seq<bv8>)
    requires IsXor(f, d, e) && |d| == 256
    ensures IsParities(XorEcc(Code(d), Code(e)), f)
    ensures Code(f) == Invert(XorEcc(Code(d), Code(e)))
  {
    ParitiesLinear(Invert(Code(d)), Invert(Code(e)), f, d, e);
    InvertXor(Code(d), Code(e));
    InvertTwice(XorEcc(Code(d), Code(e)));
    CodeUnique(Invert(XorEcc(Code(d), Code(e))), f);
  }

  // ---------------------------------------------------------------------------------------------
  // The syndrome of one flipped bit
  // ---------------------------------------------------------------------------------------------

  /** Four bits spread over the even positions of a byte. */
  function Spread(n: bv8): bv8 {
    ((n & 8) << 3) | ((n & 4) << 2) | ((n & 2) << 1) | (n & 1)
  }

  function Interleave(odd: bv8, even: bv8): bv8 {
    (Spread(odd) << 1) | Spread(even)
  }

  lemma InterleaveBits(odd: bv8, even: bv8)
    ensures var x := Interleave(odd, even);
            && Bit(x, 0) == Bit(even, 0) && Bit(x, 1) == Bit(odd, 0)
            && Bit(x, 2) == Bit(even, 1) && Bit(x, 3) == Bit(odd, 1)
            && Bit(x, 4) == Bit(even, 2) && Bit(x, 5) == Bit(odd, 2)
            && Bit(x, 6) == Bit(even, 3) && Bit(x, 7) == Bit(odd, 3)
  {
  }

  /** The parities of a block whose only one bit is bit `b` of byte `j`. */
  function Single(j: bv8, b: bv8): Ecc {
    Ecc(Interleave(j >> 4, (!j) >> 4), Interleave(j & 15, (!j) & 15), Interleave(b & 7, (!b) & 7) << 2)
  }

  lemma SingleBits(j: bv8, b: bv8)
    requires b < 8
    ensures var s := Single(j, b);
            && Bit(s.b0, 0) == !Bit(j, 4) && Bit(s.b0, 1) == Bit(j, 4)
            && Bit(s.b0, 2) == !Bit(j, 5) && Bit(s.b0, 3) == Bit(j, 5)
            && Bit(s.b0, 4) == !Bit(j, 6) && Bit(s.b0, 5) == Bit(j, 6)
            && Bit(s.b0, 6) == !Bit(j, 7) && Bit(s.b0, 7) == Bit(j, 7)
            && Bit(s.b1, 0) == !Bit(j, 0) && Bit(s.b1, 1) == Bit(j, 0)
            && Bit(s.b1, 2) == !Bit(j, 1) && Bit(s.b1, 3) == Bit(j, 1)
            && Bit(s.b1, 4) == !Bit(j, 2) && Bit(s.b1, 5) == Bit(j, 2)
            && Bit(s.b1, 6) == !Bit(j, 3) && Bit(s.b1, 7) == Bit(j, 3)
            && Bit(s.b2, 2) == !Bit(b, 0) && Bit(s.b2, 3) == Bit(b, 0)
            && Bit(s.b2, 4) == !Bit(b, 1) && Bit(s.b2, 5) == Bit(b, 1)
            && Bit(s.b2, 6) == !Bit(b, 2) && Bit(s.b2, 7) == Bit(b, 2)
            && s.b2 & 3 == 0
  {
  }

  lemma {:induction false} ParityOfOne(s: seq<bool>, j: nat)
    requires forall k | 0 <= k < |s| && k != j :: !s[k]
    ensures Parity(s) == (j < |s| && s[j])
  {
    if s == [] {
    } else {
      ParityOfOne(s[..|s| - 1], j);
    }
  }

  function Unit(j: nat, b: bv8): seq<bv8>
    requires b < 8
  {
    seq(256, k => if k == j then OneBit(b) else 0)
  }

  lemma UnitByte(b: bv8)
    requires b < 8
    ensures Odd(OneBit(b)) && !Odd(0)
  {
    forall k | 0 <= k < 8
      ensures Bits(OneBit(b))[k] == (k == b as nat) && !Bits(0)[k]
    {
    }
    ParityOfOne(Bits(OneBit(b)), b as nat);
    ParityOfOne(Bits(0), 0);
  }

  lemma LineOfOne(d: seq<bv8>, j: nat, i: bv8, v: bool)
    requires |d| <= 256 && j < |d| && i < 8
    requires Odd(d[j]) && forall k | 0 <= k < |d| && k != j :: !Odd(d[k])
    ensures LineParity(d, i, v) == (Bit(j as bv8, i) == v)
  {
    ParityOfOne(LineBits(d, i, v), j);
  }

  lemma UnitLine(j: bv8, b: bv8, i: bv8, v: bool)
    requires b < 8 && i < 8
    ensures LineParity(Unit(j as nat, b), i, v) == (Bit(j, i) == v)
  {
    UnitByte(b);
    LineOfOne(Unit(j as nat, b), j as nat, i, v);
  }

  lemma UnitColumnByte(b: bv8, i: bv8, v: bool)
    requires b < 8 && i < 3
    ensures ByteColumn(OneBit(b), i, v) == (Bit(b, i) == v)
    ensures !ByteColumn(0, i, v)
  {
    forall k | 0 <= k < 8
      ensures Picked(OneBit(b), i, v)[k] == (k == b as nat && Bit(b, i) == v)
      ensures !Picked(0, i, v)[k]
    {
      assert Bits(OneBit(b))[k] == (k == b as nat);
      assert !Bits(0)[k];
    }
    ParityOfOne(Picked(OneBit(b), i, v), b as nat);
    ParityOfOne(Picked(0, i, v), 0);
  }

  lemma UnitColumn(j: bv8, b: bv8, i: bv8, v: bool)
    requires b < 8 && i < 3
    ensures ColumnParity(Unit(j as nat, b), i, v) == (Bit(b, i) == v)
  {
    UnitColumnByte(b, i, v);
    ParityOfOne(ColumnBits(Unit(j as nat, b), i, v), j as nat);
  }

  lemma UnitLinePair(x: bv8, k: bv8, j: bv8, b: bv8, i: bv8)
    requires b < 8 && i < 8 && k < 7
    requires Bit(x, k) == !Bit(j, i) && Bit(x, k + 1) == Bit(j, i)
    ensures LinePair(x, k, Unit(j as nat, b), i)
  {
    UnitLine(j, b, i, false);
    UnitLine(j, b, i, true);
  }

  lemma UnitColumnPair(x: bv8, k: bv8, j: bv8, b: bv8, i: bv8)
    requires b < 8 && i < 3 && k < 7
    requires Bit(x, k) == !Bit(b, i) && Bit(x, k + 1) == Bit(b, i)
    ensures ColumnPair(x, k, Unit(j as nat, b), i)
  {
    UnitColumn(j, b, i, false);
    UnitColumn(j, b, i, true);
  }

  lemma SingleIsParities(j: bv8, b: bv8)
    requires b < 8
    ensures IsParities(Single(j, b), Unit(j as nat, b))
  {
    var s := Single(j, b);
    SingleBits(j, b);
    UnitLinePair(s.b0, 0, j, b, 4);
    UnitLinePair(s.b0, 2, j, b, 5);
    UnitLinePair(s.b0, 4, j, b, 6);
    UnitLinePair(s.b0, 6, j, b, 7);
    UnitLinePair(s.b1, 0, j, b, 0);
    UnitLinePair(s.b1, 2, j, b, 1);
    UnitLinePair(s.b1, 4, j, b, 2);
    UnitLinePair(s.b1, 6, j, b, 3);
    UnitColumnPair(s.b2, 2, j, b, 0);
    UnitColumnPair(s.b2, 4, j, b, 1);
    UnitColumnPair(s.b2, 6, j, b, 2);
  }

  lemma FlipIsXor(d: seq<bv8>, j: bv8, b: bv8)
    requires |d| == 256 && b < 8
    ensures IsXor(d[j as nat := Flip(d[j as nat], b)], d, Unit(j as nat, b))
  {
    hide Flip, OneBit, Unit;
    UnitLength(j as nat, b);
    forall k | 0 <= k < 256
      ensures d[j as nat := Flip(d[j as nat], b)][k] == d[k] ^ Unit(j as nat, b)[k]
    {
      FlippedAt(d, j as nat, b, k);
    }
  }

  lemma UnitLength(j: nat, b: bv8)
    requires j < 256 && b < 8
    ensures |Unit(j, b)| == 256
  {
  }

  lemma FlippedAt(d: seq<bv8>, j: nat, b: bv8, k: nat)
    requires |d| == 256 && b < 8 && j < 256 && k < 256
    ensures |Unit(j, b)| == 256 && d[j := Flip(d[j], b)][k] == d[k] ^ Unit(j, b)[k]
  {
    hide Flip, OneBit, Unit;
    UnitAt(j, b, k);
    FlippedByte(d[k], b);
  }

  lemma UnitAt(j: nat, b: bv8, k: nat)
    requires j < 256 && b < 8 && k < 256
    ensures |Unit(j, b)| == 256 && Unit(j, b)[k] == if k == j then OneBit(b) else 0
  {
    hide OneBit;
  }

  lemma FlippedByte(x: bv8, b: bv8)
    requires b < 8
    ensures Flip(x, b) == x ^ OneBit(b) && x ^ 0 == x
  {
  }

  /** Flipping one data bit changes the code by the syndrome of that bit. */
  lemma CodeAfterFlip(d: seq<bv8>, j: bv8, b: bv8)
    requires |d| == 256 && b < 8
    ensures Code(d[j as nat := Flip(d[j as nat], b)]) == XorEcc(Code(d), Single(j, b))
  {
    var d' := d[j as nat := Flip(d[j as nat], b)];
    FlipIsXor(d, j, b);
    SingleIsParities(j, b);
    var e := Unit(j as nat, b);
    CodeIsLinear(d', d, e);
    ParitiesUnique(Single(j, b), Invert(Code(e)), e);
    InvertedRight(Code(d), Code(e));
  }

  lemma InvertedRight(a: Ecc, b: Ecc)
    ensures Invert(XorEcc(a, b)) == XorEcc(a, Invert(b))
  {
  }

  // ---------------------------------------------------------------------------------------------
  // The corrector
  // ---------------------------------------------------------------------------------------------

  function BitCount(x: bv8, i: bv8): nat
    requires i < 8
  {
    if Bit(x, i) then 1 else 0
  }

  /** Number of one bits. */
  function Weight(x: bv8): nat {
    BitCount(x, 0) + BitCount(x, 1) + BitCount(x, 2) + BitCount(x, 3)
    + BitCount(x, 4) + BitCount(x, 5) + BitCount(x, 6) + BitCount(x, 7)
  }

  predicate LinePairsDiffer(x: bv8) {
    Bit(x, 0) != Bit(x, 1) && Bit(x, 2) != Bit(x, 3) && Bit(x, 4) != Bit(x, 5) && Bit(x, 6) != Bit(x, 7)
  }

  predicate ColumnPairsDiffer(x: bv8) {
    Bit(x, 2) != Bit(x, 3) && Bit(x, 4) != Bit(x, 5) && Bit(x, 6) != Bit(x, 7)
  }

  /** Each of the eleven parity pairs differs in exactly one of its two bits. */
  predicate PairsDiffer(s: Ecc) {
    LinePairsDiffer(s.b0) && LinePairsDiffer(s.b1) && ColumnPairsDiffer(s.b2)
  }

  /** The odd-numbered bits of a byte, gathered into four. */
  function Gather(x: bv8): bv8 {
    ((x >> 4) & 8) | ((x >> 3) & 4) | ((x >> 2) & 2) | ((x >> 1) & 1)
  }

  function ErrorByte(s: Ecc): bv8 {
    (Gather(s.b0) << 4) | Gather(s.b1)
  }

  function ErrorBit(s: Ecc): bv8 {
    Gather(s.b2) >> 1
  }

  function Verdict(s: Ecc): int {
    if s == Ecc(0, 0, 0) then 0
    else if PairsDiffer(s) then 1
    else if Weight(s.b0) + Weight(s.b1) + Weight(s.b2) == 1 then 2
    else -1
  }

  datatype Stored = Stored(data: seq<bv8>, ecc: Ecc)

  /** The verdict on a stored block whose data has the code `computed`, and what the block becomes. */
  function Correct(w: Stored, computed: Ecc): (int, Stored)
    requires |w.data| == 256
  {
    var s := XorEcc(computed, w.ecc);
    var j := ErrorByte(s) as nat;
    (Verdict(s),
     if Verdict(s) == 1 then w.(data := w.data[j := Flip(w.data[j], ErrorBit(s))])
     else if Verdict(s) == 2 then w.(ecc := computed)
     else w)
  }

  /** Recompute the code of a stored block and correct the block by it. */
  function Repair(w: Stored): (int, Stored)
    requires |w.data| == 256
  {
    Correct(w, Code(w.data))
  }

  /** A bit of a stored block: one of the 2048 data bits, or one of the 22 used code bits. */
  datatype Position = DataBit(j: bv8, b: bv8) | CodeBit(k: nat, b: bv8) {
    predicate Valid() {
      b < 8 && (CodeBit? ==> k < 3 && (k == 2 ==> 2 <= b))
    }
  }

  function FlipCode(c: Ecc, k: nat, b: bv8): Ecc
    requires k < 3 && b < 8
  {
    if k == 0 then c.(b0 := Flip(c.b0, b))
    else if k == 1 then c.(b1 := Flip(c.b1, b))
    else c.(b2 := Flip(c.b2, b))
  }

  function Damage(w: Stored, p: Position): (w': Stored)
    requires |w.data| == 256 && p.Valid()
    ensures |w'.data| == 256
  {
    match p
    case DataBit(j, b) => w.(data := w.data[j as nat := Flip(w.data[j as nat], b)])
    case CodeBit(k, b) => w.(ecc := FlipCode(w.ecc, k, b))
  }

  function Syndrome(w: Stored): Ecc
    requires |w.data| == 256
  {
    XorEcc(Code(w.data), w.ecc)
  }

  /** What damage at one position adds to the syndrome. */
  function Trace(p: Position): Ecc
    requires p.Valid()
  {
    match p
    case DataBit(j, b) => Single(j, b)
    case CodeBit(k, b) => FlipCode(Ecc(0, 0, 0), k, b)
  }

  lemma XorRight(a: Ecc, b: Ecc, c: Ecc)
    ensures XorEcc(XorEcc(a, c), b) == XorEcc(XorEcc(a, b), c)
  {
  }

  lemma XorAssociates(x: bv8, y: bv8, z: bv8)
    ensures Xor(x, Xor(y, z)) == Xor(Xor(x, y), Xor(0, z))
    ensures Xor(Xor(x, y), 0) == Xor(x, y)
  {
  }

  lemma XorNothing(a: Ecc, c: Ecc)
    ensures XorEcc(XorEcc(a, c), Ecc(0, 0, 0)) == XorEcc(a, c)
  {
  }

  lemma FlipCodeTrace(a: Ecc, c: Ecc, k: nat, b: bv8)
    requires k < 3 && b < 8
    ensures XorEcc(a, FlipCode(c, k, b)) == XorEcc(XorEcc(a, c), FlipCode(Ecc(0, 0, 0), k, b))
  {
    hide OneBit, Xor;
    if k == 0 {
      XorAssociates(a.b0, c.b0, OneBit(b));
    } else if k == 1 {
      XorAssociates(a.b1, c.b1, OneBit(b));
    } else {
      XorAssociates(a.b2, c.b2, OneBit(b));
    }
    XorNothing(a, c);
  }

  lemma DamageSyndrome(w: Stored, p: Position)
    requires |w.data| == 256 && p.Valid()
    ensures Syndrome(Damage(w, p)) == XorEcc(Syndrome(w), Trace(p))
  {
    match p
    case DataBit(j, b) =>
      CodeAfterFlip(w.data, j, b);
      XorRight(Code(w.data), w.ecc, Single(j, b));
    case CodeBit(k, b) =>
      FlipCodeTrace(Code(w.data), w.ecc, k, b);
  }

  // ---------------------------------------------------------------------------------------------
  // Single-error correction, double-error detection
  // ---------------------------------------------------------------------------------------------

  lemma SingleVerdict(j: bv8, b: bv8)
    requires b < 8
    ensures Verdict(Single(j, b)) == 1
    ensures ErrorByte(Single(j, b)) == j && ErrorBit(Single(j, b)) == b
  {
    SingleBits(j, b);
  }

  lemma WeightOfOne(b: bv8)
    requires b < 8
    ensures Weight(Flip(0, b)) == 1
  {
  }

  lemma WeightOfZero()
    ensures Weight(0) == 0 && Xor(0, 0) == 0 && !LinePairsDiffer(0) && !ColumnPairsDiffer(0)
  {
  }

  lemma WeightOfTwo(b: bv8, b': bv8)
    requires b < 8 && b' < 8 && b != b'
    ensures Weight(Xor(Flip(0, b), Flip(0, b'))) == 2
  {
  }

  lemma WeightOfPairs(x: bv8)
    requires LinePairsDiffer(x)
    ensures Weight(x) == 4
  {
  }

  lemma CodeBitVerdict(p: Position)
    requires p.Valid() && p.CodeBit?
    ensures Verdict(Trace(p)) == 2
  {
    WeightOfOne(p.b);
    WeightOfZero();
  }

  predicate LinePairsEqual(x: bv8) {
    Bit(x, 0) == Bit(x, 1) && Bit(x, 2) == Bit(x, 3) && Bit(x, 4) == Bit(x, 5) && Bit(x, 6) == Bit(x, 7)
  }

  lemma EvenWeight(x: bv8)
    requires LinePairsEqual(x)
    ensures Weight(x) % 2 == 0 && !LinePairsDiffer(x)
  {
  }

  lemma PairsEqualXor(x: bv8, y: bv8)
    requires LinePairsDiffer(x) && LinePairsDiffer(y)
    ensures LinePairsEqual(Xor(x, y))
  {
  }

  lemma ColumnPairsEqualXor(x: bv8, y: bv8)
    requires ColumnPairsDiffer(x) && ColumnPairsDiffer(y) && x & 3 == y & 3
    ensures LinePairsEqual(Xor(x, y))
  {
  }

  lemma XorIsZero(a: Ecc, c: Ecc)
    requires XorEcc(a, c) == Ecc(0, 0, 0)
    ensures a == c
  {
  }

  lemma SinglePairs(j: bv8, b: bv8)
    requires b < 8
    ensures PairsDiffer(Single(j, b)) && Single(j, b).b2 & 3 == 0
  {
    SingleBits(j, b);
  }

  lemma TwoDataVerdict(j: bv8, b: bv8, j': bv8, b': bv8)
    requires b < 8 && b' < 8 && (j != j' || b != b')
    ensures Verdict(XorEcc(Single(j, b), Single(j', b'))) == -1
  {
    hide Single, Weight, Bit, ErrorByte, ErrorBit, Xor;
    var x, y := Single(j, b), Single(j', b');
    SinglePairs(j, b);
    SinglePairs(j', b');
    PairsEqualXor(x.b0, y.b0);
    PairsEqualXor(x.b1, y.b1);
    ColumnPairsEqualXor(x.b2, y.b2);
    EvenWeight(Xor(x.b0, y.b0));
    EvenWeight(Xor(x.b1, y.b1));
    EvenWeight(Xor(x.b2, y.b2));
    if XorEcc(x, y) == Ecc(0, 0, 0) {
      XorIsZero(x, y);
      SingleVerdict(j, b);
      SingleVerdict(j', b');
    }
  }

  lemma FlippedPair(x: bv8, b: bv8)
    requires b < 8
    ensures LinePairsDiffer(x) ==> !LinePairsDiffer(Xor(x, Flip(0, b)))
    ensures ColumnPairsDiffer(x) && 2 <= b ==> !ColumnPairsDiffer(Xor(x, Flip(0, b)))
    ensures Xor(x, 0) == x
  {
  }

  lemma DataCodeVerdict(j: bv8, b: bv8, p: Position)
    requires b < 8 && p.CodeBit? && p.Valid()
    ensures Verdict(XorEcc(Single(j, b), Trace(p))) == -1
  {
    hide Single, Weight, Bit, Xor, Flip;
    var x := Single(j, b);
    SinglePairs(j, b);
    FlippedPair(x.b0, p.b);
    FlippedPair(x.b1, p.b);
    FlippedPair(x.b2, p.b);
    WeightOfPairs(x.b0);
    WeightOfPairs(x.b1);
    WeightOfZero();
  }

  lemma XorZero(x: bv8)
    ensures Xor(x, 0) == x == Xor(0, x)
  {
  }

  lemma TwoCodeVerdict(p: Position, q: Position)
    requires p.CodeBit? && q.CodeBit? && p.Valid() && q.Valid() && p != q
    ensures Verdict(XorEcc(Trace(p), Trace(q))) == -1
  {
    hide Weight, LinePairsDiffer, ColumnPairsDiffer, Xor, Flip;
    WeightOfOne(p.b);
    WeightOfOne(q.b);
    WeightOfZero();
    XorZero(Flip(0, p.b));
    XorZero(Flip(0, q.b));
    if p.b != q.b {
      WeightOfTwo(p.b, q.b);
    }
  }

  lemma XorCommutes(a: Ecc, c: Ecc)
    ensures XorEcc(a, c) == XorEcc(c, a)
  {
  }

  lemma TwoTraces(p: Position, q: Position)
    requires p.Valid() && q.Valid() && p != q
    ensures Verdict(XorEcc(Trace(p), Trace(q))) == -1
  {
    if p.DataBit? && q.DataBit? {
      TwoDataVerdict(p.j, p.b, q.j, q.b);
    } else if p.DataBit? {
      DataCodeVerdict(p.j, p.b, q);
    } else if q.DataBit? {
      DataCodeVerdict(q.j, q.b, p);
      XorCommutes(Trace(p), Trace(q));
    } else {
      TwoCodeVerdict(p, q);
    }
  }

  lemma SoundSyndrome(d: seq<bv8>, t: Ecc)
    requires |d| == 256
    ensures Syndrome(Stored(d, Code(d))) == Ecc(0, 0, 0)
    ensures XorEcc(Ecc(0, 0, 0), t) == t
  {
  }

  lemma FlipTwice(x: bv8, b: bv8)
    requires b < 8
    ensures Flip(Flip(x, b), b) == x
  {
  }

  /** An undamaged block is left alone. */
  lemma NoError(d: seq<bv8>)
    requires |d| == 256
    ensures Repair(Stored(d, Code(d))) == (0, Stored(d, Code(d)))
  {
    hide Code, ErrorByte, ErrorBit;
    SoundSyndrome(d, Ecc(0, 0, 0));
  }

  /** Any one flipped bit of any block is repaired, data bit or code bit. */
  lemma SingleErrorCorrected(d: seq<bv8>, p: Position)
    requires |d| == 256 && p.Valid()
    ensures var w := Stored(d, Code(d));
            Repair(Damage(w, p)) == (if p.DataBit? then 1 else 2, w)
  {
    hide Code, XorEcc, Verdict, ErrorByte, ErrorBit, Single;
    var w := Stored(d, Code(d));
    DamageSyndrome(w, p);
    SoundSyndrome(d, Trace(p));
    match p
    case DataBit(j, b) =>
      SingleVerdict(j, b);
      FlipTwice(d[j as nat], b);
      var d' := Damage(w, p).data;
      assert d'[j as nat := d[j as nat]] == d;
    case CodeBit(k, b) =>
      CodeBitVerdict(p);
  }

  /** Any two flipped bits of any block are reported, and the block is left alone. */
  lemma DoubleErrorDetected(d: seq<bv8>, p: Position, q: Position)
    requires |d| == 256 && p.Valid() && q.Valid() && p != q
    ensures var w := Damage(Damage(Stored(d, Code(d)), p), q);
            Repair(w) == (-1, w)
  {
    hide Trace, XorEcc, Verdict, Code, Damage, ErrorByte, ErrorBit;
    var w := Stored(d, Code(d));
    DamageSyndrome(w, p);
    DamageSyndrome(Damage(w, p), q);
    SoundSyndrome(d, Trace(p));
    TwoTraces(p, q);
  }

  // ---------------------------------------------------------------------------------------------
  // The answer for any damage
  // ---------------------------------------------------------------------------------------------

  /** The six used bits of the third byte of a code. */
  function Used(x: bv8): bv8 {
    x & 0xfc
  }

  /** Two codes with the same 22 used bits. */
  predicate Agree(c: Ecc, e: Ecc) {
    c.b0 == e.b0 && c.b1 == e.b1 && Used(c.b2) == Used(e.b2)
  }

  /** Two codes that differ in exactly one of all 24 stored bits. */
  ghost predicate OneApart(c: Ecc, e: Ecc) {
    exists k: nat, b: bv8 | k < 3 && b < 8 :: e == FlipCode(c, k, b)
  }

  /** Flipping the data bit makes the code of the data agree with the stored one. */
  predicate Explained(w: Stored, j: bv8, b: bv8)
    requires |w.data| == 256 && b < 8
  {
    Agree(Code(w.data[j as nat := Flip(w.data[j as nat], b)]), w.ecc)
  }

  lemma AgreeXor(c: Ecc, t: Ecc, e: Ecc)
    ensures Agree(XorEcc(c, t), e) <==> Agree(XorEcc(c, e), t)
  {
    hide Xor, Used;
    XorMoves(c.b0, t.b0, e.b0);
    XorMoves(c.b1, t.b1, e.b1);
    MaskXor(c.b2, t.b2);
    MaskXor(c.b2, e.b2);
    XorMoves(Used(c.b2), Used(t.b2), Used(e.b2));
  }

  lemma XorMoves(x: bv8, y: bv8, z: bv8)
    ensures Xor(x, y) == z <==> Xor(x, z) == y
  {
    XorBack(x, y);
    XorBack(x, z);
    hide Xor;
  }

  lemma MaskXor(x: bv8, y: bv8)
    ensures Used(Xor(x, y)) == Xor(Used(x), Used(y))
  {
  }

  lemma UsedBits(x: bv8, y: bv8)
    requires Used(x) == Used(y)
    ensures Bit(x, 2) == Bit(y, 2) && Bit(x, 3) == Bit(y, 3) && Bit(x, 4) == Bit(y, 4)
    ensures Bit(x, 5) == Bit(y, 5) && Bit(x, 6) == Bit(y, 6) && Bit(x, 7) == Bit(y, 7)
    ensures Gather(x) >> 1 == Gather(y) >> 1
  {
  }

  lemma LineIsInterleaved(x: bv8)
    requires LinePairsDiffer(x)
    ensures x == Interleave(Gather(x), (!Gather(x)) & 15) && Gather(x) < 16
  {
  }

  lemma ColumnIsInterleaved(x: bv8)
    requires ColumnPairsDiffer(x)
    ensures var b := Gather(x) >> 1; b < 8 && Used(x) == Used(Interleave(b & 7, (!b) & 7) << 2)
  {
  }

  lemma ErrorByteHalves(x: bv8, y: bv8)
    requires x < 16 && y < 16
    ensures var j := (x << 4) | y;
            && j >> 4 == x && j & 15 == y && (!j) >> 4 == (!x) & 15 && (!j) & 15 == (!y) & 15
  {
  }

  /** A syndrome whose pairs all differ is that of one data bit. */
  lemma PairsAreSingle(s: Ecc)
    requires PairsDiffer(s)
    ensures ErrorBit(s) < 8 && Agree(s, Single(ErrorByte(s), ErrorBit(s)))
  {
    LineIsInterleaved(s.b0);
    LineIsInterleaved(s.b1);
    ColumnIsInterleaved(s.b2);
    ErrorByteHalves(Gather(s.b0), Gather(s.b1));
    hide Gather, Interleave, LinePairsDiffer, ColumnPairsDiffer, Used;
  }

  lemma SingleIsPairs(s: Ecc, j: bv8, b: bv8)
    requires b < 8 && Agree(s, Single(j, b))
    ensures PairsDiffer(s) && ErrorByte(s) == j && ErrorBit(s) == b
  {
    SinglePairs(j, b);
    SingleVerdict(j, b);
    UsedBits(s.b2, Single(j, b).b2);
    hide Gather, Single, Bit, Verdict, Used;
  }

  lemma WeightIsZero(x: bv8)
    ensures Weight(x) == 0 <==> x == 0
  {
  }

  lemma WeightIsOne(x: bv8) returns (b: bv8)
    requires Weight(x) == 1
    ensures b < 8 && x == OneBit(b)
  {
    b := if Bit(x, 0) then 0 else if Bit(x, 1) then 1 else if Bit(x, 2) then 2 else if Bit(x, 3) then 3
         else if Bit(x, 4) then 4 else if Bit(x, 5) then 5 else if Bit(x, 6) then 6 else 7;
  }

  lemma XorBack(x: bv8, y: bv8)
    ensures Xor(x, Xor(x, y)) == y && Xor(x, 0) == x
  {
  }

  lemma OneBitApart(c: Ecc, e: Ecc)
    requires var s := XorEcc(c, e); Weight(s.b0) + Weight(s.b1) + Weight(s.b2) == 1
    ensures OneApart(c, e)
  {
    var s := XorEcc(c, e);
    WeightIsZero(s.b0);
    WeightIsZero(s.b1);
    WeightIsZero(s.b2);
    XorBack(c.b0, e.b0);
    XorBack(c.b1, e.b1);
    XorBack(c.b2, e.b2);
    hide Weight, Xor;
    if Weight(s.b0) == 1 {
      var b := WeightIsOne(s.b0);
      assert e == FlipCode(c, 0, b);
    } else if Weight(s.b1) == 1 {
      var b := WeightIsOne(s.b1);
      assert e == FlipCode(c, 1, b);
    } else {
      var b := WeightIsOne(s.b2);
      assert e == FlipCode(c, 2, b);
    }
  }

  lemma FlippedWeight(x: bv8, b: bv8)
    requires b < 8
    ensures Weight(Xor(x, Flip(x, b))) == 1 && Weight(Xor(x, x)) == 0
    ensures !LinePairsDiffer(Xor(x, x))
  {
  }

  lemma ApartByOneBit(c: Ecc, e: Ecc)
    requires OneApart(c, e)
    ensures var s := XorEcc(c, e);
            Weight(s.b0) + Weight(s.b1) + Weight(s.b2) == 1 && !PairsDiffer(s) && s != Ecc(0, 0, 0)
  {
    hide Weight, Xor, LinePairsDiffer, ColumnPairsDiffer, Flip;
    var k: nat, b: bv8 :| k < 3 && b < 8 && e == FlipCode(c, k, b);
    FlippedWeight(c.b0, b);
    FlippedWeight(c.b1, b);
    FlippedWeight(c.b2, b);
    WeightOfZero();
  }

  lemma ExplainedBySyndrome(w: Stored, j: bv8, b: bv8)
    requires |w.data| == 256 && b < 8
    ensures Explained(w, j, b) <==> Agree(Syndrome(w), Single(j, b))
  {
    hide Code, XorEcc, Agree, Single;
    CodeAfterFlip(w.data, j, b);
    AgreeXor(Code(w.data), Single(j, b), w.ecc);
  }

  lemma AnswerOne(w: Stored)
    requires |w.data| == 256
    ensures PairsDiffer(Syndrome(w)) ==>
              ErrorBit(Syndrome(w)) < 8 && Explained(w, ErrorByte(Syndrome(w)), ErrorBit(Syndrome(w)))
    ensures forall j, b | b < 8 && Explained(w, j, b) ::
              PairsDiffer(Syndrome(w)) && ErrorByte(Syndrome(w)) == j && ErrorBit(Syndrome(w)) == b
  {
    hide Syndrome, PairsDiffer, ErrorByte, ErrorBit, Explained, Agree, Single;
    var s := Syndrome(w);
    if PairsDiffer(s) {
      PairsAreSingle(s);
      ExplainedBySyndrome(w, ErrorByte(s), ErrorBit(s));
    }
    forall j: bv8, b: bv8 | b < 8 && Explained(w, j, b)
      ensures PairsDiffer(s) && ErrorByte(s) == j && ErrorBit(s) == b
    {
      ExplainedBySyndrome(w, j, b);
      SingleIsPairs(s, j, b);
    }
  }

  lemma AnswerTwo(c: Ecc, e: Ecc)
    ensures Verdict(XorEcc(c, e)) == 0 <==> e == c
    ensures Verdict(XorEcc(c, e)) == 1 <==> PairsDiffer(XorEcc(c, e))
    ensures Verdict(XorEcc(c, e)) == 2 <==> OneApart(c, e)
  {
    hide Weight, Xor, LinePairsDiffer, ColumnPairsDiffer, OneApart;
    var s := XorEcc(c, e);
    NothingXored(c.b0);
    NothingXored(c.b1);
    NothingXored(c.b2);
    if s == Ecc(0, 0, 0) {
      XorIsZero(c, e);
    }
    WeightOfZero();
    if OneApart(c, e) {
      ApartByOneBit(c, e);
    }
    if Weight(s.b0) + Weight(s.b1) + Weight(s.b2) == 1 {
      OneBitApart(c, e);
    }
  }

  lemma NothingXored(x: bv8)
    ensures Xor(x, x) == 0
  {
  }

  /**
    What the corrector answers and does for every stored block, however much of it is damaged. The
    data bit that explains the stored code is the only one that does, and it is the one flipped.
   */
  lemma RepairIsExact(w: Stored)
    requires |w.data| == 256
    ensures var (r, w') := Repair(w);
            && (r == 0 <==> w.ecc == Code(w.data))
            && (r == 1 <==> exists j: bv8, b: bv8 | b < 8 :: Explained(w, j, b))
            && (r == 2 <==> OneApart(Code(w.data), w.ecc))
            && (r == -1 || r == 0 || r == 1 || r == 2)
            && (forall j: bv8, b: bv8 | b < 8 && Explained(w, j, b) :: w' == Damage(w, DataBit(j, b)))
            && (r == 2 ==> w' == w.(ecc := Code(w.data)))
            && (r <= 0 ==> w' == w)
  {
    hide Code, XorEcc, PairsDiffer, ErrorByte, ErrorBit, Explained, OneApart, Weight;
    AnswerTwo(Code(w.data), w.ecc);
    AnswerOne(w);
    if PairsDiffer(Syndrome(w)) {
      assert Explained(w, ErrorByte(Syndrome(w)), ErrorBit(Syndrome(w)));
    }
  }

  lemma CodeOfZeros(d: seq<bv8>)
    requires |d| == 256 && forall k | 0 <= k < 256 :: d[k] == 0
    ensures Code(d) == Ecc(0xff, 0xff, 0xff)
  {
    hide Code;
    assert IsXor(d, d, d);
    CodeIsLinear(d, d, d);
    XorItself(Code(d));
  }

  lemma XorItself(c: Ecc)
    ensures Invert(XorEcc(c, c)) == Ecc(0xff, 0xff, 0xff)
    ensures XorEcc(Ecc(0xff, 0xff, 0xff), Ecc(0x55, 0x56, 0x54)) == Ecc(0xaa, 0xa9, 0xab)
    ensures XorEcc(Ecc(0xff, 0xff, 0xff), Ecc(0x66, 0x59, 0xa4)) == Ecc(0x99, 0xa6, 0x5b)
  {
  }

  /** The code of a cleared block, and of two blocks with one bit set, as numbers. */
  lemma KnownCodes(d: seq<bv8>)
    requires |d| == 256 && forall k | 0 <= k < 256 :: d[k] == 0
    ensures Code(d) == Ecc(0xff, 0xff, 0xff)
    ensures Code(d[1 := 0x01]) == Ecc(0xaa, 0xa9, 0xab)
    ensures Code(d[0x52 := 0x40]) == Ecc(0x99, 0xa6, 0x5b)
  {
    hide Code, Single, XorEcc, Flip;
    CodeOfZeros(d);
    KnownSingles();
    XorItself(Code(d));
    CodeAfterFlip(d, 1, 0);
    CodeAfterFlip(d, 0x52, 6);
  }

  lemma KnownSingles()
    ensures Single(1, 0) == Ecc(0x55, 0x56, 0x54) && Flip(0, 0) == 1
    ensures Single(0x52, 6) == Ecc(0x66, 0x59, 0xa4) && Flip(0, 6) == 0x40
  {
  }

  // ---------------------------------------------------------------------------------------------
  // The lookup table
  // ---------------------------------------------------------------------------------------------

  /** The driver's table, sixteen entries to a row. */
  const PRECALC: seq<seq<bv8>> := [
    [0x00, 0x55, 0x56, 0x03, 0x59, 0x0c, 0x0f, 0x5a, 0x5a, 0x0f, 0x0c, 0x59, 0x03, 0x56, 0x55, 0x00],
    [0x65, 0x30, 0x33, 0x66, 0x3c, 0x69, 0x6a, 0x3f, 0x3f, 0x6a, 0x69, 0x3c, 0x66, 0x33, 0x30, 0x65],
    [0x66, 0x33, 0x30, 0x65, 0x3f, 0x6a, 0x69, 0x3c, 0x3c, 0x69, 0x6a, 0x3f, 0x65, 0x30, 0x33, 0x66],
    [0x03, 0x56, 0x55, 0x00, 0x5a, 0x0f, 0x0c, 0x59, 0x59, 0x0c, 0x0f, 0x5a, 0x00, 0x55, 0x56, 0x03],
    [0x69, 0x3c, 0x3f, 0x6a, 0x30, 0x65, 0x66, 0x33, 0x33, 0x66, 0x65, 0x30, 0x6a, 0x3f, 0x3c, 0x69],
    [0x0c, 0x59, 0x5a, 0x0f, 0x55, 0x00, 0x03, 0x56, 0x56, 0x03, 0x00, 0x55, 0x0f, 0x5a, 0x59, 0x0c],
    [0x0f, 0x5a, 0x59, 0x0c, 0x56, 0x03, 0x00, 0x55, 0x55, 0x00, 0x03, 0x56, 0x0c, 0x59, 0x5a, 0x0f],
    [0x6a, 0x3f, 0x3c, 0x69, 0x33, 0x66, 0x65, 0x30, 0x30, 0x65, 0x66, 0x33, 0x69, 0x3c, 0x3f, 0x6a],
    [0x6a, 0x3f, 0x3c, 0x69, 0x33, 0x66, 0x65, 0x30, 0x30, 0x65, 0x66, 0x33, 0x69, 0x3c, 0x3f, 0x6a],
    [0x0f, 0x5a, 0x59, 0x0c, 0x56, 0x03, 0x00, 0x55, 0x55, 0x00, 0x03, 0x56, 0x0c, 0x59, 0x5a, 0x0f],
    [0x0c, 0x59, 0x5a, 0x0f, 0x55, 0x00, 0x03, 0x56, 0x56, 0x03, 0x00, 0x55, 0x0f, 0x5a, 0x59, 0x0c],
    [0x69, 0x3c, 0x3f, 0x6a, 0x30, 0x65, 0x66, 0x33, 0x33, 0x66, 0x65, 0x30, 0x6a, 0x3f, 0x3c, 0x69],
    [0x03, 0x56, 0x55, 0x00, 0x5a, 0x0f, 0x0c, 0x59, 0x59, 0x0c, 0x0f, 0x5a, 0x00, 0x55, 0x56, 0x03],
    [0x66, 0x33, 0x30, 0x65, 0x3f, 0x6a, 0x69, 0x3c, 0x3c, 0x69, 0x6a, 0x3f, 0x65, 0x30, 0x33, 0x66],
    [0x65, 0x30, 0x33, 0x66, 0x3c, 0x69, 0x6a, 0x3f, 0x3f, 0x6a, 0x69, 0x3c, 0x66, 0x33, 0x30, 0x65],
    [0x00, 0x55, 0x56, 0x03, 0x59, 0x0c, 0x0f, 0x5a, 0x5a, 0x0f, 0x0c, 0x59, 0x03, 0x56, 0x55, 0x00]
  ]

  function Precalc(x: bv8): bv8 {
    PRECALC[(x >> 4) as int][(x & 15) as int]
  }

  /** Parity of a byte, folded into bit 0. */
  function Fold(x: bv8): bv8 {
    var a := x ^ (x >> 4);
    var b := a ^ (a >> 2);
    (b ^ (b >> 1)) & 1
  }

  /** A closed form of the table: total parity and six column parities. */
  function Columns(x: bv8): bv8 {
    (Fold(x) << 6)
    | (Fold(x & 0xf0) << 5) | (Fold(x & 0x0f) << 4)
    | (Fold(x & 0xcc) << 3) | (Fold(x & 0x33) << 2)
    | (Fold(x & 0xaa) << 1) | Fold(x & 0x55)
  }

  lemma TableRow(r: bv8, c: bv8)
    requires r < 16 && c < 16
    ensures PRECALC[r as int][c as int] == Columns((r << 4) | c)
  {
  }

  lemma TableIsColumns(x: bv8)
    ensures Precalc(x) == Columns(x)
  {
    TableRow(x >> 4, x & 15);
    assert ((x >> 4) << 4) | (x & 15) == x;
  }

  predicate OddTree(x: bv8) {
    (((Bit(x, 0) != Bit(x, 1)) != (Bit(x, 2) != Bit(x, 3)))
     != ((Bit(x, 4) != Bit(x, 5)) != (Bit(x, 6) != Bit(x, 7))))
  }

  lemma FoldIsTree(x: bv8)
    ensures Fold(x) == if OddTree(x) then 1 else 0
  {
  }

  lemma ParityOfEight(s: seq<bool>)
    requires |s| == 8
    ensures Parity(s) == (((s[0] != s[1]) != (s[2] != s[3])) != ((s[4] != s[5]) != (s[6] != s[7])))
  {
    assert s[..7][..6] == s[..6] && s[..6][..5] == s[..5] && s[..5][..4] == s[..4];
    assert s[..4][..3] == s[..3] && s[..3][..2] == s[..2] && s[..2][..1] == s[..1];
    assert Parity(s[..1]) == s[0];
    assert Parity(s[..2]) == (Parity(s[..1]) != s[1]);
    assert Parity(s[..3]) == (Parity(s[..2]) != s[2]);
    assert Parity(s[..4]) == (Parity(s[..3]) != s[3]);
    assert Parity(s[..5]) == (Parity(s[..4]) != s[4]);
    assert Parity(s[..6]) == (Parity(s[..5]) != s[5]);
    assert Parity(s[..7]) == (Parity(s[..6]) != s[6]);
  }

  lemma FoldIsOdd(x: bv8)
    ensures Fold(x) == if Odd(x) then 1 else 0
  {
    FoldIsTree(x);
    ParityOfEight(Bits(x));
  }

  /** The bit positions whose own bit `i` is `v`. */
  function ColumnMask(i: bv8, v: bool): bv8
    requires i < 3
  {
    if i == 0 then (if v then 0xaa else 0x55)
    else if i == 1 then (if v then 0xcc else 0x33)
    else (if v then 0xf0 else 0x0f)
  }

  lemma MaskBit(x: bv8, b: bv8, i: bv8, v: bool)
    requires b < 8 && i < 3
    ensures Bit(x & ColumnMask(i, v), b) == (Bit(x, b) && Bit(b, i) == v)
  {
  }

  lemma MaskedBits(x: bv8, i: bv8, v: bool)
    requires i < 3
    ensures Bits(x & ColumnMask(i, v)) == Picked(x, i, v)
  {
    hide ColumnMask, Bit;
    forall k | 0 <= k < 8
      ensures Bits(x & ColumnMask(i, v))[k] == Picked(x, i, v)[k]
    {
      MaskBit(x, k as bv8, i, v);
    }
  }

  predicate FoldColumn(x: bv8, i: bv8, v: bool)
    requires i < 3
  {
    Fold(x & ColumnMask(i, v)) == 1
  }

  lemma FoldIsByteColumn(x: bv8, i: bv8, v: bool)
    requires i < 3
    ensures FoldColumn(x, i, v) == ByteColumn(x, i, v)
  {
    hide ColumnMask, Fold, Parity, Bits, Picked;
    MaskedBits(x, i, v);
    FoldIsOdd(x & ColumnMask(i, v));
  }

  /** Bits `k` and `k+1` of a table entry are the even and the odd column parity of index bit `i`. */
  predicate EntryPair(t: bv8, k: bv8, x: bv8, i: bv8)
    requires i < 3 && k < 7
  {
    Bit(t, k) == ByteColumn(x, i, false) && Bit(t, k + 1) == ByteColumn(x, i, true)
  }

  lemma ColumnsPair(x: bv8, k: bv8, i: bv8)
    requires i < 3 && k == i + i
    ensures Bit(Columns(x), k) == FoldColumn(x, i, false)
    ensures Bit(Columns(x), k + 1) == FoldColumn(x, i, true)
  {
  }

  lemma ColumnsTotal(x: bv8)
    ensures (Columns(x) & 0x40 != 0) == (Fold(x) == 1)
    ensures Bit(Columns(x), 6) == (Fold(x) == 1)
  {
  }

  lemma ColumnsEntry(x: bv8, k: bv8, i: bv8)
    requires i < 3 && k == i + i
    ensures EntryPair(Columns(x), k, x, i)
  {
    hide Columns, FoldColumn, Bit, ByteColumn;
    ColumnsPair(x, k, i);
    FoldIsByteColumn(x, i, false);
    FoldIsByteColumn(x, i, true);
  }

  lemma TablePair(x: bv8, k: bv8, i: bv8)
    requires i < 3 && k == i + i
    ensures EntryPair(Precalc(x), k, x, i)
  {
    hide Columns, Precalc, EntryPair;
    TableIsColumns(x);
    ColumnsEntry(x, k, i);
  }

  lemma TableTotal(x: bv8)
    ensures (Precalc(x) & 0x40 != 0) == Bit(Precalc(x), 6) == Odd(x)
  {
    hide Columns, Fold, Bit, Odd, Precalc;
    TableIsColumns(x);
    ColumnsTotal(x);
    FoldIsOdd(x);
  }

  // ---------------------------------------------------------------------------------------------
  // The driver's loops
  // ---------------------------------------------------------------------------------------------

  /** What the two registers hold after the bytes `p` have been read. */
  ghost predicate Registers(reg1: bv8, reg3: bv8, p: seq<bv8>)
    requires |p| <= 256
  {
    && ColumnPair(reg1, 0, p, 0) && ColumnPair(reg1, 2, p, 1) && ColumnPair(reg1, 4, p, 2)
    && forall i: bv8 | i < 8 :: LineRegister(reg1, reg3, p, i)
  }

  /** Register 3 holds the odd line parities; with the total parity they give the even ones. */
  predicate LineRegister(reg1: bv8, reg3: bv8, p: seq<bv8>, i: bv8)
    requires |p| <= 256 && i < 8
  {
    && Bit(reg3, i) == LineParity(p, i, true)
    && Bit(reg1, 6) == (LineParity(p, i, true) != LineParity(p, i, false))
  }

  lemma ParitySnoc(s: seq<bool>, t: seq<bool>, b: bool)
    requires t == s + [b]
    ensures Parity(t) == (Parity(s) != b)
  {
    assert t[..|s|] == s;
  }

  lemma LineBitsAt(d: seq<bv8>, i: bv8, v: bool)
    requires |d| <= 256 && i < 8
    ensures |LineBits(d, i, v)| == |d|
    ensures forall k | 0 <= k < |d| :: LineBits(d, i, v)[k] == LineBit(d, i, v, k)
  {
    hide Bit, Odd;
  }

  predicate LineBit(d: seq<bv8>, i: bv8, v: bool, k: nat)
    requires k < |d| <= 256 && i < 8
  {
    Bit(k as bv8, i) == v && Odd(d[k])
  }

  lemma LineBitSnoc(p: seq<bv8>, x: bv8, i: bv8, v: bool, k: nat)
    requires k <= |p| < 256 && i < 8
    ensures k < |p| ==> LineBit(p + [x], i, v, k) == LineBit(p, i, v, k)
    ensures LineBit(p + [x], i, v, |p|) == (Bit(|p| as bv8, i) == v && Odd(x))
  {
    hide Bit, Odd;
  }

  lemma LineBitsSnoc(p: seq<bv8>, x: bv8, i: bv8, v: bool)
    requires |p| < 256 && i < 8
    ensures LineBits(p + [x], i, v) == LineBits(p, i, v) + [Bit(|p| as bv8, i) == v && Odd(x)]
  {
    hide Bit, Odd, LineBits, LineBit;
    LineBitsAt(p, i, v);
    LineBitsAt(p + [x], i, v);
    var s, t := LineBits(p + [x], i, v), LineBits(p, i, v) + [Bit(|p| as bv8, i) == v && Odd(x)];
    forall k | 0 <= k < |s|
      ensures s[k] == t[k]
    {
      LineBitSnoc(p, x, i, v, k);
    }
  }

  lemma LineParitySnoc(p: seq<bv8>, x: bv8, i: bv8, v: bool)
    requires |p| < 256 && i < 8
    ensures LineParity(p + [x], i, v) == (LineParity(p, i, v) != (Bit(|p| as bv8, i) == v && Odd(x)))
  {
    hide Bit, Odd, Parity, LineBits;
    LineBitsSnoc(p, x, i, v);
    ParitySnoc(LineBits(p, i, v), LineBits(p + [x], i, v), Bit(|p| as bv8, i) == v && Odd(x));
  }

  lemma ColumnParitySnoc(p: seq<bv8>, x: bv8, i: bv8, v: bool)
    requires i < 3
    ensures ColumnParity(p + [x], i, v) == (ColumnParity(p, i, v) != ByteColumn(x, i, v))
  {
    ParitySnoc(ColumnBits(p, i, v), ColumnBits(p + [x], i, v), ByteColumn(x, i, v));
  }

  lemma BitOfXor(x: bv8, y: bv8, i: bv8)
    requires i < 8
    ensures Bit(Xor(x, y), i) == (Bit(x, i) != Bit(y, i))
  {
    BitXor(x, y, i);
  }

  lemma ColumnStep(reg1: bv8, k: bv8, p: seq<bv8>, i: bv8, x: bv8)
    requires i < 3 && k == i + i && ColumnPair(reg1, k, p, i)
    ensures ColumnPair(Xor(reg1, Precalc(x)), k, p + [x], i)
  {
    hide Bit, ColumnParity, ByteColumn, Xor, Precalc;
    TablePair(x, k, i);
    ColumnParitySnoc(p, x, i, false);
    ColumnParitySnoc(p, x, i, true);
    BitOfXor(reg1, Precalc(x), k);
    BitOfXor(reg1, Precalc(x), k + 1);
  }

  lemma LineStep(reg1: bv8, reg3: bv8, reg3': bv8, p: seq<bv8>, i: bv8, x: bv8)
    requires |p| < 256 && i < 8 && LineRegister(reg1, reg3, p, i)
    requires reg3' == if Odd(x) then Xor(reg3, |p| as bv8) else reg3
    ensures LineRegister(Xor(reg1, Precalc(x)), reg3', p + [x], i)
  {
    hide Bit, LineParity, Xor, Precalc, Odd;
    TableTotal(x);
    LineParitySnoc(p, x, i, false);
    LineParitySnoc(p, x, i, true);
    BitOfXor(reg1, Precalc(x), 6);
    BitOfXor(reg3, |p| as bv8, i);
  }

  lemma RegistersStep(reg1: bv8, reg3: bv8, reg3': bv8, p: seq<bv8>, x: bv8)
    requires |p| < 256 && Registers(reg1, reg3, p)
    requires reg3' == if Precalc(x) & 0x40 != 0 then Xor(reg3, |p| as bv8) else reg3
    ensures Registers(Xor(reg1, Precalc(x)), reg3', p + [x])
  {
    hide ColumnPair, LineRegister, Xor, Precalc, Odd;
    TableTotal(x);
    ColumnStep(reg1, 0, p, 0, x);
    ColumnStep(reg1, 2, p, 1, x);
    ColumnStep(reg1, 4, p, 2, x);
    forall i: bv8 | i < 8
      ensures LineRegister(Xor(reg1, Precalc(x)), reg3', p + [x], i)
    {
      LineStep(reg1, reg3, reg3', p, i, x);
    }
  }

  lemma RegistersEmpty()
    ensures Registers(0, 0, [])
  {
  }

  function Upper(x: bv8): bv8 {
    x >> 4
  }

  function Lower(x: bv8): bv8 {
    x & 15
  }

  /** The even line register: the odd one, inverted if the total parity is odd. */
  function EvenOf(reg1: bv8, reg3: bv8): bv8 {
    if reg1 & 0x40 != 0 then !reg3 else reg3
  }

  /** Spread the odd and the even line register over two code bytes. */
  method TransResult(reg2: bv8, reg3: bv8, eccCode: array<bv8>)
    requires eccCode.Length == 3
    modifies eccCode
    ensures eccCode[0] == Interleave(Upper(reg3), Upper(reg2))
    ensures eccCode[1] == Interleave(Lower(reg3), Lower(reg2))
    ensures eccCode[2] == old(eccCode[2])
  {
    var a, b: bv8 := 0x80, 0x80;
    var tmp1, tmp2: bv8 := 0, 0;
    ghost var x1, x2 := Interleave(reg3 >> 4, reg2 >> 4), Interleave(reg3 & 15, reg2 & 15);
    var i := 0;
    while i < 4
      invariant 0 <= i <= 4
      invariant i == 0 ==> a == 0x80 && b == 0x80 && tmp1 == 0
      invariant i == 1 ==> a == 0x40 && b == 0x20 && tmp1 == x1 & 0xc0
      invariant i == 2 ==> a == 0x20 && b == 0x08 && tmp1 == x1 & 0xf0
      invariant i == 3 ==> a == 0x10 && b == 0x02 && tmp1 == x1 & 0xfc
      invariant i == 4 ==> a == 0x08 && tmp1 == x1
    {
      if reg3 & a != 0 {
        tmp1 := tmp1 | b;
      }
      b := b >> 1;
      if reg2 & a != 0 {
        tmp1 := tmp1 | b;
      }
      b := b >> 1;
      a := a >> 1;
      i := i + 1;
    }
    b := 0x80;
    i := 0;
    while i < 4
      invariant 0 <= i <= 4
      invariant i == 0 ==> a == 0x08 && b == 0x80 && tmp2 == 0
      invariant i == 1 ==> a == 0x04 && b == 0x20 && tmp2 == x2 & 0xc0
      invariant i == 2 ==> a == 0x02 && b == 0x08 && tmp2 == x2 & 0xf0
      invariant i == 3 ==> a == 0x01 && b == 0x02 && tmp2 == x2 & 0xfc
      invariant i == 4 ==> tmp2 == x2
    {
      if reg3 & a != 0 {
        tmp2 := tmp2 | b;
      }
      b := b >> 1;
      if reg2 & a != 0 {
        tmp2 := tmp2 | b;
      }
      b := b >> 1;
      a := a >> 1;
      i := i + 1;
    }
    eccCode[0] := tmp1;
    eccCode[1] := tmp2;
  }

  lemma NotBits(reg1: bv8, reg3: bv8, i: bv8)
    requires i < 8
    ensures (reg1 & 0x40 != 0) == Bit(reg1, 6)
    ensures Bit(!reg3, i) == !Bit(reg3, i)
  {
  }

  /** The shortcut for the even line register: the odd one, inverted if the total parity is odd. */
  lemma EvenRegister(reg1: bv8, reg2: bv8, reg3: bv8, d: seq<bv8>, i: bv8)
    requires |d| <= 256 && i < 8 && LineRegister(reg1, reg3, d, i)
    requires reg2 == EvenOf(reg1, reg3)
    ensures Bit(reg2, i) == LineParity(d, i, false) && Bit(reg3, i) == LineParity(d, i, true)
  {
    hide Bit, LineParity;
    NotBits(reg1, reg3, i);
  }

  lemma NibbleBits(x: bv8)
    ensures Bit(x >> 4, 0) == Bit(x, 4) && Bit(x >> 4, 1) == Bit(x, 5)
    ensures Bit(x >> 4, 2) == Bit(x, 6) && Bit(x >> 4, 3) == Bit(x, 7)
    ensures Bit(x & 15, 0) == Bit(x, 0) && Bit(x & 15, 1) == Bit(x, 1)
    ensures Bit(x & 15, 2) == Bit(x, 2) && Bit(x & 15, 3) == Bit(x, 3)
  {
  }

  lemma UpperLines(reg1: bv8, reg2: bv8, reg3: bv8, d: seq<bv8>)
    requires |d| <= 256 && Registers(reg1, reg3, d)
    requires reg2 == EvenOf(reg1, reg3)
    ensures HoldsLines(Interleave(Upper(reg3), Upper(reg2)), d, 4)
    ensures HoldsLines(Interleave(Lower(reg3), Lower(reg2)), d, 0)
  {
    hide Bit, LineParity, Interleave, ColumnPair, LineRegister;
    EvenRegister(reg1, reg2, reg3, d, 0);
    EvenRegister(reg1, reg2, reg3, d, 1);
    EvenRegister(reg1, reg2, reg3, d, 2);
    EvenRegister(reg1, reg2, reg3, d, 3);
    EvenRegister(reg1, reg2, reg3, d, 4);
    EvenRegister(reg1, reg2, reg3, d, 5);
    EvenRegister(reg1, reg2, reg3, d, 6);
    EvenRegister(reg1, reg2, reg3, d, 7);
    NibbleBits(reg2);
    NibbleBits(reg3);
    InterleaveBits(Upper(reg3), Upper(reg2));
    InterleaveBits(Lower(reg3), Lower(reg2));
  }

  lemma ShiftBits(x: bv8)
    ensures !(((!x) << 2) | 3) & 3 == 0
    ensures Bit(!(((!x) << 2) | 3), 2) == Bit(x, 0) && Bit(!(((!x) << 2) | 3), 3) == Bit(x, 1)
    ensures Bit(!(((!x) << 2) | 3), 4) == Bit(x, 2) && Bit(!(((!x) << 2) | 3), 5) == Bit(x, 3)
    ensures Bit(!(((!x) << 2) | 3), 6) == Bit(x, 4) && Bit(!(((!x) << 2) | 3), 7) == Bit(x, 5)
  {
  }

  lemma ShiftedColumns(reg1: bv8, d: seq<bv8>)
    requires ColumnPair(reg1, 0, d, 0) && ColumnPair(reg1, 2, d, 1) && ColumnPair(reg1, 4, d, 2)
    ensures HoldsColumns(!(((!reg1) << 2) | 3), d)
  {
    hide Bit, ColumnParity;
    ShiftBits(reg1);
  }

  /** The three code bytes the driver makes of its registers. */
  function Encode(reg1: bv8, reg3: bv8): Ecc {
    var reg2 := EvenOf(reg1, reg3);
    Ecc(!Interleave(Upper(reg3), Upper(reg2)), !Interleave(Lower(reg3), Lower(reg2)), ((!reg1) << 2) | 3)
  }

  lemma NotTwice(x: bv8)
    ensures !(!x) == x
  {
  }

  lemma EncodeIsCode(reg1: bv8, reg3: bv8, d: seq<bv8>)
    requires |d| == 256 && Registers(reg1, reg3, d)
    ensures Encode(reg1, reg3) == Code(d)
  {
    hide Interleave, HoldsLines, HoldsColumns, Code, ColumnPair, LineRegister;
    var reg2 := EvenOf(reg1, reg3);
    UpperLines(reg1, reg2, reg3, d);
    ShiftedColumns(reg1, d);
    NotTwice(Interleave(Upper(reg3), Upper(reg2)));
    NotTwice(Interleave(Lower(reg3), Lower(reg2)));
    CodeUnique(Encode(reg1, reg3), d);
  }

  function EccOf(a: array<bv8>): Ecc
    requires a.Length == 3
    reads a
  {
    Ecc(a[0], a[1], a[2])
  }

  /** The driver's computation yields the bit-by-bit code of every block. */
  method CalculateEcc(dat: array<bv8>, eccCode: array<bv8>)
    requires dat.Length == 256 && eccCode.Length == 3 && dat != eccCode
    modifies eccCode
    ensures EccOf(eccCode) == Code(dat[..])
  {
    hide Code, Registers, Precalc, Interleave, Xor, EvenOf, Upper, Lower;
    var reg1, reg3: bv8 := 0, 0;
    eccCode[0], eccCode[1], eccCode[2] := 0, 0, 0;
    var j := 0;
    RegistersEmpty();
    while j < 256
      invariant 0 <= j <= 256
      invariant Registers(reg1, reg3, dat[..j])
    {
      var idx := Precalc(dat[j]);
      ghost var before1, before3 := reg1, reg3;
      reg1 := Xor(reg1, idx);
      if idx & 0x40 != 0 {
        reg3 := Xor(reg3, j as bv8);
      }
      RegistersStep(before1, before3, reg3, dat[..j], dat[j]);
      assert dat[..j + 1] == dat[..j] + [dat[j]];
      j := j + 1;
    }
    assert dat[..] == dat[..256];
    EncodeIsCode(reg1, reg3, dat[..]);
    TransResult(EvenOf(reg1, reg3), reg3, eccCode);
    eccCode[0] := !eccCode[0];
    eccCode[1] := !eccCode[1];
    eccCode[2] := ((!reg1) << 2) | 3;
  }

  /** The driver's count of the one bits of a syndrome byte. */
  method CountBits(d: bv8) returns (n: nat)
    ensures n == Weight(d)
  {
    var x := d;
    n := 0;
    while x != 0
      invariant n + Weight(x) == Weight(d)
      decreases x
    {
      WeightStep(x);
      if x & 1 != 0 {
        n := n + 1;
      }
      x := x >> 1;
    }
    WeightOfZero();
  }

  lemma WeightStep(x: bv8)
    ensures Weight(x) == (if x & 1 != 0 then 1 else 0) + Weight(x >> 1)
    ensures x != 0 ==> x >> 1 < x
  {
  }

  lemma PatternIsPairs(x: bv8)
    ensures ((x ^ (x >> 1)) & 0x55 == 0x55) == LinePairsDiffer(x)
    ensures ((x ^ (x >> 1)) & 0x54 == 0x54) == ColumnPairsDiffer(x)
  {
  }

  lemma NoBits(x: bv8, y: bv8, z: bv8)
    ensures ((x | y) | z == 0) == (x == 0 && y == 0 && z == 0)
  {
  }

  /** The upper four bits of the index of the damaged byte: the odd line parities, in order. */
  method LocateUpper(d1: bv8) returns (add: bv8, a: bv8)
    ensures add == Gather(d1) << 4 && a == 0x08
  {
    var c: bv8 := 0x80;
    add, a := 0, 0x80;
    ghost var x := Gather(d1) << 4;
    var i := 0;
    while i < 4
      invariant 0 <= i <= 4
      invariant i == 0 ==> c == 0x80 && a == 0x80 && add == 0
      invariant i == 1 ==> c == 0x20 && a == 0x40 && add == x & 0x80
      invariant i == 2 ==> c == 0x08 && a == 0x20 && add == x & 0xc0
      invariant i == 3 ==> c == 0x02 && a == 0x10 && add == x & 0xe0
      invariant i == 4 ==> a == 0x08 && add == x
    {
      if d1 & c != 0 {
        add := add | a;
      }
      c := c >> 2;
      a := a >> 1;
      i := i + 1;
    }
  }

  method LocateLower(d2: bv8, add0: bv8, a0: bv8) returns (add: bv8)
    requires a0 == 0x08 && add0 & 0x0f == 0
    ensures add == add0 | Gather(d2)
  {
    var c: bv8, a := 0x80, a0;
    add := add0;
    var i := 0;
    ghost var y := add0 | Gather(d2);
    while i < 4
      invariant 0 <= i <= 4
      invariant i == 0 ==> c == 0x80 && a == 0x08 && add == y & 0xf0
      invariant i == 1 ==> c == 0x20 && a == 0x04 && add == y & 0xf8
      invariant i == 2 ==> c == 0x08 && a == 0x02 && add == y & 0xfc
      invariant i == 3 ==> c == 0x02 && a == 0x01 && add == y & 0xfe
      invariant i == 4 ==> add == y
    {
      if d2 & c != 0 {
        add := add | a;
      }
      c := c >> 2;
      a := a >> 1;
      i := i + 1;
    }
  }

  /** The driver's search for the index of the damaged byte. */
  method LocateByte(s: Ecc) returns (add: bv8)
    ensures add == ErrorByte(s)
  {
    var a;
    add, a := LocateUpper(s.b0);
    add := LocateLower(s.b1, add, a);
  }

  /** The driver's search for the damaged bit: the odd column parities, in order. */
  method LocateBit(s: Ecc) returns (bit: bv8)
    ensures bit == ErrorBit(s) && bit < 8
  {
    var d3 := s.b2;
    var b, c: bv8 := 0x04, 0x80;
    bit := 0;
    ghost var x := Gather(d3) >> 1;
    var i := 0;
    while i < 3
      invariant 0 <= i <= 3
      invariant i == 0 ==> c == 0x80 && b == 0x04 && bit == 0
      invariant i == 1 ==> c == 0x20 && b == 0x02 && bit == x & 0x4
      invariant i == 2 ==> c == 0x08 && b == 0x01 && bit == x & 0x6
      invariant i == 3 ==> bit == x
    {
      if d3 & c != 0 {
        bit := bit | b;
      }
      c := c >> 2;
      b := b >> 1;
      i := i + 1;
    }
  }

  /** The driver's decision on a syndrome. */
  method Decide(s: Ecc) returns (v: int)
    ensures v == Verdict(s)
  {
    hide LinePairsDiffer, ColumnPairsDiffer, Weight;
    var d1, d2, d3 := s.b0, s.b1, s.b2;
    NoBits(d1, d2, d3);
    if (d1 | d2) | d3 == 0 {
      return 0;
    }
    PatternIsPairs(d1);
    PatternIsPairs(d2);
    PatternIsPairs(d3);
    if (d1 ^ (d1 >> 1)) & 0x55 == 0x55 && (d2 ^ (d2 >> 1)) & 0x55 == 0x55 && (d3 ^ (d3 >> 1)) & 0x54 == 0x54 {
      return 1;
    }
    var n1 := CountBits(d1);
    var n2 := CountBits(d2);
    var n3 := CountBits(d3);
    return if n1 + n2 + n3 == 1 then 2 else -1;
  }

  /**
    Compare the code read with a block (`readEcc`) with the code of the data read (`calcEcc`), and
    correct whichever of data and code holds a single error: 0 no error, 1 data corrected, 2 code
    corrected, -1 uncorrectable.
   */
  method CorrectData(dat: array<bv8>, readEcc: array<bv8>, calcEcc: array<bv8>) returns (r: int)
    requires dat.Length == 256 && readEcc.Length == 3 && calcEcc.Length == 3
    requires dat != readEcc && dat != calcEcc && readEcc != calcEcc
    modifies dat, readEcc
    ensures (r, Stored(dat[..], EccOf(readEcc)))
         == Correct(old(Stored(dat[..], EccOf(readEcc))), EccOf(calcEcc))
  {
    hide Verdict, ErrorByte, ErrorBit, Flip, XorEcc;
    var s := XorEcc(EccOf(calcEcc), EccOf(readEcc));
    r := Decide(s);
    if r == 1 {
      var add := LocateByte(s);
      var bit := LocateBit(s);
      dat[add as nat] := Flip(dat[add as nat], bit);
    } else if r == 2 {
      readEcc[0] := calcEcc[0];
      readEcc[1] := calcEcc[1];
      readEcc[2] := calcEcc[2];
    }
  }

  /** What a page read does with each half page: compute the code, then correct by it. */
  method CheckBlock(dat: array<bv8>, readEcc: array<bv8>, calcEcc: array<bv8>) returns (r: int)
    requires dat.Length == 256 && readEcc.Length == 3 && calcEcc.Length == 3
    requires dat != readEcc && dat != calcEcc && readEcc != calcEcc
    modifies dat, readEcc, calcEcc
    ensures (r, Stored(dat[..], EccOf(readEcc))) == Repair(old(Stored(dat[..], EccOf(readEcc))))
  {
    CalculateEcc(dat, calcEcc);
    r := CorrectData(dat, readEcc, calcEcc);
  }
}
