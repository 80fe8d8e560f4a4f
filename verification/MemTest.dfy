/**
  One iteration of the alternative memory test, run on faulty memory.

  The memory decodes a word offset to a cell by an arbitrary function, so that several offsets may
  share a cell, and every bit of a cell may be stuck. The increment test turns out to be complete:
  it passes exactly if every offset has a cell of its own and no bit is stuck.
 */
module MemTest {

  import opened Basics

  // ---------------------------------------------------------------------------------------------
  // Words
  // ---------------------------------------------------------------------------------------------

  const SPACE := 0x1_0000_0000

  type Word = x: nat | x < SPACE

  /** The complement of a number of `n` bits. */
  function ComplementOf(x: nat, n: nat): int {
    Power(n) - 1 - x
  }

  function Complement(x: Word): Word {
    SPACE - 1 - x
  }

  /** A number of `n` bits read from a place where the bits `stuck` always read as those of `level`. */
  function ThroughBits(x: nat, stuck: nat, level: nat, n: nat): (r: nat)
    ensures r < Power(n)
  {
    if n == 0 then 0
    else 2 * ThroughBits(x / 2, stuck / 2, level / 2, n - 1) + (if stuck % 2 == 1 then level % 2 else x % 2)
  }

  function Through(x: Word, stuck: Word, level: Word): Word {
    PowerOf32();
    ThroughBits(x, stuck, level, 32)
  }

  lemma PowerOf32()
    ensures Power(32) == SPACE
  {
    assert Power(8) == 256;
    assert Power(16) == 65536 by {
      assert Power(12) == 4096;
    }
    assert Power(24) == 16777216 by {
      assert Power(20) == 1048576;
    }
    assert Power(28) == 268435456;
  }

  lemma {:induction false} CleanBits(x: nat, level: nat, n: nat)
    requires x < Power(n)
    ensures ThroughBits(x, 0, level, n) == x
  {
    if n == 0 {
    } else {
      CleanBits(x / 2, level / 2, n - 1);
    }
  }

  /** If a number and its complement are read as a number and its complement, no bit is stuck. */
  lemma {:induction false} BothWaysBits(x: nat, y: nat, stuck: nat, level: nat, n: nat)
    requires x < Power(n) && y < Power(n) && stuck < Power(n)
    requires ThroughBits(x, stuck, level, n) == y
             && ThroughBits(ComplementOf(x, n), stuck, level, n) == ComplementOf(y, n)
    ensures stuck == 0
  {
    if n == 0 {
    } else {
      HalfComplement(x, n);
      HalfComplement(y, n);
      HalfOf(x, stuck, level, n);
      HalfOf(ComplementOf(x, n), stuck, level, n);
      BothWaysBits(x / 2, y / 2, stuck / 2, level / 2, n - 1);
    }
  }

  lemma HalfComplement(x: nat, n: nat)
    requires n > 0 && x < Power(n)
    ensures ComplementOf(x, n) / 2 == ComplementOf(x / 2, n - 1) && ComplementOf(x, n) % 2 == 1 - x % 2
  {
  }

  lemma HalfOf(x: nat, stuck: nat, level: nat, n: nat)
    requires n > 0
    ensures ThroughBits(x, stuck, level, n) / 2 == ThroughBits(x / 2, stuck / 2, level / 2, n - 1)
    ensures ThroughBits(x, stuck, level, n) % 2 == if stuck % 2 == 1 then level % 2 else x % 2
  {
  }

  lemma Clean(x: Word, level: Word)
    ensures Through(x, 0, level) == x
  {
    PowerOf32();
    CleanBits(x, level, 32);
  }

  lemma BothWays(x: Word, y: Word, stuck: Word, level: Word)
    requires Through(x, stuck, level) == y && Through(Complement(x), stuck, level) == Complement(y)
    ensures stuck == 0 && x == y
  {
    PowerOf32();
    BothWaysBits(x, y, stuck, level, 32);
    Clean(x, level);
  }

  /** Only a word all of whose bits are stuck reads as the complement of what was written. */
  lemma {:induction false} OppositeBits(x: nat, stuck: nat, level: nat, n: nat)
    requires x < Power(n) && stuck < Power(n) && level < Power(n)
    ensures ThroughBits(x, stuck, level, n) == ComplementOf(x, n)
            <==> stuck == Power(n) - 1 && level == ComplementOf(x, n)
  {
    if n == 0 {
    } else {
      HalfComplement(x, n);
      HalfOf(x, stuck, level, n);
      OppositeBits(x / 2, stuck / 2, level / 2, n - 1);
    }
  }

  lemma Opposite(x: Word, stuck: Word, level: Word)
    ensures Through(x, stuck, level) == Complement(x) <==> stuck == SPACE - 1 && level == Complement(x)
  {
    PowerOf32();
    OppositeBits(x, stuck, level, 32);
  }

  // ---------------------------------------------------------------------------------------------
  // Faulty memory
  // ---------------------------------------------------------------------------------------------

  /** How offsets are decoded to cells, and which bits of the cells are stuck at which level. */
  datatype Wiring = Wiring(decode: nat -> nat, stuck: seq<Word>, level: seq<Word>) {

    ghost predicate Fits(cells: nat) {
      |stuck| == |level| == cells && forall o :: decode(o) < cells
    }

    function Reads(c: nat, x: Word): Word
      requires c < |stuck| == |level|
    {
      Through(x, stuck[c], level[c])
    }

    /** Different offsets below `n` have different cells. */
    ghost predicate Injective(n: nat) {
      forall i, j | 0 <= i < j < n :: decode(i) != decode(j)
    }

    ghost predicate NothingStuck(n: nat)
      requires Fits(|stuck|)
    {
      forall i | 0 <= i < n :: stuck[decode(i)] == 0
    }

    ghost predicate Sound(n: nat)
      requires Fits(|stuck|)
    {
      Injective(n) && NothingStuck(n)
    }

    /** The last of the offsets below `k` that is decoded to the cell. */
    ghost function Last(k: nat, c: nat): (r: Option<nat>)
      ensures r.Some? ==> r.value < k && decode(r.value) == c
      ensures r.None? ==> forall i | 0 <= i < k :: decode(i) != c
      ensures r.Some? ==> forall i | r.value < i < k :: decode(i) != c
    {
      if k == 0 then None else if decode(k - 1) == c then Some(k - 1) else Last(k - 1, c)
    }
  }

  class Ram {
    const wiring: Wiring
    const cells: array<Word>

    ghost predicate Valid() {
      wiring.Fits(cells.Length)
    }

    constructor (wiring: Wiring, cells: array<Word>)
      requires wiring.Fits(cells.Length)
      ensures Valid() && this.wiring == wiring && this.cells == cells
    {
      this.wiring, this.cells := wiring, cells;
    }

    method Write(o: nat, x: Word)
      requires Valid()
      modifies cells
      ensures forall c | 0 <= c < cells.Length :: cells[c] == if c == wiring.decode(o) then x else old(cells[c])
    {
      cells[wiring.decode(o)] := x;
    }

    method Read(o: nat) returns (x: Word)
      requires Valid()
      ensures x == wiring.Reads(wiring.decode(o), cells[wiring.decode(o)])
    {
      x := wiring.Reads(wiring.decode(o), cells[wiring.decode(o)]);
    }
  }

  // ---------------------------------------------------------------------------------------------
  // The increment test
  // ---------------------------------------------------------------------------------------------

  const LIMIT := 0x4000_0000

  /** The pattern written to an offset. */
  function Pattern(offset: nat): Word
    requires offset <= LIMIT
  {
    offset + 1
  }

  /** What the cell of an offset holds when all offsets below `n` have been filled. */
  ghost function Filled(w: Wiring, n: nat, c: nat): Word
    requires n <= LIMIT
  {
    match w.Last(n, c)
    case Some(i) => Pattern(i)
    case None => 0
  }

  /** What the first checking pass asks of an offset, if it is the first one of its cell. */
  ghost predicate PlainRight(w: Wiring, n: nat, i: nat)
    requires w.Fits(|w.stuck|) && i < n <= LIMIT
  {
    w.Last(i, w.decode(i)) == None ==> w.Reads(w.decode(i), Filled(w, n, w.decode(i))) == Pattern(i)
  }

  ghost predicate PlainSeen(w: Wiring, n: nat, k: nat)
    requires w.Fits(|w.stuck|) && k <= n <= LIMIT
  {
    forall i | 0 <= i < k :: PlainRight(w, n, i)
  }

  /** What the second checking pass asks. */
  ghost predicate InverseRight(w: Wiring, n: nat, i: nat)
    requires w.Fits(|w.stuck|) && i < n <= LIMIT
  {
    w.Last(i, w.decode(i)) == None ==>
      w.Reads(w.decode(i), Complement(Filled(w, n, w.decode(i)))) == Complement(Pattern(i))
  }

  ghost predicate InverseSeen(w: Wiring, n: nat, k: nat)
    requires w.Fits(|w.stuck|) && k <= n <= LIMIT
  {
    forall i | 0 <= i < k :: InverseRight(w, n, i)
  }

  /** What the two checks saw at the first offset of every cell is enough to know the memory is sound. */
  lemma FirstReadsSuffice(w: Wiring, n: nat)
    requires w.Fits(|w.stuck|) && n <= LIMIT && PlainSeen(w, n, n) && InverseSeen(w, n, n)
    ensures w.Sound(n)
  {
    forall j | 0 <= j < n
      ensures w.Last(j, w.decode(j)) == None && w.stuck[w.decode(j)] == 0
    {
      var c := w.decode(j);
      var i := FirstOffset(w, j);
      assert PlainRight(w, n, i) && InverseRight(w, n, i);
      BothWays(Filled(w, n, c), Pattern(i), w.stuck[c], w.level[c]);
      assert w.Last(n, c) == Some(i);
    }
  }

  lemma FirstOffset(w: Wiring, j: nat) returns (i: nat)
    ensures i <= j && w.decode(i) == w.decode(j) && w.Last(i, w.decode(i)) == None
  {
    i := j;
    while w.Last(i, w.decode(j)).Some?
      invariant i <= j && w.decode(i) == w.decode(j)
      decreases i
    {
      i := w.Last(i, w.decode(j)).value;
    }
  }

  /** In sound memory every offset is the only one of its cell, and reads are right. */
  lemma {:induction false} SoundReads(w: Wiring, n: nat, i: nat, x: Word)
    requires w.Fits(|w.stuck|) && w.Sound(n) && i < n <= LIMIT
    ensures w.Last(i, w.decode(i)) == None && w.Last(n, w.decode(i)) == Some(i)
    ensures w.Reads(w.decode(i), x) == x
  {
    hide Through;
    LastIsOnly(w, n, i);
    Clean(x, w.level[w.decode(i)]);
  }

  lemma {:induction false} LastIsOnly(w: Wiring, n: nat, i: nat)
    requires w.Injective(n) && i < n
    ensures w.Last(i, w.decode(i)) == None && w.Last(n, w.decode(i)) == Some(i)
  {
  }

  method Fill(ram: Ram, numWords: nat)
    requires ram.Valid() && numWords <= LIMIT
    modifies ram.cells
    ensures forall i | 0 <= i < numWords ::
              ram.cells[ram.wiring.decode(i)] == Filled(ram.wiring, numWords, ram.wiring.decode(i))
  {
    var pattern, offset := 1, 0;
    while offset < numWords
      invariant offset <= numWords && pattern == offset + 1
      invariant forall i | 0 <= i < offset ::
                  ram.cells[ram.wiring.decode(i)] == Filled(ram.wiring, offset, ram.wiring.decode(i))
    {
      ram.Write(offset, pattern);
      pattern, offset := pattern + 1, offset + 1;
    }
  }

  /** What a cell holds when the offsets below `k` have been inverted. */
  ghost function Inverted(w: Wiring, n: nat, k: nat, c: nat): Word
    requires k <= n <= LIMIT
  {
    match w.Last(k, c)
    case Some(i) => Complement(Pattern(i))
    case None => Filled(w, n, c)
  }

  lemma InvertedNext(w: Wiring, n: nat, k: nat, c: nat)
    requires k < n <= LIMIT
    ensures Inverted(w, n, k + 1, c) == if c == w.decode(k) then Complement(Pattern(k)) else Inverted(w, n, k, c)
  {
  }

  lemma InvertedEnds(w: Wiring, n: nat, i: nat)
    requires i < n <= LIMIT
    ensures Inverted(w, n, 0, w.decode(i)) == Filled(w, n, w.decode(i))
    ensures Inverted(w, n, n, w.decode(i)) == Complement(Filled(w, n, w.decode(i)))
  {
  }

  lemma FilledIs(w: Wiring, n: nat, k: nat)
    requires k < n <= LIMIT && w.Last(n, w.decode(k)) == Some(k)
    ensures Filled(w, n, w.decode(k)) == Pattern(k)
  {
  }

  lemma PlainNext(w: Wiring, n: nat, k: nat)
    requires w.Fits(|w.stuck|) && k < n <= LIMIT
    ensures if w.Reads(w.decode(k), Inverted(w, n, k, w.decode(k))) == Pattern(k)
            then PlainSeen(w, n, k) ==> PlainSeen(w, n, k + 1) else !w.Sound(n)
  {
    hide Through, Complement, Filled, Wiring.Reads, Wiring.Sound;
    if w.Sound(n) {
      SoundReads(w, n, k, Pattern(k));
      FilledIs(w, n, k);
    }
  }

  method CheckAndInvert(ram: Ram, numWords: nat) returns (ok: bool)
    requires ram.Valid() && numWords <= LIMIT
    requires forall i | 0 <= i < numWords ::
               ram.cells[ram.wiring.decode(i)] == Filled(ram.wiring, numWords, ram.wiring.decode(i))
    modifies ram.cells
    ensures !ok ==> !ram.wiring.Sound(numWords)
    ensures ok ==> PlainSeen(ram.wiring, numWords, numWords)
    ensures ok ==> forall i | 0 <= i < numWords ::
                     ram.cells[ram.wiring.decode(i)] == Complement(Filled(ram.wiring, numWords, ram.wiring.decode(i)))
  {
    hide Through, Complement, Inverted, Filled, PlainSeen, Wiring.Sound;
    ghost var w := ram.wiring;
    forall i | 0 <= i < numWords
      ensures Inverted(w, numWords, 0, w.decode(i)) == Filled(w, numWords, w.decode(i))
      ensures Inverted(w, numWords, numWords, w.decode(i)) == Complement(Filled(w, numWords, w.decode(i)))
    {
      InvertedEnds(w, numWords, i);
    }
    PlainNone(w, numWords);
    var pattern, offset := 1, 0;
    while offset < numWords
      invariant offset <= numWords && pattern == offset + 1
      invariant PlainSeen(w, numWords, offset)
      invariant forall i | 0 <= i < numWords :: ram.cells[w.decode(i)] == Inverted(w, numWords, offset, w.decode(i))
    {
      var temp := ram.Read(offset);
      PlainNext(w, numWords, offset);
      if temp != pattern {
        return false;
      }
      forall i | 0 <= i < numWords
        ensures Inverted(w, numWords, offset + 1, w.decode(i))
                == if w.decode(i) == w.decode(offset) then Complement(Pattern(offset))
                    else Inverted(w, numWords, offset, w.decode(i))
      {
        InvertedNext(w, numWords, offset, w.decode(i));
      }
      ram.Write(offset, Complement(pattern));
      pattern, offset := pattern + 1, offset + 1;
    }
    ok := true;
  }

  lemma PlainNone(w: Wiring, n: nat)
    requires w.Fits(|w.stuck|) && n <= LIMIT
    ensures PlainSeen(w, n, 0) && InverseSeen(w, n, 0)
  {
  }

  /** What a cell holds when the offsets below `k` have been zeroed. */
  ghost function Zeroed(w: Wiring, n: nat, k: nat, c: nat): Word
    requires k <= n <= LIMIT
  {
    match w.Last(k, c)
    case Some(i) => 0
    case None => Complement(Filled(w, n, c))
  }

  lemma ZeroedNext(w: Wiring, n: nat, k: nat, c: nat)
    requires k < n <= LIMIT
    ensures Zeroed(w, n, k + 1, c) == if c == w.decode(k) then 0 else Zeroed(w, n, k, c)
  {
  }

  lemma ZeroedEnds(w: Wiring, n: nat, i: nat)
    requires i < n <= LIMIT
    ensures Zeroed(w, n, 0, w.decode(i)) == Complement(Filled(w, n, w.decode(i)))
    ensures Zeroed(w, n, n, w.decode(i)) == 0
  {
  }

  lemma InverseNext(w: Wiring, n: nat, k: nat)
    requires w.Fits(|w.stuck|) && k < n <= LIMIT
    ensures if w.Reads(w.decode(k), Zeroed(w, n, k, w.decode(k))) == Complement(Pattern(k))
            then InverseSeen(w, n, k) ==> InverseSeen(w, n, k + 1) else !w.Sound(n)
  {
    hide Through, Complement, Filled, Wiring.Reads, Wiring.Sound;
    if w.Sound(n) {
      SoundReads(w, n, k, Complement(Pattern(k)));
      FilledIs(w, n, k);
    }
  }

  method CheckAndZero(ram: Ram, numWords: nat) returns (ok: bool)
    requires ram.Valid() && numWords <= LIMIT
    requires forall i | 0 <= i < numWords ::
               ram.cells[ram.wiring.decode(i)] == Complement(Filled(ram.wiring, numWords, ram.wiring.decode(i)))
    modifies ram.cells
    ensures !ok ==> !ram.wiring.Sound(numWords)
    ensures ok ==> InverseSeen(ram.wiring, numWords, numWords)
    ensures ok ==> forall i | 0 <= i < numWords :: ram.cells[ram.wiring.decode(i)] == 0
  {
    hide Through, Complement, Zeroed, Filled, InverseSeen, Wiring.Sound;
    ghost var w := ram.wiring;
    forall i | 0 <= i < numWords
      ensures Zeroed(w, numWords, 0, w.decode(i)) == Complement(Filled(w, numWords, w.decode(i)))
      ensures Zeroed(w, numWords, numWords, w.decode(i)) == 0
    {
      ZeroedEnds(w, numWords, i);
    }
    PlainNone(w, numWords);
    var pattern, offset := 1, 0;
    while offset < numWords
      invariant offset <= numWords && pattern == offset + 1
      invariant InverseSeen(w, numWords, offset)
      invariant forall i | 0 <= i < numWords :: ram.cells[w.decode(i)] == Zeroed(w, numWords, offset, w.decode(i))
    {
      var temp := ram.Read(offset);
      InverseNext(w, numWords, offset);
      if temp != Complement(pattern) {
        return false;
      }
      forall i | 0 <= i < numWords
        ensures Zeroed(w, numWords, offset + 1, w.decode(i))
                == if w.decode(i) == w.decode(offset) then 0 else Zeroed(w, numWords, offset, w.decode(i))
      {
        ZeroedNext(w, numWords, offset, w.decode(i));
      }
      ram.Write(offset, 0);
      pattern, offset := pattern + 1, offset + 1;
    }
    ok := true;
  }

  /** The increment test passes exactly if the memory is sound, and then leaves it zero. */
  method IncrementTest(ram: Ram, numWords: nat) returns (ok: bool)
    requires ram.Valid() && numWords <= LIMIT
    modifies ram.cells
    ensures ok <==> ram.wiring.Sound(numWords)
    ensures ok ==> forall i | 0 <= i < numWords :: ram.cells[ram.wiring.decode(i)] == 0
  {
    Fill(ram, numWords);
    ok := CheckAndInvert(ram, numWords);
    if ok {
      ok := CheckAndZero(ram, numWords);
      if ok {
        FirstReadsSuffice(ram.wiring, numWords);
      }
    }
  }

  // ---------------------------------------------------------------------------------------------
  // The address line test
  // ---------------------------------------------------------------------------------------------

  const PATTERN: Word := 0xAAAA_AAAA
  const ANTI_PATTERN: Word := 0x5555_5555

  /** The number of lowest bits of the mask up to the first clear one. */
  function Lines(mask: nat): nat {
    if mask % 2 == 1 then 1 + Lines(mask / 2) else 0
  }

  /** A power of two has a bit in common with the mask. */
  predicate Common(offset: nat, mask: nat)
    requires offset > 0
  {
    mask / offset % 2 == 1
  }

  lemma {:induction false} CommonIsLine(mask: nat, j: nat)
    requires j <= Lines(mask)
    ensures Common(Power(j), mask) <==> j < Lines(mask)
  {
    if j > 0 {
      CommonIsLine(mask / 2, j - 1);
      DivideTwice(mask, Power(j - 1));
    } else {
      assert mask / 1 == mask;
    }
  }

  lemma DivideTwice(x: nat, p: nat)
    requires p > 0
    ensures x / (2 * p) == x / 2 / p
  {
    var q, r := x / 2 / p, x / 2 % p;
    assert x == 2 * (p * q + r) + x % 2;
    assert x == (2 * p) * q + (2 * r + x % 2);
    Divided(x, 2 * p, q, 2 * r + x % 2);
  }

  lemma {:induction false} LineWithinMask(mask: nat, j: nat)
    requires j < Lines(mask)
    ensures Power(j) <= mask
  {
    if j == 0 {
    } else {
      LineWithinMask(mask / 2, j - 1);
    }
  }

  lemma {:induction false} PowersDiffer(i: nat, j: nat)
    requires i < j
    ensures Power(i) < Power(j)
  {
    if i == j - 1 {
    } else {
      PowersDiffer(i, j - 1);
    }
  }

  /** The cell of an address line. */
  function LineCell(w: Wiring, j: nat): nat {
    w.decode(Power(j))
  }

  /** No two of offset zero and the tested powers of two share a cell. */
  ghost predicate NoAlias(w: Wiring, mask: nat) {
    && (forall j | 0 <= j < Lines(mask) :: LineCell(w, j) != w.decode(0))
    && (forall i, j | 0 <= i < Lines(mask) && 0 <= j < Lines(mask) && i != j :: LineCell(w, i) != LineCell(w, j))
  }

  ghost predicate LinesNotStuck(w: Wiring, mask: nat)
    requires w.Fits(|w.stuck|)
  {
    forall j | 0 <= j < Lines(mask) :: w.stuck[LineCell(w, j)] == 0
  }

  /** All tested powers of two hold the pattern. */
  ghost predicate LinesHold(ram: Ram, mask: nat, k: nat)
    requires ram.Valid()
    reads ram.cells
  {
    forall j | 0 <= j < k :: ram.cells[LineCell(ram.wiring, j)] == PATTERN
  }

  method WriteLines(ram: Ram, addrMask: nat)
    requires ram.Valid() && addrMask < LIMIT
    modifies ram.cells
    ensures LinesHold(ram, addrMask, Lines(addrMask))
  {
    var offset := 1;
    ghost var j := 0;
    CommonIsLine(addrMask, j);
    while Common(offset, addrMask)
      invariant j <= Lines(addrMask) && offset == Power(j)
      invariant Common(offset, addrMask) <==> j < Lines(addrMask)
      invariant LinesHold(ram, addrMask, j)
      decreases Lines(addrMask) - j
    {
      ram.Write(offset, PATTERN);
      offset, j := 2 * offset, j + 1;
      CommonIsLine(addrMask, j);
    }
  }

  /** Every tested power of two other than `testOffset` reads as the pattern. */
  ghost predicate LinesRead(ram: Ram, mask: nat, testOffset: nat, k: nat)
    requires ram.Valid()
    reads ram.cells
  {
    forall j | 0 <= j < k && Power(j) != testOffset ::
      ram.wiring.Reads(LineCell(ram.wiring, j), ram.cells[LineCell(ram.wiring, j)]) == PATTERN
  }

  method CheckLines(ram: Ram, addrMask: nat, testOffset: nat) returns (ok: bool)
    requires ram.Valid() && addrMask < LIMIT
    ensures ok <==> LinesRead(ram, addrMask, testOffset, Lines(addrMask))
  {
    hide Through, Common, Lines;
    var offset := 1;
    ghost var j := 0;
    CommonIsLine(addrMask, j);
    while Common(offset, addrMask)
      invariant j <= Lines(addrMask) && offset == Power(j)
      invariant Common(offset, addrMask) <==> j < Lines(addrMask)
      invariant LinesRead(ram, addrMask, testOffset, j)
      decreases Lines(addrMask) - j
    {
      var temp := ram.Read(offset);
      if temp != PATTERN && offset != testOffset {
        return false;
      }
      offset, j := 2 * offset, j + 1;
      CommonIsLine(addrMask, j);
    }
    ok := true;
  }

  /** A line reads as the pattern while the cell of another offset, perhaps its own, holds the other pattern. */
  predicate ReadsBeside(w: Wiring, j: nat, o: nat)
    requires w.Fits(|w.stuck|)
  {
    w.Reads(LineCell(w, j), if LineCell(w, j) == w.decode(o) then ANTI_PATTERN else PATTERN) == PATTERN
  }

  /** So do all lines other than the offset itself. */
  ghost predicate OthersRead(w: Wiring, mask: nat, o: nat)
    requires w.Fits(|w.stuck|)
  {
    forall j | 0 <= j < Lines(mask) :: Power(j) == o || ReadsBeside(w, j, o)
  }

  /** One line tested against all the others: its cell gets the other pattern for the time of the check. */
  method TestAgainst(ram: Ram, addrMask: nat, testOffset: nat) returns (ok: bool)
    requires ram.Valid() && addrMask < LIMIT && LinesHold(ram, addrMask, Lines(addrMask))
    modifies ram.cells
    ensures ok ==> LinesHold(ram, addrMask, Lines(addrMask))
    ensures ok <==> OthersRead(ram.wiring, addrMask, testOffset)
  {
    hide Through, Lines, Wiring.Reads;
    ram.Write(testOffset, ANTI_PATTERN);
    ok := CheckLines(ram, addrMask, testOffset);
    forall j | 0 <= j < Lines(addrMask)
      ensures var c := LineCell(ram.wiring, j);
              ReadsBeside(ram.wiring, j, testOffset) <==> ram.wiring.Reads(c, ram.cells[c]) == PATTERN
    {
    }
    if ok {
      ram.Write(testOffset, PATTERN);
    }
  }

  /** All the tests of a line against offset zero and against the other lines go well. */
  ghost predicate AllRead(w: Wiring, mask: nat)
    requires w.Fits(|w.stuck|)
  {
    OthersRead(w, mask, 0) && forall i | 0 <= i < Lines(mask) :: OthersRead(w, mask, Power(i))
  }

  /** The line shares its cell with offset zero or another line. */
  ghost predicate Aliased(w: Wiring, mask: nat, j: nat) {
    LineCell(w, j) == w.decode(0) || exists i | 0 <= i < Lines(mask) && i != j :: LineCell(w, i) == LineCell(w, j)
  }

  /** All bits of the cell are stuck, at the pattern. */
  predicate Frozen(w: Wiring, c: nat)
    requires c < |w.stuck| == |w.level|
  {
    w.stuck[c] == SPACE - 1 && w.level[c] == PATTERN
  }

  /** The bits stuck in the cells of the lines agree with the pattern, and aliased lines are frozen. */
  ghost predicate LinesPass(w: Wiring, mask: nat)
    requires w.Fits(|w.stuck|)
  {
    forall j | 0 <= j < Lines(mask) ::
      && w.Reads(LineCell(w, j), PATTERN) == PATTERN
      && (Aliased(w, mask, j) ==> Frozen(w, LineCell(w, j)))
  }

  /** A cell that reads as the pattern although it holds the other one is frozen. */
  lemma ReadsFrozen(w: Wiring, c: nat)
    requires c < |w.stuck| == |w.level|
    ensures w.Reads(c, ANTI_PATTERN) == PATTERN <==> Frozen(w, c)
  {
    hide Through;
    Opposite(ANTI_PATTERN, w.stuck[c], w.level[c]);
  }

  lemma FrozenReads(w: Wiring, c: nat)
    requires c < |w.stuck| == |w.level| && Frozen(w, c)
    ensures w.Reads(c, PATTERN) == PATTERN
  {
    PowerOf32();
    AllStuck(PATTERN, PATTERN, 32);
  }

  lemma HalfOfOnes(p: nat)
    requires p > 0
    ensures (2 * p - 1) / 2 == p - 1 && (2 * p - 1) % 2 == 1
  {
  }

  lemma {:induction false} AllStuck(x: nat, level: nat, n: nat)
    requires level < Power(n)
    ensures ThroughBits(x, Power(n) - 1, level, n) == level
  {
    if n == 0 {
    } else {
      var ones := Power(n) - 1;
      HalfOfOnes(Power(n - 1));
      assert ThroughBits(x, ones, level, n) == 2 * ThroughBits(x / 2, ones / 2, level / 2, n - 1) + level % 2;
      AllStuck(x / 2, level / 2, n - 1);
    }
  }

  lemma LinesDiffer(i: nat, j: nat)
    ensures Power(i) == Power(j) <==> i == j
  {
    if i < j { PowersDiffer(i, j); }
    if j < i { PowersDiffer(j, i); }
  }

  /** A line that passes all tests, in both directions. */
  lemma PassingReads(w: Wiring, mask: nat, j: nat)
    requires w.Fits(|w.stuck|) && AllRead(w, mask) && j < Lines(mask)
    ensures w.Reads(LineCell(w, j), PATTERN) == PATTERN
    ensures Aliased(w, mask, j) ==> Frozen(w, LineCell(w, j))
  {
    hide Lines, Frozen, Wiring.Reads;
    ReadsFrozen(w, LineCell(w, j));
    assert ReadsBeside(w, j, 0);
    if i :| 0 <= i < Lines(mask) && i != j && LineCell(w, i) == LineCell(w, j) {
      LinesDiffer(i, j);
      assert OthersRead(w, mask, Power(i));
    }
    if Frozen(w, LineCell(w, j)) {
      FrozenReads(w, LineCell(w, j));
    }
  }

  lemma ReadsPassing(w: Wiring, mask: nat, i: nat, j: nat)
    requires w.Fits(|w.stuck|) && LinesPass(w, mask) && i < Lines(mask) && j < Lines(mask)
    ensures ReadsBeside(w, j, 0) && (i == j || ReadsBeside(w, j, Power(i)))
  {
    hide Lines, Frozen, Wiring.Reads, Power;
    ReadsFrozen(w, LineCell(w, j));
    if i != j && LineCell(w, i) == LineCell(w, j) {
      assert Aliased(w, mask, j);
    }
  }

  lemma ReadIffPass(w: Wiring, mask: nat)
    requires w.Fits(|w.stuck|)
    ensures AllRead(w, mask) <==> LinesPass(w, mask)
  {
    hide Lines, Frozen, Wiring.Reads, Aliased, ReadsBeside, Power;
    if AllRead(w, mask) {
      forall j | 0 <= j < Lines(mask)
        ensures w.Reads(LineCell(w, j), PATTERN) == PATTERN && (Aliased(w, mask, j) ==> Frozen(w, LineCell(w, j)))
      {
        PassingReads(w, mask, j);
      }
    }
    if LinesPass(w, mask) {
      forall i, j | 0 <= i < Lines(mask) && 0 <= j < Lines(mask)
        ensures ReadsBeside(w, j, 0) && (Power(j) == Power(i) || ReadsBeside(w, j, Power(i)))
      {
        ReadsPassing(w, mask, i, j);
      }
      if Lines(mask) > 0 {
        assert OthersRead(w, mask, Power(0));
      }
    }
  }

  /**
    The address line test passes exactly if the bits stuck at the tested powers of two agree with the
    pattern, and none of these offsets shares its cell with another one or with offset zero, except
    where all bits are stuck.
   */
  method AddressLineTest(ram: Ram, addrMask: nat) returns (ok: bool)
    requires ram.Valid() && addrMask < LIMIT
    modifies ram.cells
    ensures ok <==> LinesPass(ram.wiring, addrMask)
  {
    hide Through, Lines, Common, OthersRead, LinesHold, LinesPass;
    ghost var w, t := ram.wiring, 0;
    ReadIffPass(w, addrMask);
    WriteLines(ram, addrMask);
    ok := TestAgainst(ram, addrMask, 0);
    if !ok {
      return;
    }
    var testOffset := 1;
    CommonIsLine(addrMask, t);
    while Common(testOffset, addrMask)
      invariant t <= Lines(addrMask) && testOffset == Power(t)
      invariant Common(testOffset, addrMask) <==> t < Lines(addrMask)
      invariant LinesHold(ram, addrMask, Lines(addrMask)) && OthersRead(w, addrMask, 0)
      invariant forall i | 0 <= i < t :: OthersRead(w, addrMask, Power(i))
      decreases Lines(addrMask) - t
    {
      ok := TestAgainst(ram, addrMask, testOffset);
      if !ok {
        return;
      }
      testOffset, t := 2 * testOffset, t + 1;
      CommonIsLine(addrMask, t);
    }
  }

  /** Where no bit is stuck, that is having no alias. */
  lemma PassIsNoAlias(w: Wiring, mask: nat)
    requires w.Fits(|w.stuck|) && LinesNotStuck(w, mask)
    ensures LinesPass(w, mask) <==> NoAlias(w, mask)
  {
    hide Through, Lines;
    forall j | 0 <= j < Lines(mask)
      ensures w.Reads(LineCell(w, j), PATTERN) == PATTERN && !Frozen(w, LineCell(w, j))
    {
      Clean(PATTERN, w.level[LineCell(w, j)]);
    }
  }

  /** Every offset decoded to one cell, all of whose bits are stuck at the pattern: the test passes. */
  lemma FrozenAliasPasses()
    ensures var w := Wiring(_ => 0, [SPACE - 1], [PATTERN]);
            w.Fits(1) && Lines(1) == 1 && LinesPass(w, 1) && !NoAlias(w, 1)
  {
    var w := Wiring(_ => 0, [SPACE - 1], [PATTERN]);
    hide Through;
    assert Lines(1) == 1 + Lines(0);
    FrozenReads(w, 0);
    assert LineCell(w, 0) == w.decode(0) == 0;
  }

  // ---------------------------------------------------------------------------------------------
  // One iteration
  // ---------------------------------------------------------------------------------------------

  /** The last word offset of a region, with the wrap-around of an end before the start. */
  function AddrMask(start: Word, end: Word): (m: nat)
    ensures m < LIMIT
  {
    (end - start) % SPACE / 4
  }

  /** The words that are tested: those whose first byte is not behind the end address. */
  lemma MaskIsRegion(start: Word, end: Word, i: nat)
    ensures start <= end ==> (i <= AddrMask(start, end) <==> start + 4 * i <= end)
    ensures end < start ==> (i <= AddrMask(start, end) <==> start + 4 * i <= end + 0x1_0000_0000)
  {
  }

  lemma SoundHasNoAlias(w: Wiring, mask: nat)
    requires w.Fits(|w.stuck|) && w.Sound(mask + 1)
    ensures NoAlias(w, mask) && LinesNotStuck(w, mask)
  {
    forall j | 0 <= j < Lines(mask)
      ensures LineCell(w, j) != w.decode(0) && w.stuck[LineCell(w, j)] == 0
    {
      LineWithinMask(mask, j);
    }
    forall i, j | 0 <= i < Lines(mask) && 0 <= j < Lines(mask) && i < j
      ensures LineCell(w, i) != LineCell(w, j)
    {
      LineWithinMask(mask, j);
      PowersDiffer(i, j);
    }
  }

  /**
    An iteration passes exactly if every word of the region has a cell of its own and no bit of these
    cells is stuck: no false alarm by the address line test, nothing missed by the increment test.
    The region then reads as zero.
   */
  method Iteration(ram: Ram, start: Word, end: Word) returns (ok: bool)
    requires ram.Valid()
    modifies ram.cells
    ensures ok <==> ram.wiring.Sound(AddrMask(start, end) + 1)
    ensures ok ==> forall i | 0 <= i <= AddrMask(start, end) :: ram.cells[ram.wiring.decode(i)] == 0
  {
    var addrMask := AddrMask(start, end);
    ok := AddressLineTest(ram, addrMask);
    if ram.wiring.Sound(addrMask + 1) {
      SoundHasNoAlias(ram.wiring, addrMask);
      PassIsNoAlias(ram.wiring, addrMask);
    }
    if ok {
      ok := IncrementTest(ram, addrMask + 1);
    }
  }

}
