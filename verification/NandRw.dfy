/**
  Reading and writing NAND flash around bad blocks.

  A transfer walks through the device erase block by erase block. What it does at a bad block depends
  on the command: give up, skip the block, or (reading only) pretend that it holds 0xff.
 */
module NandRw {

  import opened Basics

  const READ := 1
  const JFFS2 := 2
  const SKIP := 4

  const WRITE_SKIP := JFFS2
  const READ_FILL := READ + JFFS2
  const READ_SKIP := READ + JFFS2 + SKIP

  predicate Skips(cmd: nat) {
    cmd == WRITE_SKIP || cmd == READ_SKIP
  }

  predicate Reads(cmd: nat) {
    cmd % 2 == 1
  }

  /** The layout of a chip: bytes per page and per erase block, and which erase blocks are bad. */
  datatype Layout = Layout(page: nat, erase: nat, bad: seq<bool>) {

    ghost predicate Valid() {
      page > 0 && erase > 0 && erase % page == 0
    }

    function Total(): nat {
      |bad| * erase
    }

    function Block(pos: nat): nat
      requires erase > 0
    {
      pos / erase
    }

    /** A byte that can be used. Everything behind the end of the device counts as bad. */
    predicate Good(pos: nat)
      requires erase > 0
    {
      Block(pos) < |bad| && !bad[Block(pos)]
    }
  }

  // ---------------------------------------------------------------------------------------------
  // Where the bytes of a transfer live
  // ---------------------------------------------------------------------------------------------

  /**
    The place of every byte of a transfer: a position on the chip, or `None` for a byte that is made
    up. It is shorter than the transfer if the transfer cannot go on.
   */
  function Route(c: Layout, cmd: nat, s: nat, len: nat): (r: seq<Option<nat>>)
    requires c.erase > 0
    ensures |r| <= len
    decreases len, |c.bad| * c.erase - s
  {
    if len == 0 then []
    else if c.Good(s) then [Some(s)] + Route(c, cmd, s + 1, len - 1)
    else if cmd == READ_FILL then [None] + Route(c, cmd, s + 1, len - 1)
    else if Skips(cmd) && s < c.Total() then Route(c, cmd, s + c.erase, len)
    else []
  }

  /** Good positions, in ascending order, from `s` on. */
  ghost predicate Ascends(c: Layout, s: nat, r: seq<Option<nat>>)
    requires c.erase > 0
  {
    && (forall i | 0 <= i < |r| && r[i].Some? :: s <= r[i].value && c.Good(r[i].value))
    && (forall i, j | 0 <= i < j < |r| && r[i].Some? && r[j].Some? :: r[i].value < r[j].value)
  }

  lemma AscendsCons(c: Layout, s: nat, o: Option<nat>, r: seq<Option<nat>>)
    requires c.erase > 0 && Ascends(c, s + 1, r) && (o.Some? ==> o.value == s && c.Good(s))
    ensures Ascends(c, s, [o] + r)
  {
  }

  lemma {:induction false} RouteAscends(c: Layout, cmd: nat, s: nat, len: nat)
    requires c.erase > 0
    ensures Ascends(c, s, Route(c, cmd, s, len))
    decreases len, |c.bad| * c.erase - s
  {
    if len == 0 {
    } else if c.Good(s) {
      RouteAscends(c, cmd, s + 1, len - 1);
      AscendsCons(c, s, Some(s), Route(c, cmd, s + 1, len - 1));
    } else if cmd == READ_FILL {
      RouteAscends(c, cmd, s + 1, len - 1);
      AscendsCons(c, s, None, Route(c, cmd, s + 1, len - 1));
    } else if Skips(cmd) && s < c.Total() {
      RouteAscends(c, cmd, s + c.erase, len);
    }
  }

  /** Skipping goes the same way for reads and for writes. */
  lemma {:induction false} SkipRoutesAgree(c: Layout, s: nat, len: nat)
    requires c.erase > 0
    ensures Route(c, WRITE_SKIP, s, len) == Route(c, READ_SKIP, s, len)
    ensures forall i | 0 <= i < |Route(c, READ_SKIP, s, len)| :: Route(c, READ_SKIP, s, len)[i].Some?
    decreases len, |c.bad| * c.erase - s
  {
    if len == 0 {
    } else if c.Good(s) {
      SkipRoutesAgree(c, s + 1, len - 1);
    } else if s < c.Total() {
      SkipRoutesAgree(c, s + c.erase, len);
    }
  }

  /** Reading with 0xff for bad blocks goes straight on. */
  lemma {:induction false} FillRoute(c: Layout, s: nat, len: nat)
    requires c.erase > 0
    ensures var r := Route(c, READ_FILL, s, len);
            |r| == len && forall i | 0 <= i < len :: r[i] == if c.Good(s + i) then Some(s + i) else None
    decreases len
  {
    if len == 0 {
    } else {
      FillRoute(c, s + 1, len - 1);
      var r, t := Route(c, READ_FILL, s, len), Route(c, READ_FILL, s + 1, len - 1);
      assert forall i | 1 <= i < len :: r[i] == t[i - 1];
    }
  }

  /** The other commands go straight on up to the first bad block. */
  lemma {:induction false} StrictRoute(c: Layout, cmd: nat, s: nat, len: nat)
    requires c.erase > 0 && cmd != READ_FILL && !Skips(cmd)
    ensures var r := Route(c, cmd, s, len);
            && (forall i | 0 <= i < |r| :: r[i] == Some(s + i))
            && (|r| < len ==> !c.Good(s + |r|))
    decreases len
  {
    if len == 0 || !c.Good(s) {
    } else {
      StrictRoute(c, cmd, s + 1, len - 1);
      var r, t := Route(c, cmd, s, len), Route(c, cmd, s + 1, len - 1);
      assert forall i | 1 <= i < |r| :: r[i] == t[i - 1];
    }
  }

  /** The commands by their numbers: 1 and 0 stop at a bad block, 3 fills, 7 and 2 skip. */
  lemma CommandNumbers(c: Layout, s: nat, len: nat)
    requires c.erase > 0
    ensures Reads(1) && Reads(3) && Reads(7) && !Reads(0) && !Reads(2)
    ensures !c.Good(s) ==> Route(c, 0, s, len) == [] && Route(c, 1, s, len) == []
    ensures |Route(c, 3, s, len)| == len
    ensures |Route(c, 2, s, len)| == len <==> Enough(c, s, len)
    ensures Route(c, 2, s, len) == Route(c, 7, s, len)
  {
    StrictRoute(c, 0, s, len);
    StrictRoute(c, 1, s, len);
    FillRoute(c, s, len);
    CompleteIffEnough(c, 2, s, len);
    CompleteIffEnough(c, 7, s, len);
    SkipRoutesAgree(c, s, len);
  }

  function GoodFrom(bad: seq<bool>, b: nat): nat
    decreases |bad| - b
  {
    if |bad| <= b then 0 else (if bad[b] then 0 else 1) + GoodFrom(bad, b + 1)
  }

  /** Enough good blocks are left: the caller's condition for a transfer that skips. */
  predicate Enough(c: Layout, s: nat, len: nat)
    requires c.erase > 0
  {
    len == 0 || len + s % c.erase <= GoodFrom(c.bad, c.Block(s)) * c.erase
  }

  lemma NextByte(c: Layout, s: nat)
    requires c.erase > 0
    ensures if s % c.erase + 1 < c.erase then c.Block(s + 1) == c.Block(s) && (s + 1) % c.erase == s % c.erase + 1
            else c.Block(s + 1) == c.Block(s) + 1 && (s + 1) % c.erase == 0
  {
    var e, q, r := c.erase, s / c.erase, s % c.erase;
    if r + 1 < e {
      Divided(s + 1, e, q, r + 1);
    } else {
      assert s + 1 == e * (q + 1);
      Divided(s + 1, e, q + 1, 0);
    }
  }

  lemma NextBlock(c: Layout, s: nat)
    requires c.erase > 0
    ensures c.Block(s + c.erase) == c.Block(s) + 1 && (s + c.erase) % c.erase == s % c.erase
  {
    var e, q, r := c.erase, s / c.erase, s % c.erase;
    assert s + e == e * (q + 1) + r;
    Divided(s + e, e, q + 1, r);
  }

  lemma InDevice(c: Layout, s: nat)
    requires c.erase > 0
    ensures c.Block(s) < |c.bad| <==> s < c.Total()
  {
    var e, q, r := c.erase, s / c.erase, s % c.erase;
    assert s == e * q + r;
    if q < |c.bad| {
      assert e * (q + 1) <= e * |c.bad|;
    } else {
      assert e * |c.bad| <= e * q;
    }
  }

  /** A transfer that skips can be completed exactly if enough good blocks are left. */
  lemma {:induction false} CompleteIffEnough(c: Layout, cmd: nat, s: nat, len: nat)
    requires c.erase > 0 && Skips(cmd)
    ensures |Route(c, cmd, s, len)| == len <==> Enough(c, s, len)
    decreases len, |c.bad| * c.erase - s
  {
    if len == 0 {
    } else {
      InDevice(c, s);
      if c.Good(s) {
        CompleteIffEnough(c, cmd, s + 1, len - 1);
        NextByte(c, s);
        GoodByte(c, s, len);
      } else if s < c.Total() {
        CompleteIffEnough(c, cmd, s + c.erase, len);
        NextBlock(c, s);
      }
    }
  }

  lemma GoodByte(c: Layout, s: nat, len: nat)
    requires c.erase > 0 && c.Good(s) && len > 0
    ensures Enough(c, s, len) <==> Enough(c, s + 1, len - 1)
  {
    NextByte(c, s);
    var g, g', e := GoodFrom(c.bad, c.Block(s)), GoodFrom(c.bad, c.Block(s) + 1), c.erase;
    assert g * e == g' * e + e;
    if len == 1 {
      assert s % e < e;
    }
  }

  // ---------------------------------------------------------------------------------------------
  // The chip and the transfer
  // ---------------------------------------------------------------------------------------------

  /** The made-up byte of a bad block, or the one on the chip. */
  function Fetch(mem: seq<Byte>, o: Option<nat>): Byte
    requires o.Some? ==> o.value < |mem|
  {
    if o.Some? then mem[o.value] else 0xFF
  }

  class Chip {
    const layout: Layout
    const mem: array<Byte>
    /** What the page operation beginning at a position reports; zero is success. */
    const report: nat -> int

    ghost predicate Valid() {
      layout.Valid() && mem.Length == layout.Total()
    }

    constructor (layout: Layout, mem: array<Byte>, report: nat -> int)
      requires layout.Valid() && mem.Length == layout.Total()
      ensures Valid() && this.layout == layout && this.mem == mem && this.report == report
    {
      this.layout, this.mem, this.report := layout, mem, report;
    }

    /** Whole pages inside one good block: the only page operations that are allowed. */
    ghost predicate Proper(pos: nat, n: nat)
      requires layout.Valid()
    {
      && pos % layout.page == 0 && n % layout.page == 0
      && layout.Good(pos) && pos % layout.erase + n <= layout.erase
    }

    predicate CheckBlock(pos: nat)
      requires layout.erase > 0
    {
      !layout.Good(pos)
    }

    method ReadEcc(pos: nat, n: nat, buf: array<Byte>, at: nat) returns (rc: int)
      requires Valid() && Proper(pos, n) && at + n <= buf.Length && buf != mem
      modifies buf
      ensures rc == report(pos)
      ensures rc == 0 ==> pos + n <= mem.Length && forall k | at <= k < at + n :: buf[k] == mem[pos + (k - at)]
      ensures forall k | 0 <= k < buf.Length && !(at <= k < at + n) :: buf[k] == old(buf[k])
    {
      BlockFits(layout, pos, n);
      var i := 0;
      while i < n
        invariant i <= n
        invariant forall k | 0 <= k < buf.Length ::
                    buf[k] == if at <= k < at + i then mem[pos + (k - at)] else old(buf[k])
      {
        buf[at + i] := mem[pos + i];
        i := i + 1;
      }
      rc := report(pos);
    }

    method WriteEcc(pos: nat, n: nat, buf: array<Byte>, at: nat) returns (rc: int)
      requires Valid() && Proper(pos, n) && at + n <= buf.Length && buf != mem
      modifies mem
      ensures rc == report(pos)
      ensures rc == 0 ==> pos + n <= mem.Length && forall p | pos <= p < pos + n :: mem[p] == buf[at + (p - pos)]
      ensures forall p | 0 <= p < mem.Length && !(pos <= p < pos + n) :: mem[p] == old(mem[p])
    {
      BlockFits(layout, pos, n);
      var i := 0;
      while i < n
        invariant i <= n
        invariant forall p | 0 <= p < mem.Length ::
                    mem[p] == if pos <= p < pos + i then buf[at + (p - pos)] else old(mem[p])
      {
        mem[pos + i] := buf[at + i];
        i := i + 1;
      }
      rc := report(pos);
    }
  }

  lemma BlockFits(c: Layout, pos: nat, n: nat)
    requires c.erase > 0 && c.Good(pos) && pos % c.erase + n <= c.erase
    ensures pos + n <= c.Total()
  {
    BlockEnd(c, c.Block(pos));
  }

  lemma BlockEnd(c: Layout, b: nat)
    requires b < |c.bad|
    ensures b * c.erase + c.erase <= |c.bad| * c.erase
  {
    Monotone(c.erase, b + 1, |c.bad|);
  }

  // ---------------------------------------------------------------------------------------------
  // Chunks
  // ---------------------------------------------------------------------------------------------

  /** How much is moved before the end of the erase block. */
  function Chunk(c: Layout, s: nat, len: nat): (n: nat)
    requires c.erase > 0
    ensures n <= len && s % c.erase + n <= c.erase && (len > 0 ==> n > 0)
  {
    if len < c.erase - s % c.erase then len else c.erase - s % c.erase
  }

  lemma Aligned(x: nat, y: nat, d: nat)
    requires d > 0 && x % d == 0 && y % d == 0
    ensures (x + y) % d == 0
    ensures x <= y ==> (y - x) % d == 0
  {
    var q, r := x / d, y / d;
    assert x == d * q && y == d * r;
    assert x + y == d * (q + r);
    Divided(x + y, d, q + r, 0);
    if x <= y {
      Grows(d, q - r);
      assert y - x == d * (r - q);
      Divided(y - x, d, r - q, 0);
    }
  }

  lemma Inside(s: nat, e: nat, d: nat)
    requires d > 0 && e > 0 && s % d == 0 && e % d == 0
    ensures (s % e) % d == 0
  {
    var q, k := s / e, e / d;
    assert s == e * q + s % e;
    MultipleOfMultiple(e, d, k, q);
    Aligned(e * q, s, d);
  }

  lemma MultipleOfMultiple(e: nat, d: nat, k: nat, q: nat)
    requires d > 0 && e == d * k
    ensures (e * q) % d == 0
  {
    assert e * q == d * (k * q);
    Divided(e * q, d, k * q, 0);
  }

  lemma ChunkAligned(c: Layout, s: nat, len: nat)
    requires c.Valid() && s % c.page == 0 && len % c.page == 0
    ensures Chunk(c, s, len) % c.page == 0
    ensures (s + Chunk(c, s, len)) % c.page == 0 && (len - Chunk(c, s, len)) % c.page == 0
  {
    Inside(s, c.erase, c.page);
    Aligned(s % c.erase, c.erase, c.page);
    Aligned(Chunk(c, s, len), len, c.page);
    Aligned(s, Chunk(c, s, len), c.page);
  }

  /** The start of the erase block. */
  function BlockStart(c: Layout, s: nat): nat
    requires c.erase > 0
  {
    s - s % c.erase
  }

  lemma SameBlock(c: Layout, s: nat)
    requires c.erase > 0
    ensures c.Block(BlockStart(c, s)) == c.Block(s)
  {
    Divided(BlockStart(c, s), c.erase, s / c.erase, 0);
  }

  /** After a chunk the transfer is complete or in another erase block. */
  lemma AfterChunk(c: Layout, s: nat, len: nat)
    requires c.erase > 0 && Chunk(c, s, len) < len
    ensures BlockStart(c, s + Chunk(c, s, len)) == BlockStart(c, s) + c.erase
  {
    var e, q := c.erase, s / c.erase;
    assert s + Chunk(c, s, len) == e * (q + 1);
    Divided(s + Chunk(c, s, len), e, q + 1, 0);
  }

  function Run(s: nat, n: nat): (r: seq<Option<nat>>)
    ensures |r| == n
  {
    seq(n, k requires 0 <= k < n => Some(s + k))
  }

  function Nothing(n: nat): (r: seq<Option<nat>>)
    ensures |r| == n
  {
    seq(n, k requires 0 <= k < n => None)
  }

  lemma {:induction false} RouteOverGood(c: Layout, cmd: nat, s: nat, len: nat, n: nat)
    requires c.erase > 0 && c.Good(s) && n <= len && s % c.erase + n <= c.erase
    ensures Route(c, cmd, s, len) == Run(s, n) + Route(c, cmd, s + n, len - n)
    decreases n
  {
    if n > 1 {
      NextByte(c, s);
      RouteOverGood(c, cmd, s + 1, len - 1, n - 1);
      assert Run(s, n) == [Some(s)] + Run(s + 1, n - 1);
    } else if n == 1 {
      assert Run(s, n) == [Some(s)];
    }
  }

  lemma {:induction false} RouteOverBad(c: Layout, s: nat, len: nat, n: nat)
    requires c.erase > 0 && !c.Good(s) && n <= len && s % c.erase + n <= c.erase
    ensures Route(c, READ_FILL, s, len) == Nothing(n) + Route(c, READ_FILL, s + n, len - n)
    decreases n
  {
    if n > 1 {
      NextByte(c, s);
      RouteOverBad(c, s + 1, len - 1, n - 1);
      assert Nothing(n) == [None] + Nothing(n - 1);
    } else if n == 1 {
      assert Nothing(n) == [None];
    }
  }

  // ---------------------------------------------------------------------------------------------
  // The transfer
  // ---------------------------------------------------------------------------------------------

  /** All places are before `s`. */
  ghost predicate Behind(done: seq<Option<nat>>, s: nat) {
    forall i | 0 <= i < |done| && done[i].Some? :: done[i].value < s
  }

  /** The bytes of the places `done` have been transferred, and only the chip positions `touched` were written. */
  ghost predicate Transferred(cmd: nat, done: seq<Option<nat>>, touched: seq<Option<nat>>,
                              mem0: seq<Byte>, buf0: seq<Byte>, mem: seq<Byte>, buf: seq<Byte>)
  {
    && |mem| == |mem0| && |buf| == |buf0| && |done| <= |buf|
    && (forall i | 0 <= i < |done| && done[i].Some? :: done[i].value < |mem|)
    && if Reads(cmd) then
         mem == mem0 && forall i | 0 <= i < |done| :: buf[i] == Fetch(mem0, done[i])
       else
         && buf == buf0
         && (forall i | 0 <= i < |done| :: done[i].Some? && mem[done[i].value] == buf[i])
         && (forall p | 0 <= p < |mem| && Some(p) !in touched :: mem[p] == mem0[p])
  }

  lemma ReadMore(cmd: nat, done: seq<Option<nat>>, more: seq<Option<nat>>, mem0: seq<Byte>, buf0: seq<Byte>,
      buf1: seq<Byte>, buf: seq<Byte>)
    requires Reads(cmd) && Transferred(cmd, done, done, mem0, buf0, mem0, buf1)
    requires |buf| == |buf0| && |done| + |more| <= |buf| && forall i | 0 <= i < |done| :: buf[i] == buf1[i]
    requires forall i | 0 <= i < |more| && more[i].Some? :: more[i].value < |mem0|
    requires forall i | |done| <= i < |done| + |more| :: buf[i] == Fetch(mem0, more[i - |done|])
    ensures Transferred(cmd, done + more, done + more, mem0, buf0, mem0, buf)
  {
  }

  lemma InRun(done: seq<Option<nat>>, s: nat, n: nat, p: nat)
    requires s <= p < s + n
    ensures Some(p) in done + Run(s, n)
  {
    assert (done + Run(s, n))[|done| + (p - s)] == Some(p);
  }

  /** A write of some bytes: successful, or failed with anything in the pages it was to fill. */
  lemma WriteMore(cmd: nat, done: seq<Option<nat>>, s: nat, n: nat, mem0: seq<Byte>, buf: seq<Byte>,
      mem1: seq<Byte>, mem: seq<Byte>)
    requires !Reads(cmd) && Transferred(cmd, done, done, mem0, buf, mem1, buf)
    requires |mem| == |mem0| && |done| + n <= |buf| && s + n <= |mem|
    requires Behind(done, s)
    requires forall p | 0 <= p < |mem| && !(s <= p < s + n) :: mem[p] == mem1[p]
    ensures Transferred(cmd, done, done + Run(s, n), mem0, buf, mem, buf)
    ensures (forall p | s <= p < s + n :: mem[p] == buf[|done| + (p - s)]) ==>
              Transferred(cmd, done + Run(s, n), done + Run(s, n), mem0, buf, mem, buf)
  {
    forall p | s <= p < s + n
      ensures Some(p) in done + Run(s, n)
    {
      InRun(done, s, n, p);
    }
  }

  /** The rest of a bad block, made up. */
  method FillBlock(chip: Chip, buf: array<Byte>, at: nat, n: nat, ghost done: seq<Option<nat>>,
      ghost mem0: seq<Byte>, ghost buf0: seq<Byte>)
    requires at + n <= buf.Length && buf != chip.mem && at == |done|
    requires Transferred(READ_FILL, done, done, mem0, buf0, chip.mem[..], buf[..])
    modifies buf
    ensures Transferred(READ_FILL, done + Nothing(n), done + Nothing(n), mem0, buf0, chip.mem[..], buf[..])
  {
    ghost var buf1 := buf[..];
    var i := 0;
    while i < n
      invariant i <= n
      invariant forall k | 0 <= k < buf.Length :: buf[k] == if at <= k < at + i then 0xFF else buf1[k]
    {
      buf[at + i] := 0xFF;
      i := i + 1;
    }
    ReadMore(READ_FILL, done, Nothing(n), mem0, buf0, buf1, buf[..]);
  }

  /** One page operation of a transfer. */
  method Move(chip: Chip, cmd: nat, start: nat, n: nat, buf: array<Byte>, at: nat,
              ghost done: seq<Option<nat>>, ghost mem0: seq<Byte>, ghost buf0: seq<Byte>)
    returns (rc: int)
    requires chip.Valid() && chip.Proper(start, n) && buf != chip.mem && at == |done| && at + n <= buf.Length
    requires Transferred(cmd, done, done, mem0, buf0, chip.mem[..], buf[..])
    requires Behind(done, start)
    modifies chip.mem, buf
    ensures rc == chip.report(start)
    ensures Transferred(cmd, if rc == 0 then done + Run(start, n) else done, done + Run(start, n),
                        mem0, buf0, chip.mem[..], buf[..])
  {
    BlockFits(chip.layout, start, n);
    ghost var mem1, buf1 := chip.mem[..], buf[..];
    if Reads(cmd) {
      rc := chip.ReadEcc(start, n, buf, at);
      if rc == 0 {
        ReadMore(cmd, done, Run(start, n), mem0, buf0, buf1, buf[..]);
      }
    } else {
      rc := chip.WriteEcc(start, n, buf, at);
      WriteMore(cmd, done, start, n, mem0, buf0, mem1, chip.mem[..]);
    }
  }

  /** Where a transfer is: `done` is behind it, the route from `start` on is ahead. */
  ghost predicate Underway(c: Layout, cmd: nat, route: seq<Option<nat>>, done: seq<Option<nat>>, start: nat, len: nat)
    requires c.Valid()
  {
    && route == done + Route(c, cmd, start, len)
    && Behind(done, start)
    && (len > 0 ==> start % c.page == 0 && len % c.page == 0)
    && (Skips(cmd) ==> |Route(c, cmd, start, len)| == len)
  }

  /** The erase block has been checked and found good. */
  ghost predicate Checked(c: Layout, start: nat, len: nat, eblk: int)
    requires c.Valid()
  {
    len > 0 && BlockStart(c, start) == eblk ==> c.Good(start)
  }

  lemma GoodStep(c: Layout, cmd: nat, route: seq<Option<nat>>, done: seq<Option<nat>>, start: nat, len: nat)
    requires c.Valid() && Underway(c, cmd, route, done, start, len) && len > 0 && c.Good(start)
    ensures var n := Chunk(c, start, len);
            && start % c.page == 0 && n % c.page == 0 && Behind(done, start)
            && Underway(c, cmd, route, done + Run(start, n), start + n, len - n)
            && Checked(c, start + n, len - n, BlockStart(c, start))
  {
    var n := Chunk(c, start, len);
    ChunkAligned(c, start, len);
    RouteOverGood(c, cmd, start, len, n);
    if n < len {
      AfterChunk(c, start, len);
    }
    hide Route, Chunk, BlockStart, Layout.Good, Layout.Valid;
    assert done + (Run(start, n) + Route(c, cmd, start + n, len - n))
        == done + Run(start, n) + Route(c, cmd, start + n, len - n);
  }

  lemma FillStep(c: Layout, route: seq<Option<nat>>, done: seq<Option<nat>>, start: nat, len: nat)
    requires c.Valid() && Underway(c, READ_FILL, route, done, start, len) && len > 0 && !c.Good(start)
    ensures var n := Chunk(c, start, len);
            && Underway(c, READ_FILL, route, done + Nothing(n), start + n, len - n)
            && Checked(c, start + n, len - n, BlockStart(c, start))
  {
    var n := Chunk(c, start, len);
    ChunkAligned(c, start, len);
    RouteOverBad(c, start, len, n);
    if n < len {
      AfterChunk(c, start, len);
    }
    hide Route, Chunk, BlockStart, Layout.Good, Layout.Valid;
    assert done + (Nothing(n) + Route(c, READ_FILL, start + n, len - n))
        == done + Nothing(n) + Route(c, READ_FILL, start + n, len - n);
  }

  lemma SkipStep(c: Layout, cmd: nat, route: seq<Option<nat>>, done: seq<Option<nat>>, start: nat, len: nat)
    requires c.Valid() && Underway(c, cmd, route, done, start, len) && len > 0 && Skips(cmd) && !c.Good(start)
    ensures start < c.Total() && Underway(c, cmd, route, done, start + c.erase, len)
    ensures Checked(c, start + c.erase, len, BlockStart(c, start))
  {
    NextBlock(c, start);
    Aligned(start, c.erase, c.page);
  }

  /**
    The page operation that begins with byte `i` of a transfer fails. One begins with the first byte, and
    one with every erase block.
   */
  predicate Fails(c: Layout, report: nat -> int, r: seq<Option<nat>>, i: nat)
    requires c.erase > 0 && i < |r|
  {
    r[i].Some? && (i == 0 || r[i].value % c.erase == 0) && report(r[i].value) != 0
  }

  ghost predicate NoFailure(c: Layout, report: nat -> int, r: seq<Option<nat>>, n: nat)
    requires c.erase > 0 && n <= |r|
  {
    forall i | 0 <= i < n :: !Fails(c, report, r, i)
  }

  lemma ChunkDone(c: Layout, report: nat -> int, done: seq<Option<nat>>, start: nat, n: nat)
    requires c.erase > 0 && NoFailure(c, report, done, |done|) && report(start) == 0 && start % c.erase + n <= c.erase
    ensures NoFailure(c, report, done + Run(start, n), |done| + n)
  {
    var r := done + Run(start, n);
    forall i | 0 <= i < |r|
      ensures !Fails(c, report, r, i)
    {
      if |done| < i {
        var k := i - |done|;
        Divided(start + k, c.erase, start / c.erase, start % c.erase + k);
      } else if i < |done| {
        assert !Fails(c, report, done, i);
      }
    }
  }

  lemma FillDone(c: Layout, report: nat -> int, done: seq<Option<nat>>, n: nat)
    requires c.erase > 0 && NoFailure(c, report, done, |done|)
    ensures NoFailure(c, report, done + Nothing(n), |done| + n)
  {
    var r := done + Nothing(n);
    forall i | 0 <= i < |r|
      ensures !Fails(c, report, r, i)
    {
      assert i < |done| ==> !Fails(c, report, done, i);
    }
  }

  /** A new operation begins with the first byte or with a block. */
  predicate AtBlock(c: Layout, at: nat, start: nat, len: nat)
    requires c.erase > 0
  {
    at == 0 || len == 0 || start % c.erase == 0
  }

  lemma NextAtBlock(c: Layout, at: nat, start: nat, len: nat)
    requires c.erase > 0 && len > 0
    ensures AtBlock(c, at + Chunk(c, start, len), start + Chunk(c, start, len), len - Chunk(c, start, len))
    ensures AtBlock(c, at, start, len) ==> AtBlock(c, at, start + c.erase, len)
  {
    NextBlock(c, start);
    if Chunk(c, start, len) < len {
      var e, q := c.erase, start / c.erase;
      assert start + Chunk(c, start, len) == e * (q + 1);
      Divided(start + Chunk(c, start, len), e, q + 1, 0);
    }
  }

  lemma FailsHere(c: Layout, report: nat -> int, route: seq<Option<nat>>, done: seq<Option<nat>>, start: nat, n: nat,
      rest: seq<Option<nat>>, len: nat)
    requires c.erase > 0 && n > 0 && NoFailure(c, report, done, |done|) && route == done + Run(start, n) + rest
    requires report(start) != 0 && AtBlock(c, |done|, start, len) && len > 0
    ensures |done| < |route| && route[|done|] == Some(start)
    ensures Fails(c, report, route, |done|) && NoFailure(c, report, route, |done|)
    ensures route[..|done| + n] == done + Run(start, n) && route[..|done|] == done
  {
    forall i | 0 <= i < |done|
      ensures !Fails(c, report, route, i)
    {
      assert !Fails(c, report, done, i);
    }
  }

  lemma FirstIsUnique(c: Layout, report: nat -> int, route: seq<Option<nat>>, i: nat)
    requires c.erase > 0 && i < |route| && Fails(c, report, route, i) && NoFailure(c, report, route, i)
    ensures !NoFailure(c, report, route, |route|)
    ensures forall k | 0 <= k < |route| && Fails(c, report, route, k) && NoFailure(c, report, route, k) :: k == i
  {
  }

  /** When the transfer stops by itself, it has covered its route. */
  lemma Stopped(c: Layout, cmd: nat, route: seq<Option<nat>>, done: seq<Option<nat>>, start: nat, len: nat)
    requires c.Valid() && Underway(c, cmd, route, done, start, len)
    requires len == 0 || (!c.Good(start) && cmd != READ_FILL && !Skips(cmd))
    ensures route == done
  {
  }

  lemma SameGood(c: Layout, start: nat, len: nat, eblk: int)
    requires c.Valid() && Checked(c, start, len, eblk) && len > 0
    ensures BlockStart(c, start) >= 0 && (c.Good(BlockStart(c, start)) <==> c.Good(start))
    ensures eblk == BlockStart(c, start) ==> c.Good(start)
  {
    SameBlock(c, start);
  }

  /** How far the operations went that were begun: the one that fails may have changed its pages. */
  function Reached(c: Layout, report: nat -> int, route: seq<Option<nat>>, retlen: nat, len: nat): (n: nat)
    requires c.erase > 0 && retlen <= |route|
    ensures n <= |route|
  {
    if retlen < |route| && retlen < len && Fails(c, report, route, retlen) then
      var n := retlen + Chunk(c, route[retlen].value, len - retlen);
      if n < |route| then n else |route|
    else retlen
  }

  /**
    The transfer. It covers the route of the command up to the first place it cannot go to, where it
    returns 1, or up to the first page operation that fails, whose report it returns. What follows on the
    chip is not touched, except by that operation.
   */
  method Rw(chip: Chip, cmd: nat, start0: nat, len0: nat, buf: array<Byte>) returns (ret: int, retlen: nat)
    requires chip.Valid() && buf != chip.mem && len0 <= buf.Length
    requires start0 % chip.layout.page == 0 && len0 % chip.layout.page == 0
    requires Skips(cmd) ==> Enough(chip.layout, start0, len0)
    modifies chip.mem, buf
    ensures var route := Route(chip.layout, cmd, start0, len0);
            && retlen <= |route|
            && Transferred(cmd, route[..retlen], route[..Reached(chip.layout, chip.report, route, retlen, len0)],
                           old(chip.mem[..]), old(buf[..]), chip.mem[..], buf[..])
            && (NoFailure(chip.layout, chip.report, route, |route|) ==>
                  retlen == |route| && ret == if |route| == len0 then 0 else 1)
            && (forall i | 0 <= i < |route| && Fails(chip.layout, chip.report, route, i)
                                            && NoFailure(chip.layout, chip.report, route, i) ::
                  retlen == i && ret == chip.report(route[i].value))
  {
    hide Route, Transferred, Underway, Checked, Chunk, Skips, Layout.Good, Enough, Run, Nothing, Behind;
    hide NoFailure, Fails, AtBlock;
    ghost var mem0, buf0, c := chip.mem[..], buf[..], chip.layout;
    ghost var route, done := Route(c, cmd, start0, len0), [];
    Beginning(c, cmd, start0, len0, mem0, buf0);
    NothingFailed(c, chip.report, start0, len0);
    var start: nat, len: nat, at: nat, eblk, eraseSize := start0, len0, 0, -1, chip.layout.erase;
    while len > 0
      invariant Underway(c, cmd, route, done, start, len) && at == |done| && at + len == len0
      invariant Checked(c, start, len, eblk)
      invariant NoFailure(c, chip.report, done, |done|) && AtBlock(c, at, start, len)
      invariant Transferred(cmd, done, done, mem0, buf0, chip.mem[..], buf[..])
      decreases len, c.Total() - start
    {
      SameGood(c, start, len, eblk);
      NextAtBlock(c, at, start, len);
      var good := true;
      if start - start % eraseSize != eblk {
        eblk := start - start % eraseSize;
        good := !chip.CheckBlock(eblk);
      }
      var n := Chunk(chip.layout, start, len);
      if good {
        GoodStep(c, cmd, route, done, start, len);
        ret := Move(chip, cmd, start, n, buf, at, done, mem0, buf0);
        if ret != 0 {
          Failed(c, cmd, chip.report, route, done, start, n, len);
          return ret, at;
        }
        ChunkDone(c, chip.report, done, start, n);
        done := done + Run(start, n);
        start, len, at := start + n, len - n, at + n;
      } else if cmd == READ_FILL {
        FillStep(c, route, done, start, len);
        FillBlock(chip, buf, at, n, done, mem0, buf0);
        FillDone(c, chip.report, done, n);
        done := done + Nothing(n);
        start, len, at := start + n, len - n, at + n;
      } else if Skips(cmd) {
        SkipStep(c, cmd, route, done, start, len);
        start := start + eraseSize;
      } else {
        Stopped(c, cmd, route, done, start, len);
        Completed(c, chip.report, route, len0);
        return 1, at;
      }
    }
    Stopped(c, cmd, route, done, start, len);
    Completed(c, chip.report, route, len0);
    ret, retlen := 0, at;
  }

  lemma NothingFailed(c: Layout, report: nat -> int, start: nat, len: nat)
    requires c.erase > 0
    ensures NoFailure(c, report, [], 0) && AtBlock(c, 0, start, len)
  {
  }

  lemma Completed(c: Layout, report: nat -> int, route: seq<Option<nat>>, len: nat)
    requires c.erase > 0 && NoFailure(c, report, route, |route|)
    ensures route[..|route|] == route && Reached(c, report, route, |route|, len) == |route|
    ensures forall i | 0 <= i < |route| :: !Fails(c, report, route, i)
  {
  }

  lemma Failed(c: Layout, cmd: nat, report: nat -> int, route: seq<Option<nat>>, done: seq<Option<nat>>, start: nat,
               n: nat, len: nat)
    requires c.Valid() && len > 0 && n == Chunk(c, start, len) && report(start) != 0
    requires Underway(c, cmd, route, done + Run(start, n), start + n, len - n)
    requires NoFailure(c, report, done, |done|) && AtBlock(c, |done|, start, len)
    ensures |done| < |route| && route[..|done|] == done && route[|done|] == Some(start)
    ensures Fails(c, report, route, |done|) && NoFailure(c, report, route, |done|)
    ensures !NoFailure(c, report, route, |route|)
    ensures forall k | 0 <= k < |route| && Fails(c, report, route, k) && NoFailure(c, report, route, k) :: k == |done|
    ensures route[..Reached(c, report, route, |done|, |done| + len)] == done + Run(start, n)
  {
    hide Fails, NoFailure, Route;
    FailsHere(c, report, route, done, start, n, Route(c, cmd, start + n, len - n), len);
    FirstIsUnique(c, report, route, |done|);
  }

  lemma Beginning(c: Layout, cmd: nat, start: nat, len: nat, mem: seq<Byte>, buf: seq<Byte>)
    requires c.Valid() && start % c.page == 0 && len % c.page == 0 && len <= |buf|
    requires Skips(cmd) ==> Enough(c, start, len)
    ensures Underway(c, cmd, Route(c, cmd, start, len), [], start, len) && Checked(c, start, len, -1)
    ensures Transferred(cmd, [], [], mem, buf, mem, buf)
  {
    if Skips(cmd) {
      CompleteIffEnough(c, cmd, start, len);
    }
  }

  // ---------------------------------------------------------------------------------------------
  // What transfers mean together
  // ---------------------------------------------------------------------------------------------

  /** No transfer ever changes a bad block, whether it succeeds or not. */
  lemma BadBlocksStay(c: Layout, cmd: nat, s: nat, len: nat, done: seq<Option<nat>>, touched: seq<Option<nat>>,
                      mem0: seq<Byte>, buf0: seq<Byte>, mem: seq<Byte>, buf: seq<Byte>, p: nat)
    requires c.Valid() && |mem0| == c.Total() && p < |mem0| && !c.Good(p) && touched <= Route(c, cmd, s, len)
    requires Transferred(cmd, done, touched, mem0, buf0, mem, buf)
    ensures mem[p] == mem0[p]
  {
    RouteAscends(c, cmd, s, len);
  }

  /** A skipping read returns what a skipping write of the same place and length has written. */
  lemma ReadReturnsWritten(c: Layout, s: nat, len: nat, mem0: seq<Byte>, data: seq<Byte>, mem1: seq<Byte>,
                           buf1: seq<Byte>, mem2: seq<Byte>, buf2: seq<Byte>)
    requires c.Valid() && Enough(c, s, len) && len <= |data| && len <= |buf1|
    requires var r := Route(c, WRITE_SKIP, s, len); Transferred(WRITE_SKIP, r, r, mem0, data, mem1, data)
    requires var r := Route(c, READ_SKIP, s, len); Transferred(READ_SKIP, r, r, mem1, buf1, mem2, buf2)
    ensures buf2[..len] == data[..len] && mem2 == mem1
  {
    SkipRoutesAgree(c, s, len);
    CompleteIffEnough(c, READ_SKIP, s, len);
    var r := Route(c, READ_SKIP, s, len);
    forall i | 0 <= i < len
      ensures buf2[i] == data[i]
    {
      assert r[i].Some?;
    }
  }

  /** A byte read with 0xff for bad blocks: that of the chip, or 0xff in a bad block or behind the end. */
  ghost predicate FilledByte(c: Layout, mem: seq<Byte>, p: nat, x: Byte)
    requires c.Valid()
  {
    if c.Good(p) then p < |mem| && x == mem[p] else x == 0xFF
  }

  lemma FilledRead(c: Layout, s: nat, len: nat, mem: seq<Byte>, buf0: seq<Byte>, buf: seq<Byte>)
    requires c.Valid() && |mem| == c.Total()
    requires var r := Route(c, READ_FILL, s, len); Transferred(READ_FILL, r, r, mem, buf0, mem, buf)
    ensures len <= |buf|
    ensures forall i | 0 <= i < len :: FilledByte(c, mem, s + i, buf[i])
  {
    FillRoute(c, s, len);
    forall i | 0 <= i < len
      ensures FilledByte(c, mem, s + i, buf[i])
    {
      InDevice(c, s + i);
      assert Route(c, READ_FILL, s, len)[i] == if c.Good(s + i) then Some(s + i) else None;
    }
  }

}
