/**
  Reading and writing an I2C EEPROM in chunks.

  An EEPROM programs one page at a time: its address counter wraps around inside the page. Larger
  devices answer to several chip addresses, one for every block of memory. The driver cuts its
  transfers so that the device behaves like one array of bytes.
 */
module Eeprom {

  import opened Basics

  const SPACE := 0x1_0000_0000

  // ---------------------------------------------------------------------------------------------
  // Addresses
  // ---------------------------------------------------------------------------------------------

  /** The bits that are set in one of two numbers of `n` bits. */
  function Or(x: nat, y: nat, n: nat): nat {
    if n == 0 then 0 else 2 * Or(x / 2, y / 2, n - 1) + (if x % 2 == 1 || y % 2 == 1 then 1 else 0)
  }

  /** A number below a power of two that divides the other one has no bit in common with it. */
  lemma {:induction false} OrIsSum(x: nat, y: nat, k: nat, n: nat)
    requires k <= n && x < Power(k) && y % Power(k) == 0 && y < Power(n)
    ensures Or(x, y, n) == x + y
  {
    if n == 0 {
    } else {
      if k == 0 {
        assert y % 1 == 0;
        OrIsSum(0, y / 2, 0, n - 1) by {
          assert y / 2 % 1 == 0;
        }
      } else {
        HalfMultiple(y, Power(k - 1));
        OrIsSum(x / 2, y / 2, k - 1, n - 1);
      }
    }
  }

  lemma HalfMultiple(y: nat, p: nat)
    requires p > 0 && y % (2 * p) == 0
    ensures y % 2 == 0 && y / 2 % p == 0
  {
    var q := y / (2 * p);
    assert y == 2 * (p * q);
    assert y / 2 == p * q;
    Multiple(p, q);
  }

  lemma Multiple(p: nat, q: nat)
    requires p > 0
    ensures (p * q) % p == 0
  {
    Divided(p * q, p, q, 0);
  }

  /**
    A bus with EEPROMs: the bytes behind one chip address (256, or 65536 for devices with a second
    address byte), the page size, and the longest transfer.
   */
  datatype Layout = Layout(wide: bool, page: nat, rxtx: nat) {

    function Words(): (w: nat)
      ensures w > 0
    {
      if wide then 0x1_0000 else 0x100
    }

    ghost predicate Valid() {
      page > 0 && 256 % page == 0 && rxtx > 0
    }

    /** The chip address for an offset. */
    function Chip(dev: nat, offset: nat): nat {
      Or(offset / Words() % 256, dev, 8)
    }

    function Word(offset: nat): nat {
      offset % Words()
    }

    /** The place of an offset among all bytes on the bus. */
    function Cell(dev: nat, offset: nat): nat {
      Chip(dev, offset) * Words() + Word(offset)
    }

    /** The device answers to `Power(k)` chip addresses from `dev` on, and the range lies behind them. */
    ghost predicate Behind(dev: nat, k: nat, end: nat) {
      k <= 8 && dev < 256 && dev % Power(k) == 0 && end <= Power(k) * Words()
    }
  }

  /** Behind its chip addresses the device is one row of bytes. */
  lemma CellsAreLinear(l: Layout, dev: nat, k: nat, offset: nat)
    requires l.Behind(dev, k, offset + 1)
    ensures l.Cell(dev, offset) == dev * l.Words() + offset
  {
    hide Layout.Words, Layout.Chip, Layout.Behind;
    ChipIsSum(l, dev, k, offset);
    Distribute(offset / l.Words(), dev, l.Words(), offset % l.Words());
    Quotient(offset, l.Words());
  }

  lemma ChipIsSum(l: Layout, dev: nat, k: nat, offset: nat)
    requires l.Behind(dev, k, offset + 1)
    ensures l.Chip(dev, offset) == offset / l.Words() + dev
  {
    hide Or, Power, Layout.Words, Layout.Behind;
    BlockBelow(l, dev, k, offset);
    OrIsSum(offset / l.Words(), dev, k, 8);
  }

  lemma Quotient(x: nat, d: nat)
    requires d > 0
    ensures x == d * (x / d) + x % d
  {
  }

  lemma BlockBelow(l: Layout, dev: nat, k: nat, offset: nat)
    requires l.Behind(dev, k, offset + 1)
    ensures offset / l.Words() < Power(k) && k <= 8 && dev < 256 == Power(8) && dev % Power(k) == 0
    ensures offset / l.Words() % 256 == offset / l.Words()
  {
    QuotientBelow(offset, l.Words(), Power(k));
    PowersGrow(k, 8);
    assert Power(8) == 256;
  }

  lemma Distribute(x: nat, y: nat, w: nat, r: nat)
    ensures (x + y) * w + r == y * w + (w * x + r)
  {
  }

  lemma {:induction false} PowersGrow(k: nat, n: nat)
    requires k <= n
    ensures Power(k) <= Power(n)
  {
    if k == n {
    } else {
      PowersGrow(k, n - 1);
    }
  }

  // ---------------------------------------------------------------------------------------------
  // The device
  // ---------------------------------------------------------------------------------------------

  /** Bytes written from `at` on while the address counter wraps around in a window. */
  function WrapWrite(mem: seq<Byte>, base: nat, size: nat, at: nat, bs: seq<Byte>): (r: seq<Byte>)
    requires at < size && base + size <= |mem|
    ensures |r| == |mem|
    decreases |bs|
  {
    if bs == [] then mem
    else WrapWrite(mem[base + at := bs[0]], base, size, if at + 1 == size then 0 else at + 1, bs[1..])
  }

  function WrapRead(mem: seq<Byte>, base: nat, size: nat, at: nat, n: nat): (r: seq<Byte>)
    requires at < size && base + size <= |mem|
    ensures |r| == n
    decreases n
  {
    if n == 0 then []
    else [mem[base + at]] + WrapRead(mem, base, size, if at + 1 == size then 0 else at + 1, n - 1)
  }

  /** A write that ends with the window at the latest is linear. */
  lemma {:induction false} WriteInside(mem: seq<Byte>, base: nat, size: nat, at: nat, bs: seq<Byte>)
    requires at < size && base + size <= |mem| && at + |bs| <= size
    ensures forall p | 0 <= p < |mem| ::
              WrapWrite(mem, base, size, at, bs)[p] == if base + at <= p < base + at + |bs|
                  then bs[p - (base + at)] else mem[p]
    decreases |bs|
  {
    if |bs| == 1 {
      assert bs[1..] == [];
    } else if bs != [] {
      WriteInside(mem[base + at := bs[0]], base, size, at + 1, bs[1..]);
    }
  }

  lemma {:induction false} ReadInside(mem: seq<Byte>, base: nat, size: nat, at: nat, n: nat)
    requires at < size && base + size <= |mem| && at + n <= size
    ensures WrapRead(mem, base, size, at, n) == mem[base + at..base + at + n]
    decreases n
  {
    if n <= 1 {
    } else {
      ReadInside(mem, base, size, at + 1, n - 1);
    }
  }

  lemma WindowFits(l: Layout, chip: nat, word: nat, size: nat)
    requires chip < 256 && word < l.Words() && size > 0 && l.Words() % size == 0
    ensures chip * l.Words() + (word - word % size) + size <= 256 * l.Words()
  {
    var q, m := word / size, l.Words() / size;
    assert word == size * q + word % size && l.Words() == size * m;
    QuotientBelow(word, size, m);
    var rest := m - (q + 1);
    assert size * m == size * (q + 1) + size * rest;
    assert size * (q + 1) == size * q + size;
  }

  lemma PageDivides(l: Layout, size: nat)
    requires size > 0 && 256 % size == 0
    ensures l.Words() % size == 0
  {
    var q := 256 / size;
    assert 256 == size * q;
    if l.wide {
      assert l.Words() == size * (q * 256);
      Multiple(size, q * 256);
    }
  }

  class Bus {
    const layout: Layout
    const mem: array<Byte>
    /** Whether a transfer is acknowledged, by its number. */
    const ack: nat -> bool
    var transfers: nat

    ghost predicate Valid() {
      layout.Valid() && mem.Length == 256 * layout.Words()
    }

    constructor (layout: Layout, mem: array<Byte>, ack: nat -> bool)
      requires layout.Valid() && mem.Length == 256 * layout.Words()
      ensures Valid() && this.layout == layout && this.mem == mem && this.ack == ack
    {
      this.layout, this.mem, this.ack, transfers := layout, mem, ack, 0;
    }

    /** Where the page, or another window, that holds a word of a chip begins. */
    function Base(chip: nat, word: nat, size: nat): nat
      requires size > 0
    {
      chip * layout.Words() + (word - word % size)
    }

    /** A write to one chip: the counter wraps around inside the page. Without acknowledge nothing happens. */
    method I2cWrite(chip: nat, word: nat, data: array<Byte>, at: nat, len: nat) returns (rc: nat)
      requires Valid() && chip < 256 && word < layout.Words() && data != mem && at + len <= data.Length
               && len <= layout.rxtx
      modifies this`transfers, mem
      ensures transfers == old(transfers) + 1 && rc == if ack(old(transfers)) then 0 else 1
      ensures Base(chip, word, layout.page) + layout.page <= mem.Length
      ensures mem[..] == if rc == 0
                         then WrapWrite(old(mem[..]), Base(chip, word, layout.page), layout.page,
                             word % layout.page, data[at..at + len])
                         else old(mem[..])
    {
      PageDivides(layout, layout.page);
      WindowFits(layout, chip, word, layout.page);
      var ok := ack(transfers);
      transfers := transfers + 1;
      if !ok {
        return 1;
      }
      var base, size := Base(chip, word, layout.page), layout.page;
      var counter: nat, i := word % size, 0;
      while i < len
        modifies mem
        invariant i <= len && counter < size
        invariant WrapWrite(mem[..], base, size, counter, data[at + i..at + len])
                  == WrapWrite(old(mem[..]), base, size, word % size, data[at..at + len])
      {
        assert data[at + i..at + len][1..] == data[at + i + 1..at + len];
        ghost var before := mem[..];
        mem[base + counter] := data[at + i];
        assert mem[..] == before[base + counter := data[at + i]];
        counter := if counter + 1 == size then 0 else counter + 1;
        i := i + 1;
      }
      assert data[at + i..at + len] == [];
      rc := 0;
    }

    /** A sequential read from one chip: the counter wraps around inside the 256-byte block. */
    method I2cRead(chip: nat, word: nat, data: array<Byte>, at: nat, len: nat) returns (rc: nat)
      requires Valid() && chip < 256 && word < layout.Words() && data != mem && at + len <= data.Length
               && len <= layout.rxtx
      modifies this`transfers, data
      ensures transfers == old(transfers) + 1 && rc == if ack(old(transfers)) then 0 else 1
      ensures Base(chip, word, 256) + 256 <= mem.Length
      ensures data[..at] == old(data[..at])
      ensures rc == 0 ==> data[at..at + len] == WrapRead(mem[..], Base(chip, word, 256), 256, word % 256, len)
      ensures data[at + len..] == old(data[at + len..])
    {
      PageDivides(layout, 256);
      WindowFits(layout, chip, word, 256);
      var ok := ack(transfers);
      transfers := transfers + 1;
      if !ok {
        return 1;
      }
      ReadWindow(Base(chip, word, 256), word % 256, data, at, len);
      rc := 0;
    }

    /** Bytes read while the counter wraps around in a 256-byte block. */
    method ReadWindow(base: nat, start: nat, data: array<Byte>, at: nat, len: nat)
      requires base + 256 <= mem.Length && start < 256 && data != mem && at + len <= data.Length
      modifies data
      ensures data[..at] == old(data[..at]) && data[at + len..] == old(data[at + len..])
      ensures data[at..at + len] == WrapRead(mem[..], base, 256, start, len)
    {
      var counter: nat, i := start, 0;
      ghost var all := WrapRead(mem[..], base, 256, start, len);
      while i < len
        invariant i <= len && counter < 256
        invariant forall k | 0 <= k < data.Length && !(at <= k < at + len) :: data[k] == old(data[k])
        invariant forall k | at <= k < at + i :: data[k] == all[k - at]
        invariant all[i..] == WrapRead(mem[..], base, 256, counter, len - i)
      {
        data[at + i] := mem[base + counter];
        assert all[i..][1..] == all[i + 1..];
        counter := if counter + 1 == 256 then 0 else counter + 1;
        i := i + 1;
      }
    }
  }

  // ---------------------------------------------------------------------------------------------
  // The driver
  // ---------------------------------------------------------------------------------------------

  /** All transfers of a call were acknowledged. */
  ghost predicate Acknowledged(ack: nat -> bool, first: nat, end: nat) {
    forall t | first <= t < end :: ack(t)
  }

  /** The length of the next transfer: up to the end of the window, and not more than the bus takes. */
  function ChunkLength(l: Layout, offset: nat, rest: nat, size: nat): (n: nat)
    requires l.rxtx > 0 && size > 0 && 256 % size == 0
    ensures n <= rest && n <= l.rxtx && offset % 256 % size + n <= size && (rest > 0 ==> n > 0)
  {
    var room := size - offset % 256 % size;
    var max := if room > l.rxtx then l.rxtx else room;
    if rest > max then max else rest
  }

  /** It is the longest one that the end of the range, the bus and the window allow. */
  lemma ChunkIsLongest(l: Layout, offset: nat, rest: nat, size: nat, n: nat)
    requires l.rxtx > 0 && size > 0 && 256 % size == 0
    ensures n <= rest && n <= l.rxtx && offset % 256 % size + n <= size <==> n <= ChunkLength(l, offset, rest, size)
  {
  }

  /** The number of transfers for a range. */
  function Transfers(l: Layout, offset: nat, end: nat, size: nat): nat
    requires l.rxtx > 0 && size > 0 && 256 % size == 0
    decreases end - offset
  {
    if end <= offset then 0
    else 1 + Transfers(l, offset + ChunkLength(l, offset, end - offset, size), end, size)
  }

  /** The number of the transfer that a byte of the range belongs to. */
  function TransferOf(l: Layout, offset: nat, end: nat, size: nat, x: nat): nat
    requires l.rxtx > 0 && size > 0 && 256 % size == 0
    decreases end - offset
  {
    if end <= offset || x < offset + ChunkLength(l, offset, end - offset, size) then 0
    else 1 + TransferOf(l, offset + ChunkLength(l, offset, end - offset, size), end, size, x)
  }

  lemma {:induction false} TransferExists(l: Layout, offset: nat, end: nat, size: nat, x: nat)
    requires l.rxtx > 0 && size > 0 && 256 % size == 0 && offset <= x < end
    ensures TransferOf(l, offset, end, size, x) < Transfers(l, offset, end, size)
    decreases end - offset
  {
    hide ChunkLength;
    if x < offset + ChunkLength(l, offset, end - offset, size) {
    } else {
      TransferExists(l, offset + ChunkLength(l, offset, end - offset, size), end, size, x);
    }
  }

  /** Which bytes of a range are transferred: those whose transfer is acknowledged. */
  function Acked(l: Layout, ack: nat -> bool, first: nat, offset: nat, end: nat, size: nat): nat -> bool
    requires l.rxtx > 0 && size > 0 && 256 % size == 0
  {
    (i: nat) => ack(first + TransferOf(l, offset, end, size, offset + i))
  }

  /** Some transfers of a range are done: `offset` is where the next one begins. */
  ghost predicate Ongoing(l: Layout, offset0: nat, offset: nat, end: nat, size: nat, count: nat)
    requires l.rxtx > 0 && size > 0 && 256 % size == 0
  {
    && Transfers(l, offset0, end, size) == count + Transfers(l, offset, end, size)
    && forall x | offset <= x < end ::
         TransferOf(l, offset0, end, size, x) == count + TransferOf(l, offset, end, size, x)
  }

  lemma NextTransfer(l: Layout, offset0: nat, offset: nat, end: nat, size: nat, count: nat)
    requires l.rxtx > 0 && size > 0 && 256 % size == 0 && offset < end && Ongoing(l, offset0, offset, end, size, count)
    ensures var n := ChunkLength(l, offset, end - offset, size);
            && Ongoing(l, offset0, offset + n, end, size, count + 1)
            && forall x | offset <= x < offset + n :: TransferOf(l, offset0, end, size, x) == count
  {
    hide ChunkLength;
    var n := ChunkLength(l, offset, end - offset, size);
    forall x | offset + n <= x < end
      ensures TransferOf(l, offset0, end, size, x) == count + 1 + TransferOf(l, offset + n, end, size, x)
    {
      assert TransferOf(l, offset, end, size, x) == 1 + TransferOf(l, offset + n, end, size, x);
    }
  }

  lemma AllAcked(l: Layout, ack: nat -> bool, first: nat, offset: nat, end: nat, size: nat)
    requires l.rxtx > 0 && size > 0 && 256 % size == 0 && offset <= end
    requires Acknowledged(ack, first, first + Transfers(l, offset, end, size))
    ensures forall i | 0 <= i < end - offset :: Acked(l, ack, first, offset, end, size)(i)
  {
    forall i | 0 <= i < end - offset
      ensures Acked(l, ack, first, offset, end, size)(i)
    {
      TransferExists(l, offset, end, size, offset + i);
    }
  }

  /** A chunk is one stretch of a window, in the place that belongs to its offset. */
  lemma ChunkPlace(l: Layout, dev: nat, k: nat, offset: nat, size: nat)
    requires l.Valid() && l.Behind(dev, k, offset + 1) && size > 0 && 256 % size == 0
    ensures l.Chip(dev, offset) < 256 && l.Word(offset) < l.Words()
    ensures l.Chip(dev, offset) * l.Words() + (l.Word(offset) - l.Word(offset) % size) + l.Word(offset) % size
            == dev * l.Words() + offset
    ensures l.Word(offset) % size == offset % 256 % size
  {
    CellsAreLinear(l, dev, k, offset);
    OrBelow(offset / l.Words() % 256, dev, 8);
    assert Power(8) == 256;
    PageDivides(l, size);
    Remainder(offset, l.Words(), size);
    Remainder(offset, 256, size);
  }

  lemma BehindLess(l: Layout, dev: nat, k: nat, end: nat, end': nat)
    requires l.Behind(dev, k, end') && end <= end'
    ensures l.Behind(dev, k, end)
  {
  }

  lemma {:induction false} OrBelow(x: nat, y: nat, n: nat)
    ensures Or(x, y, n) < Power(n)
  {
    if n == 0 {
    } else {
      OrBelow(x / 2, y / 2, n - 1);
    }
  }

  lemma Regroup(d: nat, r: nat, q: nat, s: nat)
    ensures (d * r) * q + d * s == d * (r * q + s)
  {
  }

  lemma RemainderIs(x: nat, d: nat, r: nat, q: nat, s: nat, z: nat)
    requires d > 0 && z < d && x == (d * r) * q + (d * s + z)
    ensures x % d == z
  {
    Regroup(d, r, q, s);
    Divided(x, d, r * q + s, z);
  }

  lemma Remainder(x: nat, m: nat, d: nat)
    requires m > 0 && d > 0 && m % d == 0
    ensures x % m % d == x % d
  {
    var q, r := x / m, m / d;
    var s, z := x % m / d, x % m % d;
    assert m == d * r && x % m == d * s + z;
    assert x == m * q + (d * s + z);
    RemainderIs(x, d, r, q, s, z);
  }

  /** The bytes have been written from `start` on, those for which `wrote` holds and no others. */
  ghost predicate Written(mem0: seq<Byte>, mem: seq<Byte>, start: nat, bs: seq<Byte>, wrote: nat -> bool) {
    && |mem| == |mem0| && (bs != [] ==> start + |bs| <= |mem|)
    && forall p | 0 <= p < |mem| :: WrittenAt(mem0, mem, start, bs, wrote, p)
  }

  ghost predicate WrittenAt(mem0: seq<Byte>, mem: seq<Byte>, start: nat, bs: seq<Byte>, wrote: nat -> bool, p: nat)
    requires p < |mem| == |mem0|
  {
    mem[p] == if start <= p < start + |bs| && wrote(p - start) then bs[p - start] else mem0[p]
  }

  lemma NothingWritten(mem: seq<Byte>, start: nat, wrote: nat -> bool)
    ensures Written(mem, mem, start, [], wrote)
  {
  }

  /** One more chunk, written or not acknowledged. */
  lemma WrittenMore(mem0: seq<Byte>, mem1: seq<Byte>, start: nat, done: seq<Byte>, more: seq<Byte>,
                    wrote: nat -> bool, base: nat, size: nat, at: nat)
    requires Written(mem0, mem1, start, done, wrote) && at < size && base + size <= |mem1| && at + |more| <= size
    requires start + |done| == base + at
    ensures (forall i | |done| <= i < |done| + |more| :: wrote(i)) ==>
              Written(mem0, WrapWrite(mem1, base, size, at, more), start, done + more, wrote)
    ensures (forall i | |done| <= i < |done| + |more| :: !wrote(i)) ==>
              Written(mem0, mem1, start, done + more, wrote)
  {
    WriteInside(mem1, base, size, at, more);
    var mem := WrapWrite(mem1, base, size, at, more);
    forall p | 0 <= p < |mem|
      ensures (forall i | |done| <= i < |done| + |more| :: wrote(i)) ==>
                WrittenAt(mem0, mem, start, done + more, wrote, p)
      ensures (forall i | |done| <= i < |done| + |more| :: !wrote(i)) ==>
                WrittenAt(mem0, mem1, start, done + more, wrote, p)
    {
      assert WrittenAt(mem0, mem1, start, done, wrote, p);
    }
  }

  lemma OneMoreTransfer(ack: nat -> bool, first: nat, end: nat)
    requires first <= end
    ensures Acknowledged(ack, first, end + 1) <==> Acknowledged(ack, first, end) && ack(end)
  {
  }

  /** One round of the write loop; `wrote` says of the bytes of its chunk whether it is acknowledged. */
  method WriteChunk(bus: Bus, dev: nat, offset: nat, end: nat, buffer: array<Byte>, at: nat, rcode0: nat,
                    ghost k: nat, ghost start: nat, ghost mem0: seq<Byte>, ghost wrote: nat -> bool)
    returns (len: nat, rcode: nat)
    requires bus.Valid() && buffer != bus.mem && offset < end && bus.layout.Behind(dev, k, end)
    requires at + (end - offset) <= buffer.Length && start + at == dev * bus.layout.Words() + offset
    requires Written(mem0, bus.mem[..], start, buffer[..at], wrote)
    requires forall i | at <= i < at + ChunkLength(bus.layout, offset, end - offset, bus.layout.page) ::
               wrote(i) == bus.ack(bus.transfers)
    modifies bus`transfers, bus.mem
    ensures len == ChunkLength(bus.layout, offset, end - offset, bus.layout.page)
    ensures bus.transfers == old(bus.transfers) + 1
    ensures rcode == if bus.ack(old(bus.transfers)) then rcode0 else 1
    ensures Written(mem0, bus.mem[..], start, buffer[..at + len], wrote)
  {
    hide Written, WrapWrite, ChunkLength, Layout.Chip, Layout.Word, Layout.Words, Layout.Behind;
    ghost var l := bus.layout;
    len := ChunkLength(bus.layout, offset, end - offset, bus.layout.page);
    BehindLess(l, dev, k, offset + 1, end);
    ChunkPlace(l, dev, k, offset, l.page);
    var chip, word := bus.layout.Chip(dev, offset), bus.layout.Word(offset);
    ghost var mem1, more := bus.mem[..], buffer[at..at + len];
    var rc := bus.I2cWrite(chip, word, buffer, at, len);
    WrittenMore(mem0, mem1, start, buffer[..at], more, wrote, bus.Base(chip, word, l.page), l.page, word % l.page);
    assert buffer[..at] + more == buffer[..at + len];
    rcode := if rc != 0 then 1 else rcode0;
  }

  /**
    The write. Without a wrap-around of the end of the range, exactly the bytes of the chunks that were
    acknowledged are in their cells, and any other chunk is reported; all are tried, each with one transfer.
   */
  method Write(bus: Bus, dev: nat, offset0: nat, buffer: array<Byte>, cnt: nat, ghost k: nat) returns (rcode: nat)
    requires bus.Valid() && buffer != bus.mem && offset0 < SPACE && cnt < SPACE && cnt <= buffer.Length
    requires offset0 + cnt < SPACE ==> bus.layout.Behind(dev, k, offset0 + cnt)
    modifies bus`transfers, bus.mem
    ensures offset0 + cnt >= SPACE ==>
              rcode == 0 && bus.mem[..] == old(bus.mem[..]) && bus.transfers == old(bus.transfers)
    ensures rcode == if Acknowledged(bus.ack, old(bus.transfers), bus.transfers) then 0 else 1
    ensures offset0 + cnt < SPACE ==>
              bus.transfers == old(bus.transfers) + Transfers(bus.layout, offset0, offset0 + cnt, bus.layout.page)
    ensures offset0 + cnt < SPACE ==>
              Written(old(bus.mem[..]), bus.mem[..], dev * bus.layout.Words() + offset0, buffer[..cnt],
                      Acked(bus.layout, bus.ack, old(bus.transfers), offset0, offset0 + cnt, bus.layout.page))
  {
    hide Written, Layout.Words, Layout.Behind, ChunkLength, Ongoing, TransferOf, Transfers;
    ghost var start, mem0, l, first := dev * bus.layout.Words() + offset0, bus.mem[..], bus.layout, bus.transfers;
    var end, offset, at := (offset0 + cnt) % SPACE, offset0, 0;
    ghost var wrote := Acked(l, bus.ack, first, offset0, offset0 + cnt, l.page);
    rcode := 0;
    NothingWritten(mem0, start, wrote);
    NothingOngoing(l, offset0, end, l.page);
    while offset < end
      invariant offset == offset0 + at && (offset0 + cnt < SPACE ==> offset <= end)
      invariant offset0 + cnt >= SPACE ==> bus.transfers == first && rcode == 0 && bus.mem[..] == mem0
      invariant at <= cnt && first <= bus.transfers
      invariant rcode == if Acknowledged(bus.ack, first, bus.transfers) then 0 else 1
      invariant offset0 + cnt < SPACE ==> Ongoing(l, offset0, offset, end, l.page, bus.transfers - first)
      invariant Written(mem0, bus.mem[..], start, buffer[..at], wrote)
    {
      OneMoreTransfer(bus.ack, first, bus.transfers);
      NextTransfer(l, offset0, offset, end, l.page, bus.transfers - first);
      var len;
      len, rcode := WriteChunk(bus, dev, offset, end, buffer, at, rcode, k, start, mem0, wrote);
      offset, at := offset + len, at + len;
    }
    NothingLeft(l, offset0, offset, end, l.page, bus.transfers - first);
  }

  lemma NothingOngoing(l: Layout, offset: nat, end: nat, size: nat)
    requires l.rxtx > 0 && size > 0 && 256 % size == 0
    ensures Ongoing(l, offset, offset, end, size, 0)
  {
  }

  lemma NothingLeft(l: Layout, offset0: nat, offset: nat, end: nat, size: nat, count: nat)
    requires l.rxtx > 0 && size > 0 && 256 % size == 0 && end <= offset
    ensures Ongoing(l, offset0, offset, end, size, count) ==> Transfers(l, offset0, end, size) == count
  {
  }

  /** The bytes have been read from `start` on, at least those for which `got` holds. */
  ghost predicate Fetched(mem: seq<Byte>, start: nat, bs: seq<Byte>, got: nat -> bool) {
    forall i | 0 <= i < |bs| && got(i) :: start + i < |mem| && bs[i] == mem[start + i]
  }

  lemma FetchedMore(mem: seq<Byte>, start: nat, done: seq<Byte>, got: nat -> bool, base: nat, at: nat, n: nat)
    requires Fetched(mem, start, done, got) && at < 256 && base + 256 <= |mem| && at + n <= 256
             && start + |done| == base + at
    ensures Fetched(mem, start, done + WrapRead(mem, base, 256, at, n), got)
  {
    ReadInside(mem, base, 256, at, n);
  }

  lemma FetchFailed(mem: seq<Byte>, start: nat, done: seq<Byte>, bs: seq<Byte>, got: nat -> bool)
    requires Fetched(mem, start, done, got) && done <= bs && forall i | |done| <= i < |bs| :: !got(i)
    ensures Fetched(mem, start, bs, got)
  {
  }

  /** One round of the read loop; nothing behind the range is touched. */
  method ReadChunk(bus: Bus, dev: nat, offset: nat, end: nat, buffer: array<Byte>, at: nat, rcode0: nat,
                   ghost k: nat, ghost start: nat, ghost cnt: nat, ghost got: nat -> bool)
    returns (len: nat, rcode: nat)
    requires bus.Valid() && buffer != bus.mem && offset < end && bus.layout.Behind(dev, k, end)
    requires at + (end - offset) == cnt <= buffer.Length && start + at == dev * bus.layout.Words() + offset
    requires Fetched(bus.mem[..], start, buffer[..at], got)
    requires forall i | at <= i < at + ChunkLength(bus.layout, offset, end - offset, 256) ::
               got(i) == bus.ack(bus.transfers)
    modifies bus`transfers, buffer
    ensures len == ChunkLength(bus.layout, offset, end - offset, 256) && bus.transfers == old(bus.transfers) + 1
    ensures rcode == if bus.ack(old(bus.transfers)) then rcode0 else 1
    ensures Fetched(bus.mem[..], start, buffer[..at + len], got)
    ensures buffer[cnt..] == old(buffer[cnt..])
  {
    hide Fetched, WrapRead, ChunkLength, Layout.Chip, Layout.Word, Layout.Words, Layout.Behind;
    ghost var l, mem := bus.layout, bus.mem[..];
    len := ChunkLength(bus.layout, offset, end - offset, 256);
    BehindLess(l, dev, k, offset + 1, end);
    ChunkPlace(l, dev, k, offset, 256);
    var chip, word := bus.layout.Chip(dev, offset), bus.layout.Word(offset);
    ghost var done, tail := buffer[..at], buffer[at + len..];
    var rc := bus.I2cRead(chip, word, buffer, at, len);
    assert buffer[..at + len] == done + buffer[at..at + len];
    if rc == 0 {
      FetchedMore(mem, start, done, got, bus.Base(chip, word, 256), word % 256, len);
    } else {
      FetchFailed(mem, start, done, buffer[..at + len], got);
    }
    assert buffer[cnt..] == tail[cnt - (at + len)..];
    rcode := if rc != 0 then 1 else rcode0;
  }

  /** The read: the buffer holds the cells of all chunks that were acknowledged; any other is reported. */
  method Read(bus: Bus, dev: nat, offset0: nat, buffer: array<Byte>, cnt: nat, ghost k: nat) returns (rcode: nat)
    requires bus.Valid() && buffer != bus.mem && offset0 < SPACE && cnt < SPACE && cnt <= buffer.Length
    requires offset0 + cnt < SPACE ==> bus.layout.Behind(dev, k, offset0 + cnt)
    modifies bus`transfers, buffer
    ensures offset0 + cnt >= SPACE ==>
              rcode == 0 && buffer[..] == old(buffer[..]) && bus.transfers == old(bus.transfers)
    ensures rcode == if Acknowledged(bus.ack, old(bus.transfers), bus.transfers) then 0 else 1
    ensures offset0 + cnt < SPACE ==>
              bus.transfers == old(bus.transfers) + Transfers(bus.layout, offset0, offset0 + cnt, 256)
    ensures offset0 + cnt < SPACE ==>
              Fetched(bus.mem[..], dev * bus.layout.Words() + offset0, buffer[..cnt],
                      Acked(bus.layout, bus.ack, old(bus.transfers), offset0, offset0 + cnt, 256))
    ensures buffer[cnt..] == old(buffer[cnt..])
  {
    hide Fetched, Layout.Words, Layout.Behind, ChunkLength, Ongoing, TransferOf, Transfers;
    ghost var start, mem, l, first := dev * bus.layout.Words() + offset0, bus.mem[..], bus.layout, bus.transfers;
    var end, offset, at := (offset0 + cnt) % SPACE, offset0, 0;
    ghost var got := Acked(l, bus.ack, first, offset0, offset0 + cnt, 256);
    rcode := 0;
    NothingFetched(mem, start, got);
    NothingOngoing(l, offset0, end, 256);
    while offset < end
      invariant offset == offset0 + at && (offset0 + cnt < SPACE ==> offset <= end)
      invariant offset0 + cnt >= SPACE ==> bus.transfers == first && rcode == 0 && buffer[..] == old(buffer[..])
      invariant at <= cnt && first <= bus.transfers
      invariant rcode == if Acknowledged(bus.ack, first, bus.transfers) then 0 else 1
      invariant offset0 + cnt < SPACE ==> Ongoing(l, offset0, offset, end, 256, bus.transfers - first)
      invariant Fetched(mem, start, buffer[..at], got)
      invariant buffer[cnt..] == old(buffer[cnt..])
    {
      OneMoreTransfer(bus.ack, first, bus.transfers);
      NextTransfer(l, offset0, offset, end, 256, bus.transfers - first);
      var len;
      len, rcode := ReadChunk(bus, dev, offset, end, buffer, at, rcode, k, start, cnt, got);
      offset, at := offset + len, at + len;
    }
    NothingLeft(l, offset0, offset, end, 256, bus.transfers - first);
  }

  lemma NothingFetched(mem: seq<Byte>, start: nat, got: nat -> bool)
    ensures Fetched(mem, start, [], got)
  {
  }

  /** What a write that was acknowledged throughout has written is what such a read of the same range returns. */
  lemma ReadReturnsWritten(l: Layout, ack: nat -> bool, t: nat, ack': nat -> bool, t': nat, offset: nat,
                           mem0: seq<Byte>, mem: seq<Byte>, start: nat, data: seq<Byte>, bs: seq<Byte>)
    requires l.Valid() && |bs| == |data|
    requires var end := offset + |data|;
             && Acknowledged(ack, t, t + Transfers(l, offset, end, l.page))
             && Written(mem0, mem, start, data, Acked(l, ack, t, offset, end, l.page))
             && Acknowledged(ack', t', t' + Transfers(l, offset, end, 256))
             && Fetched(mem, start, bs, Acked(l, ack', t', offset, end, 256))
    ensures bs == data
  {
    hide Acked, Acknowledged, Transfers;
    var end := offset + |data|;
    AllAcked(l, ack, t, offset, end, l.page);
    AllAcked(l, ack', t', offset, end, 256);
    var wrote := Acked(l, ack, t, offset, end, l.page);
    forall i | 0 <= i < |bs|
      ensures bs[i] == data[i]
    {
      assert WrittenAt(mem0, mem, start, data, wrote, start + i);
    }
  }

}
