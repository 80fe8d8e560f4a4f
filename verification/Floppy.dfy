/**
  Reading blocks from a floppy disk.

  A call reads its blocks in chunks that end at the end of a track side. A chunk whose transfer breaks
  off is read again; after five broken transfers the drive is recalibrated, and after five rounds of
  this the call gives up.
 */
module Floppy {

  import opened Basics

  const RW_RETRIES := 3
  const CAL_RETRIES := 3

  /** Heads, sectors per track side, and bytes per sector. */
  datatype Geometry = Geometry(heads: nat, sects: nat, size: nat) {

    /** What fits into the bytes of a command: two sides, at most 255 sectors. */
    ghost predicate Valid() {
      1 <= heads <= 2 && 1 <= sects <= 255 && size > 0
    }

    function Track(b: nat): nat
      requires heads > 0 && sects > 0
    {
      b / (sects * heads)
    }

    function Head(b: nat): nat
      requires heads > 0 && sects > 0
    {
      b % (sects * heads) / sects
    }

    /** Sectors are counted from one. */
    function Sector(b: nat): nat
      requires heads > 0 && sects > 0
    {
      b % (sects * heads) % sects + 1
    }

    function Number(t: nat, h: nat, s: nat): int {
      (t * heads + h) * sects + s - 1
    }

    /** The number of bytes of some blocks. */
    function Bytes(n: nat): nat {
      n * size
    }

    /** The first block of the tracks that a command can no longer name. */
    function Limit(): nat {
      256 * (sects * heads)
    }
  }

  // ---------------------------------------------------------------------------------------------
  // Tracks, heads and sectors
  // ---------------------------------------------------------------------------------------------

  /** A position on the disk and a block number determine each other. */
  lemma NumberingIsBijective(g: Geometry, b: nat, t: nat, h: nat, s: nat)
    requires g.Valid()
    ensures g.Head(b) < g.heads && 1 <= g.Sector(b) <= g.sects
    ensures h < g.heads && 1 <= s <= g.sects ==>
              (g.Number(t, h, s) == b <==> g.Track(b) == t && g.Head(b) == h && g.Sector(b) == s)
  {
    var p := g.sects * g.heads;
    var r := b % p;
    assert r == g.sects * (r / g.sects) + r % g.sects;
    HeadInRange(g, r);
    assert b == p * (b / p) + r;
    if h < g.heads && 1 <= s <= g.sects {
      NumberUnfolds(g, t, h, s);
      if g.Number(t, h, s) == b {
        Fits(g, h, s);
        Divided(b, p, t, g.sects * h + s - 1);
        Divided(g.sects * h + s - 1, g.sects, h, s - 1);
      }
    }
  }

  lemma HeadInRange(g: Geometry, r: nat)
    requires g.Valid() && r < g.heads * g.sects
    ensures r / g.sects < g.heads
  {
    QuotientBelow(r, g.sects, g.heads);
  }

  lemma NumberUnfolds(g: Geometry, t: nat, h: nat, s: nat)
    ensures g.Number(t, h, s) == (g.sects * g.heads) * t + (g.sects * h + s - 1)
  {
  }

  lemma Fits(g: Geometry, h: nat, s: nat)
    requires h < g.heads && 1 <= s <= g.sects
    ensures 0 <= g.sects * h + s - 1 < g.sects * g.heads
  {
    Monotone(g.sects, h + 1, g.heads);
    assert g.sects * (h + 1) == g.sects * h + g.sects;
  }

  /** Blocks up to the end of a track side are on the same side, sector after sector. */
  lemma SameSide(g: Geometry, b: nat, k: nat)
    requires g.Valid() && b % g.sects + k < g.sects
    ensures g.Track(b + k) == g.Track(b) && g.Head(b + k) == g.Head(b) && g.Sector(b + k) == g.Sector(b) + k
    ensures g.Sector(b) == b % g.sects + 1
  {
    var t, h, s := g.Track(b), g.Head(b), g.Sector(b);
    NumberingIsBijective(g, b, t, h, s);
    NumberUnfolds(g, t, h, s);
    assert b == g.sects * (t * g.heads + h) + (s - 1);
    Divided(b, g.sects, t * g.heads + h, s - 1);
    NumberingIsBijective(g, b + k, t, h, s + k);
  }

  lemma TrackBelow(g: Geometry, b: nat)
    requires g.Valid() && b < g.Limit()
    ensures g.Track(b) < 256
  {
    var p := g.sects * g.heads;
    QuotientBelow(b, p, 256);
  }

  // ---------------------------------------------------------------------------------------------
  // The disk and the drive
  // ---------------------------------------------------------------------------------------------

  /** What is on the disk, by track, head and sector. */
  type Disk = (nat, nat, nat) -> seq<Byte>

  ghost predicate Formatted(g: Geometry, disk: Disk) {
    forall t, h, s :: |disk(t, h, s)| == g.size
  }

  /** The contents of consecutive sectors of one track side. */
  function Side(g: Geometry, disk: Disk, t: nat, h: nat, s: nat, n: nat): seq<Byte> {
    if n == 0 then [] else Side(g, disk, t, h, s, n - 1) + disk(t, h, s + n - 1)
  }

  /** The contents of consecutive blocks. */
  function Image(g: Geometry, disk: Disk, b: nat, n: nat): seq<Byte>
    requires g.Valid()
  {
    if n == 0 then []
    else Image(g, disk, b, n - 1) + disk(g.Track(b + n - 1), g.Head(b + n - 1), g.Sector(b + n - 1))
  }

  lemma {:induction false} ImageSplits(g: Geometry, disk: Disk, b: nat, m: nat, n: nat)
    requires g.Valid()
    ensures Image(g, disk, b, m + n) == Image(g, disk, b, m) + Image(g, disk, b + m, n)
  {
    if n == 0 {
    } else {
      ImageSplits(g, disk, b, m, n - 1);
      var x := b + m + n - 1;
      var last := disk(g.Track(x), g.Head(x), g.Sector(x));
      assert Image(g, disk, b, m) + (Image(g, disk, b + m, n - 1) + last)
          == Image(g, disk, b, m) + Image(g, disk, b + m, n - 1) + last;
    }
  }

  /** Blocks that do not go beyond the end of a track side are read as sectors of that side. */
  lemma {:induction false} SideIsImage(g: Geometry, disk: Disk, b: nat, n: nat)
    requires g.Valid() && b % g.sects + n <= g.sects
    ensures Side(g, disk, g.Track(b), g.Head(b), g.Sector(b), n) == Image(g, disk, b, n)
  {
    hide Geometry.Track, Geometry.Head, Geometry.Sector;
    if n == 0 {
    } else {
      SideIsImage(g, disk, b, n - 1);
      SameSide(g, b, n - 1);
    }
  }

  /** What a command does: it is not accepted, it works, or it breaks off after some bytes. */
  datatype Outcome = Refused | Works | Breaks(noise: seq<Byte>)

  /**
    The drive, with everything it is going to do: the outcomes of the READ commands and whether the
    positioning commands succeed, by the number of the command.
   */
  class Drive {
    const geo: Geometry
    const disk: Disk
    const transfers: nat -> Outcome
    const moves: nat -> bool
    /** Counters: transfers, positioning commands, broken transfers, and other failures. */
    var readCount: nat
    var moveCount: nat
    var errors: nat
    var refusals: nat
    /** Where the head is, if that is known. */
    var track: int

    ghost predicate Valid() {
      geo.Valid() && Formatted(geo, disk)
    }

    constructor (geo: Geometry, disk: Disk, transfers: nat -> Outcome, moves: nat -> bool)
      requires geo.Valid() && Formatted(geo, disk)
      ensures Valid() && this.geo == geo && this.disk == disk && this.transfers == transfers && this.moves == moves
      ensures readCount == 0 && moveCount == 0 && errors == 0 && refusals == 0
    {
      this.geo, this.disk, this.transfers, this.moves := geo, disk, transfers, moves;
      readCount, moveCount, errors, refusals, track := 0, 0, 0, 0, -1;
    }

    /** SEEK, with its interrupt and status. */
    method Seek(t: nat) returns (ok: bool)
      modifies this`moveCount, this`track, this`refusals
      ensures ok ==> track == t && refusals == old(refusals)
      ensures !ok ==> refusals == old(refusals) + 1
      ensures moveCount == old(moveCount) + 1
    {
      ok := moves(moveCount);
      moveCount := moveCount + 1;
      track := if ok then t else -1;
      refusals := refusals + if ok then 0 else 1;
    }

    /** RECALIBRATE moves the head to track zero. */
    method Recalibrate() returns (ok: bool)
      modifies this`moveCount, this`track, this`refusals
      ensures ok ==> track == 0 && refusals == old(refusals)
      ensures !ok ==> refusals == old(refusals) + 1
      ensures moveCount == old(moveCount) + 1
    {
      ok := Seek(0);
    }

    /**
      READ of `n` sectors into the buffer from `at` on. It must stay on one side of the track the
      head is on.
     */
    method Read(t: nat, h: nat, s: nat, n: nat, buf: array<Byte>, at: nat) returns (issued: bool, ok: bool)
      requires Valid() && t == track && h < geo.heads && 1 <= s && s + n <= geo.sects + 1
      requires at + n * geo.size <= buf.Length
      modifies this`readCount, this`errors, this`refusals, buf
      ensures refusals == old(refusals) + (if issued then 0 else 1)
      ensures !issued ==> errors == old(errors) && !ok
      ensures issued ==> readCount == old(readCount) + 1 && errors == old(errors) + (if ok then 0 else 1)
      ensures ok ==> buf[at..at + n * geo.size] == Side(geo, disk, t, h, s, n)
      ensures forall k | 0 <= k < buf.Length && !(at <= k < at + n * geo.size) :: buf[k] == old(buf[k])
    {
      var outcome := transfers(readCount);
      ok, issued := false, outcome != Refused;
      if !issued {
        refusals := refusals + 1;
        return;
      }
      readCount := readCount + 1;
      SideLength(geo, disk, t, h, s, n);
      var data := Side(geo, disk, t, h, s, n);
      ok := !(outcome.Breaks? && |outcome.noise| < n * geo.size);
      if !ok {
        data := outcome.noise;
        errors := errors + 1;
      }
      var i := 0;
      while i < |data|
        modifies buf
        invariant i <= |data| <= n * geo.size
        invariant forall k | 0 <= k < buf.Length :: buf[k] == if at <= k < at + i then data[k - at] else old(buf[k])
      {
        buf[at + i] := data[i];
        i := i + 1;
      }
    }
  }

  lemma {:induction false} SideLength(g: Geometry, disk: Disk, t: nat, h: nat, s: nat, n: nat)
    requires Formatted(g, disk)
    ensures |Side(g, disk, t, h, s, n)| == n * g.size
  {
    if n == 0 {
    } else {
      SideLength(g, disk, t, h, s, n - 1);
    }
  }

  // ---------------------------------------------------------------------------------------------
  // The call
  // ---------------------------------------------------------------------------------------------

  /** The number of chunks a request is read in. */
  function Chunks(g: Geometry, b: nat, n: nat): (c: nat)
    requires g.Valid()
    ensures c > 0
    decreases n
  {
    var k := g.sects - b % g.sects;
    if n <= k then 1 else 1 + Chunks(g, b + k, n - k)
  }

  /** The blocks up to the end of the track side, if there are that many. */
  function FirstChunk(g: Geometry, b: nat, n: nat): (k: nat)
    requires g.Valid()
    ensures k <= n && b % g.sects + k <= g.sects && (n > 0 ==> k > 0)
  {
    if g.sects - b % g.sects > n then n else g.sects - b % g.sects
  }

  lemma ChunkFits(g: Geometry, b: nat, done: nat, n: nat)
    requires g.Valid()
    ensures g.Bytes(done) + g.Bytes(FirstChunk(g, b, n)) <= g.Bytes(done + n)
    ensures g.Bytes(done) + g.Bytes(FirstChunk(g, b, n)) == g.Bytes(done + FirstChunk(g, b, n))
  {
    hide FirstChunk;
    Monotone(g.size, FirstChunk(g, b, n), n);
  }

  /** After a chunk that was not the last the next one begins a track side. */
  lemma NextSide(g: Geometry, b: nat, n: nat)
    requires g.Valid() && FirstChunk(g, b, n) < n
    ensures (b + FirstChunk(g, b, n)) % g.sects == 0
    ensures FirstChunk(g, b + FirstChunk(g, b, n), n - FirstChunk(g, b, n))
            == if g.sects > n - FirstChunk(g, b, n) then n - FirstChunk(g, b, n) else g.sects
  {
    assert b + FirstChunk(g, b, n) == g.sects * (b / g.sects + 1);
    Divided(b + FirstChunk(g, b, n), g.sects, b / g.sects + 1, 0);
  }

  lemma ChunkStep(g: Geometry, b: nat, n: nat)
    requires g.Valid()
    ensures var k := FirstChunk(g, b, n); Chunks(g, b, n) == if k == n then 1 else 1 + Chunks(g, b + k, n - k)
  {
  }

  /**
    A request is read in as many chunks as it touches track sides, from the side of its first block
    to that of its last.
   */
  lemma {:induction false} ChunksAreSides(g: Geometry, b: nat, n: nat)
    requires g.Valid() && n > 0
    ensures Chunks(g, b, n) == (b + n - 1) / g.sects - b / g.sects + 1
    decreases n
  {
    var k := g.sects - b % g.sects;
    if n <= k {
      SameSideDivides(g.sects, b, n - 1);
    } else {
      ChunksAreSides(g, b + k, n - k);
      NextSideDivides(g.sects, b, k);
      var last := b + n - 1;
      assert b + k + (n - k) - 1 == last;
      assert Chunks(g, b, n) == 1 + (last / g.sects - (b + k) / g.sects + 1);
    }
  }

  lemma SameSideDivides(s: nat, b: nat, i: nat)
    requires s > 0 && i < s - b % s
    ensures (b + i) / s == b / s
  {
    Divided(b + i, s, b / s, b % s + i);
  }

  lemma NextSideDivides(s: nat, b: nat, k: nat)
    requires s > 0 && k == s - b % s
    ensures (b + k) / s == b / s + 1
  {
    Divided(b + k, s, b / s + 1, 0);
  }

  class Command {
    var blnr: nat

    constructor (blnr: nat)
      ensures this.blnr == blnr
    {
      this.blnr := blnr;
    }
  }

  /** The bytes of a READ command hold the position of the block, and its sectors are on one side. */
  lemma CommandFits(g: Geometry, disk: Disk, b: nat, n: nat)
    requires g.Valid() && b % g.sects + n <= g.sects && b < g.Limit()
    ensures g.Track(b) % 256 == g.Track(b) && g.Head(b) % 256 == g.Head(b) && g.Sector(b) % 256 == g.Sector(b)
    ensures g.Head(b) < g.heads && 1 <= g.Sector(b) && g.Sector(b) + n <= g.sects + 1
    ensures Side(g, disk, g.Track(b), g.Head(b), g.Sector(b), n) == Image(g, disk, b, n)
  {
    TrackBelow(g, b);
    NumberingIsBijective(g, b, 0, 0, 1);
    SameSide(g, b, 0);
    SideIsImage(g, disk, b, n);
  }

  /** One READ command for blocks of one track side; nothing from `limit` on is touched. */
  method ReadChunk(drive: Drive, cmd: Command, readblk: nat, buffer: array<Byte>, offset: nat, ghost limit: nat)
    returns (issued: bool, ok: bool)
    requires drive.Valid() && cmd.blnr % drive.geo.sects + readblk <= drive.geo.sects && cmd.blnr < drive.geo.Limit()
    requires drive.track == drive.geo.Track(cmd.blnr)
    requires offset + drive.geo.Bytes(readblk) <= limit <= buffer.Length
    modifies drive`readCount, drive`errors, drive`refusals, buffer
    ensures drive.refusals == old(drive.refusals) + (if issued then 0 else 1)
    ensures !issued ==> drive.errors == old(drive.errors) && !ok
    ensures issued ==>
              drive.readCount == old(drive.readCount) + 1 && drive.errors == old(drive.errors) + (if ok then 0 else 1)
    ensures ok ==> buffer[..offset + drive.geo.Bytes(readblk)]
                   == old(buffer[..offset]) + Image(drive.geo, drive.disk, cmd.blnr, readblk)
    ensures buffer[..offset] == old(buffer[..offset]) && buffer[limit..] == old(buffer[limit..])
  {
    hide Image, Side, Formatted, Geometry.Track, Geometry.Head, Geometry.Sector, Geometry.Limit;
    var g := drive.geo;
    CommandFits(g, drive.disk, cmd.blnr, readblk);
    var track, head, sect := g.Track(cmd.blnr) % 256, g.Head(cmd.blnr) % 256, g.Sector(cmd.blnr) % 256;
    issued, ok := drive.Read(track, head, sect, readblk, buffer, offset);
    assert buffer[..offset + g.Bytes(readblk)] == buffer[..offset] + buffer[offset..offset + g.Bytes(readblk)];
  }

  lemma Beginning(g: Geometry, disk: Disk, b: nat, n: nat)
    requires g.Valid()
    ensures g.Bytes(0) == 0 && Image(g, disk, b, 0) == []
    ensures FirstChunk(g, b, n) == if g.sects - b % g.sects > n then n else g.sects - b % g.sects
  {
  }

  /** The call is between two commands, `done` blocks being in the buffer. */
  ghost predicate Between(drive: Drive, blnr: nat, b0: nat, done: nat, blocks: nat, readblk: nat, offset: nat,
      buffer: array<Byte>)
    requires drive.Valid()
    reads drive, buffer
  {
    && blnr == b0 + done && offset == drive.geo.Bytes(done)
    && readblk == FirstChunk(drive.geo, blnr, blocks) && blnr < drive.geo.Limit()
    && drive.track == drive.geo.Track(blnr)
    && offset <= buffer.Length && buffer[..offset] == Image(drive.geo, drive.disk, b0, done)
  }

  /** One round of the loop: a READ of the next chunk, and the steps to the chunk behind it if it worked. */
  method NextChunk(buffer: array<Byte>, cmd: Command, drive: Drive, blocks0: nat, readblk0: nat, offset0: nat,
                   ghost b0: nat, ghost done: nat, ghost limit: nat)
    returns (issued: bool, ok: bool, blocks: nat, readblk: nat, offset: nat)
    requires drive.Valid() && Between(drive, cmd.blnr, b0, done, blocks0, readblk0, offset0, buffer)
    requires limit == drive.geo.Bytes(done + blocks0) <= buffer.Length && cmd.blnr + blocks0 <= drive.geo.Limit()
    modifies drive`readCount, drive`errors, drive`refusals, cmd, buffer
    ensures drive.refusals == old(drive.refusals) + (if issued then 0 else 1)
    ensures !issued ==> drive.errors == old(drive.errors) && !ok
    ensures issued ==>
              drive.readCount == old(drive.readCount) + 1 && drive.errors == old(drive.errors) + (if ok then 0 else 1)
    ensures ok ==> cmd.blnr == old(cmd.blnr) + readblk0 && blocks == blocks0 - readblk0
    ensures ok && blocks > 0 ==> blocks < blocks0
    ensures ok ==> Chunks(drive.geo, old(cmd.blnr), blocks0)
                   == 1 + if blocks == 0 then 0 else Chunks(drive.geo, cmd.blnr, blocks)
    ensures ok ==> cmd.blnr == b0 + (done + readblk0) && offset == drive.geo.Bytes(done + readblk0) <= buffer.Length
                   && buffer[..offset] == Image(drive.geo, drive.disk, b0, done + readblk0)
    ensures ok && blocks > 0 ==> readblk == FirstChunk(drive.geo, cmd.blnr, blocks)
    ensures !ok ==> cmd.blnr == old(cmd.blnr) && blocks == blocks0 && readblk == readblk0 && offset == offset0
                    && buffer[..offset] == old(buffer[..offset])
    ensures buffer[limit..] == old(buffer[limit..])
  {
    hide Chunks, FirstChunk, Image, Geometry.Track, Geometry.Bytes, Geometry.Limit;
    var g := drive.geo;
    blocks, readblk, offset := blocks0, readblk0, offset0;
    ChunkFits(g, cmd.blnr, done, blocks);
    ChunkStep(g, cmd.blnr, blocks);
    issued, ok := ReadChunk(drive, cmd, readblk, buffer, offset, limit);
    if ok {
      ImageSplits(g, drive.disk, b0, done, readblk);
      if readblk < blocks {
        NextSide(g, cmd.blnr, blocks);
      }
      offset := offset + g.Bytes(readblk);
      cmd.blnr := cmd.blnr + readblk;
      blocks := blocks - readblk;
      if blocks != 0 {
        readblk := if g.sects > blocks then blocks else g.sects;
      }
    }
  }

  /**
    Reads `blocks` blocks from `cmd.blnr` on. With positioning commands that work, the call succeeds
    exactly if the last chunk has been read before the 25th broken transfer. The head is moved to every
    chunk, and after every fifth broken transfer to track zero and back.
   */
  method ReadData(buffer: array<Byte>, blocks0: nat, cmd: Command, drive: Drive) returns (ok: bool)
    requires drive.Valid() && cmd.blnr + blocks0 <= drive.geo.Limit() && cmd.blnr < drive.geo.Limit()
    requires drive.geo.Bytes(blocks0) <= buffer.Length
    modifies drive`readCount, drive`moveCount, drive`errors, drive`refusals, drive`track, cmd, buffer
    ensures ok ==> buffer[..drive.geo.Bytes(blocks0)] == Image(drive.geo, drive.disk, old(cmd.blnr), blocks0)
    ensures ok ==> cmd.blnr == old(cmd.blnr) + blocks0 && drive.refusals == old(drive.refusals)
    ensures var attempts, errors := drive.readCount - old(drive.readCount), drive.errors - old(drive.errors);
            && errors <= 25
            && (ok ==> errors < 25 && attempts - errors == Chunks(drive.geo, old(cmd.blnr), blocks0))
            && (!ok ==> drive.refusals == old(drive.refusals) + 1
                        || (errors == 25 && attempts - errors < Chunks(drive.geo, old(cmd.blnr), blocks0)))
            && (drive.refusals == old(drive.refusals) ==>
                  drive.moveCount - old(drive.moveCount)
                  == (if ok then 0 else 1) + (attempts - errors) + 2 * if ok then errors / 5 else 4)
    ensures buffer[drive.geo.Bytes(blocks0)..] == old(buffer[drive.geo.Bytes(blocks0)..])
  {
    hide Chunks, FirstChunk, Image, Geometry.Track, Geometry.Bytes, Geometry.Limit;
    var g, blocks: nat, offset: nat := drive.geo, blocks0, 0;
    ghost var b0, done: nat, limit := cmd.blnr, 0, g.Bytes(blocks0);
    Beginning(g, drive.disk, b0, blocks0);
    ghost var reads0, errors0, refusals0 := drive.readCount, drive.errors, drive.refusals;
    var retriesrw, retriescal := 0, 0;
    ok := drive.Seek(g.Track(cmd.blnr));
    if !ok {
      return;
    }
    var readblk: nat := g.sects - cmd.blnr % g.sects;
    if readblk > blocks {
      readblk := blocks;
    }
    while true
      invariant Between(drive, cmd.blnr, b0, done, blocks, readblk, offset, buffer)
      invariant done + blocks == blocks0 && drive.refusals == refusals0 && retriesrw <= 4 && retriescal <= 4
      invariant drive.errors == errors0 + 5 * retriescal + retriesrw
      invariant drive.readCount - reads0 - (drive.errors - errors0) + Chunks(g, cmd.blnr, blocks)
                == Chunks(g, b0, blocks0)
      invariant drive.moveCount - old(drive.moveCount)
                == 1 + (drive.readCount - reads0 - (drive.errors - errors0)) + 2 * retriescal
      invariant buffer[limit..] == old(buffer[limit..])
      decreases blocks, 25 - (5 * retriescal + retriesrw)
    {
      var issued;
      ghost var read := readblk;
      issued, ok, blocks, readblk, offset := NextChunk(buffer, cmd, drive, blocks, readblk, offset, b0, done, limit);
      if !issued {
        return false;
      }
      if ok {
        done := done + read;
        if blocks == 0 {
          break;
        }
      } else {
        retriesrw := retriesrw + 1;
        if retriesrw <= RW_RETRIES + 1 {
          continue;
        }
        retriescal := retriescal + 1;
        if retriescal > CAL_RETRIES + 1 {
          return false;
        }
        ok := drive.Recalibrate();
        if !ok {
          return;
        }
        retriesrw := 0;
      }
      ok := drive.Seek(g.Track(cmd.blnr));
      if !ok {
        return;
      }
    }
    ok := true;
  }

}
