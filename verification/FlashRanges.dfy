/**
  Planning which flash sectors an address range stands for.

  Flash memory is a row of banks; a bank is cut into sectors of any sizes. A request names a first
  and a last address. The planner turns it into one run of sectors for every bank, and the erase and
  protect commands then work on those runs.
 */
module FlashRanges {

  import opened Basics

  /** A bank: its sector start addresses and its size. An unknown bank is one where no chip was found. */
  datatype Bank = Bank(known: bool, starts: seq<nat>, size: nat)

  const SPACE := 0x1_0000_0000

  /** Ascending sectors, the last one within the bank, the bank ending below the top of memory. */
  ghost predicate WellFormed(b: Bank) {
    && (b.known <==> b.starts != [])
    && |b.starts| <= 0x8000
    && (forall i, j | 0 <= i < j < |b.starts| :: b.starts[i] < b.starts[j])
    && (b.starts != [] ==> b.starts[|b.starts| - 1] < b.starts[0] + b.size < SPACE)
  }

  ghost predicate AllWellFormed(banks: seq<Bank>) {
    forall i | 0 <= i < |banks| :: WellFormed(banks[i])
  }

  /** The last address of a bank. */
  function BankEnd(b: Bank): int
    requires b.starts != []
  {
    b.starts[0] + b.size - 1
  }

  /** The last address of a sector. */
  function SectorEnd(b: Bank, s: nat): int
    requires s < |b.starts|
  {
    if s == |b.starts| - 1 then BankEnd(b) else b.starts[s + 1] as int - 1
  }

  predicate InSector(b: Bank, s: nat, x: int)
    requires s < |b.starts|
  {
    b.starts[s] <= x <= SectorEnd(b, s)
  }

  predicate InBank(b: Bank, x: int) {
    b.starts != [] && b.starts[0] <= x <= BankEnd(b)
  }

  /** Two banks share no address. */
  ghost predicate Disjoint(banks: seq<Bank>) {
    forall i, j | 0 <= i < |banks| && 0 <= j < |banks| && i != j && banks[i].known && banks[j].known ::
      Before(banks[i], banks[j]) || Before(banks[j], banks[i])
  }

  predicate Before(b: Bank, c: Bank) {
    b.starts != [] && c.starts != [] && BankEnd(b) < c.starts[0]
  }

  /** The sector starting at `a`, -1 if there is none. */
  function FirstAt(b: Bank, a: int): (f: int)
    ensures -1 <= f < |b.starts|
    ensures f >= 0 ==> b.starts[f] == a
    ensures f < 0 ==> a !in b.starts
  {
    if a in b.starts then IndexOf(b.starts, a) else -1
  }

  /** The sector ending at `z`, -1 if there is none. */
  function LastAt(b: Bank, z: int): (l: int)
    ensures -1 <= l < |b.starts|
    ensures l >= 0 ==> SectorEnd(b, l) == z
    ensures l < 0 ==> forall s | 0 <= s < |b.starts| :: SectorEnd(b, s) != z
  {
    LastBelow(b, z, |b.starts|)
  }

  function LastBelow(b: Bank, z: int, n: nat): (l: int)
    requires n <= |b.starts|
    ensures -1 <= l < n
    ensures l >= 0 ==> SectorEnd(b, l) == z
    ensures l < 0 ==> forall s | 0 <= s < n :: SectorEnd(b, s) != z
  {
    if n == 0 then -1 else if SectorEnd(b, n - 1) == z then n - 1 else LastBelow(b, z, n - 1)
  }

  // ---------------------------------------------------------------------------------------------
  // Sectors of one bank
  // ---------------------------------------------------------------------------------------------

  lemma SectorsAscend(b: Bank, s: nat, t: nat)
    requires WellFormed(b) && s < t < |b.starts|
    ensures b.starts[s] <= SectorEnd(b, s) < b.starts[t] <= SectorEnd(b, t) <= BankEnd(b)
  {
  }

  /** Every address of a bank is in exactly one sector. */
  lemma SectorOf(b: Bank, x: int) returns (s: nat)
    requires WellFormed(b) && InBank(b, x)
    ensures s < |b.starts| && InSector(b, s, x)
    ensures forall t | 0 <= t < |b.starts| && InSector(b, t, x) :: t == s
  {
    s := 0;
    while SectorEnd(b, s) < x
      invariant s < |b.starts| && b.starts[s] <= x
      decreases |b.starts| - s
    {
      s := s + 1;
    }
    forall t | 0 <= t < |b.starts| && InSector(b, t, x)
      ensures t == s
    {
      if t < s { SectorsAscend(b, t, s); }
      if s < t { SectorsAscend(b, s, t); }
    }
  }

  lemma SectorInBank(b: Bank, s: nat, x: int)
    requires WellFormed(b) && s < |b.starts| && InSector(b, s, x)
    ensures InBank(b, x)
  {
    if 0 < s { SectorsAscend(b, 0, s); }
    if s < |b.starts| - 1 { SectorsAscend(b, s, |b.starts| - 1); }
  }

  /** A run of sectors is the interval from the start of the first to the end of the last. */
  lemma RunIsInterval(b: Bank, f: nat, l: nat, x: int)
    requires WellFormed(b) && f <= l < |b.starts|
    ensures (exists s | f <= s <= l :: InSector(b, s, x)) <==> b.starts[f] <= x <= SectorEnd(b, l)
  {
    if s :| f <= s <= l && InSector(b, s, x) {
      if f < s { SectorsAscend(b, f, s); }
      if s < l { SectorsAscend(b, s, l); }
    }
    if b.starts[f] <= x <= SectorEnd(b, l) {
      if 0 < f { SectorsAscend(b, 0, f); }
      if l < |b.starts| - 1 { SectorsAscend(b, l, |b.starts| - 1); }
      var s := SectorOf(b, x);
      if s < f { SectorsAscend(b, s, f); }
      if l < s { SectorsAscend(b, l, s); }
    }
  }

  // ---------------------------------------------------------------------------------------------
  // The plan
  // ---------------------------------------------------------------------------------------------

  /** What a bank contributes: its run of sectors, whether that is an error, and where to go on. */
  datatype Pick = Pick(first: int, last: int, rc: nat, next: int)

  predicate Picked(p: Pick) {
    p.rc == 0 && p.first >= 0
  }

  function Size(p: Pick): int {
    if Picked(p) then p.last - p.first + 1 else 0
  }

  function PickBank(b: Bank, a: int, z: int): (p: Pick)
    requires WellFormed(b)
  {
    if !b.known || z < a then Pick(-1, -1, 0, a)
    else
      var f, l := FirstAt(b, a), LastAt(b, z);
      if f >= 0 then
        if l < 0 && z <= BankEnd(b) then Pick(f, -1, 1, a)
        else
          var last := if l < 0 then |b.starts| - 1 else l;
          if last < f then Pick(f, last, 1, a) else Pick(f, last, 0, SectorEnd(b, last) + 1)
      else if b.starts[0] <= a < BankEnd(b) || l >= 0 then Pick(f, l, 1, a)
      else Pick(f, l, 0, a)
  }

  /** The address reached after some banks, the number of sectors so far, and whether there was an error. */
  datatype State = State(addr: int, count: int, rc: nat)

  function StateAt(banks: seq<Bank>, a: int, z: int, k: nat): State
    requires AllWellFormed(banks) && k <= |banks|
  {
    if k == 0 then State(a, 0, 0)
    else
      var st := StateAt(banks, a, z, k - 1);
      if st.rc != 0 then st
      else
        var p := PickBank(banks[k - 1], st.addr, z);
        State(p.next, st.count + Size(p), p.rc)
  }

  function PickAt(banks: seq<Bank>, a: int, z: int, i: nat): Pick
    requires AllWellFormed(banks) && i < |banks|
  {
    var st := StateAt(banks, a, z, i);
    if st.rc != 0 then Pick(-1, -1, 0, st.addr) else PickBank(banks[i], st.addr, z)
  }

  /** How the planner ends. */
  function Final(banks: seq<Bank>, a: int, z: int): State
    requires AllWellFormed(banks)
  {
    StateAt(banks, a, z, |banks|)
  }

  /** Sector `s` of bank `i` is planned. */
  predicate Selected(banks: seq<Bank>, a: int, z: int, i: nat, s: nat)
    requires AllWellFormed(banks) && i < |banks|
  {
    var p := PickAt(banks, a, z, i);
    s < |banks[i].starts| && Picked(p) && p.first <= s <= p.last
  }

  ghost predicate Hit(banks: seq<Bank>, a: int, z: int, i: nat, x: int)
    requires AllWellFormed(banks) && i < |banks|
  {
    exists s | 0 <= s < |banks[i].starts| :: Selected(banks, a, z, i, s) && InSector(banks[i], s, x)
  }

  /** The address is in a planned sector of one of the first `k` banks. */
  ghost predicate Planned(banks: seq<Bank>, a: int, z: int, k: nat, x: int)
    requires AllWellFormed(banks) && k <= |banks|
  {
    exists i | 0 <= i < k :: Hit(banks, a, z, i, x)
  }

  lemma PickIsRun(b: Bank, a: int, z: int)
    requires WellFormed(b)
    ensures var p := PickBank(b, a, z);
            && p.rc <= 1 && (p.rc != 0 ==> p.next == a)
            && (Picked(p) ==> a <= z && 0 <= p.first <= p.last < |b.starts| && b.starts[p.first] == a &&
                              p.next == SectorEnd(b, p.last) + 1 && a < p.next <= z + 1)
            && (p.rc == 0 && p.first < 0 ==> p.next == a && p.last < 0)
  {
    if b.known && a <= z {
      var f, l := FirstAt(b, a), LastAt(b, z);
      if f >= 0 && l < 0 && BankEnd(b) < z {
        if f < |b.starts| - 1 { SectorsAscend(b, f, |b.starts| - 1); }
      }
      if f >= 0 && l >= 0 {
        if f < l { SectorsAscend(b, f, l); }
        if l < f { SectorsAscend(b, l, f); }
      }
    }
  }

  lemma HitIsInterval(banks: seq<Bank>, a: int, z: int, i: nat, x: int)
    requires AllWellFormed(banks) && i < |banks| && StateAt(banks, a, z, i + 1).rc == 0
    ensures Hit(banks, a, z, i, x) <==> StateAt(banks, a, z, i).addr <= x < StateAt(banks, a, z, i + 1).addr
    ensures StateAt(banks, a, z, i).rc == 0 && StateAt(banks, a, z, i).addr <= StateAt(banks, a, z, i + 1).addr
  {
    var st := StateAt(banks, a, z, i);
    assert st.rc == 0;
    var p := PickAt(banks, a, z, i);
    PickIsRun(banks[i], st.addr, z);
    if Picked(p) {
      RunIsInterval(banks[i], p.first, p.last, x);
      if s :| p.first <= s <= p.last && InSector(banks[i], s, x) {
        assert Selected(banks, a, z, i, s);
      }
    }
  }

  /**
    Without an error, the planned sectors are one gap-free interval that begins at the first address
    of the request and stays inside the request.
   */
  lemma {:induction false} SelectionIsGapFree(banks: seq<Bank>, a: int, z: int, k: nat)
    requires AllWellFormed(banks) && k <= |banks| && a <= z && StateAt(banks, a, z, k).rc == 0
    ensures a <= StateAt(banks, a, z, k).addr <= z + 1
    ensures forall x :: Planned(banks, a, z, k, x) <==> a <= x < StateAt(banks, a, z, k).addr
  {
    if k == 0 {
    } else {
      SelectionIsGapFree(banks, a, z, k - 1);
      PickIsRun(banks[k - 1], StateAt(banks, a, z, k - 1).addr, z);
      hide PickBank, Hit;
      forall x
        ensures Planned(banks, a, z, k, x) <==> a <= x < StateAt(banks, a, z, k).addr
      {
        HitIsInterval(banks, a, z, k - 1, x);
        assert Planned(banks, a, z, k, x) <==> Planned(banks, a, z, k - 1, x) || Hit(banks, a, z, k - 1, x);
      }
    }
  }

  // ---------------------------------------------------------------------------------------------
  // Requests that are planned completely
  // ---------------------------------------------------------------------------------------------

  predicate Overlaps(b: Bank, a: int, z: int) {
    b.known && b.starts != [] && b.starts[0] <= z && a <= BankEnd(b)
  }

  /** The address is in one of the banks from `k` on. */
  ghost predicate Mapped(banks: seq<Bank>, k: nat, x: int) {
    exists i | k <= i < |banks| :: banks[i].known && InBank(banks[i], x)
  }

  ghost predicate StartsSector(banks: seq<Bank>, k: nat, a: int) {
    exists i | k <= i < |banks| :: banks[i].known && FirstAt(banks[i], a) >= 0
  }

  ghost predicate EndsSector(banks: seq<Bank>, k: nat, z: int) {
    exists i | k <= i < |banks| :: banks[i].known && LastAt(banks[i], z) >= 0
  }

  /** The banks the request touches are mapped in ascending order. */
  ghost predicate Ascending(banks: seq<Bank>, k: nat, a: int, z: int) {
    forall i, j | k <= i < j < |banks| && Overlaps(banks[i], a, z) && Overlaps(banks[j], a, z) ::
      Before(banks[i], banks[j])
  }

  /** The request is cut exactly into sectors of ascending, adjacent banks. */
  ghost predicate Tiled(banks: seq<Bank>, k: nat, a: int, z: int) {
    && a <= z
    && (forall x | a <= x <= z :: Mapped(banks, k, x))
    && StartsSector(banks, k, a)
    && EndsSector(banks, k, z)
    && Ascending(banks, k, a, z)
  }

  lemma StartInBank(b: Bank, a: int)
    requires WellFormed(b) && FirstAt(b, a) >= 0
    ensures InBank(b, a)
  {
    SectorInBank(b, FirstAt(b, a), a) by {
      var f := FirstAt(b, a);
      if f < |b.starts| - 1 { SectorsAscend(b, f, f + 1); }
    }
  }

  lemma EndInBank(b: Bank, z: int)
    requires WellFormed(b) && LastAt(b, z) >= 0
    ensures InBank(b, z)
  {
    SectorInBank(b, LastAt(b, z), z) by {
      var l := LastAt(b, z);
      if l < |b.starts| - 1 { SectorsAscend(b, l, l + 1); }
    }
  }

  lemma OnlyBank(banks: seq<Bank>, i: nat, j: nat, x: int)
    requires Disjoint(banks) && i < |banks| && j < |banks| && banks[i].known && banks[j].known
    requires InBank(banks[i], x) && InBank(banks[j], x)
    ensures i == j
  {
  }

  /** A bank that the request does not touch contributes nothing. */
  lemma PickNone(b: Bank, a: int, z: int)
    requires WellFormed(b) && a <= z && !Overlaps(b, a, z)
    ensures PickBank(b, a, z).rc == 0 && PickBank(b, a, z).next == a
  {
    if b.known {
      if FirstAt(b, a) >= 0 { StartInBank(b, a); }
      if LastAt(b, z) >= 0 { EndInBank(b, z); }
    }
  }

  /** A bank where the request starts at a sector is taken up to the end of the request or of the bank. */
  lemma PickThrough(b: Bank, a: int, z: int)
    requires WellFormed(b) && b.known && a <= z && FirstAt(b, a) >= 0
    requires LastAt(b, z) >= 0 || BankEnd(b) < z
    ensures PickBank(b, a, z).rc == 0
    ensures PickBank(b, a, z).next == if LastAt(b, z) >= 0 then z + 1 else BankEnd(b) + 1
  {
    PickIsRun(b, a, z);
  }

  /** Nothing of the request is in a bank before it: what is mapped is mapped in the other banks. */
  lemma MappedElsewhere(banks: seq<Bank>, k: nat, a: int, next: int, z: int)
    requires k < |banks| && a <= next && forall x | a <= x <= z :: Mapped(banks, k, x)
    requires forall x | next <= x <= z :: !InBank(banks[k], x)
    ensures var k' := k + 1; forall x | next <= x <= z :: Mapped(banks, k', x)
  {
    var k' := k + 1;
    forall x | next <= x <= z
      ensures Mapped(banks, k', x)
    {
      assert Mapped(banks, k, x);
      var m :| k <= m < |banks| && banks[m].known && InBank(banks[m], x);
      assert m != k;
    }
  }

  /** The case of `TiledStep` in which the request begins in a later bank. */
  lemma TiledSkip(banks: seq<Bank>, k: nat, i: nat, j: nat, a: int, z: int)
    requires AllWellFormed(banks) && k < i < |banks| && k <= j < |banks| && Tiled(banks, k, a, z)
    requires banks[i].known && FirstAt(banks[i], a) >= 0 && InBank(banks[i], a)
    requires banks[j].known && LastAt(banks[j], z) >= 0 && InBank(banks[j], z)
    ensures PickBank(banks[k], a, z).rc == 0 && PickBank(banks[k], a, z).next == a && Tiled(banks, k + 1, a, z)
  {
    var b := banks[k];
    WellFormedKnown(b);
    assert !Overlaps(b, a, z) by {
      assert Overlaps(b, a, z) && Overlaps(banks[i], a, z) ==> Before(b, banks[i]);
    }
    PickNone(b, a, z);
    AscendingRest(banks, k, a, a, z);
    hide PickBank, FirstAt, LastAt, WellFormed, Mapped, Ascending;
    MappedElsewhere(banks, k, a, a, z);
  }

  /** One bank of a tiled request: it takes its part and leaves a tiled rest. */
  lemma TiledStep(banks: seq<Bank>, k: nat, a: int, z: int)
    requires AllWellFormed(banks) && Disjoint(banks) && k < |banks| && Tiled(banks, k, a, z)
    ensures var p := PickBank(banks[k], a, z);
            p.rc == 0 && (p.next == z + 1 || Tiled(banks, k + 1, p.next, z))
  {
    var i :| k <= i < |banks| && banks[i].known && FirstAt(banks[i], a) >= 0;
    var j :| k <= j < |banks| && banks[j].known && LastAt(banks[j], z) >= 0;
    StartInBank(banks[i], a);
    EndInBank(banks[j], z);
    assert k < j ==> Overlaps(banks[j], a, z);
    assert i == k ==> Overlaps(banks[k], a, z);
    assert i == k && k < j ==> Before(banks[k], banks[j]);
    hide PickBank, FirstAt, LastAt, WellFormed, Tiled;
    if i != k {
      TiledSkip(banks, k, i, j, a, z);
    } else if j == k {
      PickThrough(banks[k], a, z);
    } else {
      LeavesTiledRest(banks, k, j, a, z);
    }
  }

  lemma WellFormedKnown(b: Bank)
    requires WellFormed(b)
    ensures b.known <==> b.starts != []
  {
  }

  lemma LeavesTiledRest(banks: seq<Bank>, k: nat, j: nat, a: int, z: int)
    requires AllWellFormed(banks) && Disjoint(banks) && k < j < |banks| && Tiled(banks, k, a, z)
    requires banks[k].known && FirstAt(banks[k], a) >= 0 && InBank(banks[k], a)
    requires banks[j].known && LastAt(banks[j], z) >= 0 && InBank(banks[j], z) && Before(banks[k], banks[j])
    ensures PickBank(banks[k], a, z).rc == 0 && Tiled(banks, k + 1, PickBank(banks[k], a, z).next, z)
  {
    hide PickBank, Ascending, Disjoint, Mapped, WellFormed, FirstAt;
    var b := banks[k];
    WellFormedKnown(b);
    var next := BankEnd(b) + 1;
    if LastAt(b, z) >= 0 {
      EndInBank(b, z);
    }
    PickThrough(b, a, z);
    assert next <= z;
    assert EndsSector(banks, k + 1, z);
    MappedElsewhere(banks, k, a, next, z);
    AscendingRest(banks, k, a, next, z);
    NextBankStarts(banks, k, a, next, z);
  }

  lemma AscendingRest(banks: seq<Bank>, k: nat, a: int, next: int, z: int)
    requires k < |banks| && a <= next && Ascending(banks, k, a, z)
    ensures Ascending(banks, k + 1, next, z)
  {
    var k' := k + 1;
    forall i, j | k' <= i < j < |banks| && Overlaps(banks[i], next, z) && Overlaps(banks[j], next, z)
      ensures Before(banks[i], banks[j])
    {
      assert Overlaps(banks[i], a, z) && Overlaps(banks[j], a, z);
    }
  }

  lemma NextBankStarts(banks: seq<Bank>, k: nat, a: int, next: int, z: int)
    requires k < |banks| && banks[k].known && InBank(banks[k], a) && next == BankEnd(banks[k]) + 1 <= z
    requires Ascending(banks, k, a, z) && Mapped(banks, k + 1, next)
    ensures StartsSector(banks, k + 1, next)
  {
    var m :| k + 1 <= m < |banks| && banks[m].known && InBank(banks[m], next);
    assert Overlaps(banks[m], a, z) && Overlaps(banks[k], a, z);
    assert Before(banks[k], banks[m]);
    assert banks[m].starts[0] == next;
    assert FirstAt(banks[m], next) >= 0;
  }

  /** The bank's run and the tiled rest behind it cover the request. */
  lemma MappedBack(banks: seq<Bank>, k: nat, a: int, z: int)
    requires AllWellFormed(banks) && k < |banks| && a <= z
    requires var p := PickBank(banks[k], a, z);
             Picked(p) && (p.next == z + 1 || Tiled(banks, k + 1, p.next, z))
    ensures forall x | a <= x <= z :: Mapped(banks, k, x)
  {
    var b, p := banks[k], PickBank(banks[k], a, z);
    PickIsRun(b, a, z);
    StartInBank(b, a);
    if p.last < |b.starts| - 1 { SectorsAscend(b, p.last, |b.starts| - 1); }
    hide PickBank, WellFormed;
    forall x | a <= x <= z
      ensures Mapped(banks, k, x)
    {
      if p.next <= x {
        assert Mapped(banks, k + 1, x);
      } else {
        assert InBank(b, x);
      }
    }
  }

  lemma AscendingBack(banks: seq<Bank>, k: nat, a: int, z: int)
    requires AllWellFormed(banks) && Disjoint(banks) && k < |banks| && a <= z
    requires var p := PickBank(banks[k], a, z);
             Picked(p) && (p.next == z + 1 || Tiled(banks, k + 1, p.next, z))
    ensures Ascending(banks, k, a, z)
  {
    var b, p := banks[k], PickBank(banks[k], a, z);
    PickIsRun(b, a, z);
    StartInBank(b, a);
    LastInBank(b, p.last);
    hide PickBank, WellFormed;
    forall i, j | k <= i < j < |banks| && Overlaps(banks[i], a, z) && Overlaps(banks[j], a, z)
      ensures Before(banks[i], banks[j])
    {
      if i > k {
        assert Before(b, banks[i]) && Before(b, banks[j]);
        assert Overlaps(banks[i], p.next, z) && Overlaps(banks[j], p.next, z);
      }
    }
  }

  lemma LastInBank(b: Bank, l: nat)
    requires WellFormed(b) && l < |b.starts|
    ensures SectorEnd(b, l) <= BankEnd(b)
  {
    if l < |b.starts| - 1 { SectorsAscend(b, l, |b.starts| - 1); }
  }

  /** A bank without a run is not touched by the request, if the rest of it is tiled. */
  lemma SkippedBack(banks: seq<Bank>, k: nat, a: int, z: int)
    requires AllWellFormed(banks) && Disjoint(banks) && k < |banks| && Tiled(banks, k + 1, a, z)
    ensures Tiled(banks, k, a, z)
  {
    var b := banks[k];
    forall x | a <= x <= z
      ensures Mapped(banks, k, x)
    {
      assert Mapped(banks, k + 1, x);
    }
    if Overlaps(b, a, z) {
      var x := if a <= b.starts[0] then b.starts[0] else a;
      assert InBank(b, x) && Mapped(banks, k + 1, x);
      var m :| k + 1 <= m < |banks| && banks[m].known && InBank(banks[m], x);
      OnlyBank(banks, k, m, x);
      assert false;
    }
  }

  /** If the rest after a bank is tiled or empty, so is the request before it. */
  lemma TiledStepBack(banks: seq<Bank>, k: nat, a: int, z: int)
    requires AllWellFormed(banks) && Disjoint(banks) && k < |banks| && a <= z
    requires var p := PickBank(banks[k], a, z);
             p.rc == 0 && (p.next == z + 1 || Tiled(banks, k + 1, p.next, z))
    ensures Tiled(banks, k, a, z)
  {
    var b := banks[k];
    var p := PickBank(b, a, z);
    PickIsRun(b, a, z);
    if Picked(p) {
      StartInBank(b, a);
      assert StartsSector(banks, k, a);
      MappedBack(banks, k, a, z);
      AscendingBack(banks, k, a, z);
      if p.next == z + 1 {
        assert SectorEnd(b, p.last) == z;
        assert LastAt(b, z) >= 0;
      }
    } else {
      SkippedBack(banks, k, a, z);
    }
  }

  lemma PickPastEnd(b: Bank, z: int)
    requires WellFormed(b)
    ensures PickBank(b, z + 1, z) == Pick(-1, -1, 0, z + 1)
  {
  }

  lemma {:induction false} TiledForward(banks: seq<Bank>, a: int, z: int, k: nat)
    requires AllWellFormed(banks) && Disjoint(banks) && k <= |banks| && Tiled(banks, 0, a, z)
    ensures var st := StateAt(banks, a, z, k);
            st.rc == 0 && (st.addr == z + 1 || Tiled(banks, k, st.addr, z))
  {
    hide PickBank, Tiled, Disjoint, WellFormed;
    if k == 0 {
    } else {
      TiledForward(banks, a, z, k - 1);
      var st := StateAt(banks, a, z, k - 1);
      if st.addr != z + 1 {
        TiledStep(banks, k - 1, st.addr, z);
      } else {
        PickPastEnd(banks[k - 1], z);
      }
    }
  }

  lemma {:induction false} TiledBackward(banks: seq<Bank>, a: int, z: int, k: nat)
    requires AllWellFormed(banks) && Disjoint(banks) && k <= |banks| && a <= z
    requires Final(banks, a, z).rc == 0 && Final(banks, a, z).addr == z + 1
    ensures var st := StateAt(banks, a, z, k);
            st.rc == 0 && (st.addr == z + 1 || Tiled(banks, k, st.addr, z))
    decreases |banks| - k
  {
    if k == |banks| {
    } else {
      TiledBackward(banks, a, z, k + 1);
      var st := StateAt(banks, a, z, k);
      assert st.rc == 0;
      SelectionIsGapFree(banks, a, z, k);
      if st.addr != z + 1 {
        TiledStepBack(banks, k, st.addr, z);
      }
    }
  }

  /** A request is planned completely and without error exactly if it is tiled. */
  lemma CompleteIffTiled(banks: seq<Bank>, a: int, z: int)
    requires AllWellFormed(banks) && Disjoint(banks) && a <= z
    ensures Final(banks, a, z).rc == 0 && Final(banks, a, z).addr == z + 1 <==> Tiled(banks, 0, a, z)
  {
    if Tiled(banks, 0, a, z) {
      TiledForward(banks, a, z, |banks|);
    }
    if Final(banks, a, z).rc == 0 && Final(banks, a, z).addr == z + 1 {
      TiledBackward(banks, a, z, 0);
    }
  }

  // ---------------------------------------------------------------------------------------------
  // Requests that are planned in part
  // ---------------------------------------------------------------------------------------------

  /** Bank `i` was planned up to its last address, the one before `next`. */
  predicate RunsOut(banks: seq<Bank>, a: int, z: int, i: nat, next: int)
    requires AllWellFormed(banks) && i < |banks|
  {
    banks[i].known && banks[i].starts != [] && Picked(PickAt(banks, a, z, i)) && BankEnd(banks[i]) + 1 == next
  }

  lemma PickStops(b: Bank, a: int, z: int)
    requires WellFormed(b) && PickBank(b, a, z).rc == 0
    ensures var p := PickBank(b, a, z);
            if Picked(p) then b.known && b.starts != [] && (p.next == z + 1 || p.next == BankEnd(b) + 1)
            else p.next == a
    ensures Picked(PickBank(b, a, z)) <==> Size(PickBank(b, a, z)) > 0
    ensures !Picked(PickBank(b, a, z)) ==> Size(PickBank(b, a, z)) == 0
  {
    PickIsRun(b, a, z);
  }

  /** A plan that got somewhere without an error, but not to the end, stopped at the end of a bank. */
  lemma {:induction false} StopsAtBankEnd(banks: seq<Bank>, a: int, z: int, k: nat)
    requires AllWellFormed(banks) && k <= |banks| && StateAt(banks, a, z, k).rc == 0
    ensures var st := StateAt(banks, a, z, k);
            if st.count <= 0 then st.count == 0 && st.addr == a
            else st.addr == z + 1 || exists i | 0 <= i < k :: RunsOut(banks, a, z, i, st.addr)
  {
    hide PickBank, Picked, Size, WellFormed;
    if k == 0 {
    } else {
      StopsAtBankEnd(banks, a, z, k - 1);
      PickStops(banks[k - 1], StateAt(banks, a, z, k - 1).addr, z);
      var st := StateAt(banks, a, z, k);
      if Picked(PickAt(banks, a, z, k - 1)) && st.addr != z + 1 {
        assert RunsOut(banks, a, z, k - 1, st.addr);
      }
    }
  }

  /** Where a bank is left at its end or not entered, the request may as well end at `e`. */
  lemma PickShorter(b: Bank, a: int, e: int, z: int)
    requires WellFormed(b) && e < z && PickBank(b, a, z).rc == 0 && PickBank(b, a, z).next <= e + 1
    requires b.known && LastAt(b, e) >= 0 ==> Picked(PickBank(b, a, z))
    ensures PickBank(b, a, e).rc == 0 && PickBank(b, a, e).next == PickBank(b, a, z).next
  {
    PickIsRun(b, a, z);
    if b.known && LastAt(b, e) >= 0 {
      EndInBank(b, e);
      SectorInBank(b, LastAt(b, e), e);
    }
    if b.known && a <= e && Picked(PickBank(b, a, z)) {
      StartInBank(b, a);
      EndOfBank(b);
    }
  }

  lemma EndOfBank(b: Bank)
    requires WellFormed(b) && b.starts != []
    ensures LastAt(b, BankEnd(b)) == |b.starts| - 1
  {
  }

  /** Up to every bank, the plan for the shorter request is the same. */
  lemma {:induction false} ShorterPlan(banks: seq<Bank>, a: int, z: int, i: nat, k: nat)
    requires AllWellFormed(banks) && Disjoint(banks) && k <= |banks| && i < |banks|
    requires Final(banks, a, z).rc == 0 && Final(banks, a, z).addr <= z
    requires RunsOut(banks, a, z, i, Final(banks, a, z).addr)
    ensures var e := Final(banks, a, z).addr - 1;
            StateAt(banks, a, e, k).rc == 0 && StateAt(banks, a, e, k).addr == StateAt(banks, a, z, k).addr
  {
    hide PickBank, WellFormed, LastAt, Disjoint, Picked;
    if k == 0 {
    } else {
      var e := Final(banks, a, z).addr - 1;
      ShorterPlan(banks, a, z, i, k - 1);
      AddressesGrow(banks, a, z, k, |banks|);
      AddressesGrow(banks, a, z, k - 1, |banks|);
      if banks[k - 1].known && LastAt(banks[k - 1], e) >= 0 {
        EndInBank(banks[k - 1], e);
        EndIsInBank(banks[i]);
        OnlyBank(banks, k - 1, i, e);
      }
      PickShorter(banks[k - 1], StateAt(banks, a, z, k - 1).addr, e, z);
    }
  }

  lemma EndIsInBank(b: Bank)
    requires WellFormed(b) && b.starts != []
    ensures InBank(b, BankEnd(b))
  {
    EndOfBank(b);
    EndInBank(b, BankEnd(b));
  }

  /**
    A request that is planned in part and without an error is planned up to the last address of a
    bank, and exactly as the request that ends there.
   */
  lemma PartIsTiled(banks: seq<Bank>, a: int, z: int)
    requires AllWellFormed(banks) && Disjoint(banks) && a <= z
    requires Final(banks, a, z).rc == 0 && Final(banks, a, z).count > 0 && Final(banks, a, z).addr <= z
    ensures var next := Final(banks, a, z).addr;
            && (exists i | 0 <= i < |banks| :: RunsOut(banks, a, z, i, next))
            && Tiled(banks, 0, a, next - 1)
  {
    hide StateAt, Tiled, RunsOut;
    StopsAtBankEnd(banks, a, z, |banks|);
    var next := Final(banks, a, z).addr;
    var i :| 0 <= i < |banks| && RunsOut(banks, a, z, i, next);
    ShorterPlan(banks, a, z, i, |banks|);
    LeavesStart(banks, a, z, i);
    CompleteIffTiled(banks, a, next - 1);
  }

  lemma LeavesStart(banks: seq<Bank>, a: int, z: int, i: nat)
    requires AllWellFormed(banks) && i < |banks| && Final(banks, a, z).rc == 0
    requires RunsOut(banks, a, z, i, Final(banks, a, z).addr) && a <= z
    ensures a < Final(banks, a, z).addr
  {
    hide PickBank, WellFormed;
    AddressesGrow(banks, a, z, i, |banks|);
    AddressesGrow(banks, a, z, i + 1, |banks|);
    SelectionIsGapFree(banks, a, z, i);
    PickIsRun(banks[i], StateAt(banks, a, z, i).addr, z);
  }

  lemma {:induction false} AddressesGrow(banks: seq<Bank>, a: int, z: int, j: nat, k: nat)
    requires AllWellFormed(banks) && j <= k <= |banks| && StateAt(banks, a, z, k).rc == 0
    ensures StateAt(banks, a, z, j).rc == 0 && StateAt(banks, a, z, j).addr <= StateAt(banks, a, z, k).addr
    decreases k - j
  {
    hide PickBank, WellFormed;
    if j == k {
    } else {
      AddressesGrow(banks, a, z, j, k - 1) by {
        assert StateAt(banks, a, z, k - 1).rc == 0;
      }
      PickIsRun(banks[k - 1], StateAt(banks, a, z, k - 1).addr, z);
    }
  }

  lemma PickTakes(b: Bank, a: int, z: int)
    requires WellFormed(b) && b.known && a <= z && FirstAt(b, a) >= 0
    ensures PickBank(b, a, z).rc != 0 || PickBank(b, a, z).next > a
  {
    PickIsRun(b, a, z);
  }

  /** A bank that has a sector at the address reached is not left behind. */
  lemma NotLeftBehind(banks: seq<Bank>, a: int, z: int, m: nat)
    requires AllWellFormed(banks) && m < |banks| && banks[m].known
    requires Final(banks, a, z).rc == 0 && StateAt(banks, a, z, m).addr == Final(banks, a, z).addr <= z
    ensures FirstAt(banks[m], Final(banks, a, z).addr) < 0
  {
    hide WellFormed, PickBank, FirstAt;
    AddressesGrow(banks, a, z, m + 1, |banks|);
    AddressesGrow(banks, a, z, m, m + 1);
    if FirstAt(banks[m], StateAt(banks, a, z, m).addr) >= 0 {
      PickTakes(banks[m], StateAt(banks, a, z, m).addr, z);
    }
  }

  /** After a bank that ran out, the address stays until a bank takes it up. */
  lemma StaysAt(banks: seq<Bank>, a: int, z: int, i: nat, m: nat)
    requires AllWellFormed(banks) && i < m < |banks|
    requires Final(banks, a, z).rc == 0 && Final(banks, a, z).addr <= z
    requires RunsOut(banks, a, z, i, Final(banks, a, z).addr)
    ensures StateAt(banks, a, z, m).addr == Final(banks, a, z).addr
  {
    hide PickBank, WellFormed, Picked, Size;
    AddressesGrow(banks, a, z, m, |banks|);
    AddressesGrow(banks, a, z, i + 1, m);
    AddressesGrow(banks, a, z, i, i + 1);
    PickStops(banks[i], StateAt(banks, a, z, i).addr, z);
  }

  /** A request that is mapped on beyond the bank where it would stop does not stop there. */
  lemma NoStopInside(banks: seq<Bank>, a: int, z: int)
    requires AllWellFormed(banks) && Disjoint(banks) && a <= z && Ascending(banks, 0, a, z)
    requires Final(banks, a, z).rc == 0 && Final(banks, a, z).count > 0 && Final(banks, a, z).addr <= z
    ensures !Mapped(banks, 0, Final(banks, a, z).addr)
  {
    hide StateAt, PickBank, FirstAt, WellFormed;
    var next := Final(banks, a, z).addr;
    StopsAtBankEnd(banks, a, z, |banks|);
    var i :| 0 <= i < |banks| && RunsOut(banks, a, z, i, next);
    LeavesStart(banks, a, z, i);
    if m :| 0 <= m < |banks| && banks[m].known && InBank(banks[m], next) {
      EndIsInBank(banks[i]);
      assert Overlaps(banks[i], a, z) && Overlaps(banks[m], a, z);
      assert m != i;
      NextBankIs(banks, a, z, i, m);
      StaysAt(banks, a, z, i, m);
      StartIsFirst(banks[m]);
      NotLeftBehind(banks, a, z, m);
    }
  }

  lemma NextBankIs(banks: seq<Bank>, a: int, z: int, i: nat, m: nat)
    requires Disjoint(banks) && Ascending(banks, 0, a, z) && i < |banks| && m < |banks| && i != m
    requires Overlaps(banks[i], a, z) && Overlaps(banks[m], a, z) && InBank(banks[m], BankEnd(banks[i]) + 1)
    ensures i < m && banks[m].starts[0] == BankEnd(banks[i]) + 1
  {
  }

  lemma StartIsFirst(b: Bank)
    requires b.starts != []
    ensures FirstAt(b, b.starts[0]) >= 0
  {
  }

  lemma SomethingIsPlanned(banks: seq<Bank>, a: int, z: int)
    requires AllWellFormed(banks) && a <= z && StartsSector(banks, 0, a) && Final(banks, a, z).rc == 0
    ensures Final(banks, a, z).count > 0
  {
    hide PickBank, FirstAt, WellFormed, StateAt;
    StopsAtBankEnd(banks, a, z, |banks|);
    if Final(banks, a, z).count <= 0 {
      var m :| 0 <= m < |banks| && banks[m].known && FirstAt(banks[m], a) >= 0;
      AddressesGrow(banks, a, z, m, |banks|);
      SelectionIsGapFree(banks, a, z, m);
      NotLeftBehind(banks, a, z, m);
    }
  }

  /**
    A request that begins at a sector and is wholly mapped by banks in ascending order is planned without
    an error exactly if it ends at the end of a sector. Otherwise the commands report it and touch nothing.
   */
  lemma MisalignedEndIsReported(banks: seq<Bank>, a: int, z: int)
    requires AllWellFormed(banks) && Disjoint(banks) && a <= z && StartsSector(banks, 0, a)
    requires (forall x | a <= x <= z :: Mapped(banks, 0, x)) && Ascending(banks, 0, a, z)
    ensures Final(banks, a, z).rc == 0 <==> EndsSector(banks, 0, z)
  {
    CompleteIffTiled(banks, a, z);
    hide StateAt, Mapped, StartsSector, EndsSector, Ascending, Disjoint;
    if Final(banks, a, z).rc == 0 {
      SomethingIsPlanned(banks, a, z);
      SelectionIsGapFree(banks, a, z, |banks|);
      if Final(banks, a, z).addr <= z {
        NoStopInside(banks, a, z);
      }
    }
  }

  lemma {:induction false} WaitsForStart(banks: seq<Bank>, a: int, z: int, k: nat)
    requires AllWellFormed(banks) && k <= |banks| && forall m | 0 <= m < k && banks[m].known :: FirstAt(banks[m], a) < 0
    ensures StateAt(banks, a, z, k).addr == a
  {
    hide FirstAt, LastAt;
    if k == 0 {
    } else {
      WaitsForStart(banks, a, z, k - 1);
    }
  }

  lemma {:induction false} ErrorStays(banks: seq<Bank>, a: int, z: int, j: nat, k: nat)
    requires AllWellFormed(banks) && j <= k <= |banks| && StateAt(banks, a, z, j).rc != 0
    ensures StateAt(banks, a, z, k) == StateAt(banks, a, z, j)
    decreases k - j
  {
    if j == k {
    } else {
      ErrorStays(banks, a, z, j, k - 1);
    }
  }

  /** A request that ends in a bank in front of the one where it begins is reported. */
  lemma ReverseOrderIsReported(banks: seq<Bank>, a: int, z: int, i: nat, j: nat)
    requires AllWellFormed(banks) && Disjoint(banks) && a <= z && j < i < |banks|
    requires banks[i].known && FirstAt(banks[i], a) >= 0 && banks[j].known && LastAt(banks[j], z) >= 0
    ensures Final(banks, a, z).rc != 0
  {
    StartInBank(banks[i], a);
    forall m | 0 <= m < i && banks[m].known
      ensures FirstAt(banks[m], a) < 0
    {
      if FirstAt(banks[m], a) >= 0 {
        StartInBank(banks[m], a);
        OnlyBank(banks, m, i, a);
      }
    }
    WaitsForStart(banks, a, z, j);
    hide FirstAt, LastAt, WellFormed;
    assert StateAt(banks, a, z, j + 1).rc != 0 by {
      UnalignedPick(banks[j], a, z);
    }
    ErrorStays(banks, a, z, j + 1, |banks|);
  }

  /** One bank of one sector of 16 addresses: a request to 200 is planned up to 15, without an error. */
  lemma PartialRequest()
    ensures var banks := [Bank(true, [0], 16)];
            && AllWellFormed(banks) && Disjoint(banks)
            && Final(banks, 0, 200) == State(16, 1, 0)
            && !Tiled(banks, 0, 0, 200)
  {
    var b := Bank(true, [0], 16);
    var banks := [b];
    assert StateAt(banks, 0, 200, 0) == State(0, 0, 0);
    assert PickBank(b, 0, 200) == Pick(0, 0, 0, 16);
    assert StateAt(banks, 0, 200, 1) == State(16, 1, 0);
    CompleteIffTiled(banks, 0, 200);
  }

  // ---------------------------------------------------------------------------------------------
  // How many sectors
  // ---------------------------------------------------------------------------------------------

  ghost function SelectedSet(banks: seq<Bank>, a: int, z: int, k: nat): set<(nat, nat)>
    requires AllWellFormed(banks) && k <= |banks|
  {
    if k == 0 then {}
    else SelectedSet(banks, a, z, k - 1) + Row(k - 1, PickAt(banks, a, z, k - 1))
  }

  /** The sectors of one run. */
  function Run(i: nat, f: int, l: int): set<(nat, nat)> {
    set s: nat | f <= s <= l :: (i, s)
  }

  lemma InRun(i: nat, f: int, l: int, j: nat, s: nat)
    ensures (j, s) in Run(i, f, l) <==> i == j && f <= s <= l
  {
  }

  ghost function Row(i: nat, p: Pick): set<(nat, nat)> {
    if Picked(p) then Run(i, p.first, p.last) else {}
  }

  lemma PickAtIsRun(banks: seq<Bank>, a: int, z: int, i: nat)
    requires AllWellFormed(banks) && i < |banks|
    ensures var p := PickAt(banks, a, z, i);
            Picked(p) ==> 0 <= p.first <= p.last < |banks[i].starts|
  {
    hide PickBank, StateAt;
    PickIsRun(banks[i], StateAt(banks, a, z, i).addr, z);
  }

  lemma InRow(banks: seq<Bank>, a: int, z: int, k: nat, i: nat, s: nat)
    requires AllWellFormed(banks) && k < |banks|
    ensures (i, s) in Row(k, PickAt(banks, a, z, k)) <==> i == k && Selected(banks, a, z, k, s)
  {
    PickAtIsRun(banks, a, z, k);
    hide PickAt, WellFormed, Run;
    var p := PickAt(banks, a, z, k);
    InRun(k, p.first, p.last, i, s);
  }

  lemma {:induction false} InSelectedSet(banks: seq<Bank>, a: int, z: int, k: nat, i: nat, s: nat)
    requires AllWellFormed(banks) && k <= |banks|
    ensures (i, s) in SelectedSet(banks, a, z, k) <==> i < k && Selected(banks, a, z, i, s)
  {
    hide PickAt, WellFormed, Row, Selected;
    if k == 0 {
    } else {
      InSelectedSet(banks, a, z, k - 1, i, s);
      InRow(banks, a, z, k - 1, i, s);
    }
  }

  lemma {:induction false} RowSize(i: nat, f: nat, l: int)
    requires f <= l + 1
    ensures |Run(i, f, l)| == l - f + 1
    decreases l + 1 - f
  {
    if f <= l {
      RowSize(i, f, l - 1);
      assert Run(i, f, l) == Run(i, f, l - 1) + {(i, l as nat)};
    } else {
      assert Run(i, f, l) == {};
    }
  }

  lemma RowIsNew(banks: seq<Bank>, a: int, z: int, k: nat, p: Pick)
    requires AllWellFormed(banks) && k <= |banks|
    ensures Row(k, p) !! SelectedSet(banks, a, z, k)
  {
    hide PickAt, WellFormed, StateAt;
    forall x | x in Row(k, p)
      ensures x !in SelectedSet(banks, a, z, k)
    {
      var (i, s) := x;
      InSelectedSet(banks, a, z, k, i, s);
    }
  }

  lemma DisjointSizes<T>(x: set<T>, y: set<T>)
    requires y !! x
    ensures |x + y| == |x| + |y|
  {
  }

  lemma CountStep(banks: seq<Bank>, a: int, z: int, k: nat)
    requires AllWellFormed(banks) && 0 < k <= |banks|
    ensures StateAt(banks, a, z, k).count == StateAt(banks, a, z, k - 1).count + Size(PickAt(banks, a, z, k - 1))
  {
    hide PickBank;
  }

  lemma RowSizeIs(banks: seq<Bank>, a: int, z: int, i: nat)
    requires AllWellFormed(banks) && i < |banks|
    ensures |Row(i, PickAt(banks, a, z, i))| == Size(PickAt(banks, a, z, i))
  {
    PickAtIsRun(banks, a, z, i);
    hide PickAt, WellFormed, Run;
    var p := PickAt(banks, a, z, i);
    if Picked(p) {
      RowSize(i, p.first, p.last);
    }
  }

  lemma SelectedStep(banks: seq<Bank>, a: int, z: int, k: nat)
    requires AllWellFormed(banks) && 0 < k <= |banks|
    ensures |SelectedSet(banks, a, z, k)| == |SelectedSet(banks, a, z, k - 1)| + Size(PickAt(banks, a, z, k - 1))
  {
    hide PickAt, WellFormed, Row, Size;
    var p := PickAt(banks, a, z, k - 1);
    RowSizeIs(banks, a, z, k - 1);
    RowIsNew(banks, a, z, k - 1, p);
    DisjointSizes(SelectedSet(banks, a, z, k - 1), Row(k - 1, p));
  }

  /** The count is the number of the sectors planned. */
  lemma {:induction false} CountIsExact(banks: seq<Bank>, a: int, z: int, k: nat)
    requires AllWellFormed(banks) && k <= |banks|
    ensures StateAt(banks, a, z, k).count == |SelectedSet(banks, a, z, k)|
  {
    hide PickAt, PickBank, WellFormed, Row, Size;
    if k == 0 {
    } else {
      CountIsExact(banks, a, z, k - 1);
      SelectedStep(banks, a, z, k);
      CountStep(banks, a, z, k);
    }
  }

  // ---------------------------------------------------------------------------------------------
  // Requests given by a length
  // ---------------------------------------------------------------------------------------------

  /** `z` is the end of a sector that holds `x`. */
  ghost predicate Rounds(banks: seq<Bank>, x: int, z: int) {
    exists i, s | 0 <= i < |banks| && 0 <= s < |banks[i].starts| :: InSector(banks[i], s, x)
        && z == SectorEnd(banks[i], s)
  }

  lemma ApartBanks(banks: seq<Bank>, i: nat, j: nat)
    requires Disjoint(banks) && i < |banks| && j < |banks| && i != j && banks[i].known && banks[j].known
    ensures Before(banks[i], banks[j]) || Before(banks[j], banks[i])
  {
  }

  /** Rounding goes up to the least sector end that does not lie before the address. */
  lemma RoundsToLeastEnd(banks: seq<Bank>, x: int, z: int, i: nat, s: nat)
    requires AllWellFormed(banks) && Disjoint(banks) && Rounds(banks, x, z)
    requires i < |banks| && s < |banks[i].starts| && x <= SectorEnd(banks[i], s)
    ensures x <= z <= SectorEnd(banks[i], s)
  {
    hide WellFormed, Disjoint;
    var j, t :| 0 <= j < |banks| && 0 <= t < |banks[j].starts| && InSector(banks[j], t, x)
        && z == SectorEnd(banks[j], t);
    SectorInBank(banks[j], t, x);
    SectorInBank(banks[j], t, z);
    if i == j {
      if s < t { SectorsAscend(banks[i], s, t); }
      if t < s { SectorsAscend(banks[i], t, s); }
    } else {
      var e := SectorEnd(banks[i], s);
      if s < |banks[i].starts| - 1 { SectorsAscend(banks[i], s, s + 1); } else { LastSector(banks[i]); }
      SectorInBank(banks[i], s, e);
      KnownBanks(banks[i], banks[j]);
      ApartBanks(banks, i, j);
    }
  }

  lemma LastSector(b: Bank)
    requires WellFormed(b) && b.starts != []
    ensures b.starts[|b.starts| - 1] <= BankEnd(b)
  {
  }

  lemma KnownBanks(b: Bank, c: Bank)
    requires WellFormed(b) && WellFormed(c) && b.starts != [] && c.starts != []
    ensures b.known && c.known
  {
  }

  /** A request of mapped addresses is tiled once its end has been rounded up. */
  lemma RoundedIsTiled(banks: seq<Bank>, a: int, x: int, z: int)
    requires AllWellFormed(banks) && Disjoint(banks) && a <= x && Rounds(banks, x, z)
    requires (forall y | a <= y <= x :: Mapped(banks, 0, y)) && StartsSector(banks, 0, a) && Ascending(banks, 0, a, x)
    ensures Tiled(banks, 0, a, z)
  {
    var j, t :| 0 <= j < |banks| && 0 <= t < |banks[j].starts| && InSector(banks[j], t, x)
        && z == SectorEnd(banks[j], t);
    SectorInBank(banks[j], t, x);
    SectorInBank(banks[j], t, z);
    forall y | a <= y <= z
      ensures Mapped(banks, 0, y)
    {
      assert x < y ==> InBank(banks[j], y);
    }
    assert LastAt(banks[j], z) >= 0;
    forall i | 0 <= i < |banks| && Overlaps(banks[i], a, z)
      ensures Overlaps(banks[i], a, x)
    {
      if i != j {
        ApartBanks(banks, i, j);
      }
    }
  }

  /**
    The erase and protect commands with a start and a length: every request that begins at a sector
    and lies in ascending banks is planned completely, up to the least sector end.
   */
  lemma LengthIsCovered(banks: seq<Bank>, a: int, len: nat, z: int)
    requires AllWellFormed(banks) && Disjoint(banks) && len > 0 && Rounds(banks, a + len - 1, z)
    requires forall y | a <= y <= a + len - 1 :: Mapped(banks, 0, y)
    requires StartsSector(banks, 0, a) && Ascending(banks, 0, a, a + len - 1)
    ensures a + len - 1 <= z && Final(banks, a, z).rc == 0
    ensures forall x :: Planned(banks, a, z, |banks|, x) <==> a <= x <= z
  {
    RoundedIsTiled(banks, a, a + len - 1, z);
    CompleteIffTiled(banks, a, z);
    SelectionIsGapFree(banks, a, z, |banks|);
  }

  lemma StartIsUnique(b: Bank, s: nat, t: nat, a: int)
    requires WellFormed(b) && s < |b.starts| && t < |b.starts| && InSector(b, s, a) && b.starts[t] == a
    ensures s == t
  {
    if t < s {
      SectorsAscend(b, t, s);
    } else if s < t {
      SectorsAscend(b, s, t);
    }
  }

  /** Nothing is planned for a request that does not begin at a sector. */
  lemma {:induction false} NoStartNoPlan(banks: seq<Bank>, a: int, z: int, k: nat)
    requires AllWellFormed(banks) && k <= |banks| && !StartsSector(banks, 0, a)
    ensures StateAt(banks, a, z, k).count == 0 && StateAt(banks, a, z, k).addr == a
  {
    if k == 0 {
    } else {
      NoStartNoPlan(banks, a, z, k - 1);
    }
  }

  /** The address is in a known bank and not its very last one. */
  predicate Within(b: Bank, a: int) {
    b.known && b.starts != [] && b.starts[0] <= a < BankEnd(b)
  }

  /** A bank that reports a request not starting at one of its sectors. */
  predicate Reports(b: Bank, a: int, z: int) {
    Within(b, a) || (b.known && LastAt(b, z) >= 0)
  }

  lemma UnalignedPick(b: Bank, a: int, z: int)
    requires WellFormed(b) && a <= z && (b.known ==> FirstAt(b, a) < 0)
    ensures PickBank(b, a, z).rc != 0 <==> Reports(b, a, z)
  {
    hide FirstAt, LastAt;
  }

  lemma {:induction false} NoStartIsReported(banks: seq<Bank>, a: int, z: int, k: nat)
    requires AllWellFormed(banks) && k <= |banks| && a <= z && !StartsSector(banks, 0, a)
    ensures StateAt(banks, a, z, k).rc != 0 <==> exists i | 0 <= i < k :: Reports(banks[i], a, z)
  {
    hide LastAt, FirstAt, PickBank, Reports, WellFormed;
    if k == 0 {
    } else {
      NoStartIsReported(banks, a, z, k - 1);
      NoStartNoPlan(banks, a, z, k - 1);
      UnalignedPick(banks[k - 1], a, z);
    }
  }

  /**
    A request that does not begin at a sector is reported as such exactly if it ends at the end of a
    sector or begins inside a bank, before its last address. Any other one is planned without an error.
   */
  lemma UnalignedIsReported(banks: seq<Bank>, a: int, z: int)
    requires AllWellFormed(banks) && a <= z && !StartsSector(banks, 0, a)
    ensures Final(banks, a, z).rc != 0
            <==> EndsSector(banks, 0, z) || exists i | 0 <= i < |banks| :: Within(banks[i], a)
  {
    hide LastAt, FirstAt, StateAt, Within;
    NoStartIsReported(banks, a, z, |banks|);
    if i :| 0 <= i < |banks| && banks[i].known && LastAt(banks[i], z) >= 0 {
      assert Reports(banks[i], a, z);
    }
    if i :| 0 <= i < |banks| && Within(banks[i], a) {
      assert Reports(banks[i], a, z);
    }
  }

  /**
    One bank of one sector of 16 addresses: a start in no bank is not reported, a start at the last
    address of the bank is reported only for an end there, a start inside the bank always.
   */
  lemma UnalignedRequests()
    ensures var banks := [Bank(true, [0], 16)];
            && AllWellFormed(banks) && Disjoint(banks)
            && (forall a | 0 < a :: !StartsSector(banks, 0, a))
            && Final(banks, 100, 200) == State(100, 0, 0)
            && Final(banks, 15, 20) == State(15, 0, 0)
            && Final(banks, 15, 15) == State(15, 0, 1)
            && Final(banks, 14, 20) == State(14, 0, 1)
  {
    var b := Bank(true, [0], 16);
    var banks := [b];
    forall a, z
      ensures Final(banks, a, z) == State(PickBank(b, a, z).next, Size(PickBank(b, a, z)), PickBank(b, a, z).rc)
    {
      assert StateAt(banks, a, z, 0) == State(a, 0, 0);
      assert StateAt(banks, a, z, 1).addr == PickBank(b, a, z).next;
    }
  }

  /**
    A length that makes the last address wrap around to one before the first, or a length of zero:
    even if rounding lifts it up past the first address again, nothing is planned.
   */
  lemma WrappedLengthPlansNothing(banks: seq<Bank>, a: int, x: int, z: int)
    requires AllWellFormed(banks) && Disjoint(banks) && x < a <= z && Rounds(banks, x, z)
    ensures Final(banks, a, z).count == 0
  {
    var j, t :| 0 <= j < |banks| && 0 <= t < |banks[j].starts| && InSector(banks[j], t, x)
        && z == SectorEnd(banks[j], t);
    if i :| 0 <= i < |banks| && banks[i].known && FirstAt(banks[i], a) >= 0 {
      StartInBank(banks[i], a);
      SectorInBank(banks[j], t, a);
      OnlyBank(banks, i, j, a);
      StartIsUnique(banks[j], t, FirstAt(banks[j], a), a);
      assert false;
    }
    NoStartNoPlan(banks, a, z, |banks|);
  }

  // ---------------------------------------------------------------------------------------------
  // The planner and its callers
  // ---------------------------------------------------------------------------------------------

  /** The last address of a request: the argument itself, or the rounded end of a start and a length. */
  method AddrSpecLast(banks: seq<Bank>, first: nat, arg: nat, lenUsed: bool) returns (ok: bool, last: int)
    requires AllWellFormed(banks) && first < SPACE && arg < SPACE
    ensures !lenUsed ==> ok && last == arg
    ensures lenUsed ==> var x := (first + arg - 1) % SPACE;
                        if ok then Rounds(banks, x, last) else !Mapped(banks, 0, x)
  {
    last := arg;
    if lenUsed {
      last := (first + arg - 1) % SPACE;
      ghost var x := last;
      var bank := 0;
      while bank < |banks|
        invariant bank <= |banks| && last == x
        invariant forall i, s | 0 <= i < bank && 0 <= s < |banks[i].starts| :: !InSector(banks[i], s, x)
      {
        var info := banks[bank];
        var i := 0;
        while i < |info.starts|
          invariant i <= |info.starts| && last == x
          invariant forall s | 0 <= s < i :: !InSector(info, s, x)
        {
          var sectorEnd := if i == |info.starts| - 1
              then info.starts[0] + info.size - 1 else info.starts[i + 1] as int - 1;
          if info.starts[i] <= last <= sectorEnd {
            if last < sectorEnd {
              last := sectorEnd;
            }
            assert InSector(banks[bank], i, x) && last == SectorEnd(banks[bank], i);
            return true, last;
          }
          i := i + 1;
        }
        bank := bank + 1;
      }
      if Mapped(banks, 0, x) {
        ghost var i :| 0 <= i < |banks| && banks[i].known && InBank(banks[i], x);
        ghost var s := SectorOf(banks[i], x);
        assert false;
      }
      return false, last;
    }
    ok := true;
  }

  /** Looks at all sectors of a bank for those where the request starts and ends. */
  method ScanBank(b: Bank, a: int, z: int) returns (first: int, last: int)
    requires WellFormed(b) && b.known && a <= z
    ensures first == FirstAt(b, a) && last == LastAt(b, z)
  {
    first, last := -1, -1;
    var bEnd := b.starts[0] + b.size - 1;
    var sEnd := |b.starts| - 1;
    var sect := 0;
    while sect < |b.starts|
      invariant sect <= |b.starts|
      invariant -1 <= first < sect && (if first >= 0 then b.starts[first] == a else a !in b.starts[..sect])
      invariant last == LastBelow(b, z, sect)
    {
      var end := if sect == sEnd then bEnd else b.starts[sect + 1] as int - 1;
      if sect < |b.starts| - 1 { SectorsAscend(b, sect, sect + 1); }
      if a <= end && b.starts[sect] <= z {
        if a == b.starts[sect] {
          first := sect;
        }
        if z == end {
          last := sect;
        }
      }
      sect := sect + 1;
    }
    assert b.starts[..sect] == b.starts;
    if first >= 0 {
      assert b.starts[FirstAt(b, a)] == b.starts[first];
    }
  }

  lemma PickUnknown(b: Bank, a: int, z: int)
    requires WellFormed(b) && !b.known
    ensures PickBank(b, a, z) == Pick(-1, -1, 0, a) && Size(PickBank(b, a, z)) == 0
  {
  }

  /** One round of the planner. */
  method PlanBank(info: Bank, addrFirst: int, addrLast: int)
    returns (first: int, last: int, rc: nat, a: int, count: int)
    requires WellFormed(info) && info.known && addrFirst <= addrLast
    ensures Pick(first, last, rc, a) == PickBank(info, addrFirst, addrLast)
    ensures count == Size(PickBank(info, addrFirst, addrLast))
  {
    rc, a, count := 0, addrFirst, 0;
    first, last := ScanBank(info, a, addrLast);
    var bEnd := info.starts[0] + info.size - 1;
    var sEnd := |info.starts| - 1;
    if first >= 0 {
      if last < 0 {
        if addrLast > bEnd {
          last := sEnd;
        } else {
          rc := 1;
          return;
        }
      }
      if last < first {
        rc := 1;
        return;
      }
      a := if last == sEnd then bEnd + 1 else info.starts[last + 1];
      count := last - first + 1;
    } else if info.starts[0] <= a < bEnd {
      rc := 1;
    } else if last >= 0 {
      rc := 1;
    }
  }

  /** The planner: fills in the first and last sector for every bank. */
  method FillSectRanges(banks: seq<Bank>, addrFirst: int, addrLast: int, sFirst: array<int>, sLast: array<int>)
    returns (rc: nat, count: int)
    requires AllWellFormed(banks) && sFirst != sLast && sFirst.Length == sLast.Length == |banks|
    modifies sFirst, sLast
    ensures rc == Final(banks, addrFirst, addrLast).rc && count == Final(banks, addrFirst, addrLast).count
    ensures forall i | 0 <= i < |banks| :: sFirst[i] == PickAt(banks, addrFirst, addrLast, i).first
    ensures forall i | 0 <= i < |banks| :: sLast[i] == PickAt(banks, addrFirst, addrLast, i).last
  {
    hide PickBank, WellFormed, Size;
    rc, count := 0, 0;
    var i := 0;
    while i < |banks|
      invariant i <= |banks|
      invariant forall j | 0 <= j < i :: sFirst[j] == -1 && sLast[j] == -1
    {
      sFirst[i] := -1;
      sLast[i] := -1;
      i := i + 1;
    }
    var a := addrFirst;
    var bank := 0;
    while bank < |banks| && a <= addrLast && rc == 0
      invariant bank <= |banks|
      invariant StateAt(banks, addrFirst, addrLast, bank) == State(a, count, rc)
      invariant forall j | 0 <= j < bank :: sFirst[j] == PickAt(banks, addrFirst, addrLast, j).first
      invariant forall j | 0 <= j < bank :: sLast[j] == PickAt(banks, addrFirst, addrLast, j).last
      invariant forall j | bank <= j < |banks| :: sFirst[j] == -1 && sLast[j] == -1
      decreases |banks| - bank
    {
      var info := banks[bank];
      if info.known {
        var n;
        sFirst[bank], sLast[bank], rc, a, n := PlanBank(info, a, addrLast);
        count := count + n;
      } else {
        PickUnknown(info, a, addrLast);
      }
      bank := bank + 1;
    }
    Rest(banks, addrFirst, addrLast, bank);
  }

  /** After an error or at the end of the request the remaining banks contribute nothing. */
  lemma {:induction false} Rest(banks: seq<Bank>, a: int, z: int, k: nat)
    requires AllWellFormed(banks) && k <= |banks|
    requires k < |banks| ==> StateAt(banks, a, z, k).rc != 0 || z < StateAt(banks, a, z, k).addr
    ensures Final(banks, a, z) == StateAt(banks, a, z, k)
    ensures forall j | k <= j < |banks| :: PickAt(banks, a, z, j).first == -1 && PickAt(banks, a, z, j).last == -1
    decreases |banks| - k
  {
    hide WellFormed, FirstAt, LastAt;
    if k == |banks| {
    } else {
      Rest(banks, a, z, k + 1);
    }
  }

  lemma SelectedNone(banks: seq<Bank>, a: int, z: int)
    requires AllWellFormed(banks)
    ensures SelectedSet(banks, a, z, 0) == {}
  {
  }

  lemma SelectedNext(banks: seq<Bank>, a: int, z: int, k: nat)
    requires AllWellFormed(banks) && k < |banks| && PickAt(banks, a, z, k).rc == 0
    ensures var p := PickAt(banks, a, z, k);
            SelectedSet(banks, a, z, k + 1)
            == SelectedSet(banks, a, z, k) + (if p.first >= 0 then Run(k, p.first, p.last) else {})
  {
    hide PickAt, Run;
  }

  /** The chips of the first banks reported success wherever something was planned. */
  ghost predicate Succeeded(banks: seq<Bank>, a: int, z: int, answers: seq<nat>, k: int)
    requires AllWellFormed(banks) && |answers| == |banks|
  {
    forall i | 0 <= i < |banks| && i < k :: Picked(PickAt(banks, a, z, i)) ==> answers[i] == 0
  }

  /**
    Erases the planned sectors bank by bank until a chip reports an error; `answers` are what the
    chips report, `tried` is the number of banks that were looked at.
   */
  method SectErase(banks: seq<Bank>, addrFirst: int, addrLast: int, answers: seq<nat>)
    returns (rc: nat, erased: set<(nat, nat)>, tried: nat)
    requires AllWellFormed(banks) && |answers| == |banks|
    ensures tried <= |banks| && erased == SelectedSet(banks, addrFirst, addrLast, tried)
    ensures var f := Final(banks, addrFirst, addrLast);
            if f.rc != 0 || f.count == 0 then rc == 1 && tried == 0 && erased == {}
            else if rc == 0 then tried == |banks|
            else 0 < tried && answers[tried - 1] == rc && Picked(PickAt(banks, addrFirst, addrLast, tried - 1))
    ensures rc == 0 || tried > 0 ==>
              Succeeded(banks, addrFirst, addrLast, answers, if rc == 0 then tried else tried - 1)
  {
    hide PickAt, StateAt, WellFormed, Run, Row, SelectedSet;
    var sFirst, sLast := new int[|banks|], new int[|banks|];
    var planned;
    rc, planned := FillSectRanges(banks, addrFirst, addrLast, sFirst, sLast);
    SelectedNone(banks, addrFirst, addrLast);
    erased, tried := {}, 0;
    if planned != 0 && rc == 0 {
      while tried < |banks| && rc == 0
        invariant tried <= |banks| && erased == SelectedSet(banks, addrFirst, addrLast, tried)
        invariant Succeeded(banks, addrFirst, addrLast, answers, if rc == 0 then tried else tried - 1)
        invariant forall i | 0 <= i < |banks| :: sFirst[i] == PickAt(banks, addrFirst, addrLast, i).first
        invariant forall i | 0 <= i < |banks| :: sLast[i] == PickAt(banks, addrFirst, addrLast, i).last
        invariant rc != 0 ==>
                    tried > 0 && answers[tried - 1] == rc && Picked(PickAt(banks, addrFirst, addrLast, tried - 1))
        decreases |banks| - tried
      {
        NoErrorBefore(banks, addrFirst, addrLast, tried);
        SelectedNext(banks, addrFirst, addrLast, tried);
        if sFirst[tried] >= 0 {
          erased := erased + Run(tried, sFirst[tried], sLast[tried]);
          rc := answers[tried];
        }
        tried := tried + 1;
      }
    } else if rc == 0 {
      rc := 1;
    } else {
      FinalIsOne(banks, addrFirst, addrLast, |banks|);
    }
  }

  lemma {:induction false} FinalIsOne(banks: seq<Bank>, a: int, z: int, k: nat)
    requires AllWellFormed(banks) && k <= |banks|
    ensures StateAt(banks, a, z, k).rc <= 1
  {
    if k == 0 {
    } else {
      FinalIsOne(banks, a, z, k - 1);
    }
  }

  lemma {:induction false} NoErrorBefore(banks: seq<Bank>, a: int, z: int, i: nat)
    requires AllWellFormed(banks) && i < |banks| && Final(banks, a, z).rc == 0
    ensures StateAt(banks, a, z, i).rc == 0 && PickAt(banks, a, z, i).rc == 0
    decreases |banks| - i
  {
    if i + 1 == |banks| {
    } else {
      NoErrorBefore(banks, a, z, i + 1);
    }
  }

  method SetFlags(flags: array<bool>, first: nat, last: nat, p: bool)
    requires first <= last < flags.Length
    modifies flags
    ensures forall s | 0 <= s < flags.Length :: flags[s] == if first <= s <= last then p else old(flags[s])
  {
    var i := first;
    while i <= last
      invariant first <= i <= last + 1
      invariant forall s | 0 <= s < flags.Length :: flags[s] == if first <= s < i then p else old(flags[s])
    {
      flags[i] := p;
      i := i + 1;
    }
  }

  /** The flags of one bank: the planned sectors have the new value, the others the old one. */
  ghost predicate Flagged(p: bool, banks: seq<Bank>, a: int, z: int, i: nat, was: seq<bool>, now: seq<bool>)
    requires AllWellFormed(banks) && i < |banks|
  {
    |was| == |now| && forall s | 0 <= s < |now| :: now[s] == if Selected(banks, a, z, i, s) then p else was[s]
  }

  method ProtectBank(p: bool, banks: seq<Bank>, flags: array<bool>, ghost a: int, ghost z: int, bank: nat,
      first: int, last: int)
    requires AllWellFormed(banks) && bank < |banks| && flags.Length == |banks[bank].starts|
    requires PickAt(banks, a, z, bank).rc == 0
    requires first == PickAt(banks, a, z, bank).first && last == PickAt(banks, a, z, bank).last
    modifies flags
    ensures Flagged(p, banks, a, z, bank, old(flags[..]), flags[..])
  {
    PickAtIsRun(banks, a, z, bank);
    hide PickAt, WellFormed;
    if banks[bank].known && first >= 0 && first <= last {
      SetFlags(flags, first, last, p);
    }
  }

  /** Sets or clears the protection flags of the planned sectors, and of no others. */
  method SectProtect(p: bool, banks: seq<Bank>, flags: seq<array<bool>>, addrFirst: int, addrLast: int)
    returns (rc: nat)
    requires AllWellFormed(banks) && |flags| == |banks|
    requires forall i | 0 <= i < |banks| :: flags[i].Length == |banks[i].starts|
    requires forall i, j | 0 <= i < j < |banks| :: flags[i] != flags[j]
    modifies flags
    ensures var f := Final(banks, addrFirst, addrLast); rc == if f.rc != 0 || f.count == 0 then 1 else 0
    ensures rc == 0 ==> forall i | 0 <= i < |banks| ::
                          Flagged(p, banks, addrFirst, addrLast, i, old(flags[i][..]), flags[i][..])
    ensures rc != 0 ==> forall i | 0 <= i < |banks| :: flags[i][..] == old(flags[i][..])
  {
    hide PickAt, StateAt, WellFormed, Flagged, Selected;
    var sFirst, sLast := new int[|banks|], new int[|banks|];
    var planned;
    rc, planned := FillSectRanges(banks, addrFirst, addrLast, sFirst, sLast);
    FinalIsOne(banks, addrFirst, addrLast, |banks|);
    if planned != 0 && rc == 0 {
      var bank := 0;
      while bank < |banks|
        invariant bank <= |banks|
        invariant forall i | 0 <= i < |banks| :: sFirst[i] == PickAt(banks, addrFirst, addrLast, i).first
        invariant forall i | 0 <= i < |banks| :: sLast[i] == PickAt(banks, addrFirst, addrLast, i).last
        invariant forall i | 0 <= i < bank ::
                    Flagged(p, banks, addrFirst, addrLast, i, old(flags[i][..]), flags[i][..])
        invariant forall i | bank <= i < |banks| :: flags[i][..] == old(flags[i][..])
      {
        NoErrorBefore(banks, addrFirst, addrLast, bank);
        ProtectBank(p, banks, flags[bank], addrFirst, addrLast, bank, sFirst[bank], sLast[bank]);
        bank := bank + 1;
      }
    } else if rc == 0 {
      rc := 1;
    }
  }

}
