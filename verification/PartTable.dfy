/**
  The table of MTD devices and their partitions, and the partition that is "current".

  A device keeps its partitions in a list ordered by offset. The current partition is remembered as
  a device and an 8-bit index into its list, which inserts and deletes have to adjust.
 */
module PartTable {

  import opened Basics

  import MtdParts

  /** A partition object; only its size changes, when it is filled in by the validation. */
  class PartInfo {
    const offset: MtdParts.U32
    const name: Option<string>
    const flags: MtdParts.U32
    var size: MtdParts.U32

    constructor (x: MtdParts.Part)
      ensures Value() == x
    {
      offset, name, flags, size := x.offset, x.name, x.flags, x.size;
    }

    function Value(): MtdParts.Part
      reads this
    {
      MtdParts.Part(size, offset, name, flags)
    }
  }

  class MtdDevice {
    const id: MtdParts.MtdId
    var parts: seq<PartInfo>
    var numParts: nat

    /** The 16-bit counter is the length of the list, as long as that fits. */
    ghost predicate Counted()
      reads this
    {
      numParts == Count(parts)
    }

    constructor (id: MtdParts.MtdId)
      ensures parts == [] && Counted() && this.id == id
    {
      this.id, parts, numParts := id, [], 0;
    }
  }

  // ---------------------------------------------------------------------------------------------
  // Ordered lists
  // ---------------------------------------------------------------------------------------------

  /** The length of a list as a 16-bit counter. */
  function Count(ps: seq<PartInfo>): nat {
    |ps| % 0x1_0000
  }

  ghost predicate Sorted(ps: seq<PartInfo>) {
    forall i, j | 0 <= i < j < |ps| :: ps[i].offset <= ps[j].offset
  }

  ghost predicate NoDuplicates<T>(s: seq<T>) {
    forall i, j | 0 <= i < j < |s| :: s[i] != s[j]
  }

  /** Where a partition with this offset goes: before the first one that does not lie before it. */
  function Slot(ps: seq<PartInfo>, offset: nat): (k: nat)
    ensures k <= |ps|
    ensures forall i | 0 <= i < k :: ps[i].offset < offset
    ensures k < |ps| ==> offset <= ps[k].offset
  {
    if ps == [] || offset <= ps[0].offset then 0 else 1 + Slot(ps[1..], offset)
  }

  function InsertAt<T>(s: seq<T>, k: nat, x: T): (r: seq<T>)
    requires k <= |s|
    ensures |r| == |s| + 1
    ensures forall i | 0 <= i < |r| :: r[i] == if i < k then s[i] else if i == k then x else s[i - 1]
  {
    s[..k] + [x] + s[k..]
  }

  function Insert(ps: seq<PartInfo>, x: PartInfo): seq<PartInfo> {
    InsertAt(ps, Slot(ps, x.offset), x)
  }

  function Remove<T(==)>(s: seq<T>, x: T): (r: seq<T>)
    requires x in s
    ensures var k := IndexOf(s, x);
            |r| == |s| - 1 && forall i | 0 <= i < |r| :: r[i] == if i < k then s[i] else s[i + 1]
  {
    var k := IndexOf(s, x);
    s[..k] + s[k + 1..]
  }

  /** A second partition at offset zero is refused. */
  predicate Refused(ps: seq<PartInfo>, x: PartInfo) {
    ps != [] && x.offset == 0 && ps[0].offset == 0
  }

  /** A number cut to an 8-bit index. */
  function EightBits(n: int): (b: nat)
    ensures b < 256
    ensures 0 <= n < 256 ==> b == n
    ensures b == if n == 256 then 0 else if n == -1 then 255 else b
  {
    n % 256
  }

  /** An insert moves the index of the current partition up if it goes in at or before it. */
  function IndexAfterInsert(ps: seq<PartInfo>, x: PartInfo, cur: nat): nat {
    var k := Slot(ps, x.offset);
    if cur < Count(ps) && k < |ps| && ps[k].offset <= ps[cur].offset then EightBits(cur + 1) else cur
  }

  function IndexAfterDelete(ps: seq<PartInfo>, x: PartInfo, cur: nat): nat {
    if cur < Count(ps) then
      if ps[cur] == x then 0
      else if x.offset <= ps[cur].offset then EightBits(cur - 1)
      else cur
    else cur
  }

  lemma InsertKeepsOrder(ps: seq<PartInfo>, x: PartInfo)
    requires Sorted(ps) && NoDuplicates(ps) && x !in ps
    ensures Sorted(Insert(ps, x)) && NoDuplicates(Insert(ps, x))
    ensures forall y :: y in Insert(ps, x) <==> y == x || y in ps
  {
    InsertKeepsSorted(ps, x);
    InsertAddsOne(ps, Slot(ps, x.offset), x);
  }

  lemma InsertKeepsSorted(ps: seq<PartInfo>, x: PartInfo)
    requires Sorted(ps)
    ensures Sorted(Insert(ps, x))
  {
    hide Slot;
  }

  lemma InsertAddsOne<T>(s: seq<T>, k: nat, x: T)
    requires k <= |s| && NoDuplicates(s) && x !in s
    ensures NoDuplicates(InsertAt(s, k, x))
    ensures forall y :: y in InsertAt(s, k, x) <==> y == x || y in s
  {
    var r := InsertAt(s, k, x);
    assert r[k] == x;
    forall y | y in s
      ensures y in r
    {
      var i := IndexOf(s, y);
      assert y == if i < k then r[i] else r[i + 1];
    }
  }

  lemma SortedAt(ps: seq<PartInfo>, i: nat, j: nat)
    requires Sorted(ps) && i <= j < |ps|
    ensures ps[i].offset <= ps[j].offset
  {
  }

  lemma IndexIsSlot(ps: seq<PartInfo>, x: PartInfo, cur: nat)
    requires Sorted(ps) && cur < |ps| < 0x1_0000 && cur < 256
    ensures IndexAfterInsert(ps, x, cur) == if Slot(ps, x.offset) <= cur then EightBits(cur + 1) else cur
  {
    hide EightBits, Sorted;
    var k := Slot(ps, x.offset);
    if k > cur {
      assert ps[cur].offset < x.offset;
    } else {
      SortedAt(ps, k, cur);
    }
  }

  /** An insert keeps the same partition current exactly if the 8-bit index does not wrap around. */
  lemma InsertKeepsCurrent(ps: seq<PartInfo>, x: PartInfo, cur: nat)
    requires Sorted(ps) && NoDuplicates(ps) && x !in ps && cur < |ps| < 0x1_0000 && cur < 256
    ensures IndexAfterInsert(ps, x, cur) < |Insert(ps, x)|
    ensures Insert(ps, x)[IndexAfterInsert(ps, x, cur)] == ps[cur] <==> cur < 255 || Slot(ps, x.offset) > cur
  {
    hide IndexAfterInsert, EightBits, Sorted, Slot;
    IndexIsSlot(ps, x, cur);
    var k := Slot(ps, x.offset);
    assert x != ps[cur];
    if k <= cur == 255 {
      assert InsertAt(ps, k, x)[0] == if k == 0 then x else ps[0];
    }
  }

  lemma RemoveKeepsOrder(ps: seq<PartInfo>, x: PartInfo)
    requires Sorted(ps) && NoDuplicates(ps) && x in ps
    ensures Sorted(Remove(ps, x)) && NoDuplicates(Remove(ps, x))
    ensures forall y :: y in Remove(ps, x) <==> y != x && y in ps
  {
    RemoveIsSetMinus(ps, x);
  }

  lemma RemoveIsSetMinus<T>(s: seq<T>, x: T)
    requires NoDuplicates(s) && x in s
    ensures NoDuplicates(Remove(s, x))
    ensures forall y :: y in Remove(s, x) <==> y != x && y in s
  {
    var r, k := Remove(s, x), IndexOf(s, x);
    forall y | y != x && y in s
      ensures y in r
    {
      var i := IndexOf(s, y);
      assert y == if i < k then r[i] else r[i - 1];
    }
  }

  /**
    A delete of another partition keeps the current one exactly if the deleted one does not lie
    behind the current one at an equal offset.
   */
  lemma RemoveKeepsCurrent(ps: seq<PartInfo>, x: PartInfo, cur: nat)
    requires Sorted(ps) && NoDuplicates(ps) && x in ps && cur < |ps| < 0x1_0000 && cur < 256 && ps[cur] != x
    ensures var r, c := Remove(ps, x), IndexAfterDelete(ps, x, cur);
            (c < |r| && r[c] == ps[cur]) <==> !(cur < IndexOf(ps, x) && x.offset == ps[cur].offset)
  {
    hide IndexOf, EightBits, Sorted;
    var r, c, k := Remove(ps, x), IndexAfterDelete(ps, x, cur), IndexOf(ps, x);
    if k < cur {
      SortedAt(ps, k, cur);
      assert r[cur - 1] == ps[cur];
    } else {
      SortedAt(ps, cur, k);
      if c != cur && c < |r| {
        assert r[c] == if c < k then ps[c] else ps[c + 1];
      }
    }
  }

  /**
    What becomes current when it is lost: after an insert always a partition, after a delete none if
    the index was zero and is now beyond the list.
   */
  lemma LostByDelete(ps: seq<PartInfo>, x: PartInfo, cur: nat)
    requires Sorted(ps) && NoDuplicates(ps) && x in ps && cur < |ps| < 0x1_0000 && cur < 256
    requires cur < IndexOf(ps, x) && x.offset == ps[cur].offset
    ensures var r, c := Remove(ps, x), IndexAfterDelete(ps, x, cur);
            && c == (if cur == 0 then 255 else cur - 1)
            && (c < |r| ==> r[c] != ps[cur])
            && (c < |r| <==> cur > 0 || |ps| > 256)
  {
    assert ps[cur] != x;
    RemoveKeepsCurrent(ps, x, cur);
  }

  /** Two partitions at offset 4096, the first one current: deleting the second leaves none current. */
  lemma EqualOffsetDelete(a: PartInfo, b: PartInfo)
    requires a != b && a.offset == b.offset == 4096
    ensures Sorted([a, b]) && NoDuplicates([a, b])
    ensures IndexAfterDelete([a, b], b, 0) == 255 && Remove([a, b], b) == [a]
  {
    var ps := [a, b];
    assert IndexOf(ps, b) == 1;
    LostByDelete(ps, b, 0);
  }

  /** With 256 partitions and the last one current, a partition put in front makes itself current. */
  lemma WrappedInsert(ps: seq<PartInfo>, x: PartInfo)
    requires |ps| == 256 && NoDuplicates(ps) && x !in ps && x.offset == 4096
    requires forall i | 0 <= i < 256 :: ps[i].offset == 4096 * (i + 1)
    ensures Sorted(ps) && IndexAfterInsert(ps, x, 255) == 0 && Insert(ps, x)[0] == x
  {
    IndexIsSlot(ps, x, 255);
  }

  // ---------------------------------------------------------------------------------------------
  // The table as a value, and its edits
  // ---------------------------------------------------------------------------------------------

  datatype Table = Table(devices: seq<MtdDevice>, lists: map<MtdDevice, seq<PartInfo>>, dev: MtdDevice?, num: nat)

  datatype Edit =
    | AddPart(d: MtdDevice, x: PartInfo)
    | DeletePart(d: MtdDevice, x: PartInfo)
    | AddDevice(d: MtdDevice, ps: seq<PartInfo>)
    | DeleteDevice(d: MtdDevice)

  predicate Possible(t: Table, e: Edit) {
    match e
    case AddPart(d, x) => d in t.devices && d in t.lists
    case DeletePart(d, x) => d in t.devices && d in t.lists && x in t.lists[d]
    case AddDevice(d, ps) => d !in t.devices
    case DeleteDevice(d) => d in t.devices
  }

  function WithoutDevice(t: Table, d: MtdDevice): Table
    requires d in t.devices
  {
    var rest := Remove(t.devices, d);
    if t.dev != d then t.(devices := rest, lists := t.lists - {d})
    else if rest == [] then Table(rest, t.lists - {d}, null, t.num)
    else Table(rest, t.lists - {d}, rest[0], 0)
  }

  function Apply(t: Table, e: Edit): Table
    requires Possible(t, e)
  {
    match e
    case AddPart(d, x) =>
      if Refused(t.lists[d], x) then t
      else t.(lists := t.lists[d := Insert(t.lists[d], x)],
              num := if t.dev == d then IndexAfterInsert(t.lists[d], x, t.num) else t.num)
    case DeletePart(d, x) =>
      if Count(t.lists[d]) == 1 then WithoutDevice(t, d)
      else t.(lists := t.lists[d := Remove(t.lists[d], x)],
              num := if t.dev == d then IndexAfterDelete(t.lists[d], x, t.num) else t.num)
    case AddDevice(d, ps) =>
      var lists := t.lists[d := ps];
      if t.devices == [] then Table([d], lists, d, 0) else t.(devices := t.devices + [d], lists := lists)
    case DeleteDevice(d) =>
      WithoutDevice(t, d)
  }

  /** The partition the table points at, null if there is none. */
  function Current(t: Table): PartInfo? {
    if t.dev != null && t.dev in t.lists && t.num < |t.lists[t.dev]| then t.lists[t.dev][t.num] else null
  }

  ghost predicate GoodList(ps: seq<PartInfo>) {
    ps != [] && |ps| < 0x1_0000 && Sorted(ps) && NoDuplicates(ps)
  }

  /** A partition is in one list only. */
  ghost predicate Apart(lists: map<MtdDevice, seq<PartInfo>>) {
    forall d, e, x | d in lists && e in lists && d != e && x in lists[d] :: x !in lists[e]
  }

  /**
    The state the edits are to keep: ordered lists without repetitions, and a current index that
    points at a partition whenever there is one.
   */
  ghost predicate Consistent(t: Table) {
    && NoDuplicates(t.devices)
    && (forall d | d in t.lists :: d in t.devices)
    && (forall d | d in t.devices :: d in t.lists)
    && (forall d | d in t.lists :: GoodList(t.lists[d]))
    && Apart(t.lists)
    && (if t.devices == [] then t.dev == null
        else t.dev != null && t.dev in t.lists && t.num < |t.lists[t.dev]| && t.num < 256)
  }

  /** A partition not in the table yet. */
  ghost predicate New(t: Table, x: PartInfo) {
    forall d | d in t.lists :: x !in t.lists[d]
  }

  /** Edits with new objects only, and without a counter overflow. */
  ghost predicate Sensible(t: Table, e: Edit) {
    match e
    case AddPart(d, x) => New(t, x) && (d in t.lists ==> |t.lists[d]| < 0xFFFF)
    case DeletePart(d, x) => true
    case AddDevice(d, ps) => GoodList(ps) && forall x | x in ps :: New(t, x)
    case DeleteDevice(d) => true
  }

  /** The guard of the two cases in which an edit loses track of the current partition. */
  ghost predicate Harmless(t: Table, e: Edit)
    requires Consistent(t) && Possible(t, e)
  {
    match e
    case AddPart(d, x) =>
      t.dev == d && !Refused(t.lists[d], x) ==> t.num < 255 || Slot(t.lists[d], x.offset) > t.num
    case DeletePart(d, x) =>
      t.dev == d ==> !(t.num < IndexOf(t.lists[d], x) && x.offset == t.lists[d][t.num].offset)
    case AddDevice(d, ps) => true
    case DeleteDevice(d) => true
  }

  ghost predicate Removes(t: Table, e: Edit, x: PartInfo?) {
    match e
    case AddPart(d, y) => false
    case DeletePart(d, y) => y == x
    case AddDevice(d, ps) => false
    case DeleteDevice(d) => d in t.lists && x in t.lists[d]
  }

  /** The partition that has to be current after an edit: the same, or the first one that is left. */
  ghost function Expected(t: Table, e: Edit): PartInfo?
    requires Consistent(t) && Possible(t, e) && Sensible(t, e)
  {
    if t.dev == null then if e.AddDevice? then e.ps[0] else null
    else if !Removes(t, e, Current(t)) then Current(t)
    else if e.DeletePart? && |t.lists[e.d]| > 1 then Remove(t.lists[e.d], e.x)[0]
    else
      var rest := Remove(t.devices, e.d);
      if rest == [] then null else if rest[0] in t.lists then t.lists[rest[0]][0] else null
  }

  /** Replacing one list by another good one that holds no partition of another device. */
  lemma ReplaceList(t: Table, d: MtdDevice, ps: seq<PartInfo>, num: nat)
    requires Consistent(t) && d in t.lists && GoodList(ps)
    requires forall y | y in ps :: y in t.lists[d] || New(t, y)
    requires if t.dev == d then num < |ps| && num < 256 else num == t.num
    ensures Consistent(t.(lists := t.lists[d := ps], num := num))
  {
    hide GoodList, NoDuplicates;
  }

  lemma AddPartStep(t: Table, d: MtdDevice, x: PartInfo)
    requires Consistent(t) && Possible(t, AddPart(d, x)) && Sensible(t, AddPart(d, x))
    ensures Consistent(Apply(t, AddPart(d, x)))
    ensures Current(Apply(t, AddPart(d, x))) == Expected(t, AddPart(d, x)) <==> Harmless(t, AddPart(d, x))
  {
    InsertKeepsOrder(t.lists[d], x);
    var num := if t.dev == d then IndexAfterInsert(t.lists[d], x, t.num) else t.num;
    if t.dev == d {
      InsertKeepsCurrent(t.lists[d], x, t.num);
    }
    hide Slot, InsertAt, Sorted, NoDuplicates, EightBits, IndexAfterInsert, Apart;
    ReplaceList(t, d, Insert(t.lists[d], x), num);
    hide Insert, Consistent;
  }

  /** The table without one device, whatever is current then. */
  lemma Shrunk(t: Table, d: MtdDevice, rest: seq<MtdDevice>, dev: MtdDevice?, num: nat)
    requires Consistent(t) && NoDuplicates(rest)
    requires forall y | y in rest :: y in t.devices && y != d
    requires forall y | y in t.devices && y != d :: y in rest
    requires if rest == [] then dev == null
             else dev != null && dev in rest && dev in t.lists && num < |t.lists[dev]| && num < 256
    ensures Consistent(Table(rest, t.lists - {d}, dev, num))
  {
    hide GoodList, NoDuplicates;
  }

  lemma RestOfDevices(devices: seq<MtdDevice>, d: MtdDevice)
    requires NoDuplicates(devices) && d in devices
    ensures NoDuplicates(Remove(devices, d))
    ensures forall y | y in Remove(devices, d) :: y in devices && y != d
    ensures forall y | y in devices && y != d :: y in Remove(devices, d)
    ensures Remove(devices, d) != [] ==> Remove(devices, d)[0] in Remove(devices, d)
  {
    RemoveIsSetMinus(devices, d);
  }

  lemma WithoutDeviceKeeps(t: Table, d: MtdDevice)
    requires Consistent(t) && d in t.devices
    ensures Consistent(WithoutDevice(t, d))
  {
    RestOfDevices(t.devices, d);
    var rest := Remove(t.devices, d);
    if rest != [] {
      SomePartition(t, rest[0]);
    }
    var r := WithoutDevice(t, d);
    hide GoodList, NoDuplicates, Remove, Apart;
    Shrunk(t, d, rest, r.dev, r.num);
    assert r == Table(rest, t.lists - {d}, r.dev, r.num);
  }

  /** The current partition is in the list of the current device and in no other. */
  lemma CurrentIsIn(t: Table, d: MtdDevice)
    requires Consistent(t) && d in t.devices
    ensures Current(t) in t.lists[d] <==> t.dev == d
  {
    hide GoodList, NoDuplicates;
    assert Current(t) in t.lists[t.dev];
  }

  lemma DeletedIndexFits(ps: seq<PartInfo>, x: PartInfo, cur: nat)
    requires GoodList(ps) && x in ps && |ps| > 1 && cur < |ps| && cur < 256
    requires !(cur < IndexOf(ps, x) && x.offset == ps[cur].offset)
    ensures IndexAfterDelete(ps, x, cur) < |ps| - 1 && IndexAfterDelete(ps, x, cur) < 256
  {
    if ps[cur] != x {
      RemoveKeepsCurrent(ps, x, cur);
    }
  }

  lemma DeletePartKeeps(t: Table, d: MtdDevice, x: PartInfo)
    requires Consistent(t) && Possible(t, DeletePart(d, x)) && |t.lists[d]| > 1 && Harmless(t, DeletePart(d, x))
    ensures Consistent(Apply(t, DeletePart(d, x)))
  {
    hide Sorted, NoDuplicates, EightBits, Apart, Remove, IndexOf, IndexAfterDelete;
    var ps := t.lists[d];
    RemoveKeepsOrder(ps, x);
    if t.dev == d {
      DeletedIndexFits(ps, x, t.num);
    }
    RemoveLength(ps, x);
    ReplaceList(t, d, Remove(ps, x), if t.dev == d then IndexAfterDelete(ps, x, t.num) else t.num);
  }

  lemma RemoveLength<T>(s: seq<T>, x: T)
    requires x in s
    ensures |Remove(s, x)| == |s| - 1
  {
  }

  lemma DeleteOther(t: Table, d: MtdDevice, x: PartInfo)
    requires Consistent(t) && Possible(t, DeletePart(d, x)) && |t.lists[d]| > 1 && t.dev != d
    ensures Current(Apply(t, DeletePart(d, x))) == Expected(t, DeletePart(d, x)) && Harmless(t, DeletePart(d, x))
  {
    CurrentIsIn(t, d);
    hide GoodList, NoDuplicates, EightBits, Apart, Remove, IndexOf;
    assert Current(t) != x;
  }

  lemma DeleteCurrent(t: Table, d: MtdDevice, x: PartInfo)
    requires Consistent(t) && Possible(t, DeletePart(d, x)) && |t.lists[d]| > 1 && t.dev == d && t.lists[d][t.num] == x
    ensures Current(Apply(t, DeletePart(d, x))) == Expected(t, DeletePart(d, x)) && Harmless(t, DeletePart(d, x))
  {
    SameIndex(t.lists[d], x, t.num);
    RemoveLength(t.lists[d], x);
    hide Sorted, NoDuplicates, EightBits, Apart, Remove, IndexOf;
  }

  lemma DeletePartStep(t: Table, d: MtdDevice, x: PartInfo)
    requires Consistent(t) && Possible(t, DeletePart(d, x)) && |t.lists[d]| > 1
    ensures Current(Apply(t, DeletePart(d, x))) == Expected(t, DeletePart(d, x)) <==> Harmless(t, DeletePart(d, x))
  {
    hide Sorted, NoDuplicates, EightBits, Apart, Remove, IndexOf, IndexAfterDelete;
    if t.dev != d {
      DeleteOther(t, d, x);
    } else if t.lists[d][t.num] == x {
      DeleteCurrent(t, d, x);
    } else {
      RemoveKeepsCurrent(t.lists[d], x, t.num);
    }
  }

  lemma SameIndex(ps: seq<PartInfo>, x: PartInfo, k: nat)
    requires NoDuplicates(ps) && k < |ps| && ps[k] == x
    ensures IndexOf(ps, x) == k
  {
  }

  lemma WithoutDeviceStep(t: Table, d: MtdDevice)
    requires Consistent(t) && d in t.devices
    ensures Current(WithoutDevice(t, d)) == Expected(t, DeleteDevice(d))
  {
    CurrentIsIn(t, d);
    RemoveIsSetMinus(t.devices, d);
    var rest := Remove(t.devices, d);
    assert rest != [] ==> rest[0] in rest;
    hide GoodList, NoDuplicates, Apart, Remove;
    if t.dev == d && rest != [] {
      assert |t.lists[rest[0]]| > 0 by {
        SomePartition(t, rest[0]);
      }
    }
  }

  lemma SomePartition(t: Table, d: MtdDevice)
    requires Consistent(t) && d in t.devices
    ensures t.lists[d] != []
  {
    assert GoodList(t.lists[d]);
  }

  /** The devices are in the order in which they were added. */
  lemma DevicesAreQueued(t: Table, e: Edit)
    requires Possible(t, e)
    ensures match e
            case AddDevice(d, ps) => Apply(t, e).devices == t.devices + [d] && Apply(t, e).lists == t.lists[d := ps]
            case AddPart(d, x) => Apply(t, e).devices == t.devices
            case DeletePart(d, x) => |t.lists[d]| > 1 && |t.lists[d]| < 0x1_0000 ==> Apply(t, e).devices == t.devices
            case DeleteDevice(d) =>
              exists k | 0 <= k < |t.devices| :: t.devices[k] == d
                && Apply(t, e).devices == t.devices[..k] + t.devices[k + 1..]
  {
    match e
    case AddPart(d, x) =>
    case DeletePart(d, x) =>
    case AddDevice(d, ps) =>
    case DeleteDevice(d) =>
      var k := IndexOf(t.devices, d);
      assert t.devices[k] == d;
  }

  lemma AddDeviceStep(t: Table, d: MtdDevice, ps: seq<PartInfo>)
    requires Consistent(t) && Possible(t, AddDevice(d, ps)) && Sensible(t, AddDevice(d, ps))
    ensures Consistent(Apply(t, AddDevice(d, ps)))
    ensures Current(Apply(t, AddDevice(d, ps))) == Expected(t, AddDevice(d, ps))
  {
  }

  lemma DeleteLastIs(t: Table, d: MtdDevice, x: PartInfo)
    requires Consistent(t) && Possible(t, DeletePart(d, x)) && |t.lists[d]| <= 1
    ensures t.lists[d] == [x] && Apply(t, DeletePart(d, x)) == WithoutDevice(t, d)
    ensures x == Current(t) <==> Current(t) in t.lists[d]
    ensures Harmless(t, DeletePart(d, x))
  {
    SomePartition(t, d);
    hide WithoutDevice, GoodList, NoDuplicates, Apart;
  }

  lemma DeleteLastStep(t: Table, d: MtdDevice, x: PartInfo)
    requires Consistent(t) && Possible(t, DeletePart(d, x)) && |t.lists[d]| <= 1
    ensures Consistent(Apply(t, DeletePart(d, x))) && Harmless(t, DeletePart(d, x))
    ensures Current(Apply(t, DeletePart(d, x))) == Expected(t, DeletePart(d, x))
  {
    hide Consistent, Current, Remove, WithoutDevice, Harmless;
    DeleteLastIs(t, d, x);
    WithoutDeviceKeeps(t, d);
    WithoutDeviceStep(t, d);
  }

  /**
    One edit, on any device of the table: it leaves the right partition current exactly if it is
    harmless, and a harmless edit keeps the lists ordered and the index valid.
   */
  lemma EditStep(t: Table, e: Edit)
    requires Consistent(t) && Possible(t, e) && Sensible(t, e)
    ensures Harmless(t, e) ==> Consistent(Apply(t, e))
    ensures Current(Apply(t, e)) == Expected(t, e) <==> Harmless(t, e)
  {
    hide Consistent, Current, WithoutDevice, Insert, Remove, Slot;
    match e
    case AddPart(d, x) =>
      AddPartStep(t, d, x);
    case DeletePart(d, x) =>
      if |t.lists[d]| > 1 {
        DeletePartStep(t, d, x);
        if Harmless(t, e) {
          DeletePartKeeps(t, d, x);
        }
      } else {
        DeleteLastStep(t, d, x);
      }
    case AddDevice(d, ps) => AddDeviceStep(t, d, ps);
    case DeleteDevice(d) =>
      WithoutDeviceKeeps(t, d);
      WithoutDeviceStep(t, d);
  }

  /** An edit that is not harmless leaves no partition current exactly if it is a delete at index zero. */
  lemma LostCurrent(t: Table, e: Edit)
    requires Consistent(t) && Possible(t, e) && Sensible(t, e) && !Harmless(t, e)
    ensures Current(Apply(t, e)) != Current(t)
    ensures Current(Apply(t, e)) == null <==> e.DeletePart? && t.num == 0 && |t.lists[e.d]| <= 256
  {
    match e
    case AddPart(d, x) => LostByAdd(t, d, x);
    case DeletePart(d, x) => LostByDeletePart(t, d, x);
    case AddDevice(d, ps) =>
    case DeleteDevice(d) =>
  }

  lemma LostByAdd(t: Table, d: MtdDevice, x: PartInfo)
    requires Consistent(t) && Possible(t, AddPart(d, x)) && Sensible(t, AddPart(d, x)) && !Harmless(t, AddPart(d, x))
    ensures Current(Apply(t, AddPart(d, x))) != Current(t) && Current(Apply(t, AddPart(d, x))) != null
  {
    InsertKeepsCurrent(t.lists[d], x, t.num);
    hide Slot, Insert, Sorted, NoDuplicates, EightBits, IndexAfterInsert, Apart;
  }

  lemma LostByDeletePart(t: Table, d: MtdDevice, x: PartInfo)
    requires Consistent(t) && Possible(t, DeletePart(d, x)) && !Harmless(t, DeletePart(d, x))
    ensures Current(Apply(t, DeletePart(d, x))) != Current(t)
    ensures Current(Apply(t, DeletePart(d, x))) == null <==> t.num == 0 && |t.lists[d]| <= 256
  {
    LostByDelete(t.lists[d], x, t.num);
    hide Sorted, NoDuplicates, EightBits, Apart, Remove, IndexOf, IndexAfterDelete;
  }

  // ---------------------------------------------------------------------------------------------
  // Runs of edits
  // ---------------------------------------------------------------------------------------------

  ghost predicate Allowed(t: Table, es: seq<Edit>)
    requires Consistent(t)
    decreases |es|
  {
    es == [] ||
    (Possible(t, es[0]) && Sensible(t, es[0]) && Harmless(t, es[0]) &&
     (EditStep(t, es[0]); Allowed(Apply(t, es[0]), es[1..])))
  }

  ghost function Run(t: Table, es: seq<Edit>): Table
    requires Consistent(t) && Allowed(t, es)
    decreases |es|
  {
    if es == [] then t
    else
      EditStep(t, es[0]);
      Run(Apply(t, es[0]), es[1..])
  }

  /**
    Over every run of allowed edits the lists stay ordered and free of repetitions, and the index points
    at a partition whenever there is one; whatever is removed, and also from the empty table on.
   */
  lemma {:induction false} RunStaysConsistent(t: Table, es: seq<Edit>)
    requires Consistent(t) && Allowed(t, es)
    ensures Consistent(Run(t, es))
    ensures Current(Run(t, es)) == null <==> Run(t, es).devices == []
    decreases |es|
  {
    hide Apply, GoodList;
    if es == [] {
      CurrentExists(t);
    } else {
      EditStep(t, es[0]);
      RunStaysConsistent(Apply(t, es[0]), es[1..]);
    }
  }

  lemma CurrentExists(t: Table)
    requires Consistent(t)
    ensures Current(t) == null <==> t.devices == []
  {
  }

  /** No two partitions of the list have the same offset. */
  ghost predicate NoEqualOffsets(ps: seq<PartInfo>) {
    forall i, j | 0 <= i < j < |ps| :: ps[i].offset != ps[j].offset
  }

  ghost predicate AllSpread(t: Table) {
    forall d | d in t.lists :: NoEqualOffsets(t.lists[d])
  }

  /** Without equal offsets every edit is harmless, but for an insert when the index is 255. */
  lemma SpreadIsHarmless(t: Table, e: Edit)
    requires Consistent(t) && Possible(t, e) && Sensible(t, e) && AllSpread(t)
    requires e.AddPart? && t.dev == e.d ==> t.num < 255
    ensures Harmless(t, e)
  {
    hide Sorted, NoDuplicates, Slot;
    if e.DeletePart? && t.dev == e.d && t.num < IndexOf(t.lists[e.d], e.x) {
      assert NoEqualOffsets(t.lists[e.d]);
    }
  }

  /** An edit that brings in no second partition at an offset, and no new one while the index is 255. */
  ghost predicate Spreading(t: Table, e: Edit)
    requires Possible(t, e)
  {
    match e
    case AddPart(d, x) =>
      && (t.dev == d ==> t.num < 255)
      && (Refused(t.lists[d], x) || forall y | y in t.lists[d] :: y.offset != x.offset)
    case DeletePart(d, x) => true
    case AddDevice(d, ps) => NoEqualOffsets(ps)
    case DeleteDevice(d) => true
  }

  lemma InsertSpreads(ps: seq<PartInfo>, x: PartInfo)
    requires NoEqualOffsets(ps) && forall y | y in ps :: y.offset != x.offset
    ensures NoEqualOffsets(Insert(ps, x))
  {
    hide Slot;
  }

  lemma RemoveSpreads(ps: seq<PartInfo>, x: PartInfo)
    requires NoEqualOffsets(ps) && x in ps
    ensures NoEqualOffsets(Remove(ps, x))
  {
  }

  lemma SpreadingStep(t: Table, e: Edit)
    requires Possible(t, e) && Spreading(t, e) && AllSpread(t)
    ensures AllSpread(Apply(t, e))
  {
    match e
    case AddPart(d, x) =>
      if !Refused(t.lists[d], x) {
        InsertSpreads(t.lists[d], x);
      }
      hide Insert, Refused, NoEqualOffsets, IndexAfterInsert;
    case DeletePart(d, x) =>
      RemoveSpreads(t.lists[d], x);
      hide Remove, NoEqualOffsets, IndexAfterDelete;
    case AddDevice(d, ps) =>
    case DeleteDevice(d) =>
  }

  ghost predicate AllSpreading(t: Table, es: seq<Edit>)
    decreases |es|
  {
    es == [] ||
    (Possible(t, es[0]) && Sensible(t, es[0]) && Spreading(t, es[0]) && AllSpreading(Apply(t, es[0]), es[1..]))
  }

  /** In a table without equal offsets, a run that brings in none is allowed as a whole. */
  lemma {:induction false} SpreadingIsAllowed(t: Table, es: seq<Edit>)
    requires Consistent(t) && AllSpread(t) && AllSpreading(t, es)
    ensures Allowed(t, es) && AllSpread(Run(t, es))
    decreases |es|
  {
    hide Apply, Consistent, AllSpread, Harmless;
    if es == [] {
    } else {
      SpreadIsHarmless(t, es[0]);
      SpreadingStep(t, es[0]);
      EditStep(t, es[0]);
      SpreadingIsAllowed(Apply(t, es[0]), es[1..]);
    }
  }

  /** No edit of the run removes the partition `x`. */
  ghost predicate Spares(t: Table, es: seq<Edit>, x: PartInfo)
    requires Consistent(t) && Allowed(t, es)
    decreases |es|
  {
    es == [] || (!Removes(t, es[0], x) && (EditStep(t, es[0]); Spares(Apply(t, es[0]), es[1..], x)))
  }

  /** Over every run of allowed edits the table stays consistent, and what is current stays current. */
  lemma {:induction false} RunKeepsCurrent(t: Table, es: seq<Edit>, x: PartInfo)
    requires Consistent(t) && Allowed(t, es) && Current(t) == x && Spares(t, es, x)
    ensures Consistent(Run(t, es)) && Current(Run(t, es)) == x
    decreases |es|
  {
    if es == [] {
    } else {
      EditStep(t, es[0]);
      RunKeepsCurrent(Apply(t, es[0]), es[1..], x);
    }
  }

  // ---------------------------------------------------------------------------------------------
  // At most one partition at offset zero
  // ---------------------------------------------------------------------------------------------

  ghost predicate OneAtZero(ps: seq<PartInfo>) {
    forall i, j | 0 <= i < j < |ps| :: ps[i].offset != 0 || ps[j].offset != 0
  }

  /** Refused is a partition at offset zero exactly if there is one already. */
  lemma RefusedIff(ps: seq<PartInfo>, x: PartInfo)
    requires Sorted(ps)
    ensures Refused(ps, x) <==> x.offset == 0 && exists y | y in ps :: y.offset == 0
  {
    if ps != [] && ps[0].offset == 0 {
      assert ps[0] in ps;
    }
  }

  lemma InsertKeepsOneAtZero(ps: seq<PartInfo>, x: PartInfo)
    requires Sorted(ps) && OneAtZero(ps) && !Refused(ps, x)
    ensures OneAtZero(Insert(ps, x))
  {
    hide Slot;
    RefusedIff(ps, x);
  }

  lemma RemoveKeepsOneAtZero(ps: seq<PartInfo>, x: PartInfo)
    requires Sorted(ps) && OneAtZero(ps) && x in ps
    ensures Sorted(Remove(ps, x)) && OneAtZero(Remove(ps, x))
  {
    hide IndexOf;
  }

  ghost predicate Proper(ps: seq<PartInfo>) {
    Sorted(ps) && OneAtZero(ps)
  }

  ghost predicate AllProper(t: Table) {
    forall d | d in t.lists :: Proper(t.lists[d])
  }

  lemma ProperStep(t: Table, e: Edit)
    requires AllProper(t) && Possible(t, e) && (e.AddDevice? ==> Proper(e.ps))
    ensures AllProper(Apply(t, e))
  {
    match e
    case AddPart(d, x) =>
      if !Refused(t.lists[d], x) {
        InsertKeepsSorted(t.lists[d], x);
        InsertKeepsOneAtZero(t.lists[d], x);
        assert Proper(Insert(t.lists[d], x));
      }
      hide Insert, Refused, Proper, IndexAfterInsert;
    case DeletePart(d, x) =>
      RemoveKeepsOneAtZero(t.lists[d], x);
      assert Proper(Remove(t.lists[d], x));
      hide Remove, Proper, IndexAfterDelete;
    case AddDevice(d, ps) =>
    case DeleteDevice(d) =>
  }

  ghost predicate AllPossible(t: Table, es: seq<Edit>)
    decreases |es|
  {
    es == [] ||
    (Possible(t, es[0]) && (es[0].AddDevice? ==> Proper(es[0].ps)) && AllPossible(Apply(t, es[0]), es[1..]))
  }

  ghost function ApplyAll(t: Table, es: seq<Edit>): Table
    requires AllPossible(t, es)
    decreases |es|
  {
    if es == [] then t else ApplyAll(Apply(t, es[0]), es[1..])
  }

  /** No run of edits, harmless or not, leads to two partitions of a device at offset zero, or out of order. */
  lemma {:induction false} RunStaysProper(t: Table, es: seq<Edit>)
    requires AllProper(t) && AllPossible(t, es)
    ensures AllProper(ApplyAll(t, es))
    decreases |es|
  {
    hide Apply, Proper;
    if es == [] {
    } else {
      ProperStep(t, es[0]);
      RunStaysProper(Apply(t, es[0]), es[1..]);
    }
  }

  // ---------------------------------------------------------------------------------------------
  // The table in memory
  // ---------------------------------------------------------------------------------------------

  ghost function Lists(devices: seq<MtdDevice>): map<MtdDevice, seq<PartInfo>>
    reads devices
  {
    map d | d in devices :: d.parts
  }

  lemma ListsWithout(devices: seq<MtdDevice>, d: MtdDevice)
    requires NoDuplicates(devices) && d in devices
    ensures Lists(Remove(devices, d)) == Lists(devices) - {d}
  {
    RemoveIsSetMinus(devices, d);
    hide Remove, NoDuplicates;
  }

  class Partitions {
    var devices: seq<MtdDevice>
    var currentDev: MtdDevice?
    var currentPartnum: nat

    ghost predicate Valid()
      reads this, devices
    {
      && NoDuplicates(devices)
      && (forall d | d in devices :: d.Counted())
      && (currentDev != null ==> currentDev in devices)
    }

    ghost function View(): Table
      reads this, devices
    {
      Table(devices, Lists(devices), currentDev, currentPartnum)
    }

    constructor ()
      ensures Valid() && View() == Table([], map[], null, 0)
    {
      devices, currentDev, currentPartnum := [], null, 0;
    }

    /** The partition with the given number, found by walking the list. */
    method PartNumber(dev: MtdDevice?, partNum: nat) returns (part: PartInfo?)
      requires dev != null ==> dev.Counted()
      ensures part == if dev != null && partNum < Count(dev.parts) then dev.parts[partNum] else null
    {
      if dev == null || partNum >= dev.numParts {
        return null;
      }
      var num := 0;
      while num < |dev.parts|
        invariant num <= partNum
      {
        if partNum == num {
          return dev.parts[num];
        }
        num := num + 1;
      }
      return null;
    }

    static method Link(dev: MtdDevice, entry: nat, part: PartInfo)
      requires dev.Counted() && entry <= |dev.parts|
      modifies dev
      ensures dev.Counted() && dev.parts == InsertAt(old(dev.parts), entry, part)
    {
      dev.parts := InsertAt(dev.parts, entry, part);
      dev.numParts := (dev.numParts + 1) % 0x1_0000;
    }

    /** Links a partition in before another one, and moves the current index if that was not behind it. */
    method LinkBefore(dev: MtdDevice, entry: nat, part: PartInfo, currPi: PartInfo?)
      requires dev.Counted() && entry < |dev.parts| && entry == Slot(dev.parts, part.offset)
      requires currPi == if dev == currentDev && currentPartnum < Count(dev.parts)
               then dev.parts[currentPartnum] else null
      modifies dev, this`currentPartnum
      ensures dev.Counted() && dev.parts == Insert(old(dev.parts), part)
      ensures currentPartnum == if dev == currentDev then IndexAfterInsert(old(dev.parts), part, old(currentPartnum))
                                else old(currentPartnum)
    {
      hide InsertAt;
      var pi := dev.parts[entry];
      Link(dev, entry, part);
      if currPi != null && pi.offset <= currPi.offset {
        currentPartnum := EightBits(currentPartnum + 1);
      }
    }

    /** Links a partition into the list of a device, in order of offsets. */
    method PartSortAdd(dev: MtdDevice, part: PartInfo) returns (rc: nat)
      requires dev.Counted() && (currentDev != null ==> currentDev.Counted())
      modifies dev, this`currentPartnum
      ensures dev.Counted()
      ensures rc == (if Refused(old(dev.parts), part) then 1 else 0)
      ensures dev.parts == if rc == 0 then Insert(old(dev.parts), part) else old(dev.parts)
      ensures currentPartnum == if rc == 0 && dev == currentDev
                                then IndexAfterInsert(old(dev.parts), part, old(currentPartnum))
                                else old(currentPartnum)
    {
      hide InsertAt;
      if dev.parts == [] {
        Link(dev, 0, part);
        return 0;
      }
      var currPi: PartInfo? := null;
      if dev == currentDev {
        currPi := PartNumber(currentDev, currentPartnum);
      }
      var entry := 0;
      while entry < |dev.parts|
        modifies {}
        invariant entry <= Slot(dev.parts, part.offset)
        invariant entry > 0 ==> !Refused(dev.parts, part)
      {
        var pi := dev.parts[entry];
        if part.offset == pi.offset && pi.offset == 0 {
          SlotIs(dev.parts, part.offset, entry);
          return 1;
        }
        if part.offset <= pi.offset {
          SlotIs(dev.parts, part.offset, entry);
          break;
        }
        entry := entry + 1;
      }
      if entry < |dev.parts| {
        LinkBefore(dev, entry, part, currPi);
      } else {
        Link(dev, entry, part);
      }
      rc := 0;
    }

    /** Adds a partition to a device of the table, if it is aligned and fits. */
    method PartAdd(dev: MtdDevice, part: PartInfo) returns (rc: nat)
      requires Valid() && dev in devices
      modifies dev, this`currentPartnum, part`size
      ensures Valid()
      ensures var valid := MtdParts.Validate(dev.id, old(part.Value()));
              && (rc == 0 <==> valid.Some? && !Refused(old(dev.parts), part))
              && (valid.Some? ==> part.Value() == valid.value)
              && View() == if valid.Some? then Apply(old(View()), AddPart(dev, part)) else old(View())
    {
      hide Insert, IndexAfterInsert, NoDuplicates, Refused, MtdParts.Validate;
      rc := PartValidate(dev.id, part);
      if rc != 0 {
        return 1;
      }
      rc := PartSortAdd(dev, part);
    }

    /** Removes a device, and moves on to the first one left if it was the current one. */
    method DeviceDel(dev: MtdDevice) returns (rc: nat)
      requires Valid() && dev in devices
      modifies this
      ensures Valid() && rc == 0
      ensures View() == Apply(old(View()), DeleteDevice(dev))
    {
      hide Remove, NoDuplicates, Lists;
      RemoveIsSetMinus(devices, dev);
      ListsWithout(devices, dev);
      var rest := Remove(devices, dev);
      devices := rest;
      if dev == currentDev {
        if rest == [] {
          currentDev := null;
        } else {
          currentDev := rest[0];
          currentPartnum := 0;
        }
      }
      return 0;
    }

    /** Moves the current index for the delete of a partition of the current device. */
    method AdjustForDelete(dev: MtdDevice, part: PartInfo)
      requires dev.Counted()
      modifies this`currentPartnum
      ensures currentPartnum == if dev == currentDev
                                then IndexAfterDelete(dev.parts, part, old(currentPartnum))
                                else old(currentPartnum)
    {
      if dev == currentDev {
        var currPi := PartNumber(currentDev, currentPartnum);
        if currPi != null {
          if currPi == part {
            currentPartnum := 0;
          } else if part.offset <= currPi.offset {
            currentPartnum := EightBits(currentPartnum - 1);
          }
        }
      }
    }

    /** Removes a partition, and its device with the last one. */
    method PartDel(dev: MtdDevice, part: PartInfo) returns (rc: nat)
      requires Valid() && dev in devices && part in dev.parts
      modifies this, dev
      ensures Valid() && rc == 0
      ensures View() == Apply(old(View()), DeletePart(dev, part))
    {
      hide Remove, NoDuplicates, IndexAfterDelete, WithoutDevice;
      if dev.numParts == 1 {
        rc := DeviceDel(dev);
        return;
      }
      AdjustForDelete(dev, part);
      dev.parts := Remove(dev.parts, part);
      dev.numParts := (dev.numParts - 1) % 0x1_0000;
      return 0;
    }

    /** Appends a device, which becomes the current one if it is the first. */
    method DeviceAdd(dev: MtdDevice)
      requires Valid() && dev !in devices && dev.Counted()
      modifies this
      ensures Valid()
      ensures View() == Apply(old(View()), AddDevice(dev, dev.parts))
    {
      if devices == [] {
        currentDev := dev;
        currentPartnum := 0;
      }
      devices := devices + [dev];
    }
  }

  /** The offset and the end of a partition on a NOR chip are sector starts, or the end that of the chip. */
  method PartValidateNor(starts: seq<MtdParts.U32>, chipSize: MtdParts.U32, part: PartInfo) returns (rc: nat)
    ensures rc == if MtdParts.Aligned(MtdParts.Nor(starts, chipSize), part.offset, part.size) then 0 else 1
  {
    var offsetAligned := false;
    var i := 0;
    while i < |starts|
      invariant i <= |starts| && part.offset !in starts[..i] && !offsetAligned
    {
      if starts[i] == part.offset {
        offsetAligned := true;
        break;
      }
      i := i + 1;
    }
    if !offsetAligned {
      return 1;
    }
    var endOffset := (part.offset + part.size) % MtdParts.TWO32;
    i := 0;
    while i < |starts|
      invariant i <= |starts| && endOffset !in starts[..i]
    {
      if starts[i] == endOffset {
        return 0;
      }
      i := i + 1;
    }
    return if chipSize == endOffset then 0 else 1;
  }

  /** The checks before a partition is added; they fill in a size that stands for the rest of the device. */
  method PartValidate(id: MtdParts.MtdId, part: PartInfo) returns (rc: nat)
    modifies part`size
    ensures var valid := MtdParts.Validate(id, old(part.Value()));
            rc == (if valid.Some? then 0 else 1) && (valid.Some? ==> part.Value() == valid.value)
    ensures part.size == if old(part.size) == MtdParts.SIZE_REMAINING then (id.size - part.offset) % MtdParts.TWO32
                         else old(part.size)
  {
    if part.size == MtdParts.SIZE_REMAINING {
      part.size := (id.size - part.offset) % MtdParts.TWO32;
    }
    if part.offset > id.size {
      return 1;
    }
    var end := (part.offset + part.size) % MtdParts.TWO32;
    if end <= part.offset || end > id.size {
      return 1;
    }
    match id.geometry
    case Nor(starts, chipSize) =>
      rc := PartValidateNor(starts, chipSize, part);
    case Nand(eraseSize) =>
      rc := PartValidateNand(eraseSize, part);
    case OtherType =>
      rc := 1;
  }

  method PartValidateNand(eraseSize: MtdParts.Positive, part: PartInfo) returns (rc: nat)
    ensures rc == if MtdParts.Aligned(MtdParts.Nand(eraseSize), part.offset, part.size) then 0 else 1
  {
    if part.offset % eraseSize != 0 {
      return 1;
    }
    if part.size % eraseSize != 0 {
      return 1;
    }
    return 0;
  }

  /** The partitions of a list as values. */
  ghost function Values(ps: seq<PartInfo>): (vs: seq<MtdParts.Part>)
    reads ps
  {
    if ps == [] then [] else [ps[0].Value()] + Values(ps[1..])
  }

  /** Sorting into a list of objects is sorting into the list of their values, with the same refusals. */
  lemma {:induction false} SortAddIsInsert(ps: seq<PartInfo>, x: PartInfo)
    ensures MtdParts.SortAdd(Values(ps), x.Value())
         == if Refused(ps, x) then None else Some(Values(Insert(ps, x)))
  {
    hide Insert, PartInfo.Value;
    InsertSteps(ps, x);
    ValuesOf(x, ps);
    if ps == [] {
      assert [x.Value()] + Values(ps) == [x.Value()];
    } else {
      SortAddSteps(ps, x);
      if ps[0].offset < x.offset {
        SortAddIsInsert(ps[1..], x);
        ValuesOf(ps[0], Insert(ps[1..], x));
      }
    }
  }

  lemma SortAddSteps(ps: seq<PartInfo>, x: PartInfo)
    requires ps != []
    ensures MtdParts.SortAdd(Values(ps), x.Value())
         == if Refused(ps, x) then None
            else if x.offset <= ps[0].offset then Some([x.Value()] + Values(ps))
            else if MtdParts.SortAdd(Values(ps[1..]), x.Value()).None? then None
            else Some([ps[0].Value()] + MtdParts.SortAdd(Values(ps[1..]), x.Value()).value)
  {
    var vs := Values(ps);
    assert vs[1..] == Values(ps[1..]);
  }

  lemma InsertSteps(ps: seq<PartInfo>, x: PartInfo)
    ensures Insert(ps, x) == if ps == [] || x.offset <= ps[0].offset then [x] + ps
                             else [ps[0]] + Insert(ps[1..], x)
  {
  }

  lemma ValuesOf(x: PartInfo, ps: seq<PartInfo>)
    ensures Values([x] + ps) == [x.Value()] + Values(ps)
  {
    assert ([x] + ps)[1..] == ps;
  }

  lemma SlotIs(ps: seq<PartInfo>, offset: nat, k: nat)
    requires k < |ps| && offset <= ps[k].offset && k <= Slot(ps, offset)
    ensures k == Slot(ps, offset)
  {
  }

}
