/**
  A ring buffer of bytes: a queue that forgets its oldest bytes when it overflows.
 */
module CircBuf {

  import opened Basics

  /** The last `n` bytes. */
  function LastOf(s: seq<Byte>, n: nat): seq<Byte> {
    if |s| <= n then s else s[|s| - n..]
  }

  /** The index `i` places behind another one in a ring. */
  function Behind(from: nat, i: nat, total: nat): nat
    requires from < total && i <= total
  {
    if from + i < total then from + i else from + i - total
  }

  /** The bytes in a ring, from the oldest one on. */
  function Window(data: seq<Byte>, top: nat, size: nat): (w: seq<Byte>)
    requires size <= |data| && (size > 0 ==> top < |data|)
    ensures |w| == size && forall i | 0 <= i < size :: w[i] == data[Behind(top, i, |data|)]
  {
    seq(size, i requires 0 <= i < size => data[Behind(top, i, |data|)])
  }

  /** Writing behind the newest byte appends it, at the cost of the oldest one if the ring is full. */
  lemma WindowPushed(data: seq<Byte>, top: nat, size: nat, x: Byte)
    requires top < |data| && size <= |data|
    ensures var data' := data[Behind(top, size, |data|) := x];
            if size < |data| then Window(data', top, size + 1) == Window(data, top, size) + [x]
            else Window(data', Behind(top, 1, |data|), size) == Window(data, top, size)[1..] + [x]
  {
    var n := |data|;
    var data' := data[Behind(top, size, n) := x];
    if size < n {
      var w, v := Window(data', top, size + 1), Window(data, top, size) + [x];
      forall i | 0 <= i < |w|
        ensures w[i] == v[i]
      {
        assert i < size ==> Behind(top, i, n) != Behind(top, size, n);
      }
    } else {
      var w, v := Window(data', Behind(top, 1, n), size), Window(data, top, size)[1..] + [x];
      forall i | 0 <= i < |w|
        ensures w[i] == v[i]
      {
        assert Behind(Behind(top, 1, n), i, n) == if i + 1 < n then Behind(top, i + 1, n) else top;
        assert i + 1 < n ==> Behind(top, i + 1, n) != top;
      }
    }
  }

  lemma WindowPopped(data: seq<Byte>, top: nat, size: nat, n: nat)
    requires top < |data| && n <= size <= |data|
    ensures Window(data, Behind(top, n, |data|), size - n) == Window(data, top, size)[n..]
  {
    var w, v := Window(data, Behind(top, n, |data|), size - n), Window(data, top, size)[n..];
    forall i | 0 <= i < |w|
      ensures w[i] == v[i]
    {
      assert Behind(Behind(top, n, |data|), i, |data|) == Behind(top, n + i, |data|);
    }
  }

  lemma LastOfLastOf(s: seq<Byte>, x: Byte, n: nat)
    requires n > 0
    ensures |LastOf(s, n)| <= n
    ensures LastOf(s + [x], n) == if |LastOf(s, n)| < n then LastOf(s, n) + [x] else LastOf(s, n)[1..] + [x]
  {
  }

  lemma AllOf(s: seq<Byte>, n: nat)
    requires |s| <= n
    ensures LastOf(s, n) == s
  {
  }

  class CircBuf {
    var size: nat
    const totalSize: nat
    var top: nat
    var tail: nat
    const data: array<Byte>

    ghost predicate Valid()
      reads this
    {
      && data.Length == totalSize && size <= totalSize
      && if totalSize == 0 then top == tail == 0 else top < totalSize && tail == Behind(top, size, totalSize)
    }

    ghost function Contents(): seq<Byte>
      requires Valid()
      reads this, data
    {
      Window(data[..], top, size)
    }

    constructor (size: nat)
      ensures Valid() && Contents() == [] && totalSize == size && fresh(data)
    {
      this.size, totalSize, top, tail := 0, size, 0, 0;
      data := new Byte[size];
    }

    /** Takes out the oldest bytes, as many as asked for and available. */
    method Pop(dest: array<Byte>, len0: nat) returns (n: nat)
      requires Valid() && dest != data && (if len0 < size then len0 else size) <= dest.Length
      modifies this, dest
      ensures Valid() && n == if len0 < old(size) then len0 else old(size)
      ensures dest[..n] == old(Contents())[..n] && dest[n..] == old(dest[n..])
      ensures Contents() == old(Contents())[n..]
    {
      var len := if len0 > size then size else len0;
      var p, i := top, 0;
      while i < len
        modifies dest
        invariant i <= len && p == if totalSize == 0 then 0 else Behind(top, i, totalSize)
        invariant dest[..i] == Contents()[..i] && dest[len..] == old(dest[len..])
      {
        dest[i] := data[p];
        p := p + 1;
        if p == totalSize {
          p := 0;
        }
        i := i + 1;
      }
      if totalSize > 0 {
        WindowPopped(data[..], top, size, len);
      }
      top := p;
      size := size - len;
      n := len;
    }

    /** One byte written at the tail; the oldest byte goes if the ring is full. */
    method PushByte(p0: nat, x: Byte) returns (p: nat)
      requires data.Length == totalSize > 0 && top < totalSize && size <= totalSize
               && p0 == Behind(top, size, totalSize)
      modifies this`size, this`top, data
      ensures top < totalSize && size <= totalSize && p == Behind(top, size, totalSize)
      ensures Window(data[..], top, size)
              == if old(size) < totalSize then old(Window(data[..], top, size)) + [x]
                  else old(Window(data[..], top, size))[1..] + [x]
    {
      hide Window;
      WindowPushed(data[..], top, size, x);
      data[p0] := x;
      assert data[..] == old(data[..])[p0 := x];
      p := p0 + 1;
      if p == totalSize {
        p := 0;
      }
      if size < totalSize {
        size := size + 1;
      } else {
        top := top + 1;
        if top == totalSize {
          top := 0;
        }
      }
    }

    /** Appends bytes; if there are too many, only the last ones stay. A ring of no bytes takes none. */
    method Push(src: array<Byte>, len: nat) returns (n: nat)
      requires Valid() && src != data && len <= src.Length && (totalSize == 0 ==> len == 0)
      modifies this, data
      ensures Valid() && n == len
      ensures Contents() == LastOf(old(Contents()) + src[..len], totalSize)
    {
      hide LastOf, Window;
      ghost var before := Contents();
      var p, i := tail, 0;
      AllOf(before, totalSize);
      assert before + src[..0] == before;
      while i < len
        invariant i <= len && data.Length == totalSize && size <= totalSize
        invariant if totalSize == 0 then p == top == 0 else top < totalSize && p == Behind(top, size, totalSize)
        invariant Window(data[..], top, size) == LastOf(before + src[..i], totalSize)
      {
        LastOfLastOf(before + src[..i], src[i], totalSize);
        assert before + src[..i + 1] == before + src[..i] + [src[i]];
        p := PushByte(p, src[i]);
        i := i + 1;
      }
      tail := p;
      n := len;
    }
  }

  // ---------------------------------------------------------------------------------------------
  // Runs
  // ---------------------------------------------------------------------------------------------

  datatype Op = Push(bs: seq<Byte>) | Pop(len: nat)

  /** What has come out, and what is in the ring. */
  datatype State = State(out: seq<Byte>, contents: seq<Byte>)

  function Apply(st: State, op: Op, total: nat): State {
    match op
    case Push(bs) => State(st.out, LastOf(st.contents + bs, total))
    case Pop(len) =>
      var n := if len < |st.contents| then len else |st.contents|;
      State(st.out + st.contents[..n], st.contents[n..])
  }

  function Run(ops: seq<Op>, total: nat): State {
    if ops == [] then State([], []) else Apply(Run(ops[..|ops| - 1], total), ops[|ops| - 1], total)
  }

  /** Everything that was pushed. */
  function Pushed(ops: seq<Op>): seq<Byte> {
    if ops == [] then []
    else Pushed(ops[..|ops| - 1]) + (match ops[|ops| - 1] case Push(bs) => bs case Pop(len) => [])
  }

  /** The ring has never been asked to hold more than its size. */
  predicate NeverFull(ops: seq<Op>, total: nat) {
    ops == [] ||
    (NeverFull(ops[..|ops| - 1], total) &&
     (ops[|ops| - 1].Push? ==> |Run(ops[..|ops| - 1], total).contents| + |ops[|ops| - 1].bs| <= total))
  }

  /** As long as the ring does not overflow, what comes out and what is left is what was put in, in order. */
  lemma {:induction false} RunIsQueue(ops: seq<Op>, total: nat)
    requires NeverFull(ops, total)
    ensures Run(ops, total).out + Run(ops, total).contents == Pushed(ops)
  {
    if ops == [] {
    } else {
      RunIsQueue(ops[..|ops| - 1], total);
    }
  }

  /** In every run the ring holds a last part of what was pushed, and never more than its size. */
  lemma {:induction false} RunHoldsLatest(ops: seq<Op>, total: nat)
    ensures |Run(ops, total).contents| <= total && IsEnd(Run(ops, total).contents, Pushed(ops))
  {
    if ops == [] {
    } else {
      var before := ops[..|ops| - 1];
      RunHoldsLatest(before, total);
      var c, all := Run(before, total).contents, Pushed(before);
      match ops[|ops| - 1]
      case Push(bs) => EndPushed(c, all, bs, total);
      case Pop(len) => EndPopped(c, all, if len < |c| then len else |c|);
    }
  }

  predicate IsEnd(s: seq<Byte>, t: seq<Byte>) {
    |s| <= |t| && s == t[|t| - |s|..]
  }

  lemma EndPushed(c: seq<Byte>, all: seq<Byte>, bs: seq<Byte>, total: nat)
    requires IsEnd(c, all)
    ensures |LastOf(c + bs, total)| <= total && IsEnd(LastOf(c + bs, total), all + bs)
  {
  }

  lemma EndPopped(c: seq<Byte>, all: seq<Byte>, n: nat)
    requires IsEnd(c, all) && n <= |c|
    ensures IsEnd(c[n..], all + [])
  {
  }

}
