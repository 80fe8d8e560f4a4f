/**
  The Kermit receiver of the `loadb` command.

  Packets are decoded into memory as their characters arrive. A checkpoint taken at every new
  sequence number lets the receiver take back what a repeated or a damaged packet has written. The
  module states what a session leaves in memory (`Assembled`), proves that stepping through the
  checkpoints computes it, and that the data a sender quoted comes back whatever way it was cut
  into packets.
 */
module Kermit {

  import opened Basics

  const START_CHAR: Byte := 1
  const ETX_CHAR: Byte := 3
  const END_CHAR: Byte := 13
  const SPACE: Byte := 32
  const K_ESCAPE: Byte := 35
  const SEND_TYPE: Byte := 83
  const DATA_TYPE: Byte := 68
  const ACK_TYPE: Byte := 89
  const NACK_TYPE: Byte := 78
  const BREAK_TYPE: Byte := 66
  const SEND_DATA_SIZE: nat := 20

  function ToChar(x: int): Byte {
    (x + SPACE) % 256
  }

  function UnToChar(c: Byte): Byte {
    (c - SPACE) % 256
  }

  predicate Control(c: Byte) {
    c < 32
  }

  /** The six-bit block check of a character sum. */
  function Check(sum: nat): Byte {
    (sum + sum / 64 % 4) % 64
  }

  // ---------------------------------------------------------------------------------------------
  // Control quoting
  // ---------------------------------------------------------------------------------------------

  /** The character meant by a quoted one. */
  function KTrans(c: Byte): Byte {
    if c % 128 / 32 == 2 then c - 64
    else if c % 128 == 63 then c + 64
    else c
  }

  /** What the receiver has made of the data so far; `escape` after a lone quote character. */
  datatype Line = Line(escape: bool, out: seq<Byte>)

  const EMPTY := Line(false, [])

  function DecodeChar(l: Line, quote: Byte, c: Byte): Line {
    if l.escape then Line(false, l.out + [KTrans(c)])
    else if c == quote then Line(true, l.out)
    else Line(false, l.out + [c])
  }

  function Decode(l: Line, quote: Byte, s: seq<Byte>): Line {
    if s == [] then l
    else DecodeChar(Decode(l, quote, s[..|s| - 1]), quote, s[|s| - 1])
  }

  /** A sender's quoting of one byte (Kermit Protocol Manual, section 6.4). */
  function Quoted(quote: Byte, c: Byte): seq<Byte> {
    if c % 128 < 32 then [quote, c + 64]
    else if c % 128 == 127 then [quote, c - 64]
    else if c % 128 == quote % 128 then [quote, c]
    else [c]
  }

  function QuotedAll(quote: Byte, data: seq<Byte>): seq<Byte> {
    if data == [] then []
    else QuotedAll(quote, data[..|data| - 1]) + Quoted(quote, data[|data| - 1])
  }

  lemma {:induction false} DecodeConcat(l: Line, quote: Byte, s: seq<Byte>, t: seq<Byte>)
    ensures Decode(l, quote, s + t) == Decode(Decode(l, quote, s), quote, t)
  {
    if t == [] {
      assert s + t == s;
    } else {
      var n := |t| - 1;
      DecodeConcat(l, quote, s, t[..n]);
      assert (s + t)[..|s + t| - 1] == s + t[..n];
    }
  }

  lemma DecodeNothing(l: Line, quote: Byte)
    ensures Decode(l, quote, []) == l
  {
  }

  lemma DecodeSnoc(l: Line, quote: Byte, s: seq<Byte>, c: Byte)
    ensures Decode(l, quote, s + [c]) == DecodeChar(Decode(l, quote, s), quote, c)
  {
    assert (s + [c])[..|s|] == s;
  }

  lemma DecodeOne(l: Line, quote: Byte, x: Byte)
    ensures Decode(l, quote, [x]) == DecodeChar(l, quote, x)
  {
    DecodeSnoc(l, quote, [], x);
    assert [] + [x] == [x];
  }

  lemma DecodeTwo(l: Line, quote: Byte, x: Byte, y: Byte)
    ensures Decode(l, quote, [x, y]) == DecodeChar(DecodeChar(l, quote, x), quote, y)
  {
    DecodeOne(l, quote, x);
    DecodeSnoc(l, quote, [x], y);
    assert [x] + [y] == [x, y];
  }

  /** A byte goes out as it is, not being the quote, or as the quote and a character that means the byte. */
  lemma QuotedMeans(quote: Byte, c: Byte)
    requires KTrans(quote) == quote
    ensures var q := Quoted(quote, c);
            (q == [c] && c != quote) || (|q| == 2 && q == [quote, q[1]] && KTrans(q[1]) == c)
  {
    var r := c % 128;
    if r < 32 {
      SevenBits(c + 64, if c < 128 then 0 else 1, r + 64);
    } else if r == 127 {
      SevenBits(c - 64, if c < 128 then 0 else 1, 63);
    }
  }

  lemma SevenBits(x: nat, k: nat, r: nat)
    requires x == 128 * k + r && r < 128
    ensures x % 128 == r
  {
    Divided(x, 128, k, r);
  }

  lemma DecodeQuoted(l: Line, quote: Byte, c: Byte)
    requires !l.escape && KTrans(quote) == quote
    ensures Decode(l, quote, Quoted(quote, c)) == Line(false, l.out + [c])
  {
    QuotedMeans(quote, c);
    hide Quoted, KTrans, Decode;
    var q := Quoted(quote, c);
    if |q| == 1 {
      DecodeOne(l, quote, c);
    } else {
      DecodeTwo(l, quote, quote, q[1]);
    }
  }

  lemma {:induction false} DecodeQuotedAll(quote: Byte, data: seq<Byte>)
    requires KTrans(quote) == quote
    ensures Decode(EMPTY, quote, QuotedAll(quote, data)) == Line(false, data)
  {
    hide Quoted, DecodeChar;
    if data == [] {
    } else {
      var n := |data| - 1;
      DecodeQuotedAll(quote, data[..n]);
      DecodeConcat(EMPTY, quote, QuotedAll(quote, data[..n]), Quoted(quote, data[n]));
      DecodeQuoted(Line(false, data[..n]), quote, data[n]);
      assert data[..n] + [data[n]] == data;
    }
  }

  /** Decoding undoes quoting on all data exactly for the quote characters that stand for themselves. */
  lemma QuotingIsInvertible(quote: Byte)
    ensures (forall data: seq<Byte> ::
               Decode(EMPTY, quote, QuotedAll(quote, data)) == Line(false, data))
            <==> KTrans(quote) == quote
  {
    if KTrans(quote) == quote {
      forall data: seq<Byte>
        ensures Decode(EMPTY, quote, QuotedAll(quote, data)) == Line(false, data)
      {
        DecodeQuotedAll(quote, data);
      }
    } else {
      var data: seq<Byte> := [quote];
      var t := QuotedAll(quote, data);
      assert QuotedAll(quote, data[..0]) == [];
      assert t == [] + Quoted(quote, quote) == [quote, quote];
      assert Decode(EMPTY, quote, t[..1][..0]) == EMPTY;
      assert Decode(EMPTY, quote, t[..1]) == Line(true, []);
      assert Decode(EMPTY, quote, t).out == [KTrans(quote)];
      assert Decode(EMPTY, quote, QuotedAll(quote, data)).out[0] != data[0];
      assert Decode(EMPTY, quote, QuotedAll(quote, data)) != Line(false, data);
    }
  }

  // ---------------------------------------------------------------------------------------------
  // Packets in a character stream
  // ---------------------------------------------------------------------------------------------

  /**
    What the receiver makes of the characters from some position on. `Starved` when the stream ends
    first (the receiver would wait), `Interrupted` by a control-C between packets, `Damaged` when
    the length or the sequence character is a control character. `payload` is the data taken in
    before the end of the packet or the error in it.
   */
  datatype Frame =
    | Starved
    | Interrupted
    | Damaged(next: nat)
    | Packet(seqNo: int, kind: Byte, payload: seq<Byte>, ok: bool, next: nat)

  predicate Inside(f: Frame, p: nat, inp: seq<Byte>) {
    match f
    case Starved => true
    case Interrupted => true
    case Damaged(next) => p < next <= |inp|
    case Packet(n, _, _, _, next) => 0 <= n && p < next <= |inp|
  }

  function Hunt(inp: seq<Byte>, p: nat): (f: Frame)
    requires p <= |inp|
    ensures Inside(f, p, inp)
    decreases |inp| - p
  {
    if p == |inp| then Starved
    else if inp[p] == START_CHAR then Header(inp, p + 1)
    else if inp[p] == ETX_CHAR then Interrupted
    else Hunt(inp, p + 1)
  }

  function Header(inp: seq<Byte>, p: nat): (f: Frame)
    requires p <= |inp|
    ensures Inside(f, p, inp)
  {
    if p == |inp| then Starved
    else if Control(inp[p]) then Damaged(p + 1)
    else if p + 1 == |inp| then Starved
    else if Control(inp[p + 1]) then Damaged(p + 2)
    else Body(inp, p + 2, UnToChar(inp[p]) - 1, UnToChar(inp[p + 1]), inp[p] as int + inp[p + 1])
  }

  function Body(inp: seq<Byte>, p: nat, length: int, n: Byte, sum: nat): (f: Frame)
    requires p <= |inp|
    ensures Inside(f, p, inp)
  {
    if p == |inp| then Starved
    else if Control(inp[p]) then Packet(n, inp[p], [], false, p + 1)
    else if length - 1 == -2 then Extended(inp, p + 1, n, inp[p], sum + inp[p])
    else Data(inp, p + 1, p + 1, length - 1, n, inp[p], sum + inp[p])
  }

  /** A packet whose length character is zero carries two more length characters and their check. */
  function Extended(inp: seq<Byte>, p: nat, n: Byte, kind: Byte, sum: nat): (f: Frame)
    requires p <= |inp|
    ensures Inside(f, p, inp)
  {
    if p == |inp| then Starved
    else if Control(inp[p]) then Packet(n, kind, [], false, p + 1)
    else if p + 1 == |inp| then Starved
    else if Control(inp[p + 1]) then Packet(n, kind, [], false, p + 2)
    else if p + 2 == |inp| then Starved
    else if Control(inp[p + 2]) || inp[p + 2] != ToChar(Check(sum + inp[p] + inp[p + 1])) then
      Packet(n, kind, [], false, p + 3)
    else
      Data(inp, p + 3, p + 3, UnToChar(inp[p]) * 95 + UnToChar(inp[p + 1]), n, kind,
           sum + inp[p] + inp[p + 1] + inp[p + 2])
  }

  /** The data from `a` on, read up to `q`; `length` counts the characters left and the block check. */
  function Data(inp: seq<Byte>, a: nat, q: nat, length: int, n: Byte, kind: Byte, sum: nat): (f: Frame)
    requires a <= q <= |inp|
    ensures Inside(f, q, inp)
    decreases |inp| - q
  {
    if length <= 1 then Trailer(inp, a, q, n, kind, sum)
    else if q == |inp| then Starved
    else if Control(inp[q]) then Packet(n, kind, inp[a..q], false, q + 1)
    else Data(inp, a, q + 1, length - 1, n, kind, sum + inp[q])
  }

  function Trailer(inp: seq<Byte>, a: nat, q: nat, n: Byte, kind: Byte, sum: nat): (f: Frame)
    requires a <= q <= |inp|
    ensures Inside(f, q, inp)
  {
    if q == |inp| then Starved
    else if Control(inp[q]) || inp[q] != ToChar(Check(sum)) then Packet(n, kind, inp[a..q], false, q + 1)
    else if q + 1 == |inp| then Starved
    else Packet(n, kind, inp[a..q], inp[q + 1] == END_CHAR, q + 2)
  }

  predicate Final(f: Frame) {
    f.Starved? || f.Interrupted? || (f.Packet? && f.ok && f.kind == BREAK_TYPE)
  }

  /** The last frame and no other is final. */
  predicate EndsSession(fs: seq<Frame>) {
    fs != [] && Final(fs[|fs| - 1]) && forall i | 0 <= i < |fs| - 1 :: !Final(fs[i])
  }

  /** The frames of a session, up to and with the first that ends it. */
  function Session(inp: seq<Byte>, p: nat): (fs: seq<Frame>)
    requires p <= |inp|
    ensures fs != [] && EndsSession(fs)
    decreases |inp| - p
  {
    var f := Hunt(inp, p);
    if Final(f) then [f] else [f] + Session(inp, f.next)
  }

  // ---------------------------------------------------------------------------------------------
  // What a session leaves in memory
  // ---------------------------------------------------------------------------------------------

  /** The sequence number a frame counts under: a damaged header continues the run before it. */
  function RunNo(fs: seq<Frame>, i: nat): int
    requires i < |fs|
  {
    if fs[i].Packet? then fs[i].seqNo
    else if i == 0 then -1
    else RunNo(fs, i - 1)
  }

  predicate LastOfRun(fs: seq<Frame>, i: nat)
    requires i < |fs|
  {
    i == |fs| - 1 || RunNo(fs, i + 1) != RunNo(fs, i)
  }

  predicate GoodData(f: Frame) {
    f.Packet? && f.ok && f.kind == DATA_TYPE
  }

  /** The parameters a sender may set, and their defaults. */
  datatype Params = Params(padCount: Byte, padChar: Byte, eol: Byte, quote: Byte)

  const DEFAULTS := Params(0, 0, END_CHAR, K_ESCAPE)

  /** How many characters of a send-init packet the receiver looks at. */
  function Considered(payload: seq<Byte>): (n: nat)
    ensures n < SEND_DATA_SIZE - 1
  {
    if |payload| >= SEND_DATA_SIZE - 1 then SEND_DATA_SIZE - 2 else |payload|
  }

  function ParseParams(payload: seq<Byte>): Params {
    var bytes := Considered(payload);
    Params(
      if bytes >= 3 then UnToChar(payload[2]) else DEFAULTS.padCount,
      if bytes >= 4 then KTrans(payload[3]) else DEFAULTS.padChar,
      if bytes >= 5 then UnToChar(payload[4]) else DEFAULTS.eol,
      if bytes >= 6 then payload[5] else DEFAULTS.quote)
  }

  function ParamsAfter(p: Params, f: Frame): Params {
    if f.Packet? && f.ok && f.kind == SEND_TYPE then ParseParams(f.payload) else p
  }

  /** The parameters in force after some frames: those of the last good send-init packet. */
  function ParamsOf(fs: seq<Frame>): Params {
    if fs == [] then DEFAULTS
    else ParamsAfter(ParamsOf(fs[..|fs| - 1]), fs[|fs| - 1])
  }

  /** Frame `i` ends a run of equal sequence numbers and is good data: only such data are kept. */
  predicate Kept(fs: seq<Frame>, i: nat)
    requires i < |fs|
  {
    LastOfRun(fs, i) && GoodData(fs[i])
  }

  /** The decoded data of the kept packets among the first `k` frames, in order. */
  function Assembled(fs: seq<Frame>, k: nat): Line
    requires k <= |fs|
  {
    if k == 0 then EMPTY
    else if Kept(fs, k - 1) then
      Decode(Assembled(fs, k - 1), ParamsOf(fs[..k - 1]).quote, fs[k - 1].payload)
    else Assembled(fs, k - 1)
  }

  /** A control character made printable, as in the padding field and behind a quote. */
  function Ctl(c: Byte): Byte
    requires IsControl(c)
  {
    if c % 128 == 127 then c - 64 else c + 64
  }

  /** The data of a sender's send-init packet (Kermit Protocol Manual, section 6.2). */
  function SendInit(maxl: Byte, time: Byte, p: Params, more: seq<Byte>): seq<Byte>
    requires IsControl(p.padChar)
  {
    [ToChar(maxl), ToChar(time), ToChar(p.padCount), Ctl(p.padChar), ToChar(p.eol), p.quote] + more
  }

  lemma FieldsAreUndone(x: Byte, c: Byte)
    requires IsControl(c)
    ensures UnToChar(ToChar(x)) == x && KTrans(Ctl(c)) == c
  {
  }

  /** The receiver takes over what a send-init packet says, and the defaults for the fields it leaves out. */
  lemma SendInitIsParsed(maxl: Byte, time: Byte, p: Params, more: seq<Byte>)
    requires IsControl(p.padChar)
    ensures ParseParams(SendInit(maxl, time, p, more)) == p
    ensures forall k | 0 <= k < 6 ::
              ParseParams(SendInit(maxl, time, p, more)[..k])
              == Params(if k < 3 then 0 else p.padCount, if k < 4 then 0 else p.padChar,
                        if k < 5 then END_CHAR else p.eol, K_ESCAPE)
  {
    hide UnToChar, ToChar, KTrans, Ctl, IsControl;
    FieldsAreUndone(p.padCount, p.padChar);
    FieldsAreUndone(p.eol, p.padChar);
  }

  predicate IsControl(c: Byte) {
    c % 128 < 32 || c % 128 == 127
  }

  /** A character with its bit 6 inverted. */
  function Toggled(c: Byte): Byte {
    if c % 128 < 64 then c + 64 else c - 64
  }

  lemma KTransToggles(c: Byte)
    ensures KTrans(c) == if IsControl(Toggled(c)) then Toggled(c) else c
  {
    var r := if c < 128 then c else c - 128;
    assert c % 128 == r;
    assert Toggled(c) % 128 == if r < 64 then r + 64 else r - 64;
  }

  /** The character behind a quote means the control character that differs from it in bit 6, or else itself. */
  lemma QuoteBeforeCharacter(l: Line, quote: Byte, c: Byte)
    requires !l.escape
    ensures Decode(l, quote, [quote, c]) == Line(false, l.out + [if IsControl(Toggled(c)) then Toggled(c) else c])
  {
    hide KTrans, Toggled, IsControl, Decode;
    DecodeTwo(l, quote, quote, c);
    KTransToggles(c);
  }

  // ---------------------------------------------------------------------------------------------
  // The receiver's checkpoints
  // ---------------------------------------------------------------------------------------------

  datatype State = State(current: Line, saved: Line, lastNo: int, params: Params)

  const INITIAL := State(EMPTY, EMPTY, -1, DEFAULTS)

  /** The effect of one frame. */
  function Step(st: State, f: Frame): State {
    match f
    case Starved => st
    case Interrupted => st
    case Damaged(_) => st.(current := st.saved)
    case Packet(n, kind, payload, ok, _) =>
      var base := if n == st.lastNo then st.saved else st.current;
      State(if GoodData(f) then Decode(base, st.params.quote, payload) else base,
            base, n, ParamsAfter(st.params, f))
  }

  function Run(fs: seq<Frame>): State {
    if fs == [] then INITIAL else Step(Run(fs[..|fs| - 1]), fs[|fs| - 1])
  }

  predicate Received(f: Frame) {
    f.Damaged? || (f.Packet? && 0 <= f.seqNo)
  }

  predicate AllReceived(fs: seq<Frame>) {
    forall i | 0 <= i < |fs| :: Received(fs[i])
  }

  lemma AllReceivedSnoc(fs: seq<Frame>, f: Frame)
    requires AllReceived(fs) && Received(f)
    ensures AllReceived(fs + [f])
  {
  }

  /** Index of the first frame of the last run. */
  function RunStart(fs: seq<Frame>): (r: nat)
    requires fs != []
    ensures r < |fs|
  {
    var n := |fs| - 1;
    if n == 0 || RunNo(fs, n - 1) != RunNo(fs, n) then n else RunStart(fs[..n])
  }

  lemma {:induction false} RunNoPrefix(fs: seq<Frame>, f: Frame, i: nat)
    requires i < |fs|
    ensures RunNo(fs + [f], i) == RunNo(fs, i)
  {
    if fs[i].Packet? || i == 0 {
    } else {
      RunNoPrefix(fs, f, i - 1);
    }
  }

  /** A frame more changes what is kept of the frames before it only for the last of them. */
  lemma {:induction false} AssembledPrefix(fs: seq<Frame>, f: Frame, k: nat)
    requires k < |fs| || (k == |fs| && (fs == [] || RunNo(fs + [f], |fs|) != RunNo(fs, |fs| - 1)))
    ensures Assembled(fs + [f], k) == Assembled(fs, k)
  {
    if k == 0 {
    } else {
      AssembledPrefix(fs, f, k - 1);
      RunNoPrefix(fs, f, k - 1);
      if k < |fs| {
        RunNoPrefix(fs, f, k);
      }
      assert (fs + [f])[..k - 1] == fs[..k - 1];
    }
  }

  lemma {:induction false} RunNoInRun(fs: seq<Frame>, i: nat)
    requires fs != [] && RunStart(fs) <= i < |fs|
    ensures RunNo(fs, i) == RunNo(fs, |fs| - 1)
  {
    var n := |fs| - 1;
    if i == n {
    } else {
      RunNoInRun(fs[..n], i);
      assert fs[..n] + [fs[n]] == fs;
      RunNoPrefix(fs[..n], fs[n], i);
      RunNoPrefix(fs[..n], fs[n], n - 1);
    }
  }

  /** Nothing of a run is kept before its last frame. */
  lemma {:induction false} AssembledInRun(fs: seq<Frame>, k: nat)
    requires fs != [] && RunStart(fs) <= k < |fs|
    ensures Assembled(fs, k) == Assembled(fs, RunStart(fs))
  {
    if RunStart(fs) == k {
    } else {
      AssembledInRun(fs, k - 1);
      RunNoInRun(fs, k - 1);
      RunNoInRun(fs, k);
    }
  }

  /** The invariant of the receiver over every session. */
  lemma {:induction false} RunInvariant(fs: seq<Frame>)
    requires forall i | 0 <= i < |fs| :: Received(fs[i])
    ensures Run(fs).current == Assembled(fs, |fs|)
    ensures Run(fs).params == ParamsOf(fs)
    ensures fs != [] ==> Run(fs).saved == Assembled(fs, RunStart(fs))
    ensures fs != [] ==> Run(fs).lastNo == RunNo(fs, |fs| - 1)
  {
    if fs == [] {
    } else {
      var n := |fs| - 1;
      var gs, f := fs[..n], fs[n];
      assert fs == gs + [f];
      RunInvariant(gs);
      if n == 0 {
      } else {
        RunNoPrefix(gs, f, n - 1);
        if RunNo(fs, n) == RunNo(fs, n - 1) {
          AssembledPrefix(gs, f, RunStart(gs));
          AssembledInRun(fs, n);
        } else {
          AssembledPrefix(gs, f, n);
        }
      }
    }
  }

  /** The quoted text of the kept packets among the first `k` frames. */
  function KeptText(fs: seq<Frame>, k: nat): seq<Byte>
    requires k <= |fs|
  {
    if k == 0 then []
    else KeptText(fs, k - 1) + if Kept(fs, k - 1) then fs[k - 1].payload else []
  }

  lemma {:induction false} AssembledIsDecoded(fs: seq<Frame>, k: nat, quote: Byte)
    requires k <= |fs|
    requires forall i | 0 <= i < k && Kept(fs, i) :: ParamsOf(fs[..i]).quote == quote
    ensures Assembled(fs, k) == Decode(EMPTY, quote, KeptText(fs, k))
  {
    if k == 0 {
    } else {
      AssembledIsDecoded(fs, k - 1, quote);
      if Kept(fs, k - 1) {
        DecodeConcat(EMPTY, quote, KeptText(fs, k - 1), fs[k - 1].payload);
      } else {
        assert KeptText(fs, k) == KeptText(fs, k - 1);
      }
    }
  }

  /**
    Whatever way a sender cut its quoted text into packets, and whatever was repeated or damaged on
    the way, a session whose kept packets carry that text leaves exactly the sender's data.
   */
  lemma TransferIsExact(fs: seq<Frame>, quote: Byte, data: seq<Byte>)
    requires KTrans(quote) == quote
    requires forall i | 0 <= i < |fs| :: Received(fs[i])
    requires forall i | 0 <= i < |fs| && Kept(fs, i) :: ParamsOf(fs[..i]).quote == quote
    requires KeptText(fs, |fs|) == QuotedAll(quote, data)
    ensures Run(fs).current == Line(false, data)
  {
    RunInvariant(fs);
    AssembledIsDecoded(fs, |fs|, quote);
    DecodeQuotedAll(quote, data);
  }

  lemma {:induction false} DecodeAdvances(l: Line, quote: Byte, s: seq<Byte>)
    ensures var r := Decode(l, quote, s);
            2 * |r.out| + (if r.escape then 1 else 0) >= 2 * |l.out| + (if l.escape then 1 else 0) + |s|
  {
    if s == [] {
    } else {
      DecodeAdvances(l, quote, s[..|s| - 1]);
    }
  }

  /**
    A packet with a damaged header leaves what has been received as it was exactly if the frame
    before it was not a good data packet with data in it.
   */
  lemma DamagedHeaderIsHarmless(fs: seq<Frame>, next: nat)
    requires AllReceived(fs)
    ensures Run(fs + [Damaged(next)]).current == Run(fs).current
            <==> fs == [] || !GoodData(fs[|fs| - 1]) || fs[|fs| - 1].payload == []
  {
    RunSnoc(fs, Damaged(next));
    if fs != [] {
      var before, f := Run(fs[..|fs| - 1]), fs[|fs| - 1];
      assert Received(f);
      if f.Packet? {
        var base := if f.seqNo == before.lastNo then before.saved else before.current;
        DecodeAdvances(base, before.params.quote, f.payload);
      }
    }
  }

  /** With no damaged header and no repeated number every good data packet is kept. */
  lemma AllKept(fs: seq<Frame>, i: nat)
    requires i < |fs|
    requires forall k | 0 <= k < |fs| :: fs[k].Packet?
    requires forall k | 0 < k < |fs| :: fs[k].seqNo != fs[k - 1].seqNo
    ensures Kept(fs, i) == GoodData(fs[i])
  {
    if i + 1 < |fs| {
      assert fs[i + 1].seqNo != fs[i + 1 - 1].seqNo;
    }
  }

  // ---------------------------------------------------------------------------------------------
  // Well-formed packets
  // ---------------------------------------------------------------------------------------------

  function Sum(s: seq<Byte>): nat {
    if s == [] then 0 else Sum(s[..|s| - 1]) + s[|s| - 1]
  }

  /** A packet as the protocol builds it, with `eol` after the block check. */
  function Packed(n: Byte, kind: Byte, data: seq<Byte>, eol: seq<Byte>): seq<Byte> {
    var body := [ToChar(|data| + 3), ToChar(n), kind] + data;
    [START_CHAR] + body + [ToChar(Check(Sum(body)))] + eol
  }

  /** The two length characters of a long packet: the data and the block check, in base 95. */
  function LongLength(data: seq<Byte>): seq<Byte> {
    [ToChar((|data| + 1) / 95), ToChar((|data| + 1) % 95)]
  }

  /** The head of a long packet, from the zero length to the check of the head. */
  function LongHead(n: Byte, kind: Byte, data: seq<Byte>): (h: seq<Byte>)
    ensures |h| == 6
  {
    var head := [ToChar(0), ToChar(n), kind] + LongLength(data);
    head + [ToChar(Check(Sum(head)))]
  }

  /** A packet with extended length. */
  function PackedLong(n: Byte, kind: Byte, data: seq<Byte>, eol: seq<Byte>): seq<Byte> {
    var body := LongHead(n, kind, data) + data;
    [START_CHAR] + body + [ToChar(Check(Sum(body)))] + eol
  }

  lemma {:induction false} SumConcat(s: seq<Byte>, t: seq<Byte>)
    ensures Sum(s + t) == Sum(s) + Sum(t)
  {
    if t == [] {
      assert s + t == s;
    } else {
      var n := |t| - 1;
      SumConcat(s, t[..n]);
      assert (s + t)[..|s + t| - 1] == s + t[..n];
    }
  }

  /** The data field is taken in as it stands. */
  lemma {:induction false} DataIsRead(inp: seq<Byte>, a: nat, q: nat, e: nat, n: Byte, kind: Byte, sum: nat)
    requires a <= q <= e <= |inp|
    requires forall k | a <= k < e :: !Control(inp[k])
    ensures Data(inp, a, q, e - q + 1, n, kind, sum) == Trailer(inp, a, e, n, kind, sum + Sum(inp[q..e]))
    decreases e - q
  {
    hide Trailer;
    if q == e {
    } else {
      DataIsRead(inp, a, q + 1, e, n, kind, sum + inp[q]);
      assert inp[q..e] == [inp[q]] + inp[q + 1..e];
      SumConcat([inp[q]], inp[q + 1..e]);
      assert [inp[q]][..0] == [];
    }
  }

  predicate At(inp: seq<Byte>, p: nat, t: seq<Byte>) {
    p + |t| <= |inp| && forall k | 0 <= k < |t| :: inp[p + k] == t[k]
  }

  lemma SumOfThree(x: Byte, y: Byte, z: Byte, data: seq<Byte>)
    ensures Sum([x, y, z] + data) == x as int + y + z + Sum(data)
  {
    SumConcat([x, y, z], data);
    var s: seq<Byte> := [x, y, z];
    assert s[..2][..1] == s[..1] && s[..1][..0] == [];
    assert Sum(s[..1]) == x as int;
    assert Sum(s[..2]) == x as int + y;
    assert s[..|s| - 1] == s[..2];
    assert Sum(s) == x as int + y + z;
  }

  lemma HeaderIsRead(inp: seq<Byte>, p: nat, length: nat, n: Byte, kind: Byte)
    requires p + 4 <= |inp| && 3 <= length <= 223 && n <= 223 && !Control(kind)
    requires inp[p] == START_CHAR && inp[p + 1] == ToChar(length) && inp[p + 2] == ToChar(n) && inp[p + 3] == kind
    ensures Hunt(inp, p)
         == Data(inp, p + 4, p + 4, length - 2, n, kind, ToChar(length) as int + ToChar(n) + kind)
  {
    hide Data;
  }

  lemma CharIsRead(x: nat)
    requires x <= 223
    ensures UnToChar(ToChar(x)) == x && !Control(ToChar(x)) && ToChar(x) == x + 32
  {
  }

  lemma LongHeaderIsRead(inp: seq<Byte>, p: nat, hi: nat, lo: nat, n: Byte, kind: Byte)
    requires p + 7 <= |inp| && hi <= 223 && lo < 95 && n <= 223 && !Control(kind)
    requires inp[p] == START_CHAR && inp[p + 1] == ToChar(0) && inp[p + 2] == ToChar(n) && inp[p + 3] == kind
    requires inp[p + 4] == ToChar(hi) && inp[p + 5] == ToChar(lo)
    requires inp[p + 6] == ToChar(Check(ToChar(0) as int + ToChar(n) + kind + ToChar(hi) + ToChar(lo)))
    ensures Hunt(inp, p) == Data(inp, p + 7, p + 7, hi * 95 + lo, n, kind,
                                 ToChar(0) as int + ToChar(n) + kind + ToChar(hi) + ToChar(lo) + inp[p + 6])
  {
    hide Data, ToChar, UnToChar, Check, Control, Extended;
    CharIsRead(0);
    CharIsRead(n);
    assert Hunt(inp, p) == Header(inp, p + 1);
    assert Header(inp, p + 1) == Extended(inp, p + 4, n, kind, ToChar(0) as int + ToChar(n) + kind);
    ExtensionIsRead(inp, p + 4, hi, lo, n, kind, ToChar(0) as int + ToChar(n) + kind);
  }

  lemma ExtensionIsRead(inp: seq<Byte>, q: nat, hi: nat, lo: nat, n: Byte, kind: Byte, sum: nat)
    requires q + 3 <= |inp| && hi <= 223 && lo < 95
    requires inp[q] == ToChar(hi) && inp[q + 1] == ToChar(lo)
    requires inp[q + 2] == ToChar(Check(sum + ToChar(hi) + ToChar(lo)))
    ensures Extended(inp, q, n, kind, sum)
         == Data(inp, q + 3, q + 3, hi * 95 + lo, n, kind, sum + ToChar(hi) + ToChar(lo) + inp[q + 2])
  {
    hide Data, ToChar, UnToChar, Control;
    CharIsRead(hi);
    CharIsRead(lo);
    CharIsRead(Check(sum + ToChar(hi) + ToChar(lo)));
  }

  lemma Slice(inp: seq<Byte>, p: nat, t: seq<Byte>, i: nat, j: nat)
    requires At(inp, p, t) && i <= j <= |t|
    ensures inp[p + i..p + j] == t[i..j]
  {
  }

  /** How a packet ends that is right up to its block check: by the character behind that. */
  function Ended(inp: seq<Byte>, q: nat, n: Byte, kind: Byte, data: seq<Byte>): Frame
    requires q <= |inp|
  {
    if q == |inp| then Starved else Packet(n, kind, data, inp[q] == END_CHAR, q + 1)
  }

  /** The data and the block check of a packet, behind `h` characters of head. */
  lemma TrailerIsRead(inp: seq<Byte>, p: nat, h: nat, n: Byte, kind: Byte, data: seq<Byte>, sum: nat, t: seq<Byte>)
    requires At(inp, p, t) && |t| == h + |data| + 1 && t[h..h + |data|] == data
    requires t[|t| - 1] == ToChar(Check(sum + Sum(data)))
    requires forall k | 0 <= k < |data| :: !Control(data[k])
    ensures Data(inp, p + h, p + h, |data| + 1, n, kind, sum) == Ended(inp, p + |t|, n, kind, data)
  {
    var a, e := p + h, p + h + |data|;
    Slice(inp, p, t, h, h + |data|);
    assert inp[a..e] == data && inp[e] == t[|t| - 1];
    forall k | a <= k < e
      ensures !Control(inp[k])
    {
      assert inp[k] == inp[a..e][k - a];
    }
    DataIsRead(inp, a, a, e, n, kind, sum);
  }

  /** What a packet without its end of line reads as, wherever it stands in the stream. */
  lemma ShortIsRead(inp: seq<Byte>, p: nat, n: Byte, kind: Byte, data: seq<Byte>)
    requires |data| <= 220 && n <= 223 && !Control(kind)
    requires forall k | 0 <= k < |data| :: !Control(data[k])
    requires At(inp, p, Packed(n, kind, data, []))
    ensures Hunt(inp, p) == Ended(inp, p + |data| + 5, n, kind, data)
  {
    hide Data, Hunt, Sum, Check, ToChar, Ended;
    var t := Packed(n, kind, data, []);
    assert t[0] == START_CHAR && t[1] == ToChar(|data| + 3) && t[2] == ToChar(n) && t[3] == kind;
    assert inp[p] == t[0] && inp[p + 1] == t[1] && inp[p + 2] == t[2] && inp[p + 3] == t[3];
    HeaderIsRead(inp, p, |data| + 3, n, kind);
    assert t[4..4 + |data|] == data;
    SumOfThree(t[1], t[2], t[3], data);
    TrailerIsRead(inp, p, 4, n, kind, data, t[1] as int + t[2] + t[3], t);
  }

  lemma HeadSums(n: Byte, kind: Byte, data: seq<Byte>)
    ensures var h := LongHead(n, kind, data);
            && h[0] == ToChar(0) && h[1] == ToChar(n) && h[2] == kind && h[3..5] == LongLength(data)
            && h[5] == ToChar(Check(h[0] as int + h[1] + h[2] + h[3] + h[4]))
            && Sum(h + data) == h[0] as int + h[1] + h[2] + h[3] + h[4] + h[5] + Sum(data)
  {
    hide Sum, Check, ToChar;
    var h := LongHead(n, kind, data);
    SumOfThree(h[0], h[1], h[2], LongLength(data));
    SumOfTwo(h[3], h[4], []);
    SumOfNone();
    assert [h[3], h[4]] + [] == LongLength(data);
    SumOfThree(h[0], h[1], h[2], [h[3], h[4], h[5]] + data);
    SumOfThree(h[3], h[4], h[5], data);
    assert h + data == [h[0], h[1], h[2]] + ([h[3], h[4], h[5]] + data);
  }

  lemma SumOfNone()
    ensures Sum([]) == 0
  {
  }

  lemma SumOfTwo(x: Byte, y: Byte, data: seq<Byte>)
    ensures Sum([x, y] + data) == x as int + y + Sum(data)
  {
    SumConcat([x, y], data);
    var s: seq<Byte> := [x, y];
    assert s[..1][..0] == [];
    assert Sum(s[..1]) == x as int;
    assert Sum(s) == x as int + y;
  }

  /** The same for a packet with extended length. */
  lemma LongIsRead(inp: seq<Byte>, p: nat, n: Byte, kind: Byte, data: seq<Byte>)
    requires |data| + 1 < 224 * 95 && n <= 223 && !Control(kind)
    requires forall k | 0 <= k < |data| :: !Control(data[k])
    requires At(inp, p, PackedLong(n, kind, data, []))
    ensures Hunt(inp, p) == Ended(inp, p + |data| + 8, n, kind, data)
  {
    hide Data, Hunt, Sum, Check, ToChar, Ended, LongHead;
    var t, h := PackedLong(n, kind, data, []), LongHead(n, kind, data);
    HeadSums(n, kind, data);
    LongChars(inp, p, t, h, data);
    LongHeaderIsRead(inp, p, (|data| + 1) / 95, (|data| + 1) % 95, n, kind);
    assert t[7..7 + |data|] == data;
    TrailerIsRead(inp, p, 7, n, kind, data, h[0] as int + h[1] + h[2] + h[3] + h[4] + h[5], t);
  }

  lemma LongChars(inp: seq<Byte>, p: nat, t: seq<Byte>, h: seq<Byte>, data: seq<Byte>)
    requires |h| == 6 && |t| == |data| + 8 && t[..7] == [START_CHAR] + h && At(inp, p, t)
    requires h[3..5] == LongLength(data)
    ensures inp[p] == START_CHAR && inp[p + 1] == h[0] && inp[p + 2] == h[1] && inp[p + 3] == h[2]
    ensures inp[p + 4] == h[3] == ToChar((|data| + 1) / 95)
    ensures inp[p + 5] == h[4] == ToChar((|data| + 1) % 95)
    ensures inp[p + 6] == h[5]
  {
    hide ToChar;
    var head := [START_CHAR] + h;
    assert At(inp, p, head) by {
      forall k | 0 <= k < |head|
        ensures inp[p + k] == head[k]
      {
        assert head[k] == t[..7][k];
      }
    }
    AtIndex(inp, p, head, 0);
    AtIndex(inp, p, head, 1);
    AtIndex(inp, p, head, 2);
    AtIndex(inp, p, head, 3);
    AtIndex(inp, p, head, 4);
    AtIndex(inp, p, head, 5);
    AtIndex(inp, p, head, 6);
    assert h[3] == h[3..5][0] && h[4] == h[3..5][1];
  }

  lemma AtIndex(inp: seq<Byte>, p: nat, t: seq<Byte>, k: nat)
    requires At(inp, p, t) && k < |t|
    ensures p + k < |inp| && inp[p + k] == t[k]
  {
  }

  /** The receiver reads a well-formed packet back exactly, wherever it stands in the stream. */
  lemma PackedIsRead(inp: seq<Byte>, p: nat, n: Byte, kind: Byte, data: seq<Byte>)
    requires |data| <= 220 && n <= 223 && !Control(kind)
    requires forall k | 0 <= k < |data| :: !Control(data[k])
    requires At(inp, p, Packed(n, kind, data, [END_CHAR]))
    ensures Hunt(inp, p) == Packet(n, kind, data, true, p + |data| + 6)
  {
    hide Hunt, ToChar, Check, Sum;
    var t := Packed(n, kind, data, []);
    assert Packed(n, kind, data, [END_CHAR]) == t + [END_CHAR];
    AtSplit(inp, p, t, [END_CHAR]);
    ShortIsRead(inp, p, n, kind, data);
    AtIndex(inp, p + |t|, [END_CHAR], 0);
  }

  lemma PackedLongIsRead(inp: seq<Byte>, p: nat, n: Byte, kind: Byte, data: seq<Byte>)
    requires |data| + 1 < 224 * 95 && n <= 223 && !Control(kind)
    requires forall k | 0 <= k < |data| :: !Control(data[k])
    requires At(inp, p, PackedLong(n, kind, data, [END_CHAR]))
    ensures Hunt(inp, p) == Packet(n, kind, data, true, p + |data| + 9)
  {
    hide Hunt, ToChar, Check, Sum, LongHead;
    var t := PackedLong(n, kind, data, []);
    assert PackedLong(n, kind, data, [END_CHAR]) == t + [END_CHAR];
    AtSplit(inp, p, t, [END_CHAR]);
    LongIsRead(inp, p, n, kind, data);
    AtIndex(inp, p + |t|, [END_CHAR], 0);
  }

  // ---------------------------------------------------------------------------------------------
  // Exactly the well-formed packets are accepted
  // ---------------------------------------------------------------------------------------------

  predicate Printable(inp: seq<Byte>, p: nat, e: nat)
    requires p <= e <= |inp|
  {
    forall k | p <= k < e :: !Control(inp[k])
  }

  function Positive(x: int): nat {
    if x < 0 then 0 else x
  }

  /** The data from `p` to `e`, the block check and the end of line stand there and are right. */
  predicate EndsWell(inp: seq<Byte>, p: nat, e: nat, sum: nat) {
    && p <= e && e + 2 <= |inp| && Printable(inp, p, e)
    && inp[e] == ToChar(Check(sum + Sum(inp[p..e]))) && inp[e + 1] == END_CHAR
  }

  predicate Accepts(f: Frame) {
    f.Packet? && f.ok
  }

  lemma SumOfMore(inp: seq<Byte>, q: nat, m: nat, e: nat)
    requires q <= m <= e <= |inp|
    ensures Sum(inp[q..e]) == Sum(inp[q..m]) + Sum(inp[m..e])
  {
    assert inp[q..e] == inp[q..m] + inp[m..e];
    SumConcat(inp[q..m], inp[m..e]);
  }

  lemma TrailerIsGood(inp: seq<Byte>, a: nat, q: nat, n: Byte, kind: Byte, sum: nat)
    requires a <= q <= |inp|
    ensures if EndsWell(inp, q, q, sum) then Trailer(inp, a, q, n, kind, sum) == Packet(n, kind, inp[a..q], true, q + 2)
            else !Accepts(Trailer(inp, a, q, n, kind, sum))
  {
    PrintableCheck(sum);
    hide ToChar, Check, Control;
    assert inp[q..q] == [] && Sum([]) == 0;
  }

  /** A character more at the front of the data. */
  lemma EndsWellNext(inp: seq<Byte>, q: nat, e: nat, sum: nat)
    requires q < e && q < |inp|
    ensures EndsWell(inp, q, e, sum) <==> !Control(inp[q]) && EndsWell(inp, q + 1, e, sum + inp[q])
  {
    hide ToChar, Check, Control, Sum;
    if e <= |inp| {
      SumOfMore(inp, q, q + 1, e);
      SumOfOne(inp, q);
    }
  }

  lemma SumOfOne(inp: seq<Byte>, q: nat)
    requires q < |inp|
    ensures Sum(inp[q..q + 1]) == inp[q] as int
  {
    assert inp[q..q + 1][..0] == [];
  }

  lemma {:induction false} DataIsGood(inp: seq<Byte>, a: nat, q: nat, length: int, n: Byte, kind: Byte, sum: nat)
    requires a <= q <= |inp|
    ensures var e, f := q + Positive(length - 1), Data(inp, a, q, length, n, kind, sum);
            if EndsWell(inp, q, e, sum) then f == Packet(n, kind, inp[a..e], true, e + 2) else !Accepts(f)
    decreases |inp| - q
  {
    hide Control, EndsWell, Trailer;
    if length <= 1 {
      TrailerIsGood(inp, a, q, n, kind, sum);
    } else if q == |inp| {
      EndsInside(inp, q, q + length - 1, sum);
    } else {
      DataIsGood(inp, a, q + 1, length - 1, n, kind, sum + inp[q]);
      EndsWellNext(inp, q, q + length - 1, sum);
      EndsInside(inp, q, q + length - 1, sum);
    }
  }

  lemma EndsInside(inp: seq<Byte>, q: nat, e: nat, sum: nat)
    ensures EndsWell(inp, q, e, sum) ==> e + 2 <= |inp|
  {
  }

  /** How many characters the head of a packet has. */
  function HeadLength(first: Byte): nat {
    if UnToChar(first) == 0 then 6 else 3
  }

  /** How many characters of data the head at `q` announces. */
  function Announced(inp: seq<Byte>, q: nat): nat
    requires q + 6 <= |inp| || (q < |inp| && HeadLength(inp[q]) == 3)
  {
    if HeadLength(inp[q]) == 3 then Positive(UnToChar(inp[q]) - 3)
    else Positive(UnToChar(inp[q + 3]) * 95 + UnToChar(inp[q + 4]) - 1)
  }

  /**
    The characters from `q` up to `next` are a well-formed packet without its start: printable head and
    data, as many data as announced, the checks of an extended head and of the packet, the end of line.
   */
  predicate WellFormedAt(inp: seq<Byte>, q: nat, next: nat, n: Byte, kind: Byte, data: seq<Byte>) {
    && q < next <= |inp|
    && var h := HeadLength(inp[q]);
    && q + h + |data| + 2 == next && Printable(inp, q, next - 2)
    && UnToChar(inp[q + 1]) == n && inp[q + 2] == kind && |data| == Announced(inp, q)
    && (h == 6 ==> inp[q + 5] == ToChar(Check(Sum(inp[q..q + 5]))))
    && inp[q + h..next - 2] == data
    && inp[next - 2] == ToChar(Check(Sum(inp[q..next - 2]))) && inp[next - 1] == END_CHAR
  }

  lemma SumOfFirst(inp: seq<Byte>, q: nat, m: nat)
    requires q <= m < |inp|
    ensures Sum(inp[q..m + 1]) == Sum(inp[q..m]) + inp[m]
  {
    assert inp[q..m + 1][..m - q] == inp[q..m];
  }

  lemma SumOfHead(inp: seq<Byte>, q: nat)
    requires q + 3 <= |inp|
    ensures Sum(inp[q..q + 3]) == inp[q] as int + inp[q + 1] + inp[q + 2]
  {
    SumOfNone();
    assert inp[q..q] == [];
    SumOfFirst(inp, q, q);
    SumOfFirst(inp, q, q + 1);
    SumOfFirst(inp, q, q + 2);
  }

  /** A packet with a head of three characters. */
  lemma ShortIsGood(inp: seq<Byte>, q: nat)
    requires q + 3 <= |inp| && Printable(inp, q, q + 3) && UnToChar(inp[q]) > 0
    ensures var e, f := q + 3 + Positive(UnToChar(inp[q]) - 3), Header(inp, q);
            if EndsWell(inp, q + 3, e, Sum(inp[q..q + 3]))
            then f == Packet(UnToChar(inp[q + 1]), inp[q + 2], inp[q + 3..e], true, e + 2) else !Accepts(f)
  {
    hide ToChar, UnToChar, Check, Control, Data;
    var sum := inp[q] as int + inp[q + 1] + inp[q + 2];
    SumOfHead(inp, q);
    DataIsGood(inp, q + 3, q + 3, UnToChar(inp[q]) - 2, UnToChar(inp[q + 1]), inp[q + 2], sum);
    assert Header(inp, q) == Data(inp, q + 3, q + 3, UnToChar(inp[q]) - 2, UnToChar(inp[q + 1]), inp[q + 2], sum);
  }

  /** A packet with a head of six characters. */
  lemma LongIsGood(inp: seq<Byte>, q: nat)
    requires q + 6 <= |inp| && Printable(inp, q, q + 5) && UnToChar(inp[q]) == 0
    ensures var length := UnToChar(inp[q + 3]) * 95 + UnToChar(inp[q + 4]);
            var e, f := q + 6 + Positive(length - 1), Header(inp, q);
            if inp[q + 5] == ToChar(Check(Sum(inp[q..q + 5]))) && EndsWell(inp, q + 6, e, Sum(inp[q..q + 6]))
            then f == Packet(UnToChar(inp[q + 1]), inp[q + 2], inp[q + 6..e], true, e + 2) else !Accepts(f)
  {
    hide ToChar, UnToChar, Check, Control, Data, Sum;
    var sum := inp[q] as int + inp[q + 1] + inp[q + 2];
    SumOfHead(inp, q);
    SumOfFirst(inp, q, q + 3);
    SumOfFirst(inp, q, q + 4);
    SumOfFirst(inp, q, q + 5);
    var n, kind := UnToChar(inp[q + 1]), inp[q + 2];
    var sum' := sum + inp[q + 3] + inp[q + 4];
    PrintableCheck(sum');
    DataIsGood(inp, q + 6, q + 6, UnToChar(inp[q + 3]) * 95 + UnToChar(inp[q + 4]), n, kind, sum' + inp[q + 5]);
    assert Header(inp, q) == Extended(inp, q + 3, n, kind, sum);
  }

  lemma HeadIsRead(inp: seq<Byte>, q: nat)
    requires q <= |inp| && Accepts(Header(inp, q))
    ensures q + 3 <= |inp| && Printable(inp, q, q + 3)
    ensures UnToChar(inp[q]) == 0 ==> q + 6 <= |inp| && Printable(inp, q, q + 5)
  {
    hide ToChar, UnToChar, Check, Data;
  }

  /** After a start of packet exactly the well-formed packets are accepted, as what they say. */
  lemma AcceptedIsWellFormed(inp: seq<Byte>, q: nat, n: Byte, kind: Byte, data: seq<Byte>, next: nat)
    requires q <= |inp|
    ensures Header(inp, q) == Packet(n, kind, data, true, next) <==> WellFormedAt(inp, q, next, n, kind, data)
  {
    if WellFormedAt(inp, q, next, n, kind, data) {
      FromWellFormed(inp, q, n, kind, data, next);
    }
    if Header(inp, q) == Packet(n, kind, data, true, next) {
      ToWellFormed(inp, q, n, kind, data, next);
    }
  }

  lemma FromWellFormed(inp: seq<Byte>, q: nat, n: Byte, kind: Byte, data: seq<Byte>, next: nat)
    requires WellFormedAt(inp, q, next, n, kind, data)
    ensures Header(inp, q) == Packet(n, kind, data, true, next)
  {
    hide ToChar, UnToChar, Check, Control, Data, Sum, Header;
    var h := HeadLength(inp[q]);
    SumOfMore(inp, q, q + h, next - 2);
    if h == 3 {
      ShortIsGood(inp, q);
    } else {
      LongIsGood(inp, q);
    }
  }

  lemma ToWellFormed(inp: seq<Byte>, q: nat, n: Byte, kind: Byte, data: seq<Byte>, next: nat)
    requires q <= |inp| && Header(inp, q) == Packet(n, kind, data, true, next)
    ensures WellFormedAt(inp, q, next, n, kind, data)
  {
    HeadIsRead(inp, q);
    hide ToChar, UnToChar, Check, Control, Data, Sum, Header, EndsWell;
    if UnToChar(inp[q]) > 0 {
      ShortIsGood(inp, q);
      EndsWellMeans(inp, q, q + 3, next);
    } else {
      LongIsGood(inp, q);
      PrintableCheck(Sum(inp[q..q + 5]));
      EndsWellMeans(inp, q, q + 6, next);
    }
  }

  lemma EndsWellMeans(inp: seq<Byte>, q: nat, p: nat, next: nat)
    requires q <= p <= |inp| && Printable(inp, q, p) && next >= 2 && EndsWell(inp, p, next - 2, Sum(inp[q..p]))
    ensures p + 2 <= next <= |inp| && Printable(inp, q, next - 2)
    ensures inp[next - 2] == ToChar(Check(Sum(inp[q..next - 2]))) && inp[next - 1] == END_CHAR
  {
    hide ToChar, Check, Control, Sum;
    SumOfMore(inp, q, p, next - 2);
  }

  lemma PrintableCheck(sum: nat)
    ensures !Control(ToChar(Check(sum)))
  {
  }

  // ---------------------------------------------------------------------------------------------
  // A packet is refused at the first character that cannot belong to a good one
  // ---------------------------------------------------------------------------------------------

  /** The two streams have the same characters from `q` up to `e`. */
  predicate Same(inp: seq<Byte>, other: seq<Byte>, q: nat, e: nat) {
    e <= |inp| && e <= |other| && forall k | q <= k < e :: inp[k] == other[k]
  }

  /** Where a frame ends; for one cut off by the end of the stream, there. */
  function EndOf(f: Frame, inp: seq<Byte>): nat {
    match f
    case Starved => |inp|
    case Interrupted => |inp|
    case Damaged(next) => next
    case Packet(_, _, _, _, next) => next
  }

  lemma {:induction false} DataIsLocal(inp: seq<Byte>, other: seq<Byte>, a: nat, q: nat, length: int, n: Byte,
                                       kind: Byte, sum: nat)
    requires a <= q <= |inp| && Data(inp, a, q, length, n, kind, sum).Packet?
    requires Same(inp, other, a, EndOf(Data(inp, a, q, length, n, kind, sum), inp))
    ensures q <= |other| && Data(other, a, q, length, n, kind, sum) == Data(inp, a, q, length, n, kind, sum)
    decreases |inp| - q
  {
    hide ToChar, Check, Control;
    assert inp[a..q] == other[a..q];
    if length <= 1 || Control(inp[q]) {
    } else {
      DataIsLocal(inp, other, a, q + 1, length - 1, n, kind, sum + inp[q]);
    }
  }

  lemma ExtendedIsPacket(inp: seq<Byte>, p: nat, n: Byte, kind: Byte, sum: nat)
    requires p <= |inp|
    ensures var f := Extended(inp, p, n, kind, sum); f.Starved? || f.Packet?
    ensures p == |inp| ==> Extended(inp, p, n, kind, sum) == Starved
  {
    hide ToChar, UnToChar, Check, Control, Data;
    if p + 3 <= |inp| {
      NumberOfData(inp, p + 3, p + 3, UnToChar(inp[p]) * 95 + UnToChar(inp[p + 1]), n, kind,
                   sum + inp[p] + inp[p + 1] + inp[p + 2]);
    }
  }

  /** What a frame is depends only on the characters up to its end. */
  lemma FrameIsLocal(inp: seq<Byte>, other: seq<Byte>, q: nat)
    requires q <= |inp| && !Header(inp, q).Starved? && Same(inp, other, q, EndOf(Header(inp, q), inp))
    ensures q <= |other| && Header(other, q) == Header(inp, q)
  {
    hide ToChar, UnToChar, Check, Control, Data;
    if !Control(inp[q]) && !Control(inp[q + 1]) && !Control(inp[q + 2]) {
      var n, kind, sum := UnToChar(inp[q + 1]), inp[q + 2], inp[q] as int + inp[q + 1] + inp[q + 2];
      if UnToChar(inp[q]) - 2 != -2 {
        assert Header(inp, q) == Data(inp, q + 3, q + 3, UnToChar(inp[q]) - 2, n, kind, sum);
        NumberOfData(inp, q + 3, q + 3, UnToChar(inp[q]) - 2, n, kind, sum);
        DataIsLocal(inp, other, q + 3, q + 3, UnToChar(inp[q]) - 2, n, kind, sum);
      } else {
        assert Header(inp, q) == Extended(inp, q + 3, n, kind, sum);
        ExtendedIsPacket(inp, q + 3, n, kind, sum);
        ExtendedIsLocal(inp, other, q + 3, n, kind, sum);
      }
    }
  }

  lemma ExtendedIsLocal(inp: seq<Byte>, other: seq<Byte>, p: nat, n: Byte, kind: Byte, sum: nat)
    requires p <= |inp| && Extended(inp, p, n, kind, sum).Packet?
    requires Same(inp, other, p, EndOf(Extended(inp, p, n, kind, sum), inp))
    ensures p <= |other| && Extended(other, p, n, kind, sum) == Extended(inp, p, n, kind, sum)
  {
    hide ToChar, UnToChar, Check, Control, Data;
    if !Control(inp[p]) && !Control(inp[p + 1]) && !Control(inp[p + 2]) {
      var sum' := sum + inp[p] + inp[p + 1];
      if inp[p + 2] == ToChar(Check(sum')) {
        var length := UnToChar(inp[p]) * 95 + UnToChar(inp[p + 1]);
        assert Extended(inp, p, n, kind, sum) == Data(inp, p + 3, p + 3, length, n, kind, sum' + inp[p + 2]);
        DataIsLocal(inp, other, p + 3, p + 3, length, n, kind, sum' + inp[p + 2]);
      }
    }
  }

  /** Blanks for the data that are missing, and the end of a packet. */
  function FillData(length: int, sum: nat): seq<Byte> {
    var m := Positive(length - 1);
    seq(m, _ => BLANK) + [ToChar(Check(sum + m * BLANK)), END_CHAR]
  }

  const BLANK: Byte := 32

  lemma {:induction false} SumOfBlanks(s: seq<Byte>)
    requires forall k | 0 <= k < |s| :: s[k] == BLANK
    ensures Sum(s) == |s| * BLANK
  {
    if s == [] {
    } else {
      SumOfBlanks(s[..|s| - 1]);
    }
  }

  lemma DataFilled(inp: seq<Byte>, a: nat, length: int, n: Byte, kind: Byte, sum: nat)
    requires a <= |inp|
    ensures Accepts(Data(inp + FillData(length, sum), a, |inp|, length, n, kind, sum))
  {
    var m, q := Positive(length - 1), |inp|;
    var t := inp + FillData(length, sum);
    assert forall k | q <= k < q + m :: t[k] == BLANK && !Control(t[k]);
    SumOfBlanks(t[q..q + m]);
    DataIsGood(t, a, q, length, n, kind, sum);
    hide ToChar, Check;
    assert EndsWell(t, q, q + m, sum);
  }

  /** Where the reading of a frame that is not accepted stops: before the character that decides it. */
  function Stop(f: Frame, inp: seq<Byte>): int {
    if f.Starved? then |inp| else EndOf(f, inp) - 1
  }

  lemma {:induction false} DataCompletes(inp: seq<Byte>, a: nat, q: nat, length: int, n: Byte, kind: Byte, sum: nat)
    returns (tail: seq<Byte>)
    requires a <= q <= |inp| && !Accepts(Data(inp, a, q, length, n, kind, sum))
    ensures var e := Stop(Data(inp, a, q, length, n, kind, sum), inp);
            q <= e <= |inp| && Accepts(Data(inp[..e] + tail, a, q, length, n, kind, sum))
    decreases |inp| - q
  {
    PrintableCheck(sum);
    hide ToChar, Check, Control;
    if length > 1 && q < |inp| && !Control(inp[q]) {
      tail := DataCompletes(inp, a, q + 1, length - 1, n, kind, sum + inp[q]);
    } else if length <= 1 && q < |inp| && !Control(inp[q]) && inp[q] == ToChar(Check(sum)) {
      tail := [END_CHAR];
    } else {
      tail := FillData(length, sum);
      DataFilled(inp[..q], a, length, n, kind, sum);
    }
  }

  /** The check of an extended head, and data of that length. */
  function FillLong(hi: Byte, lo: Byte, sum: nat): seq<Byte> {
    var c := ToChar(Check(sum + hi + lo));
    [c] + FillData(UnToChar(hi) * 95 + UnToChar(lo), sum + hi + lo + c)
  }

  lemma LongFilled(inp: seq<Byte>, p: nat, n: Byte, kind: Byte, sum: nat)
    requires p + 2 == |inp| && !Control(inp[p]) && !Control(inp[p + 1])
    ensures Accepts(Extended(inp + FillLong(inp[p], inp[p + 1], sum), p, n, kind, sum))
  {
    var sum' := sum + inp[p] + inp[p + 1];
    PrintableCheck(sum');
    hide ToChar, UnToChar, Check, Control, Data, FillData;
    var c, length := ToChar(Check(sum')), UnToChar(inp[p]) * 95 + UnToChar(inp[p + 1]);
    DataFilled(inp + [c], p + 3, length, n, kind, sum' + c);
    assert inp + FillLong(inp[p], inp[p + 1], sum) == inp + [c] + FillData(length, sum' + c);
  }

  /** The extended part of a head that has been cut off, and the rest of a packet behind it. */
  lemma ExtendedFilled(inp: seq<Byte>, p: nat, n: Byte, kind: Byte, sum: nat) returns (tail: seq<Byte>)
    requires p <= |inp| <= p + 2 && Printable(inp, p, |inp|)
    ensures Accepts(Extended(inp + tail, p, n, kind, sum))
    decreases p + 2 - |inp|
  {
    CharIsRead(0);
    hide ToChar, UnToChar, Check, Control, Extended, FillLong;
    var z := ToChar(0);
    if p + 2 == |inp| {
      tail := FillLong(inp[p], inp[p + 1], sum);
      LongFilled(inp, p, n, kind, sum);
    } else {
      var more := ExtendedFilled(inp + [z], p, n, kind, sum);
      tail := [z] + more;
      assert inp + tail == inp + [z] + more;
    }
  }

  lemma ExtendedCompletes(inp: seq<Byte>, p: nat, n: Byte, kind: Byte, sum: nat) returns (tail: seq<Byte>)
    requires p <= |inp| && !Accepts(Extended(inp, p, n, kind, sum))
    ensures var e := Stop(Extended(inp, p, n, kind, sum), inp);
            p <= e <= |inp| && Accepts(Extended(inp[..e] + tail, p, n, kind, sum))
  {
    hide ToChar, UnToChar, Check, Control, Data;
    if p == |inp| || Control(inp[p]) {
      tail := ExtendedFilled(inp[..p], p, n, kind, sum);
    } else if p + 1 == |inp| || Control(inp[p + 1]) {
      tail := ExtendedFilled(inp[..p + 1], p, n, kind, sum);
    } else if p + 2 == |inp| || Control(inp[p + 2]) || inp[p + 2] != ToChar(Check(sum + inp[p] + inp[p + 1])) {
      tail := ExtendedFilled(inp[..p + 2], p, n, kind, sum);
    } else {
      var sum' := sum + inp[p] + inp[p + 1] + inp[p + 2];
      tail := DataCompletes(inp, p + 3, p + 3, UnToChar(inp[p]) * 95 + UnToChar(inp[p + 1]), n, kind, sum');
    }
  }

  lemma BodyCompletes(inp: seq<Byte>, p: nat, length: int, n: Byte, sum: nat) returns (tail: seq<Byte>)
    requires p <= |inp| && !Accepts(Body(inp, p, length, n, sum))
    ensures var e := Stop(Body(inp, p, length, n, sum), inp);
            p <= e <= |inp| && Accepts(Body(inp[..e] + tail, p, length, n, sum))
  {
    hide ToChar, UnToChar, Check, Data, Extended;
    if p == |inp| || Control(inp[p]) {
      var t := inp[..p] + [DATA_TYPE];
      if length - 1 == -2 {
        ExtendedIsPacket(t, p + 1, n, DATA_TYPE, sum + DATA_TYPE);
        tail := ExtendedCompletes(t, p + 1, n, DATA_TYPE, sum + DATA_TYPE);
      } else {
        tail := FillData(length - 1, sum + DATA_TYPE);
        DataFilled(t, p + 1, length - 1, n, DATA_TYPE, sum + DATA_TYPE);
      }
      assert t[..p + 1] == t && inp[..p] + ([DATA_TYPE] + tail) == t + tail;
      assert (t + tail)[p] == DATA_TYPE;
      tail := [DATA_TYPE] + tail;
    } else if length - 1 == -2 {
      tail := ExtendedCompletes(inp, p + 1, n, inp[p], sum + inp[p]);
    } else {
      tail := DataCompletes(inp, p + 1, p + 1, length - 1, n, inp[p], sum + inp[p]);
    }
  }

  /**
    Up to the character that decides against it, every frame that is not accepted could still have
    become a good packet; and so could one that is cut off.
   */
  lemma FrameCompletes(inp: seq<Byte>, q: nat) returns (tail: seq<Byte>)
    requires q <= |inp| && !Accepts(Header(inp, q))
    ensures var e := Stop(Header(inp, q), inp);
            q <= e <= |inp| && Accepts(Header(inp[..e] + tail, q))
  {
    CharIsRead(3);
    CharIsRead(0);
    hide ToChar, UnToChar, Check, Control, Body;
    if q == |inp| || Control(inp[q]) {
      var t := inp[..q] + [ToChar(3), ToChar(0)];
      StarvedAtEnd(t, 2, 0, ToChar(3) as int + ToChar(0));
      tail := BodyCompletes(t, q + 2, 2, 0, ToChar(3) as int + ToChar(0));
      assert inp[..q] + ([ToChar(3), ToChar(0)] + tail) == t[..q + 2] + tail;
      tail := [ToChar(3), ToChar(0)] + tail;
    } else if q + 1 == |inp| || Control(inp[q + 1]) {
      var t, sum := inp[..q + 1] + [ToChar(0)], inp[q] as int + ToChar(0);
      StarvedAtEnd(t, UnToChar(inp[q]) - 1, 0, sum);
      tail := BodyCompletes(t, q + 2, UnToChar(inp[q]) - 1, 0, sum);
      assert inp[..q + 1] + ([ToChar(0)] + tail) == t[..q + 2] + tail;
      tail := [ToChar(0)] + tail;
    } else {
      tail := BodyCompletes(inp, q + 2, UnToChar(inp[q]) - 1, UnToChar(inp[q + 1]), inp[q] as int + inp[q + 1]);
    }
  }

  lemma StarvedAtEnd(inp: seq<Byte>, length: int, n: Byte, sum: nat)
    ensures Body(inp, |inp|, length, n, sum) == Starved
  {
  }

  // ---------------------------------------------------------------------------------------------
  // An undisturbed upload
  // ---------------------------------------------------------------------------------------------

  /** A packet of a sender, with extended length if `long`. */
  datatype Pkt = Pkt(n: Byte, kind: Byte, data: seq<Byte>, long: bool) {
    predicate WellFormed() {
      && n <= 223 && !Control(kind) && (forall k | 0 <= k < |data| :: !Control(data[k]))
      && if long then |data| + 1 < 224 * 95 else |data| <= 220
    }

    function Wire(): seq<Byte> {
      if long then PackedLong(n, kind, data, [END_CHAR]) else Packed(n, kind, data, [END_CHAR])
    }
  }

  function Stream(ps: seq<Pkt>): seq<Byte> {
    if ps == [] then [] else ps[0].Wire() + Stream(ps[1..])
  }

  predicate FramesMatch(fs: seq<Frame>, ps: seq<Pkt>) {
    |fs| == |ps| && forall i | 0 <= i < |fs| :: FrameOf(fs[i], ps[i])
  }

  /** The frames the receiver makes of well-formed packets that start at position `p`. */
  function FramesOf(ps: seq<Pkt>, p: nat): (fs: seq<Frame>)
    ensures |fs| == |ps| && FramesMatch(fs, ps)
  {
    if ps == [] then []
    else
      var next := p + |ps[0].Wire()|;
      [Packet(ps[0].n, ps[0].kind, ps[0].data, true, next)] + FramesOf(ps[1..], next)
  }

  predicate FrameOf(f: Frame, k: Pkt) {
    f.Packet? && f.seqNo == k.n && f.kind == k.kind && f.payload == k.data && f.ok
  }

  lemma AtSplit(inp: seq<Byte>, p: nat, s: seq<Byte>, t: seq<Byte>)
    requires At(inp, p, s + t)
    ensures At(inp, p, s) && At(inp, p + |s|, t)
  {
    forall k | 0 <= k < |s|
      ensures inp[p + k] == s[k]
    {
      assert (s + t)[k] == s[k];
    }
    forall k | 0 <= k < |t|
      ensures inp[p + |s| + k] == t[k]
    {
      assert (s + t)[|s| + k] == t[k];
    }
  }

  /** Well-formed packets, of which the last one and no other is a break packet. */
  ghost predicate GoodStream(ps: seq<Pkt>) {
    forall i | 0 <= i < |ps| :: ps[i].WellFormed() && (ps[i].kind == BREAK_TYPE <==> i == |ps| - 1)
  }

  /** A stream of well-formed packets up to a break packet is read packet by packet. */
  lemma {:induction false} StreamIsRead(inp: seq<Byte>, p: nat, ps: seq<Pkt>)
    requires ps != [] && At(inp, p, Stream(ps)) && GoodStream(ps)
    ensures Session(inp, p) == FramesOf(ps, p)
    decreases |ps|
  {
    hide Hunt, At, Pkt.Wire, Pkt.WellFormed, FrameOf, Inside, EndsSession, FramesMatch, GoodStream;
    LastPacket(ps);
    AtSplit(inp, p, ps[0].Wire(), Stream(ps[1..]));
    PktIsRead(inp, p, ps[0]);
    if |ps| > 1 {
      GoodTail(ps);
      StreamIsRead(inp, p + |ps[0].Wire()|, ps[1..]);
    } else {
      assert FramesOf(ps[1..], p + |ps[0].Wire()|) == [];
    }
  }

  lemma LastPacket(ps: seq<Pkt>)
    requires ps != [] && GoodStream(ps)
    ensures ps[0].WellFormed() && (ps[0].kind == BREAK_TYPE <==> |ps| == 1)
  {
  }

  lemma GoodTail(ps: seq<Pkt>)
    requires |ps| > 1 && GoodStream(ps)
    ensures GoodStream(ps[1..])
  {
    hide Pkt.WellFormed;
    forall i | 0 <= i < |ps[1..]|
      ensures ps[1..][i].WellFormed() && (ps[1..][i].kind == BREAK_TYPE <==> i == |ps[1..]| - 1)
    {
      assert ps[1..][i] == ps[i + 1];
    }
  }

  lemma PktIsRead(inp: seq<Byte>, p: nat, k: Pkt)
    requires k.WellFormed() && At(inp, p, k.Wire())
    ensures p <= |inp| && Hunt(inp, p) == Packet(k.n, k.kind, k.data, true, p + |k.Wire()|)
  {
    hide Hunt, At, ToChar, Check, Sum, LongHead;
    if k.long {
      PackedLongIsRead(inp, p, k.n, k.kind, k.data);
    } else {
      PackedIsRead(inp, p, k.n, k.kind, k.data);
    }
  }

  /** The data fields of the data packets, joined. */
  function Text(ps: seq<Pkt>): seq<Byte> {
    if ps == [] then []
    else Text(ps[..|ps| - 1]) + if ps[|ps| - 1].kind == DATA_TYPE then ps[|ps| - 1].data else []
  }

  /** The frames are the packets, with no number repeated. */
  ghost predicate Carries(fs: seq<Frame>, ps: seq<Pkt>) {
    && |fs| == |ps|
    && (forall i | 0 <= i < |ps| :: FrameOf(fs[i], ps[i]))
    && (forall i | 0 < i < |ps| :: ps[i].n != ps[i - 1].n)
  }

  lemma CarriedIsKept(fs: seq<Frame>, ps: seq<Pkt>, i: nat)
    requires Carries(fs, ps) && i < |ps|
    ensures Kept(fs, i) == (ps[i].kind == DATA_TYPE) && fs[i].payload == ps[i].data
  {
    assert FrameOf(fs[i], ps[i]);
    if i + 1 < |fs| {
      assert FrameOf(fs[i + 1], ps[i + 1]);
      assert ps[i + 1].n != ps[i + 1 - 1].n;
    }
  }

  lemma {:induction false} TextIsKept(fs: seq<Frame>, ps: seq<Pkt>, k: nat)
    requires Carries(fs, ps) && k <= |ps|
    ensures KeptText(fs, k) == Text(ps[..k])
  {
    if k == 0 {
    } else {
      TextIsKept(fs, ps, k - 1);
      CarriedIsKept(fs, ps, k - 1);
      assert ps[..k][..k - 1] == ps[..k - 1];
    }
  }

  /** The quote character a send-init packet announces in its sixth field. */
  function AnnouncedQuote(data: seq<Byte>): Byte {
    if |data| >= 6 then data[5] else K_ESCAPE
  }

  lemma AnnouncedIsParsed(data: seq<Byte>)
    ensures ParseParams(data).quote == AnnouncedQuote(data)
  {
  }

  /** The quote character in force after some packets: that of the last send-init packet. */
  function QuoteAfter(ps: seq<Pkt>): Byte {
    if ps == [] then K_ESCAPE
    else if ps[|ps| - 1].kind == SEND_TYPE then AnnouncedQuote(ps[|ps| - 1].data)
    else QuoteAfter(ps[..|ps| - 1])
  }

  lemma {:induction false} QuoteIsAnnounced(fs: seq<Frame>, ps: seq<Pkt>, k: nat)
    requires Carries(fs, ps) && k <= |ps|
    ensures ParamsOf(fs[..k]).quote == QuoteAfter(ps[..k])
  {
    hide ParseParams;
    if k == 0 {
    } else {
      QuoteIsAnnounced(fs, ps, k - 1);
      AnnouncedIsParsed(ps[k - 1].data);
      assert FrameOf(fs[k - 1], ps[k - 1]);
      assert fs[..k][..k - 1] == fs[..k - 1] && ps[..k][..k - 1] == ps[..k - 1];
    }
  }

  /**
    An upload over a clean line: however the quoted data are cut into packets of consecutive distinct
    numbers, the receiver ends with exactly the data. The quote character is the one announced before
    the data packets, or the default.
   */
  lemma UploadIsExact(ps: seq<Pkt>, quote: Byte, data: seq<Byte>)
    requires ps != [] && GoodStream(ps) && KTrans(quote) == quote
    requires forall i | 0 < i < |ps| :: ps[i].n != ps[i - 1].n
    requires forall i | 0 <= i < |ps| :: ps[i].kind == DATA_TYPE ==> QuoteAfter(ps[..i]) == quote
    requires Text(ps) == QuotedAll(quote, data)
    ensures var fs := Session(Stream(ps), 0);
            fs[|fs| - 1].Packet? && Assembled(fs, |fs|) == Line(false, data)
  {
    hide Session, Assembled, QuotedAll, ParseParams, Hunt, Stream, Kept, Text, ParamsOf, Run, QuoteAfter, KTrans;
    var fs := Session(Stream(ps), 0);
    StreamIsRead(Stream(ps), 0, ps);
    assert Carries(fs, ps);
    forall i | 0 <= i < |fs|
      ensures Received(fs[i])
      ensures Kept(fs, i) ==> ParamsOf(fs[..i]).quote == quote
    {
      assert FrameOf(fs[i], ps[i]);
      CarriedIsKept(fs, ps, i);
      QuoteIsAnnounced(fs, ps, i);
    }
    TextIsKept(fs, ps, |ps|);
    assert ps[..|ps|] == ps;
    TransferIsExact(fs, quote, data);
    RunInvariant(fs);
    assert FrameOf(fs[|fs| - 1], ps[|fs| - 1]);
  }

  /** The last of the packets of an upload that begins with a send-init packet. */
  ghost predicate Follows(ps: seq<Pkt>, maxl: Byte, time: Byte, p: Params, more: seq<Byte>)
    requires IsControl(p.padChar)
  {
    && ps != [] && GoodStream(ps)
    && ps[0].kind == SEND_TYPE && ps[0].data == SendInit(maxl, time, p, more)
    && (forall i | 0 < i < |ps| :: ps[i].kind != SEND_TYPE && ps[i].n != ps[i - 1].n)
  }

  lemma {:induction false} QuoteOfFirst(ps: seq<Pkt>, k: nat)
    requires 0 < k <= |ps| && ps[0].kind == SEND_TYPE && |ps[0].data| >= 6
    requires forall i | 0 < i < |ps| :: ps[i].kind != SEND_TYPE
    ensures QuoteAfter(ps[..k]) == ps[0].data[5]
  {
    if k == 1 {
    } else {
      QuoteOfFirst(ps, k - 1);
      assert ps[..k][..k - 1] == ps[..k - 1];
    }
  }

  /**
    A whole upload, from a send-init packet with any fields on: data quoted by the character announced
    there, if that is no letter and no control character, arrive exactly.
   */
  lemma NegotiatedUploadIsExact(ps: seq<Pkt>, maxl: Byte, time: Byte, p: Params, more: seq<Byte>, data: seq<Byte>)
    requires IsControl(p.padChar)
    requires Follows(ps, maxl, time, p, more)
    requires 32 < p.quote < 63 || 95 < p.quote < 127
    requires Text(ps) == QuotedAll(p.quote, data)
    ensures var fs := Session(Stream(ps), 0);
            fs[|fs| - 1].Packet? && Assembled(fs, |fs|) == Line(false, data)
  {
    hide Session, Assembled, QuotedAll, ParseParams, Stream, Text, QuoteAfter;
    forall i | 0 <= i < |ps| && ps[i].kind == DATA_TYPE
      ensures QuoteAfter(ps[..i]) == p.quote
    {
      QuoteOfFirst(ps, i);
    }
    UploadIsExact(ps, p.quote, data);
  }

  /** A negative or positive acknowledgement, as bytes on the line. */
  function Reply(p: Params, n: Byte, kind: Byte, data: seq<Byte>): seq<Byte> {
    seq(p.padCount, _ => p.padChar)
    + Packed(n, kind, data, if p.eol == 0 then [] else [p.eol])
  }

  /** The receiver's own parameters, answered field by field to a send-init packet. */
  function InitFields(bytes: nat): seq<Byte> {
    var fields := [ToChar(94), ToChar(1), ToChar(0), 0x40, ToChar(END_CHAR), K_ESCAPE, 78, 49, 78];
    if bytes >= 10 then fields + [ToChar(2), ToChar(0), ToChar(94), ToChar(94)]
    else fields[..bytes]
  }

  /** The answer to a frame, given the parameters in force after it. */
  function Answer(p: Params, n: Byte, f: Frame): seq<Byte> {
    match f
    case Starved => []
    case Interrupted => []
    case Damaged(_) => Reply(p, n, NACK_TYPE, [])
    case Packet(_, kind, payload, ok, _) =>
      if !ok then Reply(p, n, NACK_TYPE, [])
      else if kind == SEND_TYPE then Reply(p, n, ACK_TYPE, InitFields(Considered(payload)))
      else Reply(p, n, ACK_TYPE, [])
  }

  /** The sequence number an answer carries: the last one received, zero before the first. */
  function AnswerNo(lastNo: int): Byte {
    if 0 <= lastNo < 256 then lastNo else 0
  }

  /** What the receiver puts on the line for some frames. */
  function Answers(fs: seq<Frame>): seq<Byte> {
    if fs == [] then []
    else Answers(fs[..|fs| - 1]) + Answer(Run(fs).params, AnswerNo(Run(fs).lastNo), fs[|fs| - 1])
  }

  lemma AnswersSnoc(fs: seq<Frame>, f: Frame)
    ensures Answers(fs + [f]) == Answers(fs) + Answer(Run(fs + [f]).params, AnswerNo(Run(fs + [f]).lastNo), f)
  {
    assert (fs + [f])[..|fs|] == fs;
  }

  /** A session ends with a control-C, with an accepted break packet, or with the stream, and with nothing else. */
  lemma SessionEnds(inp: seq<Byte>, p: nat, i: nat)
    requires p <= |inp| && i < |Session(inp, p)|
    ensures var fs := Session(inp, p);
            i == |fs| - 1 <==> fs[i].Starved? || fs[i].Interrupted? || (Accepts(fs[i]) && fs[i].kind == 66)
  {
  }

  /** What is refused leaves no trace: neither in the parameters nor in the data, and so does what is no data. */
  lemma RefusedIsUndone(fs: seq<Frame>, f: Frame)
    ensures !Accepts(f) ==> Run(fs + [f]).params == Run(fs).params
    ensures Received(f) && !(Accepts(f) && f.kind == 68) ==> Run(fs + [f]).current == Run(fs + [f]).saved
    ensures forall i | 0 <= i < |fs| && Kept(fs, i) :: Accepts(fs[i]) && fs[i].kind == 68
  {
    RunSnoc(fs, f);
  }

  // ---------------------------------------------------------------------------------------------
  // The answers to an upload
  // ---------------------------------------------------------------------------------------------

  /** A send-init packet that asks for no padding and the usual end of line. */
  predicate AsksForPlain(data: seq<Byte>) {
    (|data| >= 3 ==> data[2] == ToChar(0)) && (|data| >= 5 ==> data[4] == ToChar(END_CHAR))
  }

  /** The acknowledgement of a packet: with its number, and the receiver's own parameters for a send-init. */
  function AckOf(k: Pkt): Pkt {
    Pkt(k.n, ACK_TYPE, if k.kind == SEND_TYPE then InitFields(Considered(k.data)) else [], false)
  }

  function AcksOf(ps: seq<Pkt>): seq<Pkt> {
    seq(|ps|, i requires 0 <= i < |ps| => AckOf(ps[i]))
  }

  lemma {:induction false} StreamSnoc(ps: seq<Pkt>, k: Pkt)
    ensures Stream(ps + [k]) == Stream(ps) + k.Wire()
  {
    hide Pkt.Wire;
    if ps == [] {
      assert Stream([k]) == k.Wire() + Stream([]);
    } else {
      StreamSnoc(ps[1..], k);
      assert (ps + [k])[1..] == ps[1..] + [k];
    }
  }

  lemma {:induction false} PlainStays(fs: seq<Frame>, ps: seq<Pkt>, k: nat)
    requires FramesMatch(fs, ps) && k <= |ps|
    requires forall i | 0 <= i < |ps| && ps[i].kind == SEND_TYPE :: AsksForPlain(ps[i].data)
    ensures ParamsOf(fs[..k]).padCount == 0 && ParamsOf(fs[..k]).eol == END_CHAR
  {
    hide KTrans;
    if k == 0 {
    } else {
      PlainStays(fs, ps, k - 1);
      assert FrameOf(fs[k - 1], ps[k - 1]);
      assert fs[..k][..k - 1] == fs[..k - 1];
    }
  }

  lemma PlainAnswer(p: Params, f: Frame, k: Pkt)
    requires FrameOf(f, k) && p.padCount == 0 && p.eol == END_CHAR
    ensures Answer(p, k.n, f) == AckOf(k).Wire()
  {
    hide Packed, InitFields, Considered;
    assert seq(p.padCount, _ => p.padChar) == [];
  }

  /** The answers to packets read without an error are a stream of packets again. */
  lemma {:induction false} AnswersAreStream(fs: seq<Frame>, ps: seq<Pkt>, k: nat)
    requires FramesMatch(fs, ps) && k <= |ps|
    requires forall i | 0 <= i < |ps| && ps[i].kind == SEND_TYPE :: AsksForPlain(ps[i].data)
    ensures Answers(fs[..k]) == Stream(AcksOf(ps)[..k])
  {
    hide Pkt.Wire, AckOf, AsksForPlain, Answer, ParamsOf;
    if k == 0 {
    } else {
      var n := k - 1;
      AnswersAreStream(fs, ps, n);
      assert fs[..k] == fs[..n] + [fs[n]] && AcksOf(ps)[..k] == AcksOf(ps)[..n] + [AckOf(ps[n])];
      AnswersSnoc(fs[..n], fs[n]);
      StreamSnoc(AcksOf(ps)[..n], AckOf(ps[n]));
      PlainStays(fs, ps, k);
      MatchedAreReceived(fs, ps, k);
      RunInvariant(fs[..k]);
      assert FrameOf(fs[n], ps[n]);
      PlainAnswer(ParamsOf(fs[..k]), fs[n], ps[n]);
    }
  }

  lemma MatchedAreReceived(fs: seq<Frame>, ps: seq<Pkt>, k: nat)
    requires FramesMatch(fs, ps) && k <= |ps|
    ensures forall i | 0 <= i < k :: Received(fs[..k][i])
    ensures k > 0 ==> RunNo(fs[..k], k - 1) == ps[k - 1].n as int
  {
    assert forall i | 0 <= i < k :: FrameOf(fs[i], ps[i]);
  }

  /** A stream of well-formed packets without a break packet is read packet by packet, up to its end. */
  lemma {:induction false} OpenStreamIsRead(inp: seq<Byte>, p: nat, ps: seq<Pkt>)
    requires At(inp, p, Stream(ps)) && p + |Stream(ps)| == |inp|
    requires forall i | 0 <= i < |ps| :: ps[i].WellFormed() && ps[i].kind != BREAK_TYPE
    ensures Session(inp, p) == FramesOf(ps, p) + [Starved]
    decreases |ps|
  {
    hide Hunt, At, Pkt.Wire, Pkt.WellFormed, FrameOf, Inside, EndsSession, FramesMatch;
    if ps == [] {
      StarvesAtEnd(inp);
    } else {
      AtSplit(inp, p, ps[0].Wire(), Stream(ps[1..]));
      PktIsRead(inp, p, ps[0]);
      OpenStreamIsRead(inp, p + |ps[0].Wire()|, ps[1..]);
    }
  }

  lemma StarvesAtEnd(inp: seq<Byte>)
    ensures Hunt(inp, |inp|) == Starved
  {
  }

  lemma AcksAreWellFormed(k: Pkt)
    requires k.n <= 223
    ensures AckOf(k).WellFormed() && AckOf(k).kind != BREAK_TYPE
  {
    InitFieldsArePrintable(Considered(k.data));
    hide InitFields, Considered;
  }

  lemma AcksLength(ps: seq<Pkt>)
    ensures |AcksOf(ps)| == |ps|
  {
  }

  lemma AllAcksAreWellFormed(ps: seq<Pkt>)
    requires GoodStream(ps)
    ensures forall i | 0 <= i < |AcksOf(ps)| :: AcksOf(ps)[i].WellFormed() && AcksOf(ps)[i].kind != BREAK_TYPE
  {
    hide AckOf;
    forall i | 0 <= i < |ps|
      ensures AckOf(ps[i]).WellFormed() && AckOf(ps[i]).kind != BREAK_TYPE
    {
      assert ps[i].WellFormed();
      AcksAreWellFormed(ps[i]);
    }
  }

  /**
    The other direction of a clean upload: what the receiver sends is, read by the same rules, one
    acknowledgement for every packet, in order and with its number.
   */
  lemma UploadIsAcknowledged(ps: seq<Pkt>)
    requires ps != [] && GoodStream(ps)
    requires forall i | 0 <= i < |ps| && ps[i].kind == SEND_TYPE :: AsksForPlain(ps[i].data)
    ensures Session(Answers(Session(Stream(ps), 0)), 0) == FramesOf(AcksOf(ps), 0) + [Starved]
  {
    hide Session, Answers, Stream, AcksOf, FramesMatch, Pkt.WellFormed, AsksForPlain, At, GoodStream, FramesOf;
    var fs := Session(Stream(ps), 0);
    AtSelf(Stream(ps));
    StreamIsRead(Stream(ps), 0, ps);
    AnswersAreStream(fs, ps, |ps|);
    AcksLength(ps);
    assert fs[..|ps|] == fs && AcksOf(ps)[..|ps|] == AcksOf(ps);
    AllAcksAreWellFormed(ps);
    AtSelf(Stream(AcksOf(ps)));
    OpenStreamIsRead(Stream(AcksOf(ps)), 0, AcksOf(ps));
  }

  /** The receiver's own parameters, read by its own rules, are its defaults. */
  lemma InitFieldsMean(bytes: nat)
    ensures |InitFields(bytes)| == if bytes >= 10 then 13 else bytes
    ensures ParseParams(InitFields(bytes)) == DEFAULTS
  {
  }

  /** The longest packet the receiver offers to take, with the length its long length fields say, is read. */
  lemma OfferIsKept(bytes: nat, inp: seq<Byte>, p: nat, n: Byte, kind: Byte, data: seq<Byte>)
    requires bytes >= 10 && n <= 223 && !Control(kind) && forall k | 0 <= k < |data| :: !Control(data[k])
    requires |data| + 1 <= UnToChar(InitFields(bytes)[11]) * 95 + UnToChar(InitFields(bytes)[12])
    requires At(inp, p, PackedLong(n, kind, data, [END_CHAR]))
    ensures Hunt(inp, p) == Packet(n, kind, data, true, p + |data| + 9)
  {
    hide Hunt, PackedLong, Control;
    PackedLongIsRead(inp, p, n, kind, data);
  }

  // ---------------------------------------------------------------------------------------------
  // An upload with a damaged header
  // ---------------------------------------------------------------------------------------------

  /** Two data packets with a damaged header between them, and the break packet. */
  function Disturbed(a: Byte, b: Byte): seq<Byte> {
    Packed(0, DATA_TYPE, [a], [END_CHAR]) + [START_CHAR, 0]
    + Packed(1, DATA_TYPE, [b], [END_CHAR]) + Packed(2, BREAK_TYPE, [], [END_CHAR])
  }

  /** What the receiver makes of them: every packet is good. */
  function DisturbedFrames(a: Byte, b: Byte): seq<Frame> {
    [Packet(0, DATA_TYPE, [a], true, 7), Damaged(9), Packet(1, DATA_TYPE, [b], true, 16),
     Packet(2, BREAK_TYPE, [], true, 22)]
  }

  lemma AtSelf(inp: seq<Byte>)
    ensures At(inp, 0, inp)
  {
  }

  /** Where the parts of a stream in four parts stand. */
  lemma FourParts(inp: seq<Byte>, s: seq<Byte>, t: seq<Byte>, u: seq<Byte>, v: seq<Byte>)
    requires inp == s + t + u + v
    ensures At(inp, 0, s) && At(inp, |s|, t) && At(inp, |s| + |t|, u) && At(inp, |s| + |t| + |u|, v)
  {
    AtSelf(inp);
    hide At;
    AtSplit(inp, 0, s + t + u, v);
    AtSplit(inp, 0, s + t, u);
    AtSplit(inp, 0, s, t);
  }

  lemma DamagedIsRead(inp: seq<Byte>, p: nat)
    requires At(inp, p, [START_CHAR, 0])
    ensures Hunt(inp, p) == Damaged(p + 2)
  {
    AtIndex(inp, p, [START_CHAR, 0], 0);
    AtIndex(inp, p, [START_CHAR, 0], 1);
  }

  lemma OneIsRead(inp: seq<Byte>, p: nat, n: Byte, c: Byte)
    requires n <= 223 && !Control(c) && At(inp, p, Packed(n, DATA_TYPE, [c], [END_CHAR]))
    ensures p <= |inp| && Hunt(inp, p) == Packet(n, DATA_TYPE, [c], true, p + 7)
  {
    hide Packed, Hunt;
    PackedIsRead(inp, p, n, DATA_TYPE, [c]);
  }

  lemma LastIsRead(inp: seq<Byte>, p: nat)
    requires At(inp, p, Packed(2, BREAK_TYPE, [], [END_CHAR]))
    ensures p <= |inp| && Hunt(inp, p) == Packet(2, BREAK_TYPE, [], true, p + 6)
  {
    hide Packed, Hunt;
    PackedIsRead(inp, p, 2, BREAK_TYPE, []);
  }

  lemma PackedLengths(a: Byte, b: Byte)
    ensures |Packed(0, DATA_TYPE, [a], [END_CHAR])| == 7 && |Packed(1, DATA_TYPE, [b], [END_CHAR])| == 7
    ensures |Disturbed(a, b)| == 22
  {
    hide Check, Sum;
  }

  lemma DisturbedIsRead(a: Byte, b: Byte)
    requires !Control(a) && !Control(b)
    ensures Session(Disturbed(a, b), 0) == DisturbedFrames(a, b)
  {
    hide Packed, At, Hunt, Session, Control, ToChar;
    PackedLengths(a, b);
    var inp := Disturbed(a, b);
    FourParts(inp, Packed(0, DATA_TYPE, [a], [END_CHAR]), [START_CHAR, 0],
              Packed(1, DATA_TYPE, [b], [END_CHAR]), Packed(2, BREAK_TYPE, [], [END_CHAR]));
    OneIsRead(inp, 0, 0, a);
    DamagedIsRead(inp, 7);
    OneIsRead(inp, 9, 1, b);
    LastIsRead(inp, 16);
    SessionIsRead(inp);
  }

  lemma SessionIsRead(inp: seq<Byte>)
    requires |inp| == 22
    requires Hunt(inp, 0).Packet? && Hunt(inp, 0).next == 7 && Hunt(inp, 0).kind == DATA_TYPE
    requires Hunt(inp, 7) == Damaged(9)
    requires Hunt(inp, 9).Packet? && Hunt(inp, 9).next == 16 && Hunt(inp, 9).kind == DATA_TYPE
    requires Final(Hunt(inp, 16))
    ensures Session(inp, 0) == [Hunt(inp, 0), Hunt(inp, 7), Hunt(inp, 9), Hunt(inp, 16)]
  {
    hide Hunt;
    assert Session(inp, 16) == [Hunt(inp, 16)];
    assert Session(inp, 9) == [Hunt(inp, 9)] + Session(inp, 16);
    assert Session(inp, 7) == [Hunt(inp, 7)] + Session(inp, 9);
    assert Session(inp, 0) == [Hunt(inp, 0)] + Session(inp, 7);
  }

  /**
    A good data packet is taken back by a packet with a damaged header right after it, although the
    packet was acknowledged and the sender goes on to the next one: of two printable characters sent
    one in each packet, only the second is left.
   */
  lemma DamagedHeaderLosesData(a: Byte, b: Byte)
    requires !Control(a) && !Control(b) && b != K_ESCAPE
    ensures var fs := Session(Disturbed(a, b), 0);
            && fs == DisturbedFrames(a, b)
            && ParamsOf(fs) == DEFAULTS
            && (forall n, i | n <= 223 && 0 <= i < 4 ::
                  Answer(DEFAULTS, n, fs[i]) == Packed(n, if i == 1 then NACK_TYPE else ACK_TYPE, [], [END_CHAR]))
            && Assembled(fs, |fs|) == Line(false, [b])
  {
    DisturbedIsRead(a, b);
    var fs := DisturbedFrames(a, b);
    hide Session, Packed, Disturbed;
    forall n: Byte, i | n <= 223 && 0 <= i < 4
      ensures Answer(DEFAULTS, n, fs[i]) == Packed(n, if i == 1 then NACK_TYPE else ACK_TYPE, [], [END_CHAR])
    {
      assert seq(DEFAULTS.padCount, _ => DEFAULTS.padChar) == [];
    }
    assert RunNo(fs, 0) == 0 && RunNo(fs, 1) == 0 && RunNo(fs, 2) == 1 && RunNo(fs, 3) == 2;
    assert !Kept(fs, 0) && !Kept(fs, 1) && Kept(fs, 2) && !Kept(fs, 3);
    assert Assembled(fs, 0) == Assembled(fs, 1) == Assembled(fs, 2) == EMPTY;
    assert fs[..2][..1] == fs[..1] && fs[..1][..0] == [];
    assert ParamsOf(fs[..1][..0]) == ParamsOf(fs[..1]) == ParamsOf(fs[..2]) == DEFAULTS;
    assert fs[..3][..2] == fs[..2] && fs[..|fs| - 1] == fs[..3];
    assert ParamsOf(fs[..3]) == ParamsOf(fs) == DEFAULTS;
    var t: seq<Byte> := [b];
    assert Decode(EMPTY, K_ESCAPE, t[..0]) == EMPTY;
    assert Assembled(fs, 3) == Decode(EMPTY, K_ESCAPE, t) == Line(false, [b]);
  }

  // ---------------------------------------------------------------------------------------------
  // An upload number by number
  // ---------------------------------------------------------------------------------------------

  /** A packet with the letter A and a break packet, as they are on the line, and the answers to them. */
  const LETTER_A: seq<Byte> := [1, 36, 32, 68, 65, 44, 13, 1, 35, 33, 66, 40, 13]
  const ANSWERS_TO_A: seq<Byte> := [1, 35, 32, 89, 62, 13, 1, 35, 33, 89, 63, 13]

  /** The block check takes the sum of the characters modulo 256, and adds its upper two bits to the lower six. */
  lemma CheckOfSum(sum: nat)
    ensures Check(sum) == Check(sum % 256)
    ensures sum < 256 ==> Check(sum) == (sum + sum / 64) % 64
  {
    var k, h, l := sum / 256, sum % 256 / 64, sum % 64;
    assert sum == 256 * k + 64 * h + l;
    Divided(sum, 64, 4 * k + h, l);
    Divided(4 * k + h, 4, k, h);
    SameRemainder(l, h, sum);
    SameRemainder(l, h, sum % 256);
  }

  lemma SameRemainder(l: nat, h: nat, sum: nat)
    requires sum % 64 == l
    ensures (sum + h) % 64 == (l + h) % 64
  {
    var q := (l + h) / 64;
    assert sum + h == 64 * (sum / 64 + q) + (l + h) % 64;
    Divided(sum + h, 64, sum / 64 + q, (l + h) % 64);
  }

  /** The receiver's parameters: as many fields as were offered, and all the rest from the tenth one on. */
  lemma InitFieldsAre(payload: seq<Byte>)
    ensures var all: seq<Byte> := [126, 33, 32, 64, 45, 35, 78, 49, 78, 34, 32, 126, 126];
            InitFields(Considered(payload)) == if |payload| >= 10 then all else all[..|payload|]
  {
  }

  lemma LetterIsPacked()
    ensures Packed(0, 68, [65], [13]) == [1, 36, 32, 68, 65, 44, 13]
    ensures Packed(1, 66, [], [13]) == [1, 35, 33, 66, 40, 13]
    ensures Packed(0, 89, [], [13]) == [1, 35, 32, 89, 62, 13]
    ensures Packed(1, 89, [], [13]) == [1, 35, 33, 89, 63, 13]
  {
    SumOfNone();
    SumOfLetter();
    hide Packed, Sum;
    PackedText(0, 68, [65], 201);
    PackedText(1, 66, [], 134);
    PackedText(0, 89, [], 156);
    PackedText(1, 89, [], 157);
  }

  lemma PackedText(n: Byte, kind: Byte, data: seq<Byte>, sum: nat)
    requires |data| <= 220 && n <= 223 && sum == |data| + 35 + (n + 32) + kind + Sum(data)
    ensures Packed(n, kind, data, [13])
         == [1] + ([ToChar(|data| + 3), ToChar(n), kind] + data) + [ToChar(Check(sum))] + [13]
  {
    hide Sum, Check, ToChar;
    CharIsRead(|data| + 3);
    CharIsRead(n);
    SumOfThree(ToChar(|data| + 3), ToChar(n), kind, data);
    assert Sum([ToChar(|data| + 3), ToChar(n), kind] + data) == sum;
  }

  lemma SumOfLetter()
    ensures Sum([65]) == 65
  {
    var s: seq<Byte> := [65];
    assert s[..0] == [];
  }

  lemma LetterIsReceived()
    ensures var fs := Session(LETTER_A, 0);
            && fs == [Packet(0, 68, [65], true, 7), Packet(1, 66, [], true, 13)]
            && Assembled(fs, 2) == Line(false, [65]) && Answers(fs) == ANSWERS_TO_A
    ensures forall inp: seq<Byte> | inp != [] && inp[0] == 3 :: Hunt(inp, 0) == Interrupted
  {
    LetterIsPacked();
    var ps := [Pkt(0, DATA_TYPE, [65], false), Pkt(1, BREAK_TYPE, [], false)];
    TwoPackets(ps[0], ps[1]);
    assert Stream(ps) == LETTER_A;
    AtSelf(LETTER_A);
    StreamIsRead(LETTER_A, 0, ps);
    var fs := FramesOf(ps, 0);
    TwoFrames(ps[0], ps[1], 0);
    UploadOfLetter(ps, fs);
  }

  lemma TwoPackets(k: Pkt, m: Pkt)
    ensures Stream([k, m]) == k.Wire() + m.Wire()
  {
    hide Pkt.Wire;
    assert [k, m][1..] == [m] && [m][1..] == [];
    assert Stream([m]) == m.Wire() + Stream([]);
  }

  lemma TwoFrames(k: Pkt, m: Pkt, p: nat)
    ensures FramesOf([k, m], p) == [Packet(k.n, k.kind, k.data, true, p + |k.Wire()|),
                                    Packet(m.n, m.kind, m.data, true, p + |k.Wire()| + |m.Wire()|)]
  {
    hide Pkt.Wire;
    assert [k, m][1..] == [m] && [m][1..] == [];
  }

  lemma UploadOfLetter(ps: seq<Pkt>, fs: seq<Frame>)
    requires ps == [Pkt(0, DATA_TYPE, [65], false), Pkt(1, BREAK_TYPE, [], false)]
    requires fs == [Packet(0, 68, [65], true, 7), Packet(1, 66, [], true, 13)]
    ensures Assembled(fs, 2) == Line(false, [65]) && Answers(fs) == ANSWERS_TO_A
  {
    LetterIsPacked();
    hide Packed;
    assert fs[..1][..0] == [] && fs[..2] == fs;
    assert RunNo(fs, 0) == 0 && RunNo(fs, 1) == 1;
    assert Assembled(fs, 0) == EMPTY && ParamsOf(fs[..0]) == DEFAULTS;
    DecodeOne(EMPTY, K_ESCAPE, 65);
    var acks := [AckOf(ps[0]), AckOf(ps[1])];
    assert AcksOf(ps) == acks;
    assert FrameOf(fs[0], ps[0]) && FrameOf(fs[1], ps[1]);
    AnswersAreStream(fs, ps, 2);
    assert AcksOf(ps)[..2] == acks;
    TwoPackets(acks[0], acks[1]);
  }

  /** Characters other than a start of packet and a control-C are skipped. */
  lemma {:induction false} PaddingIsSkipped(inp: seq<Byte>, p: nat, q: nat)
    requires p <= q <= |inp|
    requires forall i | p <= i < q :: inp[i] != START_CHAR && inp[i] != ETX_CHAR
    ensures Hunt(inp, p) == Hunt(inp, q)
    decreases q - p
  {
    if p == q {
    } else {
      PaddingIsSkipped(inp, p + 1, q);
    }
  }

  /** The first character from `p` on that starts a packet or is a control-C is at `q`, and is `c`. */
  predicate FirstSpecial(inp: seq<Byte>, p: nat, q: nat, c: Byte) {
    && p <= q < |inp| && inp[q] == c && (c == START_CHAR || c == ETX_CHAR)
    && forall k | p <= k < q :: inp[k] != START_CHAR && inp[k] != ETX_CHAR
  }

  lemma HeaderIsPacket(inp: seq<Byte>, q: nat)
    requires q <= |inp|
    ensures !Header(inp, q).Interrupted?
  {
    hide ToChar, UnToChar, Check, Control, Data, Extended;
    if q + 3 <= |inp| {
      var n, kind, sum := UnToChar(inp[q + 1]), inp[q + 2], inp[q] as int + inp[q + 1] + inp[q + 2];
      ExtendedIsPacket(inp, q + 3, n, kind, sum);
      NumberOfData(inp, q + 3, q + 3, UnToChar(inp[q]) - 2, n, kind, sum);
    }
  }

  /** Which frames count as damaged, and the number and type every other one counts under. */
  lemma NumberOfFrame(inp: seq<Byte>, q: nat)
    requires q <= |inp|
    ensures Header(inp, q).Damaged?
            <==> exists k | q <= k < q + 2 && k < |inp| :: Control(inp[k]) && Printable(inp, q, k)
    ensures Header(inp, q).Packet? ==>
              && q + 3 <= |inp| && Printable(inp, q, q + 2)
              && Header(inp, q).seqNo == UnToChar(inp[q + 1]) && Header(inp, q).kind == inp[q + 2]
  {
    hide ToChar, UnToChar, Check, Control, Data, Extended;
    if q + 3 <= |inp| {
      var n, kind, sum := UnToChar(inp[q + 1]), inp[q + 2], inp[q] as int + inp[q + 1] + inp[q + 2];
      NumberOfExtended(inp, q + 3, n, kind, sum);
      NumberOfData(inp, q + 3, q + 3, UnToChar(inp[q]) - 2, n, kind, sum);
    }
    if q < |inp| && Control(inp[q]) {
      assert Printable(inp, q, q);
    } else if q + 1 < |inp| && Control(inp[q + 1]) {
      assert Printable(inp, q, q + 1);
    }
  }

  lemma {:induction false} NumberOfData(inp: seq<Byte>, a: nat, q: nat, length: int, n: Byte, kind: Byte, sum: nat)
    requires a <= q <= |inp|
    ensures var f := Data(inp, a, q, length, n, kind, sum);
            f.Starved? || (f.Packet? && f.seqNo == n as int && f.kind == kind)
    decreases |inp| - q
  {
    hide ToChar, Check, Control;
    if length <= 1 || q == |inp| {
    } else {
      NumberOfData(inp, a, q + 1, length - 1, n, kind, sum + inp[q]);
    }
  }

  lemma NumberOfExtended(inp: seq<Byte>, p: nat, n: Byte, kind: Byte, sum: nat)
    requires p <= |inp|
    ensures var f := Extended(inp, p, n, kind, sum);
            f.Starved? || (f.Packet? && f.seqNo == n as int && f.kind == kind)
  {
    hide ToChar, UnToChar, Check, Control, Data;
    if p + 3 <= |inp| {
      NumberOfData(inp, p + 3, p + 3, UnToChar(inp[p]) * 95 + UnToChar(inp[p + 1]), n, kind,
                   sum + inp[p] + inp[p + 1] + inp[p + 2]);
    }
  }

  lemma {:induction false} FindSpecial(inp: seq<Byte>, p: nat) returns (q: nat)
    requires p <= |inp|
    ensures p <= q <= |inp| && Hunt(inp, p) == Hunt(inp, q)
    ensures q < |inp| ==> FirstSpecial(inp, p, q, inp[q])
    ensures q == |inp| ==> forall k | p <= k < |inp| :: inp[k] != START_CHAR && inp[k] != ETX_CHAR
    decreases |inp| - p
  {
    hide Header;
    if p == |inp| || inp[p] == START_CHAR || inp[p] == ETX_CHAR {
      q := p;
    } else {
      q := FindSpecial(inp, p + 1);
    }
  }

  /**
    What the receiver accepts from any position on: exactly a well-formed packet behind the first start of
    packet, with no control-C before it; and what interrupts it: exactly such a control-C.
   */
  lemma AcceptedIffWellFormed(inp: seq<Byte>, p: nat, n: Byte, kind: Byte, data: seq<Byte>, next: nat)
    requires p <= |inp|
    ensures Hunt(inp, p) == Packet(n, kind, data, true, next)
            <==> exists q: nat :: FirstSpecial(inp, p, q, START_CHAR) && WellFormedAt(inp, q + 1, next, n, kind, data)
    ensures Hunt(inp, p) == Interrupted <==> exists q: nat :: FirstSpecial(inp, p, q, ETX_CHAR)
  {
    hide WellFormedAt, Header;
    var q := FindSpecial(inp, p);
    forall k: nat, c: Byte | FirstSpecial(inp, p, k, c)
      ensures k == q && c == inp[q]
    {
      assert q < |inp| ==> FirstSpecial(inp, p, q, inp[q]);
    }
    if q < |inp| && inp[q] == START_CHAR {
      AcceptedIsWellFormed(inp, q + 1, n, kind, data, next);
      HeaderIsPacket(inp, q + 1);
    }
  }

  /** Padding that hides the packet behind it: a receiver takes it for a packet or a control-C. */
  lemma PaddingHides(inp: seq<Byte>)
    requires |inp| > 1 && (inp[0] == ETX_CHAR || (inp[0] == START_CHAR && inp[1] == START_CHAR))
    ensures !Hunt(inp, 0).Packet?
  {
  }

  /**
    An answer is a packet that the same rules accept exactly if the sender asked for the usual end of
    line, and for no padding or for padding with a character that has no meaning between packets.
   */
  lemma AnswersAreReadable(p: Params, n: Byte, f: Frame)
    requires (f.Damaged? || f.Packet?) && n <= 223
    ensures var kind := if f.Packet? && f.ok then ACK_TYPE else NACK_TYPE;
            var data := if f.Packet? && f.ok && f.kind == SEND_TYPE then InitFields(Considered(f.payload)) else [];
            Hunt(Answer(p, n, f), 0) == Packet(n, kind, data, true, |Answer(p, n, f)|)
            <==> p.eol == END_CHAR && (p.padCount == 0 || (p.padChar != START_CHAR && p.padChar != ETX_CHAR))
  {
    hide Considered, Hunt, Packed, InitFields;
    var kind := if f.Packet? && f.ok then ACK_TYPE else NACK_TYPE;
    var data := if f.Packet? && f.ok && f.kind == SEND_TYPE then InitFields(Considered(f.payload)) else [];
    assert Answer(p, n, f) == Reply(p, n, kind, data);
    InitFieldsArePrintable(Considered(if f.Packet? then f.payload else []));
    ReplyIsReadable(p, n, kind, data);
  }

  /** A sender that asks for one start-of-packet character as padding cannot read the acknowledgement. */
  lemma PaddingIsMisread(n: Byte)
    requires n <= 223
    ensures var payload: seq<Byte> := [126, 33, 33, 65, 45, 35];
            var p, f := ParseParams(payload), Packet(0, SEND_TYPE, payload, true, 12);
            && p == Params(1, START_CHAR, END_CHAR, K_ESCAPE)
            && Hunt(Answer(p, n, f), 0) != Packet(n, ACK_TYPE, InitFields(6), true, |Answer(p, n, f)|)
  {
    var payload: seq<Byte> := [126, 33, 33, 65, 45, 35];
    AnswersAreReadable(ParseParams(payload), n, Packet(0, SEND_TYPE, payload, true, 12));
  }

  lemma InitFieldsArePrintable(bytes: nat)
    requires bytes < SEND_DATA_SIZE
    ensures |InitFields(bytes)| <= 13 && forall k | 0 <= k < |InitFields(bytes)| :: !Control(InitFields(bytes)[k])
  {
  }

  lemma ReplyIsReadable(p: Params, n: Byte, kind: Byte, data: seq<Byte>)
    requires |data| <= 220 && n <= 223 && !Control(kind) && forall k | 0 <= k < |data| :: !Control(data[k])
    ensures Hunt(Reply(p, n, kind, data), 0) == Packet(n, kind, data, true, |Reply(p, n, kind, data)|)
            <==> p.eol == END_CHAR && (p.padCount == 0 || (p.padChar != START_CHAR && p.padChar != ETX_CHAR))
  {
    hide Hunt, ToChar, Check, Sum;
    var t, c := Reply(p, n, kind, data), p.padCount;
    var eol := if p.eol == 0 then [] else [p.eol];
    var body := Packed(n, kind, data, []);
    assert t[c..] == body + eol;
    if c > 0 && (p.padChar == START_CHAR || p.padChar == ETX_CHAR) {
      assert t[0] == p.padChar && (c > 1 ==> t[1] == p.padChar) && t[c] == START_CHAR;
      PaddingHides(t);
    } else {
      PaddingIsSkipped(t, 0, c);
      assert At(t, c, body) by {
        assert forall k | 0 <= k < |body| :: t[c + k] == t[c..][k];
      }
      ShortIsRead(t, c, n, kind, data);
      assert |body| == |data| + 5;
      assert p.eol != 0 ==> t[c + |body|] == t[c..][|body|];
    }
  }

  // ---------------------------------------------------------------------------------------------
  // The receiver
  // ---------------------------------------------------------------------------------------------

  /** How the reading of a packet ends, short of its contents. */
  datatype Status = Waiting | Broken | Good

  ghost function StatusOf(f: Frame): Status
    requires f.Starved? || f.Packet?
  {
    if f.Starved? then Waiting else if f.ok then Good else Broken
  }

  predicate Cell(mem: map<int, Byte>, a: int, c: Byte) {
    a in mem && mem[a] == c
  }

  /** Memory holds the bytes `s` from address `start` on. */
  ghost predicate Holds(mem: map<int, Byte>, start: int, s: seq<Byte>) {
    forall i | 0 <= i < |s| :: Cell(mem, start + i, s[i])
  }

  predicate SameCell(mem: map<int, Byte>, before: map<int, Byte>, a: int) {
    (a in mem <==> a in before) && (a in mem ==> mem[a] == before[a])
  }

  /** Memory below an address is what it was. */
  ghost predicate SameBelow(mem: map<int, Byte>, before: map<int, Byte>, start: int) {
    forall a | a < start :: SameCell(mem, before, a)
  }

  lemma SameBelowStore(mem: map<int, Byte>, before: map<int, Byte>, start: int, a: int, c: Byte)
    requires SameBelow(mem, before, start) && start <= a
    ensures SameBelow(mem[a := c], before, start)
  {
    var after := mem[a := c];
    forall x | x < start
      ensures SameCell(after, before, x)
    {
      assert SameCell(mem, before, x);
    }
  }

  lemma HoldsPrefix(mem: map<int, Byte>, start: int, s: seq<Byte>, t: seq<Byte>)
    requires Holds(mem, start, s) && t <= s
    ensures Holds(mem, start, t)
  {
  }

  lemma HoldsSnoc(mem: map<int, Byte>, start: int, s: seq<Byte>, c: Byte)
    requires Holds(mem, start, s)
    ensures Holds(mem[start + |s| := c], start, s + [c])
  {
  }

  class Receiver {
    const input: seq<Byte>
    const start: int
    var pos: nat                      // characters taken from the line so far
    var mem: map<int, Byte>
    var addr: int                     // where the next data byte goes
    var addrSaved: int
    var escape: bool
    var escapeSaved: bool
    var count: int
    var countSaved: int
    var params: Params
    const sendParms: array<Byte>
    var sendPtr: nat
    var sent: seq<Byte>               // characters put on the line so far

    ghost const before: map<int, Byte> // memory when the receiver was set up
    ghost var current: Line           // what the bytes written so far amount to
    ghost var saved: Line             // the same at the checkpoint

    ghost predicate Valid()
      reads this, sendParms
    {
      && pos <= |input|
      && sendParms.Length == SEND_DATA_SIZE
      && escape == current.escape && escapeSaved == saved.escape
      && addr == start + |current.out| && addrSaved == start + |saved.out| && saved.out <= current.out
      && Holds(mem, start, current.out) && SameBelow(mem, before, start)
      && count == start - addr && countSaved == start - addrSaved
    }

    constructor (input: seq<Byte>, start: int, mem: map<int, Byte>)
      ensures Valid() && fresh(sendParms) && pos == 0 && sent == []
      ensures this.input == input && this.start == start && this.mem == mem == before
      ensures current == EMPTY && saved == EMPTY && params == DEFAULTS
    {
      this.input, this.start, this.mem, before := input, start, mem, mem;
      pos, sent, params := 0, [], DEFAULTS;
      addr, addrSaved, escape, escapeSaved, count, countSaved := start, start, false, false, 0, 0;
      sendParms := new Byte[SEND_DATA_SIZE](_ => 0);
      sendPtr, current, saved := 0, EMPTY, EMPTY;
    }

    /** The next character from the line, or -1 when there is none. */
    method GetChar() returns (c: int)
      requires Valid()
      modifies this`pos
      ensures Valid() && -1 <= c < 256
      ensures c == -1 ==> pos == old(pos) == |input|
      ensures c != -1 ==> old(pos) < |input| && pos == old(pos) + 1 && c == input[old(pos)]
    {
      if pos == |input| {
        return -1;
      }
      c := input[pos];
      pos := pos + 1;
    }

    lemma InStream()
      requires Valid()
      ensures pos <= |input|
    {
    }

    lemma InMemory()
      requires Valid()
      ensures addr == start + |current.out| && Holds(mem, start, current.out) && SameBelow(mem, before, start)
    {
    }

    /** A new sequence number: checkpoint the download. */
    method Save()
      requires Valid()
      modifies this`addrSaved, this`escapeSaved, this`countSaved, this`saved
      ensures Valid()
      ensures saved == current
    {
      escapeSaved, addrSaved, countSaved, saved := escape, addr, count, current;
    }

    method Restore()
      requires Valid()
      modifies this`addr, this`escape, this`count, this`current
      ensures Valid()
      ensures current == saved
    {
      HoldsPrefix(mem, start, current.out, saved.out);
      escape, addr, count, current := escapeSaved, addrSaved, countSaved, saved;
    }

    method StoreChar(c: Byte)
      requires Valid()
      modifies this`mem, this`addr, this`count, this`current
      ensures Valid()
      ensures addr == old(addr) + 1 && mem == old(mem)[old(addr) := c]
      ensures current == Line(old(current.escape), old(current.out) + [c])
    {
      HoldsSnoc(mem, start, current.out, c);
      SameBelowStore(mem, before, start, addr, c);
      mem := mem[addr := c];
      addr := addr + 1;
      count := count - 1;
      current := Line(current.escape, current.out + [c]);
    }

    method DataChar(c: Byte)
      requires Valid()
      modifies this`mem, this`addr, this`count, this`escape, this`current
      ensures Valid()
      ensures current == DecodeChar(old(current), params.quote, c)
    {
      hide Holds, SameBelow;
      if escape {
        StoreChar(KTrans(c));
        escape, current := false, Line(false, current.out);
      } else if c == params.quote {
        escape, current := true, Line(true, current.out);
      } else {
        StoreChar(c);
      }
    }

    /** The send-init characters taken so far are in the buffer, as far as they will be looked at. */
    ghost predicate Collected(payload: seq<Byte>)
      reads this`sendPtr, sendParms
    {
      && sendParms.Length == SEND_DATA_SIZE
      && sendPtr == (if |payload| < SEND_DATA_SIZE then |payload| else SEND_DATA_SIZE - 1)
      && forall i | 0 <= i < sendPtr && i < SEND_DATA_SIZE - 1 :: sendParms[i] == payload[i]
    }

    twostate lemma NothingCollected()
      requires old(Valid()) && unchanged(this`pos, this`mem, this`addr, this`addrSaved, this`escape, this`escapeSaved)
      requires unchanged(this`count, this`countSaved, this`current, this`saved) && sendPtr == 0
      ensures Valid() && Collected([])
    {
    }

    method SendChar(c: Byte, ghost payload: seq<Byte>)
      requires Valid() && Collected(payload)
      modifies this`sendPtr, sendParms
      ensures Valid() && Collected(payload + [c])
    {
      hide Holds, SameBelow;
      sendParms[sendPtr] := c;
      sendPtr := sendPtr + 1;
      if sendPtr >= SEND_DATA_SIZE {
        sendPtr := sendPtr - 1;
      }
    }

    /** Crack the parameters of a send-init packet and answer with what this end can do. */
    method HandleSendPacket(n: Byte, ghost payload: seq<Byte>)
      requires Valid() && Collected(payload)
      modifies this`params, this`sendPtr, this`sent
      ensures Valid() && params == ParseParams(payload)
      ensures sent == old(sent) + Reply(params, n, ACK_TYPE, InitFields(Considered(payload)))
    {
      hide Holds, SameBelow, Reply, InitFields, KTrans, UnToChar;
      params := DEFAULTS;
      if sendPtr == SEND_DATA_SIZE - 1 {
        sendPtr := sendPtr - 1;
      }
      var bytes := sendPtr;
      if bytes >= 3 {
        params := params.(padCount := UnToChar(sendParms[2]));
      }
      if bytes >= 4 {
        params := params.(padChar := KTrans(sendParms[3]));
      }
      if bytes >= 5 {
        params := params.(eol := UnToChar(sendParms[4]));
      }
      if bytes >= 6 {
        params := params.(quote := sendParms[5]);
      }
      sent := sent + Reply(params, n, ACK_TYPE, InitFields(bytes));
    }

    /** One character of the data field: to memory, or to the send-init buffer. */
    method TakeChar(kind: Byte, c: Byte, ghost l: Line, ghost a: nat)
      requires Valid() && a < pos && input[pos - 1] == c
      requires current == if kind == DATA_TYPE then Decode(l, params.quote, input[a..pos - 1]) else l
      requires kind == SEND_TYPE ==> Collected(input[a..pos - 1])
      modifies this`mem, this`addr, this`count, this`escape, this`current, this`sendPtr, sendParms
      ensures Valid()
      ensures current == if kind == DATA_TYPE then Decode(l, params.quote, input[a..pos]) else l
      ensures kind == SEND_TYPE ==> Collected(input[a..pos])
    {
      hide Holds, SameBelow, Decode, DecodeChar;
      assert input[a..pos] == input[a..pos - 1] + [c];
      DecodeSnoc(l, params.quote, input[a..pos - 1], c);
      if kind == DATA_TYPE {
        DataChar(c);
      } else if kind == SEND_TYPE {
        SendChar(c, input[a..pos - 1]);
      }
    }

    /** The block check and the end of the packet. */
    method TakeTrailer(sum: nat) returns (r: Status)
      requires Valid()
      modifies this`pos
      ensures Valid() && old(pos) <= pos
      ensures forall a: nat, n: Byte, kind: Byte | a <= old(pos) ::
                var f := Trailer(input, a, old(pos), n, kind, sum);
                && (r == Waiting ==> f == Starved)
                && (r != Waiting ==> f == Packet(n, kind, input[a..old(pos)], r == Good, pos))
    {
      hide Holds, SameBelow;
      if pos == |input| {
        return Waiting;
      }
      var c := input[pos];
      pos := pos + 1;
      if Control(c) || c != ToChar(Check(sum)) {
        return Broken;
      }
      if pos == |input| {
        return Waiting;
      }
      c := input[pos];
      pos := pos + 1;
      return if c == END_CHAR then Good else Broken;
    }

    /** The data field and the trailer; data go to memory or to the send-init buffer as they come. */
    method TakeData(length: int, n: Byte, kind: Byte, sum: nat) returns (r: Status, ghost f: Frame)
      requires Valid() && Collected([])
      modifies this`pos, this`mem, this`addr, this`count, this`escape, this`current, this`sendPtr, sendParms
      ensures Valid() && f == Data(input, old(pos), old(pos), length, n, kind, sum)
      ensures (f.Starved? || f.Packet?) && r == StatusOf(f)
      ensures f.Packet? ==> pos == f.next && f.kind == kind && f.seqNo == n
      ensures f.Packet? ==>
                current == if kind == DATA_TYPE then Decode(old(current), params.quote, f.payload)
                             else old(current)
      ensures f.Packet? && kind == SEND_TYPE ==> Collected(f.payload)
    {
      hide Valid, Decode, Collected, Trailer;
      var left := length;
      var s: nat := sum;
      ghost var a := pos;
      InStream();
      assert input[pos..pos] == [];
      DecodeNothing(current, params.quote);
      while left > 1
        invariant Valid() && a <= pos <= |input|
        invariant Data(input, a, pos, left, n, kind, s) == Data(input, a, a, length, n, kind, sum)
        invariant current == if kind == DATA_TYPE then Decode(old(current), params.quote, input[a..pos])
                               else old(current)
        invariant kind == SEND_TYPE ==> Collected(input[a..pos])
      {
        var c := GetChar();
        if c == -1 {
          return Waiting, Starved;
        }
        if Control(c) {
          return Broken, Packet(n, kind, input[a..pos - 1], false, pos);
        }
        s := s + c;
        left := left - 1;
        TakeChar(kind, c, old(current), a);
      }
      f := Trailer(input, a, pos, n, kind, s);
      ghost var q := pos;
      r := TakeTrailer(s);
    }

    /** The two length characters of a long packet and the check of its header. */
    method TakeExtension(n: Byte, kind: Byte, sum: nat) returns (r: Status, left: int, s: nat)
      requires Valid()
      modifies this`pos
      ensures Valid() && old(pos) <= pos <= |input|
      ensures var f := Extended(input, old(pos), n, kind, sum);
              && (r == Waiting ==> f == Starved)
              && (r == Broken ==> f == Packet(n, kind, [], false, pos))
              && (r == Good ==> f == Data(input, pos, pos, left, n, kind, s))
    {
      hide Valid, Check, ToChar, Data, UnToChar;
      InStream();
      left, s := 0, sum;
      var hi := GetChar();
      if hi == -1 {
        return Waiting, left, s;
      }
      if Control(hi) {
        return Broken, left, s;
      }
      var lo := GetChar();
      if lo == -1 {
        return Waiting, left, s;
      }
      if Control(lo) {
        return Broken, left, s;
      }
      left := UnToChar(hi) * 95 + UnToChar(lo);
      s := s + hi + lo;
      var c := GetChar();
      if c == -1 {
        return Waiting, left, s;
      }
      if Control(c) || c != ToChar(Check(s)) {
        return Broken, left, s;
      }
      s := s + c;
      InStream();
      return Good, left, s;
    }

    /** Everything after the sequence number. */
    method TakeBody(length: int, n: Byte, sum: nat) returns (r: Status, kind: Byte, ghost f: Frame)
      requires Valid() && Collected([])
      modifies this`pos, this`mem, this`addr, this`count, this`escape, this`current, this`sendPtr, sendParms
      ensures Valid() && f == Body(input, old(pos), length, n, sum)
      ensures (f.Starved? || f.Packet?) && r == StatusOf(f)
      ensures f.Packet? ==> pos == f.next && f.kind == kind && f.seqNo == n
      ensures f.Packet? ==>
                current == if kind == DATA_TYPE then Decode(old(current), params.quote, f.payload)
                             else old(current)
      ensures f.Packet? && kind == SEND_TYPE ==> Collected(f.payload)
    {
      hide Valid, Collected, Decode, Check, ToChar, Data, UnToChar;
      InStream();
      DecodeNothing(current, params.quote);
      var c := GetChar();
      if c == -1 {
        return Waiting, 0, Starved;
      }
      kind := c;
      if Control(kind) {
        return Broken, kind, Packet(n, kind, [], false, pos);
      }
      var left := length - 1;
      var s: nat := sum + kind;
      if left == -2 {
        var status;
        status, left, s := TakeExtension(n, kind, s);
        if status != Good {
          return status, kind, Extended(input, old(pos) + 1, n, kind, sum + kind);
        }
      }
      r, f := TakeData(left, n, kind, s);
    }

    ghost function Abstract(lastNo: int): State
      requires Valid()
      reads this, sendParms
    {
      State(current, saved, lastNo, params)
    }

    lemma AbstractIs(lastNo: int)
      requires Valid()
      ensures Abstract(lastNo).params == params && Abstract(lastNo).lastNo == lastNo
    {
    }

    /** Wait for the start of a packet, or for a control-C. */
    method AwaitStart() returns (r: Frame)
      requires Valid()
      modifies this`pos
      ensures Valid() && old(pos) <= pos
      ensures r.Starved? || r.Interrupted? ==> r == Hunt(input, old(pos))
      ensures !(r.Starved? || r.Interrupted?) ==> Hunt(input, old(pos)) == Header(input, pos)
    {
      hide Holds, SameBelow, Header;
      ghost var p := pos;
      while pos < |input|
        invariant Valid() && p <= pos && Hunt(input, pos) == Hunt(input, p)
      {
        var c := input[pos];
        pos := pos + 1;
        if c == START_CHAR {
          return Damaged(0);
        } else if c == ETX_CHAR {
          return Interrupted;
        }
      }
      return Starved;
    }

    /** The length and the sequence character. */
    method TakeHeader() returns (r: Status, length: Byte, n: Byte, sum: nat)
      requires Valid()
      modifies this`pos
      ensures Valid() && old(pos) <= pos <= |input|
      ensures var f := Header(input, old(pos));
              && (r == Waiting ==> f == Starved)
              && (r == Broken ==> f == Damaged(pos))
              && (r == Good ==> f == Body(input, pos, length - 1, n, sum))
    {
      hide Valid, Body, UnToChar;
      InStream();
      length, n, sum := 0, 0, 0;
      var c := GetChar();
      if c == -1 {
        return Waiting, length, n, sum;
      }
      if Control(c) {
        return Broken, length, n, sum;
      }
      sum := sum + c;
      length := UnToChar(c);
      c := GetChar();
      if c == -1 {
        return Waiting, length, n, sum;
      }
      if Control(c) {
        return Broken, length, n, sum;
      }
      InStream();
      return Good, length, UnToChar(c), sum + c;
    }

    /** Acknowledge a packet or refuse it, taking back what a refused one has written. */
    method Conclude(r: Status, kind: Byte, n: Byte, ghost payload: seq<Byte>)
      requires Valid() && r != Waiting
      requires r == Good && kind == SEND_TYPE ==> Collected(payload)
      modifies this`addr, this`escape, this`count, this`current, this`params, this`sendPtr, this`sent
      ensures Valid()
      ensures current == if r == Good then old(current) else saved
      ensures params == if r == Good && kind == SEND_TYPE then ParseParams(payload) else old(params)
      ensures sent == old(sent) +
                if r == Broken then Reply(params, n, NACK_TYPE, [])
                else Reply(params, n, ACK_TYPE, if kind == SEND_TYPE then InitFields(Considered(payload)) else [])
    {
      hide Holds, SameBelow, Reply, ParseParams, InitFields, Considered, Collected;
      if r == Broken {
        Restore();
        sent := sent + Reply(params, n, NACK_TYPE, []);
      } else if kind == SEND_TYPE {
        HandleSendPacket(n, payload);
      } else {
        sent := sent + Reply(params, n, ACK_TYPE, []);
      }
    }

    /** One round of the main loop: wait for a packet, take it in, answer it. */
    method ReceivePacket(lastNo: int) returns (r: Status, kind: Byte, lastNo': int, ghost f: Frame)
      requires Valid() && -1 <= lastNo < 256
      modifies this, sendParms
      ensures Valid() && -1 <= lastNo' < 256
      ensures f == Hunt(input, old(pos))
      ensures r == Waiting <==> f.Starved? || f.Interrupted?
      ensures r == Good <==> f.Packet? && f.ok
      ensures r == Good ==> kind == f.kind
      ensures f.Interrupted? <==> r == Waiting && kind == ETX_CHAR
      ensures Received(f) ==> pos == f.next
      ensures Received(f) ==> Abstract(lastNo') == Step(old(Abstract(lastNo)), f)
      ensures Received(f) ==> sent == old(sent) + Answer(params, AnswerNo(lastNo'), f)
    {
      hide Holds, SameBelow, UnToChar, Inside, Valid, Body, Decode, Reply, ParseParams, InitFields, Considered;
      hide Hunt, Header;
      InStream();
      sendPtr := 0;
      assert Valid() && Collected([]) by {
        NothingCollected();
      }
      kind, lastNo' := 0, lastNo;
      var start := AwaitStart();
      if start.Starved? || start.Interrupted? {
        return Waiting, if start.Interrupted? then ETX_CHAR else 0, lastNo', start;
      }
      var length, n, sum;
      r, length, n, sum := TakeHeader();
      if r == Waiting {
        return Waiting, kind, lastNo', Starved;
      }
      if r == Broken {
        Conclude(Broken, kind, AnswerNo(lastNo'), []);
        return Broken, kind, lastNo', Damaged(pos);
      }
      if n == lastNo {
        Restore();
      } else {
        lastNo' := n;
        Save();
      }
      r, kind, f := TakeBody(length as int - 1, n, sum);
      if r != Waiting {
        Conclude(r, kind, n, f.payload);
      } else {
        kind := 0;
      }
    }

    lemma AtEnd(fs: seq<Frame>, lastNo: int)
      requires Valid() && Abstract(lastNo) == Run(fs) && AllReceived(fs)
      ensures addr - start == |Assembled(fs, |fs|).out| && Holds(mem, start, Assembled(fs, |fs|).out)
    {
      hide Valid, Run, Assembled, Holds, SameBelow;
      RunInvariant(fs);
      InMemory();
    }

    /** Part of a session has been received: the frames `fs`, none of which ended it. */
    ghost predicate Underway(fs: seq<Frame>, lastNo: int)
      reads this, sendParms
    {
      && Valid() && -1 <= lastNo < 256 && pos <= |input|
      && Session(input, 0) == fs + Session(input, pos)
      && AllReceived(fs) && Abstract(lastNo) == Run(fs) && sent == Answers(fs)
    }

    /** One more round of the main loop, and what it means for the session. */
    method NextPacket(lastNo0: int, ghost fs: seq<Frame>)
      returns (status: Status, kind: Byte, lastNo: int, ghost gs: seq<Frame>)
      requires Underway(fs, lastNo0)
      modifies this, sendParms
      ensures Valid() && gs != []
      ensures status == Waiting ==>
                && Session(input, 0) == gs && !gs[|gs| - 1].Packet?
                && (gs[|gs| - 1].Interrupted? <==> kind == ETX_CHAR)
      ensures status == Good && kind == BREAK_TYPE ==>
                && Session(input, 0) == gs && gs[|gs| - 1].Packet?
                && AllReceived(gs) && Abstract(lastNo) == Run(gs) && sent == Answers(gs)
      ensures status != Waiting && !(status == Good && kind == BREAK_TYPE) ==>
                Underway(gs, lastNo) && old(pos) < pos <= |input|
    {
      hide Valid, Hunt, Step, Session, Run, Assembled, Holds, SameBelow, Abstract, Answer, AllReceived, EndsSession;
      hide Answers, AnswerNo;
      ghost var p := pos;
      ghost var f;
      status, kind, lastNo, f := ReceivePacket(lastNo0);
      InStream();
      SessionStep(input, p, fs);
      gs := fs + [f];
      if status != Waiting {
        RunSnoc(fs, f);
        AllReceivedSnoc(fs, f);
        AnswersSnoc(fs, f);
        AbstractIs(lastNo);
      }
    }

    lemma AtStart()
      requires Valid() && pos == 0 && Abstract(-1) == INITIAL && sent == []
      ensures Underway([], -1)
    {
      hide Valid, Session, Abstract;
      SessionStart(input);
    }

    /**
      Receive a session. When it ends with a good break packet, memory from the start address on
      holds exactly the data of the packets that were kept, their number is returned, and every frame
      has been answered. Memory below the start address is never touched.
     */
    method Receive() returns (r: int, complete: bool)
      requires Valid() && pos == 0 && Abstract(-1) == INITIAL && sent == []
      modifies this, sendParms
      ensures Valid()
      ensures var fs := Session(input, 0);
              && (complete <==> fs[|fs| - 1].Packet?)
              && (complete ==>
                    && r == |Assembled(fs, |fs|).out|
                    && Holds(mem, start, Assembled(fs, |fs|).out)
                    && sent == Answers(fs))
              && (fs[|fs| - 1].Interrupted? ==> r == 0)
      ensures SameBelow(mem, before, start)
    {
      hide Valid, Session, Run, Assembled, Holds, SameBelow, Abstract, AllReceived, Underway, EndsSession, Answers;
      var lastNo := -1;
      ghost var fs: seq<Frame> := [];
      AtStart();
      while true
        invariant Underway(fs, lastNo) && pos <= |input|
        decreases |input| - pos
      {
        var status, kind;
        status, kind, lastNo, fs := NextPacket(lastNo, fs);
        InMemory();
        if status == Waiting {
          return if kind == ETX_CHAR then 0 else -1, false;
        }
        if status == Good && kind == BREAK_TYPE {
          AtEnd(fs, lastNo);
          return addr - start, true;
        }
      }
    }
  }

  lemma SessionStart(inp: seq<Byte>)
    ensures Session(inp, 0) == [] + Session(inp, 0)
    ensures Run([]) == INITIAL && AllReceived([])
  {
  }

  lemma SessionStep(inp: seq<Byte>, p: nat, fs: seq<Frame>)
    requires p <= |inp|
    ensures var f := Hunt(inp, p);
            if Final(f) then fs + Session(inp, p) == fs + [f]
            else fs + Session(inp, p) == (fs + [f]) + Session(inp, f.next)
  {
  }

  lemma RunSnoc(fs: seq<Frame>, f: Frame)
    ensures Run(fs + [f]) == Step(Run(fs), f)
  {
    assert (fs + [f])[..|fs|] == fs;
  }
}
