/**
  The text form of the MTD partition table: `mtdparts=<mtd-id>:<size>[@<offset>][(name)][ro],...;...`

  The printer leaves out an offset that follows from the partition before, and shortens sizes by the
  suffixes k, m and g; the parser fills both in again. The module proves that parsing the printed
  text of a table yields the table.
 */
module MtdParts {

  import opened Basics

  const NUL: char := '\0'
  const TWO32: nat := 0x1_0000_0000
  const SIZE_REMAINING: nat := 0xffff_ffff
  const OFFSET_NOT_SPECIFIED: nat := 0xffff_ffff
  const MIN_PART_SIZE: nat := 4096
  const KB: nat := 1024
  const MB: nat := 0x10_0000
  const GB: nat := 0x4000_0000

  type U32 = x: nat | x < TWO32

  /** A character of a C string; NUL at its end. */
  function CharAt(s: string, p: nat): char {
    if p < |s| then s[p] else NUL
  }

  /** The text `t` stands at position `p`. */
  ghost predicate At(s: string, p: nat, t: string) {
    p + |t| <= |s| && s[p..p + |t|] == t
  }

  lemma AtSplit(s: string, p: nat, t: string, u: string)
    requires At(s, p, t + u)
    ensures At(s, p, t) && At(s, p + |t|, u)
  {
    assert s[p..p + |t|] == s[p..p + |t + u|][..|t|];
    assert s[p + |t|..p + |t + u|] == s[p..p + |t + u|][|t|..];
  }

  lemma AtChar(s: string, p: nat, t: string, i: nat)
    requires At(s, p, t) && i < |t|
    ensures s[p + i] == t[i]
  {
    assert s[p..p + |t|][i] == s[p + i];
  }

  // ---------------------------------------------------------------------------------------------
  // Numbers
  // ---------------------------------------------------------------------------------------------

  /** The value of a hexadecimal digit; 16 for any other character. */
  function DigitValue(c: char): nat {
    if '0' <= c <= '9' then c as nat - '0' as nat
    else if 'a' <= c <= 'f' then c as nat - 'a' as nat + 10
    else if 'A' <= c <= 'F' then c as nat - 'A' as nat + 10
    else 16
  }

  /** The digits from `p` on, on top of a value already read, modulo the width of the type. */
  function Digits(s: string, p: nat, base: nat, acc: U32): (r: (U32, nat))
    requires base <= 16 && p <= |s|
    ensures p <= r.1 <= |s|
    ensures r.1 == p ==> r.0 == acc
    decreases |s| - p
  {
    if p < |s| && DigitValue(s[p]) < base then
      Digits(s, p + 1, base, (acc * base + DigitValue(s[p])) % TWO32)
    else (acc, p)
  }

  /** A number in C notation: decimal, octal with a leading 0, hexadecimal with a leading 0x. */
  function Number(s: string, p: nat): (r: (U32, nat))
    requires p <= |s|
    ensures p <= r.1 <= |s|
    ensures r.1 == p ==> r.0 == 0
  {
    if CharAt(s, p) == '0' then
      if CharAt(s, p + 1) == 'x' && DigitValue(CharAt(s, p + 2)) < 16 then Digits(s, p + 2, 16, 0)
      else Digits(s, p + 1, 8, 0)
    else Digits(s, p, 10, 0)
  }

  function Scale(c: char): nat {
    if c == 'G' || c == 'g' then GB
    else if c == 'M' || c == 'm' then MB
    else if c == 'K' || c == 'k' then KB
    else 1
  }

  /** A number with an optional size suffix. */
  function MemSize(s: string, p: nat): (r: (U32, nat))
    requires p <= |s|
    ensures p <= r.1 <= |s|
    ensures r.1 == p ==> r.0 == 0
  {
    var (v, q) := Number(s, p);
    var scale := Scale(CharAt(s, q));
    if scale == 1 then (v, q) else (v * scale % TWO32, q + 1)
  }

  function DigitChar(d: nat): char
    requires d < 10
  {
    ('0' as nat + d) as char
  }

  function Decimal(n: nat): (s: string)
    ensures s != ""
  {
    (if n < 10 then "" else Decimal(n / 10)) + [DigitChar(n % 10)]
  }

  /** A size in its shortest exact notation. */
  function Format(n: U32): (s: string)
    ensures s != ""
  {
    if n % GB == 0 then Decimal(n / GB) + "g"
    else if n % MB == 0 then Decimal(n / MB) + "m"
    else if n % KB == 0 then Decimal(n / KB) + "k"
    else Decimal(n)
  }

  lemma {:induction false} DecimalStart(n: nat)
    requires 0 < n
    ensures '1' <= Decimal(n)[0] <= '9'
  {
    if n < 10 {
    } else {
      DecimalStart(n / 10);
    }
  }

  lemma DigitStep(s: string, p: nat, acc: U32, d: nat)
    requires p < |s| && d < 10 && s[p] == DigitChar(d) && acc * 10 + d < TWO32
    ensures Digits(s, p, 10, acc) == Digits(s, p + 1, 10, acc * 10 + d)
  {
    assert DigitValue(s[p]) == d;
  }

  /** Reading the digits of a number leaves the number as the value read so far. */
  lemma {:induction false} DigitsOfDecimal(s: string, p: nat, n: U32)
    requires At(s, p, Decimal(n))
    ensures Digits(s, p, 10, 0) == Digits(s, p + |Decimal(n)|, 10, n)
  {
    hide Digits, DigitChar;
    if n < 10 {
      AtChar(s, p, Decimal(n), 0);
      DigitStep(s, p, 0, n);
    } else {
      AtSplit(s, p, Decimal(n / 10), [DigitChar(n % 10)]);
      DigitsOfDecimal(s, p, n / 10);
      LastDigit(s, p, n);
    }
  }

  lemma LastDigit(s: string, p: nat, n: U32)
    requires n >= 10 && At(s, p, Decimal(n / 10) + [DigitChar(n % 10)])
    ensures Digits(s, p + |Decimal(n / 10)|, 10, n / 10) == Digits(s, p + |Decimal(n)|, 10, n)
  {
    hide Digits, DigitChar;
    var d := Decimal(n / 10);
    AtSplit(s, p, d, [DigitChar(n % 10)]);
    AtChar(s, p + |d|, [DigitChar(n % 10)], 0);
    DigitStep(s, p + |d|, n / 10, n % 10);
  }

  lemma NumberOfDecimal(s: string, p: nat, n: U32)
    requires 0 < n && At(s, p, Decimal(n))
    requires 10 <= DigitValue(CharAt(s, p + |Decimal(n)|))
    ensures Number(s, p) == (n, p + |Decimal(n)|)
  {
    DecimalStart(n);
    AtChar(s, p, Decimal(n), 0);
    DigitsOfDecimal(s, p, n);
  }

  /** What may follow a size: neither a digit nor a suffix. */
  predicate EndsSize(c: char) {
    10 <= DigitValue(c) && Scale(c) == 1
  }

  lemma ScaledNumber(s: string, p: nat, v: U32, c: char)
    requires 0 < v && At(s, p, Decimal(v) + [c]) && Scale(c) != 1
    ensures MemSize(s, p) == (v * Scale(c) % TWO32, p + |Decimal(v)| + 1)
  {
    AtSplit(s, p, Decimal(v), [c]);
    AtChar(s, p + |Decimal(v)|, [c], 0);
    NumberOfDecimal(s, p, v);
  }

  lemma Rescale(n: U32, unit: nat)
    requires unit == GB || unit == MB || unit == KB
    requires 0 < n && n % unit == 0
    ensures 0 < n / unit && n / unit * unit % TWO32 == n
  {
  }

  lemma ZeroIsParsed(s: string, p: nat)
    requires At(s, p, "0g")
    ensures MemSize(s, p) == (0, p + 2)
  {
    AtChar(s, p, "0g", 0);
    AtChar(s, p, "0g", 1);
    assert Digits(s, p + 1, 8, 0) == (0, p + 1);
  }

  /** Parsing a formatted size gives the size, for every 32-bit number. */
  lemma FormatIsParsed(s: string, p: nat, n: U32)
    requires At(s, p, Format(n)) && EndsSize(CharAt(s, p + |Format(n)|))
    ensures MemSize(s, p) == (n, p + |Format(n)|)
  {
    hide MemSize, At, Decimal;
    if n == 0 {
      DecimalZero();
      ZeroIsParsed(s, p);
    } else if n % GB == 0 {
      Rescale(n, GB);
      ScaledNumber(s, p, n / GB, 'g');
    } else if n % MB == 0 {
      Rescale(n, MB);
      ScaledNumber(s, p, n / MB, 'm');
    } else if n % KB == 0 {
      Rescale(n, KB);
      ScaledNumber(s, p, n / KB, 'k');
    } else {
      PlainNumber(s, p, n);
    }
  }

  lemma DecimalZero()
    ensures Format(0) == "0g"
  {
  }

  lemma PlainNumber(s: string, p: nat, n: U32)
    requires 0 < n && At(s, p, Decimal(n)) && EndsSize(CharAt(s, p + |Decimal(n)|))
    ensures MemSize(s, p) == (n, p + |Decimal(n)|)
  {
    NumberOfDecimal(s, p, n);
  }

  /** The number that a text of digits stands for. */
  function ValueOf(t: string, base: nat): nat {
    if t == "" then 0 else ValueOf(t[..|t| - 1], base) * base + DigitValue(t[|t| - 1])
  }

  predicate AllDigits(t: string, base: nat) {
    forall i | 0 <= i < |t| :: DigitValue(t[i]) < base
  }

  lemma DigitCharacters(d: nat)
    requires d < 16
    ensures DigitValue("0123456789abcdef"[d]) == d == DigitValue("0123456789ABCDEF"[d])
    ensures forall c | c !in "0123456789abcdefABCDEF" :: DigitValue(c) == 16
  {
  }

  lemma WrapsOnce(a: nat, b: nat, d: nat)
    ensures (a % TWO32 * b + d) % TWO32 == (a * b + d) % TWO32
  {
    var k := a / TWO32;
    assert a == TWO32 * k + a % TWO32;
    assert a * b + d == TWO32 * (k * b) + (a % TWO32 * b + d);
    Shifted(k * b, a % TWO32 * b + d);
  }

  lemma Shifted(k: nat, x: nat)
    ensures (TWO32 * k + x) % TWO32 == x % TWO32
  {
  }

  /** The digits read are all that there are, and their value counts modulo 2^32. */
  lemma {:induction false} DigitsAreRead(s: string, start: nat, p: nat, base: nat, acc: U32)
    requires base <= 16 && start <= p <= |s| && AllDigits(s[start..p], base)
    requires acc == ValueOf(s[start..p], base) % TWO32
    ensures var (v, q) := Digits(s, p, base, acc);
            && AllDigits(s[start..q], base) && v == ValueOf(s[start..q], base) % TWO32
            && (q < |s| ==> DigitValue(s[q]) >= base)
    decreases |s| - p
  {
    hide DigitValue;
    if p == |s| || DigitValue(s[p]) >= base {
    } else {
      var t := s[start..p + 1];
      assert t[..|t| - 1] == s[start..p];
      assert forall i | 0 <= i < |t| :: i < p - start ==> t[i] == s[start..p][i];
      WrapsOnce(ValueOf(s[start..p], base), base, DigitValue(s[p]));
      DigitsAreRead(s, start, p + 1, base, (acc * base + DigitValue(s[p])) % TWO32);
    }
  }

  /** The base of a number and where its digits begin. */
  predicate Notation(s: string, p: nat, base: nat, start: nat) {
    || (base == 16 && start == p + 2 && start < |s| && s[p..start] == "0x" && DigitValue(s[start]) < 16)
    || (base == 8 && start == p + 1 <= |s| && s[p] == '0'
        && !(p + 2 < |s| && s[p + 1] == 'x' && DigitValue(s[p + 2]) < 16))
    || (base == 10 && start == p && !(p < |s| && s[p] == '0'))
  }

  /** Any text is read as the decimal, octal or hexadecimal number that its longest run of digits means. */
  lemma NumberIsRead(s: string, p: nat, base: nat, start: nat)
    requires p <= |s| && Notation(s, p, base, start)
    ensures var (v, q) := Number(s, p);
            && start <= q && AllDigits(s[start..q], base) && v == ValueOf(s[start..q], base) % TWO32
            && (q < |s| ==> DigitValue(s[q]) >= base)
  {
    assert s[start..start] == "";
    DigitsAreRead(s, start, start, base, 0);
    if base == 16 {
      assert s[p] == s[p..start][0] && s[p + 1] == s[p..start][1];
    }
  }

  /** A suffix multiplies by 2^30, 2^20 or 2^10. */
  lemma SizeIsRead(s: string, p: nat)
    requires p <= |s|
    ensures var ((v, q), (w, e)) := (Number(s, p), MemSize(s, p));
            if q < |s| && s[q] in "gG" then e == q + 1 && w == v * 1073741824 % TWO32
            else if q < |s| && s[q] in "mM" then e == q + 1 && w == v * 1048576 % TWO32
            else if q < |s| && s[q] in "kK" then e == q + 1 && w == v * 1024 % TWO32
            else e == q && w == v
  {
    hide Number;
  }

  lemma {:induction false} DecimalGrows(m: nat, n: nat)
    requires m <= n
    ensures |Decimal(m)| <= |Decimal(n)|
  {
    if m < 10 {
    } else {
      DecimalGrows(m / 10, n / 10);
    }
  }

  lemma ThreeDigitsMore(k: nat)
    requires 0 < k
    ensures |Decimal(1000 * k)| == |Decimal(k)| + 3
  {
    assert 1000 * k / 10 == 100 * k && 100 * k / 10 == 10 * k && 10 * k / 10 == k;
    assert |Decimal(10 * k)| == |Decimal(k)| + 1;
    assert |Decimal(100 * k)| == |Decimal(10 * k)| + 1;
  }

  lemma UnitIsShorter(k: nat)
    requires 0 < k
    ensures |Decimal(1024 * k)| >= |Decimal(k)| + 3
  {
    ThreeDigitsMore(k);
    DecimalGrows(1000 * k, 1024 * k);
  }

  /** The suffixes and what they stand for. */
  predicate IsUnit(unit: nat, suffix: string) {
    || (unit == 1 && suffix == "") || (unit == 1024 && suffix == "k")
    || (unit == 1048576 && suffix == "m") || (unit == 1073741824 && suffix == "g")
  }

  /** No other exact notation of a size is as short as the printed one. */
  lemma FormatIsShortest(n: U32, k: nat, unit: nat, suffix: string)
    requires 0 < n && IsUnit(unit, suffix) && k * unit == n
    ensures |Format(n)| <= |Decimal(k) + suffix|
    ensures |Format(n)| == |Decimal(k) + suffix| ==> Format(n) == Decimal(k) + suffix
  {
    hide Decimal;
    if n % GB == 0 {
      BiggerUnit(n, k, unit, GB);
    } else if n % MB == 0 {
      BiggerUnit(n, k, unit, MB);
    } else if n % KB == 0 {
      BiggerUnit(n, k, unit, KB);
    }
  }

  lemma BiggerUnit(n: nat, k: nat, unit: nat, big: nat)
    requires (big == KB || big == MB || big == GB) && 0 < n && k * unit == n && n % big == 0
    requires unit == 1 || unit == KB || unit == MB || unit == GB
    ensures unit < big ==> |Decimal(k)| >= |Decimal(n / big)| + 3
    ensures unit == big ==> k == n / big
  {
    hide Decimal;
    var q := n / big;
    if unit < big {
      assert q * big == k * unit;
      assert k >= 1024 * q && q > 0;
      UnitIsShorter(q);
      DecimalGrows(1024 * q, k);
    }
  }

  // ---------------------------------------------------------------------------------------------
  // Partitions
  // ---------------------------------------------------------------------------------------------

  /** A partition; `name` is None when it is made up by the parser. */
  datatype Part = Part(size: U32, offset: U32, name: Option<string>, flags: U32)

  type Positive = x: nat | 0 < x < TWO32 witness 1

  /** The sector starts of a NOR chip, relative to its first, and its size; the erase size of a NAND chip. */
  datatype Geometry = Nor(starts: seq<U32>, chipSize: U32) | Nand(eraseSize: Positive) | OtherType

  datatype MtdId = MtdId(mtdId: string, num: nat, size: U32, geometry: Geometry)

  predicate Aligned(g: Geometry, offset: U32, size: U32) {
    match g
    case Nor(starts, chipSize) =>
      var end := (offset + size) % TWO32;
      offset in starts && (end in starts || end == chipSize)
    case Nand(eraseSize) => offset % eraseSize == 0 && size % eraseSize == 0
    case OtherType => false
  }

  /** The validated partition, with its size filled in if it takes all the space that remains. */
  function Validate(id: MtdId, x: Part): Option<Part> {
    var size: U32 := if x.size == SIZE_REMAINING then (id.size - x.offset) % TWO32 else x.size;
    var end := (x.offset + size) % TWO32;
    if x.offset > id.size || end <= x.offset || end > id.size || !Aligned(id.geometry, x.offset, size) then None
    else Some(x.(size := size))
  }

  /** Index of the first `c` from `p` on; the length of the string if there is none. */
  function FindChar(s: string, p: nat, c: char): (q: nat)
    requires p <= |s|
    ensures p <= q <= |s|
    decreases |s| - p
  {
    if p == |s| || s[p] == c then p else FindChar(s, p + 1, c)
  }

  predicate EndsPart(c: char) {
    c == ',' || c == ';' || c == NUL
  }

  /** One partition definition; the partition and where the next one starts. */
  function ParsePart(s: string, p: nat): (r: Option<(Part, nat)>)
    requires p <= |s|
    ensures r.Some? ==> p < r.value.1 <= |s|
  {
    var (size, q) := if CharAt(s, p) == '-' then (SIZE_REMAINING, p + 1) else MemSize(s, p);
    if size < MIN_PART_SIZE then None
    else
      var (offset, q) := if CharAt(s, q) == '@' then MemSize(s, q + 1) else (OFFSET_NOT_SPECIFIED, q);
      ParseName(s, q, size, offset)
  }

  /** The name, if there is one, and all behind it. */
  function ParseName(s: string, p: nat, size: U32, offset: U32): (r: Option<(Part, nat)>)
    requires p <= |s|
    ensures r.Some? ==> p <= r.value.1 <= |s|
  {
    if CharAt(s, p) == '(' then
      var e := FindChar(s, p + 1, ')');
      if e == |s| || e == p + 1 then None
      else ParseEnd(s, e + 1, Part(size, offset, Some(s[p + 1..e]), 0))
    else ParseEnd(s, p, Part(size, offset, None, 0))
  }

  /** The read-only option and the separator behind a partition. */
  function ParseEnd(s: string, p: nat, x: Part): (r: Option<(Part, nat)>)
    requires p <= |s|
    ensures r.Some? ==> p <= r.value.1 <= |s|
  {
    var ro := CharAt(s, p) == 'r' && CharAt(s, p + 1) == 'o';
    var x, q := if ro then x.(flags := 1) else x, if ro then p + 2 else p;
    if CharAt(s, q) == ',' then
      if x.size == SIZE_REMAINING then None else Some((x, q + 1))
    else if CharAt(s, q) == ';' || CharAt(s, q) == NUL then Some((x, q))
    else None
  }

  /** An offset is on a border where sectors or erase blocks meet; the end may be that of the chip. */
  predicate OnBorders(g: Geometry, offset: int, end: int) {
    match g
    case Nor(starts, chipSize) =>
      (exists i | 0 <= i < |starts| :: starts[i] as int == offset)
      && (end == chipSize || exists i | 0 <= i < |starts| :: starts[i] as int == end)
    case Nand(eraseSize) => offset % eraseSize == 0 && end % eraseSize == 0
    case OtherType => false
  }

  lemma BlocksMeet(a: nat, b: nat, e: nat)
    requires e > 0 && a % e == 0
    ensures b % e == 0 <==> (a + b) % e == 0
  {
    var q := a / e;
    assert a == e * q;
    Divided(a + b, e, q + b / e, b % e) by {
      assert e * (q + b / e) == e * q + e * (b / e);
    }
  }

  /** The end of an interval of 32-bit numbers is behind its start exactly if it does not wrap around. */
  lemma EndWraps(offset: U32, size: U32, n: U32)
    ensures var end := (offset + size) % TWO32; end > offset <==> 0 < size && offset + size < TWO32
    ensures offset + size < TWO32 ==> (offset + size) % TWO32 == offset + size
    ensures offset <= n ==> (n - offset) % TWO32 == n - offset
  {
    if TWO32 <= offset + size {
      Shifted(1, offset + size - TWO32);
    }
  }

  /**
    A partition is accepted exactly if its interval lies in the device, is not empty, and begins and ends
    on borders; and its size becomes that of the interval.
   */
  lemma ValidIffInside(id: MtdId, x: Part)
    ensures var end := if x.size == 0xffff_ffff then id.size else x.offset + x.size;
            if x.offset < end <= id.size && OnBorders(id.geometry, x.offset, end)
            then Validate(id, x) == Some(x.(size := end - x.offset)) else Validate(id, x) == None
  {
    hide Aligned, OnBorders;
    var end := if x.size == 0xffff_ffff then id.size else x.offset + x.size;
    var size: U32 := if x.size == SIZE_REMAINING then (id.size - x.offset) % TWO32 else x.size;
    EndWraps(x.offset, size, id.size);
    if x.offset < end <= id.size {
      assert size == end - x.offset;
      AlignedIffOnBorders(id.geometry, x.offset, size);
    }
  }

  lemma AlignedIffOnBorders(g: Geometry, offset: U32, size: U32)
    requires offset + size < TWO32
    ensures Aligned(g, offset, size) <==> OnBorders(g, offset, offset + size)
  {
    match g
    case Nor(starts, chipSize) =>
    case Nand(eraseSize) =>
      if offset % eraseSize == 0 {
        BlocksMeet(offset, size, eraseSize);
      }
    case OtherType =>
  }

  predicate IsSize(s: string, p: nat, a: nat, size: U32) {
    && p <= a <= |s| && 4096 <= size
    && if p < |s| && s[p] == '-' then a == p + 1 && size == 0xffff_ffff else MemSize(s, p) == (size, a)
  }

  predicate IsOffset(s: string, a: nat, b: nat, offset: U32) {
    && a <= b <= |s|
    && if a < |s| && s[a] == '@' then MemSize(s, a + 1) == (offset, b) else b == a && offset == 0xffff_ffff
  }

  predicate IsName(s: string, b: nat, c: nat, name: Option<string>) {
    && b <= c <= |s|
    && if b < |s| && s[b] == '('
       then b + 3 <= c && s[c - 1] == ')' && name == Some(s[b + 1..c - 1]) && ')' !in s[b + 1..c - 1]
       else c == b && name == None
  }

  predicate IsOption(s: string, c: nat, d: nat, flags: U32) {
    && c <= d <= |s|
    && if c + 2 <= |s| && s[c..c + 2] == "ro" then d == c + 2 && flags == 1 else d == c && flags == 0
  }

  predicate IsSeparator(s: string, d: nat, q: nat, last: bool) {
    && d <= q <= |s|
    && if d < |s| && s[d] == ',' then q == d + 1 && !last else q == d && (d == |s| || s[d] == ';' || s[d] == NUL)
  }

  /**
    The grammar of a definition from `p` on, with the ends `a` of its size, `b` of its offset, `c` of its
    name and `d` of its option; `q` is where the next definition begins.
   */
  predicate IsDefinition(s: string, p: nat, a: nat, b: nat, c: nat, d: nat, q: nat, x: Part) {
    && IsSize(s, p, a, x.size)
    && IsOffset(s, a, b, x.offset)
    && IsName(s, b, c, x.name)
    && IsOption(s, c, d, x.flags)
    && IsSeparator(s, d, q, x.size == 0xffff_ffff)
  }

  lemma {:induction false} FoundFirst(s: string, p: nat, c: char)
    requires p <= |s|
    ensures var e := FindChar(s, p, c); c !in s[p..e] && (e < |s| ==> s[e] == c)
    decreases |s| - p
  {
    if p == |s| || s[p] == c {
    } else {
      FoundFirst(s, p + 1, c);
      var e := FindChar(s, p + 1, c);
      assert s[p..e] == [s[p]] + s[p + 1..e];
    }
  }

  lemma FoundIs(s: string, p: nat, c: char, e: nat)
    requires p <= e < |s| && s[e] == c && c !in s[p..e]
    ensures FindChar(s, p, c) == e
  {
    FoundFirst(s, p, c);
  }

  /** The text of the option, as it is compared. */
  lemma ReadOnlyAt(s: string, c: nat)
    requires c <= |s|
    ensures CharAt(s, c) == 'r' && CharAt(s, c + 1) == 'o' <==> c + 2 <= |s| && s[c..c + 2] == "ro"
  {
    if c + 2 <= |s| {
      assert s[c..c + 2][0] == s[c] && s[c..c + 2][1] == s[c + 1];
    }
  }

  lemma EndIffOption(s: string, c: nat, x: Part, d: nat, q: nat, y: Part)
    requires c <= |s| && x.flags == 0
    ensures d == (if CharAt(s, c) == 'r' && CharAt(s, c + 1) == 'o' then c + 2 else c) ==>
              (ParseEnd(s, c, x) == Some((y, q))
               <==> y == x.(flags := y.flags) && IsOption(s, c, d, y.flags)
                    && IsSeparator(s, d, q, x.size == 0xffff_ffff))
    ensures IsOption(s, c, d, y.flags) ==> d == if CharAt(s, c) == 'r' && CharAt(s, c + 1) == 'o' then c + 2 else c
  {
    ReadOnlyAt(s, c);
  }

  lemma AcceptedName(s: string, b: nat, size: U32, offset: U32, x: Part, q: nat) returns (c: nat, d: nat)
    requires b <= |s| && ParseName(s, b, size, offset) == Some((x, q))
    ensures x.size == size && x.offset == offset
    ensures IsName(s, b, c, x.name) && IsOption(s, c, d, x.flags) && IsSeparator(s, d, q, x.size == 0xffff_ffff)
  {
    hide ParseEnd, IsOption, IsSeparator;
    c := if CharAt(s, b) == '(' then FindChar(s, b + 1, ')') + 1 else b;
    if CharAt(s, b) == '(' {
      FoundFirst(s, b + 1, ')');
    }
    d := if CharAt(s, c) == 'r' && CharAt(s, c + 1) == 'o' then c + 2 else c;
    var name := if CharAt(s, b) == '(' then Some(s[b + 1..c - 1]) else None;
    EndIffOption(s, c, Part(size, offset, name, 0), d, q, x);
  }

  /** A definition is accepted only as the grammar says. */
  lemma AcceptedIsDefinition(s: string, p: nat, x: Part, q: nat) returns (a: nat, b: nat, c: nat, d: nat)
    requires p <= |s| && ParsePart(s, p) == Some((x, q))
    ensures IsDefinition(s, p, a, b, c, d, q, x)
  {
    hide MemSize, ParseName, IsName, IsOption, IsSeparator;
    a := if CharAt(s, p) == '-' then p + 1 else MemSize(s, p).1;
    b := if CharAt(s, a) == '@' then MemSize(s, a + 1).1 else a;
    var size := if CharAt(s, p) == '-' then SIZE_REMAINING else MemSize(s, p).0;
    var offset := if CharAt(s, a) == '@' then MemSize(s, a + 1).0 else OFFSET_NOT_SPECIFIED;
    c, d := AcceptedName(s, b, size, offset, x, q);
  }

  /** And every definition of the grammar is. */
  lemma DefinitionIsAccepted(s: string, p: nat, a: nat, b: nat, c: nat, d: nat, q: nat, x: Part)
    requires IsDefinition(s, p, a, b, c, d, q, x)
    ensures ParsePart(s, p) == Some((x, q))
  {
    hide MemSize, ParseEnd, IsOption, IsSeparator;
    if b < |s| && s[b] == '(' {
      FoundIs(s, b + 1, ')', c - 1);
    }
    var y := x.(flags := 0);
    EndIffOption(s, c, y, d, q, x);
    assert ParseEnd(s, c, y) == Some((x, q));
  }

  function NameText(name: Option<string>): string {
    if name.Some? then "(" + name.value + ")" else ""
  }

  /** A partition that starts at offset `expected` is printed without its offset. */
  function PartText(x: Part, expected: U32): string {
    Format(x.size) + ((if x.offset == expected then "" else "@" + Format(x.offset))
                      + (NameText(x.name) + if x.flags != 0 then "ro" else ""))
  }

  predicate Printable(x: Part) {
    && MIN_PART_SIZE <= x.size
    && x.offset != OFFSET_NOT_SPECIFIED
    && (x.name.Some? ==> x.name.value != "" && ')' !in x.name.value)
  }

  /** The partition the parser makes of the printed text. */
  function Reparsed(x: Part, expected: U32): Part {
    Part(x.size, if x.offset == expected then OFFSET_NOT_SPECIFIED else x.offset, x.name, if x.flags != 0 then 1 else 0)
  }

  lemma {:induction false} FindCharAt(s: string, p: nat, t: string, c: char)
    requires At(s, p, t + [c]) && c !in t
    ensures FindChar(s, p, c) == p + |t|
    decreases |t|
  {
    AtChar(s, p, t + [c], 0);
    if t == "" {
    } else {
      assert t + [c] == [t[0]] + (t[1..] + [c]);
      AtSplit(s, p, [t[0]], t[1..] + [c]);
      assert t[0] in t;
      FindCharAt(s, p + 1, t[1..], c);
    }
  }

  /**
    The result for a partition that ends at `q`: the size that stands for "all the rest" must not be
    followed by another partition.
   */
  function Ended(s: string, q: nat, x: Part): Option<(Part, nat)> {
    if CharAt(s, q) == ',' then
      if x.size == SIZE_REMAINING then None else Some((x, q + 1))
    else Some((x, q))
  }

  lemma EndIsParsed(s: string, p: nat, x: Part, ro: bool)
    requires At(s, p, if ro then "ro" else "") && x.flags == 0
    requires EndsPart(CharAt(s, p + if ro then 2 else 0))
    ensures p <= |s| && ParseEnd(s, p, x) == Ended(s, p + if ro then 2 else 0, x.(flags := if ro then 1 else 0))
  {
    if ro {
      AtChar(s, p, "ro", 0);
      AtChar(s, p, "ro", 1);
    }
  }

  lemma NameAndEndAreParsed(s: string, p: nat, size: U32, offset: U32, name: Option<string>, ro: bool)
    requires At(s, p, NameText(name) + if ro then "ro" else "")
    requires name.Some? ==> name.value != "" && ')' !in name.value
    requires EndsPart(CharAt(s, p + |NameText(name)| + if ro then 2 else 0))
    ensures p <= |s|
    ensures ParseName(s, p, size, offset)
         == Ended(s, p + |NameText(name)| + (if ro then 2 else 0), Part(size, offset, name, if ro then 1 else 0))
  {
    hide ParseEnd, At;
    var end := if ro then "ro" else "";
    AtSplit(s, p, NameText(name), end);
    EndIsParsed(s, p + |NameText(name)|, Part(size, offset, name, 0), ro);
    if name.Some? {
      NameIsParsed(s, p, name.value);
    } else {
      NoName(s, p, ro);
    }
  }

  lemma NameIsParsed(s: string, p: nat, n: string)
    requires At(s, p, "(" + n + ")") && ')' !in n
    ensures p < |s| && s[p] == '('
    ensures FindChar(s, p + 1, ')') == p + 1 + |n| < |s| && s[p + 1..p + 1 + |n|] == n
  {
    assert "(" + n + ")" == "(" + (n + ")");
    AtChar(s, p, "(" + n + ")", 0);
    AtSplit(s, p, "(", n + ")");
    FindCharAt(s, p + 1, n, ')');
    AtSplit(s, p + 1, n, ")");
  }

  lemma NoName(s: string, p: nat, ro: bool)
    requires At(s, p, if ro then "ro" else "") && EndsPart(CharAt(s, p + if ro then 2 else 0))
    ensures p <= |s| && CharAt(s, p) != '(' && CharAt(s, p) != '@' && EndsSize(CharAt(s, p))
  {
    if ro {
      AtChar(s, p, "ro", 0);
    }
  }

  /** The text of the offset: nothing, if it is the expected one. */
  function OffsetText(x: Part, expected: U32): string {
    if x.offset == expected then "" else "@" + Format(x.offset)
  }

  /** Size and offset are read; what follows is the name or what is behind it. */
  lemma {:induction false} SizeAndOffsetAreParsed(s: string, p: nat, x: Part, expected: U32)
    requires At(s, p, Format(x.size)) && At(s, p + |Format(x.size)|, OffsetText(x, expected))
    requires MIN_PART_SIZE <= x.size
    requires var c := CharAt(s, p + |Format(x.size)| + |OffsetText(x, expected)|); c != '@' && EndsSize(c)
    ensures var q := p + |Format(x.size)| + |OffsetText(x, expected)|;
            && q <= |s|
            && ParsePart(s, p)
               == ParseName(s, q, x.size, if x.offset == expected then OFFSET_NOT_SPECIFIED else x.offset)
  {
    hide At, Format, MemSize, ParseName, EndsSize;
    var q := p + |Format(x.size)|;
    InText(s, q, OffsetText(x, expected));
    NotDash(s, p, x.size);
    if x.offset != expected {
      AtSplit(s, q, "@", Format(x.offset));
      OffsetStart(s, q);
      FormatIsParsed(s, q + 1, x.offset);
    }
    FormatIsParsed(s, p, x.size);
  }

  lemma InText(s: string, p: nat, t: string)
    requires At(s, p, t)
    ensures p + |t| <= |s|
  {
  }

  /** Parsing the printed text of a partition gives the partition. */
  lemma {:induction false} PartIsParsed(s: string, p: nat, x: Part, expected: U32)
    requires At(s, p, PartText(x, expected)) && Printable(x)
    requires EndsPart(CharAt(s, p + |PartText(x, expected)|))
    ensures p <= |s|
    ensures ParsePart(s, p) == Ended(s, p + |PartText(x, expected)|, Reparsed(x, expected))
  {
    hide At, Format, ParsePart, ParseName, NameText, EndsSize, Ended, CharAt, EndsPart;
    var ro := x.flags != 0;
    var name := NameText(x.name) + if ro then "ro" else "";
    var at := OffsetText(x, expected);
    AtSplit(s, p, Format(x.size), at + name);
    var q := p + |Format(x.size)|;
    AtSplit(s, q, at, name);
    NameAndEndAreParsed(s, q + |at|, x.size, if x.offset == expected then OFFSET_NOT_SPECIFIED else x.offset,
                        x.name, ro);
    NameStart(s, q + |at|, x.name, ro);
    SizeAndOffsetAreParsed(s, p, x, expected);
  }

  lemma NotDash(s: string, p: nat, n: U32)
    requires At(s, p, Format(n))
    ensures p <= |s| && CharAt(s, p) != '-'
  {
    AtChar(s, p, Format(n), 0);
    FormatStart(n);
  }

  lemma FormatStart(n: U32)
    ensures '0' <= Format(n)[0] <= '9'
  {
    if n == 0 {
      DecimalZero();
    } else if n % GB == 0 {
      DecimalStart(n / GB);
    } else if n % MB == 0 {
      DecimalStart(n / MB);
    } else if n % KB == 0 {
      DecimalStart(n / KB);
    } else {
      DecimalStart(n);
    }
  }

  lemma OffsetStart(s: string, q: nat)
    requires At(s, q, "@")
    ensures q < |s| && CharAt(s, q) == '@' && EndsSize('@')
  {
    AtChar(s, q, "@", 0);
  }

  lemma NameStart(s: string, p: nat, name: Option<string>, ro: bool)
    requires At(s, p, NameText(name) + if ro then "ro" else "")
    requires EndsPart(CharAt(s, p + |NameText(name)| + if ro then 2 else 0))
    ensures p <= |s| && CharAt(s, p) != '@' && EndsSize(CharAt(s, p))
  {
    if name.Some? {
      AtChar(s, p, NameText(name) + if ro then "ro" else "", 0);
    } else {
      AtSplit(s, p, "", if ro then "ro" else "");
      NoName(s, p, ro);
    }
  }

  // ---------------------------------------------------------------------------------------------
  // Devices
  // ---------------------------------------------------------------------------------------------

  datatype Device = Device(id: MtdId, parts: seq<Part>)

  /** The partition definitions of one device; `offset` is the end of the partition before. */
  function ParseParts(s: string, p: nat, id: MtdId, offset: U32): (r: Option<(seq<Part>, nat)>)
    requires p <= |s|
    ensures r.Some? ==> p <= r.value.1 <= |s|
    ensures r.Some? && r.value.1 == p ==> r.value.0 == []
    decreases |s| - p
  {
    if CharAt(s, p) == NUL || CharAt(s, p) == ';' then Some(([], p))
    else
      match ParsePart(s, p)
      case None => None
      case Some((x, q)) =>
        var at := if x.offset == OFFSET_NOT_SPECIFIED then offset else x.offset;
        match Validate(id, x.(offset := at))
        case None => None
        case Some(y) =>
          match ParseParts(s, q, id, (at + y.size) % TWO32)
          case None => None
          case Some((ys, e)) => Some(([y] + ys, e))
  }

  /** Insert a partition by its offset; a second partition at offset zero is refused. */
  function SortAdd(ps: seq<Part>, x: Part): Option<seq<Part>> {
    if ps == [] then Some([x])
    else if x.offset == ps[0].offset && ps[0].offset == 0 then None
    else if x.offset <= ps[0].offset then Some([x] + ps)
    else
      match SortAdd(ps[1..], x)
      case None => None
      case Some(r) => Some([ps[0]] + r)
  }

  function SortAll(acc: seq<Part>, ps: seq<Part>): Option<seq<Part>>
    decreases |ps|
  {
    if ps == [] then Some(acc)
    else
      match SortAdd(acc, ps[0])
      case None => None
      case Some(acc') => SortAll(acc', ps[1..])
  }

  function FindId(ids: seq<MtdId>, name: string): Option<MtdId> {
    if ids == [] then None
    else if ids[0].mtdId == name then Some(ids[0])
    else FindId(ids[1..], name)
  }

  predicate SameDevice(a: MtdId, b: MtdId) {
    a.num == b.num && a.geometry.Nor? == b.geometry.Nor? && a.geometry.Nand? == b.geometry.Nand?
  }

  function FindDevice(ds: seq<Device>, id: MtdId): Option<Device> {
    if ds == [] then None
    else if SameDevice(ds[0].id, id) then Some(ds[0])
    else FindDevice(ds[1..], id)
  }

  /** Where the partitions of a device continue: behind its last one, if it is already there. */
  function StartOffset(ds: seq<Device>, id: MtdId): U32 {
    match FindDevice(ds, id)
    case None => 0
    case Some(d) => if d.parts == [] then 0 else (d.parts[|d.parts| - 1].offset + d.parts[|d.parts| - 1].size) % TWO32
  }

  /** One device definition; the device and where the next one starts. */
  function ParseDevice(s: string, p: nat, ids: seq<MtdId>, ds: seq<Device>): (r: Option<(Device, nat)>)
    requires p <= |s|
    ensures r.Some? ==> p < r.value.1 <= |s|
  {
    var c := FindChar(s, p, ':');
    if c == |s| then None
    else
      match FindId(ids, s[p..c])
      case None => None
      case Some(id) =>
        match ParseParts(s, c + 1, id, StartOffset(ds, id))
        case None => None
        case Some((ps, q)) =>
          if ps == [] then None
          else
            match SortAll([], ps)
            case None => None
            case Some(sorted) => Some((Device(id, sorted), if CharAt(s, q) == ';' then q + 1 else q))
  }

  /** The devices from `p` on, behind those already read; a device may not come twice. */
  function ParseDevices(s: string, p: nat, ids: seq<MtdId>, ds: seq<Device>): Option<seq<Device>>
    requires p <= |s|
    decreases |s| - p
  {
    if CharAt(s, p) == NUL then Some(ds)
    else
      match ParseDevice(s, p, ids, ds)
      case None => None
      case Some((d, q)) =>
        if FindDevice(ds, d.id).Some? then None else ParseDevices(s, q, ids, ds + [d])
  }

  const PREFIX: string := "mtdparts="

  function ParseTable(s: string, ids: seq<MtdId>): Option<seq<Device>> {
    if !(PREFIX <= s) || CharAt(s, |PREFIX|) == NUL then None
    else ParseDevices(s, |PREFIX|, ids, [])
  }

  // ---------------------------------------------------------------------------------------------
  // The printer
  // ---------------------------------------------------------------------------------------------

  function End(x: Part): U32 {
    (x.offset + x.size) % TWO32
  }

  function PartsText(ps: seq<Part>, expected: U32): string
    decreases |ps|
  {
    if ps == [] then ""
    else PartText(ps[0], expected) + if |ps| == 1 then "" else "," + PartsText(ps[1..], End(ps[0]))
  }

  function DevicesText(ds: seq<Device>): string
    decreases |ds|
  {
    if ds == [] then ""
    else
      (ds[0].id.mtdId + ":") + (PartsText(ds[0].parts, 0) + if |ds| == 1 then "" else ";" + DevicesText(ds[1..]))
  }

  function TableText(ds: seq<Device>): string {
    if ds == [] then "" else PREFIX + DevicesText(ds)
  }

  // ---------------------------------------------------------------------------------------------
  // The round trip
  // ---------------------------------------------------------------------------------------------

  function Normal(x: Part): Part {
    x.(flags := if x.flags != 0 then 1 else 0)
  }

  function NormalParts(ps: seq<Part>): seq<Part> {
    seq(|ps|, i requires 0 <= i < |ps| => Normal(ps[i]))
  }

  function NormalDevices(ds: seq<Device>): seq<Device> {
    seq(|ds|, i requires 0 <= i < |ds| => Device(ds[i].id, NormalParts(ds[i].parts)))
  }

  predicate ValidPart(id: MtdId, x: Part) {
    Printable(x) && Validate(id, x) == Some(x)
  }

  /** Partitions that can be printed and read back: valid, sorted, only the last may fill up. */
  ghost predicate ValidParts(id: MtdId, ps: seq<Part>) {
    && (forall i | 0 <= i < |ps| :: ValidPart(id, ps[i]))
    && (forall i | 0 <= i < |ps| - 1 :: ps[i].size != SIZE_REMAINING)
  }

  lemma NormalValid(id: MtdId, x: Part)
    requires ValidPart(id, x)
    ensures Validate(id, Normal(x)) == Some(Normal(x))
  {
  }

  lemma ValidTail(id: MtdId, ps: seq<Part>)
    requires ValidParts(id, ps) && ps != []
    ensures ValidParts(id, ps[1..])
  {
  }

  /** One round of the partition loop puts the offset back. */
  lemma PartStep(s: string, p: nat, id: MtdId, x: Part, expected: U32, q: nat)
    requires p <= |s| && q <= |s| && ValidPart(id, x)
    requires CharAt(s, p) != NUL && CharAt(s, p) != ';'
    requires ParsePart(s, p) == Some((Reparsed(x, expected), q))
    ensures ParseParts(s, q, id, End(x)).Some? ==>
              ParseParts(s, p, id, expected).Some?
              && ParseParts(s, p, id, expected).value ==
                   ([Normal(x)] + ParseParts(s, q, id, End(x)).value.0, ParseParts(s, q, id, End(x)).value.1)
  {
    hide ParsePart, Validate, Normal, ValidPart, CharAt, End, Reparsed;
    ReparsedIsValid(id, x, expected);
  }

  lemma ReparsedIsValid(id: MtdId, x: Part, expected: U32)
    requires ValidPart(id, x)
    ensures var r := Reparsed(x, expected);
            var at := if r.offset == OFFSET_NOT_SPECIFIED then expected else r.offset;
            && Validate(id, r.(offset := at)) == Some(Normal(x))
            && (at + Normal(x).size) % TWO32 == End(x)
  {
    NormalValid(id, x);
    hide Validate;
  }

  lemma NormalCons(ps: seq<Part>)
    requires ps != []
    ensures NormalParts(ps) == [Normal(ps[0])] + NormalParts(ps[1..])
  {
  }

  lemma {:induction false} PartsAreParsed(s: string, p: nat, id: MtdId, ps: seq<Part>, expected: U32)
    requires ps != [] && ValidParts(id, ps)
    requires At(s, p, PartsText(ps, expected))
    requires var c := CharAt(s, p + |PartsText(ps, expected)|); c == ';' || c == NUL
    ensures p + |PartsText(ps, expected)| <= |s|
    ensures ParseParts(s, p, id, expected) == Some((NormalParts(ps), p + |PartsText(ps, expected)|))
    decreases |ps|
  {
    hide At, ParsePart, PartText, Normal, NormalParts, Validate, End, ParseParts;
    var x := ps[0];
    assert ValidPart(id, x);
    NormalCons(ps);
    var q := p + |PartText(x, expected)|;
    PartStart(s, p, x, expected, if |ps| == 1 then "" else "," + PartsText(ps[1..], End(x)));
    if |ps| == 1 {
      PartIsParsed(s, p, x, expected);
      PartStep(s, p, id, x, expected, q);
      NoMoreParts(s, q, id, End(x), ps[1..]);
    } else {
      AtSplit(s, p, PartText(x, expected), "," + PartsText(ps[1..], End(x)));
      CommaAt(s, q, PartsText(ps[1..], End(x)));
      PartIsParsed(s, p, x, expected);
      ValidTail(id, ps);
      PartsAreParsed(s, q + 1, id, ps[1..], End(x));
      PartStep(s, p, id, x, expected, q + 1);
    }
  }

  lemma NoMoreParts(s: string, p: nat, id: MtdId, offset: U32, ps: seq<Part>)
    requires p <= |s| && ps == []
    requires CharAt(s, p) == NUL || CharAt(s, p) == ';'
    ensures ParseParts(s, p, id, offset) == Some(([], p)) && NormalParts(ps) == []
  {
  }

  lemma CommaAt(s: string, q: nat, t: string)
    requires At(s, q, "," + t)
    ensures CharAt(s, q) == ',' && At(s, q + 1, t)
  {
    AtChar(s, q, "," + t, 0);
    AtSplit(s, q, ",", t);
  }

  lemma PartStart(s: string, p: nat, x: Part, expected: U32, more: string)
    requires At(s, p, PartText(x, expected) + more)
    ensures p < |s| && CharAt(s, p) != NUL && CharAt(s, p) != ';' && At(s, p, PartText(x, expected))
    ensures p + |PartText(x, expected)| <= |s|
  {
    AtSplit(s, p, PartText(x, expected), more);
    AtChar(s, p, PartText(x, expected), 0);
    FormatStart(x.size);
  }

  ghost predicate Ascending(ps: seq<Part>) {
    forall i, j | 0 <= i < j < |ps| :: ps[i].offset < ps[j].offset
  }

  lemma {:induction false} SortAddLast(ps: seq<Part>, x: Part)
    requires forall i | 0 <= i < |ps| :: ps[i].offset < x.offset
    ensures SortAdd(ps, x) == Some(ps + [x])
  {
    if ps == [] {
      assert ps + [x] == [x];
    } else {
      SortAddLast(ps[1..], x);
      assert ps + [x] == [ps[0]] + (ps[1..] + [x]);
    }
  }

  lemma {:induction false} SortAllAscending(acc: seq<Part>, ps: seq<Part>)
    requires Ascending(acc + ps)
    ensures SortAll(acc, ps) == Some(acc + ps)
    decreases |ps|
  {
    if ps == [] {
      assert acc + ps == acc;
    } else {
      forall i | 0 <= i < |acc|
        ensures acc[i].offset < ps[0].offset
      {
        assert (acc + ps)[i].offset < (acc + ps)[|acc|].offset;
      }
      SortAddLast(acc, ps[0]);
      assert acc + ps == acc + [ps[0]] + ps[1..];
      SortAllAscending(acc + [ps[0]], ps[1..]);
    }
  }

  lemma NormalAscending(ps: seq<Part>)
    requires Ascending(ps)
    ensures Ascending(NormalParts(ps)) && [] + NormalParts(ps) == NormalParts(ps)
  {
    var ns := NormalParts(ps);
    assert forall i | 0 <= i < |ps| :: ns[i].offset == ps[i].offset;
  }

  /** A device that can be printed and read back with the identifiers `ids`. */
  ghost predicate ValidDevice(ids: seq<MtdId>, d: Device) {
    && d.parts != [] && ValidParts(d.id, d.parts) && Ascending(d.parts)
    && FindId(ids, d.id.mtdId) == Some(d.id) && ':' !in d.id.mtdId && NUL !in d.id.mtdId
  }

  ghost predicate ValidTable(ids: seq<MtdId>, ds: seq<Device>) {
    && (forall i | 0 <= i < |ds| :: ValidDevice(ids, ds[i]))
    && (forall i, j | 0 <= i < j < |ds| :: !SameDevice(ds[i].id, ds[j].id))
  }

  function DeviceText(d: Device): string {
    d.id.mtdId + ":" + PartsText(d.parts, 0)
  }

  lemma DeviceIsParsed(s: string, p: nat, ids: seq<MtdId>, ds: seq<Device>, d: Device)
    requires ValidDevice(ids, d) && FindDevice(ds, d.id) == None
    requires At(s, p, DeviceText(d))
    requires var c := CharAt(s, p + |DeviceText(d)|); c == ';' || c == NUL
    ensures p + |DeviceText(d)| <= |s|
    ensures var q := p + |DeviceText(d)|;
            ParseDevice(s, p, ids, ds)
              == Some((Device(d.id, NormalParts(d.parts)), if CharAt(s, q) == ';' then q + 1 else q))
  {
    hide At, ParseParts, PartsText, ValidParts, Ascending, SortAll, FindId, NormalParts;
    var t := PartsText(d.parts, 0);
    AtSplit(s, p, d.id.mtdId + ":", t);
    AtSplit(s, p, d.id.mtdId, ":");
    IdAt(s, p, d.id.mtdId);
    PartsAreParsed(s, p + |d.id.mtdId| + 1, d.id, d.parts, 0);
    NormalAscending(d.parts);
    SortAllAscending([], NormalParts(d.parts));
    NormalLength(d.parts);
  }

  lemma IdAt(s: string, p: nat, id: string)
    requires At(s, p, id + ":") && ':' !in id
    ensures p + |id| < |s| && s[p..p + |id|] == id && FindChar(s, p, ':') == p + |id|
  {
    FindCharAt(s, p, id, ':');
    AtSplit(s, p, id, ":");
  }

  lemma NormalLength(ps: seq<Part>)
    ensures |NormalParts(ps)| == |ps|
  {
  }

  lemma {:induction false} FindDeviceNone(ds: seq<Device>, id: MtdId)
    requires forall i | 0 <= i < |ds| :: !SameDevice(ds[i].id, id)
    ensures FindDevice(ds, id) == None
  {
    if ds == [] {
    } else {
      FindDeviceNone(ds[1..], id);
    }
  }

  // ---------------------------------------------------------------------------------------------
  // A partition that takes all the rest
  // ---------------------------------------------------------------------------------------------

  /** A definition with a dash for its size. */
  function DashText(name: Option<string>, ro: bool): string {
    "-" + (NameText(name) + if ro then "ro" else "")
  }

  /** Some partitions, and behind them one with a dash for its size. */
  function RestText(ps: seq<Part>, expected: U32, name: Option<string>, ro: bool): string
    decreases |ps|
  {
    if ps == [] then DashText(name, ro)
    else PartText(ps[0], expected) + ("," + RestText(ps[1..], End(ps[0]), name, ro))
  }

  function LastEnd(ps: seq<Part>, expected: U32): U32 {
    if ps == [] then expected else End(ps[|ps| - 1])
  }

  /** The last partition: from `from` to the end of the device. */
  function RestPart(id: MtdId, from: U32, name: Option<string>, ro: bool): Part
    requires from < id.size
  {
    Part(id.size - from, from, name, if ro then 1 else 0)
  }

  predicate GoodName(name: Option<string>) {
    name.Some? ==> name.value != "" && ')' !in name.value
  }

  lemma {:induction false} DashIsParsed(s: string, p: nat, name: Option<string>, ro: bool)
    requires At(s, p, DashText(name, ro)) && GoodName(name)
    requires EndsPart(CharAt(s, p + |DashText(name, ro)|)) && CharAt(s, p + |DashText(name, ro)|) != ','
    ensures CharAt(s, p) == '-' && p + |DashText(name, ro)| <= |s|
    ensures ParsePart(s, p)
         == Some((Part(SIZE_REMAINING, OFFSET_NOT_SPECIFIED, name, if ro then 1 else 0), p + |DashText(name, ro)|))
  {
    hide At, ParsePart, ParseName, NameText, EndsSize, CharAt;
    var t := NameText(name) + if ro then "ro" else "";
    InText(s, p, "-" + t);
    AtSplit(s, p, "-", t);
    NameAndEndAreParsed(s, p + 1, SIZE_REMAINING, OFFSET_NOT_SPECIFIED, name, ro);
    NameStart(s, p + 1, name, ro);
    DashFirst(s, p);
  }

  lemma DashFirst(s: string, p: nat)
    requires At(s, p, "-") && CharAt(s, p + 1) != '@'
    ensures p < |s| && CharAt(s, p) == '-'
    ensures ParsePart(s, p) == ParseName(s, p + 1, SIZE_REMAINING, OFFSET_NOT_SPECIFIED)
  {
    AtChar(s, p, "-", 0);
    hide ParseName, MemSize;
  }

  /** The partitions in front of it are read as always, and it takes what they leave. */
  lemma {:induction false} RestIsParsed(s: string, p: nat, id: MtdId, ps: seq<Part>, expected: U32,
                                        name: Option<string>, ro: bool)
    requires (forall i | 0 <= i < |ps| :: ValidPart(id, ps[i]) && ps[i].size != SIZE_REMAINING) && GoodName(name)
    requires LastEnd(ps, expected) < id.size && OnBorders(id.geometry, LastEnd(ps, expected), id.size)
    requires At(s, p, RestText(ps, expected, name, ro))
    requires var c := CharAt(s, p + |RestText(ps, expected, name, ro)|); c == ';' || c == NUL
    ensures p + |RestText(ps, expected, name, ro)| <= |s|
    ensures ParseParts(s, p, id, expected)
         == Some((NormalParts(ps) + [RestPart(id, LastEnd(ps, expected), name, ro)],
                  p + |RestText(ps, expected, name, ro)|))
    decreases |ps|
  {
    hide At, ParsePart, PartText, Normal, NormalParts, Validate, End, ValidPart, OnBorders;
    if ps == [] {
      var x := RestPart(id, expected, name, ro);
      RestAlone(s, p, id, expected, name, ro);
      assert NormalParts(ps) + [x] == [] + [x] == [x];
    } else {
      RestStep(s, p, id, ps, expected, name, ro);
    }
  }

  lemma RestIsValid(id: MtdId, from: U32, name: Option<string>, ro: bool)
    requires from < id.size && OnBorders(id.geometry, from, id.size)
    ensures var y := RestPart(id, from, name, ro);
            && Validate(id, y.(size := SIZE_REMAINING)) == Some(y) && (from + y.size) % TWO32 == id.size
  {
    ValidIffInside(id, Part(SIZE_REMAINING, from, name, if ro then 1 else 0));
    hide Validate, OnBorders;
  }

  lemma {:induction false} RestAlone(s: string, p: nat, id: MtdId, from: U32, name: Option<string>, ro: bool)
    requires from < id.size && OnBorders(id.geometry, from, id.size) && GoodName(name)
    requires At(s, p, DashText(name, ro))
    requires var c := CharAt(s, p + |DashText(name, ro)|); c == ';' || c == NUL
    ensures var q := p + |DashText(name, ro)|;
            && q <= |s| && NormalParts([]) == []
            && ParseParts(s, p, id, from) == Some(([RestPart(id, from, name, ro)], q))
  {
    hide ParsePart, Validate, DashText, OnBorders, ParseParts, At, CharAt, GoodName;
    var q := p + |DashText(name, ro)|;
    DashIsParsed(s, p, name, ro);
    RestIsValid(id, from, name, ro);
    NoMoreParts(s, q, id, id.size, []);
    var x := Part(SIZE_REMAINING, OFFSET_NOT_SPECIFIED, name, if ro then 1 else 0);
    OneMorePart(s, p, id, from, x, q, RestPart(id, from, name, ro));
  }

  /** One round of the partition loop that is the last one. */
  lemma {:induction false} OneMorePart(s: string, p: nat, id: MtdId, from: U32, x: Part, q: nat, y: Part)
    requires p <= |s| && q <= |s| && CharAt(s, p) != NUL && CharAt(s, p) != ';'
    requires ParsePart(s, p) == Some((x, q)) && x.offset == OFFSET_NOT_SPECIFIED
    requires Validate(id, x.(offset := from)) == Some(y)
    requires ParseParts(s, q, id, (from + y.size) % TWO32) == Some(([], q))
    ensures ParseParts(s, p, id, from) == Some(([y], q))
  {
    hide ParsePart, Validate;
    assert [y] + [] == [y];
  }

  /** A definition that is followed by another one. */
  lemma {:induction false} PartWithMore(s: string, p: nat, id: MtdId, x: Part, expected: U32, more: string)
    requires ValidPart(id, x) && x.size != SIZE_REMAINING && At(s, p, PartText(x, expected) + ("," + more))
    ensures var q := p + |PartText(x, expected)|;
            && q + 1 + |more| <= |s| && At(s, q + 1, more) && CharAt(s, p) != NUL && CharAt(s, p) != ';'
            && ParsePart(s, p) == Some((Reparsed(x, expected), q + 1))
  {
    hide At, ParsePart, PartText, Validate, CharAt;
    var q := p + |PartText(x, expected)|;
    PartStart(s, p, x, expected, "," + more);
    AtSplit(s, p, PartText(x, expected), "," + more);
    CommaAt(s, q, more);
    InText(s, q + 1, more);
    PartIsParsed(s, p, x, expected);
  }

  lemma RestStep(s: string, p: nat, id: MtdId, ps: seq<Part>, expected: U32, name: Option<string>, ro: bool)
    requires ps != []
    requires (forall i | 0 <= i < |ps| :: ValidPart(id, ps[i]) && ps[i].size != SIZE_REMAINING) && GoodName(name)
    requires LastEnd(ps, expected) < id.size && OnBorders(id.geometry, LastEnd(ps, expected), id.size)
    requires At(s, p, RestText(ps, expected, name, ro))
    requires var c := CharAt(s, p + |RestText(ps, expected, name, ro)|); c == ';' || c == NUL
    ensures p + |RestText(ps, expected, name, ro)| <= |s|
    ensures ParseParts(s, p, id, expected)
         == Some((NormalParts(ps) + [RestPart(id, LastEnd(ps, expected), name, ro)],
                  p + |RestText(ps, expected, name, ro)|))
    decreases |ps|, 0
  {
    hide At, ParsePart, PartText, Normal, NormalParts, Validate, End, ValidPart, OnBorders, ParseParts, CharAt;
    hide GoodName, RestPart;
    var x, more := ps[0], RestText(ps[1..], End(ps[0]), name, ro);
    var q := p + |PartText(x, expected)|;
    NormalCons(ps);
    PartWithMore(s, p, id, x, expected, more);
    RestIsParsed(s, q + 1, id, ps[1..], End(x), name, ro);
    PartStep(s, p, id, x, expected, q + 1);
    RegroupParts([Normal(x)], NormalParts(ps[1..]), [RestPart(id, LastEnd(ps, expected), name, ro)]);
  }

  lemma RegroupParts(a: seq<Part>, b: seq<Part>, c: seq<Part>)
    ensures a + (b + c) == (a + b) + c
  {
  }

  /** What a device with such a partition needs besides. */
  ghost predicate RestFits(ids: seq<MtdId>, id: MtdId, ps: seq<Part>, name: Option<string>) {
    && (forall i | 0 <= i < |ps| :: ValidPart(id, ps[i]) && ps[i].size != SIZE_REMAINING) && Ascending(ps)
    && GoodName(name) && LastEnd(ps, 0) < id.size && OnBorders(id.geometry, LastEnd(ps, 0), id.size)
    && FindId(ids, id.mtdId) == Some(id) && ':' !in id.mtdId && NUL !in id.mtdId
  }

  lemma {:induction false} RestIsLast(ids: seq<MtdId>, id: MtdId, ps: seq<Part>, name: Option<string>, ro: bool)
    requires RestFits(ids, id, ps, name)
    ensures Ascending(NormalParts(ps) + [RestPart(id, LastEnd(ps, 0), name, ro)])
  {
    hide Validate, OnBorders, FindId;
    var ns, x := NormalParts(ps), RestPart(id, LastEnd(ps, 0), name, ro);
    assert forall i | 0 <= i < |ps| :: ns[i].offset == ps[i].offset;
    if ps != [] {
      EndIsBehind(id, ps[|ps| - 1]);
    }
  }

  lemma EndIsBehind(id: MtdId, x: Part)
    requires ValidPart(id, x) && x.size != SIZE_REMAINING
    ensures x.offset < End(x)
  {
  }

  lemma {:induction false} RestDeviceIsParsed(s: string, p: nat, ids: seq<MtdId>, ds: seq<Device>, id: MtdId,
                                              ps: seq<Part>, name: Option<string>, ro: bool)
    requires RestFits(ids, id, ps, name) && FindDevice(ds, id) == None
    requires At(s, p, id.mtdId + ":" + RestText(ps, 0, name, ro))
    requires var c := CharAt(s, p + |id.mtdId| + 1 + |RestText(ps, 0, name, ro)|); c == ';' || c == NUL
    ensures var q := p + |id.mtdId| + 1 + |RestText(ps, 0, name, ro)|;
            && q <= |s|
            && ParseDevice(s, p, ids, ds)
               == Some((Device(id, NormalParts(ps) + [RestPart(id, LastEnd(ps, 0), name, ro)]),
                        if CharAt(s, q) == ';' then q + 1 else q))
  {
    hide At, ParseParts, RestText, Ascending, FindId, NormalParts, ValidPart, OnBorders, ParseDevice, FindDevice;
    RestIsLast(ids, id, ps, name, ro);
    var t, parts := RestText(ps, 0, name, ro), NormalParts(ps) + [RestPart(id, LastEnd(ps, 0), name, ro)];
    AtSplit(s, p, id.mtdId + ":", t);
    RestIsParsed(s, p + |id.mtdId| + 1, id, ps, 0, name, ro);
    PartsMakeDevice(s, p, ids, ds, id, parts, p + |id.mtdId| + 1 + |t|);
  }

  lemma {:induction false} PartsMakeDevice(s: string, p: nat, ids: seq<MtdId>, ds: seq<Device>, id: MtdId,
                                           parts: seq<Part>, q: nat)
    requires At(s, p, id.mtdId + ":") && ':' !in id.mtdId && FindId(ids, id.mtdId) == Some(id)
    requires FindDevice(ds, id) == None && parts != [] && Ascending(parts)
    requires p + |id.mtdId| + 1 <= |s| && ParseParts(s, p + |id.mtdId| + 1, id, 0) == Some((parts, q))
    ensures q <= |s|
    ensures ParseDevice(s, p, ids, ds) == Some((Device(id, parts), if CharAt(s, q) == ';' then q + 1 else q))
  {
    hide At, ParseParts, Ascending, FindId, SortAll;
    IdAt(s, p, id.mtdId);
    assert [] + parts == parts;
    SortAllAscending([], parts);
  }

  /** The usual form of the variable: some partitions of one device and one for the rest of it. */
  lemma {:induction false} TableWithRest(ids: seq<MtdId>, id: MtdId, ps: seq<Part>, name: Option<string>, ro: bool)
    requires RestFits(ids, id, ps, name)
    ensures ParseTable(PREFIX + (id.mtdId + ":" + RestText(ps, 0, name, ro)), ids)
         == Some([Device(id, NormalParts(ps) + [RestPart(id, LastEnd(ps, 0), name, ro)])])
  {
    hide ParseDevice, RestText, Ascending, FindId, NormalParts, ValidPart, OnBorders;
    var t := id.mtdId + ":" + RestText(ps, 0, name, ro);
    var s, p := PREFIX + t, |PREFIX|;
    assert s[p..p + |t|] == t;
    RestDeviceIsParsed(s, p, ids, [], id, ps, name, ro);
    assert s[p] == t[0];
    var d := Device(id, NormalParts(ps) + [RestPart(id, LastEnd(ps, 0), name, ro)]);
    assert [] + [d] == [d];
    assert ParseDevices(s, |s|, ids, [d]) == Some([d]);
  }

  // ---------------------------------------------------------------------------------------------
  // Whatever is accepted is valid
  // ---------------------------------------------------------------------------------------------

  /** The partition lies in the device, with both ends on borders. */
  predicate Inside(id: MtdId, x: Part) {
    && 0 < x.size && x.offset + x.size <= id.size && OnBorders(id.geometry, x.offset, x.offset + x.size)
    && (x.name.Some? ==> x.name.value != "")
  }

  ghost predicate AllInside(id: MtdId, ps: seq<Part>) {
    forall i | 0 <= i < |ps| :: Inside(id, ps[i])
  }

  /** In the order of their offsets, and at most one of them at offset zero. */
  ghost predicate InOrder(ps: seq<Part>) {
    forall i, j | 0 <= i < j < |ps| :: ps[i].offset <= ps[j].offset && 0 < ps[j].offset
  }

  lemma {:induction false} PartsAreInside(s: string, p: nat, id: MtdId, offset: U32)
    requires p <= |s| && ParseParts(s, p, id, offset).Some?
    ensures AllInside(id, ParseParts(s, p, id, offset).value.0)
    decreases |s| - p
  {
    hide ParsePart, Validate, Inside;
    if CharAt(s, p) == NUL || CharAt(s, p) == ';' {
    } else {
      var (x, q) := ParsePart(s, p).value;
      var at := if x.offset == OFFSET_NOT_SPECIFIED then offset else x.offset;
      NamesAreNotEmpty(s, p);
      ValidIsInside(id, x.(offset := at));
      PartsAreInside(s, q, id, (at + Validate(id, x.(offset := at)).value.size) % TWO32);
    }
  }

  lemma ValidIsInside(id: MtdId, x: Part)
    requires Validate(id, x).Some? && (x.name.Some? ==> x.name.value != "")
    ensures Inside(id, Validate(id, x).value)
  {
    ValidIffInside(id, x);
    hide OnBorders, Validate;
  }

  lemma NamesAreNotEmpty(s: string, p: nat)
    requires p <= |s| && ParsePart(s, p).Some?
    ensures var x := ParsePart(s, p).value.0; x.name.Some? ==> x.name.value != ""
  {
    var (x, q) := ParsePart(s, p).value;
    var a, b, c, d := AcceptedIsDefinition(s, p, x, q);
  }

  lemma {:induction false} SortAddAddsOne(ps: seq<Part>, x: Part)
    requires SortAdd(ps, x).Some?
    ensures multiset(SortAdd(ps, x).value) == multiset(ps) + multiset{x}
  {
    if ps == [] {
    } else if x.offset <= ps[0].offset {
    } else {
      SortAddAddsOne(ps[1..], x);
      assert ps == [ps[0]] + ps[1..];
    }
  }

  lemma AmongBoth(r: seq<Part>, ps: seq<Part>, x: Part, i: nat)
    requires multiset(r) == multiset(ps) + multiset{x} && i < |r|
    ensures r[i] == x || r[i] in ps
  {
    assert r[i] in multiset(ps) + multiset{x};
  }

  lemma InFront(first: Part, r: seq<Part>)
    requires InOrder(r) && forall i | 0 <= i < |r| :: first.offset <= r[i].offset && 0 < r[i].offset
    ensures InOrder([first] + r)
  {
  }

  lemma {:induction false} SortAddKeepsOrder(ps: seq<Part>, x: Part)
    requires InOrder(ps) && SortAdd(ps, x).Some?
    ensures InOrder(SortAdd(ps, x).value)
    ensures multiset(SortAdd(ps, x).value) == multiset(ps) + multiset{x}
  {
    SortAddAddsOne(ps, x);
    if ps == [] {
    } else if x.offset <= ps[0].offset {
      InFront(x, ps);
    } else {
      SortAddKeepsOrder(ps[1..], x);
      var r := SortAdd(ps[1..], x).value;
      forall i | 0 <= i < |r|
        ensures ps[0].offset <= r[i].offset && 0 < r[i].offset
      {
        AmongBoth(r, ps[1..], x, i);
      }
      InFront(ps[0], r);
    }
  }

  /** Sorting in refuses nothing but a second partition at offset zero. */
  lemma {:induction false} SortAddRefuses(ps: seq<Part>, x: Part)
    requires InOrder(ps)
    ensures SortAdd(ps, x) == None <==> x.offset == 0 && exists i | 0 <= i < |ps| :: ps[i].offset == 0
  {
    if ps == [] {
    } else {
      SortAddRefuses(ps[1..], x);
    }
  }

  lemma {:induction false} SortAllKeepsOrder(id: MtdId, acc: seq<Part>, ps: seq<Part>)
    requires InOrder(acc) && AllInside(id, acc) && AllInside(id, ps) && SortAll(acc, ps).Some?
    ensures InOrder(SortAll(acc, ps).value) && AllInside(id, SortAll(acc, ps).value)
    ensures multiset(SortAll(acc, ps).value) == multiset(acc) + multiset(ps)
    decreases |ps|
  {
    hide Inside, InOrder, SortAdd;
    if ps == [] {
    } else {
      SortAddKeepsOrder(acc, ps[0]);
      var acc' := SortAdd(acc, ps[0]).value;
      forall i | 0 <= i < |acc'|
        ensures Inside(id, acc'[i])
      {
        assert acc'[i] in multiset(acc) + multiset{ps[0]};
      }
      SortAllKeepsOrder(id, acc', ps[1..]);
      assert ps == [ps[0]] + ps[1..];
    }
  }

  ghost predicate SoundDevice(ids: seq<MtdId>, d: Device) {
    d.id in ids && d.parts != [] && InOrder(d.parts) && AllInside(d.id, d.parts)
  }

  lemma {:induction false} FoundIdIsListed(ids: seq<MtdId>, name: string)
    requires FindId(ids, name).Some?
    ensures FindId(ids, name).value in ids && FindId(ids, name).value.mtdId == name
  {
    if ids[0].mtdId == name {
    } else {
      FoundIdIsListed(ids[1..], name);
    }
  }

  lemma DeviceIsSound(s: string, p: nat, ids: seq<MtdId>, ds: seq<Device>)
    requires p <= |s| && ParseDevice(s, p, ids, ds).Some?
    ensures SoundDevice(ids, ParseDevice(s, p, ids, ds).value.0)
  {
    hide ParseParts, Inside, InOrder, SortAll;
    var c := FindChar(s, p, ':');
    FoundIdIsListed(ids, s[p..c]);
    var id := FindId(ids, s[p..c]).value;
    PartsAreInside(s, c + 1, id, StartOffset(ds, id));
    var ps := ParseParts(s, c + 1, id, StartOffset(ds, id)).value.0;
    NothingInOrder();
    SortAllKeepsOrder(id, [], ps);
    assert ps[0] in multiset(SortAll([], ps).value);
  }

  lemma NothingInOrder()
    ensures InOrder([])
  {
  }

  ghost predicate SoundTable(ids: seq<MtdId>, ds: seq<Device>) {
    && (forall i | 0 <= i < |ds| :: SoundDevice(ids, ds[i]))
    && (forall i, j | 0 <= i < j < |ds| :: !SameDevice(ds[i].id, ds[j].id))
  }

  lemma {:induction false} NotFoundAmong(ds: seq<Device>, id: MtdId)
    requires FindDevice(ds, id) == None
    ensures forall i | 0 <= i < |ds| :: !SameDevice(ds[i].id, id)
  {
    if ds == [] {
    } else {
      NotFoundAmong(ds[1..], id);
    }
  }

  lemma {:induction false} DevicesAreSound(s: string, p: nat, ids: seq<MtdId>, ds: seq<Device>)
    requires p <= |s| && SoundTable(ids, ds) && ParseDevices(s, p, ids, ds).Some?
    ensures SoundTable(ids, ParseDevices(s, p, ids, ds).value)
    ensures CharAt(s, p) != NUL ==> ParseDevices(s, p, ids, ds).value != []
    decreases |s| - p
  {
    hide ParseDevice, SoundDevice, SameDevice;
    if CharAt(s, p) == NUL {
    } else {
      var (d, q) := ParseDevice(s, p, ids, ds).value;
      DeviceIsSound(s, p, ids, ds);
      NotFoundAmong(ds, d.id);
      DevicesAreSound(s, q, ids, ds + [d]);
      MoreDevices(s, q, ids, ds + [d]);
    }
  }

  /** Devices are told apart by their type and their number. */
  lemma SameDeviceMeans(a: MtdId, b: MtdId)
    ensures SameDevice(a, b)
            <==> a.num == b.num && ((a.geometry.Nor? && b.geometry.Nor?) || (a.geometry.Nand? && b.geometry.Nand?)
                                    || (a.geometry.OtherType? && b.geometry.OtherType?))
  {
  }

  /** The prefix, letter by letter: every text that is printed or accepted begins with it. */
  lemma PrefixIsThere(ds: seq<Device>, s: string, ids: seq<MtdId>)
    ensures ds != [] ==> TableText(ds) == "mtdparts=" + DevicesText(ds)
    ensures ParseTable(s, ids).Some? ==> |s| > 9 && s[..9] == "mtdparts="
  {
    hide ParseDevices, DevicesText;
  }

  lemma {:induction false} MoreDevices(s: string, p: nat, ids: seq<MtdId>, ds: seq<Device>)
    requires p <= |s| && ParseDevices(s, p, ids, ds).Some?
    ensures ds <= ParseDevices(s, p, ids, ds).value
    decreases |s| - p
  {
    hide ParseDevice;
    if CharAt(s, p) == NUL {
    } else {
      var (d, q) := ParseDevice(s, p, ids, ds).value;
      MoreDevices(s, q, ids, ds + [d]);
    }
  }

  /**
    Whatever text is accepted, its table is valid: at least one device, none twice, each of them known and
    with partitions, these in order, inside the device and on its borders.
   */
  lemma AcceptedTableIsSound(s: string, ids: seq<MtdId>)
    requires ParseTable(s, ids).Some?
    ensures SoundTable(ids, ParseTable(s, ids).value) && ParseTable(s, ids).value != []
  {
    hide SoundDevice, SameDevice;
    DevicesAreSound(s, |PREFIX|, ids, []);
  }

  /** The devices still to be read are different from those read. */
  lemma FreshDevice(ids: seq<MtdId>, ds: seq<Device>, k: nat)
    requires ValidTable(ids, ds) && k < |ds|
    ensures FindDevice(NormalDevices(ds[..k]), ds[k].id) == None
  {
    FindDeviceNone(NormalDevices(ds[..k]), ds[k].id);
  }

  lemma {:induction false} DevicesAreParsed(s: string, p: nat, ids: seq<MtdId>, ds: seq<Device>, k: nat)
    requires ValidTable(ids, ds) && k < |ds|
    requires At(s, p, DevicesText(ds[k..])) && p + |DevicesText(ds[k..])| == |s|
    ensures p <= |s| && ParseDevices(s, p, ids, NormalDevices(ds[..k])) == Some(NormalDevices(ds))
    decreases |ds| - k
  {
    hide At, ParseDevice, ValidDevice, PartsText, SameDevice;
    var d := ds[k];
    assert ValidDevice(ids, d);
    FreshDevice(ids, ds, k);
    DeviceSplit(s, p, ds, k);
    DeviceIsParsed(s, p, ids, NormalDevices(ds[..k]), d);
    NormalSnoc(ds, k);
    DeviceStart(s, p, ids, d);
    if k + 1 == |ds| {
      assert ds[..k + 1] == ds;
    } else {
      DevicesAreParsed(s, p + |DeviceText(d)| + 1, ids, ds, k + 1);
    }
  }

  lemma NormalSnoc(ds: seq<Device>, k: nat)
    requires k < |ds|
    ensures NormalDevices(ds[..k + 1]) == NormalDevices(ds[..k]) + [Device(ds[k].id, NormalParts(ds[k].parts))]
  {
  }

  lemma DeviceSplit(s: string, p: nat, ds: seq<Device>, k: nat)
    requires k < |ds| && At(s, p, DevicesText(ds[k..])) && p + |DevicesText(ds[k..])| == |s|
    ensures At(s, p, DeviceText(ds[k]))
    ensures var q := p + |DeviceText(ds[k])|;
            if k + 1 == |ds| then q == |s|
            else
              && CharAt(s, q) == ';' && At(s, q + 1, DevicesText(ds[k + 1..]))
              && q + 1 + |DevicesText(ds[k + 1..])| == |s|
  {
    hide At, PartsText;
    var r := ds[k..];
    assert r[0] == ds[k] && r[1..] == ds[k + 1..];
    var more := if |r| == 1 then "" else ";" + DevicesText(r[1..]);
    Regroup(ds[k].id.mtdId + ":", PartsText(ds[k].parts, 0), more);
    assert DevicesText(r) == DeviceText(ds[k]) + more;
    AtSplit(s, p, DeviceText(ds[k]), more);
    var q := p + |DeviceText(ds[k])|;
    if |r| == 1 {
    } else {
      SemicolonAt(s, q, DevicesText(r[1..]));
    }
  }

  lemma Regroup(a: string, b: string, c: string)
    ensures a + (b + c) == (a + b) + c
  {
  }

  lemma SemicolonAt(s: string, q: nat, t: string)
    requires At(s, q, ";" + t)
    ensures CharAt(s, q) == ';' && At(s, q + 1, t)
  {
    AtChar(s, q, ";" + t, 0);
    AtSplit(s, q, ";", t);
  }

  lemma DeviceStart(s: string, p: nat, ids: seq<MtdId>, d: Device)
    requires ValidDevice(ids, d) && At(s, p, DeviceText(d))
    ensures p < |s| && CharAt(s, p) != NUL
  {
    AtChar(s, p, DeviceText(d), 0);
    if d.id.mtdId != "" {
      assert d.id.mtdId[0] in d.id.mtdId;
    }
  }

  /** Printing a table and parsing the text gives the table, with its flags as zero or one. */
  lemma TableRoundTrip(ids: seq<MtdId>, ds: seq<Device>)
    requires ds != [] && ValidTable(ids, ds)
    ensures ParseTable(TableText(ds), ids) == Some(NormalDevices(ds))
  {
    hide ParseDevices, DevicesText, NormalDevices;
    var s := TableText(ds);
    assert ds[0..] == ds && ds[..0] == [];
    assert s[|PREFIX|..] == DevicesText(ds);
    DevicesAreParsed(s, |PREFIX|, ids, ds, 0);
    DeviceSplit(s, |PREFIX|, ds, 0);
    assert ValidDevice(ids, ds[0]);
    DeviceStart(s, |PREFIX|, ids, ds[0]);
    NoDevices();
  }

  lemma NoDevices()
    ensures NormalDevices([]) == []
  {
  }

  // ---------------------------------------------------------------------------------------------
  // The driver's loops
  // ---------------------------------------------------------------------------------------------

  /** `simple_strtoul` with base 0. */
  method StrToUl(s: string, p: nat) returns (result: U32, cp: nat)
    requires p <= |s|
    ensures (result, cp) == Number(s, p)
  {
    var base := 0;
    result, cp := 0, p;
    if CharAt(s, cp) == '0' {
      cp := cp + 1;
      if CharAt(s, cp) == 'x' && DigitValue(CharAt(s, cp + 1)) < 16 {
        base := 16;
        cp := cp + 1;
      }
      if base == 0 {
        base := 8;
      }
    }
    if base == 0 {
      base := 10;
    }
    result, cp := ReadDigits(s, cp, base);
  }

  /** Its loop over the digits. */
  method ReadDigits(s: string, p: nat, base: nat) returns (result: U32, cp: nat)
    requires p <= |s| && base <= 16
    ensures (result, cp) == Digits(s, p, base, 0)
  {
    result, cp := 0, p;
    while cp < |s| && DigitValue(s[cp]) < base
      invariant cp <= |s|
      invariant Digits(s, cp, base, result) == Digits(s, p, base, 0)
    {
      result := (result * base + DigitValue(s[cp])) % TWO32;
      cp := cp + 1;
    }
  }

  method MemsizeParse(s: string, p: nat) returns (ret: U32, retptr: nat)
    requires p <= |s|
    ensures (ret, retptr) == MemSize(s, p)
  {
    ret, retptr := StrToUl(s, p);
    var c := CharAt(s, retptr);
    if Scale(c) != 1 {
      ret := ret * Scale(c) % TWO32;
      retptr := retptr + 1;
    }
  }

  method PartParse(s: string, partdef: nat) returns (r: Option<(Part, nat)>)
    requires partdef <= |s|
    ensures r == ParsePart(s, partdef)
  {
    hide MemSize, ParseName;
    var p := partdef;
    var size: U32, offset: U32;
    if CharAt(s, p) == '-' {
      size := SIZE_REMAINING;
      p := p + 1;
    } else {
      size, p := MemsizeParse(s, p);
      if size < MIN_PART_SIZE {
        return None;
      }
    }
    offset := OFFSET_NOT_SPECIFIED;
    if CharAt(s, p) == '@' {
      offset, p := MemsizeParse(s, p + 1);
    }
    r := NameParse(s, p, size, offset);
  }

  method NameParse(s: string, p0: nat, size: U32, offset: U32) returns (r: Option<(Part, nat)>)
    requires p0 <= |s|
    ensures r == ParseName(s, p0, size, offset)
  {
    hide FindChar;
    var p, name := p0, None;
    if CharAt(s, p) == '(' {
      var start := p + 1;
      p := FindChar(s, start, ')');
      if p == |s| || p == start {
        return None;
      }
      name := Some(s[start..p]);
      p := p + 1;
    }
    var flags: U32 := 0;
    if CharAt(s, p) == 'r' && CharAt(s, p + 1) == 'o' {
      flags := 1;
      p := p + 2;
    }
    if CharAt(s, p) == ',' {
      if size == SIZE_REMAINING {
        return None;
      }
      p := p + 1;
    } else if CharAt(s, p) != ';' && CharAt(s, p) != NUL {
      return None;
    }
    return Some((Part(size, offset, name, flags), p));
  }

  /** The partitions of a device, each with its offset filled in. */
  method PartsParse(s: string, start: nat, id: MtdId, offset0: U32) returns (r: Option<(seq<Part>, nat)>)
    requires start <= |s|
    ensures r == ParseParts(s, start, id, offset0)
  {
    hide ParsePart, Validate;
    var p := start;
    var offset: U32 := offset0;
    ghost var whole := ParseParts(s, start, id, offset);
    var tmpList: seq<Part> := [];
    NothingBefore(whole);
    while CharAt(s, p) != NUL && CharAt(s, p) != ';'
      invariant start <= p <= |s|
      invariant whole == Prepend(tmpList, ParseParts(s, p, id, offset))
      decreases |s| - p
    {
      var part := PartParse(s, p);
      if part.None? {
        return None;
      }
      var x, q := part.value.0, part.value.1;
      if x.offset == OFFSET_NOT_SPECIFIED {
        x := x.(offset := offset);
      } else {
        offset := x.offset;
      }
      var valid := Validate(id, x);
      if valid.None? {
        return None;
      }
      offset := (offset + valid.value.size) % TWO32;
      Regrouped(tmpList, valid.value, ParseParts(s, q, id, offset));
      tmpList := tmpList + [valid.value];
      p := q;
    }
    assert tmpList + [] == tmpList;
    return Some((tmpList, p));
  }

  ghost function Prepend(a: seq<Part>, r: Option<(seq<Part>, nat)>): Option<(seq<Part>, nat)> {
    match r
    case None => None
    case Some((ys, e)) => Some((a + ys, e))
  }

  lemma NothingBefore(r: Option<(seq<Part>, nat)>)
    ensures Prepend([], r) == r
  {
    if r.Some? {
      assert [] + r.value.0 == r.value.0;
    }
  }

  lemma Regrouped(a: seq<Part>, x: Part, r: Option<(seq<Part>, nat)>)
    ensures Prepend(a, Prepend([x], r)) == Prepend(a + [x], r)
  {
    if r.Some? {
      assert a + ([x] + r.value.0) == (a + [x]) + r.value.0;
    }
  }

  method DeviceParse(s: string, mtdDev: nat, ids: seq<MtdId>, devices: seq<Device>) returns (r: Option<(Device, nat)>)
    requires mtdDev <= |s|
    ensures r == ParseDevice(s, mtdDev, ids, devices)
  {
    hide ParseParts, SortAdd;
    var p := FindChar(s, mtdDev, ':');
    if p == |s| {
      return None;
    }
    var id := FindId(ids, s[mtdDev..p]);
    if id.None? {
      return None;
    }
    var list := PartsParse(s, p + 1, id.value, StartOffset(devices, id.value));
    if list.None? || list.value.0 == [] {
      return None;
    }
    var tmpList := list.value.0;
    p := list.value.1;
    var parts: seq<Part> := [];
    var i := 0;
    assert tmpList[0..] == tmpList;
    while i < |tmpList|
      invariant i <= |tmpList|
      invariant SortAll(parts, tmpList[i..]) == SortAll([], tmpList)
    {
      var added := SortAdd(parts, tmpList[i]);
      assert tmpList[i..][1..] == tmpList[i + 1..];
      if added.None? {
        return None;
      }
      parts := added.value;
      i := i + 1;
    }
    return Some((Device(id.value, parts), if CharAt(s, p) == ';' then p + 1 else p));
  }

  /** `parse_mtdparts`: None on any error, when all devices are deleted again. */
  method ParseMtdparts(s: string, ids: seq<MtdId>) returns (r: Option<seq<Device>>)
    ensures r == ParseTable(s, ids)
  {
    hide ParseDevice;
    if !(PREFIX <= s) {
      return None;
    }
    var p := |PREFIX|;
    var devices: seq<Device> := [];
    var err := true;
    while CharAt(s, p) != NUL
      invariant |PREFIX| <= p <= |s|
      invariant ParseDevices(s, p, ids, devices) == ParseDevices(s, |PREFIX|, ids, [])
      invariant err <==> p == |PREFIX|
      invariant !err ==> CharAt(s, |PREFIX|) != NUL
      decreases |s| - p
    {
      var d := DeviceParse(s, p, ids, devices);
      if d.None? {
        return None;
      }
      if FindDevice(devices, d.value.0.id).Some? {
        return None;
      }
      devices := devices + [d.value.0];
      p := d.value.1;
      err := false;
    }
    return if err then None else Some(devices);
  }

  /** Append a piece of text if it fits into what is left of the buffer. */
  method Emit(buf: string, maxlen: nat, piece: string) returns (ok: bool, buf': string, maxlen': nat)
    ensures ok <==> |piece| <= maxlen
    ensures ok ==> buf' == buf + piece && maxlen' == maxlen - |piece|
  {
    if |piece| > maxlen {
      return false, buf, maxlen;
    }
    return true, buf + piece, maxlen - |piece|;
  }

  /** One partition, piece by piece. */
  method EmitPart(x: Part, prev: Option<Part>, buf0: string, maxlen0: nat) returns (ok: bool, buf: string, maxlen: nat)
    ensures var t := PartText(x, if prev.None? then 0 else End(prev.value));
            && (ok <==> |t| <= maxlen0)
            && (ok ==> buf == buf0 + t && maxlen == maxlen0 - |t|)
  {
    hide Format, End;
    ghost var at := if x.offset == (if prev.None? then 0 else End(prev.value)) then "" else "@" + Format(x.offset);
    ghost var name, ro := NameText(x.name), if x.flags != 0 then "ro" else "";
    FourPieces(buf0, Format(x.size), at, name, ro);
    EndOf(prev);
    ok, buf, maxlen := Emit(buf0, maxlen0, Format(x.size));
    if !ok {
      return;
    }
    if (prev.None? && x.offset != 0) || (prev.Some? && (prev.value.offset + prev.value.size) % TWO32 != x.offset) {
      ok, buf, maxlen := Emit(buf, maxlen, "@" + Format(x.offset));
      if !ok {
        return;
      }
    }
    assert buf == buf0 + Format(x.size) + at;
    if x.name.Some? {
      ok, buf, maxlen := Emit(buf, maxlen, "(" + x.name.value + ")");
      if !ok {
        return;
      }
    }
    assert buf == buf0 + Format(x.size) + at + name;
    if x.flags != 0 {
      ok, buf, maxlen := Emit(buf, maxlen, "ro");
      if !ok {
        return;
      }
    }
    assert buf == buf0 + Format(x.size) + at + name + ro;
    ok := true;
  }

  lemma EndOf(prev: Option<Part>)
    ensures prev.Some? ==> End(prev.value) == (prev.value.offset + prev.value.size) % TWO32
  {
  }

  lemma FourPieces(a: string, b: string, c: string, d: string, e: string)
    ensures a + b + c + d + e == a + (b + (c + (d + e)))
    ensures |b + (c + (d + e))| == |b| + |c| + |d| + |e|
  {
  }

  /** The partitions of one device. */
  method GenerateParts(ps: seq<Part>, buf0: string, maxlen0: nat) returns (ok: bool, buf: string, maxlen: nat)
    ensures ok <==> |PartsText(ps, 0)| <= maxlen0
    ensures ok ==> buf == buf0 + PartsText(ps, 0) && maxlen == maxlen0 - |PartsText(ps, 0)|
  {
    hide PartText, End;
    buf, maxlen := buf0, maxlen0;
    var prev: Option<Part> := None;
    var i := 0;
    ghost var whole := PartsText(ps, 0);
    assert ps[0..] == ps;
    while i < |ps|
      invariant i <= |ps|
      invariant prev == if i == 0 then None else Some(ps[i - 1])
      invariant var rest := PartsText(ps[i..], if prev.None? then 0 else End(prev.value));
                maxlen0 - |whole| == maxlen - |rest| && buf0 + whole == buf + rest
    {
      var x := ps[i];
      ghost var text, more := PartText(x, if prev.None? then 0 else End(prev.value)), PartsText(ps[i + 1..], End(x));
      assert ps[i..][0] == x && ps[i..][1..] == ps[i + 1..];
      Joined(buf, text, if i + 1 == |ps| then "" else "," + more);
      ok, buf, maxlen := EmitPart(x, prev, buf, maxlen);
      if !ok {
        return;
      }
      if |ps| > i + 1 {
        Joined(buf, ",", more);
        ok, buf, maxlen := Emit(buf, maxlen, ",");
        if !ok {
          return;
        }
      }
      prev := Some(x);
      i := i + 1;
    }
    ok := true;
  }

  lemma Joined(a: string, b: string, c: string)
    ensures a + (b + c) == (a + b) + c
    ensures a + "" == a
  {
  }

  /**
    Print all devices into a buffer of `buflen` characters; fails when the text behind the fixed
    prefix does not fit. The limit of a buffer of no characters wraps around.
   */
  method GenerateMtdparts(devices: seq<Device>, buflen: U32) returns (rc: int, buf: string)
    ensures rc == if |DevicesText(devices)| <= (buflen - 1) % TWO32 then 0 else 1
    ensures rc == 0 ==> buf == TableText(devices)
  {
    hide PartsText;
    var maxlen: nat := (buflen - 1) % TWO32;
    ghost var limit := maxlen;
    if devices == [] {
      return 0, "";
    }
    buf := PREFIX;
    var i := 0;
    ghost var whole := DevicesText(devices);
    assert devices[0..] == devices;
    while i < |devices|
      invariant i <= |devices|
      invariant var rest := DevicesText(devices[i..]);
                limit - |whole| == maxlen - |rest| && PREFIX + whole == buf + rest
    {
      var d := devices[i];
      assert devices[i..][0] == d && devices[i..][1..] == devices[i + 1..];
      ghost var more := if i + 1 == |devices| then "" else ";" + DevicesText(devices[i + 1..]);
      Joined(buf, d.id.mtdId + ":", PartsText(d.parts, 0) + more);
      var ok;
      ok, buf, maxlen := Emit(buf, maxlen, d.id.mtdId + ":");
      if !ok {
        return 1, buf;
      }
      Joined(buf, PartsText(d.parts, 0), more);
      ok, buf, maxlen := GenerateParts(d.parts, buf, maxlen);
      if !ok {
        return 1, buf;
      }
      if i + 1 < |devices| {
        Joined(buf, ";", DevicesText(devices[i + 1..]));
        ok, buf, maxlen := Emit(buf, maxlen, ";");
        if !ok {
          return 1, buf;
        }
      }
      i := i + 1;
    }
    rc := 0;
  }

}
