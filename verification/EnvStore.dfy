/**
  The environment: name/value pairs in one flat array of characters.

  The array holds NUL-terminated `name=value` strings one after the other, and a second NUL after
  the last. `setenv` edits it in place: it shifts the entries behind a deleted one to the front and
  appends the new definition at the end.
 */
module EnvStore {

  import opened Basics

  const NUL: char := '\0'

  // ---------------------------------------------------------------------------------------------
  // Entries
  // ---------------------------------------------------------------------------------------------

  /** The part of a string before its first '='; all of it if it has none. */
  function Key(s: string): (k: string)
    ensures k <= s && '=' !in k
    ensures k != s ==> s[|k|] == '='
  {
    if s == "" || s[0] == '=' then "" else [s[0]] + Key(s[1..])
  }

  predicate IsEntry(e: string) {
    NUL !in e && '=' in e
  }

  lemma {:induction false} KeyEndsAtEquals(s: string)
    ensures '=' in s <==> Key(s) != s
  {
    if s == "" || s[0] == '=' {
    } else {
      KeyEndsAtEquals(s[1..]);
      assert s == [s[0]] + s[1..];
    }
  }

  function Value(e: string): string
    requires '=' in e
  {
    KeyEndsAtEquals(e);
    e[|Key(e)| + 1..]
  }

  predicate AllEntries(es: seq<string>) {
    forall i {:trigger es[i]} | 0 <= i < |es| :: IsEntry(es[i])
  }

  /** The entries of an environment: well formed, with distinct keys. */
  ghost predicate Distinct(es: seq<string>) {
    && AllEntries(es)
    && (forall i, j | 0 <= i < j < |es| :: Key(es[i]) != Key(es[j]))
  }

  /** Index of the first entry with the key of `name`; `|es|` if there is none. */
  function Find(es: seq<string>, name: string): (k: nat)
    ensures k <= |es|
    ensures k < |es| ==> Key(es[k]) == Key(name)
    ensures forall i | 0 <= i < k :: Key(es[i]) != Key(name)
  {
    if es == [] || Key(es[0]) == Key(name) then 0 else 1 + Find(es[1..], name)
  }

  function Get(es: seq<string>, name: string): Option<string>
    requires AllEntries(es)
  {
    var k := Find(es, name);
    if k < |es| then Some(Value(es[k])) else None
  }

  function Without(es: seq<string>, k: nat): seq<string>
    requires k <= |es|
  {
    if k < |es| then es[..k] + es[k + 1..] else es
  }

  /** The values of a definition, separated by single spaces. */
  function Words(args: seq<string>): string
    requires args != []
  {
    if |args| == 1 then args[0] else Words(args[..|args| - 1]) + " " + args[|args| - 1]
  }

  function Definition(name: string, args: seq<string>): string
    requires args != []
  {
    name + "=" + Words(args)
  }

  /** Build options: no overwriting of "serial#" and "ethaddr", except over a default "ethaddr". */
  datatype Policy = Policy(overwrite: bool, ethDefault: Option<string>)

  predicate Protected(p: Policy, name: string, old_: string) {
    && !p.overwrite
    && (name == "serial#" || (name == "ethaddr" && (p.ethDefault.None? || old_ != p.ethDefault.value)))
  }

  predicate Console(name: string) {
    name == "stdin" || name == "stdout" || name == "stderr"
  }

  /** What the rest of the system says to a new console device and to a new baud rate. */
  datatype Peripherals = Peripherals(consoleOk: bool, baudOk: bool)

  predicate Refused(p: Policy, io: Peripherals, name: string, args: seq<string>, old_: string) {
    || Protected(p, name, old_)
    || (Console(name) && (args == [] || !io.consoleOk))
    || (name == "baudrate" && !io.baudOk)
  }

  // ---------------------------------------------------------------------------------------------
  // The flat form
  // ---------------------------------------------------------------------------------------------

  function Join(es: seq<string>): string {
    if es == [] then "" else Join(es[..|es| - 1]) + es[|es| - 1] + [NUL]
  }

  function Flat(es: seq<string>): string {
    if es == [] then [NUL, NUL] else Join(es) + [NUL]
  }

  /** The effect of a `setenv` command on the entries, in an array of `size` characters. */
  function SetEntries(es: seq<string>, size: nat, p: Policy, io: Peripherals, name: string, args: seq<string>)
    : (r: (int, seq<string>))
    requires AllEntries(es)
  {
    var k := Find(es, name);
    if k < |es| && Refused(p, io, name, args, Value(es[k])) then (1, es)
    else
      var rest := Without(es, k);
      if args == [] then (0, rest)
      else if |Join(rest)| + |Definition(name, args)| + 2 > size then (1, rest)
      else (0, rest + [Definition(name, args)])
  }

  lemma Associative(a: string, b: string, c: string, d: string)
    ensures (a + b) + c + d == a + (b + c + d)
  {
  }

  lemma JoinSnoc(es: seq<string>, e: string)
    ensures Join(es + [e]) == Join(es) + e + [NUL]
  {
    assert (es + [e])[..|es|] == es;
  }

  lemma {:induction false} JoinConcat(s: seq<string>, t: seq<string>)
    ensures Join(s + t) == Join(s) + Join(t)
  {
    hide Join;
    if t == [] {
      assert s + t == s && Join([]) == "" by {
        JoinNothing();
      }
    } else {
      var n := |t| - 1;
      JoinConcat(s, t[..n]);
      assert s + t == s + t[..n] + [t[n]] && t == t[..n] + [t[n]];
      JoinSnoc(s + t[..n], t[n]);
      JoinSnoc(t[..n], t[n]);
      Associative(Join(s), Join(t[..n]), t[n], [NUL]);
    }
  }

  lemma JoinNothing()
    ensures Join([]) == ""
  {
  }

  /** Where entry `k` starts. */
  function Offset(es: seq<string>, k: nat): nat
    requires k <= |es|
  {
    |Join(es[..k])|
  }

  lemma JoinOne(e: string)
    ensures Join([e]) == e + [NUL]
  {
    assert [e][..0] == [];
    assert Join([e][..0]) == "";
  }

  lemma JoinAt(es: seq<string>, k: nat)
    requires k < |es|
    ensures Join(es) == Join(es[..k]) + (es[k] + [NUL]) + Join(es[k + 1..])
    ensures Offset(es, k + 1) == Offset(es, k) + |es[k]| + 1
  {
    assert es == es[..k] + [es[k]] + es[k + 1..];
    assert es[..k + 1] == es[..k] + [es[k]];
    JoinConcat(es[..k] + [es[k]], es[k + 1..]);
    JoinConcat(es[..k], [es[k]]);
    JoinOne(es[k]);
  }

  /** No two NULs stand together before the end. */
  lemma {:induction false} NoDoubleNul(es: seq<string>, i: nat)
    requires AllEntries(es)
    requires i < |Join(es)|
    ensures Flat(es)[i] == NUL && Flat(es)[i + 1] == NUL <==> i == |Join(es)| - 1
  {
    var n := |es| - 1;
    var j := Join(es[..n]);
    var e := es[n];
    assert Join(es) == j + e + [NUL];
    if i + 1 < |j| {
      NoDoubleNul(es[..n], i);
    } else if i + 1 == |j| {
      assert Flat(es)[i + 1] == e[0];
    } else if i < |j| + |e| {
      assert Flat(es)[i] == e[i - |j|];
    }
  }

  // ---------------------------------------------------------------------------------------------
  // What a command does to the map from names to values
  // ---------------------------------------------------------------------------------------------

  lemma FindUnique(es: seq<string>, name: string, k: nat)
    requires Distinct(es) && k < |es| && Key(es[k]) == Key(name)
    ensures Find(es, name) == k
  {
  }

  lemma DefinitionKey(name: string, args: seq<string>)
    requires args != []
    ensures Key(Definition(name, args)) == Key(name)
    ensures '=' in Definition(name, args)
  {
    KeyOfConcat(name, Words(args));
  }

  lemma {:induction false} KeyOfConcat(name: string, v: string)
    ensures Key(name + "=" + v) == Key(name)
    ensures '=' in name + "=" + v
  {
    var t := name + "=" + v;
    assert t[|name|] == '=';
    if name == "" {
      assert t[0] == '=';
    } else {
      assert t[1..] == name[1..] + "=" + v;
      if name[0] != '=' {
        KeyOfConcat(name[1..], v);
      }
    }
  }

  lemma WordsNoNul(args: seq<string>)
    requires args != [] && forall i | 0 <= i < |args| :: NUL !in args[i]
    ensures NUL !in Words(args)
  {
  }

  /** Where an entry of the shortened list comes from. */
  function Origin(k: nat, i: nat): nat {
    if i < k then i else i + 1
  }

  lemma WithoutAt(es: seq<string>, k: nat)
    requires k < |es|
    ensures |Without(es, k)| == |es| - 1
    ensures forall i {:trigger Without(es, k)[i]} | 0 <= i < |es| - 1 :: Without(es, k)[i] == es[Origin(k, i)]
  {
  }

  lemma WithoutDistinct(es: seq<string>, name: string)
    requires Distinct(es)
    ensures Distinct(Without(es, Find(es, name)))
    ensures forall e | e in Without(es, Find(es, name)) :: Key(e) != Key(name)
  {
    hide Key, IsEntry, Without, Origin;
    var k := Find(es, name);
    var r := Without(es, k);
    if k < |es| {
      WithoutAt(es, k);
      forall i | 0 <= i < |r|
        ensures IsEntry(r[i]) && Key(r[i]) != Key(name)
      {
        Origins(k, i, i);
        assert r[i] == es[Origin(k, i)];
      }
      forall i, j | 0 <= i < j < |r|
        ensures Key(r[i]) != Key(r[j])
      {
        Origins(k, i, j);
      }
    } else {
      WholeList(es);
    }
  }

  lemma WholeList(es: seq<string>)
    ensures Without(es, |es|) == es
  {
  }

  lemma Origins(k: nat, i: nat, j: nat)
    ensures i < j ==> Origin(k, i) < Origin(k, j)
    ensures Origin(k, i) != k && Origin(k, i) <= i + 1 && Origin(k, j) <= j + 1
  {
  }

  /** Removing one key leaves every other key's value. */
  lemma WithoutKeeps(es: seq<string>, name: string, other: string)
    requires Distinct(es) && Key(other) != Key(name)
    ensures Distinct(Without(es, Find(es, name)))
    ensures Get(Without(es, Find(es, name)), other) == Get(es, other)
  {
    hide Key, IsEntry, Value, Without, Origin;
    WithoutDistinct(es, name);
    var k, j := Find(es, name), Find(es, other);
    if k == |es| {
      WholeList(es);
    } else if j < |es| {
      StillFound(es, k, j, other);
    } else {
      StillNotFound(es, k, other);
    }
  }

  lemma StillFound(es: seq<string>, k: nat, j: nat, other: string)
    requires k < |es| && j < |es| && k != j && Key(es[j]) == Key(other) && Distinct(Without(es, k))
    ensures Find(Without(es, k), other) < |Without(es, k)|
    ensures Without(es, k)[Find(Without(es, k), other)] == es[j]
  {
    hide Key, IsEntry, Without;
    WithoutAt(es, k);
    var r, j' := Without(es, k), if j < k then j else j - 1;
    assert r[j'] == es[j];
    FindUnique(r, other, j');
  }

  lemma StillNotFound(es: seq<string>, k: nat, other: string)
    requires k < |es| && Find(es, other) == |es|
    ensures Find(Without(es, k), other) == |Without(es, k)|
  {
    hide Key, Without;
    WithoutAt(es, k);
    var r := Without(es, k);
    forall i | 0 <= i < |r|
      ensures Key(r[i]) != Key(other)
    {
      assert r[i] == es[Origin(k, i)];
    }
  }

  lemma WithoutGone(es: seq<string>, name: string)
    requires Distinct(es)
    ensures AllEntries(Without(es, Find(es, name))) && Get(Without(es, Find(es, name)), name) == None
  {
    hide Key, IsEntry, Value;
    WithoutDistinct(es, name);
  }

  lemma AppendedDistinct(es: seq<string>, e: string)
    requires Distinct(es) && IsEntry(e)
    requires forall f | f in es :: Key(f) != Key(e)
    ensures Distinct(es + [e])
  {
    hide Key, IsEntry;
  }

  lemma AppendedGet(es: seq<string>, e: string, name: string)
    requires Distinct(es) && IsEntry(e) && Distinct(es + [e])
    ensures '=' in e
    ensures Get(es + [e], name) == if Key(name) == Key(e) then Some(Value(e)) else Get(es, name)
  {
    var j := Find(es, name);
    if Key(name) == Key(e) {
      FindUnique(es + [e], name, |es|);
    } else if j < |es| {
      assert (es + [e])[j] == es[j];
      FindUnique(es + [e], name, j);
    }
  }

  /** An argument vector as the shell passes it: C strings. */
  ghost predicate CStrings(args: seq<string>) {
    forall i | 0 <= i < |args| :: NUL !in args[i]
  }

  lemma DefinitionIsEntry(name: string, args: seq<string>)
    requires args != [] && NUL !in name && CStrings(args)
    ensures IsEntry(Definition(name, args))
  {
    WordsNoNul(args);
    DefinitionKey(name, args);
  }

  /** Every command keeps the entries well formed and their keys distinct. */
  lemma SetKeepsDistinct(es: seq<string>, size: nat, p: Policy, io: Peripherals, name: string, args: seq<string>)
    requires Distinct(es) && NUL !in name && CStrings(args)
    ensures Distinct(SetEntries(es, size, p, io, name, args).1)
  {
    WithoutDistinct(es, name);
    if args != [] {
      DefinitionKey(name, args);
      DefinitionIsEntry(name, args);
      AppendedDistinct(Without(es, Find(es, name)), Definition(name, args));
    }
  }

  /** What the value of a definition is, with a name that itself contains a '='. */
  lemma DefinitionValue(name: string, args: seq<string>)
    requires args != []
    ensures '=' in Definition(name, args)
    ensures Value(Definition(name, args)) == (if '=' in name then Value(name) + "=" else "") + Words(args)
  {
    DefinitionKey(name, args);
    KeyEndsAtEquals(name);
    var d := Definition(name, args);
    assert d == name + ("=" + Words(args));
  }

  /**
    The effect of a command on the map: one key is set or removed, or nothing happens. All other
    entries keep their values and their order.
   */
  lemma SetRefinesMap(es: seq<string>, size: nat, p: Policy, io: Peripherals, name: string, args: seq<string>)
    requires Distinct(es) && NUL !in name && CStrings(args)
    ensures var (rc, es') := SetEntries(es, size, p, io, name, args);
            && Distinct(es')
            && Without(es', Find(es', name)) == Without(es, Find(es, name))
            && (rc == 0 && args == [] ==> Get(es', name) == None)
            && (rc == 0 && args != [] ==> Get(es', name) == Some(Value(Definition(name, args))))
            && (rc == 1 ==> es' == es || (es' == Without(es, Find(es, name)) && Get(es', name) == None))
  {
    hide Words, Refused, Key, Value, Definition, IsEntry, Get, Without, Find, Distinct, CStrings;
    SetKeepsDistinct(es, size, p, io, name, args);
    var k := Find(es, name);
    var rest := Without(es, k);
    WithoutDistinct(es, name);
    WithoutGone(es, name);
    NotFound(rest, name);
    WholeList(rest);
    if args != [] {
      var d := Definition(name, args);
      DefinitionKey(name, args);
      DefinitionIsEntry(name, args);
      AppendedDistinct(rest, d);
      AppendedGet(rest, d, name);
      FindUnique(rest + [d], name, |rest|);
      WithoutLast(rest, d);
    }
  }

  lemma WithoutLast(es: seq<string>, d: string)
    ensures Without(es + [d], |es|) == es
  {
  }

  lemma NotFound(es: seq<string>, name: string)
    requires forall e | e in es :: Key(e) != Key(name)
    ensures Find(es, name) == |es|
  {
  }

  /** No command changes the value of another name. */
  lemma SetKeepsOthers(es: seq<string>, size: nat, p: Policy, io: Peripherals, name: string, args: seq<string>,
                       other: string)
    requires Distinct(es) && NUL !in name && CStrings(args) && Key(other) != Key(name)
    ensures AllEntries(SetEntries(es, size, p, io, name, args).1)
    ensures Get(SetEntries(es, size, p, io, name, args).1, other) == Get(es, other)
  {
    hide Words, Refused, Key, Value;
    SetKeepsDistinct(es, size, p, io, name, args);
    var rest := Without(es, Find(es, name));
    WithoutDistinct(es, name);
    WithoutKeeps(es, name, other);
    if args != [] {
      DefinitionKey(name, args);
      DefinitionIsEntry(name, args);
      AppendedDistinct(rest, Definition(name, args));
      AppendedGet(rest, Definition(name, args), other);
    }
  }

  /** The value just set is read back exactly for names without a '='. */
  lemma SetThenGet(es: seq<string>, size: nat, p: Policy, io: Peripherals, name: string, args: seq<string>)
    requires Distinct(es) && NUL !in name && CStrings(args) && args != []
    ensures var (rc, es') := SetEntries(es, size, p, io, name, args);
            AllEntries(es') && (rc == 0 ==> (Get(es', name) == Some(Words(args)) <==> '=' !in name))
  {
    hide Words, Refused, Key;
    SetRefinesMap(es, size, p, io, name, args);
    DefinitionValue(name, args);
  }

  // ---------------------------------------------------------------------------------------------
  // Write-once names
  // ---------------------------------------------------------------------------------------------

  datatype Command = Command(name: string, args: seq<string>, io: Peripherals)

  ghost predicate Runnable(cs: seq<Command>) {
    forall i | 0 <= i < |cs| :: NUL !in cs[i].name && CStrings(cs[i].args)
  }

  function RunAll(es: seq<string>, size: nat, p: Policy, cs: seq<Command>): (r: seq<string>)
    requires Distinct(es) && Runnable(cs)
    ensures Distinct(r)
    decreases |cs|
  {
    if cs == [] then es
    else
      SetKeepsDistinct(es, size, p, cs[0].io, cs[0].name, cs[0].args);
      RunAll(SetEntries(es, size, p, cs[0].io, cs[0].name, cs[0].args).1, size, p, cs[1..])
  }

  lemma KeyOfPlain(name: string)
    requires '=' !in name
    ensures Key(name) == name
  {
    KeyEndsAtEquals(name);
  }

  lemma ProtectedSet(es: seq<string>, size: nat, p: Policy, io: Peripherals, name: string, args: seq<string>)
    requires Distinct(es) && Get(es, name).Some? && Protected(p, name, Get(es, name).value)
    ensures SetEntries(es, size, p, io, name, args) == (1, es)
  {
  }

  /** A command name that means the key `name` only by being that name; so every name without a '='. */
  predicate Plain(c: string, name: string) {
    Key(c) == name ==> c == name
  }

  /** A command that cannot take the value `v` of a write-once name away: at most it defines the same again. */
  predicate Spares(c: Command, name: string, v: string) {
    Plain(c.name, name) || (c.args != [] && Definition(c.name, c.args) == name + "=" + v)
  }

  lemma EntryParts(e: string)
    requires '=' in e
    ensures e == Key(e) + "=" + Value(e)
  {
    KeyEndsAtEquals(e);
  }

  /** Defining an entry of a full environment again needs no more room. */
  lemma RedefinitionFits(es: seq<string>, k: nat)
    requires k < |es|
    ensures |Join(Without(es, k))| + |es[k]| + 2 == |Flat(es)|
  {
    JoinAt(es, k);
    JoinConcat(es[..k], es[k + 1..]);
  }

  lemma SetFits(es: seq<string>, size: nat, p: Policy, io: Peripherals, name: string, args: seq<string>)
    requires AllEntries(es) && 2 <= size && |Flat(es)| <= size
    ensures |Flat(SetEntries(es, size, p, io, name, args).1)| <= size
  {
    hide Words, Definition, Refused, Value;
    var k := Find(es, name);
    if k < |es| {
      RedefinitionFits(es, k);
    } else {
      WholeList(es);
    }
    if args != [] {
      FlatSnoc(Without(es, k), Definition(name, args));
    }
  }

  /** What a command does that means a write-once name by way of a '='. */
  lemma OtherNameSets(es: seq<string>, size: nat, p: Policy, io: Peripherals, name: string, c: string,
                      args: seq<string>)
    requires Distinct(es) && Get(es, name).Some? && Protected(p, name, Get(es, name).value) && |Flat(es)| <= size
    requires NUL !in c && CStrings(args) && !Plain(c, name)
    ensures AllEntries(SetEntries(es, size, p, io, c, args).1)
    ensures Get(SetEntries(es, size, p, io, c, args).1, name) == Get(es, name)
            <==> args != [] && Definition(c, args) == name + "=" + Get(es, name).value
  {
    hide Key, Without, Words, Definition, Value;
    KeyOfPlain(name);
    NotReserved(c, name);
    SameKey(es, c, name);
    SetRefinesMap(es, size, p, io, c, args);
    var (rc, es') := SetEntries(es, size, p, io, c, args);
    SameKey(es', c, name);
    var e := es[Find(es, name)];
    EntryParts(e);
    RedefinitionFits(es, Find(es, name));
    if args != [] {
      DefinitionKey(c, args);
      EntryParts(Definition(c, args));
      assert rc == 0 ==> Get(es', name) == Some(Value(Definition(c, args)));
    }
  }

  /**
    One command of any kind on a write-once name with a value: the value stays exactly if the name
    used does not mean it by way of a '=', or the command sets it to what it is.
   */
  lemma StepSparesWriteOnce(es: seq<string>, size: nat, p: Policy, c: Command, name: string)
    requires Distinct(es) && Get(es, name).Some? && Protected(p, name, Get(es, name).value) && |Flat(es)| <= size
    requires NUL !in c.name && CStrings(c.args)
    ensures AllEntries(SetEntries(es, size, p, c.io, c.name, c.args).1)
    ensures Get(SetEntries(es, size, p, c.io, c.name, c.args).1, name) == Get(es, name)
            <==> Spares(c, name, Get(es, name).value)
  {
    hide Key, Value, Without, Definition, Words;
    SetKeepsDistinct(es, size, p, c.io, c.name, c.args);
    KeyOfPlain(name);
    if Key(c.name) != Key(name) {
      SetKeepsOthers(es, size, p, c.io, c.name, c.args, name);
    } else if c.name == name {
      ProtectedSet(es, size, p, c.io, name, c.args);
    } else {
      OtherNameSets(es, size, p, c.io, name, c.name, c.args);
    }
  }

  /** The value of `name` is `v` after every number of the commands. */
  ghost predicate Lasts(es: seq<string>, size: nat, p: Policy, cs: seq<Command>, name: string, v: string)
    requires Distinct(es) && Runnable(cs)
  {
    forall k | 0 <= k <= |cs| :: Get(RunAll(es, size, p, cs[..k]), name) == Some(v)
  }

  lemma LastsNothing(es: seq<string>, size: nat, p: Policy, cs: seq<Command>, name: string, v: string)
    requires Distinct(es) && cs == [] && Get(es, name) == Some(v)
    ensures Lasts(es, size, p, cs, name, v)
  {
    assert cs[..0] == [];
  }

  /** Lasting over a run is lasting over its first command and over the rest from there. */
  lemma LastsStep(es: seq<string>, size: nat, p: Policy, cs: seq<Command>, name: string, v: string)
    requires Distinct(es) && Runnable(cs) && cs != [] && Get(es, name) == Some(v)
    ensures var es' := SetEntries(es, size, p, cs[0].io, cs[0].name, cs[0].args).1;
            && Distinct(es')
            && (Lasts(es, size, p, cs, name, v)
                <==> Get(es', name) == Some(v) && Lasts(es', size, p, cs[1..], name, v))
  {
    hide Get, SetEntries, Key, IsEntry;
    var c := cs[0];
    SetKeepsDistinct(es, size, p, c.io, c.name, c.args);
    var es' := SetEntries(es, size, p, c.io, c.name, c.args).1;
    forall k | 0 <= k < |cs|
      ensures RunAll(es, size, p, cs[..k + 1]) == RunAll(es', size, p, cs[1..][..k])
    {
      assert cs[..k + 1][0] == c && cs[..k + 1][1..] == cs[1..][..k];
    }
    assert RunAll(es, size, p, cs[..0]) == es;
    assert cs[1..][..0] == [];
    assert RunAll(es', size, p, cs[1..][..0]) == es';
    if Lasts(es, size, p, cs, name, v) {
      forall k | 0 <= k <= |cs[1..]|
        ensures Get(RunAll(es', size, p, cs[1..][..k]), name) == Some(v)
      {
        assert Get(RunAll(es, size, p, cs[..k + 1]), name) == Some(v);
      }
    }
    if Get(es', name) == Some(v) && Lasts(es', size, p, cs[1..], name, v) {
      forall k | 0 <= k <= |cs|
        ensures Get(RunAll(es, size, p, cs[..k]), name) == Some(v)
      {
        if k > 0 {
          assert Get(RunAll(es', size, p, cs[1..][..k - 1]), name) == Some(v);
        }
      }
    }
  }

  /** Over every run of commands: a write-once name keeps its value throughout exactly if each command spares it. */
  lemma {:induction false} WriteOnceStays(es: seq<string>, size: nat, p: Policy, cs: seq<Command>, name: string,
                                          v: string)
    requires Distinct(es) && Protected(p, name, v) && Get(es, name) == Some(v) && 2 <= size && |Flat(es)| <= size
    requires Runnable(cs)
    ensures Lasts(es, size, p, cs, name, v) <==> forall i | 0 <= i < |cs| :: Spares(cs[i], name, v)
    decreases |cs|
  {
    hide Key, Value, Words, Definition, Without, Get, Spares, Protected, Lasts, RunAll, IsEntry;
    if cs == [] {
      LastsNothing(es, size, p, cs, name, v);
    } else {
      var c := cs[0];
      var es' := SetEntries(es, size, p, c.io, c.name, c.args).1;
      SetKeepsDistinct(es, size, p, c.io, c.name, c.args);
      SetFits(es, size, p, c.io, c.name, c.args);
      StepSparesWriteOnce(es, size, p, c, name);
      LastsStep(es, size, p, cs, name, v);
      if Spares(c, name, v) {
        WriteOnceStays(es', size, p, cs[1..], name, v);
        assert forall i | 1 <= i < |cs| :: cs[i] == cs[1..][i - 1];
      }
    }
  }

  lemma NotReserved(c: string, name: string)
    requires Key(c) == name && c != name && '=' !in name && (name == "serial#" || name == "ethaddr")
    ensures c !in ["serial#", "ethaddr", "stdin", "stdout", "stderr", "baudrate"]
  {
    if c in ["serial#", "ethaddr", "stdin", "stdout", "stderr", "baudrate"] {
      KeyOfPlain(c);
    }
  }

  lemma SameKey(es: seq<string>, c: string, name: string)
    requires Distinct(es) && Key(c) == Key(name)
    ensures Find(es, c) == Find(es, name)
  {
    hide Key;
    var k := Find(es, name);
    if k < |es| {
      FindUnique(es, c, k);
    } else if Find(es, c) < |es| {
      FindUnique(es, name, Find(es, c));
    }
  }

  /** With the option for it, a default "ethaddr" can be set; what it is set to is then write-once. */
  lemma DefaultIsReplacedOnce(es: seq<string>, size: nat, p: Policy, io: Peripherals, args: seq<string>)
    requires Distinct(es) && CStrings(args) && args != [] && !p.overwrite
    requires p.ethDefault.Some? && Get(es, "ethaddr") == p.ethDefault
    requires |Join(Without(es, Find(es, "ethaddr")))| + |Definition("ethaddr", args)| + 2 <= size
    ensures var (rc, es') := SetEntries(es, size, p, io, "ethaddr", args);
            && rc == 0 && AllEntries(es') && Get(es', "ethaddr") == Some(Words(args))
            && (Protected(p, "ethaddr", Words(args)) <==> Get(es', "ethaddr") != p.ethDefault)
  {
    hide Words, Definition, Key, Value, Without, Join;
    SetThenGet(es, size, p, io, "ethaddr", args);
  }

  /** The names that can be set only once: "serial#", and "ethaddr" with no default or with another value. */
  lemma OnceIsRefused(es: seq<string>, size: nat, io: Peripherals, ethDefault: Option<string>, name: string,
                      args: seq<string>)
    requires Distinct(es) && Get(es, name).Some?
    requires name == "serial#" || (name == "ethaddr" && ethDefault != Get(es, name))
    ensures SetEntries(es, size, Policy(false, ethDefault), io, name, args) == (1, es)
  {
  }

  /** The console and baud rate settings: an existing one can be changed to what works, and only that. */
  lemma SettingsAreChecked(es: seq<string>, size: nat, p: Policy, io: Peripherals, name: string, args: seq<string>)
    requires Distinct(es) && Get(es, name).Some?
    requires (name in ["stdin", "stdout", "stderr"] && (args == [] || !io.consoleOk))
             || (name == "baudrate" && !io.baudOk)
    ensures SetEntries(es, size, p, io, name, args) == (1, es)
  {
  }

  /** What stands in the way of a command: a write-once value, a console or baud rate that does not work. */
  predicate Hindered(es: seq<string>, p: Policy, io: Peripherals, name: string, args: seq<string>)
    requires AllEntries(es)
  {
    && Get(es, name).Some?
    && ((!p.overwrite && (name == "serial#" || (name == "ethaddr" && p.ethDefault != Get(es, name))))
        || (name in ["stdin", "stdout", "stderr"] && (args == [] || !io.consoleOk))
        || (name == "baudrate" && !io.baudOk))
  }

  /**
    Every other command does what it says: a delete leaves no entry of the key, and a definition is
    put behind the others exactly if the array then still holds the whole environment; otherwise the
    old one is lost.
   */
  lemma OthersAreSet(es: seq<string>, size: nat, p: Policy, io: Peripherals, name: string, args: seq<string>)
    requires Distinct(es) && !Hindered(es, p, io, name, args)
    ensures var rest := Without(es, Find(es, name));
            SetEntries(es, size, p, io, name, args)
            == if args == [] then (0, rest)
               else if |Flat(rest + [name + "=" + Words(args)])| <= size then (0, rest + [name + "=" + Words(args)])
               else (1, rest)
  {
    hide Key, Value, Words;
    if args != [] {
      FlatSnoc(Without(es, Find(es, name)), Definition(name, args));
    }
  }

  lemma {:induction false} WordsAreJoined(args: seq<string>, more: seq<string>)
    requires args != [] && more != []
    ensures Words(args + more) == Words(args) + " " + Words(more) && Words([args[0]]) == args[0]
  {
    if |more| == 1 {
      assert (args + more)[..|args + more| - 1] == args;
    } else {
      var n := |more| - 1;
      WordsAreJoined(args, more[..n]);
      assert (args + more)[..|args + more| - 1] == args + more[..n];
    }
  }

  /** A command in an environment of one entry with that key, if nothing is refused. */
  lemma OneEntry(e: string, size: nat, p: Policy, io: Peripherals, name: string, args: seq<string>)
    requires IsEntry(e) && Key(e) == Key(name) && !Refused(p, io, name, args, Value(e))
    ensures SetEntries([e], size, p, io, name, args)
         == if args == [] then (0, [])
            else if |Definition(name, args)| + 2 > size then (1, []) else (0, [Definition(name, args)])
  {
    hide Key, Definition, Refused, Value;
    var es := [e];
    assert es[0] == e && Find(es, name) == 0 && Without(es, 0) == [];
    if args != [] {
      assert [] + [Definition(name, args)] == [Definition(name, args)];
    }
  }

  /** Deleting "serial#=x" deletes "serial#", and setting it redefines "serial#". */
  lemma SerialIsLost(p: Policy, io: Peripherals, size: nat)
    requires !p.overwrite && size >= 20
    ensures (forall v :: Protected(p, "serial#", v)) && Distinct(["serial#=1"])
    ensures SetEntries(["serial#=1"], size, p, io, "serial#", []) == (1, ["serial#=1"])
    ensures SetEntries(["serial#=1"], size, p, io, "serial#=x", []) == (0, [])
    ensures SetEntries(["serial#=1"], size, p, io, "serial#=x", ["y"]) == (0, ["serial#=x=y"])
  {
    hide Key, SetEntries, Find, Get, Value, Distinct;
    var e := "serial#=1";
    assert e == "serial#" + "=" + "1" && "serial#=x" == "serial#" + "=" + "x" && e[7] == '=';
    KeyOfConcat("serial#", "1");
    KeyOfConcat("serial#", "x");
    OneEntryHas(e, "serial#");
    ProtectedSet([e], size, p, io, "serial#", []);
    OneEntry(e, size, p, io, "serial#=x", []);
    OneEntry(e, size, p, io, "serial#=x", ["y"]);
    assert Definition("serial#=x", ["y"]) == "serial#=x=y";
  }

  lemma OneEntryHas(e: string, name: string)
    requires IsEntry(e) && Key(e) == Key(name)
    ensures Distinct([e]) && Get([e], name).Some?
  {
    hide Key, IsEntry;
    var es := [e];
    assert es[0] == e && AllEntries(es);
    FindUnique(es, name, 0);
  }

  // ---------------------------------------------------------------------------------------------
  // The array
  // ---------------------------------------------------------------------------------------------

  lemma JoinEntry(es: seq<string>, k: nat, i: nat)
    requires k < |es| && i <= |es[k]|
    ensures Offset(es, k) + i < |Join(es)|
    ensures Join(es)[Offset(es, k) + i] == if i < |es[k]| then es[k][i] else NUL
  {
    JoinAt(es, k);
  }

  lemma JoinSlice(es: seq<string>, k: nat)
    requires k < |es|
    ensures var p := Offset(es, k);
            p + |es[k]| + 1 <= |Join(es)| && Join(es)[p..p + |es[k]| + 1] == es[k] + [NUL]
  {
    JoinAt(es, k);
  }

  /** The array before a deletion: what stays in front, the entry, and what moves up. */
  lemma FlatParts(es: seq<string>, k: nat)
    requires AllEntries(es) && k < |es|
    ensures Flat(es) == Join(es[..k]) + (es[k] + [NUL]) + Join(es[k + 1..]) + [NUL]
    ensures (Join(es[k + 1..]) == "") == (k + 1 == |es|)
    ensures (Join(es[..k]) == "") == (k == 0)
  {
    JoinAt(es, k);
  }

  /** The only double NUL in sight is the one at the end. */
  ghost predicate EndsAtDoubleNul(t: string) {
    && t != "" && t[|t| - 1] == NUL
    && forall i | 0 <= i < |t| :: (t[i] == NUL && (t + [NUL])[i + 1] == NUL) <==> i == |t| - 1
  }

  lemma DoubleNul(es: seq<string>, k: nat)
    requires AllEntries(es) && k + 1 < |es|
    ensures EndsAtDoubleNul(Join(es[k + 1..]))
  {
    var r := es[k + 1..];
    forall i | 0 <= i < |Join(r)|
      ensures Join(r)[i] == NUL && (Join(r) + [NUL])[i + 1] == NUL <==> i == |Join(r)| - 1
    {
      NoDoubleNul(r, i);
    }
  }

  lemma Kept(es: seq<string>, k: nat)
    requires Distinct(es) && k < |es|
    ensures Distinct(Without(es, k))
  {
    FindUnique(es, es[k], k);
    WithoutDistinct(es, es[k]);
  }

  /** Copy the text at `q` down to `p`, up to its double NUL, one character at a time. */
  method Shift(data: array<char>, p: nat, q: nat, ghost t: string)
    requires p < q && q + |t| < data.Length
    requires EndsAtDoubleNul(t) && data[q..q + |t| + 1] == t + [NUL]
    modifies data
    ensures data[..p + |t| + 1] == old(data[..p]) + t + [NUL]
  {
    var env, nxt := p, q;
    ghost var w := t + [NUL];
    assert forall x | q <= x <= q + |t| :: data[x] == w[x - q] by {
      forall x | q <= x <= q + |t|
        ensures data[x] == w[x - q]
      {
        assert data[q..q + |t| + 1][x - q] == data[x];
      }
    }
    while true
      invariant p <= env < p + |t| && nxt == env + (q - p)
      invariant forall x | 0 <= x < p :: data[x] == old(data[x])
      invariant forall x | p <= x < env :: data[x] == w[x - p]
      invariant forall x | nxt <= x <= q + |t| :: data[x] == w[x - q]
      decreases p + |t| - env
    {
      data[env] := data[nxt];
      nxt := nxt + 1;
      if data[env] == NUL && data[nxt] == NUL {
        break;
      }
      env := env + 1;
    }
    env := env + 1;
    data[env] := NUL;
  }

  /** The array after it. */
  lemma WithoutParts(es: seq<string>, k: nat)
    requires k < |es|
    ensures Join(Without(es, k)) == Join(es[..k]) + Join(es[k + 1..])
    ensures Flat(Without(es, k)) == if |es| == 1 then [NUL, NUL] else Join(es[..k]) + Join(es[k + 1..]) + [NUL]
  {
    JoinConcat(es[..k], es[k + 1..]);
  }

  /** What has been written of a definition after `i` of its words. */
  function Partial(name: string, args: seq<string>, i: nat): string
    requires i <= |args|
  {
    if i == 0 then name else name + "=" + Words(args[..i])
  }

  lemma PartialStep(name: string, args: seq<string>, i: nat)
    requires i < |args|
    ensures Partial(name, args, i + 1) == Partial(name, args, i) + (if i == 0 then "=" else " ") + args[i]
  {
    assert args[..i + 1][..i] == args[..i] && args[..i + 1][i] == args[i];
  }

  lemma PartialEnds(name: string, args: seq<string>)
    requires args != []
    ensures Partial(name, args, 0) == name && Partial(name, args, |args|) == Definition(name, args)
  {
    assert args[..|args|] == args;
  }

  lemma {:induction false} PartialGrows(name: string, args: seq<string>, i: nat)
    requires i <= |args|
    ensures |Partial(name, args, i)| <= |Partial(name, args, |args|)|
    decreases |args| - i
  {
    if i == |args| {
    } else {
      PartialStep(name, args, i);
      PartialGrows(name, args, i + 1);
    }
  }

  lemma FlatSnoc(es: seq<string>, d: string)
    ensures Flat(es + [d]) == Join(es) + d + [NUL] + [NUL]
  {
    assert (es + [d])[..|es|] == es;
  }

  lemma ValueIsC(e: string)
    requires IsEntry(e)
    ensures NUL !in Value(e)
  {
  }

  class Environment {
    const data: array<char>
    const policy: Policy
    ghost var entries: seq<string>

    ghost predicate Valid()
      reads this, data
    {
      && Distinct(entries)
      && 2 <= data.Length
      && Flat(entries) <= data[..]
    }

    /** The default environment, copied into a cleared array. */
    constructor (size: nat, policy: Policy, defaults: seq<string>)
      requires Distinct(defaults) && |Join(defaults)| + 2 <= size
      ensures Valid() && fresh(data) && data.Length == size && this.policy == policy && entries == defaults
      ensures data[..] == Join(defaults) + seq(size - |Join(defaults)|, _ => NUL)
    {
      var text := Join(defaults);
      this.policy, entries := policy, defaults;
      data := new char[size](i => if 0 <= i < |text| then text[i] else NUL);
      new;
      assert data[..] == text + seq(size - |text|, _ => NUL);
    }

    /** A character of entry `k`, or the NUL behind it. */
    lemma EntryAt(k: nat, i: nat)
      requires Valid() && k < |entries| && i <= |entries[k]|
      ensures Offset(entries, k) + i + 1 < data.Length
      ensures data[Offset(entries, k) + i] == if i < |entries[k]| then entries[k][i] else NUL
    {
      JoinEntry(entries, k, i);
      assert Flat(entries)[Offset(entries, k) + i] == data[..][Offset(entries, k) + i];
    }

    /** The NUL behind the last entry. */
    lemma EndAt()
      requires Valid()
      ensures |Join(entries)| < data.Length && data[|Join(entries)|] == NUL
      ensures Offset(entries, |entries|) == |Join(entries)|
    {
      assert entries[..|entries|] == entries;
      assert Flat(entries)[|Join(entries)|] == data[..][|Join(entries)|];
    }

    /** Match a name, or a `name=value` pair, with the entry at index `i2`; the index of its value or -1. */
    method EnvMatch(s1: string, i2: nat, ghost k: nat) returns (r: int)
      requires Valid() && NUL !in s1 && k < |entries| && i2 == Offset(entries, k)
      ensures r == if Key(s1) == Key(entries[k]) then i2 + |Key(entries[k])| + 1 else -1
    {
      hide Valid, Key, Offset;
      ghost var e := entries[k];
      EntryOf(k);
      var i := 0;
      EntryAt(k, 0);
      while i < |s1| && s1[i] == data[i2 + i]
        invariant i <= |s1| && i < |e| && i2 + i + 1 < data.Length && data[i2 + i] == e[i]
        invariant s1[..i] == e[..i] && '=' !in s1[..i]
      {
        if s1[i] == '=' {
          KeysCompared(s1, e, i);
          return i2 + i + 1;
        }
        i := i + 1;
        KeyPrefix(e, i);
        KeyEndsAtEquals(e);
        EntryAt(k, i);
      }
      KeysCompared(s1, e, i);
      return if i == |s1| && data[i2 + i] == '=' then i2 + i + 1 else -1;
    }

    /** Walk the entries to the one with the key of `name`. */
    method FindEntry(name: string) returns (env: nat, nxt: nat, oldval: int, ghost k: nat)
      requires Valid() && NUL !in name
      ensures k == Find(entries, name) && env == Offset(entries, k)
      ensures k < |entries| ==> nxt == env + |entries[k]| && oldval == env + |Key(entries[k])| + 1
      ensures k == |entries| ==> oldval == -1
    {
      hide Valid, Key, Offset, IsEntry;
      env, nxt, oldval, k := 0, 0, -1, 0;
      Start();
      while data[env] != NUL
        invariant k <= |entries| && env == Offset(entries, k) && env < data.Length
        invariant forall i | 0 <= i < k :: Key(entries[i]) != Key(name)
        invariant oldval == -1
        invariant k < |entries| ==> data[env] != NUL
        invariant k == |entries| ==> data[env] == NUL
        decreases |entries| - k
      {
        nxt := env;
        EntryAt(k, 0);
        while data[nxt] != NUL
          invariant env <= nxt <= env + |entries[k]| && nxt < data.Length
          invariant nxt < env + |entries[k]| ==> data[nxt] == entries[k][nxt - env]
          invariant nxt == env + |entries[k]| ==> data[nxt] == NUL
          decreases env + |entries[k]| - nxt
        {
          nxt := nxt + 1;
          EntryAt(k, nxt - env);
        }
        EntryOf(k);
        oldval := EnvMatch(name, env, k);
        if oldval >= 0 {
          FindIs(entries, name, k);
          return;
        }
        NextEntry(k);
        env := nxt + 1;
        k := k + 1;
      }
      FindIs(entries, name, k);
    }

    /** `getenv`: the index of the value of `name`, or -1. */
    method GetEnv(name: string) returns (r: int)
      requires Valid() && NUL !in name
      ensures AllEntries(entries)
      ensures r == -1 <==> Get(entries, name) == None
      ensures r != -1 ==>
                && Get(entries, name).Some?
                && var v := Get(entries, name).value;
                   && 0 <= r && r + |v| < data.Length
                   && data[r..r + |v|] == v && data[r + |v|] == NUL
    {
      hide Key, IsEntry, Flat, Join, Offset;
      var env, nxt, oldval, k := FindEntry(name);
      if k < |entries| {
        ValueAt(k);
      }
      return oldval;
    }

    lemma ValueAt(k: nat)
      requires Valid() && k < |entries|
      ensures '=' in entries[k]
      ensures var r, v := Offset(entries, k) + |Key(entries[k])| + 1, Value(entries[k]);
              r + |v| < data.Length && data[r..r + |v|] == v && data[r + |v|] == NUL
    {
      hide Key, Offset, Distinct, Join;
      var e := entries[k];
      EntryOf(k);
      KeyEndsAtEquals(e);
      var p, n := Offset(entries, k), |Key(e)| + 1;
      JoinSlice(entries, k);
      InFlat(p, p + |e| + 1);
      assert data[p + n..p + |e|] == data[p..p + |e| + 1][n..|e|];
      assert data[p + |e|] == data[p..p + |e| + 1][|e|];
    }

    lemma InFlat(a: nat, b: nat)
      requires Valid() && a <= b <= |Join(entries)|
      ensures b < data.Length && data[a..b] == Join(entries)[a..b]
    {
      assert |Flat(entries)| > |Join(entries)|;
      assert Flat(entries)[..b] == data[..][..b];
      assert entries != [] ==> Flat(entries)[..b] == Join(entries)[..b];
    }

    lemma Start()
      requires Valid()
      ensures Offset(entries, 0) == 0 < data.Length
      ensures |entries| > 0 ==> data[0] != NUL
      ensures |entries| == 0 ==> data[0] == NUL
    {
      assert entries[..0] == [];
      if |entries| > 0 {
        EntryAt(0, 0);
        assert IsEntry(entries[0]);
      } else {
        EndAt();
      }
    }

    lemma NextEntry(k: nat)
      requires Valid() && k < |entries|
      ensures Offset(entries, k + 1) == Offset(entries, k) + |entries[k]| + 1 < data.Length
      ensures k + 1 < |entries| ==> data[Offset(entries, k + 1)] != NUL
      ensures k + 1 == |entries| ==> data[Offset(entries, k + 1)] == NUL
    {
      JoinAt(entries, k);
      if k + 1 < |entries| {
        EntryAt(k + 1, 0);
        assert IsEntry(entries[k + 1]);
      } else {
        EndAt();
      }
    }

    /** Take the entry `e` between the texts `pre` and `post` out of the array. */
    method Erase(env: nat, nxt: nat, ghost pre: string, ghost e: string, ghost post: string)
      requires env == |pre| && nxt == env + |e| && e != "" && nxt + |post| + 2 <= data.Length
      requires data[..nxt + |post| + 2] == pre + (e + [NUL]) + post + [NUL]
      requires data[nxt + 1] == NUL <==> post == ""
      requires post != "" ==> EndsAtDoubleNul(post)
      modifies data
      ensures if pre + post == "" then data[..2] == [NUL, NUL] else data[..|pre + post| + 1] == pre + post + [NUL]
    {
      hide EndsAtDoubleNul;
      assert data[..env] == pre by {
        assert data[..nxt + |post| + 2][..env] == pre;
      }
      if data[nxt + 1] == NUL {
        if env > 0 {
          data[env] := NUL;
          assert data[..env + 1] == pre + [NUL];
        } else {
          data[0] := NUL;
          data[1] := NUL;
        }
      } else {
        assert data[nxt + 1..nxt + 1 + |post| + 1] == post + [NUL] by {
          assert data[..nxt + |post| + 2][nxt + 1..] == post + [NUL];
        }
        Shift(data, env, nxt + 1, post);
      }
    }

    /** Shift the entries behind entry `k` over it; `nxt` is the index of its NUL. */
    method DeleteEntry(env: nat, nxt: nat, ghost k: nat)
      requires Valid() && k < |entries| && env == Offset(entries, k) && nxt == env + |entries[k]|
      modifies this`entries, data
      ensures Valid() && entries == Without(old(entries), k)
    {
      hide Key, IsEntry, Flat, Distinct, Without, AllEntries, EndsAtDoubleNul, Join;
      ghost var es := entries;
      EntryOf(k);
      FlatParts(es, k);
      NextEntry(k);
      WithoutParts(es, k);
      Kept(es, k);
      if k + 1 < |es| {
        DoubleNul(es, k);
      }
      Erase(env, nxt, Join(es[..k]), es[k], Join(es[k + 1..]));
      entries := Without(es, k);
    }

    /** Copy a string and its NUL to index `at`; the index of that NUL. */
    method CopyString(s: string, at: nat) returns (end: nat)
      requires at + |s| < data.Length
      modifies data
      ensures end == at + |s|
      ensures data[..end + 1] == old(data[..at]) + s + [NUL]
    {
      end := at;
      var i := 0;
      while i < |s|
        invariant i <= |s| && end == at + i
        invariant forall x | 0 <= x < at :: data[x] == old(data[x])
        invariant forall x | at <= x < end :: data[x] == s[x - at]
      {
        data[end] := s[i];
        end := end + 1;
        i := i + 1;
      }
      data[end] := NUL;
    }

    /** The string at index `at`. */
    method ReadString(at: nat, ghost v: string) returns (s: string)
      requires at + |v| < data.Length && data[at..at + |v|] == v && data[at + |v|] == NUL && NUL !in v
      ensures s == v
    {
      s := "";
      var i := 0;
      assert forall x | 0 <= x < |v| :: data[at + x] == v[x] by {
        forall x | 0 <= x < |v|
          ensures data[at + x] == v[x]
        {
          assert data[at..at + |v|][x] == data[at + x];
        }
      }
      while data[at + i] != NUL
        invariant 0 <= i <= |v| && s == v[..i]
        decreases |v| - i
      {
        assert v[i] == data[at + i];
        s := s + [data[at + i]];
        i := i + 1;
      }
    }

    /** The index behind the last entry: behind the first double NUL, or 0. */
    method FindEnd() returns (env: nat)
      requires Valid()
      ensures env == |Join(entries)|
    {
      hide Key, IsEntry, Distinct, Valid, Join, Flat;
      env := 0;
      Lengths();
      while data[env] != NUL || data[env + 1] != NUL
        invariant env <= (if entries == [] then 0 else |Join(entries)| - 1)
        invariant env + 1 < data.Length
        decreases |Join(entries)| - env
      {
        AtDouble(env);
        Lengths();
        env := env + 1;
      }
      AtDouble(env);
      if env > 0 {
        env := env + 1;
      }
    }

    lemma Lengths()
      requires Valid()
      ensures |Flat(entries)| <= data.Length && 2 <= data.Length
      ensures entries != [] ==> 2 <= |Join(entries)| < data.Length
      ensures entries == [] ==> |Join(entries)| == 0
    {
      if entries != [] {
        JoinAt(entries, 0);
        assert IsEntry(entries[0]);
      }
    }

    lemma AtDouble(i: nat)
      requires Valid() && (if entries == [] then i == 0 else i < |Join(entries)|)
      ensures i + 1 < data.Length
      ensures data[i] == NUL && data[i + 1] == NUL <==> (entries == [] || i == |Join(entries)| - 1)
    {
      Lengths();
      assert data[..][i] == Flat(entries)[i] && data[..][i + 1] == Flat(entries)[i + 1];
      if entries != [] {
        NoDoubleNul(entries, i);
      }
    }

    /** Write `name=value` and a double NUL at the end, if there is room. */
    method AppendDefinition(name: string, args: seq<string>) returns (rc: int)
      requires Valid() && args != [] && IsEntry(Definition(name, args))
      requires Distinct(entries + [Definition(name, args)])
      modifies this`entries, data
      ensures Valid()
      ensures (rc, entries) ==
                if |Join(old(entries))| + |Definition(name, args)| + 2 > data.Length then (1, old(entries))
                else (0, old(entries) + [Definition(name, args)])
    {
      hide Key, IsEntry, Distinct, Words, Flat, Valid;
      var env := FindEnd();
      Lengths();
      ghost var pre := Join(entries);
      var len := |name| + 2;
      var i := 0;
      while i < |args|
        invariant i <= |args| && len == |Partial(name, args, i)| + 2
        modifies {}
      {
        PartialStep(name, args, i);
        len := len + |args[i]| + 1;
        i := i + 1;
      }
      assert args[..|args|] == args;
      if len > data.Length - env {
        return 1;
      }
      assert data[..env] == pre by {
        InFlat(0, env);
      }
      WriteDefinition(name, args, env);
      ghost var d := Definition(name, args);
      FlatSnoc(entries, d);
      Extend(d, |pre| + |d| + 2);
      return 0;
    }

    /** A separator and a word over the NUL at index `env`. */
    method WriteWord(separator: char, w: string, env: nat) returns (end: nat)
      requires env + 1 + |w| < data.Length
      modifies data
      ensures end == env + 1 + |w|
      ensures data[..end + 1] == old(data[..env]) + ([separator] + w) + [NUL]
    {
      ghost var before := data[..env];
      data[env] := separator;
      assert data[..env + 1] == before + [separator];
      end := CopyString(w, env + 1);
    }

    /** The writing of a definition at index `at`. */
    method WriteDefinition(name: string, args: seq<string>, at: nat)
      requires args != [] && at + |Definition(name, args)| + 2 <= data.Length
      modifies data
      ensures var d := Definition(name, args);
              data[..at + |d| + 2] == old(data[..at]) + d + [NUL] + [NUL]
    {
      hide Words, Partial;
      ghost var pre, d := data[..at], Definition(name, args);
      PartialEnds(name, args);
      PartialGrows(name, args, 0);
      var env := CopyString(name, at);
      var i := 0;
      while i < |args|
        invariant i <= |args| && env == at + |Partial(name, args, i)| <= at + |d|
        invariant data[..env + 1] == pre + Partial(name, args, i) + [NUL]
      {
        PartialStep(name, args, i);
        PartialGrows(name, args, i + 1);
        assert data[..env] == pre + Partial(name, args, i) by {
          assert data[..env + 1][..env] == pre + Partial(name, args, i);
        }
        env := WriteWord(if i == 0 then '=' else ' ', args[i], env);
        i := i + 1;
      }
      env := env + 1;
      data[env] := NUL;
      assert data[..env + 1] == data[..env] + [NUL];
    }

    ghost method Extend(d: string, n: nat)
      requires Distinct(entries + [d]) && 2 <= data.Length && n <= data.Length
      requires data[..n] == Flat(entries + [d])
      modifies this`entries
      ensures Valid() && entries == old(entries) + [d]
    {
      entries := entries + [d];
    }

    /**
      Set, replace or delete a variable: `args` are the words of the value, none to delete. An entry
      that may not be replaced leaves everything as it was; an overflow leaves the name deleted.
     */
    method SetEnv(name: string, args: seq<string>, io: Peripherals) returns (rc: int)
      requires Valid() && NUL !in name && CStrings(args)
      modifies this`entries, data
      ensures Valid() && old(AllEntries(entries))
      ensures (rc, entries) == SetEntries(old(entries), data.Length, policy, io, name, args)
    {
      hide Key, IsEntry, Flat, Words, Distinct, Valid, Offset, Protected;
      ghost var es := entries;
      var env, nxt, oldval, k := FindEntry(name);
      assert AllEntries(es) && Distinct(es) by {
        WellFormedNow();
      }
      if oldval >= 0 {
        ValueAt(k);
        ghost var v := Value(es[k]);
        ValueIsC(es[k]);
        var current := ReadString(oldval, v);
        if Protected(policy, name, current) {
          return 1;
        }
        if Console(name) && (args == [] || !io.consoleOk) {
          return 1;
        }
        if name == "baudrate" && !io.baudOk {
          return 1;
        }
        DeleteEntry(env, nxt, k);
      }
      if args == [] {
        return 0;
      }
      WithoutDistinct(es, name);
      DefinitionKey(name, args);
      DefinitionIsEntry(name, args);
      AppendedDistinct(entries, Definition(name, args));
      rc := AppendDefinition(name, args);
    }

    lemma WellFormedNow()
      requires Valid()
      ensures Distinct(entries)
    {
    }

    lemma EntryOf(k: nat)
      requires Valid() && k < |entries|
      ensures IsEntry(entries[k]) && entries[k] != "" && AllEntries(entries) && Distinct(entries)
    {
    }
  }

  lemma FindIs(es: seq<string>, name: string, k: nat)
    requires k <= |es| && (k < |es| ==> Key(es[k]) == Key(name))
    requires forall i | 0 <= i < k :: Key(es[i]) != Key(name)
    ensures Find(es, name) == k
  {
  }

  lemma {:induction false} KeyPrefix(s: string, i: nat)
    requires i <= |s| && '=' !in s[..i]
    ensures i <= |Key(s)| && Key(s)[..i] == s[..i]
  {
    if i == 0 {
    } else {
      assert s[0] == s[..i][0] != '=';
      assert s[1..][..i - 1] == s[..i][1..];
      KeyPrefix(s[1..], i - 1);
    }
  }

  /** Where the comparison of a name with an entry stops decides whether the keys are equal. */
  lemma KeysCompared(s: string, e: string, i: nat)
    requires i <= |s| && i < |e| && s[..i] == e[..i] && '=' !in s[..i] && '=' in e
    ensures i == |s| || s[i] != e[i] || s[i] == '=' ==>
              (Key(s) == Key(e) <==> e[i] == '=' && (i == |s| || s[i] == '='))
    ensures e[i] == '=' ==> |Key(e)| == i
  {
    hide Key;
    KeyPrefix(s, i);
    KeyPrefix(e, i);
    if e[i] == '=' {
      KeyAt(e, i);
    } else {
      KeyPrefix(e, i + 1);
      assert Key(e)[i] == Key(e)[..i + 1][i] == e[i];
    }
    if i == |s| {
    } else if s[i] == '=' {
      KeyAt(s, i);
    } else {
      KeyPrefix(s, i + 1);
      assert Key(s)[i] == Key(s)[..i + 1][i] == s[i];
    }
  }

  lemma {:induction false} KeyAt(s: string, i: nat)
    requires i < |s| && s[i] == '=' && '=' !in s[..i]
    ensures Key(s) == s[..i]
  {
    if i == 0 {
    } else {
      assert s[0] == s[..i][0] != '=';
      assert s[1..][..i - 1] == s[..i][1..];
      KeyAt(s[1..], i - 1);
    }
  }
}
