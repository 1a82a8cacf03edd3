/**
  The symbol index of a module, on values: a hash table in the layout of the
  System V ABI, and the plain scan of the symbol table it has to agree with.
 */
module ElfSpec {
  import opened Words

  const GLOBAL: nat := 1
  const WEAK: nat := 2
  const UNDEFINED: nat := 0

  datatype Symbol = Symbol(name: nat, bind: nat, shndx: nat, value: u64)

  /** The symbols, the string table their names are offsets into, and the number of buckets. */
  datatype Table = Table(symbols: seq<Symbol>, strings: seq<byte>, buckets: nat)

  /** Names lie in the string table, which ends with a zero byte; there is at least one bucket. */
  ghost predicate Proper(t: Table) {
    && t.buckets > 0 && |t.symbols| > 0
    && |t.strings| > 0 && t.strings[|t.strings| - 1] == 0
    && forall i :: 0 <= i < |t.symbols| ==> t.symbols[i].name < |t.strings|
  }

  /** The string that starts at an offset. */
  function CString(strings: seq<byte>, at: nat): (r: seq<byte>)
    decreases |strings| - at
  {
    if at >= |strings| || strings[at] == 0 then [] else [strings[at]] + CString(strings, at + 1)
  }

  // ---- the hash of a name

  function HashStep(h: bv32, c: byte): bv32 {
    var shifted := (h << 4) + (c as bv32);
    var g := shifted & 0xf0000000;
    (shifted ^ (g >> 24)) & !g
  }

  function HashFrom(h: bv32, name: seq<byte>): bv32
    decreases |name|
  {
    if name == [] then h else HashFrom(HashStep(h, name[0]), name[1..])
  }

  function Hash(name: seq<byte>): bv32 {
    HashFrom(0, name)
  }

  function Number(h: bv32): u32 {
    h as nat
  }

  function Slot(h: bv32, buckets: nat): (b: nat)
    requires buckets > 0
    ensures b < buckets
  {
    Number(h) % buckets
  }

  function BucketOf(t: Table, name: seq<byte>): (b: nat)
    requires t.buckets > 0
    ensures b < t.buckets
  {
    Slot(Hash(name), t.buckets)
  }

  lemma HashStepFits(h: bv32, c: byte)
    ensures HashStep(h, c) & 0xf0000000 == 0
  {
  }

  /** The hash of a name is a 28-bit number. */
  lemma {:induction false} HashFits(h: bv32, name: seq<byte>)
    requires h & 0xf0000000 == 0
    ensures HashFrom(h, name) & 0xf0000000 == 0
    decreases |name|
  {
    if name != [] {
      HashStepFits(h, name[0]);
      HashFits(HashStep(h, name[0]), name[1..]);
    }
  }

  // ---- which symbols are indexed, and in what order

  function NameOf(t: Table, i: nat): seq<byte> {
    if i < |t.symbols| then CString(t.strings, t.symbols[i].name) else []
  }

  predicate Defined(s: Symbol) {
    (s.bind == GLOBAL || s.bind == WEAK) && s.shndx != UNDEFINED && s.value != 0
  }

  /** The first symbol from n on without a name, or the end of the table. */
  function Stop(symbols: seq<Symbol>, n: nat): (r: nat)
    requires n <= |symbols|
    ensures n <= r <= |symbols|
    ensures forall i :: n <= i < r ==> symbols[i].name != 0
    ensures r < |symbols| ==> symbols[r].name == 0
    decreases |symbols| - n
  {
    if n == |symbols| || symbols[n].name == 0 then n else Stop(symbols, n + 1)
  }

  /** How far the index reaches; symbol 0 is never looked at. */
  function End(t: Table): (r: nat)
    requires |t.symbols| > 0
    ensures 1 <= r <= |t.symbols|
  {
    Stop(t.symbols, 1)
  }

  /** The indices below n that belong to bucket b, the highest first. */
  ghost function Members(t: Table, n: nat, b: nat): (r: seq<nat>)
    requires n <= |t.symbols| && t.buckets > 0
    ensures forall k :: 0 <= k < |r| ==> 1 <= r[k] < n
  {
    if n <= 1 then []
    else if Defined(t.symbols[n - 1]) && BucketOf(t, NameOf(t, n - 1)) == b then [n - 1] + Members(t, n - 1, b)
    else Members(t, n - 1, b)
  }

  ghost predicate Decreasing(m: seq<nat>) {
    forall i, j :: 0 <= i < j < |m| ==> m[i] > m[j]
  }

  /** Along a chain the indices strictly decrease, so that walking it ends. */
  lemma {:induction false} MembersDecrease(t: Table, n: nat, b: nat)
    requires n <= |t.symbols| && t.buckets > 0
    ensures Decreasing(Members(t, n, b))
  {
    hide BucketOf, NameOf;
    if n > 1 {
      MembersDecrease(t, n - 1, b);
    }
  }

  // ---- looking up

  /** The first index of a chain with the name, or 0. */
  ghost function FirstNamed(t: Table, m: seq<nat>, name: seq<byte>): (r: nat)
    ensures r == 0 || r in m
  {
    if m == [] then 0
    else if NameOf(t, m[0]) == name then m[0] else FirstNamed(t, m[1..], name)
  }

  /** What the index answers. */
  ghost function Find(t: Table, name: seq<byte>): (r: nat)
    requires |t.symbols| > 0 && t.buckets > 0
  {
    FirstNamed(t, Members(t, End(t), BucketOf(t, name)), name)
  }

  ghost predicate Matches(t: Table, i: nat, name: seq<byte>)
    requires i < |t.symbols|
  {
    Defined(t.symbols[i]) && NameOf(t, i) == name
  }

  /** The scan: the highest matching index in [1, n), or 0. */
  ghost function Scan(t: Table, n: nat, name: seq<byte>): (r: nat)
    requires n <= |t.symbols|
    ensures r == 0 || (1 <= r < n && Matches(t, r, name))
    ensures forall i :: 1 <= i < n && i > r ==> !Matches(t, i, name)
  {
    if n <= 1 then 0 else if Matches(t, n - 1, name) then n - 1 else Scan(t, n - 1, name)
  }

  lemma {:induction false} FirstOfChainIsLastOfTable(t: Table, n: nat, name: seq<byte>)
    requires n <= |t.symbols| && t.buckets > 0
    ensures FirstNamed(t, Members(t, n, BucketOf(t, name)), name) == Scan(t, n, name)
  {
    hide BucketOf;
    if n > 1 {
      FirstOfChainIsLastOfTable(t, n - 1, name);
    }
  }

  /** The index answers as a scan of the table up to the first nameless symbol does. */
  lemma FindIsScan(t: Table, name: seq<byte>)
    requires |t.symbols| > 0 && t.buckets > 0
    ensures Find(t, name) == Scan(t, End(t), name)
  {
    FirstOfChainIsLastOfTable(t, End(t), name);
  }

  /**
    A name is found exactly when a defined global or weak symbol of that name comes
    before the first nameless one, and the one found is the last of those.
   */
  lemma FoundIff(t: Table, name: seq<byte>)
    requires |t.symbols| > 0 && t.buckets > 0
    ensures Find(t, name) != 0 <==> exists i :: 1 <= i < End(t) && Matches(t, i, name)
    ensures forall i :: 1 <= i < End(t) && Matches(t, i, name) ==> i <= Find(t, name) < End(t) && Matches(t, Find(t, name), name)
  {
    FindIsScan(t, name);
    hide Matches, Find, Scan;
  }

  /** A defined symbol that comes after a nameless one is not found, though a scan of the whole table finds it. */
  lemma NamelessHidesTheRest()
    ensures var t := Table([Symbol(0, 0, 0, 0), Symbol(0, GLOBAL, 1, 4), Symbol(1, GLOBAL, 1, 8)], [0, 97, 0], 1);
            Proper(t) && Scan(t, 3, [97]) == 2 && Find(t, [97]) == 0
  {
    var t := Table([Symbol(0, 0, 0, 0), Symbol(0, GLOBAL, 1, 4), Symbol(1, GLOBAL, 1, 8)], [0, 97, 0], 1);
    assert CString(t.strings, 2) == [];
    assert NameOf(t, 2) == [97];
    assert Matches(t, 2, [97]);
    assert End(t) == 1;
  }
}
