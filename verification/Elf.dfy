/** The symbol index of a module: bucket and chain arrays, built in place and then searched. */
module Elf {
  import opened Words
  import opened ElfSpec

  function Nth(m: seq<nat>, i: nat): nat {
    if i < |m| then m[i] else 0
  }

  /** The entries of a chain array lead from the head along m. */
  ghost predicate Linked(chain: seq<nat>, head: nat, m: seq<nat>) {
    && head == Nth(m, 0)
    && forall i :: 0 <= i < |m| ==> 1 <= m[i] < |chain| && chain[m[i]] == Nth(m, i + 1)
  }

  lemma LinkedStays(chain: seq<nat>, head: nat, m: seq<nat>, i: nat, v: nat)
    requires Linked(chain, head, m) && i < |chain| && forall k :: 0 <= k < |m| ==> m[k] < i
    ensures Linked(chain[i := v], head, m)
  {
  }

  lemma LinkedFront(chain: seq<nat>, head: nat, m: seq<nat>, i: nat)
    requires Linked(chain, head, m) && 1 <= i < |chain| && forall k :: 0 <= k < |m| ==> m[k] < i
    ensures Linked(chain[i := head], i, [i] + m)
  {
  }

  class SymbolIndex {
    const table: Table
    const bucket: array<nat>
    const chain: array<nat>

    /** The arrays hold the chains of the first n symbols. */
    ghost predicate Holds(n: nat)
      requires n <= |table.symbols| && table.buckets > 0
      reads bucket, chain
    {
      && bucket.Length == table.buckets && chain.Length == |table.symbols|
      && forall b :: 0 <= b < table.buckets ==> Linked(chain[..], bucket[b], Members(table, n, b))
    }

    ghost predicate Valid()
      reads bucket, chain
    {
      Proper(table) && bucket != chain && Holds(End(table))
    }

    /** Every indexed symbol goes to the front of the chain of its bucket. */
    constructor (table: Table)
      requires Proper(table)
      ensures Valid() && this.table == table
    {
      this.table := table;
      bucket := new nat[table.buckets](_ => 0);
      chain := new nat[|table.symbols|](_ => 0);
      new;
      hide BucketOf, NameOf, Defined, Linked;
      var i := 1;
      while i < |table.symbols| && table.symbols[i].name != 0
        invariant 1 <= i <= |table.symbols| && End(table) == Stop(table.symbols, i)
        invariant Holds(i)
      {
        if Defined(table.symbols[i]) {
          var b := HashName(table.symbols[i].name);
          PushFront(i, b);
        } else {
          assert forall b :: 0 <= b < table.buckets ==> Members(table, i + 1, b) == Members(table, i, b);
        }
        i := i + 1;
      }
    }

    method PushFront(i: nat, b: nat)
      requires 1 <= i < |table.symbols| && Proper(table) && bucket != chain && Defined(table.symbols[i])
      requires b == BucketOf(table, NameOf(table, i)) && Holds(i)
      modifies bucket, chain
      ensures Holds(i + 1)
    {
      hide BucketOf, NameOf, Defined, Proper, Members, Linked;
      ghost var links: seq<nat>, heads: seq<nat> := chain[..], bucket[..];
      chain[i] := bucket[b];
      bucket[b] := i;
      assert chain[..] == links[i := heads[b]] && bucket[..] == heads[b := i];
      forall c | 0 <= c < table.buckets
        ensures Linked(chain[..], bucket[c], Members(table, i + 1, c))
      {
        var m := Members(table, i, c);
        assert Linked(links, heads[c], m);
        MembersNext(i, b, c);
        if c == b {
          LinkedFront(links, heads[b], m, i);
        } else {
          LinkedStays(links, heads[c], m, i, heads[b]);
          assert [] + m == m;
        }
      }
    }

    lemma MembersNext(i: nat, b: nat, c: nat)
      requires 1 <= i < |table.symbols| && table.buckets > 0 && Defined(table.symbols[i])
          && b == BucketOf(table, NameOf(table, i))
      ensures Members(table, i + 1, c) == (if c == b then [i] else []) + Members(table, i, c)
      ensures forall k :: 0 <= k < |Members(table, i, c)| ==> Members(table, i, c)[k] < i
    {
      hide BucketOf, NameOf, Defined;
    }

    /** The bucket of the name at an offset: the hash is taken byte by byte up to the zero. */
    method HashName(at: nat) returns (b: nat)
      requires table.buckets > 0 && at < |table.strings| && table.strings[|table.strings| - 1] == 0
      ensures b == BucketOf(table, CString(table.strings, at))
    {
      hide HashStep, Slot;
      var h: bv32 := 0;
      var p := at;
      while table.strings[p] != 0
        invariant p < |table.strings|
        invariant HashFrom(h, CString(table.strings, p)) == Hash(CString(table.strings, at))
        decreases |table.strings| - p
      {
        assert CString(table.strings, p)[1..] == CString(table.strings, p + 1);
        h := HashStep(h, table.strings[p]);
        p := p + 1;
      }
      b := Slot(h, table.buckets);
    }

    method HashBytes(name: seq<byte>) returns (h: bv32)
      ensures h == Hash(name)
    {
      hide HashStep;
      h := 0;
      assert name[0..] == name;
      for p := 0 to |name|
        invariant HashFrom(h, name[p..]) == Hash(name)
      {
        assert name[p..][1..] == name[p + 1..];
        h := HashStep(h, name[p]);
      }
    }

    /** Walks the chain of the name's bucket; the index found, or 0. */
    method Lookup(name: seq<byte>) returns (idx: nat)
      requires Valid()
      ensures idx == Find(table, name) && idx < |table.symbols|
    {
      BucketIs(name);
      hide Hash, Slot, Members, NameOf, Stop, Defined, CString, Proper, FirstNamed, Find;
      var h := HashBytes(name);
      var b := Slot(h, table.buckets);
      idx := bucket[b];
      ghost var m := Members(table, End(table), b);
      ghost var k := 0;
      assert Linked(chain[..], bucket[b], m) && m[0..] == m;
      while idx != 0 && idx < |table.symbols|
        invariant k <= |m| && idx == Nth(m, k)
        invariant FirstNamed(table, m[k..], name) == Find(table, name)
        decreases |m| - k
      {
        FirstNamedStep(m, k, name);
        if NameOf(table, idx) == name {
          return;
        }
        idx := chain[idx];
        k := k + 1;
      }
      NoneNamed(m, k, name);
    }

    lemma FirstNamedStep(m: seq<nat>, k: nat, name: seq<byte>)
      requires k < |m|
      ensures FirstNamed(table, m[k..], name) == if NameOf(table, m[k]) == name then m[k] else FirstNamed(table, m[k + 1..], name)
    {
      hide NameOf;
      assert m[k..][1..] == m[k + 1..];
    }

    lemma NoneNamed(m: seq<nat>, k: nat, name: seq<byte>)
      requires k == |m|
      ensures FirstNamed(table, m[k..], name) == 0
    {
    }

    lemma BucketIs(name: seq<byte>)
      requires Valid()
      ensures table.buckets > 0 && |table.symbols| > 0 && bucket.Length == table.buckets && chain.Length == |table.symbols|
      ensures Slot(Hash(name), table.buckets) == BucketOf(table, name)
      ensures Find(table, name) == FirstNamed(table, Members(table, End(table), BucketOf(table, name)), name)
    {
      hide FirstNamed, Members;
    }

    /** Where the symbol found is loaded, if the name is found. */
    method GetSymbol(name: seq<byte>, memory: u64, bias: u64) returns (found: bool, address: u64)
      requires Valid()
      ensures found <==> Find(table, name) != 0
      ensures found ==> Find(table, name) < |table.symbols| && address == (memory + table.symbols[Find(table, name)].value - bias) % TWO64
    {
      hide Find, Holds, CString, Stop, Proper, Slot;
      var idx := Lookup(name);
      found := idx != 0;
      address := if found then (memory + table.symbols[idx].value - bias) % TWO64 else 0;
    }
  }
}
