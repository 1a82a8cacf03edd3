/**
  The translation cache: every entry sits in one singly linked hash chain and in
  one doubly linked recency list, and both are updated in place.
 */
module Tcache {
  import opened Words
  import opened Sequences
  import opened Jumps
  import opened TcacheSpec

  const DEFAULT_SIZE: u64 := 1024 * 1024
  const DEFAULT_BUCKETS: nat := 4096

  datatype Status = OK | InvalidParam | NoMemory

  function At(s: seq<Entry>, i: int): (r: Entry?)
  {
    if 0 <= i < |s| then s[i] else null
  }

  /** prev and next are mutual inverses along s, from head to tail. */
  ghost predicate LruLinked(head: Entry?, tail: Entry?, s: seq<Entry>)
    reads s`lruPrev, s`lruNext
  {
    && head == At(s, 0) && tail == At(s, |s| - 1)
    && (forall i {:trigger s[i].lruPrev} :: 0 <= i < |s| ==> s[i].lruPrev == At(s, i - 1))
    && (forall i {:trigger s[i].lruNext} :: 0 <= i < |s| ==> s[i].lruNext == At(s, i + 1))
  }

  ghost predicate Chained(head: Entry?, c: seq<Entry>)
    reads c`next
  {
    && head == At(c, 0)
    && (forall i {:trigger c[i].next} :: 0 <= i < |c| ==> c[i].next == At(c, i + 1))
  }

  /** No entry of another chain is in chain b. */
  ghost predicate Apart(chains: seq<seq<Entry>>, b: nat)
    requires b < |chains|
  {
    forall c, i :: 0 <= c < |chains| && c != b && 0 <= i < |chains[c]| ==> chains[c][i] !in chains[b]
  }

  class TranslationCache {
    var table: array<Entry?>
    var lruHead: Entry?
    var lruTail: Entry?
    var totalSize: u64
    var usedSize: u64
    var entryCount: nat
    var lookupCount: u64
    var missCount: u64
    const jumps: JumpList
    ghost var lru: seq<Entry>
    ghost var chains: seq<seq<Entry>>

    ghost function St(): State
      reads this, jumps, jumps.ram
    {
      State(lru, chains, usedSize, totalSize, jumps.list, jumps.ram[..])
    }

    /** Every bucket heads its chain; the chains are made of entries of `all`. */
    ghost predicate TableLinked(chains: seq<seq<Entry>>, all: seq<Entry>)
      reads this`table, table, all`next
    {
      && table.Length == |chains|
      && (forall b, i :: 0 <= b < |chains| && 0 <= i < |chains[b]| ==> chains[b][i] in all)
      && (forall b :: 0 <= b < |chains| ==> Chained(table[b], chains[b]))
    }

    ghost predicate Linked(lru: seq<Entry>, chains: seq<seq<Entry>>)
      reads this`table, this`lruHead, this`lruTail, table, lru`next, lru`lruPrev, lru`lruNext
    {
      LruLinked(lruHead, lruTail, lru) && TableLinked(chains, lru)
    }

    ghost predicate Valid()
      reads this, table, lru, jumps, jumps.list, jumps.ram
    {
      && jumps.Valid()
      && table as object != jumps.ram
      && table.Length == |chains|
      && WellFormed(St())
      && entryCount == |lru|
      && Linked(lru, chains)
    }

    constructor (size: u64, buckets: nat, jumps: JumpList)
      requires jumps.Valid()
      ensures Valid() && fresh(table) && this.jumps == jumps
      ensures var n := if buckets > 0 then buckets else DEFAULT_BUCKETS;
              St() == State([], seq(n, _ => []), 0, if size > 0 then size else DEFAULT_SIZE, jumps.list, jumps.ram[..])
    {
      var n := if buckets > 0 then buckets else DEFAULT_BUCKETS;
      this.jumps := jumps;
      table := new Entry?[n](_ => null);
      totalSize := if size > 0 then size else DEFAULT_SIZE;
      lruHead, lruTail, usedSize, entryCount, lookupCount, missCount := null, null, 0, 0, 0, 0;
      lru, chains := [], seq(n, _ => []);
    }

    // ---- the recency list

    /** Takes e, which is not the head, out of its place. */
    method Detach(e: Entry, ghost s: seq<Entry>, ghost i: nat)
      requires NoDup(s) && LruLinked(lruHead, lruTail, s)
      requires 0 < i < |s| && s[i] == e
      modifies this`lruTail, s`lruPrev, s`lruNext
      ensures LruLinked(lruHead, lruTail, s[..i] + s[i + 1..])
    {
      ghost var t := s[..i] + s[i + 1..];
      assert s[i - 1] == e.lruPrev;
      if e.lruPrev != null {
        e.lruPrev.lruNext := e.lruNext;
      }
      if e.lruNext != null {
        assert s[i + 1] == e.lruNext;
        e.lruNext.lruPrev := e.lruPrev;
      }
      if lruTail == e {
        lruTail := e.lruPrev;
      }
      forall k | 0 <= k < |t|
        ensures t[k].lruPrev == At(t, k - 1) && t[k].lruNext == At(t, k + 1)
      {
        var j := if k < i then k else k + 1;
        assert t[k] == s[j] && s[j] != e;
        assert old(s[j].lruPrev) == At(s, j - 1) && old(s[j].lruNext) == At(s, j + 1);
        assert j != i - 1 ==> s[j] != s[i - 1];
        assert j != i + 1 && i + 1 < |s| ==> s[j] != s[i + 1];
      }
    }

    /** Puts e in front of the linked entries s; the tail is left to the caller. */
    method PutInFront(e: Entry, ghost s: seq<Entry>)
      requires NoDup(s) && e !in s && LruLinked(lruHead, lruTail, s)
      modifies this`lruHead, s`lruPrev, e`lruPrev, e`lruNext
      ensures LruLinked(lruHead, if s == [] then e else lruTail, [e] + s)
    {
      ghost var t := [e] + s;
      e.lruPrev := null;
      e.lruNext := lruHead;
      if lruHead != null {
        assert s[0] == lruHead;
        lruHead.lruPrev := e;
      }
      lruHead := e;
      forall k | 0 <= k < |t|
        ensures t[k].lruPrev == At(t, k - 1) && t[k].lruNext == At(t, k + 1)
      {
        if k > 0 {
          assert t[k] == s[k - 1] && old(s[k - 1].lruPrev) == At(s, k - 2) && old(s[k - 1].lruNext) == At(s, k);
          assert k > 1 ==> s[k - 1] != s[0];
        }
      }
    }

    /** Takes the least recently used entry off the end. */
    method DropTail(ghost s: seq<Entry>)
      requires NoDup(s) && s != [] && LruLinked(lruHead, lruTail, s)
      modifies this`lruHead, this`lruTail, s`lruNext
      ensures LruLinked(lruHead, lruTail, s[..|s| - 1])
    {
      ghost var n := |s| - 1;
      assert s[n] == lruTail;
      if lruTail.lruPrev != null {
        assert s[n - 1] == lruTail.lruPrev;
        lruTail.lruPrev.lruNext := null;
      }
      lruTail := lruTail.lruPrev;
      if lruTail == null {
        lruHead := null;
      }
    }
  
    // ---- the hash chains

    /** Walks the chain of e's bucket up to e and takes e out. */
    method Unchain(e: Entry, b: nat, ghost chains: seq<seq<Entry>>, ghost all: seq<Entry>)
      requires TableLinked(chains, all) && b < |chains|
      requires NoDup(chains[b]) && e in chains[b] && Apart(chains, b)
      modifies table, chains[b]`next
      ensures TableLinked(chains[b := Without(chains[b], e)], all)
    {
      ghost var chain := chains[b];
      assert Chained(table[b], chain);
      var prev: Entry? := null;
      var cur := table[b];
      ghost var j := 0;
      while cur != null && cur != e
        invariant j <= |chain| && cur == At(chain, j) && prev == At(chain, j - 1)
        invariant e in chain[j..]
        decreases |chain| - j
      {
        prev, cur := cur, cur.next;
        j := j + 1;
      }
      assert cur == e == chain[j];
      WithoutAt(chain, j);
      CutOut(prev, e, b, j, chains, all);
    }

    /** Redirects the link that leads to e, at position j of its chain, past e. */
    method CutOut(prev: Entry?, e: Entry, b: nat, ghost j: nat, ghost chains: seq<seq<Entry>>, ghost all: seq<Entry>)
      requires TableLinked(chains, all) && b < |chains| && Apart(chains, b)
      requires NoDup(chains[b]) && j < |chains[b]| && chains[b][j] == e && prev == At(chains[b], j - 1)
      modifies table, chains[b]`next
      ensures TableLinked(chains[b := chains[b][..j] + chains[b][j + 1..]], all)
    {
      ghost var chain := chains[b];
      ghost var t := chain[..j] + chain[j + 1..];
      assert Chained(table[b], chain);
      if prev != null {
        prev.next := e.next;
      } else {
        table[b] := e.next;
      }
      forall k | 0 <= k < |t|
        ensures t[k].next == At(t, k + 1)
      {
        var i := if k < j then k else k + 1;
        assert t[k] == chain[i] && old(chain[i].next) == At(chain, i + 1);
        assert i != j - 1 && j > 0 ==> chain[i] != chain[j - 1];
      }
      assert Chained(table[b], t);
      forall c | 0 <= c < |chains| && c != b
        ensures Chained(table[c], chains[c])
      {
        assert old(Chained(table[c], chains[c]));
      }
    }

    /** Puts e in front of the chain of its bucket. */
    method PushInChain(e: Entry, b: nat, ghost chains: seq<seq<Entry>>, ghost all: seq<Entry>)
      requires TableLinked(chains, all) && b < |chains| && e !in all
      modifies table, e`next
      ensures TableLinked(chains[b := [e] + chains[b]], [e] + all)
    {
      ghost var chain := chains[b];
      assert Chained(table[b], chain);
      e.next := table[b];
      table[b] := e;
      ghost var t := [e] + chain;
      forall k | 0 <= k < |t|
        ensures t[k].next == At(t, k + 1)
      {
        assert k > 0 ==> t[k] == chain[k - 1] && chain[k - 1] in all;
      }
      forall c | 0 <= c < |chains| && c != b
        ensures Chained(table[c], chains[c])
      {
        assert old(Chained(table[c], chains[c]));
        assert forall i :: 0 <= i < |chains[c]| ==> chains[c][i] in all;
      }
    }
  
    // ---- the operations

    /** The walk of a lookup along one chain. */
    method FindInChain(addr: Addr, b: nat) returns (entry: Entry?)
      requires Linked(lru, chains) && b < |chains|
      ensures entry == match FindFirst(chains[b], addr) case Missing => null case Hit(e) => e
      ensures entry != null ==> entry in lru
    {
      ghost var chain := chains[b];
      ghost var j := 0;
      assert Chained(table[b], chain);
      assert chain[0..] == chain;
      entry := table[b];
      while entry != null && entry.addr != addr
        invariant j <= |chain| && entry == At(chain, j)
        invariant FindFirst(chain, addr) == FindFirst(chain[j..], addr)
        decreases |chain| - j
      {
        assert chain[j..][1..] == chain[j + 1..];
        entry := entry.next;
        j := j + 1;
      }
      if entry != null {
        assert chain[j..][0] == entry;
      }
    }

    /** Returns the entry for addr, if there is one, and makes it the most recent. */
    method Lookup(addr: Addr) returns (r: Entry?)
      requires Valid()
      modifies this, lru
      ensures Valid() && St() == Touch(old(St()), addr) && table == old(table)
      ensures r == match Find(old(St()), addr) case Missing => null case Hit(e) => e
      ensures lookupCount == (old(lookupCount) + 1) % TWO64
      ensures missCount == if r == null then (old(missCount) + 1) % TWO64 else old(missCount)
      ensures r != null ==> r.execCount == (old(r.execCount) + 1) % TWO32 && r.hot == (old(r.hot) || r.execCount >= HOT_THRESHOLD)
      ensures forall e :: e in old(lru) && e != r ==> e.execCount == old(e.execCount) && e.hot == old(e.hot)
    {
      hide Linked, WellFormed, Touch, Find;
      lookupCount := (lookupCount + 1) % TWO64;
      r := Access(addr);
      if r == null {
        missCount := (missCount + 1) % TWO64;
      } else {
        CountUse(r);
      }
    }

    /** Finds the entry for addr and moves it to the front. */
    method Access(addr: Addr) returns (r: Entry?)
      requires Valid()
      modifies this`lruHead, this`lruTail, this`lru, lru`lruPrev, lru`lruNext
      ensures Valid() && St() == Touch(old(St()), addr)
      ensures r == match Find(old(St()), addr) case Missing => null case Hit(e) => e
      ensures r != null ==> r in old(lru)
    {
      hide Hash, SumSizes, Without, FindFirst, ChainsHold, Linked;
      TouchKeepsWellFormed(St(), addr);
      r := FindInChain(addr, Hash(addr) % table.Length);
      if r != null {
        MoveToFront(r);
      }
      assert St() == Touch(old(St()), addr);
    }

    static method CountUse(e: Entry)
      modifies e`execCount, e`hot
      ensures e.execCount == (old(e.execCount) + 1) % TWO32
      ensures e.hot == (old(e.hot) || e.execCount >= HOT_THRESHOLD)
    {
      e.execCount := (e.execCount + 1) % TWO32;
      if e.execCount >= HOT_THRESHOLD {
        e.hot := true;
      }
    }

    /** Leaves the chains alone and puts e in front of the recency list. */
    method MoveToFront(e: Entry)
      requires NoDup(lru) && Linked(lru, chains) && e in lru
      modifies this`lruHead, this`lruTail, this`lru, lru`lruPrev, lru`lruNext
      ensures lru == [e] + Without(old(lru), e) && |lru| == |old(lru)|
      ensures Linked(lru, chains)
    {
      hide Without, TableLinked;
      ghost var i :| 0 <= i < |lru| && lru[i] == e;
      WithoutAt(lru, i);
      if e != lruHead {
        ghost var s := Without(lru, e);
        Detach(e, lru, i);
        PutInFront(e, s);
        WidenTable(chains, lru, [e] + s);
        lru := [e] + s;
      } else {
        assert i == 0 && lru == [e] + lru[1..];
      }
    }

    lemma WidenTable(chains: seq<seq<Entry>>, all: seq<Entry>, all': seq<Entry>)
      requires TableLinked(chains, all) && forall e :: e in all ==> e in all'
      ensures TableLinked(chains, all')
    {
    }

    lemma TailIsLast()
      requires Linked(lru, chains)
      ensures lruTail == At(lru, |lru| - 1)
    {
    }

    /** Takes the least recently used entry out of both structures. */
    method UnlinkVictim(victim: Entry, b: nat, ghost rest: seq<Entry>, ghost restChains: seq<seq<Entry>>)
      requires NoDup(lru) && lru != [] && victim == lru[|lru| - 1] && Linked(lru, chains) && b < |chains|
      requires NoDup(chains[b]) && victim in chains[b] && Apart(chains, b)
      requires rest == lru[..|lru| - 1] && restChains == chains[b := Without(chains[b], victim)] && ChainsHold(rest, restChains)
      modifies this`lruHead, this`lruTail, this`lru, this`chains, table, lru`lruNext, lru`next
      ensures lru == rest && chains == restChains && Linked(rest, restChains)
    {
      hide ChainsHold, Without, LruLinked, NoDup, Apart;
      assert forall i :: 0 <= i < |chains[b]| ==> chains[b][i] in lru;
      DropTail(lru);
      Unchain(victim, b, chains, lru);
      NarrowTable(restChains, lru, rest);
      lru, chains := rest, restChains;
    }

    /** The chains may be said to be made of any entries that contain theirs. */
    lemma NarrowTable(chains: seq<seq<Entry>>, all: seq<Entry>, all': seq<Entry>)
      requires TableLinked(chains, all) && |chains| > 0 && ChainsHold(all', chains)
      ensures TableLinked(chains, all')
    {
      forall b, i | 0 <= b < |chains| && 0 <= i < |chains[b]|
        ensures chains[b][i] in all'
      {
        assert chains[b][i] in chains[b];
      }
    }

    /** One round of the eviction loop. */
    method EvictTail()
      requires Valid() && lru != []
      modifies this, table, lru`next, lru`lruPrev, lru`lruNext, jumps, jumps.list, jumps.ram
      ensures Valid() && St() == EvictOne(old(St()), jumps.dispatcher)
      ensures lru == old(lru)[..|old(lru)| - 1] && table == old(table)
      ensures forall i :: 0 <= i < |jumps.list| ==> jumps.list[i] in old(jumps.list)
    {
      hide *;
      ghost var s, t := VictimIsTail();
      var evict := lruTail;
      var left := Less(usedSize, evict.size);
      jumps.Patch(evict.addr);
      UnlinkVictim(evict, evict.hash % table.Length, t.lru, t.chains);
      usedSize, entryCount := left, entryCount - 1;
      Evicted(s, t);
    }

    /** The state before an eviction and the one to come. */
    lemma VictimIsTail() returns (s: State, t: State)
      requires Valid() && lru != []
      ensures s == St() && |s.chains| > 0
      ensures lruTail == lru[|lru| - 1] && table.Length == |chains| > 0 && entryCount == |lru| && Linked(lru, chains)
      ensures jumps.Valid() && table as object != jumps.ram && JumpsFit(s, jumps.dispatcher)
      ensures s == State(lru, chains, usedSize, totalSize, jumps.list, jumps.ram[..]) && WellFormed(s)
      ensures var e := lru[|lru| - 1];
              var b := e.hash % table.Length;
              && t == EvictOne(s, jumps.dispatcher)
              && NoDup(lru) && NoDup(chains[b]) && e in chains[b] && Apart(chains, b)
              && t.lru == lru[..|lru| - 1] && t.chains == chains[b := Without(chains[b], e)] && ChainsHold(t.lru, t.chains)
              && t.used == Less(usedSize, e.size)
              && t.jumps == Remaining(jumps.list, e.addr) && t.ram == Patched(jumps.list, e.addr, jumps.dispatcher, jumps.ram[..])
    {
      hide Hash, SumSizes, Without, ChainsHold, TableLinked, LruLinked, Apart, NoDup;
      s := St();
      TailIsLast();
      VictimPlace(s);
      t := EvictOne(s, jumps.dispatcher);
    }

    lemma Evicted(s: State, t: State)
      requires WellFormed(s) && s.lru != [] && |s.chains| > 0 && JumpsFit(s, jumps.dispatcher) && t == EvictOne(s, jumps.dispatcher)
      requires table.Length == |s.chains| && table as object != jumps.ram && jumps.Valid() && entryCount == |s.lru| - 1
      requires lru == t.lru && chains == t.chains && Linked(t.lru, t.chains)
      requires usedSize == t.used && totalSize == s.total && jumps.list == t.jumps && jumps.ram[..] == t.ram
      ensures Valid() && St() == t
    {
      hide Hash, SumSizes, Without, ChainsHold, NoDup, Linked, Remaining, Patched;
      EvictOneKeepsWellFormed(s, jumps.dispatcher);
    }

    /** Puts a new entry in front of its chain and of the recency list. */
    method LinkNew(e: Entry, b: nat)
      requires NoDup(lru) && Linked(lru, chains) && e !in lru && b < |chains|
      modifies this`lruHead, this`lruTail, table, e`next, e`lruPrev, e`lruNext, lru`lruPrev
      ensures Linked([e] + lru, chains[b := [e] + chains[b]])
    {
      hide TableLinked;
      PushInChain(e, b, chains, lru);
      PutInFront(e, lru);
      if lruTail == null {
        lruTail := e;
      }
    }

    /** Evicts until there is room and adds the block as the most recent one. */
    method Insert(addr: Addr, code: u64, size: u64, owned: bool, mapped: bool, allocOk: bool) returns (rc: Status)
      requires Valid()
      modifies this, table, lru`next, lru`lruPrev, lru`lruNext, jumps, jumps.list, jumps.ram
      ensures Valid() && table == old(table)
      ensures rc == if code == 0 then InvalidParam else if allocOk then OK else NoMemory
      ensures rc == InvalidParam ==> St() == old(St())
      ensures rc == NoMemory ==> St() == Evict(old(St()), size, jumps.dispatcher)
      ensures rc == OK ==>
                lru != [] && fresh(lru[0]) && St() == TcacheSpec.Insert(old(St()), lru[0], jumps.dispatcher) &&
                lru[0].addr == addr && lru[0].code == code && lru[0].size == size && lru[0].hash == Hash(addr) &&
                lru[0].owned == owned && lru[0].mapped == mapped && !lru[0].locked && lru[0].execCount == 1 && !lru[0].hot
      ensures forall i :: 0 <= i < |lru| ==> fresh(lru[i]) || lru[i] in old(lru)
      ensures forall i :: 0 <= i < |jumps.list| ==> jumps.list[i] in old(jumps.list)
    {
      hide Hash, ChainsHold, SumSizes, EvictOne, Linked;
      if code == 0 {
        return InvalidParam;
      }
      MakeRoom(size);
      if !allocOk {
        return NoMemory;
      }
      var e := new Entry(addr, code, size, owned, mapped);
      PushNew(e);
      return OK;
    }

    method PushNew(e: Entry)
      requires Valid() && e !in lru && e.hash == Hash(e.addr)
      modifies this, table, e`next, e`lruPrev, e`lruNext, lru`lruPrev
      ensures Valid() && table == old(table) && St() == Push(old(St()), e)
    {
      hide Hash, ChainsHold, SumSizes, LruLinked, TableLinked;
      PushKeepsWellFormed(St(), e);
      var b := e.hash % table.Length;
      LinkNew(e, b);
      usedSize := (usedSize + e.size) % TWO64;
      entryCount := entryCount + 1;
      lru, chains := [e] + lru, chains[b := [e] + chains[b]];
      assert St() == Push(old(St()), e);
    }

    method MakeRoom(size: u64)
      requires Valid()
      modifies this, table, lru`next, lru`lruPrev, lru`lruNext, jumps, jumps.list, jumps.ram
      ensures Valid() && table == old(table)
      ensures St() == Evict(old(St()), size, jumps.dispatcher)
      ensures forall i :: 0 <= i < |lru| ==> lru[i] in old(lru)
      ensures forall i :: 0 <= i < |jumps.list| ==> jumps.list[i] in old(jumps.list)
    {
      hide Hash, ChainsHold, SumSizes, EvictOne, Evict, Linked, NoDup, Valid, St, JumpsFit, Heading;
      ghost var goal := Aimed(size);
      while (usedSize + size) % TWO64 > totalSize && lruTail != null && !lruTail.locked
        invariant Heading(size, goal) && table == old(table)
        invariant forall i :: 0 <= i < |lru| ==> lru[i] in old(lru)
        invariant forall i :: 0 <= i < |jumps.list| ==> jumps.list[i] in old(jumps.list)
        decreases |lru|
      {
        ghost var s := NextVictim(size, goal);
        EvictTail();
        StillHeading(size, s, goal);
      }
      Reached(size, goal);
    }

    /** Making room leads from here to the goal. */
    ghost predicate Heading(size: u64, goal: State)
      reads this, table, lru, jumps, jumps.list, jumps.ram
    {
      Valid() && JumpsFit(St(), jumps.dispatcher) && Evict(St(), size, jumps.dispatcher) == goal
    }

    lemma Aimed(size: u64) returns (goal: State)
      requires Valid()
      ensures |St().chains| > 0 && JumpsFit(St(), jumps.dispatcher) && goal == Evict(St(), size, jumps.dispatcher) && Heading(size, goal)
    {
      hide Hash, ChainsHold, SumSizes, Evict, Linked, NoDup;
      goal := Evict(St(), size, jumps.dispatcher);
    }

    lemma NextVictim(size: u64, goal: State) returns (s: State)
      requires Heading(size, goal) && (usedSize + size) % TWO64 > totalSize && lruTail != null && !lruTail.locked
      ensures Valid() && lru != [] && s == St() && |s.chains| > 0 && s.lru == lru && JumpsFit(s, jumps.dispatcher)
      ensures Evict(EvictOne(s, jumps.dispatcher), size, jumps.dispatcher) == goal
    {
      hide Hash, ChainsHold, SumSizes, EvictOne, NoDup, TableLinked, JumpsFit, JumpList.Valid;
      TailIsLast();
      s := St();
    }

    lemma StillHeading(size: u64, s: State, goal: State)
      requires s.lru != [] && |s.chains| > 0 && JumpsFit(s, jumps.dispatcher) && Valid() && St() == EvictOne(s, jumps.dispatcher)
      requires Evict(EvictOne(s, jumps.dispatcher), size, jumps.dispatcher) == goal
      ensures Heading(size, goal)
    {
      hide Valid, St, EvictOne, Evict, JumpsFit;
    }

    lemma Reached(size: u64, goal: State)
      requires Heading(size, goal) && !((usedSize + size) % TWO64 > totalSize && lruTail != null && !lruTail.locked)
      ensures Valid() && St() == goal
    {
      hide Hash, ChainsHold, SumSizes, EvictOne, NoDup, TableLinked, JumpsFit, JumpList.Valid;
      TailIsLast();
    }

    // ---- resizing and clearing

    /** The new table holds the chains of the entries moved so far. */
    ghost predicate Moved(newTable: array<Entry?>, done: seq<Entry>)
      reads newTable, done`next
    {
      && newTable.Length > 0
      && (forall b, i :: 0 <= b < newTable.Length && 0 <= i < |Bucketed(done, newTable.Length, b)| ==>
            Bucketed(done, newTable.Length, b)[i] in done)
      && forall b :: 0 <= b < newTable.Length ==> Chained(newTable[b], Bucketed(done, newTable.Length, b))
    }

    method Move(entry: Entry, newTable: array<Entry?>, ghost done: seq<Entry>)
      requires Moved(newTable, done) && entry !in done
      modifies newTable, entry`next
      ensures Moved(newTable, done + [entry])
    {
      ghost var done' := done + [entry];
      assert done'[..|done'| - 1] == done;
      var n, newBucket := newTable.Length, entry.hash % newTable.Length;
      entry.next := newTable[newBucket];
      newTable[newBucket] := entry;
      forall b | 0 <= b < n
        ensures Chained(newTable[b], Bucketed(done', n, b))
      {
        ghost var chain := Bucketed(done, n, b);
        assert old(Chained(newTable[b], chain));
        assert forall i :: 0 <= i < |chain| ==> chain[i] in done;
        if b == newBucket {
          ghost var t := [entry] + chain;
          forall k | 0 <= k < |t|
            ensures t[k].next == At(t, k + 1)
          {
            assert k > 0 ==> t[k] == chain[k - 1];
          }
        }
      }
    }

    /** Moves the chain of bucket i, front first. */
    method MoveChain(i: nat, newTable: array<Entry?>, ghost done: seq<Entry>)
      requires i < table.Length == |chains| && newTable != table
      requires Chained(table[i], chains[i]) && Moved(newTable, done)
      requires NoDup(done + chains[i])
      modifies newTable, chains[i]`next
      ensures Moved(newTable, done + chains[i])
    {
      hide Moved;
      ghost var chain := chains[i];
      ghost var j := 0;
      var entry := table[i];
      assert done + chain[..0] == done;
      while entry != null
        invariant j <= |chain| && entry == At(chain, j)
        invariant forall k :: j <= k < |chain| ==> chain[k].next == old(chain[k].next)
        invariant Moved(newTable, done + chain[..j])
        decreases |chain| - j
      {
        assert old(chain[j].next) == At(chain, j + 1);
        Advance(done, chain, j);
        var next := entry.next;
        Move(entry, newTable, done + chain[..j]);
        entry := next;
        j := j + 1;
      }
      assert chain[..j] == chain;
    }

    /** Moves every chain of the old table. */
    method MoveAll(newTable: array<Entry?>)
      requires WellFormed(St()) && TableLinked(chains, lru) && newTable != table
      requires newTable.Length > 0 && forall b :: 0 <= b < newTable.Length ==> newTable[b] == null
      modifies newTable, lru`next
      ensures Moved(newTable, Flatten(chains))
    {
      hide *;
      ghost var s := StartMoving(newTable);
      for i := 0 to table.Length
        invariant Moved(newTable, Flatten(chains[..i]))
        invariant forall c :: i <= c < |chains| ==> Chained(table[c], chains[c])
      {
        NextStretch(s, i);
        MoveOne(i, newTable, Flatten(chains[..i]));
      }
      assert chains[..table.Length] == chains;
    }

    lemma StartMoving(newTable: array<Entry?>) returns (s: State)
      requires WellFormed(St()) && TableLinked(chains, lru)
      requires newTable.Length > 0 && forall b :: 0 <= b < newTable.Length ==> newTable[b] == null
      ensures s.chains == chains && WellFormed(s) && Moved(newTable, Flatten(chains[..0])) && |chains| == table.Length
      ensures forall c :: 0 <= c < |chains| ==> Chained(table[c], chains[c])
      ensures forall c, k :: 0 <= c < |chains| && 0 <= k < |chains[c]| ==> chains[c][k] in lru
    {
      hide Hash, SumSizes, WellFormed;
      s := St();
    }

    /** Moves the chain of bucket i and no entry of the chains behind it. */
    method MoveOne(i: nat, newTable: array<Entry?>, ghost done: seq<Entry>)
      requires i < table.Length == |chains| && newTable != table && Apart(chains, i)
      requires forall c :: i <= c < |chains| ==> Chained(table[c], chains[c])
      requires Moved(newTable, done) && NoDup(done + chains[i])
      modifies newTable, chains[i]`next
      ensures Moved(newTable, done + chains[i])
      ensures forall c :: i < c < |chains| ==> Chained(table[c], chains[c])
    {
      hide Moved, NoDup;
      MoveChain(i, newTable, done);
      forall c | i < c < |chains|
        ensures Chained(table[c], chains[c])
      {
        assert old(Chained(table[c], chains[c]));
        assert forall k :: 0 <= k < |chains[c]| ==> chains[c][k] !in chains[i];
      }
    }

    /** Rebuilds the table for the new size; the recency list stays and nothing is evicted. */
    method Resize(newSize: u64, allocOk: bool) returns (rc: Status)
      requires Valid()
      modifies this, lru`next
      ensures Valid() && (table == old(table) || fresh(table))
      ensures rc == if Clamp(newSize) == old(totalSize) || allocOk then OK else NoMemory
      ensures rc == NoMemory ==> St() == old(St())
      ensures rc == OK ==> St() == TcacheSpec.Resize(old(St()), newSize)
    {
      hide Hash, ChainsHold, SumSizes, LruLinked, TableLinked;
      var size := Clamp(newSize);
      if size == totalSize {
        return OK;
      }
      if !allocOk {
        return NoMemory;
      }
      ResizeKeepsWellFormed(St(), newSize);
      Rebuild(size / POINTER_SIZE);
      totalSize := size;
      assert St() == TcacheSpec.Resize(old(St()), newSize);
      return OK;
    }

    /** Replaces the table by one of n buckets that holds the same entries. */
    method Rebuild(n: nat)
      requires WellFormed(St()) && Linked(lru, chains) && 0 < n
      requires ChainsHold(lru, Rehashed(Flatten(chains), n))
      modifies this`table, this`chains, lru`next
      ensures fresh(table) && table.Length == n && Linked(lru, chains)
      ensures chains == Rehashed(Flatten(old(chains)), n)
    {
      hide Hash, ChainsHold, SumSizes, LruLinked, Moved, TableLinked, WellFormed;
      ghost var es := Flatten(chains);
      var newTable := new Entry?[n](_ => null);
      MoveAll(newTable);
      table := newTable;
      chains := Rehashed(es, n);
      RehashedLinked(es, chains);
    }

    lemma RehashedLinked(es: seq<Entry>, chains: seq<seq<Entry>>)
      requires Moved(table, es) && chains == Rehashed(es, table.Length) && ChainsHold(lru, chains)
      ensures TableLinked(chains, lru)
    {
      hide Hash, Chained;
      forall b, i | 0 <= b < |chains| && 0 <= i < |chains[b]|
        ensures chains[b][i] in lru
      {
        assert chains[b][i] in chains[b];
      }
    }

    /** Forgets every entry; the jump records and the patched code stay as they are. */
    method Clear()
      requires Valid()
      modifies this, table
      ensures Valid() && table == old(table) && St() == TcacheSpec.Clear(old(St()))
      ensures lookupCount == missCount == 0
    {
      hide Hash, ChainsHold, SumSizes, Valid, St, Linked, WellFormed, TcacheSpec.Clear, JumpList.Valid;
      ghost var t := ClearedState();
      EmptyTable();
      lruHead, lruTail := null, null;
      usedSize, entryCount := 0, 0;
      lookupCount, missCount := 0, 0;
      lru, chains := t.lru, t.chains;
      Cleared(t);
    }

    lemma ClearedState() returns (t: State)
      requires Valid()
      ensures t == TcacheSpec.Clear(St()) && WellFormed(t) && jumps.Valid() && table as object != jumps.ram
      ensures t == State([], t.chains, 0, totalSize, jumps.list, jumps.ram[..])
      ensures |t.chains| == table.Length && forall b :: 0 <= b < |t.chains| ==> t.chains[b] == []
    {
      hide Hash, ChainsHold, SumSizes, Linked, JumpList.Valid;
      ClearKeepsWellFormed(St());
      t := TcacheSpec.Clear(St());
    }

    lemma Cleared(t: State)
      requires WellFormed(t) && jumps.Valid() && table as object != jumps.ram && |t.chains| == table.Length
      requires t.lru == [] && forall b :: 0 <= b < |t.chains| ==> t.chains[b] == [] && table[b] == null
      requires lruHead == lruTail == null && entryCount == 0 && t == State(lru, chains, usedSize, totalSize, jumps.list, jumps.ram[..])
      ensures Valid() && St() == t
    {
      hide Hash, ChainsHold, SumSizes, WellFormed, JumpList.Valid;
    }

    method EmptyTable()
      modifies table
      ensures forall b :: 0 <= b < table.Length ==> table[b] == null
    {
      for i := 0 to table.Length
        invariant forall b :: 0 <= b < i ==> table[b] == null
      {
        table[i] := null;
      }
    }
  }

  lemma Advance(done: seq<Entry>, chain: seq<Entry>, j: nat)
    requires NoDup(done + chain) && j < |chain|
    ensures done + chain[..j + 1] == (done + chain[..j]) + [chain[j]]
    ensures chain[j] !in done + chain[..j]
    ensures forall k :: j < k < |chain| ==> chain[k] != chain[j]
  {
    var s := done + chain;
    assert s[|done| + j] == chain[j] && done + chain[..j] == s[..|done| + j];
    forall k | j < k < |chain|
      ensures chain[k] != chain[j]
    {
      assert s[|done| + k] == chain[k];
    }
  }

  /** The chains in front of chain i and chain i itself share no entry. */
  lemma NextStretch(s: State, i: nat)
    requires WellFormed(s) && i < |s.chains|
    ensures Flatten(s.chains[..i + 1]) == Flatten(s.chains[..i]) + s.chains[i]
    ensures NoDup(Flatten(s.chains[..i]) + s.chains[i]) && Apart(s.chains, i)
  {
    hide Hash;
    var front := s.chains[..i + 1];
    assert front[..|front| - 1] == s.chains[..i];
    FlattenNoDup(front, |s.chains|);
    forall c, k | 0 <= c < |s.chains| && c != i && 0 <= k < |s.chains[c]|
      ensures s.chains[c][k] !in s.chains[i]
    {
      OneBucket(s, s.chains[c][k], i, c);
    }
  }

  lemma OneBucket(s: State, e: Entry, b: nat, c: nat)
    requires WellFormed(s) && b < |s.chains| && c < |s.chains| && b != c && e in s.chains[c]
    ensures e !in s.chains[b]
  {
    hide Hash;
    assert e.hash % |s.chains| == c;
  }

  /** Where the entry to be evicted sits. */
  lemma VictimPlace(s: State)
    requires WellFormed(s) && s.lru != []
    ensures |s.chains| > 0
    ensures var e := s.lru[|s.lru| - 1];
            var b := e.hash % |s.chains|;
            && NoDup(s.chains[b]) && e in s.chains[b] && Apart(s.chains, b)
            && NoDup(s.lru) && ChainsHold(s.lru[..|s.lru| - 1], s.chains[b := Without(s.chains[b], e)])
  {
    hide Hash;
    UnchainedHolds(s.lru, s.chains);
    var e := s.lru[|s.lru| - 1];
    var b := e.hash % |s.chains|;
    forall c, i | 0 <= c < |s.chains| && c != b && 0 <= i < |s.chains[c]|
      ensures s.chains[c][i] !in s.chains[b]
    {
      OneBucket(s, s.chains[c][i], b, c);
    }
  }
}
