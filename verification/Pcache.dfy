/**
  The persistent cache as it runs: the files, the recorded total and the counters
  are changed step by step, and every operation is proved against PcacheSpec.
 */
module Pcache {
  import opened Words
  import opened Sequences
  import opened LittleEndian
  import opened PcacheSpec
  import Crc

  ghost predicate SortedUpTo(s: seq<Info>, n: nat) {
    forall i, j :: 0 <= i < n && i < j < |s| ==> s[i].time <= s[j].time
  }

  lemma SameElements(a: seq<Info>, b: seq<Info>)
    requires multiset(a) == multiset(b)
    ensures forall x :: x in a <==> x in b
  {
    forall x
      ensures x in a <==> x in b
    {
      assert x in a <==> x in multiset(a);
    }
  }

  lemma {:induction false} CountsAreOne(s: seq<Info>)
    requires NoDup(s)
    ensures forall x :: multiset(s)[x] <= 1
  {
    if s != [] {
      assert s == [s[0]] + s[1..];
      CountsAreOne(s[1..]);
      assert s[0] !in s[1..];
    }
  }

  lemma {:induction false} OnesAreNoDup(s: seq<Info>)
    requires forall x :: multiset(s)[x] <= 1
    ensures NoDup(s)
  {
    forall i, j | 0 <= i < j < |s|
      ensures s[i] != s[j]
    {
      var a, b, c := s[..i], s[i + 1..j], s[j + 1..];
      assert s == a + ([s[i]] + (b + ([s[j]] + c)));
      assert multiset(s) == multiset(a) + (multiset{s[i]} + (multiset(b) + (multiset{s[j]} + multiset(c))));
      assert multiset(s)[s[i]] <= 1;
    }
  }

  /** Reordering a listing does not repeat a file. */
  lemma ReorderingKeepsNoDup(a: seq<Info>, b: seq<Info>)
    requires NoDup(a) && multiset(a) == multiset(b)
    ensures NoDup(b)
  {
    CountsAreOne(a);
    OnesAreNoDup(b);
  }

  /** The files of the directory, once each, in the order the directory gives them. */
  ghost predicate Lists(listing: seq<Info>, disk: map<Addr, File>) {
    && NoDup(listing)
    && forall x :: x in listing <==> x.addr in disk && x == InfoOf(disk, x.addr)
  }

  lemma SortedListing(listing: seq<Info>, order: seq<Info>, disk: map<Addr, File>)
    requires Lists(listing, disk) && multiset(order) == multiset(listing) && SortedUpTo(order, |order|)
    ensures OldestFirst(order, disk)
  {
    ReorderingKeepsNoDup(listing, order);
    SameElements(listing, order);
  }

  lemma ListingSums(listing: seq<Info>, disk: map<Addr, File>)
    requires Lists(listing, disk)
    ensures SumOf(listing) == SumSizes(disk) && |listing| == |disk|
  {
    hide SumSizes;
    assert forall i :: 0 <= i < |listing| ==> listing[i] in listing;
    forall a | a in disk
      ensures a in Addrs(listing)
    {
      assert InfoOf(disk, a) in listing;
    }
    ListedSums(listing, disk);
  }

  lemma {:induction false} ListedSums(listing: seq<Info>, disk: map<Addr, File>)
    requires Listed(listing, disk) && forall a :: a in disk ==> a in Addrs(listing)
    ensures SumOf(listing) == SumSizes(disk) && |listing| == |disk|
  {
    if listing == [] {
      assert disk == map[];
    } else {
      var x, rest := listing[0], disk - {listing[0].addr};
      SumRemove(disk, x.addr);
      ListedRest(listing, disk);
      assert listing == [x] + listing[1..];
      ListedSums(listing[1..], rest);
      assert disk.Keys == rest.Keys + {x.addr};
    }
  }

  /** Exchanges every pair found out of order. */
  method SortByTime(entries: array<Info>, count: nat)
    requires count <= entries.Length
    modifies entries
    ensures multiset(entries[..count]) == multiset(old(entries[..count]))
    ensures SortedUpTo(entries[..count], count)
  {
    var i := 0;
    while i < count - 1
      invariant 0 <= i && (i <= count - 1 || i == 0)
      invariant multiset(entries[..count]) == multiset(old(entries[..count]))
      invariant SortedUpTo(entries[..count], i)
    {
      var j := i + 1;
      while j < count
        invariant i < j <= count
        invariant multiset(entries[..count]) == multiset(old(entries[..count]))
        invariant SortedUpTo(entries[..count], i)
        invariant forall k :: i < k < j ==> entries[i].time <= entries[k].time
      {
        if entries[i].time > entries[j].time {
          ghost var before := entries[..count];
          entries[i], entries[j] := entries[j], entries[i];
          SwapFacts(before, entries[..count], i, j);
        }
        j := j + 1;
      }
      i := i + 1;
    }
  }

  lemma SwapFacts(a: seq<Info>, b: seq<Info>, i: nat, j: nat)
    requires i < j < |a| && b == a[i := a[j]][j := a[i]]
    ensures multiset(b) == multiset(a)
    ensures SortedUpTo(a, i) ==> SortedUpTo(b, i)
  {
  }

  class PersistentCache {
    const config: Config
    const crc: Crc.Table
    var disk: map<Addr, File>
    var stuck: set<Addr>
    var total: u64
    var stats: Stats

    ghost function St(): State
      reads this
    {
      State(disk, stuck, total, stats)
    }

    ghost predicate Valid()
      reads this, crc, crc.entries
    {
      crc.Valid()
    }

    /** Opening counts the directory if asked and cleans it up if asked. */
    constructor (config: Config, disk: map<Addr, File>, stuck: set<Addr>, load: bool, listing: seq<Info>)
      requires Lists(listing, disk) && |listing| <= LISTING_LIMIT
      ensures Valid() && fresh(crc) && fresh(crc.entries) && this.config == config
      ensures if config.autoCleanup
              then exists order :: Ordered(Opened(disk, stuck, load), config, config.maxSize / 2, order) &&
                                   St() == PcacheSpec.Cleanup(Opened(disk, stuck, load), config, config.maxSize / 2, order).0
              else St() == Opened(disk, stuck, load)
    {
      this.config := config;
      this.crc := new Crc.Table();
      this.disk, this.stuck := disk, stuck;
      this.total := 0;
      this.stats := Stats(0, 0, 0, 0, 0);
      new;
      if load {
        RebuildIndex(listing);
      }
      ghost var begun := St();
      assert begun == Opened(disk, stuck, load);
      if config.autoCleanup {
        hide Lists, OldestFirst, Opened, PcacheSpec.Cleanup;
        var _, order := Cleanup(config.maxSize / 2, listing);
        assert Ordered(begun, config, config.maxSize / 2, order);
      }
    }

    /** The checksum of a block, as the number a header holds. */
    method Hash(data: seq<byte>) returns (hash: u32)
      requires Valid()
      modifies crc, crc.entries
      ensures Valid() && hash == Checksum(data)
    {
      var h := crc.ComputeHash(data);
      hash := Numeral(h);
    }

    method ValidateHeader(content: seq<byte>) returns (error: Option<Error>)
      requires Valid() && |content| >= HEADER
      modifies crc, crc.entries
      ensures Valid() && error == Validate(content) && error in {None, Some(Corrupt), Some(VersionMismatch)}
    {
      hide Checksum, Field;
      if Field(content, 0, 4) != MAGIC {
        return Some(Corrupt);
      }
      if Field(content, 4, 4) != VERSION {
        return Some(VersionMismatch);
      }
      var sum := Hash(content[..BODY]);
      if sum != Field(content, BODY, 4) {
        return Some(Corrupt);
      }
      return None;
    }

    method Lookup(addr: Addr, arm: seq<byte>, flags: u32, allocOk: bool, now: int) returns (o: Outcome)
      requires Valid()
      modifies `disk, `stats, crc, crc.entries
      ensures Valid() && (St(), o) == PcacheSpec.Lookup(old(St()), config, addr, arm, flags, allocOk, now)
    {
      hide Checksum, Field, Validate, ArmHash, FlagsOf, X86Size;
      if !config.enabled {
        return Fails(NotFound);
      }
      if addr !in disk {
        Miss();
        return Fails(NotFound);
      }
      var content := disk[addr].content;
      if |content| < HEADER {
        Miss();
        return Fails(Corrupt);
      }
      var bad := ValidateHeader(content);
      if bad.Some? {
        Miss();
        return Fails(bad.value);
      }
      if config.verifyHash {
        var hash := Hash(arm);
        if hash != ArmHash(content) {
          Miss();
          disk := Unlinked(disk, stuck, addr);
          return Fails(HashMismatch);
        }
      }
      if FlagsOf(content) != flags {
        Miss();
        return Fails(NotFound);
      }
      if !allocOk {
        return Fails(NoMemory);
      }
      if |content| - HEADER < X86Size(content) {
        return Fails(Corrupt);
      }
      disk := disk[addr := File(content, now)];
      stats := stats.(hits := Plus(stats.hits, 1));
      return Code(content[HEADER..HEADER + X86Size(content)]);
    }

    method Miss()
      modifies `stats
      ensures stats == old(stats).(misses := Plus(old(stats).misses, 1))
    {
      stats := stats.(misses := Plus(stats.misses, 1));
    }

    method Store(addr: Addr, arm: seq<byte>, x86: seq<byte>, flags: u32, now: u64, listing: seq<Info>, ioOk: bool)
        returns (error: Option<Error>, ghost order: seq<Info>)
      requires Valid() && |arm| < TWO64 && |x86| < TWO64
      requires Lists(listing, disk) && |listing| <= LISTING_LIMIT
      modifies `disk, `total, `stats, crc, crc.entries
      ensures Valid()
      ensures ListingFits(old(St()), config, |x86|, order)
      ensures (St(), error) == PcacheSpec.Store(old(St()), config, addr, arm, x86, flags, now, order, ioOk)
    {
      hide Checksum, Lists, OldestFirst, FileBytes, PcacheSpec.Cleanup;
      order := [];
      if !config.enabled {
        return None, order;
      }
      if |x86| > config.maxEntrySize {
        return Some(InvalidArg), order;
      }
      if (total + |x86|) % TWO64 > config.maxSize {
        if config.autoCleanup {
          var _, o := Cleanup(config.maxSize / 2, listing);
          order := o;
        } else {
          return Some(Full), order;
        }
      }
      if addr in disk {
        return Some(AlreadyExists), order;
      }
      if !ioOk {
        return Some(Io), order;
      }
      Write(addr, arm, x86, flags, now);
      return None, order;
    }

    /** Writes the header and the code, and counts them. */
    method Write(addr: Addr, arm: seq<byte>, x86: seq<byte>, flags: u32, now: u64)
      requires Valid() && |arm| < TWO64 && |x86| < TWO64
      modifies `disk, `total, `stats, crc, crc.entries
      ensures Valid() && St() == Written(old(St()), addr, arm, x86, flags, now)
    {
      hide Checksum, Encode, Body;
      var armHash := Hash(arm);
      var x86Hash := Hash(x86);
      var h := Header(addr, armHash, x86Hash, |arm|, |x86|, now, flags);
      var sum := Hash(Body(h));
      disk := disk[addr := File(Body(h) + Encode(sum, 4) + x86, now)];
      total := Plus(total, HEADER + |x86|);
      stats := stats.(entries := Plus(stats.entries, 1), stores := Plus(stats.stores, 1));
    }

    /** Removes the files longest unused until the total is at most the target. */
    method Cleanup(target: u64, listing: seq<Info>) returns (removed: nat, ghost order: seq<Info>)
      requires Lists(listing, disk) && |listing| <= LISTING_LIMIT
      modifies `disk, `total, `stats
      ensures Ordered(old(St()), config, target, order)
      ensures (St(), removed) == PcacheSpec.Cleanup(old(St()), config, target, order)
    {
      hide Lists, OldestFirst;
      var goal := TargetOf(config, target);
      removed := 0;
      if total <= goal {
        order := [];
        return;
      }
      var entries := ReadDirectory(listing);
      var count := |listing|;
      SortByTime(entries, count);
      order := entries[..count];
      SortedListing(listing, order, disk);
      removed := RemoveOldest(entries, count, goal);
      stats := stats.(entries := Plus(stats.entries, 0 - removed), evictions := Plus(stats.evictions, removed));
    }

    method RemoveOldest(entries: array<Info>, count: nat, goal: u64) returns (removed: nat)
      requires count <= entries.Length
      modifies `disk, `total
      ensures (disk, total, removed) == Trim(old(disk), old(total), Free(entries[..count], stuck), goal)
    {
      ghost var order := entries[..count];
      var current := total;
      removed := 0;
      var i := 0;
      assert order[0..] == order;
      while i < count && current > goal
        invariant 0 <= i <= count && entries[..count] == order
        invariant 0 <= current < TWO64
        invariant Trim(old(disk), old(total), Free(order, stuck), goal) == Resumed(Trim(disk, current, Free(order[i..], stuck), goal), removed)
      {
        var e := entries[i];
        assert e == order[i] && order[i..][1..] == order[i + 1..];
        if e.addr !in stuck {
          disk := disk - {e.addr};
          current := (current - e.size) % TWO64;
          removed := removed + 1;
        }
        i := i + 1;
      }
      total := current;
    }

    static method ReadDirectory(listing: seq<Info>) returns (entries: array<Info>)
      requires |listing| <= LISTING_LIMIT
      ensures fresh(entries) && entries.Length == LISTING_LIMIT && entries[..|listing|] == listing
    {
      entries := new Info[LISTING_LIMIT];
      for n := 0 to |listing|
        invariant entries[..n] == listing[..n]
      {
        entries[n] := listing[n];
      }
    }

    method RebuildIndex(listing: seq<Info>)
      requires Lists(listing, disk)
      modifies `total, `stats
      ensures St() == Rebuild(old(St()))
    {
      ListingSums(listing, disk);
      hide SumSizes, Lists, Addrs, Plus;
      PlusZero(total);
      PlusZero(stats.entries);
      for i := 0 to |listing|
        invariant disk == old(disk)
        invariant total == Plus(old(total), SumOf(listing[..i]))
        invariant stats == old(stats).(entries := Plus(old(stats).entries, i))
      {
        SumOfNext(listing, i);
        PlusAgain(old(total), SumOf(listing[..i]), listing[i].size);
        PlusAgain(old(stats).entries, i, 1);
        total := Plus(total, listing[i].size);
        stats := stats.(entries := Plus(stats.entries, 1));
      }
      assert listing[..|listing|] == listing;
    }

    static lemma {:induction false} SumOfNext(listing: seq<Info>, i: nat)
      requires i < |listing|
      ensures SumOf(listing[..i + 1]) == SumOf(listing[..i]) + listing[i].size
    {
      if i == 0 {
        assert listing[..1][1..] == [];
      } else {
        assert listing[..i + 1][1..] == listing[1..][..i] && listing[..i][1..] == listing[1..][..i - 1];
        SumOfNext(listing[1..], i - 1);
      }
    }

    static lemma PlusZero(x: u64)
      ensures Plus(x, 0) == x
    {
    }

    static lemma PlusAgain(x: u64, d: int, e: int)
      ensures Plus(Plus(x, d), e) == Plus(x, d + e)
    {
      WrapAdd(x + d, e);
    }

    method Invalidate(addr: Addr) returns (error: Option<Error>)
      modifies `disk, `total, `stats
      ensures (St(), error) == PcacheSpec.Invalidate(old(St()), addr)
    {
      if addr in disk {
        total := Plus(total, 0 - |disk[addr].content|);
        stats := stats.(entries := Plus(stats.entries, -1));
      }
      if addr !in disk || addr in stuck {
        return Some(NotFound);
      }
      disk := Unlinked(disk, stuck, addr);
      return None;
    }

    method InvalidateAll()
      modifies `disk, `total, `stats
      ensures St() == PcacheSpec.InvalidateAll(old(St()))
    {
      disk := Remains(disk, stuck);
      total := 0;
      stats := stats.(entries := 0);
      stats := stats.(evictions := Plus(stats.evictions, stats.entries));
    }
  }

  /** The trimming of a rest, after `n` files have been removed already. */
  ghost function Resumed(r: (map<Addr, File>, u64, nat), n: nat): (map<Addr, File>, u64, nat) {
    (r.0, r.1, r.2 + n)
  }
}
