/**
  The persistent translation cache, on values: a directory of entry files, the
  bytes in them, and the accounting kept beside it.
 */
module PcacheSpec {
  import opened Words
  import opened Sequences
  import opened LittleEndian
  import Crc

  type Addr = u64

  const MAGIC: u32 := 0x5854504A
  const VERSION: u32 := 0x0100_0000
  const BODY: nat := 92
  const HEADER: nat := 96
  const LISTING_LIMIT: nat := 1000

  datatype Error =
    | InvalidArg | NoMemory | Io | Corrupt | VersionMismatch | HashMismatch | NotFound | AlreadyExists | Full

  datatype Config = Config(enabled: bool, verifyHash: bool, autoCleanup: bool, maxSize: u64, maxEntrySize: u64)

  datatype File = File(content: seq<byte>, accessTime: int)

  datatype Stats = Stats(entries: u64, hits: u64, misses: u64, stores: u64, evictions: u64)

  /** The files of the directory by guest address, those that cannot be removed, the recorded total size, and the counters. */
  datatype State = State(disk: map<Addr, File>, stuck: set<Addr>, total: u64, stats: Stats)

  function Plus(x: u64, d: int): u64 {
    (x + d) % TWO64
  }

  // ---- the bytes of an entry file

  function Checksum(data: seq<byte>): (c: u32)
  {
    Numeral(Crc.Crc32(data))
  }

  function Numeral(x: bv32): u32 {
    x as nat
  }

  lemma NumeralInjective(x: bv32, y: bv32)
    ensures Numeral(x) == Numeral(y) ==> x == y
  {
    NumeralBack(x);
    NumeralBack(y);
    hide Numeral;
  }

  lemma NumeralBack(x: bv32)
    ensures Numeral(x) as bv32 == x
  {
  }

  datatype Header = Header(
    armAddr: Addr, armHash: u32, x86Hash: u32, armSize: u64, x86Size: u64, timestamp: u64, flags: u32)

  /** The first fields, up to the sizes. */
  function Front(h: Header): (r: seq<byte>)
    ensures |r| == 32
  {
    Encode(MAGIC, 4) + Encode(VERSION, 4) + Encode(h.armAddr, 8) + Encode(h.armHash, 4) + Encode(h.x86Hash, 4) + Encode(h.armSize, 8)
  }

  /** The compressed size is 0, the access count 1 and the last access the time of writing. */
  function Middle(h: Header): (r: seq<byte>)
    ensures |r| == 40
  {
    Encode(h.x86Size, 8) + Encode(0, 8) + Encode(h.timestamp, 8) + Encode(1, 8) + Encode(h.timestamp, 8)
  }

  /** Flags, the architecture 64, no compression, and the reserved bytes. */
  function Back(h: Header): (r: seq<byte>)
    ensures |r| == 20
  {
    Encode(h.flags, 4) + Encode(64, 1) + Encode(0, 1) + Encode(0, 14)
  }

  function Body(h: Header): (r: seq<byte>)
    ensures |r| == BODY
  {
    Front(h) + Middle(h) + Back(h)
  }

  function HeaderFor(addr: Addr, arm: seq<byte>, x86: seq<byte>, flags: u32, now: u64): Header
    requires |arm| < TWO64 && |x86| < TWO64
  {
    Header(addr, Checksum(arm), Checksum(x86), |arm|, |x86|, now, flags)
  }

  /** What a store writes. */
  function FileBytes(h: Header, x86: seq<byte>): (r: seq<byte>)
    ensures |r| == HEADER + |x86|
  {
    Body(h) + Encode(Checksum(Body(h)), 4) + x86
  }

  function Field(content: seq<byte>, at: nat, n: nat): nat
    requires at + n <= |content|
  {
    Decode(content[at..at + n])
  }

  function Validate(content: seq<byte>): Option<Error>
    requires |content| >= HEADER
  {
    if Field(content, 0, 4) != MAGIC then Some(Corrupt)
    else if Field(content, 4, 4) != VERSION then Some(VersionMismatch)
    else if Checksum(content[..BODY]) != Field(content, BODY, 4) then Some(Corrupt)
    else None
  }

  function ArmHash(content: seq<byte>): nat requires |content| >= HEADER { Field(content, 16, 4) }
  function X86Size(content: seq<byte>): nat requires |content| >= HEADER { Field(content, 32, 8) }
  function FlagsOf(content: seq<byte>): nat requires |content| >= HEADER { Field(content, 72, 4) }

  // ---- reading back what was written

  lemma FieldAt(content: seq<byte>, before: seq<byte>, x: nat, n: nat, after: seq<byte>)
    requires content == before + Encode(x, n) + after && x < Bound(n)
    ensures Field(content, |before|, n) == x
  {
    assert content[|before|..|before| + n] == Encode(x, n);
    DecodeEncode(x, n);
  }

  /** A stored header validates, and its fields read back as they were written. */
  lemma StoredFileReadsBack(h: Header, x86: seq<byte>)
    ensures var c := FileBytes(h, x86);
            && Validate(c) == None
            && ArmHash(c) == h.armHash && X86Size(c) == h.x86Size && FlagsOf(c) == h.flags
            && c[HEADER..] == x86
  {
    hide Encode, Checksum, Decode;
    Bounds();
    var c := FileBytes(h, x86);
    var tail := Encode(Checksum(Body(h)), 4) + x86;
    assert c == Body(h) + tail && c[..BODY] == Body(h);
    FrontFields(h, c, Middle(h) + Back(h) + tail);
    var m := Encode(0, 8) + Encode(h.timestamp, 8) + Encode(1, 8) + Encode(h.timestamp, 8);
    assert c == Front(h) + Encode(h.x86Size, 8) + (m + Back(h) + tail);
    FieldAt(c, Front(h), h.x86Size, 8, m + Back(h) + tail);
    var b := Encode(64, 1) + Encode(0, 1) + Encode(0, 14);
    assert c == (Front(h) + Middle(h)) + Encode(h.flags, 4) + (b + tail);
    FieldAt(c, Front(h) + Middle(h), h.flags, 4, b + tail);
    FieldAt(c, Body(h), Checksum(Body(h)), 4, x86);
  }

  lemma FrontFields(h: Header, c: seq<byte>, rest: seq<byte>)
    requires c == Front(h) + rest
    ensures Field(c, 0, 4) == MAGIC && Field(c, 4, 4) == VERSION && Field(c, 16, 4) == h.armHash
  {
    hide Encode, Decode, Field, Front;
    Bounds();
    var ver, addr, hash := Encode(VERSION, 4), Encode(h.armAddr, 8), Encode(h.armHash, 4);
    var back := Encode(h.x86Hash, 4) + Encode(h.armSize, 8);
    FrontJoins(h);
    Regroup(Encode(MAGIC, 4), ver, addr, hash, back, rest);
    FieldAt(c, [], MAGIC, 4, ver + addr + hash + back + rest);
    FieldAt(c, Encode(MAGIC, 4), VERSION, 4, addr + hash + back + rest);
    FieldAt(c, Encode(MAGIC, 4) + ver + addr, h.armHash, 4, back + rest);
  }

  lemma FrontJoins(h: Header)
    ensures Front(h) == Encode(MAGIC, 4) + Encode(VERSION, 4) + Encode(h.armAddr, 8) + Encode(h.armHash, 4) + (Encode(h.x86Hash, 4) + Encode(h.armSize, 8))
  {
    hide Encode;
  }

  lemma Regroup(a: seq<byte>, b: seq<byte>, c: seq<byte>, d: seq<byte>, e: seq<byte>, rest: seq<byte>)
    ensures var all := a + b + c + d + e + rest;
            && all == [] + a + (b + c + d + e + rest) && all == a + b + (c + d + e + rest) && all == (a + b + c) + d + (e + rest)
  {
  }

  // ---- looking up

  datatype Outcome = Code(x86: seq<byte>) | Fails(error: Error)

  /** The checks of a lookup in their order, on the bytes of the file. */
  function Read(config: Config, content: seq<byte>, arm: seq<byte>, flags: u32, allocOk: bool): Outcome {
    if |content| < HEADER then Fails(Corrupt)
    else if Validate(content).Some? then Fails(Validate(content).value)
    else if config.verifyHash && Checksum(arm) != ArmHash(content) then Fails(HashMismatch)
    else if FlagsOf(content) != flags then Fails(NotFound)
    else if !allocOk then Fails(NoMemory)
    else if |content| - HEADER < X86Size(content) then Fails(Corrupt)
    else Code(content[HEADER..HEADER + X86Size(content)])
  }

  function CountLookup(stats: Stats, o: Outcome, readable: bool): Stats {
    if o.Code? then stats.(hits := Plus(stats.hits, 1))
    else if o == Fails(NoMemory) || readable then stats
    else stats.(misses := Plus(stats.misses, 1))
  }

  /** A short code section is reported after the counters' place, without counting. */
  ghost predicate Truncated(config: Config, content: seq<byte>, arm: seq<byte>, flags: u32) {
    && |content| >= HEADER && Validate(content).None?
    && (config.verifyHash ==> Checksum(arm) == ArmHash(content)) && FlagsOf(content) == flags
    && |content| - HEADER < X86Size(content)
  }

  /** Removing a file has no effect if the system refuses it. */
  function Unlinked(disk: map<Addr, File>, stuck: set<Addr>, addr: Addr): map<Addr, File> {
    if addr in stuck then disk else disk - {addr}
  }

  ghost function Lookup(s: State, config: Config, addr: Addr, arm: seq<byte>, flags: u32, allocOk: bool,
      now: int): (State, Outcome) {
    if !config.enabled then (s, Fails(NotFound))
    else if addr !in s.disk then (s.(stats := CountLookup(s.stats, Fails(NotFound), false)), Fails(NotFound))
    else
      var content := s.disk[addr].content;
      var o := Read(config, content, arm, flags, allocOk);
      var stats := CountLookup(s.stats, o, Truncated(config, content, arm, flags));
      (s.(stats := stats,
          disk := if o == Fails(HashMismatch) then Unlinked(s.disk, s.stuck, addr)
                  else if o.Code? then s.disk[addr := File(content, now)] else s.disk), o)
  }

  // ---- cleaning up

  datatype Info = Info(addr: Addr, time: int, size: nat)

  function InfoOf(disk: map<Addr, File>, addr: Addr): Info
    requires addr in disk
  {
    Info(addr, disk[addr].accessTime, |disk[addr].content|)
  }

  /** `order` lists every file of the directory once, the longest unused first. */
  ghost predicate OldestFirst(order: seq<Info>, disk: map<Addr, File>) {
    && NoDup(order)
    && (forall x :: x in order <==> x.addr in disk && x == InfoOf(disk, x.addr))
    && (forall i, j :: 0 <= i < j < |order| ==> order[i].time <= order[j].time)
  }

  /** Removes files from the front of the list until the total is at most the target. */
  ghost function Trim(disk: map<Addr, File>, total: u64, order: seq<Info>, target: u64): (map<Addr, File>, u64, nat)
    decreases |order|
  {
    if order == [] || total <= target then (disk, total, 0)
    else
      var (d, t, n) := Trim(disk - {order[0].addr}, (total - order[0].size) % TWO64, order[1..], target);
      (d, t, n + 1)
  }

  /** The files of a listing that can be removed. */
  ghost function Free(order: seq<Info>, stuck: set<Addr>): seq<Info> {
    if order == [] then []
    else if order[0].addr in stuck then Free(order[1..], stuck) else [order[0]] + Free(order[1..], stuck)
  }

  function TargetOf(config: Config, target: u64): u64 {
    if target == 0 then config.maxSize / 2 else target
  }

  /** A cleanup that has something to do works through a full listing, oldest first. */
  ghost predicate Ordered(s: State, config: Config, target: u64, order: seq<Info>) {
    s.total > TargetOf(config, target) ==> OldestFirst(order, s.disk)
  }

  ghost function Cleanup(s: State, config: Config, target: u64, order: seq<Info>): (State, nat) {
    var goal := TargetOf(config, target);
    if s.total <= goal then (s, 0)
    else
      var (disk, total, removed) := Trim(s.disk, s.total, Free(order, s.stuck), goal);
      (State(disk, s.stuck, total, s.stats.(entries := Plus(s.stats.entries, 0 - removed), evictions := Plus(s.stats.evictions, removed))), removed)
  }

  // ---- storing, rebuilding, invalidating

  ghost function Written(s: State, addr: Addr, arm: seq<byte>, x86: seq<byte>, flags: u32, now: u64): State
    requires |arm| < TWO64 && |x86| < TWO64
  {
    State(s.disk[addr := File(FileBytes(HeaderFor(addr, arm, x86, flags, now), x86), now)], s.stuck,
          Plus(s.total, HEADER + |x86|),
          s.stats.(entries := Plus(s.stats.entries, 1), stores := Plus(s.stats.stores, 1)))
  }

  /** The limit is tested with the code size alone, and only then are files removed. */
  ghost predicate OverLimit(s: State, config: Config, size: nat) {
    (s.total + size) % TWO64 > config.maxSize
  }

  /** If the store has to clean up, the listing it works through is in order. */
  ghost predicate ListingFits(s: State, config: Config, size: nat, order: seq<Info>) {
    config.enabled && size <= config.maxEntrySize && OverLimit(s, config, size) && config.autoCleanup
    ==> Ordered(s, config, config.maxSize / 2, order)
  }

  ghost function Store(s: State, config: Config, addr: Addr, arm: seq<byte>, x86: seq<byte>, flags: u32, now: u64,
      order: seq<Info>, ioOk: bool)
      : (State, Option<Error>)
    requires |arm| < TWO64 && |x86| < TWO64
  {
    if !config.enabled then (s, None)
    else if |x86| > config.maxEntrySize then (s, Some(InvalidArg))
    else if OverLimit(s, config, |x86|) && !config.autoCleanup then (s, Some(Full))
    else
      var t := if OverLimit(s, config, |x86|) then Cleanup(s, config, config.maxSize / 2, order).0 else s;
      if addr in t.disk then (t, Some(AlreadyExists))
      else if !ioOk then (t, Some(Io))
      else (Written(t, addr, arm, x86, flags, now), None)
  }

  ghost function SumSizes(disk: map<Addr, File>): nat
    decreases disk
  {
    if disk == map[] then 0
    else
      var a :| a in disk;
      |disk[a].content| + SumSizes(disk - {a})
  }

  /** Adds every file to the totals, whatever they already hold. */
  ghost function Rebuild(s: State): State {
    s.(total := Plus(s.total, SumSizes(s.disk)), stats := s.stats.(entries := Plus(s.stats.entries, |s.disk|)))
  }

  /** A fresh cache over a directory: the totals start from zero and the directory is counted only if asked. */
  ghost function Opened(disk: map<Addr, File>, stuck: set<Addr>, load: bool): State {
    var s := State(disk, stuck, 0, Stats(0, 0, 0, 0, 0));
    if load then Rebuild(s) else s
  }

  /** The size is taken off before the file is removed, and stays off when that fails. */
  ghost function Invalidate(s: State, addr: Addr): (State, Option<Error>) {
    if addr !in s.disk then (s, Some(NotFound))
    else
      (State(Unlinked(s.disk, s.stuck, addr), s.stuck, Plus(s.total, 0 - |s.disk[addr].content|),
             s.stats.(entries := Plus(s.stats.entries, -1))),
       if addr in s.stuck then Some(NotFound) else None)
  }

  /** The files that are left when all that can be removed are. */
  function Remains(disk: map<Addr, File>, stuck: set<Addr>): map<Addr, File> {
    map a | a in disk && a in stuck :: disk[a]
  }

  /** The entry counter is cleared before it is added to the evictions. */
  ghost function InvalidateAll(s: State): State {
    State(Remains(s.disk, s.stuck), s.stuck, 0, s.stats.(entries := 0))
  }

  // ---- sums over the directory

  lemma {:induction false} SumRemove(disk: map<Addr, File>, a: Addr)
    requires a in disk
    ensures SumSizes(disk) == |disk[a].content| + SumSizes(disk - {a})
    decreases disk
  {
    var b :| b in disk && SumSizes(disk) == |disk[b].content| + SumSizes(disk - {b});
    if a != b {
      SumRemove(disk - {b}, a);
      SumRemove(disk - {a}, b);
      assert disk - {a} - {b} == disk - {b} - {a};
    }
  }

  lemma SumAdd(disk: map<Addr, File>, a: Addr, f: File)
    requires a !in disk
    ensures SumSizes(disk[a := f]) == SumSizes(disk) + |f.content|
  {
    SumRemove(disk[a := f], a);
    assert disk[a := f] - {a} == disk;
  }

  lemma SumTouch(disk: map<Addr, File>, a: Addr, f: File)
    requires a in disk && f.content == disk[a].content
    ensures SumSizes(disk[a := f]) == SumSizes(disk)
  {
    SumRemove(disk[a := f], a);
    SumRemove(disk, a);
    assert disk[a := f] - {a} == disk - {a};
  }

  // ---- accounting

  /** The recorded total covers the files. */
  ghost predicate Covers(s: State) {
    SumSizes(s.disk) <= s.total
  }

  lemma LookupKeepsCovers(s: State, config: Config, addr: Addr, arm: seq<byte>, flags: u32, allocOk: bool, now: int)
    requires Covers(s)
    ensures var (t, o) := Lookup(s, config, addr, arm, flags, allocOk, now);
            Covers(t) && t.total == s.total && (o != Fails(HashMismatch) ==> SumSizes(t.disk) == SumSizes(s.disk))
  {
    hide Read, Checksum;
    if config.enabled && addr in s.disk {
      SumTouch(s.disk, addr, File(s.disk[addr].content, now));
      SumRemove(s.disk, addr);
    }
  }

  /** An invalidation lowers total and files alike, except for the size of a file that cannot be removed. */
  lemma InvalidateKeepsCovers(s: State, addr: Addr)
    requires Covers(s)
    ensures var t := Invalidate(s, addr).0;
            t.total - SumSizes(t.disk)
            == s.total - SumSizes(s.disk) - if addr in s.disk && addr in s.stuck then |s.disk[addr].content| else 0
  {
    if addr in s.disk {
      SumRemove(s.disk, addr);
    }
  }

  /** No bytes are left exactly when every file is empty. */
  lemma NoBytesIff(disk: map<Addr, File>)
    ensures SumSizes(disk) == 0 <==> forall a :: a in disk ==> disk[a].content == []
    decreases disk
  {
    if a :| a in disk && disk[a].content != [] {
      SumRemove(disk, a);
    } else if disk != map[] {
      var a :| a in disk;
      SumRemove(disk, a);
      NoBytesIff(disk - {a});
    }
  }

  /** Every file named in `order` is there, with its size. */
  ghost predicate Listed(order: seq<Info>, disk: map<Addr, File>) {
    && (forall i, j :: 0 <= i < j < |order| ==> order[i].addr != order[j].addr)
    && (forall i :: 0 <= i < |order| ==> order[i].addr in disk && order[i].size == |disk[order[i].addr].content|)
  }

  lemma OldestFirstIsListed(order: seq<Info>, disk: map<Addr, File>)
    requires OldestFirst(order, disk)
    ensures Listed(order, disk)
  {
    assert forall i :: 0 <= i < |order| ==> order[i] in order;
  }

  /** The removable files of a listing are a listing still. */
  lemma {:induction false} FreeIsListed(order: seq<Info>, stuck: set<Addr>, disk: map<Addr, File>)
    requires Listed(order, disk)
    ensures Listed(Free(order, stuck), disk)
    ensures forall x :: x in Free(order, stuck) <==> x in order && x.addr !in stuck
  {
    if order != [] {
      var rest := order[1..];
      assert order == [order[0]] + rest;
      assert forall i :: 0 <= i < |rest| ==> rest[i] == order[i + 1];
      FreeIsListed(rest, stuck, disk);
      var free := Free(rest, stuck);
      forall i | 0 <= i < |free|
        ensures free[i].addr != order[0].addr
      {
        assert free[i] in free && free[i] in rest;
      }
    }
  }

  /** In the same order. */
  lemma {:induction false} FreeKeepsOrder(order: seq<Info>, stuck: set<Addr>)
    requires forall i, j :: 0 <= i < j < |order| ==> order[i].time <= order[j].time
    ensures var free := Free(order, stuck);
            && (forall x :: x in free ==> x in order)
            && forall i, j :: 0 <= i < j < |free| ==> free[i].time <= free[j].time
  {
    if order != [] {
      FreeKeepsOrder(order[1..], stuck);
      var free := Free(order[1..], stuck);
      forall j | 0 <= j < |free|
        ensures order[0].time <= free[j].time
      {
        assert free[j] in order[1..];
        var k :| 0 <= k < |order[1..]| && order[1..][k] == free[j];
        assert order[k + 1] == free[j];
      }
    }
  }

  ghost function SumOf(order: seq<Info>): nat {
    if order == [] then 0 else order[0].size + SumOf(order[1..])
  }

  ghost function Addrs(order: seq<Info>): set<Addr> {
    set x | x in order :: x.addr
  }

  lemma ListedRest(order: seq<Info>, disk: map<Addr, File>)
    requires Listed(order, disk) && order != []
    ensures Listed(order[1..], disk - {order[0].addr})
  {
    var x, rest := order[0], order[1..];
    forall i | 0 <= i < |rest|
      ensures rest[i].addr in disk - {x.addr} && rest[i].size == |(disk - {x.addr})[rest[i].addr].content|
    {
      assert rest[i] == order[i + 1];
    }
  }

  lemma PrefixFacts(order: seq<Info>, n: nat, disk: map<Addr, File>)
    requires order != [] && n < |order|
    ensures disk - Addrs(order[..n + 1]) == disk - {order[0].addr} - Addrs(order[1..][..n])
    ensures SumOf(order[..n + 1]) == order[0].size + SumOf(order[1..][..n])
  {
    assert order[..n + 1] == [order[0]] + order[1..][..n];
    assert order[..n + 1][1..] == order[1..][..n];
  }

  /**
    Trimming removes a prefix of the list; nothing underflows and the total stays
    as far above the files as it was.
   */
  lemma {:induction false} TrimRemovesPrefix(disk: map<Addr, File>, total: u64, order: seq<Info>, target: u64)
    requires Listed(order, disk) && SumSizes(disk) <= total
    ensures var (d, t, n) := Trim(disk, total, order, target);
            && n <= |order| && d == disk - Addrs(order[..n])
            && t == total - SumOf(order[..n]) && t - SumSizes(d) == total - SumSizes(disk)
    decreases |order|
  {
    hide SumSizes;
    if order == [] || total <= target {
      assert order[..0] == [] && disk - Addrs([]) == disk;
    } else {
      SumRemove(disk, order[0].addr);
      ListedRest(order, disk);
      var disk', total', rest := disk - {order[0].addr}, total - order[0].size, order[1..];
      TrimRemovesPrefix(disk', total', rest, target);
      var (d, t, n) := Trim(disk', total', rest, target);
      PrefixFacts(order, n, disk);
    }
  }

  /** The prefix is the shortest one that brings the total down to the target, or the whole list. */
  lemma {:induction false} TrimStopsInTime(disk: map<Addr, File>, total: u64, order: seq<Info>, target: u64)
    requires Listed(order, disk) && SumSizes(disk) <= total
    ensures var (d, t, n) := Trim(disk, total, order, target);
            (t <= target || n == |order|) && (forall k :: 0 <= k < n && k <= |order| ==> total - SumOf(order[..k]) > target)
    decreases |order|
  {
    hide SumSizes;
    if order != [] && total > target {
      SumRemove(disk, order[0].addr);
      ListedRest(order, disk);
      var disk', total', rest := disk - {order[0].addr}, total - order[0].size, order[1..];
      TrimStopsInTime(disk', total', rest, target);
      var (d, t, n) := Trim(disk', total', rest, target);
      forall k | 0 <= k < n + 1 && k <= |order|
        ensures total - SumOf(order[..k]) > target
      {
        if k > 0 {
          PrefixFacts(order, k - 1, disk);
        }
      }
    }
  }
}
