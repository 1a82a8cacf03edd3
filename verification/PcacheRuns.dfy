/** What holds of the persistent cache over whole runs of its operations. */
module PcacheRuns {
  import opened Words
  import opened PcacheSpec
  import Crc

  // ---- cleaning up

  /** A listing names every file, so only files that cannot be removed are left behind its removable ones. */
  lemma OrderCoversDisk(order: seq<Info>, disk: map<Addr, File>, stuck: set<Addr>)
    requires OldestFirst(order, disk)
    ensures forall a :: a in disk - Addrs(Free(order, stuck)) ==> a in stuck
  {
    OldestFirstIsListed(order, disk);
    FreeIsListed(order, stuck, disk);
    forall a | a in disk && a !in stuck
      ensures a in Addrs(Free(order, stuck))
    {
      assert InfoOf(disk, a) in Free(order, stuck);
    }
  }

  /**
    A cleanup that is needed removes the shortest prefix of the removable files, the
    longest unused first, that brings the recorded total to the target; it ends at or
    under the target or with no removable file left.
   */
  lemma CleanupRemovesOldest(s: State, config: Config, target: u64, order: seq<Info>)
    requires Covers(s) && Ordered(s, config, target, order)
    ensures var goal := TargetOf(config, target);
            var (t, n) := Cleanup(s, config, target, order);
            var free := Free(order, s.stuck);
            && n <= |free| && t.disk == s.disk - Addrs(free[..n]) && t.total == s.total - SumOf(free[..n])
            && (t.total <= goal || forall a :: a in t.disk ==> a in s.stuck)
            && (forall k :: 0 <= k < n ==> s.total - SumOf(free[..k]) > goal)
            && (s.total > goal ==> forall i, j :: 0 <= i < j < |free| ==> free[i].time <= free[j].time)
    ensures var t := Cleanup(s, config, target, order).0;
            Covers(t) && t.total - SumSizes(t.disk) == s.total - SumSizes(s.disk)
  {
    hide SumSizes, OldestFirst, Free;
    var goal := TargetOf(config, target);
    var free := Free(order, s.stuck);
    assert free[..0] == [] && s.disk - Addrs([]) == s.disk;
    if s.total > goal {
      OldestFirstIsListed(order, s.disk);
      FreeIsListed(order, s.stuck, s.disk);
      OldestFirstStays(order, s.stuck, s.disk);
      TrimRemovesPrefix(s.disk, s.total, free, goal);
      TrimStopsInTime(s.disk, s.total, free, goal);
      OrderCoversDisk(order, s.disk, s.stuck);
      assert free[..|free|] == free;
    }
  }

  lemma OldestFirstStays(order: seq<Info>, stuck: set<Addr>, disk: map<Addr, File>)
    requires OldestFirst(order, disk)
    ensures var free := Free(order, stuck); forall i, j :: 0 <= i < j < |free| ==> free[i].time <= free[j].time
  {
    FreeKeepsOrder(order, stuck);
  }

  // ---- accounting over runs

  datatype Op =
    | DoLookup(addr: Addr, arm: seq<byte>, flags: u32, allocOk: bool, now: int)
    | DoStore(addr: Addr, arm: seq<byte>, x86: seq<byte>, flags: u32, time: u64, order: seq<Info>, ioOk: bool)
    | DoCleanup(target: u64, order: seq<Info>)
    | DoInvalidate(addr: Addr)
    | DoInvalidateAll
    | DoChangeRights(stuck: set<Addr>)

  /** Listings are real, sizes are 64-bit, and the recorded total does not wrap. */
  ghost predicate Allowed(s: State, config: Config, op: Op) {
    match op
    case DoStore(addr, arm, x86, flags, time, order, ioOk) =>
      && |arm| < TWO64 && |x86| < TWO64 && s.total + HEADER + |x86| < TWO64
      && ListingFits(s, config, |x86|, order)
    case DoCleanup(target, order) => Ordered(s, config, target, order)
    case _ => true
  }

  ghost function Play(s: State, config: Config, op: Op): State
    requires Allowed(s, config, op)
  {
    match op
    case DoLookup(addr, arm, flags, allocOk, now) => Lookup(s, config, addr, arm, flags, allocOk, now).0
    case DoStore(addr, arm, x86, flags, time, order, ioOk) => Store(s, config, addr, arm, x86, flags, time, order, ioOk).0
    case DoCleanup(target, order) => Cleanup(s, config, target, order).0
    case DoInvalidate(addr) => Invalidate(s, addr).0
    case DoInvalidateAll => InvalidateAll(s)
    case DoChangeRights(stuck) => s.(stuck := stuck)
  }

  /** A verifying lookup that finds other code removes the file without telling the total. */
  ghost predicate DropsSilently(s: State, config: Config, op: Op) {
    op.DoLookup? && Lookup(s, config, op.addr, op.arm, op.flags, op.allocOk, op.now).1 == Fails(HashMismatch) && op.addr !in s.stuck
  }

  /** An invalidation takes more off the total than it removes, and more than the total is above the files. */
  ghost predicate Overdraws(s: State, op: Op) {
    || (op.DoInvalidate? && op.addr in s.disk && op.addr in s.stuck && s.total < SumSizes(s.disk) + |s.disk[op.addr].content|)
    || (op.DoInvalidateAll? && exists a :: a in s.disk && a in s.stuck && s.disk[a].content != [])
  }

  ghost predicate Exact(s: State) {
    s.total == SumSizes(s.disk)
  }

  lemma WrittenAccounts(s: State, addr: Addr, arm: seq<byte>, x86: seq<byte>, flags: u32, now: u64)
    requires |arm| < TWO64 && |x86| < TWO64 && addr !in s.disk && s.total + HEADER + |x86| < TWO64
    ensures var t := Written(s, addr, arm, x86, flags, now);
            t.total == s.total + HEADER + |x86| && SumSizes(t.disk) == SumSizes(s.disk) + HEADER + |x86|
  {
    hide FileBytes, HeaderFor;
    SumAdd(s.disk, addr, File(FileBytes(HeaderFor(addr, arm, x86, flags, now), x86), now));
  }

  lemma StoreKeepsCovers(s: State, config: Config, op: Op)
    requires Covers(s) && op.DoStore? && Allowed(s, config, op)
    ensures Covers(Play(s, config, op)) && (Exact(s) ==> Exact(Play(s, config, op)))
  {
    hide SumSizes, OldestFirst, Written, Cleanup;
    var t := if OverLimit(s, config, |op.x86|) then Cleanup(s, config, config.maxSize / 2, op.order).0 else s;
    if config.enabled && |op.x86| <= config.maxEntrySize && (OverLimit(s, config, |op.x86|) ==> config.autoCleanup) {
      if OverLimit(s, config, |op.x86|) {
        CleanupRemovesOldest(s, config, config.maxSize / 2, op.order);
      }
      if op.addr !in t.disk {
        WrittenAccounts(t, op.addr, op.arm, op.x86, op.flags, op.time);
      }
    }
  }

  /** An operation keeps the files covered exactly when it does not take too much off for files that stay. */
  lemma PlayKeepsCovers(s: State, config: Config, op: Op)
    requires Covers(s) && Allowed(s, config, op)
    ensures Covers(Play(s, config, op)) <==> !Overdraws(s, op)
  {
    hide SumSizes, OldestFirst, Lookup, Store, Cleanup, Invalidate;
    match op
    case DoLookup(addr, arm, flags, allocOk, now) => LookupKeepsCovers(s, config, addr, arm, flags, allocOk, now);
    case DoStore(_, _, _, _, _, _, _) => StoreKeepsCovers(s, config, op);
    case DoCleanup(target, order) => CleanupRemovesOldest(s, config, target, order);
    case DoInvalidate(addr) => InvalidateKeepsCovers(s, addr);
    case DoInvalidateAll => NothingRemainsIff(s);
    case DoChangeRights(stuck) =>
  }

  /**
    An operation keeps the total exact exactly when it neither drops a file silently
    nor takes off the size of a file that stays.
   */
  lemma PlayKeepsExactIff(s: State, config: Config, op: Op)
    requires Exact(s) && Allowed(s, config, op)
    ensures Exact(Play(s, config, op)) <==> !DropsSilently(s, config, op) && !Overdraws(s, op)
  {
    hide SumSizes, OldestFirst, Lookup, Store, Cleanup, Invalidate;
    match op
    case DoLookup(addr, arm, flags, allocOk, now) => LookupKeepsExactIff(s, config, addr, arm, flags, allocOk, now);
    case DoStore(_, _, _, _, _, _, _) => StoreKeepsCovers(s, config, op);
    case DoCleanup(target, order) => CleanupRemovesOldest(s, config, target, order);
    case DoInvalidate(addr) => InvalidateKeepsCovers(s, addr);
    case DoInvalidateAll => NothingRemainsIff(s);
    case DoChangeRights(stuck) =>
  }

  lemma NothingRemainsIff(s: State)
    ensures SumSizes(Remains(s.disk, s.stuck)) == 0 <==> !Overdraws(s, DoInvalidateAll)
  {
    var rest := Remains(s.disk, s.stuck);
    NoBytesIff(rest);
    hide SumSizes;
    if a :| a in s.disk && a in s.stuck && s.disk[a].content != [] {
      assert a in rest && rest[a].content != [];
    }
  }

  lemma LookupKeepsExactIff(s: State, config: Config, addr: Addr, arm: seq<byte>, flags: u32, allocOk: bool, now: int)
    requires Exact(s)
    ensures var (t, o) := Lookup(s, config, addr, arm, flags, allocOk, now);
            Exact(t) <==> o != Fails(HashMismatch) || addr in s.stuck
  {
    hide Checksum, Validate, ArmHash, FlagsOf, X86Size;
    if config.enabled && addr in s.disk {
      SumTouch(s.disk, addr, File(s.disk[addr].content, now));
      SumRemove(s.disk, addr);
    }
  }

  ghost predicate Possible(s: State, config: Config, ops: seq<Op>)
    decreases |ops|
  {
    ops == [] || (Allowed(s, config, ops[0]) && Possible(Play(s, config, ops[0]), config, ops[1..]))
  }

  ghost predicate NoSilentDrop(s: State, config: Config, ops: seq<Op>)
    requires Possible(s, config, ops)
    decreases |ops|
  {
    ops == [] || (!DropsSilently(s, config, ops[0]) && NoSilentDrop(Play(s, config, ops[0]), config, ops[1..]))
  }

  ghost predicate NoOverdraw(s: State, config: Config, ops: seq<Op>)
    requires Possible(s, config, ops)
    decreases |ops|
  {
    ops == [] || (!Overdraws(s, ops[0]) && NoOverdraw(Play(s, config, ops[0]), config, ops[1..]))
  }

  ghost function PlayAll(s: State, config: Config, ops: seq<Op>): State
    requires Possible(s, config, ops)
    decreases |ops|
  {
    if ops == [] then s else PlayAll(Play(s, config, ops[0]), config, ops[1..])
  }

  /**
    Over any run in which no operation takes too much off the total covers the files;
    without silent removals as well an exact one stays exact.
   */
  lemma {:induction false} RunsStayCovered(s: State, config: Config, ops: seq<Op>)
    requires Covers(s) && Possible(s, config, ops) && NoOverdraw(s, config, ops)
    ensures Covers(PlayAll(s, config, ops))
    ensures Exact(s) && NoSilentDrop(s, config, ops) ==> Exact(PlayAll(s, config, ops))
    decreases |ops|
  {
    hide Covers, Exact, Play, DropsSilently, Overdraws, Allowed;
    if ops != [] {
      PlayKeepsCovers(s, config, ops[0]);
      if Exact(s) {
        PlayKeepsExactIff(s, config, ops[0]);
      }
      RunsStayCovered(Play(s, config, ops[0]), config, ops[1..]);
    }
  }

  /** The total of a freshly opened cache covers its files exactly when they were counted or there are none. */
  lemma OpenedCoversIff(disk: map<Addr, File>, stuck: set<Addr>, load: bool)
    requires SumSizes(disk) < TWO64 && forall a :: a in disk ==> disk[a].content != []
    ensures Covers(Opened(disk, stuck, load)) <==> load || disk == map[]
    ensures load ==> Exact(Opened(disk, stuck, load))
  {
    if disk != map[] {
      var a :| a in disk;
      SumRemove(disk, a);
    }
  }

  /** Counting again adds the files a second time: the total stays exact only if it was zero. */
  lemma RebuildExactIff(s: State)
    requires s.total + SumSizes(s.disk) < TWO64
    ensures Exact(Rebuild(s)) <==> s.total == 0
  {
  }

  /** Without counting at start, invalidating the one file there is wraps the total around. */
  lemma UncountedFileUnderflows(addr: Addr, f: File)
    requires 0 < |f.content| < TWO64
    ensures Invalidate(Opened(map[addr := f], {}, false), addr).0.total == TWO64 - |f.content|
  {
  }

  // ---- what a lookup returns

  datatype Stored = Stored(arm: seq<byte>, x86: seq<byte>, flags: u32)

  ghost predicate Holds(content: seq<byte>, addr: Addr, e: Stored) {
    && |e.arm| < TWO64 && |e.x86| < TWO64
    && exists now: u64 :: content == FileBytes(HeaderFor(addr, e.arm, e.x86, e.flags, now), e.x86)
  }

  /** Every file is what a store wrote for the recorded code. */
  ghost predicate Tracks(s: State, stored: map<Addr, Stored>) {
    && s.disk.Keys == stored.Keys
    && forall a :: a in stored ==> Holds(s.disk[a].content, a, stored[a])
  }

  lemma HeldFileReads(config: Config, content: seq<byte>, addr: Addr, e: Stored, arm: seq<byte>, flags: u32, allocOk: bool)
    requires Holds(content, addr, e)
    ensures Read(config, content, arm, flags, allocOk)
            == if config.verifyHash && Checksum(arm) != Checksum(e.arm) then Fails(HashMismatch)
               else if e.flags != flags then Fails(NotFound)
               else if !allocOk then Fails(NoMemory)
               else Code(e.x86)
  {
    hide Checksum, FileBytes, Validate, ArmHash, X86Size, FlagsOf;
    var now: u64 :| content == FileBytes(HeaderFor(addr, e.arm, e.x86, e.flags, now), e.x86);
    var h := HeaderFor(addr, e.arm, e.x86, e.flags, now);
    StoredFileReadsBack(h, e.x86);
    assert content[HEADER..HEADER + |e.x86|] == e.x86 by {
      assert content[HEADER..] == e.x86 && |content| == HEADER + |e.x86|;
    }
  }

  /**
    A lookup succeeds exactly when the address is stored, the flags are equal and,
    if verifying, the code hashes are equal; and it returns exactly the bytes stored.
   */
  lemma LookupAnswersStoredIff(s: State, stored: map<Addr, Stored>, config: Config, addr: Addr, arm: seq<byte>,
      flags: u32, allocOk: bool, now: int)
    requires Tracks(s, stored)
    ensures var o := Lookup(s, config, addr, arm, flags, allocOk, now).1;
            && (o.Code? <==> config.enabled && addr in stored && stored[addr].flags == flags && allocOk &&
                             (config.verifyHash ==> Checksum(arm) == Checksum(stored[addr].arm)))
            && (o.Code? ==> o.x86 == stored[addr].x86)
  {
    hide Read, Checksum;
    if config.enabled && addr in s.disk {
      assert addr in stored;
      HeldFileReads(config, s.disk[addr].content, addr, stored[addr], arm, flags, allocOk);
    }
  }

  /** The record after an operation: what was removed is forgotten, what was stored is remembered. */
  ghost function Remember(s: State, stored: map<Addr, Stored>, config: Config, op: Op): map<Addr, Stored>
    requires Allowed(s, config, op)
  {
    var kept := map a | a in stored && a in Play(s, config, op).disk :: stored[a];
    if op.DoStore? && config.enabled && Store(s, config, op.addr, op.arm, op.x86, op.flags, op.time, op.order, op.ioOk).1.None?
    then kept[op.addr := Stored(op.arm, op.x86, op.flags)] else kept
  }

  lemma CleanupKeepsFiles(s: State, config: Config, target: u64, order: seq<Info>)
    ensures var t := Cleanup(s, config, target, order).0;
            forall a :: a in t.disk ==> a in s.disk && t.disk[a] == s.disk[a]
  {
    TrimKeepsFiles(s.disk, s.total, Free(order, s.stuck), TargetOf(config, target));
  }

  lemma {:induction false} TrimKeepsFiles(disk: map<Addr, File>, total: u64, order: seq<Info>, target: u64)
    ensures var d := Trim(disk, total, order, target).0;
            forall a :: a in d ==> a in disk && d[a] == disk[a]
    decreases |order|
  {
    if order != [] && total > target {
      TrimKeepsFiles(disk - {order[0].addr}, (total - order[0].size) % TWO64, order[1..], target);
    }
  }

  lemma LookupKeepsTracks(s: State, stored: map<Addr, Stored>, config: Config, op: Op)
    requires Tracks(s, stored) && op.DoLookup?
    ensures Tracks(Play(s, config, op), Remember(s, stored, config, op))
  {
    hide Read, Holds, Validate;
  }

  lemma StoreKeepsTracks(s: State, stored: map<Addr, Stored>, config: Config, op: Op)
    requires Tracks(s, stored) && op.DoStore? && Allowed(s, config, op)
    ensures Tracks(Play(s, config, op), Remember(s, stored, config, op))
  {
    hide OldestFirst, Cleanup, Holds, HeaderFor, FileBytes;
    CleanupKeepsFiles(s, config, config.maxSize / 2, op.order);
    WrittenHolds(op.addr, op.arm, op.x86, op.flags, op.time);
  }

  lemma WrittenHolds(addr: Addr, arm: seq<byte>, x86: seq<byte>, flags: u32, now: u64)
    requires |arm| < TWO64 && |x86| < TWO64
    ensures Holds(FileBytes(HeaderFor(addr, arm, x86, flags, now), x86), addr, Stored(arm, x86, flags))
  {
    hide FileBytes, HeaderFor;
  }

  lemma PlayKeepsTracks(s: State, stored: map<Addr, Stored>, config: Config, op: Op)
    requires Tracks(s, stored) && Allowed(s, config, op)
    ensures Tracks(Play(s, config, op), Remember(s, stored, config, op))
  {
    hide Holds, OldestFirst, Cleanup;
    match op
    case DoLookup(_, _, _, _, _) => LookupKeepsTracks(s, stored, config, op);
    case DoStore(_, _, _, _, _, _, _) => StoreKeepsTracks(s, stored, config, op);
    case DoCleanup(target, order) => CleanupKeepsFiles(s, config, target, order);
    case DoInvalidate(addr) =>
    case DoInvalidateAll =>
    case DoChangeRights(stuck) =>
  }

  ghost function RememberAll(s: State, stored: map<Addr, Stored>, config: Config, ops: seq<Op>): map<Addr, Stored>
    requires Possible(s, config, ops)
    decreases |ops|
  {
    if ops == [] then stored
    else RememberAll(Play(s, config, ops[0]), Remember(s, stored, config, ops[0]), config, ops[1..])
  }

  /** Over any run, every file is what was stored for its address since its last removal. */
  lemma {:induction false} RunsStayTracked(s: State, stored: map<Addr, Stored>, config: Config, ops: seq<Op>)
    requires Tracks(s, stored) && Possible(s, config, ops)
    ensures Tracks(PlayAll(s, config, ops), RememberAll(s, stored, config, ops))
    decreases |ops|
  {
    hide Tracks, Play, Remember, Allowed;
    if ops != [] {
      PlayKeepsTracks(s, stored, config, ops[0]);
      RunsStayTracked(Play(s, config, ops[0]), Remember(s, stored, config, ops[0]), config, ops[1..]);
    }
  }

  /** A store that meets a file, once any cleanup has been done, leaves it and reports it. */
  lemma StoreNeverReplaces(s: State, config: Config, op: Op)
    requires op.DoStore? && Allowed(s, config, op)
    requires config.enabled && |op.x86| <= config.maxEntrySize && (OverLimit(s, config, |op.x86|) ==> config.autoCleanup)
    ensures var t := if OverLimit(s, config, |op.x86|) then Cleanup(s, config, config.maxSize / 2, op.order).0 else s;
            op.addr in t.disk ==>
              Store(s, config, op.addr, op.arm, op.x86, op.flags, op.time, op.order, op.ioOk) == (t, Some(AlreadyExists)) &&
              op.addr in s.disk && t.disk[op.addr] == s.disk[op.addr]
  {
    hide OldestFirst, FileBytes, HeaderFor, Cleanup;
    CleanupKeepsFiles(s, config, config.maxSize / 2, op.order);
  }

  /** After an invalidation a lookup of the address finds nothing, or what it found before if the file cannot be removed. */
  lemma InvalidatedMisses(s: State, config: Config, addr: Addr, arm: seq<byte>, flags: u32, allocOk: bool, now: int)
    ensures var o := Lookup(Invalidate(s, addr).0, config, addr, arm, flags, allocOk, now).1;
            o == if addr in s.stuck then Lookup(s, config, addr, arm, flags, allocOk, now).1 else Fails(NotFound)
  {
    hide Read;
  }

  lemma EditedSumsDiffer(a: seq<byte>, b: seq<byte>, i: nat)
    requires |a| == |b| && i <= |a| && a != b
    requires forall k :: 0 <= k < |a| && !(i <= k < i + 4) ==> a[k] == b[k]
    ensures Checksum(a) != Checksum(b)
  {
    Crc.EditDetected(a, b, i);
    NumeralInjective(Crc.Crc32(a), Crc.Crc32(b));
  }

  /**
    Guest code edited within four consecutive bytes, such as one instruction, is
    never answered with the translation of the old code: a verifying lookup reports
    a mismatch and removes the file if it can.
   */
  lemma EditedCodeMismatches(s: State, stored: map<Addr, Stored>, config: Config, addr: Addr, arm: seq<byte>, i: nat,
      flags: u32, allocOk: bool, now: int)
    requires Tracks(s, stored) && config.enabled && config.verifyHash && addr in stored
    requires |arm| == |stored[addr].arm| && i <= |arm| && arm != stored[addr].arm
    requires forall k :: 0 <= k < |arm| && !(i <= k < i + 4) ==> arm[k] == stored[addr].arm[k]
    ensures var (t, o) := Lookup(s, config, addr, arm, flags, allocOk, now);
            o == Fails(HashMismatch) && (addr in t.disk <==> addr in s.stuck)
  {
    EditedSumsDiffer(arm, stored[addr].arm, i);
    hide Read, Checksum;
    assert addr in s.disk;
    HeldFileReads(config, s.disk[addr].content, addr, stored[addr], arm, flags, allocOk);
  }

  // ---- how the total goes wrong

  const ROOMY: Config := Config(true, true, false, 1024 * 1024, 65536)

  function Empty(stats: Stats): State {
    State(map[], {}, 0, stats)
  }

  ghost function StoreOld(addr: Addr): Op {
    DoStore(addr, [0], [7], 0, 0, [], true)
  }

  ghost function AskNew(addr: Addr): Op {
    DoLookup(addr, [1], 0, true, 0)
  }

  /** The byte 0 is stored and asked for as the byte 1: the file goes, and its 97 bytes stay in the total. */
  lemma MismatchMakesInexact(addr: Addr, stats: Stats)
    ensures Exact(Empty(stats)) && Allowed(Empty(stats), ROOMY, StoreOld(addr))
    ensures var t := Play(Empty(stats), ROOMY, StoreOld(addr));
            Exact(t) && t.total == 97 && Allowed(t, ROOMY, AskNew(addr)) &&
            var u := Play(t, ROOMY, AskNew(addr));
            addr !in u.disk && u.total == 97 && !Exact(u)
  {
    StoredOne(addr, stats);
    hide *;
    DroppedOne(Play(Empty(stats), ROOMY, StoreOld(addr)), addr);
  }

  lemma StoredOne(addr: Addr, stats: Stats)
    ensures Exact(Empty(stats)) && Allowed(Empty(stats), ROOMY, StoreOld(addr))
    ensures var t := Play(Empty(stats), ROOMY, StoreOld(addr));
            Exact(t) && t.total == 97 && t.stuck == {} && Tracks(t, map[addr := Stored([0], [7], 0)])
  {
    hide FileBytes, HeaderFor, Holds;
    WrittenHolds(addr, [0], [7], 0, 0);
    PlayKeepsExactIff(Empty(stats), ROOMY, StoreOld(addr));
  }

  lemma DroppedOne(t: State, addr: Addr)
    requires Exact(t) && t.stuck == {} && Tracks(t, map[addr := Stored([0], [7], 0)])
    ensures Allowed(t, ROOMY, AskNew(addr))
    ensures var u := Play(t, ROOMY, AskNew(addr)); addr !in u.disk && u.total == t.total && !Exact(u)
  {
    hide Read, Lookup, Tracks, Exact;
    MismatchedOne(t, addr);
    PlayKeepsExactIff(t, ROOMY, AskNew(addr));
    LookupKeepsTotal(t, AskNew(addr));
  }

  lemma LookupKeepsTotal(t: State, op: Op)
    requires op.DoLookup?
    ensures Play(t, ROOMY, op).total == t.total
  {
    hide Read;
  }

  lemma MismatchedOne(t: State, addr: Addr)
    requires t.stuck == {} && Tracks(t, map[addr := Stored([0], [7], 0)])
    ensures var (u, o) := Lookup(t, ROOMY, addr, [1], 0, true, 0); o == Fails(HashMismatch) && addr !in u.disk
  {
    hide Read, Lookup, Tracks, Checksum;
    var x, y := [1 as byte], [0 as byte];
    assert x[0] != y[0];
    EditedCodeMismatches(t, map[addr := Stored(y, [7], 0)], ROOMY, addr, x, 0, 0, true, 0);
  }

  /** A file that cannot be removed is there still after an invalidation, and its size is off the total. */
  lemma StuckFileOverdraws(addr: Addr, f: File, config: Config)
    requires 0 < |f.content| < TWO64
    ensures var s := State(map[addr := f], {addr}, |f.content|, Stats(1, 0, 0, 1, 0));
            var t := Play(s, config, DoInvalidate(addr));
            Exact(s) && t.disk == s.disk && t.total == 0 && !Covers(t)
  {
    var disk := map[addr := f];
    SumRemove(disk, addr);
    assert disk - {addr} == map[];
  }
}
