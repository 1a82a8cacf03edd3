/**
  An instance of the translator: the four levels as objects updated in place,
  every call proved against LayeredSpec.
 */
module Layered {
  import opened Words
  import opened Memory
  import opened CodeSpace
  import opened LayeredSpec
  import T = TcacheSpec
  import P = PcacheSpec
  import R = PcacheRuns
  import M = MempoolSpec
  import Tcache
  import Pcache
  import Mempool
  import CodeHash

  // ---- blocks shared by content

  class SharedEntry {
    const hash: u64
    const at: nat
    const size: nat
    const next: SharedEntry?

    constructor (hash: u64, at: nat, size: nat, next: SharedEntry?)
      ensures this.hash == hash && this.at == at && this.size == size && this.next == next
    {
      this.hash, this.at, this.size, this.next := hash, at, size, next;
    }
  }

  /** The chain that starts at an entry holds these blocks, in this order. */
  ghost predicate Chained(head: SharedEntry?, chain: seq<Shared>)
    decreases |chain|
  {
    if head == null then chain == []
    else chain != [] && chain[0] == Shared(head.hash, head.at, head.size) && Chained(head.next, chain[1..])
  }

  class SharedTable {
    const table: array<SharedEntry?>
    ghost var chains: seq<seq<Shared>>

    ghost predicate Valid()
      reads this, table
    {
      && table.Length == |chains| == SHARED_BUCKETS
      && forall b :: 0 <= b < SHARED_BUCKETS ==> Chained(table[b], chains[b])
    }

    constructor ()
      ensures Valid() && fresh(table) && chains == NoShared()
    {
      table := new SharedEntry?[SHARED_BUCKETS](_ => null);
      chains := NoShared();
    }

    method Lookup(hash: u64) returns (entry: SharedEntry?)
      requires Valid()
      ensures match FindShared(chains[hash % SHARED_BUCKETS], hash)
              case None => entry == null
              case Some(r) => entry != null && r == Shared(entry.hash, entry.at, entry.size)
    {
      entry := table[hash % SHARED_BUCKETS];
      ghost var rest := chains[hash % SHARED_BUCKETS];
      while entry != null
        invariant Chained(entry, rest)
        invariant FindShared(rest, hash) == FindShared(chains[hash % SHARED_BUCKETS], hash)
        decreases |rest|
      {
        if entry.hash == hash {
          return;
        }
        entry := entry.next;
        rest := rest[1..];
      }
    }

    method Insert(hash: u64, at: nat, size: nat)
      requires Valid()
      modifies this, table
      ensures Valid() && chains == Share(old(chains), Shared(hash, at, size))
    {
      var b := hash % SHARED_BUCKETS;
      var entry := new SharedEntry(hash, at, size, table[b]);
      assert Chained(entry, [Shared(hash, at, size)] + chains[b]) by {
        assert ([Shared(hash, at, size)] + chains[b])[1..] == chains[b];
      }
      table[b] := entry;
      chains := Share(chains, Shared(hash, at, size));
    }
  }

  // ---- the instance

  class Instance {
    const cache: Tcache.TranslationCache
    const pcache: Pcache.PersistentCache
    const shared: SharedTable
    const pool: Mempool.Pool
    ghost var direct: seq<Span>

    constructor (cache: Tcache.TranslationCache, pcache: Pcache.PersistentCache, pool: Mempool.Pool)
      requires cache.Valid() && pcache.Valid() && pool.Valid()
      requires cache.jumps.ram as object != pcache.crc.entries && cache.jumps.ram as object != pool.chunks
      requires cache.table as object != pcache.crc.entries && cache.table as object != pool.chunks
          && pool.chunks as object != pcache.crc.entries
      ensures this.cache == cache && this.pcache == pcache && this.pool == pool && fresh(shared) && fresh(shared.table)
      ensures Is(State(cache.St(), pcache.St(), NoShared(), Space(pool.St(), [])))
    {
      hide *;
      pool.ValidIsListed();
      ghost var t, p, m := cache.St(), pcache.St(), pool.St();
      this.cache, this.pcache, this.pool := cache, pcache, pool;
      shared := new SharedTable();
      direct := [];
      new;
      assert cache.Valid() && cache.St() == t;
      assert pcache.Valid() && pcache.St() == p;
      assert pool.Valid() && pool.St() == m;
      Arranged(t, p, m);
    }

    lemma Arranged(t: T.State, p: P.State, m: M.State)
      requires cache.Valid() && pcache.Valid() && pool.Valid() && cache.St() == t && pcache.St() == p && pool.St() == m
      requires direct == [] && shared.Valid() && shared.chains == NoShared() && Apart()
      ensures Is(State(t, p, NoShared(), Space(m, [])))
    {
    }

    // Each level, and what it holds.

    ghost predicate CacheIs(t: T.State)
      reads cache, cache.table, cache.lru, cache.jumps, cache.jumps.list, cache.jumps.ram
    {
      cache.Valid() && cache.St() == t
    }

    ghost predicate FilesAre(p: P.State)
      reads pcache, pcache.crc, pcache.crc.entries
    {
      pcache.Valid() && pcache.St() == p
    }

    ghost predicate SharedAre(chains: seq<seq<Shared>>)
      reads shared, shared.table
    {
      shared.Valid() && shared.chains == chains
    }

    ghost predicate PoolIs(m: M.State)
      reads pool, pool.chunks, pool.all`next, pool.all`offset
    {
      pool.Valid() && pool.St() == m
    }

    /** No two levels use the same array. */
    ghost predicate Apart()
      reads cache`table
    {
      && cache.jumps.ram as object != pcache.crc.entries && cache.jumps.ram as object != shared.table
          && cache.jumps.ram as object != pool.chunks
      && cache.table as object != pcache.crc.entries && cache.table as object != shared.table
          && cache.table as object != pool.chunks
      && shared.table as object != pool.chunks && shared.table as object != pcache.crc.entries
          && pool.chunks as object != pcache.crc.entries
    }

    ghost predicate Is(s: State)
      reads this, cache, cache.table, cache.lru, cache.jumps, cache.jumps.list, cache.jumps.ram
      reads pcache, pcache.crc, pcache.crc.entries, shared, shared.table, pool, pool.chunks, pool.all`next, pool.all`offset
    {
      && CacheIs(s.t) && FilesAre(s.p) && SharedAre(s.shared) && PoolIs(s.space.pool) && direct == s.space.direct
      && Apart()
    }

    lemma Split(s: State)
      requires Is(s)
      ensures CacheIs(s.t) && FilesAre(s.p) && SharedAre(s.shared) && PoolIs(s.space.pool) && direct == s.space.direct && Apart()
    {
    }

    lemma Join(s: State)
      requires CacheIs(s.t) && FilesAre(s.p) && SharedAre(s.shared) && PoolIs(s.space.pool) && direct == s.space.direct && Apart()
      ensures Is(s)
    {
    }

    lemma ApartIs()
      requires Apart()
      ensures cache.jumps.ram as object != pcache.crc.entries && cache.jumps.ram as object != shared.table
          && cache.jumps.ram as object != pool.chunks
      ensures cache.table as object != pcache.crc.entries && cache.table as object != shared.table
          && cache.table as object != pool.chunks
      ensures shared.table as object != pool.chunks && shared.table as object != pcache.crc.entries
          && pool.chunks as object != pcache.crc.entries
    {
    }

    // ---- one level at a time

    method Alloc(size: u64, poolMap: Option<u64>, ghost m: M.State) returns (r: Option<M.Region>)
      requires PoolIs(m) && 0 < size <= M.USER_SPACE - 16
      requires poolMap.Some? ==> M.FreshMapping(m, poolMap.value, M.ChunkSize(M.Round16(size)))
      modifies pool, pool.chunks, pool.all`offset
      ensures |m.lists| == M.CLASSES && PoolIs(M.Alloc(m, size, poolMap).0) && r == M.Alloc(m, size, poolMap).1
    {
      PoolIsReady(m, size);
      hide M.Sound, M.Alloc, Mempool.Pool.AllAreas, Mempool.Pool.HeadsLinked, M.Round16, M.ChunkSize, M.FreshMapping, M.Overruns;
      r := pool.Alloc(size, poolMap);
    }

    lemma PoolIsReady(m: M.State, size: u64)
      requires PoolIs(m) && size <= M.USER_SPACE - 16
      ensures |m.lists| == M.CLASSES && !M.Overruns(m, size)
    {
      hide Mempool.Areas;
      M.SoundHasLists(m);
      M.RealRequestsDoNotOverrun(m, size);
    }

    // Each of the following steps changes one level and leaves the others alone.

    method AllocFromPool(size: u64, poolMap: Option<u64>, ghost s: State) returns (r: Option<M.Region>)
      requires CacheIs(s.t) && FilesAre(s.p) && SharedAre(s.shared) && PoolIs(s.space.pool) && direct == s.space.direct && Apart()
      requires 0 < size <= M.USER_SPACE - 16
      requires poolMap.Some? ==> M.FreshMapping(s.space.pool, poolMap.value, M.ChunkSize(M.Round16(size)))
      modifies pool, pool.chunks, pool.all`offset
      ensures |s.space.pool.lists| == M.CLASSES
      ensures r == M.Alloc(s.space.pool, size, poolMap).1
      ensures cache.lru == old(cache.lru) && cache.table == old(cache.table) && cache.jumps.list == old(cache.jumps.list)
      ensures Is(s.(space := Space(M.Alloc(s.space.pool, size, poolMap).0, s.space.direct)))
    {
      hide *;
      ApartIs();
      r := Alloc(size, poolMap, s.space.pool);
      Join(s.(space := Space(M.Alloc(s.space.pool, size, poolMap).0, s.space.direct)));
    }

    method StoreCode(at: nat, bytes: seq<byte>, ghost t: T.State)
      requires CacheIs(t) && at + |bytes| <= |t.ram|
      modifies cache.jumps.ram
      ensures CacheIs(Write(t, at, bytes))
    {
      hide T.ChainsHold, T.SumSizes, WriteAt, Tcache.TranslationCache.Linked;
      StoreBytes(cache.jumps.ram, at, bytes);
    }

    method WriteCode(at: nat, bytes: seq<byte>, ghost s: State)
      requires CacheIs(s.t) && FilesAre(s.p) && SharedAre(s.shared) && PoolIs(s.space.pool) && direct == s.space.direct && Apart()
      requires at + |bytes| <= |s.t.ram|
      modifies cache.jumps.ram
      ensures Is(s.(t := Write(s.t, at, bytes)))
    {
      hide *;
      ApartIs();
      StoreCode(at, bytes, s.t);
      Join(s.(t := Write(s.t, at, bytes)));
    }

    method Insert(addr: Words.u64, at: u64, size: u64, entryOk: bool, ghost t: T.State) returns (ghost entry: Option<T.Entry>)
      requires CacheIs(t) && 0 < at
      modifies cache, cache.table, cache.lru`next, cache.lru`lruPrev, cache.lru`lruNext, cache.jumps, cache.jumps.list, cache.jumps.ram
      ensures cache.table == old(cache.table) && |t.chains| > 0 && T.JumpsFit(t, cache.jumps.dispatcher)
      ensures CacheIs(Cache(t, size, entry, cache.jumps.dispatcher)) && Made(entry, t.lru, addr, at, size)
    {
      hide T.ChainsHold, T.SumSizes, Tcache.TranslationCache.Linked, T.Hash, T.Evict, T.Push;
      ghost var before := cache.lru;
      var rc := cache.Insert(addr, at, size, false, false, entryOk);
      entry := if entryOk then Some(cache.lru[0]) else None;
    }

    /** Enters a block in the translation cache; `entry` is the record made, if there was memory for one. */
    method CacheBlock(addr: Words.u64, at: u64, size: u64, entryOk: bool, ghost s: State) returns (ghost entry: Option<T.Entry>)
      requires CacheIs(s.t) && FilesAre(s.p) && SharedAre(s.shared) && PoolIs(s.space.pool) && direct == s.space.direct && Apart()
      requires 0 < at
      modifies cache, cache.table, cache.lru`next, cache.lru`lruPrev, cache.lru`lruNext, cache.jumps, cache.jumps.list, cache.jumps.ram
      ensures |s.t.chains| > 0 && T.JumpsFit(s.t, cache.jumps.dispatcher) && Made(entry, s.t.lru, addr, at, size)
      ensures Is(s.(t := Cache(s.t, size, entry, cache.jumps.dispatcher)))
    {
      hide *;
      ApartIs();
      entry := Insert(addr, at, size, entryOk, s.t);
      ApartStill();
      Join(s.(t := Cache(s.t, size, entry, cache.jumps.dispatcher)));
    }

    method Find(addr: Words.u64, ghost t: T.State) returns (entry: T.Entry?)
      requires CacheIs(t)
      modifies cache, cache.lru
      ensures cache.table == old(cache.table) && |t.chains| > 0 && CacheIs(T.Touch(t, addr))
      ensures entry == match T.Find(t, addr) case Missing => null case Hit(e) => e
      ensures entry == null ==> cache.lru == old(cache.lru)
    {
      hide T.ChainsHold, T.SumSizes, Tcache.TranslationCache.Linked, T.Hash;
      entry := cache.Lookup(addr);
    }

    method LookInCache(addr: Words.u64, ghost s: State) returns (entry: T.Entry?)
      requires CacheIs(s.t) && FilesAre(s.p) && SharedAre(s.shared) && PoolIs(s.space.pool) && direct == s.space.direct && Apart()
      modifies cache, cache.lru
      ensures |s.t.chains| > 0 && Is(s.(t := T.Touch(s.t, addr)))
      ensures entry == match T.Find(s.t, addr) case Missing => null case Hit(e) => e
      ensures entry == null ==> cache.lru == old(cache.lru)
      ensures cache.table == old(cache.table) && cache.jumps.list == old(cache.jumps.list) && pool.all == old(pool.all)
    {
      hide *;
      ApartIs();
      entry := Find(addr, s.t);
      ApartStill();
      Join(s.(t := T.Touch(s.t, addr)));
    }

    method Read(addr: Words.u64, code: seq<byte>, bufferOk: bool, now: int, ghost p: P.State)
        returns (o: P.Outcome, ghost p': P.State)
      requires FilesAre(p)
      modifies pcache`disk, pcache`stats, pcache.crc, pcache.crc.entries
      ensures FilesAre(p') && (p', o) == P.Lookup(p, pcache.config, addr, code, 0, bufferOk, now)
    {
      hide P.Lookup;
      p' := P.Lookup(p, pcache.config, addr, code, 0, bufferOk, now).0;
      o := pcache.Lookup(addr, code, 0, bufferOk, now);
    }

    method LookInFiles(addr: Words.u64, code: seq<byte>, bufferOk: bool, now: int, ghost s: State) returns (o: P.Outcome)
      requires CacheIs(s.t) && FilesAre(s.p) && SharedAre(s.shared) && PoolIs(s.space.pool) && direct == s.space.direct && Apart()
      modifies pcache`disk, pcache`stats, pcache.crc, pcache.crc.entries
      ensures o == P.Lookup(s.p, pcache.config, addr, code, 0, bufferOk, now).1
      ensures cache.lru == old(cache.lru) && cache.table == old(cache.table)
          && cache.jumps.list == old(cache.jumps.list) && pool.all == old(pool.all)
      ensures Is(s.(p := P.Lookup(s.p, pcache.config, addr, code, 0, bufferOk, now).0))
    {
      hide *;
      ApartIs();
      ghost var p;
      o, p := Read(addr, code, bufferOk, now, s.p);
      Join(s.(p := p));
    }

    method Keep(addr: Words.u64, code: seq<byte>, x86: seq<byte>, time: Words.u64, listing: seq<P.Info>, ioOk: bool,
        ghost p: P.State)
        returns (ghost order: seq<P.Info>, ghost p': P.State)
      requires FilesAre(p) && |code| < TWO64 && |x86| < TWO64 && Pcache.Lists(listing, p.disk) && |listing| <= P.LISTING_LIMIT
      modifies pcache`disk, pcache`total, pcache`stats, pcache.crc, pcache.crc.entries
      ensures FilesAre(p') && P.ListingFits(p, pcache.config, |x86|, order)
      ensures p' == P.Store(p, pcache.config, addr, code, x86, 0, time, order, ioOk).0
    {
      hide P.Store, P.OldestFirst, Pcache.Lists;
      var error, o := pcache.Store(addr, code, x86, 0, time, listing, ioOk);
      order := o;
      p' := P.Store(p, pcache.config, addr, code, x86, 0, time, order, ioOk).0;
    }

    method StoreFile(addr: Words.u64, code: seq<byte>, x86: seq<byte>, time: Words.u64, listing: seq<P.Info>,
        ioOk: bool, ghost s: State) returns (ghost order: seq<P.Info>)
      requires CacheIs(s.t) && FilesAre(s.p) && SharedAre(s.shared) && PoolIs(s.space.pool) && direct == s.space.direct && Apart()
      requires |code| < TWO64 && |x86| < TWO64 && Pcache.Lists(listing, s.p.disk) && |listing| <= P.LISTING_LIMIT
      modifies pcache`disk, pcache`total, pcache`stats, pcache.crc, pcache.crc.entries
      ensures Is(s.(p := P.Store(s.p, pcache.config, addr, code, x86, 0, time, order, ioOk).0))
          && P.ListingFits(s.p, pcache.config, |x86|, order)
    {
      hide *;
      ApartIs();
      ghost var p;
      order, p := Keep(addr, code, x86, time, listing, ioOk, s.p);
      Join(s.(p := p));
    }

    method Note(hash: u64, at: nat, size: nat, ghost chains: seq<seq<Shared>>)
      requires SharedAre(chains)
      modifies shared, shared.table
      ensures |chains| == SHARED_BUCKETS && SharedAre(Share(chains, Shared(hash, at, size)))
    {
      shared.Insert(hash, at, size);
    }

    method ShareBlock(hash: u64, at: nat, size: nat, ghost s: State)
      requires CacheIs(s.t) && FilesAre(s.p) && SharedAre(s.shared) && PoolIs(s.space.pool) && direct == s.space.direct && Apart()
      modifies shared, shared.table
      ensures |s.shared| == SHARED_BUCKETS && Is(s.(shared := Share(s.shared, Shared(hash, at, size))))
    {
      hide *;
      ApartIs();
      Note(hash, at, size, s.shared);
      Join(s.(shared := Share(s.shared, Shared(hash, at, size))));
    }

    ghost method AddMapping(at: nat, size: nat, s: State)
      requires CacheIs(s.t) && FilesAre(s.p) && SharedAre(s.shared) && PoolIs(s.space.pool) && direct == s.space.direct && Apart()
      modifies `direct
      ensures Is(s.(space := Mapped(s.space, at, size)))
    {
      hide *;
      ApartIs();
      MapDirect(at, size, s.space);
      Join(s.(space := Mapped(s.space, at, size)));
    }

    ghost method MapDirect(at: nat, size: nat, space: Space)
      requires direct == space.direct
      modifies `direct
      ensures direct == Mapped(space, at, size).direct && space.pool == Mapped(space, at, size).pool
    {
      direct := direct + [Span(at, size)];
    }

    twostate lemma ApartStill()
      requires old(Apart()) && cache.table == old(cache.table)
      ensures Apart()
    {
    }

    // ---- the call

    lemma RamIs(t: T.State)
      requires CacheIs(t)
      ensures cache.jumps.ram[..] == t.ram
    {
    }

    /** The pool first; a mapping of its own when the pool gives nothing. */
    method TakeMemory(size: u64, poolMap: Option<u64>, blockMap: Option<u64>, ghost s: State) returns (place: Place)
      requires Is(s) && 0 < size <= M.USER_SPACE - 16
      requires poolMap.Some? ==> M.FreshMapping(s.space.pool, poolMap.value, M.ChunkSize(M.Round16(size)))
      modifies `direct, pool, pool.chunks, pool.all`offset
      ensures cache.lru == old(cache.lru) && cache.table == old(cache.table) && cache.jumps.list == old(cache.jumps.list)
      ensures |s.space.pool.lists| == M.CLASSES
      ensures Is(s.(space := Take(s.space, size, poolMap, blockMap).0)) && place == Take(s.space, size, poolMap, blockMap).1
    {
      Split(s);
      hide *;
      var r := AllocFromPool(size, poolMap, s);
      TakeIs(s.space, size, poolMap, blockMap);
      if r.Some? {
        place := Place(Start(r.value));
      } else if blockMap.Some? {
        place := Place(blockMap.value);
        ghost var s1 := s.(space := Space(M.Alloc(s.space.pool, size, poolMap).0, s.space.direct));
        Split(s1);
        AddMapping(blockMap.value, size, s1);
      } else {
        place := Nowhere;
      }
    }

    static lemma TakeIs(s: Space, size: u64, poolMap: Option<u64>, blockMap: Option<u64>)
      requires |s.pool.lists| == M.CLASSES
      ensures var pool, r, t := M.Alloc(s.pool, size, poolMap).0, M.Alloc(s.pool, size, poolMap).1, Take(s, size, poolMap, blockMap);
              && t.0 == (if r.None? && blockMap.Some? then Mapped(Space(pool, s.direct), blockMap.value, size) else Space(pool, s.direct))
              && t.1 == if r.Some? then Place(Start(r.value))
                        else if blockMap.Some? then Place(blockMap.value) else Nowhere
    {
      hide M.Alloc;
    }

    /** A block read from its file is copied to memory mapped for it and cached. */
    method RestoreBlock(addr: Words.u64, x86: seq<byte>, at: u64, entryOk: bool, ghost s: State, ghost g: Setting, ghost env: Env)
        returns (ghost entry: Option<T.Entry>)
      requires Is(s) && g.dispatcher == cache.jumps.dispatcher && Usable(s, g) && 0 < at
          && at + |x86| <= |s.t.ram| && |x86| < TWO64
      modifies `direct
      modifies cache, cache.table, cache.lru`next, cache.lru`lruPrev, cache.lru`lruNext, cache.jumps, cache.jumps.list, cache.jumps.ram
      ensures Is(Restore(s, g, x86, at, env.(entry := entry))) && Made(entry, s.t.lru, addr, at, |x86|)
    {
      var size: u64 := |x86|;
      hide *;
      Split(s);
      WriteCode(at, x86, s);
      ghost var s1 := s.(t := Write(s.t, at, x86));
      entry := CacheMapped(addr, size, at, entryOk, s1);
      RestoreIs(s, g, x86, at, env.(entry := entry));
    }

    /** A block in a mapping of its own is entered in the translation cache. */
    method CacheMapped(addr: Words.u64, size: u64, at: u64, entryOk: bool, ghost s: State) returns (ghost entry: Option<T.Entry>)
      requires Is(s) && 0 < at
      modifies `direct
      modifies cache, cache.table, cache.lru`next, cache.lru`lruPrev, cache.lru`lruNext, cache.jumps, cache.jumps.list, cache.jumps.ram
      ensures |s.t.chains| > 0 && T.JumpsFit(s.t, cache.jumps.dispatcher) && Made(entry, s.t.lru, addr, at, size)
      ensures Is(s.(t := Cache(s.t, size, entry, cache.jumps.dispatcher), space := Mapped(s.space, at, size)))
    {
      hide *;
      Split(s);
      entry := CacheBlock(addr, at, size, entryOk, s);
      ghost var s1 := s.(t := Cache(s.t, size, entry, cache.jumps.dispatcher));
      Split(s1);
      AddMapping(at, size, s1);
    }

    static lemma RestoreIs(s: State, g: Setting, x86: seq<byte>, at: nat, env: Env)
      requires Usable(s, g) && at + |x86| <= |s.t.ram| && |x86| < TWO64
      ensures var t := Write(s.t, at, x86);
              && t.lru == s.t.lru && T.JumpsFit(t, g.dispatcher) && |t.chains| > 0
              && Restore(s, g, x86, at, env) == State(Cache(t, |x86|, env.entry, g.dispatcher), s.p, s.shared, Mapped(s.space, at, |x86|))
    {
      hide Cache, WriteAt;
    }

    /** Clears the memory taken and writes the block to its front. */
    method FillBlock(at: nat, n: nat, x86: seq<byte>, ghost s: State)
      requires Is(s) && at + n <= |s.t.ram| && |x86| <= n
      modifies cache.jumps.ram
      ensures Is(s.(t := Fill(s.t, at, n, x86)))
    {
      Split(s);
      FillIs(s, at, n, x86);
      hide *;
      WriteCode(at, Zeros(n), s);
      ghost var s1 := s.(t := Write(s.t, at, Zeros(n)));
      Split(s1);
      WriteCode(at, x86, s1);
    }

    static lemma FillIs(s: State, at: nat, n: nat, x86: seq<byte>)
      requires at + n <= |s.t.ram| && |x86| <= n
      ensures var s1 := s.(t := Write(s.t, at, Zeros(n)));
              |Zeros(n)| == n && |s1.t.ram| == |s.t.ram| && s1.(t := Write(s1.t, at, x86)) == s.(t := Fill(s.t, at, n, x86))
    {
      hide WriteAt;
    }

    method NoteBlock(hash: u64, at: nat, size: nat, noteOk: bool, ghost s: State)
      requires Is(s)
      modifies shared, shared.table
      ensures |s.shared| == SHARED_BUCKETS
      ensures Is(s.(shared := if noteOk then Share(s.shared, Shared(hash, at, size)) else s.shared))
    {
      Split(s);
      hide *;
      if noteOk {
        ShareBlock(hash, at, size, s);
      } else {
        SharedLength(s.shared);
      }
    }

    lemma SharedLength(chains: seq<seq<Shared>>)
      requires SharedAre(chains)
      ensures |chains| == SHARED_BUCKETS
    {
    }

    method ReadCode(at: nat, size: nat, ghost t: T.State) returns (x86: seq<byte>)
      requires CacheIs(t) && at + size <= |t.ram|
      ensures x86 == t.ram[at..at + size]
    {
      RamIs(t);
      hide *;
      x86 := cache.jumps.ram[..][at..at + size];
    }

    /** What is written to the file is read back from memory. */
    method StoreBlock(addr: Words.u64, code: seq<byte>, size: u64, at: u64, time: Words.u64, ioOk: bool,
        listing: seq<P.Info>, ghost s: State)
        returns (ghost order: seq<P.Info>)
      requires Is(s) && at + size <= |s.t.ram| && |code| < TWO64
      requires Pcache.Lists(listing, s.p.disk) && |listing| <= P.LISTING_LIMIT
      modifies pcache`disk, pcache`total, pcache`stats, pcache.crc, pcache.crc.entries
      ensures Is(s.(p := P.Store(s.p, pcache.config, addr, code, s.t.ram[at..at + size], 0, time, order, ioOk).0))
          && P.ListingFits(s.p, pcache.config, size, order)
    {
      hide *;
      Split(s);
      var x86 := ReadCode(at, size, s.t);
      order := StoreFile(addr, code, x86, time, listing, ioOk, s);
    }

    /** A filled block is entered at every level: by content, by address, and in its file. */
    method EnterBlock(addr: Words.u64, code: seq<byte>, size: u64, at: u64, hash: u64, env: Env, entryOk: bool,
        listing: seq<P.Info>,
        ghost s: State, ghost g: Setting)
        returns (ghost entry: Option<T.Entry>, ghost order: seq<P.Info>)
      requires Is(s) && g.dispatcher == cache.jumps.dispatcher && g.config == pcache.config
      requires 0 < at && at + size <= |s.t.ram| && |code| < TWO64
      requires Usable(s, g) && Pcache.Lists(listing, s.p.disk) && |listing| <= P.LISTING_LIMIT
      modifies cache, cache.table, cache.lru`next, cache.lru`lruPrev, cache.lru`lruNext, cache.jumps, cache.jumps.list, cache.jumps.ram
      modifies pcache`disk, pcache`total, pcache`stats, pcache.crc, pcache.crc.entries
      modifies shared, shared.table
      ensures Is(Entered(s, g, addr, code, hash, at, size, env.(entry := entry, order := order)))
      ensures Made(entry, s.t.lru, addr, at, size) && P.ListingFits(s.p, pcache.config, size, order)
    {
      var noteOk, ioOk, time := env.noteOk, env.ioOk, env.time;
      hide *;
      NoteBlock(hash, at, size, noteOk, s);
      ghost var s1 := s.(shared := if noteOk then Share(s.shared, Shared(hash, at, size)) else s.shared);
      entry, order := CacheAndStore(addr, code, size, at, time, ioOk, entryOk, listing, s1);
      EnteredIs(s, g, addr, code, hash, at, size, env, entry, order);
    }

    method CacheAndStore(addr: Words.u64, code: seq<byte>, size: u64, at: u64, time: Words.u64, ioOk: bool,
        entryOk: bool, listing: seq<P.Info>,
        ghost s: State)
        returns (ghost entry: Option<T.Entry>, ghost order: seq<P.Info>)
      requires Is(s) && 0 < at && at + size <= |s.t.ram| && |code| < TWO64
      requires Pcache.Lists(listing, s.p.disk) && |listing| <= P.LISTING_LIMIT
      modifies cache, cache.table, cache.lru`next, cache.lru`lruPrev, cache.lru`lruNext, cache.jumps, cache.jumps.list, cache.jumps.ram
      modifies pcache`disk, pcache`total, pcache`stats, pcache.crc, pcache.crc.entries
      ensures |s.t.chains| > 0 && T.JumpsFit(s.t, cache.jumps.dispatcher)
      ensures var t := Cache(s.t, size, entry, cache.jumps.dispatcher);
              Is(s.(t := t, p := P.Store(s.p, pcache.config, addr, code, t.ram[at..at + size], 0, time, order, ioOk).0))
      ensures Made(entry, s.t.lru, addr, at, size) && P.ListingFits(s.p, pcache.config, size, order)
    {
      Split(s);
      ghost var flags: Words.u32 := 0;
      hide *;
      entry := CacheBlock(addr, at, size, entryOk, s);
      ghost var t := Cache(s.t, size, entry, cache.jumps.dispatcher);
      order := StoreBlock(addr, code, size, at, time, ioOk, listing, s.(t := t));
    }

    static lemma EnteredIs(s: State, g: Setting, addr: Words.u64, code: seq<byte>, hash: u64, at: nat, size: u64, env: Env,
        entry: Option<T.Entry>, order: seq<P.Info>)
      requires Usable(s, g) && at + size <= |s.t.ram| && |code| < TWO64
      ensures var s1 := s.(shared := if env.noteOk then Share(s.shared, Shared(hash, at, size)) else s.shared);
              var t := Cache(s1.t, size, entry, g.dispatcher);
              s1.(t := t, p := P.Store(s1.p, g.config, addr, code, t.ram[at..at + size], 0, env.time, order, env.ioOk).0)
              == Entered(s, g, addr, code, hash, at, size, env.(entry := entry, order := order))
    {
      hide Cache, P.Store, Share;
    }

    /** What translating into the place taken amounts to. */
    static ghost function Built(s: State, g: Setting, addr: Words.u64, code: seq<byte>, place: Place, env: Env): (State, Place)
      requires Usable(s, g) && Sized(s, g, code, place)
    {
      match place
      case Nowhere => (s, Nowhere)
      case Place(at) =>
        match g.trans(code)
        case None => (s.(t := Fill(s.t, at, EstSize(|code|), [])), Nowhere)
        case Some(x86) =>
          if env.protectOk then (Enter(s, g, addr, code, x86, at, env), Place(at))
          else (s.(t := Fill(s.t, at, EstSize(|code|), x86)), Nowhere)
    }

    static ghost predicate Sized(s: State, g: Setting, code: seq<byte>, place: Place) {
      && EstSize(|code|) <= M.USER_SPACE - 16
      && (place.Place? && g.trans(code).Some? ==> |g.trans(code).value| <= EstSize(|code|))
      && (place.Place? ==> 0 < place.at && place.at + EstSize(|code|) <= |s.t.ram| && place.at < M.USER_SPACE)
    }

    method Build(addr: Words.u64, code: seq<byte>, trans: seq<byte> -> Option<seq<byte>>, taken: Place, hash: u64,
        env: Env, entryOk: bool,
        listing: seq<P.Info>, ghost s: State, ghost g: Setting)
        returns (place: Place, ghost used: Env)
      requires Is(s) && Usable(s, g) && g == Setting(pcache.config, trans, cache.jumps.dispatcher) && Sized(s, g, code, taken)
      requires hash == CodeHash.Hash(code) && Pcache.Lists(listing, s.p.disk) && |listing| <= P.LISTING_LIMIT
      modifies cache, cache.table, cache.lru`next, cache.lru`lruPrev, cache.lru`lruNext, cache.jumps, cache.jumps.list, cache.jumps.ram
      modifies pcache`disk, pcache`total, pcache`stats, pcache.crc, pcache.crc.entries, shared, shared.table
      ensures used == env.(entry := used.entry, order := used.order)
      ensures var (t, at) := Built(s, g, addr, code, taken, used); Is(t) && place == at
      ensures taken.Place? && trans(code).Some? && env.protectOk ==>
                Made(used.entry, s.t.lru, addr, taken.at, |trans(code).value|) && P.ListingFits(s.p, pcache.config, |trans(code).value|, used.order)
    {
      hide Is, Usable, T.Hash, Fill, Entered, Pcache.Lists, P.ListingFits, Made;
      used := env;
      if taken.Nowhere? {
        return Nowhere, used;
      }
      var at, n, x := taken.at, EstSize(|code|), trans(code);
      if x.None? {
        FillBlock(at, n, [], s);
        return Nowhere, used;
      }
      FillBlock(at, n, x.value, s);
      if !env.protectOk {
        return Nowhere, used;
      }
      ghost var filled := s.(t := Fill(s.t, at, n, x.value));
      FilledIsUsable(s, g, at, n, x.value);
      ghost var entry, order;
      entry, order := EnterBlock(addr, code, |x.value|, at, hash, env, entryOk, listing, filled, g);
      used := env.(entry := entry, order := order);
      return taken, used;
    }

    static lemma FilledIsUsable(s: State, g: Setting, at: nat, n: nat, x86: seq<byte>)
      requires Usable(s, g) && at + n <= |s.t.ram| && |x86| <= n
      ensures Usable(s.(t := Fill(s.t, at, n, x86)), g) && Fill(s.t, at, n, x86).lru == s.t.lru
    {
      hide WriteAt;
    }

    /** The call may be made, and the listing is of the directory it will find. */
    static ghost predicate Callable(s: State, g: Setting, addr: Words.u64, code: seq<byte>, env: Env, listing: seq<P.Info>) {
      && Usable(s, g) && code != [] && Given(s, g, addr, code, env)
      && Pcache.Lists(listing, FileLookup(s, g, addr, code, env).0.disk) && |listing| <= P.LISTING_LIMIT
    }

    /** The call returned what it has to, by records that were really made. */
    static ghost predicate Returned(s: State, g: Setting, addr: Words.u64, code: seq<byte>, env: Env, used: Env, place: Place) {
      && used == env.(entry := used.entry, order := used.order)
      && Usable(s, g) && code != [] && Given(s, g, addr, code, used)
      && place == Translate(s, g, addr, code, used).1
      && (s.p.total + P.HEADER + EstSize(|code|) < TWO64 ==> Recorded(s, g, addr, code, used))
    }

    /**
      One call: the cache, then the file, then a block of the same content, then
      the translator.  `used` says which cache record and which listing were used.
     */
    method TranslateEasy(addr: Words.u64, code: seq<byte>, trans: seq<byte> -> Option<seq<byte>>, env: Env, entryOk: bool,
        listing: seq<P.Info>, ghost s: State, ghost g: Setting)
        returns (place: Place, ghost used: Env)
      requires Is(s) && g == Setting(pcache.config, trans, cache.jumps.dispatcher)
      requires code != [] ==> Callable(s, g, addr, code, env, listing)
      modifies this, cache, cache.table, cache.lru, cache.jumps, cache.jumps.list, cache.jumps.ram
      modifies pcache, pcache.crc, pcache.crc.entries, shared, shared.table, pool, pool.chunks, pool.all`offset
      ensures code == [] ==> place == Nowhere && Is(s)
      ensures code != [] ==> Returned(s, g, addr, code, env, used, place) && Is(Translate(s, g, addr, code, used).0)
    {
      used := env;
      if code == [] {
        return Nowhere, used;
      }
      Split(s);
      hide *;
      var entry := LookInCache(addr, s);
      if entry != null {
        HitIs(s, g, addr, code, env, listing, entry);
        return Place(entry.code), used;
      }
      MissIs(s, g, addr);
      place, used := AfterMiss(addr, code, trans, env, entryOk, listing, s, g);
    }

    static lemma HitIs(s: State, g: Setting, addr: Words.u64, code: seq<byte>, env: Env, listing: seq<P.Info>, e: T.Entry)
      requires Callable(s, g, addr, code, env, listing) && T.Find(s.t, addr) == T.Hit(e)
      ensures Returned(s, g, addr, code, env, env, Place(e.code))
          && Translate(s, g, addr, code, env).0 == s.(t := T.Touch(s.t, addr))
    {
      hide T.Find, T.Touch, T.JumpsFit, FileLookup;
    }

    static lemma MissIs(s: State, g: Setting, addr: Words.u64)
      requires |s.t.chains| > 0 && T.Find(s.t, addr).Missing?
      ensures s.(t := T.Touch(s.t, addr)) == s
    {
    }

    method AfterMiss(addr: Words.u64, code: seq<byte>, trans: seq<byte> -> Option<seq<byte>>, env: Env, entryOk: bool,
        listing: seq<P.Info>, ghost s: State, ghost g: Setting)
        returns (place: Place, ghost used: Env)
      requires Is(s) && g == Setting(pcache.config, trans, cache.jumps.dispatcher)
      requires Callable(s, g, addr, code, env, listing) && T.Find(s.t, addr).Missing?
      modifies this, cache, cache.table, cache.lru, cache.jumps, cache.jumps.list, cache.jumps.ram
      modifies pcache, pcache.crc, pcache.crc.entries, shared, shared.table, pool, pool.chunks, pool.all`offset
      ensures Returned(s, g, addr, code, env, used, place) && Is(Translate(s, g, addr, code, used).0)
    {
      Split(s);
      FileLookupIs(s, g, addr, code, env);
      hide *;
      var o := LookInFiles(addr, code, env.bufferOk, env.now, s);
      ghost var s1 := s.(p := FileLookup(s, g, addr, code, env).0);
      if o.Code? && env.fileMap.Some? {
        StoredIsReady(s, g, addr, code, env, listing, o.x86);
        ghost var entry := RestoreBlock(addr, o.x86, env.fileMap.value, entryOk, s1, g, env);
        StoredIs(s, g, addr, code, env, listing, o.x86, entry);
        used := env.(entry := entry);
        return Place(env.fileMap.value), used;
      }
      NotStoredIs(s, g, addr, code, env, o);
      place, used := AfterFiles(addr, code, trans, env, entryOk, listing, s, g);
    }

    /** Neither the cache nor a file answers. */
    static ghost predicate NotStored(s: State, g: Setting, addr: Words.u64, code: seq<byte>, env: Env)
      requires |s.t.chains| > 0
    {
      T.Find(s.t, addr).Missing? && !(FileLookup(s, g, addr, code, env).1.Code? && env.fileMap.Some?)
    }

    /** The call reaches the translator. */
    static ghost predicate Reaches(s: State, g: Setting, addr: Words.u64, code: seq<byte>, env: Env)
      requires Usable(s, g)
    {
      && NotStored(s, g, addr, code, env)
      && FindShared(s.shared[CodeHash.Hash(code) % SHARED_BUCKETS], CodeHash.Hash(code)) == None
    }

    static lemma NotStoredIs(s: State, g: Setting, addr: Words.u64, code: seq<byte>, env: Env, o: P.Outcome)
      requires |s.t.chains| > 0 && T.Find(s.t, addr).Missing? && o == FileLookup(s, g, addr, code, env).1
      requires !(o.Code? && env.fileMap.Some?)
      ensures NotStored(s, g, addr, code, env)
    {
    }

    static lemma ReachesIs(s: State, g: Setting, addr: Words.u64, code: seq<byte>, env: Env, hash: u64)
      requires Usable(s, g) && NotStored(s, g, addr, code, env) && hash == CodeHash.Hash(code)
      requires FindShared(s.shared[hash % SHARED_BUCKETS], hash) == None
      ensures Reaches(s, g, addr, code, env)
    {
    }

    static lemma FileLookupIs(s: State, g: Setting, addr: Words.u64, code: seq<byte>, env: Env)
      ensures P.Lookup(s.p, g.config, addr, code, 0, env.bufferOk, env.now) == FileLookup(s, g, addr, code, env)
    {
      hide P.Lookup;
    }

    /** The choice of records made along the way changes neither the route nor what is given. */
    static lemma RecordsDoNotMatter(s: State, g: Setting, addr: Words.u64, code: seq<byte>, env: Env, used: Env)
      requires used == env.(entry := used.entry, order := used.order) && Usable(s, g) && EstSize(|code|) < TWO64
      ensures RouteOf(s, g, addr, code, used) == RouteOf(s, g, addr, code, env)
      ensures FileLookup(s, g, addr, code, used) == FileLookup(s, g, addr, code, env)
      ensures Taking(s, code, used) == Taking(s, code, env)
      ensures Given(s, g, addr, code, used) == Given(s, g, addr, code, env)
    {
      hide P.Lookup, Take, T.Find, CodeHash.Hash, FindShared, T.JumpsFit, MapsFit;
    }

    static lemma CallIsSized(s: State, g: Setting, addr: Words.u64, code: seq<byte>, env: Env, listing: seq<P.Info>)
      requires Callable(s, g, addr, code, env, listing)
      ensures EstSize(|code|) <= M.USER_SPACE - 16
    {
      hide RouteOf, T.JumpsFit, Mappable, MapsFit, Pcache.Lists;
    }

    static lemma StoredIsReady(s: State, g: Setting, addr: Words.u64, code: seq<byte>, env: Env,
        listing: seq<P.Info>, x86: seq<byte>)
      requires Callable(s, g, addr, code, env, listing) && T.Find(s.t, addr).Missing?
      requires FileLookup(s, g, addr, code, env).1 == P.Code(x86) && env.fileMap.Some?
      ensures RouteOf(s, g, addr, code, env) == Stored(x86, env.fileMap.value)
      ensures 0 < env.fileMap.value && env.fileMap.value + |x86| <= |s.t.ram| && |x86| < TWO64
      ensures Usable(s.(p := FileLookup(s, g, addr, code, env).0), g)
    {
      CallIsSized(s, g, addr, code, env, listing);
      hide FileLookup, Pcache.Lists, T.Find, T.JumpsFit, CodeHash.Hash, FindShared, Taking;
    }

    static lemma StoredIs(s: State, g: Setting, addr: Words.u64, code: seq<byte>, env: Env, listing: seq<P.Info>,
        x86: seq<byte>, entry: Option<T.Entry>)
      requires Callable(s, g, addr, code, env, listing) && T.Find(s.t, addr).Missing?
      requires FileLookup(s, g, addr, code, env).1 == P.Code(x86) && env.fileMap.Some?
      requires Made(entry, s.t.lru, addr, env.fileMap.value, |x86|)
      ensures Returned(s, g, addr, code, env, env.(entry := entry), Place(env.fileMap.value))
      ensures env.fileMap.value + |x86| <= |s.t.ram| && |x86| < TWO64
      ensures Usable(s.(p := FileLookup(s, g, addr, code, env).0), g)
      ensures Translate(s, g, addr, code, env.(entry := entry)).0
           == Restore(s.(p := FileLookup(s, g, addr, code, env).0), g, x86, env.fileMap.value, env.(entry := entry))
    {
      CallIsSized(s, g, addr, code, env, listing);
      StoredIsReady(s, g, addr, code, env, listing, x86);
      RecordsDoNotMatter(s, g, addr, code, env, env.(entry := entry));
      hide FileLookup, Pcache.Lists, T.Find, Usable, RouteOf, Given, Taking, Restore;
    }

    method AfterFiles(addr: Words.u64, code: seq<byte>, trans: seq<byte> -> Option<seq<byte>>, env: Env, entryOk: bool,
        listing: seq<P.Info>, ghost s: State, ghost g: Setting)
        returns (place: Place, ghost used: Env)
      requires Is(s.(p := FileLookup(s, g, addr, code, env).0)) && g == Setting(pcache.config, trans, cache.jumps.dispatcher)
      requires Callable(s, g, addr, code, env, listing) && NotStored(s, g, addr, code, env)
      modifies this, cache, cache.table, cache.lru, cache.jumps, cache.jumps.list, cache.jumps.ram
      modifies pcache, pcache.crc, pcache.crc.entries, shared, shared.table, pool, pool.chunks, pool.all`offset
      ensures Returned(s, g, addr, code, env, used, place) && Is(Translate(s, g, addr, code, used).0)
    {
      ghost var s1 := s.(p := FileLookup(s, g, addr, code, env).0);
      Split(s1);
      hide *;
      var hash, r := LookByContent(code, s1);
      if r != null {
        SharedIsUsed(s, g, addr, code, env, listing, hash, Shared(r.hash, r.at, r.size));
        return Place(r.at), env;
      }
      ReachesIs(s, g, addr, code, env, hash);
      place, used := AfterShared(addr, code, trans, hash, env, entryOk, listing, s, g);
    }

    method LookByContent(code: seq<byte>, ghost s: State) returns (hash: u64, r: SharedEntry?)
      requires CacheIs(s.t) && FilesAre(s.p) && SharedAre(s.shared) && PoolIs(s.space.pool) && direct == s.space.direct && Apart()
      ensures Is(s) && hash == CodeHash.Hash(code) && |s.shared| == SHARED_BUCKETS
      ensures r == null ==> FindShared(s.shared[hash % SHARED_BUCKETS], hash) == None
      ensures r != null ==> FindShared(s.shared[hash % SHARED_BUCKETS], hash) == Some(Shared(r.hash, r.at, r.size))
      ensures cache.lru == old(cache.lru) && cache.table == old(cache.table)
          && cache.jumps.list == old(cache.jumps.list) && pool.all == old(pool.all)
    {
      hide *;
      hash := CodeHash.Compute(code);
      r := FindBlock(hash, s.shared);
      Join(s);
    }

    method FindBlock(hash: u64, ghost chains: seq<seq<Shared>>) returns (r: SharedEntry?)
      requires SharedAre(chains)
      ensures |chains| == SHARED_BUCKETS
      ensures r == null ==> FindShared(chains[hash % SHARED_BUCKETS], hash) == None
      ensures r != null ==> FindShared(chains[hash % SHARED_BUCKETS], hash) == Some(Shared(r.hash, r.at, r.size))
    {
      r := shared.Lookup(hash);
    }

    static lemma SharedIsUsed(s: State, g: Setting, addr: Words.u64, code: seq<byte>, env: Env, listing: seq<P.Info>,
        hash: u64, r: Shared)
      requires Callable(s, g, addr, code, env, listing) && NotStored(s, g, addr, code, env) && hash == CodeHash.Hash(code)
      requires FindShared(s.shared[hash % SHARED_BUCKETS], hash) == Some(r)
      ensures Returned(s, g, addr, code, env, env, Place(r.at))
      ensures Translate(s, g, addr, code, env).0 == s.(p := FileLookup(s, g, addr, code, env).0)
    {
      CallIsSized(s, g, addr, code, env, listing);
      SharedRoute(s, g, addr, code, env, r);
      hide FileLookup, Pcache.Lists, T.Find, Usable, RouteOf, Given, Taking, CodeHash.Hash, FindShared;
    }

    static lemma SharedRoute(s: State, g: Setting, addr: Words.u64, code: seq<byte>, env: Env, r: Shared)
      requires Usable(s, g) && EstSize(|code|) < TWO64 && NotStored(s, g, addr, code, env)
      requires FindShared(s.shared[CodeHash.Hash(code) % SHARED_BUCKETS], CodeHash.Hash(code)) == Some(r)
      ensures RouteOf(s, g, addr, code, env) == SharedBlock(r)
    {
      hide FileLookup, T.Find, T.JumpsFit, CodeHash.Hash, FindShared, Taking;
    }

    method AfterShared(addr: Words.u64, code: seq<byte>, trans: seq<byte> -> Option<seq<byte>>, hash: u64, env: Env,
        entryOk: bool,
        listing: seq<P.Info>, ghost s: State, ghost g: Setting)
        returns (place: Place, ghost used: Env)
      requires Is(s.(p := FileLookup(s, g, addr, code, env).0)) && g == Setting(pcache.config, trans, cache.jumps.dispatcher)
      requires Callable(s, g, addr, code, env, listing) && Reaches(s, g, addr, code, env) && hash == CodeHash.Hash(code)
      modifies this, cache, cache.table, cache.lru, cache.jumps, cache.jumps.list, cache.jumps.ram
      modifies pcache, pcache.crc, pcache.crc.entries, shared, shared.table, pool, pool.chunks, pool.all`offset
      ensures Returned(s, g, addr, code, env, used, place) && Is(Translate(s, g, addr, code, used).0)
    {
      NewIsReady(s, g, addr, code, env, listing);
      var n := EstSize(|code|);
      TakingIs(s, code, env);
      hide *;
      ghost var s1 := s.(p := FileLookup(s, g, addr, code, env).0);
      var taken := TakeMemory(n, env.poolMap, env.blockMap, s1);
      ghost var s2 := s1.(space := Taking(s, code, env).0);
      place, used := Build(addr, code, trans, taken, hash, env, entryOk, listing, s2, g);
      NewIs(s, g, addr, code, env, listing, used);
    }

    static lemma TakingIs(s: State, code: seq<byte>, env: Env)
      requires |s.space.pool.lists| == M.CLASSES && EstSize(|code|) < TWO64
      ensures Taking(s, code, env) == Take(s.space, EstSize(|code|), env.poolMap, env.blockMap)
    {
    }

    static lemma NewRoute(s: State, g: Setting, addr: Words.u64, code: seq<byte>, env: Env)
      requires Usable(s, g) && EstSize(|code|) < TWO64 && Reaches(s, g, addr, code, env)
      ensures RouteOf(s, g, addr, code, env) ==
              match Taking(s, code, env).1
              case Nowhere => NoSpace
              case Place(at) =>
                match g.trans(code)
                case None => Refused([], at)
                case Some(x86) => if env.protectOk then Fresh(x86, at) else Refused(x86, at)
    {
      hide FileLookup, T.Find, T.JumpsFit, CodeHash.Hash, FindShared, Taking;
    }

    /** The state in which translation starts: the files looked at, the memory taken. */
    static ghost function Begun(s: State, g: Setting, addr: Words.u64, code: seq<byte>, env: Env): State
      requires |s.space.pool.lists| == M.CLASSES && EstSize(|code|) < TWO64
    {
      s.(p := FileLookup(s, g, addr, code, env).0, space := Taking(s, code, env).0)
    }

    static lemma NewIsReady(s: State, g: Setting, addr: Words.u64, code: seq<byte>, env: Env, listing: seq<P.Info>)
      requires Callable(s, g, addr, code, env, listing) && Reaches(s, g, addr, code, env)
      ensures 0 < EstSize(|code|) <= M.USER_SPACE - 16 && |s.space.pool.lists| == M.CLASSES
      ensures env.poolMap.Some? ==> M.FreshMapping(s.space.pool, env.poolMap.value, M.ChunkSize(M.Round16(EstSize(|code|))))
      ensures Usable(Begun(s, g, addr, code, env), g) && Sized(Begun(s, g, addr, code, env), g, code, Taking(s, code, env).1)
      ensures Pcache.Lists(listing, Begun(s, g, addr, code, env).p.disk) && |listing| <= P.LISTING_LIMIT
    {
      CallIsSized(s, g, addr, code, env, listing);
      NewRoute(s, g, addr, code, env);
      hide FileLookup, Pcache.Lists, T.Find, T.JumpsFit, RouteOf, CodeHash.Hash, FindShared;
      MapIsFresh(s, code, env);
      BegunLists(s, code, env);
      hide Taking, Mappable;
    }

    static lemma MapIsFresh(s: State, code: seq<byte>, env: Env)
      requires |s.space.pool.lists| == M.CLASSES && EstSize(|code|) <= M.USER_SPACE - 16 && GivenMaps(s, code, env)
      ensures env.poolMap.Some? ==> M.FreshMapping(s.space.pool, env.poolMap.value, M.ChunkSize(M.Round16(EstSize(|code|))))
    {
      var n: u64 := EstSize(|code|);
      hide EstSize, Taking;
      if env.poolMap.Some? {
        M.ClassOfChunk(M.Round16(n));
        MappingIsFresh(s.space, |s.t.ram|, env.poolMap.value, M.ChunkSize(M.Round16(n)));
      }
    }

    static lemma BegunLists(s: State, code: seq<byte>, env: Env)
      requires |s.space.pool.lists| == M.CLASSES && EstSize(|code|) < TWO64
      ensures |Taking(s, code, env).0.pool.lists| == M.CLASSES
    {
    }

    static lemma NewIs(s: State, g: Setting, addr: Words.u64, code: seq<byte>, env: Env, listing: seq<P.Info>, used: Env)
      requires Callable(s, g, addr, code, env, listing) && Reaches(s, g, addr, code, env)
      requires used == env.(entry := used.entry, order := used.order) && EstSize(|code|) < TWO64
          && |s.space.pool.lists| == M.CLASSES
      requires Usable(Begun(s, g, addr, code, env), g) && Sized(Begun(s, g, addr, code, env), g, code, Taking(s, code, env).1)
      requires Taking(s, code, env).1.Place? && g.trans(code).Some? && env.protectOk ==>
                 && Made(used.entry, s.t.lru, addr, Taking(s, code, env).1.at, |g.trans(code).value|)
                 && P.ListingFits(FileLookup(s, g, addr, code, env).0, g.config, |g.trans(code).value|, used.order)
      ensures var (t, place) := Built(Begun(s, g, addr, code, env), g, addr, code, Taking(s, code, env).1, used);
              Returned(s, g, addr, code, env, used, place) && t == Translate(s, g, addr, code, used).0
    {
      RecordsDoNotMatter(s, g, addr, code, env, used);
      NewRoute(s, g, addr, code, env);
      TotalStays(s, g, addr, code, env);
      hide FileLookup, Pcache.Lists, T.Find, Usable, RouteOf, Given, Taking, CodeHash.Hash, FindShared, Reaches,
          Enter, Fill, Made, P.ListingFits;
    }

    static lemma TotalStays(s: State, g: Setting, addr: Words.u64, code: seq<byte>, env: Env)
      ensures FileLookup(s, g, addr, code, env).0.total == s.p.total
    {
      hide P.Read;
    }
  }
}
