/**
  Looking up a translation through four levels, on values: the translation cache,
  the persistent cache, the blocks shared by content, and the translator.
 */
module LayeredSpec {
  import opened Words
  import opened Memory
  import opened Jumps
  import opened CodeSpace
  import T = TcacheSpec
  import P = PcacheSpec
  import R = PcacheRuns
  import M = MempoolSpec
  import CodeHash

  const SHARED_BUCKETS: nat := 4096

  /** A translated block filed under the hash of its guest code. */
  datatype Shared = Shared(hash: u64, at: nat, size: nat)

  /** No block is filed. */
  function NoShared(): (r: seq<seq<Shared>>)
    ensures |r| == SHARED_BUCKETS && forall b :: 0 <= b < |r| ==> r[b] == []
  {
    seq(SHARED_BUCKETS, _ => [])
  }

  datatype State = State(t: T.State, p: P.State, shared: seq<seq<Shared>>, space: Space)

  /** What never changes: the configuration, the translator and where evicted jumps are sent. */
  datatype Setting = Setting(config: P.Config, trans: seq<byte> -> Option<seq<byte>>, dispatcher: seq<byte>)

  /** What the system around the cache answers during one call. */
  datatype Env = Env(
    bufferOk: bool, now: int, fileMap: Option<u64>,
    poolMap: Option<u64>, blockMap: Option<u64>, protectOk: bool, noteOk: bool,
    entry: Option<T.Entry>, time: u64, order: seq<P.Info>, ioOk: bool)

  function EstSize(n: nat): nat {
    n / 4 * 16 + 4096
  }

  ghost predicate Usable(s: State, g: Setting) {
    && |s.t.chains| > 0 && T.JumpsFit(s.t, g.dispatcher)
    && |s.shared| == SHARED_BUCKETS && |s.space.pool.lists| == M.CLASSES
  }

  function FindShared(chain: seq<Shared>, hash: u64): (r: Option<Shared>)
    ensures r.Some? ==> r.value in chain && r.value.hash == hash
    ensures r.None? ==> forall x :: x in chain ==> x.hash != hash
  {
    if chain == [] then None else if chain[0].hash == hash then Some(chain[0]) else FindShared(chain[1..], hash)
  }

  // ---- one call

  /** Which level answers, or why none does. */
  datatype Route =
    | Cached(e: T.Entry)
    | Stored(x86: seq<byte>, at: nat)
    | SharedBlock(r: Shared)
    | Fresh(x86: seq<byte>, at: nat)
    | Refused(x86: seq<byte>, at: nat)
    | NoSpace

  ghost function FileLookup(s: State, g: Setting, addr: Addr, code: seq<byte>, env: Env): (P.State, P.Outcome) {
    P.Lookup(s.p, g.config, addr, code, 0, env.bufferOk, env.now)
  }

  ghost function Taking(s: State, code: seq<byte>, env: Env): (r: (Space, Place))
    requires |s.space.pool.lists| == M.CLASSES && EstSize(|code|) < TWO64
    ensures |r.0.pool.lists| == M.CLASSES
  {
    Take(s.space, EstSize(|code|), env.poolMap, env.blockMap)
  }

  ghost function RouteOf(s: State, g: Setting, addr: Addr, code: seq<byte>, env: Env): (r: Route)
    requires Usable(s, g) && EstSize(|code|) < TWO64
    ensures r.Fresh? || r.Refused? ==> Taking(s, code, env).1 == Place(r.at)
  {
    match T.Find(s.t, addr)
    case Hit(e) => Cached(e)
    case Missing =>
      var o := FileLookup(s, g, addr, code, env).1;
      if o.Code? && env.fileMap.Some? then Stored(o.x86, env.fileMap.value)
      else
        match FindShared(s.shared[CodeHash.Hash(code) % SHARED_BUCKETS], CodeHash.Hash(code))
        case Some(r) => SharedBlock(r)
        case None =>
          match Taking(s, code, env).1
          case Nowhere => NoSpace
          case Place(at) =>
            match g.trans(code)
            case None => Refused([], at)
            case Some(x86) => if env.protectOk then Fresh(x86, at) else Refused(x86, at)
  }

  /** The record made for the translation cache, if memory for it was found. */
  ghost predicate Made(entry: Option<T.Entry>, lru: seq<T.Entry>, addr: Addr, at: nat, size: nat) {
    entry.Some? ==>
      var e := entry.value;
      e !in lru && e.addr == addr && e.code == at && e.size == size && e.hash == T.Hash(addr) && !e.locked
  }

  /** Memory is given as the kernel promises, and the translator keeps to the estimated size. */
  ghost predicate Given(s: State, g: Setting, addr: Addr, code: seq<byte>, env: Env)
    requires Usable(s, g)
  {
    && code != [] && EstSize(|code|) <= M.USER_SPACE - 16
    && match RouteOf(s, g, addr, code, env)
       case Cached(_) => true
       case Stored(x86, at) => Mappable(s.space, |s.t.ram|, Span(at, |x86|))
       case SharedBlock(_) => true
       case Fresh(x86, at) => GivenMaps(s, code, env) && |x86| <= EstSize(|code|)
       case Refused(x86, at) => GivenMaps(s, code, env) && |x86| <= EstSize(|code|)
       case NoSpace => GivenMaps(s, code, env)
  }

  /** What is entered is what was made: the record for the cache and the listing for the files. */
  ghost predicate Recorded(s: State, g: Setting, addr: Addr, code: seq<byte>, env: Env)
    requires Usable(s, g) && EstSize(|code|) < TWO64
  {
    match RouteOf(s, g, addr, code, env)
    case Stored(x86, at) => Made(env.entry, s.t.lru, addr, at, |x86|)
    case Fresh(x86, at) =>
      && Made(env.entry, s.t.lru, addr, at, |x86|)
      && R.Allowed(FileLookup(s, g, addr, code, env).0, g.config, R.DoStore(addr, code, x86, 0, env.time, env.order, env.ioOk))
    case _ => true
  }

  ghost predicate GivenMaps(s: State, code: seq<byte>, env: Env)
    requires |s.space.pool.lists| == M.CLASSES && EstSize(|code|) <= M.USER_SPACE - 16
  {
    && MapsFit(s.space, |s.t.ram|, EstSize(|code|), env.poolMap, env.blockMap)
    && (var place := Taking(s, code, env).1;
        place.Place? ==> 0 < place.at && place.at + EstSize(|code|) <= |s.t.ram| && place.at < M.USER_SPACE)
  }

  ghost function Write(t: T.State, at: nat, bytes: seq<byte>): T.State
    requires at + |bytes| <= |t.ram|
  {
    t.(ram := WriteAt(t.ram, at, bytes))
  }

  /** The memory taken for a block is cleared, and the translator writes to its front. */
  ghost function Fill(t: T.State, at: nat, n: nat, x86: seq<byte>): (r: T.State)
    requires at + n <= |t.ram| && |x86| <= n
    ensures |r.ram| == |t.ram|
  {
    Write(Write(t, at, Zeros(n)), at, x86)
  }

  function Zeros(n: nat): (r: seq<byte>)
    ensures |r| == n
  {
    seq(n, _ => 0)
  }

  ghost function Cache(t: T.State, size: u64, entry: Option<T.Entry>, dispatcher: seq<byte>): (r: T.State)
    requires |t.chains| > 0 && T.JumpsFit(t, dispatcher)
    ensures |r.ram| == |t.ram|
  {
    if entry.Some? then T.Insert(t, entry.value, dispatcher) else T.Evict(t, size, dispatcher)
  }

  ghost function Share(shared: seq<seq<Shared>>, r: Shared): seq<seq<Shared>>
    requires |shared| == SHARED_BUCKETS
  {
    var b := r.hash % SHARED_BUCKETS;
    shared[b := [r] + shared[b]]
  }

  /** A block read back from its file. */
  ghost function Restore(s: State, g: Setting, x86: seq<byte>, at: nat, env: Env): State
    requires Usable(s, g) && at + |x86| <= |s.t.ram| && |x86| < TWO64
  {
    s.(t := Cache(Write(s.t, at, x86), |x86|, env.entry, g.dispatcher),
       space := Mapped(s.space, at, |x86|))
  }

  /** A block in memory entered at every level: by content, by address, and in its file. */
  ghost function Entered(s: State, g: Setting, addr: Addr, code: seq<byte>, hash: u64, at: nat, size: u64, env: Env): State
    requires Usable(s, g) && at + size <= |s.t.ram| && |code| < TWO64
  {
    var t := Cache(s.t, size, env.entry, g.dispatcher);
    State(t,
          P.Store(s.p, g.config, addr, code, t.ram[at..at + size], 0, env.time, env.order, env.ioOk).0,
          if env.noteOk then Share(s.shared, Shared(hash, at, size)) else s.shared,
          s.space)
  }

  /** A block translated into memory taken for it and entered at every level. */
  ghost function Enter(s: State, g: Setting, addr: Addr, code: seq<byte>, x86: seq<byte>, at: nat, env: Env): State
    requires Usable(s, g) && at + EstSize(|code|) <= |s.t.ram| && |x86| <= EstSize(|code|) < TWO64 && |code| < TWO64
  {
    Entered(s.(t := Fill(s.t, at, EstSize(|code|), x86)), g, addr, code, CodeHash.Hash(code), at, |x86|, env)
  }

  /** No level has the code: memory is taken for it and the translator tried. */
  ghost function Produce(s: State, g: Setting, addr: Addr, code: seq<byte>, env: Env): (State, Place)
    requires Usable(s, g) && Given(s, g, addr, code, env)
    requires var r := RouteOf(s, g, addr, code, env); r.Fresh? || r.Refused? || r.NoSpace?
  {
    hide RouteOf, FileLookup, Taking, MapsFit, T.Find, T.JumpsFit;
    var s1 := s.(p := FileLookup(s, g, addr, code, env).0, space := Taking(s, code, env).0);
    match RouteOf(s, g, addr, code, env)
    case Fresh(x86, at) => (Enter(s1, g, addr, code, x86, at, env), Place(at))
    case Refused(x86, at) => (s1.(t := Fill(s.t, at, EstSize(|code|), x86)), Nowhere)
    case NoSpace => (s1, Nowhere)
  }

  ghost function Translate(s: State, g: Setting, addr: Addr, code: seq<byte>, env: Env): (State, Place)
    requires Usable(s, g) && (code == [] || Given(s, g, addr, code, env))
  {
    hide RouteOf, FileLookup, Taking, MapsFit, T.Find, T.JumpsFit;
    if code == [] then (s, Nowhere)
    else
      var s1 := s.(p := FileLookup(s, g, addr, code, env).0);
      match RouteOf(s, g, addr, code, env)
      case Cached(e) => (s.(t := T.Touch(s.t, addr)), Place(e.code))
      case Stored(x86, at) => (Restore(s1, g, x86, at, env), Place(at))
      case SharedBlock(r) => (s1, Place(r.at))
      case _ => Produce(s, g, addr, code, env)
  }

  // ---- what holds between calls

  /** The bytes at `at` are the translation of `code`, in memory that is not handed out again. */
  ghost predicate Block(ram: seq<byte>, space: Space, g: Setting, at: nat, size: nat, code: seq<byte>) {
    && g.trans(code).Some? && |g.trans(code).value| == size
    && at + size <= |ram| && ram[at..at + size] == g.trans(code).value
    && Taken(space, Span(at, size))
  }

  /** The guest's code by address, what the files were stored for, and all the code there is. */
  datatype World = World(guest: map<Addr, seq<byte>>, stored: map<Addr, R.Stored>, codes: set<seq<byte>>, addrs: set<Addr>)

  /** The hashes tell all the code there is apart. */
  ghost predicate NoCollisions(codes: set<seq<byte>>) {
    && (forall a, b :: a in codes && b in codes && P.Checksum(a) == P.Checksum(b) ==> a == b)
    && (forall a, b :: a in codes && b in codes && CodeHash.Hash(a) == CodeHash.Hash(b) ==> a == b)
  }

  ghost predicate GuestKnown(w: World) {
    && (forall a :: a in w.guest ==> w.guest[a] in w.codes && a in w.addrs)
    && NoCollisions(w.codes)
  }

  ghost predicate CacheHolds(t: T.State, space: Space, g: Setting, w: World) {
    && T.WellFormed(t) && T.JumpsFit(t, g.dispatcher)
    && (forall j :: j in t.jumps ==> j.target !in w.addrs)
    && (forall e :: e in t.lru ==> e.addr in w.guest && Block(t.ram, space, g, e.code, e.size, w.guest[e.addr]))
  }

  ghost predicate SharedIs(ram: seq<byte>, space: Space, g: Setting, codes: set<seq<byte>>, r: Shared) {
    exists c :: c in codes && CodeHash.Hash(c) == r.hash && Block(ram, space, g, r.at, r.size, c)
  }

  ghost predicate SharedHold(shared: seq<seq<Shared>>, ram: seq<byte>, space: Space, g: Setting, codes: set<seq<byte>>) {
    && |shared| == SHARED_BUCKETS
    && forall b, i :: 0 <= b < |shared| && 0 <= i < |shared[b]| ==> SharedIs(ram, space, g, codes, shared[b][i])
  }

  ghost predicate FilesHold(p: P.State, g: Setting, w: World) {
    && R.Tracks(p, w.stored)
    && forall a :: a in w.stored ==> w.stored[a].arm in w.codes && g.trans(w.stored[a].arm) == Some(w.stored[a].x86)
  }

  /** Every level holds translations of the code it files them under, each in memory of its own. */
  ghost predicate Coherent(s: State, g: Setting, w: World) {
    && GuestKnown(w)
    && Tidy(s.space, |s.t.ram|)
    && CacheHolds(s.t, s.space, g, w)
    && SharedHold(s.shared, s.t.ram, s.space, g, w.codes)
    && FilesHold(s.p, g, w)
  }

  // ---- writing a new block disturbs no other

  ghost predicate Extends(t: Space, s: Space) {
    s.direct <= t.direct && s.pool.regions <= t.pool.regions
  }

  lemma BlockAfterWrite(ram: seq<byte>, space: Space, g: Setting, at: nat, size: nat, code: seq<byte>, p: nat,
      bytes: seq<byte>, n: nat, later: Space)
    requires Block(ram, space, g, at, size, code)
    requires p + |bytes| <= p + n <= |ram| && Unused(space, Span(p, n)) && Extends(later, space)
    ensures Block(WriteAt(ram, p, bytes), later, g, at, size, code)
  {
    TakenStaysTaken(space, later, Span(at, size));
    assert Apart(Span(at, size), Span(p, n)) by {
      if k :| 0 <= k < |space.direct| && Inside(Span(at, size), space.direct[k]) {
        assert Apart(space.direct[k], Span(p, n));
      } else {
        var k :| 0 <= k < |space.pool.regions| && Inside(Span(at, size), SpanOf(space.pool.regions[k]));
        assert Apart(SpanOf(space.pool.regions[k]), Span(p, n));
      }
    }
    var ram' := WriteAt(ram, p, bytes);
    var before, after := ram[at..at + size], ram'[at..at + size];
    forall k | 0 <= k < size
      ensures after[k] == before[k]
    {
      assert ram'[at + k] == ram[at + k];
    }
  }

  /** The write of up to n bytes at p, into unused memory, which is taken by then. */
  lemma WriteKeepsCache(t: T.State, space: Space, g: Setting, w: World, p: nat, bytes: seq<byte>, n: nat, later: Space)
    requires CacheHolds(t, space, g, w)
    requires p + |bytes| <= p + n <= |t.ram| && Unused(space, Span(p, n)) && Extends(later, space)
    ensures CacheHolds(Write(t, p, bytes), later, g, w) && T.JumpsFit(Write(t, p, bytes), g.dispatcher)
  {
    hide T.Hash, T.ChainsHold, T.SumSizes, Block, Unused;
    forall e | e in t.lru
      ensures Block(Write(t, p, bytes).ram, later, g, e.code, e.size, w.guest[e.addr])
    {
      BlockAfterWrite(t.ram, space, g, e.code, e.size, w.guest[e.addr], p, bytes, n, later);
    }
  }

  lemma WriteKeepsShared(shared: seq<seq<Shared>>, ram: seq<byte>, space: Space, g: Setting, codes: set<seq<byte>>,
      p: nat, bytes: seq<byte>, n: nat, later: Space)
    requires SharedHold(shared, ram, space, g, codes)
    requires p + |bytes| <= p + n <= |ram| && Unused(space, Span(p, n)) && Extends(later, space)
    ensures SharedHold(shared, WriteAt(ram, p, bytes), later, g, codes)
  {
    hide Block, Unused;
    forall b, i | 0 <= b < |shared| && 0 <= i < |shared[b]|
      ensures SharedIs(WriteAt(ram, p, bytes), later, g, codes, shared[b][i])
    {
      var r := shared[b][i];
      assert SharedIs(ram, space, g, codes, r);
      var c :| c in codes && CodeHash.Hash(c) == r.hash && Block(ram, space, g, r.at, r.size, c);
      BlockAfterWrite(ram, space, g, r.at, r.size, c, p, bytes, n, later);
    }
  }

  /** Filling taken memory with a block. */
  lemma FillHolds(s: State, g: Setting, w: World, at: nat, n: nat, x86: seq<byte>, later: Space)
    requires Coherent(s, g, w) && at + n <= |s.t.ram| && |x86| <= n
    requires Unused(s.space, Span(at, n)) && Extends(later, s.space)
    ensures var t := Fill(s.t, at, n, x86);
            && CacheHolds(t, later, g, w) && T.JumpsFit(t, g.dispatcher) && SharedHold(s.shared, t.ram, later, g, w.codes)
            && t.ram == WriteAt(WriteAt(s.t.ram, at, Zeros(n)), at, x86)
  {
    hide FilesHold, GuestKnown, CacheHolds, SharedHold, Tidy, Unused, T.JumpsFit, WriteAt;
    var t1 := Write(s.t, at, Zeros(n));
    WriteKeepsCache(s.t, s.space, g, w, at, Zeros(n), n, s.space);
    WriteKeepsShared(s.shared, s.t.ram, s.space, g, w.codes, at, Zeros(n), n, s.space);
    WriteKeepsCache(t1, s.space, g, w, at, x86, n, later);
    WriteKeepsShared(s.shared, t1.ram, s.space, g, w.codes, at, x86, n, later);
  }

  // ---- evicting changes no code: the jumps registered lead elsewhere

  lemma {:induction false} NobodyJumps(js: seq<JumpTarget>, addr: Addr, dispatcher: seq<byte>, ram: seq<byte>)
    requires |dispatcher| == 8 && SitesFit(js, |ram|) && forall j :: j in js ==> j.target != addr
    ensures Remaining(js, addr) == js && Patched(js, addr, dispatcher, ram) == ram
  {
    if js != [] {
      assert js[0] in js;
      NobodyJumps(js[1..], addr, dispatcher, ram);
    }
  }

  lemma {:induction false} EvictIsQuiet(t: T.State, size: u64, dispatcher: seq<byte>, addrs: set<Addr>)
    requires T.WellFormed(t) && T.JumpsFit(t, dispatcher)
    requires (forall e :: e in t.lru ==> e.addr in addrs) && (forall j :: j in t.jumps ==> j.target !in addrs)
    ensures var r := T.Evict(t, size, dispatcher);
            && r.ram == t.ram && r.jumps == t.jumps && T.WellFormed(r)
            && (forall e :: e in r.lru ==> e in t.lru)
    decreases |t.lru|
  {
    hide T.Hash, T.ChainsHold, T.SumSizes, Patched, Remaining;
    if T.Evicts(t, size) {
      var e := t.lru[|t.lru| - 1];
      T.EvictOneKeepsWellFormed(t, dispatcher);
      NobodyJumps(t.jumps, e.addr, dispatcher, t.ram);
      EvictIsQuiet(T.EvictOne(t, dispatcher), size, dispatcher, addrs);
    }
  }

  /** Entering a block for the guest's current code at an address keeps the cache right. */
  lemma CacheKeepsHolding(t: T.State, space: Space, g: Setting, w: World, addr: Addr, at: nat, size: u64, entry: Option<T.Entry>)
    requires GuestKnown(w) && CacheHolds(t, space, g, w) && Made(entry, t.lru, addr, at, size)
    requires addr in w.guest && Block(t.ram, space, g, at, size, w.guest[addr])
    ensures var r := Cache(t, size, entry, g.dispatcher); r.ram == t.ram && CacheHolds(r, space, g, w)
  {
    hide T.Hash, T.ChainsHold, T.SumSizes, Block, T.Evict;
    EvictIsQuiet(t, size, g.dispatcher, w.addrs);
    if entry.Some? {
      T.PushKeepsWellFormed(T.Evict(t, size, g.dispatcher), entry.value);
    }
  }
}
