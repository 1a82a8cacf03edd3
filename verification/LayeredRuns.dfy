/** Whichever level answers, the answer is the translation of the bytes given, over whole runs. */
module LayeredRuns {
  import opened Words
  import opened Memory
  import opened Jumps
  import opened CodeSpace
  import opened LayeredSpec
  import T = TcacheSpec
  import P = PcacheSpec
  import R = PcacheRuns
  import M = MempoolSpec
  import CodeHash

  ghost function LookupOp(addr: Addr, code: seq<byte>, env: Env): R.Op {
    R.DoLookup(addr, code, 0, env.bufferOk, env.now)
  }

  ghost function StoreOp(addr: Addr, code: seq<byte>, x86: seq<byte>, env: Env): R.Op {
    R.DoStore(addr, code, x86, 0, env.time, env.order, env.ioOk)
  }

  /** The record of the files after a lookup. */
  ghost function AfterLookup(s: State, g: Setting, w: World, addr: Addr, code: seq<byte>, env: Env): World {
    w.(stored := R.Remember(s.p, w.stored, g.config, LookupOp(addr, code, env)))
  }

  ghost function AfterStore(p: P.State, g: Setting, w: World, addr: Addr, code: seq<byte>, x86: seq<byte>, env: Env): World
    requires R.Allowed(p, g.config, StoreOp(addr, code, x86, env))
  {
    w.(stored := R.Remember(p, w.stored, g.config, StoreOp(addr, code, x86, env)))
  }

  ghost function After(s: State, g: Setting, w: World, addr: Addr, code: seq<byte>, env: Env): World
    requires Usable(s, g) && Given(s, g, addr, code, env) && Recorded(s, g, addr, code, env)
  {
    var w1 := AfterLookup(s, g, w, addr, code, env);
    match RouteOf(s, g, addr, code, env)
    case Cached(e) => w
    case Fresh(x86, at) => AfterStore(FileLookup(s, g, addr, code, env).0, g, w1, addr, code, x86, env)
    case _ => w1
  }

  // ---- the levels one by one

  /** What the persistent cache returns is the translation of the code it was asked about. */
  lemma LookupHolds(s: State, g: Setting, w: World, addr: Addr, code: seq<byte>, env: Env)
    requires GuestKnown(w) && FilesHold(s.p, g, w) && code in w.codes && g.config.verifyHash
    ensures var (p, o) := FileLookup(s, g, addr, code, env);
            && FilesHold(p, g, AfterLookup(s, g, w, addr, code, env))
            && (o.Code? ==> g.trans(code) == Some(o.x86))
  {
    hide R.Tracks, P.Lookup, P.Checksum;
    R.PlayKeepsTracks(s.p, w.stored, g.config, LookupOp(addr, code, env));
    R.LookupAnswersStoredIff(s.p, w.stored, g.config, addr, code, 0, env.bufferOk, env.now);
  }

  lemma StoreHolds(p: P.State, g: Setting, w: World, addr: Addr, code: seq<byte>, x86: seq<byte>, env: Env)
    requires FilesHold(p, g, w) && code in w.codes && g.trans(code) == Some(x86)
    requires R.Allowed(p, g.config, StoreOp(addr, code, x86, env))
    ensures FilesHold(P.Store(p, g.config, addr, code, x86, 0, env.time, env.order, env.ioOk).0, g,
                      AfterStore(p, g, w, addr, code, x86, env))
  {
    hide R.Tracks, P.Store, R.Allowed;
    R.PlayKeepsTracks(p, w.stored, g.config, StoreOp(addr, code, x86, env));
  }

  /** What is found under the hash of some code is the translation of that code. */
  lemma SharedAnswers(s: State, g: Setting, w: World, code: seq<byte>)
    requires GuestKnown(w) && SharedHold(s.shared, s.t.ram, s.space, g, w.codes) && code in w.codes
    ensures var h := CodeHash.Hash(code);
            var r := FindShared(s.shared[h % SHARED_BUCKETS], h);
            r.Some? ==> Block(s.t.ram, s.space, g, r.value.at, r.value.size, code)
  {
    hide Block;
    var h := CodeHash.Hash(code);
    hide CodeHash.Hash;
    var b := h % SHARED_BUCKETS;
    var r := FindShared(s.shared[b], h);
    if r.Some? {
      var i :| 0 <= i < |s.shared[b]| && s.shared[b][i] == r.value;
      assert SharedIs(s.t.ram, s.space, g, w.codes, s.shared[b][i]);
    }
  }

  lemma NewBlock(ram: seq<byte>, space: Space, g: Setting, at: nat, code: seq<byte>)
    requires g.trans(code).Some? && at + |g.trans(code).value| <= |ram| && Taken(space, Span(at, |g.trans(code).value|))
    ensures var x86 := g.trans(code).value; Block(WriteAt(ram, at, x86), space, g, at, |x86|, code)
  {
    var x86 := g.trans(code).value;
    assert WriteAt(ram, at, x86)[at..at + |x86|] == x86;
  }

  lemma ShareHolds(shared: seq<seq<Shared>>, ram: seq<byte>, space: Space, g: Setting, codes: set<seq<byte>>,
      r: Shared, code: seq<byte>)
    requires SharedHold(shared, ram, space, g, codes) && code in codes && r.hash == CodeHash.Hash(code)
    requires Block(ram, space, g, r.at, r.size, code)
    ensures SharedHold(Share(shared, r), ram, space, g, codes)
  {
    hide Block, CodeHash.Hash;
    var shared' := Share(shared, r);
    assert SharedIs(ram, space, g, codes, r);
    forall b, i | 0 <= b < |shared'| && 0 <= i < |shared'[b]|
      ensures SharedIs(ram, space, g, codes, shared'[b][i])
    {
      var x := shared'[b][i];
      if x != r {
        if b == r.hash % SHARED_BUCKETS {
          assert x == shared[b][i - 1];
        } else {
          assert x == shared[b][i];
        }
      }
    }
  }

  // ---- the routes one by one

  /** A call for the guest's code at its address. */
  ghost predicate Asks(s: State, g: Setting, w: World, addr: Addr, code: seq<byte>, env: Env) {
    && Coherent(s, g, w) && Usable(s, g) && g.config.verifyHash
    && addr in w.guest && w.guest[addr] == code && Given(s, g, addr, code, env) && Recorded(s, g, addr, code, env)
  }

  /** The state is in order, and the block at `at` is the translation of the code. */
  ghost predicate Served(s: State, g: Setting, w: World, at: nat, code: seq<byte>) {
    && Coherent(s, g, w)
    && g.trans(code).Some? && Block(s.t.ram, s.space, g, at, |g.trans(code).value|, code)
  }

  lemma TouchHolds(t: T.State, space: Space, g: Setting, w: World, addr: Addr)
    requires CacheHolds(t, space, g, w)
    ensures CacheHolds(T.Touch(t, addr), space, g, w)
    ensures T.Find(t, addr).Hit? ==> T.Find(t, addr).entry in t.lru
  {
    hide T.Hash, T.ChainsHold, T.SumSizes, Block;
    T.TouchKeepsWellFormed(t, addr);
  }

  lemma SizesAreSane(s: State, g: Setting, w: World, addr: Addr, code: seq<byte>, env: Env)
    requires Asks(s, g, w, addr, code, env)
    ensures |s.space.pool.lists| == M.CLASSES && EstSize(|code|) < TWO64 && Usable(s, g)
  {
    hide Coherent, RouteOf, T.JumpsFit, R.Allowed, Made;
  }

  lemma RouteFacts(s: State, g: Setting, addr: Addr, code: seq<byte>, env: Env)
    requires Usable(s, g) && EstSize(|code|) < TWO64
    ensures match RouteOf(s, g, addr, code, env)
            case Cached(e) => T.Find(s.t, addr) == T.Hit(e)
            case Stored(x86, at) => FileLookup(s, g, addr, code, env).1 == P.Code(x86)
            case SharedBlock(r) => FindShared(s.shared[CodeHash.Hash(code) % SHARED_BUCKETS], CodeHash.Hash(code)) == Some(r)
            case Fresh(x86, at) => g.trans(code) == Some(x86) && Taking(s, code, env).1 == Place(at)
            case Refused(x86, at) => Taking(s, code, env).1 == Place(at)
            case NoSpace => Taking(s, code, env).1 == Nowhere
  {
    hide T.Find, T.JumpsFit, P.Lookup, CodeHash.Hash, FindShared, Take;
  }

  lemma CachedIsServed(s: State, g: Setting, w: World, addr: Addr, code: seq<byte>, env: Env)
    requires Asks(s, g, w, addr, code, env) && RouteOf(s, g, addr, code, env).Cached?
    ensures var (t, at) := Translate(s, g, addr, code, env); at.Place? && Served(t, g, w, at.at, code)
  {
    hide Tidy, SharedHold, FilesHold, GuestKnown, Usable, T.Hash, T.WellFormed, T.JumpsFit;
    RouteFacts(s, g, addr, code, env);
    hide RouteOf, Given, FileLookup, Restore, Enter;
    TouchHolds(s.t, s.space, g, w, addr);
  }

  lemma SharedIsServed(s: State, g: Setting, w: World, addr: Addr, code: seq<byte>, env: Env)
    requires Asks(s, g, w, addr, code, env) && RouteOf(s, g, addr, code, env).SharedBlock?
    ensures var (t, at) := Translate(s, g, addr, code, env);
            at.Place? && Served(t, g, AfterLookup(s, g, w, addr, code, env), at.at, code)
  {
    hide Tidy, SharedHold, FilesHold, CacheHolds, Usable, NoCollisions, CodeHash.Hash, FindShared, R.Remember;
    RouteFacts(s, g, addr, code, env);
    hide RouteOf, Given, FileLookup, Restore, Enter;
    LookupHolds(s, g, w, addr, code, env);
    SharedAnswers(s, g, w, code);
    SameGuest(s.t, s.space, g, w, AfterLookup(s, g, w, addr, code, env));
  }

  lemma RestoreHolds(s: State, g: Setting, w: World, addr: Addr, code: seq<byte>, x86: seq<byte>, at: nat, env: Env)
    requires Coherent(s, g, w) && Usable(s, g) && addr in w.guest && w.guest[addr] == code && g.trans(code) == Some(x86)
    requires Mappable(s.space, |s.t.ram|, Span(at, |x86|)) && Made(env.entry, s.t.lru, addr, at, |x86|)
    requires |x86| < TWO64 && at + |x86| <= |s.t.ram|
    ensures Served(Restore(s, g, x86, at, env), g, w, at, code)
  {
    hide FilesHold, GuestKnown, Usable, CacheHolds, SharedHold, Tidy, Cache, Made, Mappable, Unused, T.JumpsFit, WriteAt;
    var later := Mapped(s.space, at, |x86|);
    MapKeepsTidy(s.space, |s.t.ram|, Span(at, |x86|));
    WriteKeepsCache(s.t, s.space, g, w, at, x86, |x86|, later);
    WriteKeepsShared(s.shared, s.t.ram, s.space, g, w.codes, at, x86, |x86|, later);
    NewBlock(s.t.ram, later, g, at, code);
    CacheKeepsHolding(Write(s.t, at, x86), later, g, w, addr, at, |x86|, env.entry);
  }

  lemma SameGuest(t: T.State, space: Space, g: Setting, w: World, w': World)
    requires w'.guest == w.guest && w'.addrs == w.addrs && CacheHolds(t, space, g, w)
    ensures CacheHolds(t, space, g, w')
  {
    hide T.WellFormed, T.JumpsFit, Block;
  }

  /** The state is in order after the files were looked at. */
  lemma LookedUpCoherent(s: State, g: Setting, w: World, addr: Addr, code: seq<byte>, env: Env)
    requires Coherent(s, g, w) && code in w.codes && g.config.verifyHash
    ensures var (p, o) := FileLookup(s, g, addr, code, env);
            && Coherent(s.(p := p), g, AfterLookup(s, g, w, addr, code, env))
            && (o.Code? ==> g.trans(code) == Some(o.x86))
  {
    hide Tidy, SharedHold, FilesHold, CacheHolds, FileLookup, R.Remember, NoCollisions;
    LookupHolds(s, g, w, addr, code, env);
    SameGuest(s.t, s.space, g, w, AfterLookup(s, g, w, addr, code, env));
  }

  lemma RestoredIsServed(s: State, g: Setting, w: World, addr: Addr, code: seq<byte>, env: Env)
    requires Asks(s, g, w, addr, code, env) && RouteOf(s, g, addr, code, env).Stored?
    ensures var (t, at) := Translate(s, g, addr, code, env);
            at.Place? && Served(t, g, AfterLookup(s, g, w, addr, code, env), at.at, code)
  {
    hide Tidy, SharedHold, FilesHold, CacheHolds, T.JumpsFit, NoCollisions, FileLookup, Restore, Enter, RouteOf,
        R.Remember, Served, T.Hash;
    RouteFacts(s, g, addr, code, env);
    LookedUpCoherent(s, g, w, addr, code, env);
    var Stored(x86, at) := RouteOf(s, g, addr, code, env);
    var s1, w1 := s.(p := FileLookup(s, g, addr, code, env).0), AfterLookup(s, g, w, addr, code, env);
    RestoreHolds(s1, g, w1, addr, code, x86, at, env);
  }

  /** Taken memory is filled and the block entered at every level. */
  lemma EnterHolds(s: State, g: Setting, w: World, later: Space, addr: Addr, code: seq<byte>, x86: seq<byte>, at: nat, env: Env)
    requires Coherent(s, g, w) && Usable(s, g) && addr in w.guest && w.guest[addr] == code && g.trans(code) == Some(x86)
    requires at + EstSize(|code|) <= |s.t.ram| && |x86| <= EstSize(|code|) < TWO64 && |code| < TWO64
    requires Tidy(later, |s.t.ram|) && Extends(later, s.space) && Usable(s.(space := later), g)
    requires Unused(s.space, Span(at, EstSize(|code|))) && Taken(later, Span(at, EstSize(|code|)))
    requires Made(env.entry, s.t.lru, addr, at, |x86|) && R.Allowed(s.p, g.config, StoreOp(addr, code, x86, env))
    ensures Served(Enter(s.(space := later), g, addr, code, x86, at, env), g, AfterStore(s.p, g, w, addr, code, x86, env), at, code)
  {
    hide FilesHold, GuestKnown, CacheHolds, SharedHold, Tidy, Cache, Made, Unused, T.JumpsFit, WriteAt, R.Remember,
        R.Allowed, P.Store, CodeHash.Hash, Share;
    var n := EstSize(|code|);
    hide EstSize;
    var t2 := Fill(s.t, at, n, x86);
    FillHolds(s, g, w, at, n, x86, later);
    TakenWithin(later, Span(at, n), |x86|);
    NewBlock(WriteAt(s.t.ram, at, Zeros(n)), later, g, at, code);
    assert code in w.codes by { GuestIsKnown(w, addr); }
    CacheKeepsHolding(t2, later, g, w, addr, at, |x86|, env.entry);
    ShareHolds(s.shared, t2.ram, later, g, w.codes, Shared(CodeHash.Hash(code), at, |x86|), code);
    StoreHolds(s.p, g, w, addr, code, x86, env);
    SameGuest(Cache(t2, |x86|, env.entry, g.dispatcher), later, g, w, AfterStore(s.p, g, w, addr, code, x86, env));
    KnownStays(w, AfterStore(s.p, g, w, addr, code, x86, env));
  }

  lemma TakenWithin(space: Space, span: Span, n: nat)
    requires Taken(space, span) && n <= span.size
    ensures Taken(space, Span(span.at, n))
  {
    if k :| 0 <= k < |space.direct| && Inside(span, space.direct[k]) {
      assert Inside(Span(span.at, n), space.direct[k]);
    } else {
      var k :| 0 <= k < |space.pool.regions| && Inside(span, SpanOf(space.pool.regions[k]));
      assert Inside(Span(span.at, n), SpanOf(space.pool.regions[k]));
    }
  }

  lemma GuestIsKnown(w: World, addr: Addr)
    requires GuestKnown(w) && addr in w.guest
    ensures w.guest[addr] in w.codes
  {
    hide NoCollisions;
  }

  lemma KnownStays(w: World, w': World)
    requires GuestKnown(w) && w' == w.(stored := w'.stored)
    ensures GuestKnown(w')
  {
    hide NoCollisions;
  }

  lemma TakingHolds(s: State, g: Setting, w: World, code: seq<byte>, env: Env)
    requires Coherent(s, g, w) && Usable(s, g) && EstSize(|code|) <= M.USER_SPACE - 16 && GivenMaps(s, code, env)
    ensures var (later, o) := Taking(s, code, env);
            && Tidy(later, |s.t.ram|) && Extends(later, s.space) && Usable(s.(space := later), g)
            && (o.Place? ==> Unused(s.space, Span(o.at, EstSize(|code|))) && Taken(later, Span(o.at, EstSize(|code|))))
  {
    hide FilesHold, GuestKnown, CacheHolds, SharedHold, Tidy, T.JumpsFit, MapsFit, Take, Unused, Taken;
    TakeGivesUnused(s.space, |s.t.ram|, EstSize(|code|), env.poolMap, env.blockMap);
    var later := Taking(s, code, env).0;
    assert |later.pool.lists| == M.CLASSES by { TidyIsSound(later, |s.t.ram|); M.SoundHasLists(later.pool); }
  }

  lemma FreshIsServed(s: State, g: Setting, w: World, addr: Addr, code: seq<byte>, env: Env)
    requires Asks(s, g, w, addr, code, env) && RouteOf(s, g, addr, code, env).Fresh?
    ensures var (t, at) := Translate(s, g, addr, code, env);
            at.Place? && Served(t, g, After(s, g, w, addr, code, env), at.at, code)
  {
    hide Tidy, SharedHold, FilesHold, CacheHolds, Usable, NoCollisions, FileLookup, RouteOf, R.Remember, Served,
        T.Hash, Taking, Enter, Unused, Taken, R.Allowed;
    SizesAreSane(s, g, w, addr, code, env);
    RouteFacts(s, g, addr, code, env);
    LookedUpCoherent(s, g, w, addr, code, env);
    var Fresh(x86, at) := RouteOf(s, g, addr, code, env);
    var s1, w1 := s.(p := FileLookup(s, g, addr, code, env).0), AfterLookup(s, g, w, addr, code, env);
    TakingHolds(s, g, w, code, env);
    UsableAnyway(s.(space := Taking(s, code, env).0), s1.p, g);
    UsableAnyway(s, s1.p, g);
    EnterHolds(s1, g, w1, Taking(s, code, env).0, addr, code, x86, at, env);
  }

  lemma UsableAnyway(s: State, p: P.State, g: Setting)
    requires Usable(s, g)
    ensures Usable(s.(p := p), g)
  {
  }

  /** When no level answers, what is there stays right. */
  lemma FailureKeepsCoherent(s: State, g: Setting, w: World, addr: Addr, code: seq<byte>, env: Env)
    requires Asks(s, g, w, addr, code, env)
    requires var r := RouteOf(s, g, addr, code, env); r.NoSpace? || r.Refused?
    ensures var (t, at) := Translate(s, g, addr, code, env); at.Nowhere? && Coherent(t, g, AfterLookup(s, g, w, addr, code, env))
  {
    hide Tidy, SharedHold, FilesHold, CacheHolds, Usable, NoCollisions, FileLookup, RouteOf, R.Remember, T.Hash,
        Taking, Enter, Restore, Unused, Taken, WriteAt;
    SizesAreSane(s, g, w, addr, code, env);
    RouteFacts(s, g, addr, code, env);
    LookedUpCoherent(s, g, w, addr, code, env);
    TakingHolds(s, g, w, code, env);
    var later, n := Taking(s, code, env).0, EstSize(|code|);
    var s1, w1 := s.(p := FileLookup(s, g, addr, code, env).0), AfterLookup(s, g, w, addr, code, env);
    match RouteOf(s, g, addr, code, env)
    case Refused(x86, at) =>
      FillHolds(s1, g, w1, at, n, x86, later);
    case NoSpace =>
      SpaceGrows(s1, g, w1, later);
  }

  lemma SpaceGrows(s: State, g: Setting, w: World, later: Space)
    requires Coherent(s, g, w) && Extends(later, s.space) && Tidy(later, |s.t.ram|)
    ensures Coherent(s.(space := later), g, w)
  {
    hide Tidy, T.Hash, FilesHold, T.WellFormed, T.JumpsFit, CodeHash.Hash, Taken;
    forall w: Span | Taken(s.space, w)
      ensures Taken(later, w)
    {
      TakenStaysTaken(s.space, later, w);
    }
    SharedStays(s, g, w, later);
  }

  lemma SharedStays(s: State, g: Setting, w: World, later: Space)
    requires SharedHold(s.shared, s.t.ram, s.space, g, w.codes) && forall w: Span :: Taken(s.space, w) ==> Taken(later, w)
    ensures SharedHold(s.shared, s.t.ram, later, g, w.codes)
  {
    hide Taken, CodeHash.Hash;
    forall b, i | 0 <= b < |s.shared| && 0 <= i < |s.shared[b]|
      ensures SharedIs(s.t.ram, later, g, w.codes, s.shared[b][i])
    {
      assert SharedIs(s.t.ram, s.space, g, w.codes, s.shared[b][i]);
    }
  }

  // ---- the whole call

  /**
    Whichever level answers a call, the memory at the address it returns holds the
    translation of the bytes given; and every level stays in order.
   */
  lemma TranslateAnswers(s: State, g: Setting, w: World, addr: Addr, code: seq<byte>, env: Env)
    requires Asks(s, g, w, addr, code, env)
    ensures var (t, at) := Translate(s, g, addr, code, env);
            && Coherent(t, g, After(s, g, w, addr, code, env))
            && (at.Place? ==> Served(t, g, After(s, g, w, addr, code, env), at.at, code))
  {
    SizesAreSane(s, g, w, addr, code, env);
    hide Coherent, Translate, AfterLookup, AfterStore, RouteOf, Given, FileLookup, Usable;
    match RouteOf(s, g, addr, code, env)
    case Cached(_) => CachedIsServed(s, g, w, addr, code, env);
    case Stored(_, _) => RestoredIsServed(s, g, w, addr, code, env);
    case SharedBlock(_) => SharedIsServed(s, g, w, addr, code, env);
    case Fresh(_, _) => FreshIsServed(s, g, w, addr, code, env);
    case Refused(_, _) => FailureKeepsCoherent(s, g, w, addr, code, env);
    case NoSpace => FailureKeepsCoherent(s, g, w, addr, code, env);
  }

  /** The file of the address can be read back for this code. */
  ghost predicate FileAnswers(g: Setting, w: World, addr: Addr, code: seq<byte>, env: Env) {
    && g.config.enabled && addr in w.stored && w.stored[addr].arm == code && w.stored[addr].flags == 0
    && env.bufferOk && env.fileMap.Some?
  }

  lemma FileAnswersIff(s: State, g: Setting, w: World, addr: Addr, code: seq<byte>, env: Env)
    requires GuestKnown(w) && FilesHold(s.p, g, w) && code in w.codes && g.config.verifyHash
    ensures FileLookup(s, g, addr, code, env).1.Code? && env.fileMap.Some? <==> FileAnswers(g, w, addr, code, env)
  {
    hide R.Tracks, P.Lookup, P.Checksum;
    R.LookupAnswersStoredIff(s.p, w.stored, g.config, addr, code, 0, env.bufferOk, env.now);
  }

  /**
    A call gets no address exactly when no level has the code, the cache by address,
    the file for this very code, or a block filed under the code's hash, and then
    there is no memory, the translator fails or the memory cannot be made executable.
   */
  lemma NoAnswerIff(s: State, g: Setting, w: World, addr: Addr, code: seq<byte>, env: Env)
    requires Asks(s, g, w, addr, code, env)
    ensures EstSize(|code|) < TWO64 && |s.t.chains| > 0 && |s.shared| == SHARED_BUCKETS && |s.space.pool.lists| == M.CLASSES
    ensures var h := CodeHash.Hash(code);
            Translate(s, g, addr, code, env).1.Nowhere?
            <==> && T.Find(s.t, addr).Missing? && !FileAnswers(g, w, addr, code, env)
                 && FindShared(s.shared[h % SHARED_BUCKETS], h).None?
                 && (Taking(s, code, env).1.Nowhere? || g.trans(code).None? || !env.protectOk)
  {
    SizesAreSane(s, g, w, addr, code, env);
    FileAnswersIff(s, g, w, addr, code, env);
    AnswerFollowsRoute(s, g, addr, code, env);
    hide Coherent, Given, Recorded, Translate, FileLookup, FileAnswers, T.Find, T.JumpsFit, CodeHash.Hash, FindShared, Taking;
  }

  lemma AnswerFollowsRoute(s: State, g: Setting, addr: Addr, code: seq<byte>, env: Env)
    requires Usable(s, g) && Given(s, g, addr, code, env)
    ensures var r := RouteOf(s, g, addr, code, env); Translate(s, g, addr, code, env).1.Nowhere? <==> r.Refused? || r.NoSpace?
  {
    hide RouteOf, FileLookup, Taking, Restore, Enter, T.Touch, Fill;
  }

  // ---- guest code that changes without an invalidation

  /** The block of the level that answered holds the translation of the code, all of it and no more. */
  ghost predicate Answered(t: State, g: Setting, route: Route, at: nat, code: seq<byte>) {
    && g.trans(code).Some?
    && match route
       case Cached(e) => e.code + e.size <= |t.t.ram| && t.t.ram[e.code..e.code + e.size] == g.trans(code).value
       case _ => Block(t.t.ram, t.space, g, at, |g.trans(code).value|, code)
  }

  lemma MissedGuestMayChange(s: State, g: Setting, w: World, addr: Addr, code: seq<byte>)
    requires Coherent(s, g, w) && T.Find(s.t, addr).Missing? && GuestKnown(w.(guest := w.guest[addr := code]))
    ensures Coherent(s, g, w.(guest := w.guest[addr := code]))
  {
    hide Tidy, SharedHold, R.Tracks, NoCollisions, T.Hash, T.SumSizes, Block;
    forall e | e in s.t.lru
      ensures e.addr != addr
    {
      assert e in s.t.chains[e.hash % |s.t.chains|];
    }
  }

  /**
    Guest code that was replaced without an invalidation is answered with its
    translation exactly when the translation cache misses or the old code has the
    same translation.
   */
  lemma ChangedCodeAnsweredIff(s: State, g: Setting, w: World, addr: Addr, code: seq<byte>, env: Env)
    requires Coherent(s, g, w) && Usable(s, g) && g.config.verifyHash && addr in w.guest
    requires GuestKnown(w.(guest := w.guest[addr := code])) && Given(s, g, addr, code, env) && Recorded(s, g, addr, code, env)
    ensures var (t, at) := Translate(s, g, addr, code, env);
            at.Place? ==> (Answered(t, g, RouteOf(s, g, addr, code, env), at.at, code)
                          <==> T.Find(s.t, addr).Missing? || g.trans(code) == g.trans(w.guest[addr]))
  {
    assert EstSize(|code|) < TWO64 by { hide RouteOf, R.Allowed, Made; }
    hide RouteOf, Given, GuestKnown, T.JumpsFit, T.WellFormed, FileLookup, Restore, Enter, Tidy, SharedHold,
        FilesHold, T.Find, T.FindFirst;
    RouteFacts(s, g, addr, code, env);
    if T.Find(s.t, addr).Missing? {
      hide Translate, After, CacheHolds, Usable, Block;
      var w' := w.(guest := w.guest[addr := code]);
      MissedGuestMayChange(s, g, w, addr, code);
      TranslateAnswers(s, g, w', addr, code, env);
    } else {
      HitIsCached(s, g, addr, code, env);
      HitHoldsOld(s, g, w, addr);
      hide CacheHolds, Usable, Block;
    }
  }

  /** What the cache has for an address is the translation of the code it was made from. */
  lemma HitHoldsOld(s: State, g: Setting, w: World, addr: Addr)
    requires Coherent(s, g, w) && |s.t.chains| > 0 && T.Find(s.t, addr).Hit?
    ensures var e := T.Find(s.t, addr).entry;
            && addr in w.guest && g.trans(w.guest[addr]).Some? && e.code + e.size <= |s.t.ram|
            && s.t.ram[e.code..e.code + e.size] == g.trans(w.guest[addr]).value
    ensures T.Touch(s.t, addr).ram == s.t.ram
  {
    hide GuestKnown, Tidy, SharedHold, FilesHold, T.WellFormed, T.JumpsFit, Taken;
    TouchHolds(s.t, s.space, g, w, addr);
  }

  lemma HitIsCached(s: State, g: Setting, addr: Addr, code: seq<byte>, env: Env)
    requires Usable(s, g) && EstSize(|code|) < TWO64
    ensures T.Find(s.t, addr).Hit? <==> RouteOf(s, g, addr, code, env).Cached?
  {
    hide T.Find, T.JumpsFit, P.Lookup, CodeHash.Hash, FindShared, Take;
  }

  /** A translator that copies. */
  function Copy(code: seq<byte>): Option<seq<byte>> {
    Some(code)
  }

  const OLD: seq<byte> := [0]
  const NEW: seq<byte> := [1]

  /** A block that is found by address is returned even if its code is not that of the request. */
  lemma HitIsStale(s: State, g: Setting, w: World, addr: Addr, code: seq<byte>, env: Env)
    requires Coherent(s, g, w) && Usable(s, g) && T.Find(s.t, addr).Hit? && addr in w.guest
    requires g.trans(code) != g.trans(w.guest[addr]) && code != [] && EstSize(|code|) <= M.USER_SPACE - 16
    ensures EstSize(|code|) < TWO64 && Given(s, g, addr, code, env)
    ensures var (t, at) := Translate(s, g, addr, code, env);
            at == Place(T.Find(s.t, addr).entry.code) && !Answered(t, g, RouteOf(s, g, addr, code, env), at.at, code)
  {
    assert EstSize(|code|) < TWO64 && |s.t.chains| > 0 by { hide Coherent, T.JumpsFit, T.Find; }
    hide *;
    HitIsCached(s, g, addr, code, env);
    HitHoldsOld(s, g, w, addr);
    RouteFacts(s, g, addr, code, env);
    HitIsReturned(s, g, addr, code, env);
    NotAnswered(T.Touch(s.t, addr).ram, Translate(s, g, addr, code, env).0, g, T.Find(s.t, addr).entry, code, w.guest[addr]);
  }

  lemma HitIsReturned(s: State, g: Setting, addr: Addr, code: seq<byte>, env: Env)
    requires Usable(s, g) && code != [] && EstSize(|code|) <= M.USER_SPACE - 16 && RouteOf(s, g, addr, code, env).Cached?
    ensures Given(s, g, addr, code, env)
    ensures Translate(s, g, addr, code, env) == (s.(t := T.Touch(s.t, addr)), Place(RouteOf(s, g, addr, code, env).e.code))
  {
    hide RouteOf, FileLookup, Taking, Restore, Enter, Fill, T.Find, T.Touch, T.JumpsFit;
  }

  lemma NotAnswered(ram: seq<byte>, t: State, g: Setting, e: T.Entry, code: seq<byte>, was: seq<byte>)
    requires t.t.ram == ram && e.code + e.size <= |ram| && g.trans(was) == Some(ram[e.code..e.code + e.size]) && g.trans(code) != g.trans(was)
    ensures !Answered(t, g, Cached(e), e.code, code)
  {
    hide Block;
  }

  lemma Together(s: State, g: Setting, w: World)
    requires GuestKnown(w) && Tidy(s.space, |s.t.ram|) && CacheHolds(s.t, s.space, g, w)
    requires SharedHold(s.shared, s.t.ram, s.space, g, w.codes) && FilesHold(s.p, g, w)
    requires |s.t.chains| > 0 && T.JumpsFit(s.t, g.dispatcher) && |s.shared| == SHARED_BUCKETS && |s.space.pool.lists| == M.CLASSES
    ensures Coherent(s, g, w) && Usable(s, g)
  {
    hide GuestKnown, Tidy, CacheHolds, SharedHold, FilesHold, T.JumpsFit;
  }

  lemma OneChain(e: T.Entry)
    requires e.addr == 65536
    ensures T.FindFirst([[e]][T.Hash(65536) % 1], 65536) == T.Hit(e)
  {
    hide T.Hash;
  }

  /** One block is cached: the copy of the byte 0, at 4096, for the guest address 65536. */
  ghost function OneBlock(e: T.Entry, p: P.State): State {
    State(T.State([e], [[e]], 1, T.MIN_SIZE, [], Zeros(4097)), p, NoShared(), Space(M.Init(0, 0, 0, None), [Span(4096, 1)]))
  }

  lemma DifferentBytesNoCollision(x: byte, y: byte)
    requires x != y
    ensures NoCollisions({[x], [y]})
  {
    hide P.Checksum, CodeHash.Hash;
    var a, b := [x], [y];
    assert a[0] == x && b[0] == y;
    R.EditedSumsDiffer(a, b, 0);
    CodeHash.OneByteSeparates(a, b, 0);
  }

  /** A cache of one block. */
  lemma OneEntryHolds(e: T.Entry, ram: seq<byte>, space: Space, g: Setting, w: World)
    requires e.hash == T.Hash(e.addr) && |g.dispatcher| == 8
    requires e.addr in w.guest && Block(ram, space, g, e.code, e.size, w.guest[e.addr])
    ensures CacheHolds(T.State([e], [[e]], e.size, T.MIN_SIZE, [], ram), space, g, w)
  {
    hide T.Hash, Block;
    assert T.SumSizes([e]) == e.size by { assert [e][..0] == []; }
  }

  lemma OneSpanIsTidy(n: nat)
    requires n >= 4097
    ensures var space := Space(M.Init(0, 0, 0, None), [Span(4096, 1)]); Tidy(space, n) && Taken(space, Span(4096, 1))
  {
    M.InitIsSound(0, 0, 0, None);
    var space := Space(M.Init(0, 0, 0, None), [Span(4096, 1)]);
    hide M.Sound;
    assert forall c, i :: !M.Has(space.pool, c, i);
    assert Inside(Span(4096, 1), space.direct[0]);
  }

  ghost function OneGuest(): World {
    World(map[65536 := OLD], map[], {OLD, NEW}, {65536})
  }

  lemma OneGuestIsKnown()
    ensures GuestKnown(OneGuest()) && GuestKnown(OneGuest().(guest := map[65536 := NEW]))
    ensures OneGuest().guest == map[65536 := OLD]
  {
    assert OLD[0] != NEW[0];
    DifferentBytesNoCollision(0, 1);
    hide NoCollisions;
  }

  lemma NothingIsHeld(p: P.State, g: Setting, ram: seq<byte>, space: Space)
    requires p.disk == map[]
    ensures FilesHold(p, g, OneGuest()) && SharedHold(NoShared(), ram, space, g, OneGuest().codes)
  {
    hide SharedIs;
  }

  lemma NewIsAnother(g: Setting)
    requires g.trans == Copy
    ensures NEW != [] && g.trans(NEW) != g.trans(OLD) && EstSize(|NEW|) == 4096 <= M.USER_SPACE - 16
  {
    assert OLD[0] != NEW[0];
  }

  lemma OneBlockFields(e: T.Entry, p: P.State)
    ensures var s := OneBlock(e, p);
            && s.p == p && s.shared == NoShared() && s.space == Space(M.Init(0, 0, 0, None), [Span(4096, 1)])
            && s.t == T.State([e], [[e]], 1, T.MIN_SIZE, [], s.t.ram) && |s.t.ram| == 4097 && s.t.ram[4096..4097] == OLD
            && |s.space.pool.lists| == M.CLASSES
  {
  }

  lemma OneEntryIsUsable(e: T.Entry, t: T.State, g: Setting)
    requires t == T.State([e], [[e]], 1, T.MIN_SIZE, [], t.ram) && |g.dispatcher| == 8 && e.addr == 65536
    ensures T.JumpsFit(t, g.dispatcher) && T.Find(t, 65536) == T.Hit(e)
  {
    OneChain(e);
  }

  lemma CopiedBlock(ram: seq<byte>, space: Space, g: Setting, at: nat, code: seq<byte>)
    requires g.trans == Copy && at + |code| <= |ram| && ram[at..at + |code|] == code && Taken(space, Span(at, |code|))
    ensures Block(ram, space, g, at, |code|, code)
  {
  }

  lemma OneBlockIsCoherent(e: T.Entry, p: P.State, g: Setting)
    requires p.disk == map[] && g.trans == Copy && |g.dispatcher| == 8
    requires e.addr == 65536 && e.code == 4096 && e.size == 1 && e.hash == T.Hash(65536)
    ensures Coherent(OneBlock(e, p), g, OneGuest()) && Usable(OneBlock(e, p), g)
    ensures T.Find(OneBlock(e, p).t, 65536) == T.Hit(e)
  {
    hide *;
    var s := OneBlock(e, p);
    OneBlockFields(e, p);
    OneGuestIsKnown();
    NothingIsHeld(p, g, s.t.ram, s.space);
    OneSpanIsTidy(4097);
    OneEntryIsUsable(e, s.t, g);
    CopiedBlock(s.t.ram, s.space, g, 4096, OLD);
    OneEntryHolds(e, s.t.ram, s.space, g, OneGuest());
    Together(s, g, OneGuest());
  }

  /**
    For instance, the byte 0 is cached and replaced by the byte 1: the request gets the
    address of the old block, whose code is not that of the new byte.
   */
  lemma ChangedByteIsStale(e: T.Entry, p: P.State, g: Setting, env: Env)
    requires p.disk == map[] && g.trans == Copy && |g.dispatcher| == 8
    requires e.addr == 65536 && e.code == 4096 && e.size == 1 && e.hash == T.Hash(65536)
    ensures var s := OneBlock(e, p);
            && Coherent(s, g, OneGuest()) && GuestKnown(OneGuest().(guest := map[65536 := NEW]))
            && Usable(s, g) && EstSize(|NEW|) < TWO64 && Given(s, g, 65536, NEW, env)
            && Translate(s, g, 65536, NEW, env).1 == Place(4096)
            && !Answered(Translate(s, g, 65536, NEW, env).0, g, RouteOf(s, g, 65536, NEW, env), 4096, NEW)
  {
    hide *;
    OneBlockIsCoherent(e, p, g);
    OneGuestIsKnown();
    NewIsAnother(g);
    HitIsStale(OneBlock(e, p), g, OneGuest(), 65536, NEW, env);
  }

  // ---- runs

  datatype Op =
    | DoTranslate(addr: Addr, code: seq<byte>, env: Env)
    | DoInvalidate(guest: map<Addr, seq<byte>>)
    | DoRegister(j: JumpTarget)

  /** Calls are for the guest's code, which changes only as the cache is cleared; jumps lead to host code. */
  ghost predicate Possible(s: State, g: Setting, w: World, op: Op) {
    match op
    case DoTranslate(addr, code, env) =>
      Usable(s, g) && addr in w.guest && w.guest[addr] == code && Given(s, g, addr, code, env) && Recorded(s, g, addr, code, env)
    case DoInvalidate(guest) => GuestKnown(w.(guest := guest))
    case DoRegister(j) => j.target !in w.addrs && j.site + PATCH_LEN <= |s.t.ram|
  }

  ghost function Step(s: State, g: Setting, w: World, op: Op): (State, World)
    requires Possible(s, g, w, op)
  {
    match op
    case DoTranslate(addr, code, env) => (Translate(s, g, addr, code, env).0, After(s, g, w, addr, code, env))
    case DoInvalidate(guest) => (s.(t := T.Clear(s.t)), w.(guest := guest))
    case DoRegister(j) => (s.(t := s.t.(jumps := [j] + s.t.jumps)), w)
  }

  /** The operation, if it is a call that returned an address, returned the translation's. */
  ghost predicate StepAnswers(s: State, g: Setting, w: World, op: Op)
    requires Possible(s, g, w, op)
  {
    match op
    case DoTranslate(addr, code, env) =>
      var (t, at) := Translate(s, g, addr, code, env);
      at.Place? ==> g.trans(code).Some? && Block(t.t.ram, t.space, g, at.at, |g.trans(code).value|, code)
    case _ => true
  }

  lemma StepKeepsCoherent(s: State, g: Setting, w: World, op: Op)
    requires Coherent(s, g, w) && g.config.verifyHash && Possible(s, g, w, op)
    ensures var (t, w') := Step(s, g, w, op); Coherent(t, g, w') && StepAnswers(s, g, w, op)
  {
    hide Translate, After, Given, Tidy, SharedHold, R.Tracks, NoCollisions, T.Hash, T.SumSizes, Block, T.WellFormed, T.Clear;
    match op
    case DoTranslate(addr, code, env) =>
      hide Coherent;
      TranslateAnswers(s, g, w, addr, code, env);
    case DoInvalidate(guest) =>
      ClearHolds(s.t, s.space, g, w, guest);
    case DoRegister(j) =>
      RegisterHolds(s.t, s.space, g, w, j);
  }

  lemma RegisterHolds(t: T.State, space: Space, g: Setting, w: World, j: JumpTarget)
    requires CacheHolds(t, space, g, w) && j.target !in w.addrs && j.site + PATCH_LEN <= |t.ram|
    ensures CacheHolds(t.(jumps := [j] + t.jumps), space, g, w)
  {
    hide T.ChainsHold, T.SumSizes, T.Hash, Block;
  }

  lemma ClearHolds(t: T.State, space: Space, g: Setting, w: World, guest: map<Addr, seq<byte>>)
    requires CacheHolds(t, space, g, w)
    ensures CacheHolds(T.Clear(t), space, g, w.(guest := guest)) && T.Clear(t).ram == t.ram
  {
    T.ClearKeepsWellFormed(t);
    hide T.WellFormed, Block;
  }

  ghost predicate Runs(s: State, g: Setting, w: World, ops: seq<Op>)
    decreases |ops|
  {
    ops == [] || (Possible(s, g, w, ops[0]) && Runs(Step(s, g, w, ops[0]).0, g, Step(s, g, w, ops[0]).1, ops[1..]))
  }

  ghost predicate AllAnswered(s: State, g: Setting, w: World, ops: seq<Op>)
    requires Runs(s, g, w, ops)
    decreases |ops|
  {
    ops == [] || (StepAnswers(s, g, w, ops[0]) && AllAnswered(Step(s, g, w, ops[0]).0, g, Step(s, g, w, ops[0]).1, ops[1..]))
  }

  /** Over whole runs, every call that returns an address returns the translation of the code it was given. */
  lemma {:induction false} RunsAnswerTranslations(s: State, g: Setting, w: World, ops: seq<Op>)
    requires Coherent(s, g, w) && g.config.verifyHash && Runs(s, g, w, ops)
    ensures AllAnswered(s, g, w, ops)
    decreases |ops|
  {
    hide Coherent, Step, StepAnswers, Possible;
    if ops != [] {
      StepKeepsCoherent(s, g, w, ops[0]);
      RunsAnswerTranslations(Step(s, g, w, ops[0]).0, g, Step(s, g, w, ops[0]).1, ops[1..]);
    }
  }

  /** An instance with nothing in memory is in order, whatever an earlier process left in the files. */
  lemma FreshIsCoherent(buckets: nat, total: u64, ram: seq<byte>, p: P.State, space: Space, g: Setting, w: World)
    requires buckets > 0 && |g.dispatcher| == 8 && GuestKnown(w) && FilesHold(p, g, w) && Tidy(space, |ram|)
    ensures Coherent(State(T.State([], seq(buckets, _ => []), 0, total, [], ram), p, NoShared(), space), g, w)
  {
    hide GuestKnown, FilesHold, Tidy;
  }
}
