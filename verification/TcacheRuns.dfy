/** What holds of the translation cache over whole runs of its operations. */
module TcacheRuns {
  import opened Words
  import opened Sequences
  import opened Jumps
  import opened TcacheSpec

  // ---- resizing and duplicate addresses

  ghost function FindLast(chain: seq<Entry>, addr: Addr): (r: Found)
    ensures r.Hit? ==> r.entry in chain && r.entry.addr == addr
    ensures r.Missing? ==> forall e :: e in chain ==> e.addr != addr
  {
    if chain == [] then Missing
    else if chain[|chain| - 1].addr == addr then Hit(chain[|chain| - 1])
    else FindLast(chain[..|chain| - 1], addr)
  }

  lemma {:induction false} FindLastConcat(a: seq<Entry>, b: seq<Entry>, addr: Addr)
    ensures FindLast(a + b, addr) == if FindLast(b, addr).Hit? then FindLast(b, addr) else FindLast(a, addr)
  {
    if b == [] {
      assert a + b == a;
    } else {
      assert (a + b)[..|a + b| - 1] == a + b[..|b| - 1];
      FindLastConcat(a, b[..|b| - 1], addr);
    }
  }

  /** In a rebuilt chain the first match is the last one among the entries pushed. */
  lemma {:induction false} BucketedReverses(es: seq<Entry>, n: nat, addr: Addr)
    requires n > 0 && forall e :: e in es ==> e.hash == Hash(e.addr)
    ensures FindFirst(Bucketed(es, n, Hash(addr) % n), addr) == FindLast(es, addr)
  {
    hide Hash;
    if es != [] {
      BucketedReverses(es[..|es| - 1], n, addr);
    }
  }

  lemma {:induction false} FlattenFindLast(chains: seq<seq<Entry>>, n: nat, addr: Addr)
    requires |chains| <= n && n > 0
    requires forall b, e :: 0 <= b < |chains| && e in chains[b] ==> e.hash % n == b && e.hash == Hash(e.addr)
    ensures FindLast(Flatten(chains), addr)
            == if Hash(addr) % n < |chains| then FindLast(chains[Hash(addr) % n], addr) else Missing
  {
    hide Hash;
    if chains != [] {
      var last := |chains| - 1;
      FlattenFindLast(chains[..last], n, addr);
      FindLastConcat(Flatten(chains[..last]), chains[last], addr);
      var f := FindLast(chains[last], addr);
      if f.Hit? {
        assert f.entry in chains[last] && f.entry.hash % n == last;
      }
    }
  }

  /**
    A resize that changes the size reverses every chain: afterwards a lookup finds
    the entry that was last in the chain, not the first.
   */
  lemma ResizeFindsLast(s: State, size: u64, addr: Addr)
    requires WellFormed(s) && Clamp(size) != s.total
    ensures Find(Resize(s, size), addr) == FindLast(s.chains[Hash(addr) % |s.chains|], addr)
  {
    hide Hash;
    var es, n := Flatten(s.chains), Clamp(size) / POINTER_SIZE;
    FlattenFindLast(s.chains, |s.chains|, addr);
    BucketedReverses(es, n, addr);
  }

  ghost predicate Duplicated(s: seq<Entry>, addr: Addr) {
    exists d, e :: d in s && e in s && d != e && d.addr == e.addr == addr
  }

  lemma {:induction false} FirstIsLastIff(chain: seq<Entry>, addr: Addr)
    requires NoDup(chain)
    ensures FindFirst(chain, addr) == FindLast(chain, addr) <==> !Duplicated(chain, addr)
  {
    var f, l := FindFirst(chain, addr), FindLast(chain, addr);
    if f == l && Duplicated(chain, addr) {
      var d, e :| d in chain && e in chain && d != e && d.addr == e.addr == addr;
      var i :| 0 <= i < |chain| && chain[i] == d;
      var j :| 0 <= j < |chain| && chain[j] == e;
      FirstBefore(chain, addr, if i < j then i else j);
      LastAfter(chain, addr, if i < j then j else i);
    }
  }

  lemma {:induction false} FirstBefore(chain: seq<Entry>, addr: Addr, i: nat)
    requires i < |chain| && chain[i].addr == addr
    ensures exists k :: 0 <= k <= i && FindFirst(chain, addr) == Hit(chain[k])
  {
    if chain[0].addr != addr {
      FirstBefore(chain[1..], addr, i - 1);
      var k :| 0 <= k <= i - 1 && FindFirst(chain[1..], addr) == Hit(chain[1..][k]);
      assert chain[1..][k] == chain[k + 1];
    }
  }

  lemma {:induction false} LastAfter(chain: seq<Entry>, addr: Addr, i: nat)
    requires i < |chain| && chain[i].addr == addr
    ensures exists k :: i <= k < |chain| && FindLast(chain, addr) == Hit(chain[k])
  {
    var n := |chain| - 1;
    if chain[n].addr != addr {
      LastAfter(chain[..n], addr, i);
      var k :| i <= k < n && FindLast(chain[..n], addr) == Hit(chain[..n][k]);
      assert chain[..n][k] == chain[k];
    }
  }

  lemma DuplicatedInItsChain(s: State, addr: Addr)
    requires WellFormed(s)
    ensures Duplicated(s.lru, addr) <==> Duplicated(s.chains[Hash(addr) % |s.chains|], addr)
  {
    hide Hash;
  }

  /**
    A resize that changes the size leaves the lookup of an address alone exactly
    when the cache does not hold two blocks for that address.
   */
  lemma ResizeKeepsLookupIff(s: State, size: u64, addr: Addr)
    requires WellFormed(s) && Clamp(size) != s.total
    ensures Find(Resize(s, size), addr) == Find(s, addr) <==> !Duplicated(s.lru, addr)
  {
    hide Hash;
    ResizeFindsLast(s, size, addr);
    FirstIsLastIff(s.chains[Hash(addr) % |s.chains|], addr);
    DuplicatedInItsChain(s, addr);
  }

  // ---- runs

  datatype Op =
    | DoLookup(addr: Addr)
    | DoInsert(entry: Entry)
    | DoMakeRoom(size: u64)
    | DoResize(size: u64)
    | DoRegister(jump: JumpTarget)
    | DoClear

  datatype Event = Inserted(entry: Entry) | Evicted(victim: Entry) | Cleared

  datatype Run = Run(state: State, history: seq<Event>)

  /** The blocks behind the first k of the recency list go, the least recent first. */
  ghost function Evictions(lru: seq<Entry>, k: nat): seq<Event>
    decreases |lru|
  {
    if |lru| <= k then [] else [Evicted(lru[|lru| - 1])] + Evictions(lru[..|lru| - 1], k)
  }

  /** An insertion that finds no memory for its record has made room all the same: that is DoMakeRoom. */
  ghost function Play(r: Run, op: Op, dispatcher: seq<byte>): Run
    requires |r.state.chains| > 0 && JumpsFit(r.state, dispatcher)
  {
    var s := r.state;
    match op
    case DoLookup(addr) => Run(Touch(s, addr), r.history)
    case DoInsert(e) =>
      var kept := |Evict(s, e.size, dispatcher).lru|;
      Run(Insert(s, e, dispatcher),
          r.history + Evictions(s.lru, kept) + [Inserted(e)])
    case DoMakeRoom(size) =>
      var t := Evict(s, size, dispatcher);
      Run(t, r.history + Evictions(s.lru, |t.lru|))
    case DoResize(size) => Run(Resize(s, size), r.history)
    case DoRegister(j) => Run(s.(jumps := [j] + s.jumps), r.history)
    case DoClear => Run(Clear(s), r.history + [Cleared])
  }

  /** What the history leaves alive: a block lives until it is evicted or the cache is cleared. */
  ghost function Live(history: seq<Event>): map<Addr, Entry> {
    if history == [] then map[]
    else
      var before := Live(history[..|history| - 1]);
      match history[|history| - 1]
      case Inserted(e) => before[e.addr := e]
      case Evicted(e) => before - {e.addr}
      case Cleared => map[]
  }

  /** Every insertion follows a miss on the same address, as in the layered lookup. */
  ghost predicate AfterMiss(s: State, op: Op)
    requires |s.chains| > 0
  {
    match op
    case DoInsert(e) => Find(s, e.addr) == Missing && e !in s.lru && e.hash == Hash(e.addr) && !e.locked
    case DoRegister(j) => j.site + PATCH_LEN <= |s.ram|
    case _ => true
  }

  /** The blocks of the recency list, by address. */
  ghost predicate Agrees(lru: seq<Entry>, m: map<Addr, Entry>) {
    && (forall e :: e in lru ==> e.addr in m && m[e.addr] == e)
    && (forall a :: a in m ==> m[a] in lru && m[a].addr == a)
  }

  ghost predicate Faithful(r: Run, dispatcher: seq<byte>) {
    && WellFormed(r.state)
    && JumpsFit(r.state, dispatcher)
    && Unlocked(r.state.lru)
    && Agrees(r.state.lru, Live(r.history))
  }

  /** When the recency list agrees with a map, a lookup answers by that map. */
  lemma FindAnswersMap(s: State, m: map<Addr, Entry>, addr: Addr)
    requires WellFormed(s) && Agrees(s.lru, m)
    ensures Find(s, addr) == if addr in m then Hit(m[addr]) else Missing
  {
    hide Hash;
    if addr in m {
      assert m[addr] in s.chains[Hash(addr) % |s.chains|];
    }
    var f := Find(s, addr);
    if f.Hit? {
      assert f.entry in s.lru;
    }
  }

  lemma LiveEvicted(history: seq<Event>, e: Entry)
    ensures Live(history + [Evicted(e)]) == Live(history) - {e.addr}
  {
    var h := history + [Evicted(e)];
    assert h[..|h| - 1] == history && h[|h| - 1] == Evicted(e);
  }

  lemma LiveInserted(history: seq<Event>, e: Entry)
    ensures Live(history + [Inserted(e)]) == Live(history)[e.addr := e]
  {
    var h := history + [Inserted(e)];
    assert h[..|h| - 1] == history && h[|h| - 1] == Inserted(e);
  }

  lemma AgreesWithoutLast(lru: seq<Entry>, m: map<Addr, Entry>)
    requires lru != [] && NoDup(lru) && Agrees(lru, m)
    ensures Agrees(lru[..|lru| - 1], m - {lru[|lru| - 1].addr})
  {
    var n := |lru| - 1;
    var rest, last := lru[..n], lru[n];
    assert last in lru && m[last.addr] == last;
    forall e | e in rest
      ensures e in lru && e.addr != last.addr
    {
      var i :| 0 <= i < n && rest[i] == e;
      assert lru[i] == e && m[e.addr] == e;
    }
    forall a | a in m && a != last.addr
      ensures m[a] in rest
    {
      var i :| 0 <= i < |lru| && lru[i] == m[a];
      assert rest[i] == m[a];
    }
  }

  lemma {:induction false} LiveAfterEvictions(history: seq<Event>, lru: seq<Entry>, k: nat)
    requires NoDup(lru) && k <= |lru| && Agrees(lru, Live(history))
    ensures Agrees(lru[..k], Live(history + Evictions(lru, k)))
    decreases |lru|
  {
    hide Live, Agrees;
    if k == |lru| {
      assert lru[..k] == lru && history + Evictions(lru, k) == history;
    } else {
      var n := |lru| - 1;
      var h := history + [Evicted(lru[n])];
      LiveEvicted(history, lru[n]);
      AgreesWithoutLast(lru, Live(history));
      LiveAfterEvictions(h, lru[..n], k);
      assert lru[..n][..k] == lru[..k];
      Associative(history, [Evicted(lru[n])], Evictions(lru[..n], k));
    }
  }

  lemma LiveAfterInsertion(history: seq<Event>, lru: seq<Entry>, e: Entry)
    requires Agrees(lru, Live(history)) && e.addr !in Live(history)
    ensures Agrees([e] + lru, Live(history + [Inserted(e)]))
  {
    hide Live;
    LiveInserted(history, e);
  }

  /** One operation keeps the cache faithful to its history. */
  lemma PlayKeepsFaithful(r: Run, op: Op, dispatcher: seq<byte>)
    requires Faithful(r, dispatcher) && AfterMiss(r.state, op)
    ensures Faithful(Play(r, op, dispatcher), dispatcher)
  {
    hide Hash, ChainsHold, Patched;
    var s := r.state;
    match op
    case DoLookup(addr) =>
      TouchKeepsWellFormed(s, addr);
    case DoInsert(e) =>
      InsertKeepsFaithful(r, e, dispatcher);
    case DoMakeRoom(size) =>
      MakeRoomKeepsFaithful(r, size, dispatcher);
    case DoResize(size) =>
      ResizeKeepsWellFormed(s, size);
    case DoRegister(j) =>
    case DoClear =>
      ClearKeepsWellFormed(s);
  }

  lemma MakeRoomKeepsFaithful(r: Run, size: u64, dispatcher: seq<byte>)
    requires Faithful(r, dispatcher)
    ensures Faithful(Play(r, DoMakeRoom(size), dispatcher), dispatcher)
  {
    hide Hash, ChainsHold, Patched, Find, EvictOne;
    var s := r.state;
    var t := Evict(s, size, dispatcher);
    EvictKeepsWellFormed(s, size, dispatcher);
    EvictDropsShortestSuffix(s, size, dispatcher);
    LiveAfterEvictions(r.history, s.lru, |t.lru|);
  }

  lemma InsertKeepsFaithful(r: Run, e: Entry, dispatcher: seq<byte>)
    requires Faithful(r, dispatcher) && AfterMiss(r.state, DoInsert(e))
    ensures Faithful(Play(r, DoInsert(e), dispatcher), dispatcher)
  {
    hide Hash, ChainsHold, Patched, Find, EvictOne;
    var s := r.state;
    var t := Evict(s, e.size, dispatcher);
    EvictKeepsWellFormed(s, e.size, dispatcher);
    EvictDropsShortestSuffix(s, e.size, dispatcher);
    LiveAfterEvictions(r.history, s.lru, |t.lru|);
    FindAnswersMap(s, Live(r.history), e.addr);
    assert e.addr !in Live(r.history + Evictions(s.lru, |t.lru|));
    LiveAfterInsertion(r.history + Evictions(s.lru, |t.lru|), t.lru, e);
    PushKeepsWellFormed(t, e);
  }

  ghost predicate Runs(r: Run, ops: seq<Op>, r': Run, dispatcher: seq<byte>)
    decreases |ops|
  {
    if ops == [] then r' == r
    else
      && |r.state.chains| > 0 && JumpsFit(r.state, dispatcher)
      && AfterMiss(r.state, ops[0])
      && Runs(Play(r, ops[0], dispatcher), ops[1..], r', dispatcher)
  }

  ghost function Fresh(total: u64, buckets: nat, ram: seq<byte>): Run {
    Run(State([], seq(buckets, _ => []), 0, total, [], ram), [])
  }

  /**
    After any run from an empty cache in which every insertion follows a miss, a
    lookup finds exactly the block inserted for the address and not evicted or
    cleared since.
   */
  lemma {:induction false} RunsAnswerHistory(r: Run, ops: seq<Op>, r': Run, dispatcher: seq<byte>, addr: Addr)
    requires Faithful(r, dispatcher) && Runs(r, ops, r', dispatcher)
    ensures WellFormed(r'.state) && Faithful(r', dispatcher)
    ensures Find(r'.state, addr) == if addr in Live(r'.history) then Hit(Live(r'.history)[addr]) else Missing
    decreases |ops|
  {
    hide Hash, ChainsHold, Play, AfterMiss;
    if ops == [] {
      FindAnswersMap(r.state, Live(r.history), addr);
    } else {
      PlayKeepsFaithful(r, ops[0], dispatcher);
      RunsAnswerHistory(Play(r, ops[0], dispatcher), ops[1..], r', dispatcher, addr);
    }
  }

  lemma FreshIsFaithful(total: u64, buckets: nat, ram: seq<byte>, dispatcher: seq<byte>)
    requires buckets > 0 && |dispatcher| == 8
    ensures Faithful(Fresh(total, buckets, ram), dispatcher)
  {
  }

  lemma InsertWithRoom(s: State, e: Entry, dispatcher: seq<byte>)
    requires WellFormed(s) && JumpsFit(s, dispatcher) && s.used + e.size <= s.total && e !in s.lru && e.hash == Hash(e.addr)
    ensures Insert(s, e, dispatcher) == Push(s, e) && WellFormed(Push(s, e))
  {
    hide Hash, ChainsHold, EvictOne;
    PushKeepsWellFormed(s, e);
  }

  lemma EmptyChains(s: State, b: nat)
    requires WellFormed(s) && s.lru == [] && b < |s.chains|
    ensures s.chains[b] == []
  {
    hide Hash;
    assert forall e :: e in s.chains[b] ==> e in s.lru;
    HasMember(s.chains[b]);
  }

  lemma HasMember(chain: seq<Entry>)
    ensures chain != [] ==> exists e :: e in chain
  {
    if chain != [] {
      assert chain[0] in chain;
    }
  }

  lemma InsertTwice(s: State, d: Entry, e: Entry, dispatcher: seq<byte>)
    requires WellFormed(s) && JumpsFit(s, dispatcher) && s.lru == [] && s.used == 0 && 32 <= s.total
    requires d != e && d.addr == e.addr && d.size == e.size == 16 && d.hash == e.hash == Hash(e.addr)
    ensures var t := Push(s, d);
            var u := Push(t, e);
            && Insert(s, d, dispatcher) == t && JumpsFit(t, dispatcher) && Insert(t, e, dispatcher) == u
            && WellFormed(u) && u.total == s.total && u.chains[Hash(e.addr) % |u.chains|] == [e, d]
  {
    hide Hash, ChainsHold, Evict;
    InsertWithRoom(s, d, dispatcher);
    var t := Push(s, d);
    EmptyChains(s, e.hash % |s.chains|);
    assert e !in t.lru;
    InsertWithRoom(t, e, dispatcher);
  }

  lemma DuplicateAnswers(r: Run, d: Entry, e: Entry, dispatcher: seq<byte>)
    requires var s := r.state; WellFormed(s) && JumpsFit(s, dispatcher) && s.lru == [] && s.used == 0 && s.total == 1024 * 1024
    requires d != e && d.addr == e.addr && d.size == e.size == 16 && d.hash == e.hash == Hash(e.addr)
    ensures |Play(r, DoInsert(d), dispatcher).state.chains| > 0 && JumpsFit(Play(r, DoInsert(d), dispatcher).state, dispatcher)
    ensures var t := Play(Play(r, DoInsert(d), dispatcher), DoInsert(e), dispatcher);
            && |t.state.chains| > 0 && JumpsFit(t.state, dispatcher)
            && |Play(t, DoResize(MAX_SIZE), dispatcher).state.chains| > 0
            && Find(t.state, e.addr) == Hit(e) && Find(Play(t, DoResize(MAX_SIZE), dispatcher).state, e.addr) == Hit(d)
  {
    hide Hash, Insert, Evictions, ChainsHold, Evict, Rehashed, Flatten;
    InsertTwice(r.state, d, e, dispatcher);
    assert [e, d][..1] == [e];
    ResizeFindsLast(Push(Push(r.state, d), e), MAX_SIZE, e.addr);
  }

  /**
    A run in which the answer changes: two blocks are inserted for one address, and
    after a resize the older one is found instead of the newer.
   */
  lemma ResizeChangesAnswer(d: Entry, e: Entry, ram: seq<byte>, dispatcher: seq<byte>)
    requires |dispatcher| == 8 && d != e && d.addr == e.addr == 4096 && d.size == e.size == 16
    requires d.hash == e.hash == Hash(4096)
    ensures var r := Play(Fresh(1024 * 1024, 4096, ram), DoInsert(d), dispatcher);
            |r.state.chains| > 0 && JumpsFit(r.state, dispatcher) &&
            var t := Play(r, DoInsert(e), dispatcher);
            && |t.state.chains| > 0 && JumpsFit(t.state, dispatcher)
            && |Play(t, DoResize(MAX_SIZE), dispatcher).state.chains| > 0
            && Find(t.state, 4096) == Hit(e) && Find(Play(t, DoResize(MAX_SIZE), dispatcher).state, 4096) == Hit(d)
  {
    FreshIsFaithful(1024 * 1024, 4096, ram, dispatcher);
    hide *;
    DuplicateAnswers(Fresh(1024 * 1024, 4096, ram), d, e, dispatcher);
  }

  // ---- jumps lead to cached blocks

  ghost predicate TargetsCached(s: State) {
    forall j :: j in s.jumps ==> LeadsTo(j, s.lru)
  }

  /** Jumps are registered only to blocks that are cached, and the cache is not cleared. */
  ghost predicate LinksToCached(s: State, op: Op) {
    match op
    case DoInsert(e) => e !in s.lru && e.hash == Hash(e.addr)
    case DoRegister(j) => j.site + PATCH_LEN <= |s.ram| && LeadsTo(j, s.lru)
    case DoClear => false
    case _ => true
  }

  lemma EvictKeepsTargetsCached(s: State, size: u64, dispatcher: seq<byte>)
    requires WellFormed(s) && JumpsFit(s, dispatcher) && TargetsCached(s)
    ensures var t := Evict(s, size, dispatcher); WellFormed(t) && JumpsFit(t, dispatcher) && TargetsCached(t)
  {
    hide Hash, ChainsHold, Evict, SumSizes;
    var t := Evict(s, size, dispatcher);
    EvictKeepsWellFormed(s, size, dispatcher);
    EvictDropsShortestSuffix(s, size, dispatcher);
    EvictForgetsJumps(s, size, dispatcher);
    assert s.lru == t.lru + s.lru[|t.lru|..];
    forall j | j in t.jumps ensures LeadsTo(j, t.lru) {
      var x :| x in s.lru && x.addr == j.target;
      assert x in t.lru;
    }
  }

  lemma PlayKeepsTargetsCached(r: Run, op: Op, dispatcher: seq<byte>)
    requires WellFormed(r.state) && JumpsFit(r.state, dispatcher) && LinksToCached(r.state, op)
    requires TargetsCached(r.state)
    ensures var s' := Play(r, op, dispatcher).state; WellFormed(s') && JumpsFit(s', dispatcher) && TargetsCached(s')
  {
    hide Hash, ChainsHold, Patched, EvictOne;
    var s := r.state;
    match op
    case DoLookup(addr) =>
      TouchKeepsWellFormed(s, addr);
      forall j | j in s.jumps ensures LeadsTo(j, Touch(s, addr).lru) {
        var e :| e in s.lru && e.addr == j.target;
        assert e in Touch(s, addr).lru;
      }
    case DoInsert(e) =>
      var t := Evict(s, e.size, dispatcher);
      EvictKeepsTargetsCached(s, e.size, dispatcher);
      EvictDropsShortestSuffix(s, e.size, dispatcher);
      PushKeepsWellFormed(t, e);
      forall j | j in t.jumps ensures LeadsTo(j, [e] + t.lru) {
        var x :| x in t.lru && x.addr == j.target;
        assert x in [e] + t.lru;
      }
    case DoMakeRoom(size) =>
      EvictKeepsTargetsCached(s, size, dispatcher);
    case DoResize(size) =>
      ResizeKeepsWellFormed(s, size);
    case DoRegister(j) =>
  }

  ghost predicate LinkedRuns(r: Run, ops: seq<Op>, r': Run, dispatcher: seq<byte>)
    decreases |ops|
  {
    if ops == [] then r' == r
    else
      && |r.state.chains| > 0 && JumpsFit(r.state, dispatcher)
      && LinksToCached(r.state, ops[0])
      && LinkedRuns(Play(r, ops[0], dispatcher), ops[1..], r', dispatcher)
  }

  /** Over all such runs every registered jump leads to a cached block. */
  lemma {:induction false} RunsKeepTargetsCached(r: Run, ops: seq<Op>, r': Run, dispatcher: seq<byte>)
    requires WellFormed(r.state) && TargetsCached(r.state) && LinkedRuns(r, ops, r', dispatcher)
    ensures WellFormed(r'.state) && TargetsCached(r'.state)
    decreases |ops|
  {
    hide Hash, ChainsHold, Play, LinksToCached, TargetsCached;
    if ops != [] {
      PlayKeepsTargetsCached(r, ops[0], dispatcher);
      RunsKeepTargetsCached(Play(r, ops[0], dispatcher), ops[1..], r', dispatcher);
    }
  }

  /** Clearing does not patch: it leaves every jump record leading to a block that is gone. */
  lemma ClearKeepsTargetsCachedIff(s: State)
    ensures TargetsCached(Clear(s)) <==> s.jumps == []
  {
    if s.jumps != [] {
      assert s.jumps[0] in Clear(s).jumps;
    }
  }
}
