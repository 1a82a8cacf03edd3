/** The recency list of the translation cache is the order of most recent use. */
module TcacheRecency {
  import opened Words
  import opened Sequences
  import opened Jumps
  import opened TcacheSpec
  import TcacheRuns

  type Op = TcacheRuns.Op

  /** When an entry was last used: one more than its last place among the uses, or 0. */
  ghost function LastUse(uses: seq<Entry>, e: Entry): (n: nat)
    ensures n <= |uses| && (n > 0 ==> uses[n - 1] == e)
    ensures forall k :: n <= k < |uses| ==> uses[k] != e
  {
    if uses == [] then 0 else if uses[|uses| - 1] == e then |uses| else LastUse(uses[..|uses| - 1], e)
  }

  lemma LastUseAfter(uses: seq<Entry>, u: Entry, e: Entry)
    ensures LastUse(uses + [u], e) == if e == u then |uses| + 1 else LastUse(uses, e)
  {
    assert (uses + [u])[..|uses|] == uses;
  }

  /** A block is used when it is found by a lookup and when it is inserted. */
  ghost function UsesAfter(s: State, op: Op, uses: seq<Entry>): seq<Entry>
    requires |s.chains| > 0
  {
    match op
    case DoLookup(addr) => (match Find(s, addr) case Hit(e) => uses + [e] case Missing => uses)
    case DoInsert(e) => uses + [e]
    case _ => uses
  }

  /** Every block in the list was used, and those in front later than those behind. */
  ghost predicate ByRecency(lru: seq<Entry>, uses: seq<Entry>) {
    && (forall i :: 0 <= i < |lru| ==> LastUse(uses, lru[i]) > 0)
    && (forall i, j :: 0 <= i < j < |lru| ==> LastUse(uses, lru[i]) > LastUse(uses, lru[j]))
  }

  /** Using an entry puts it in front of the others. */
  lemma UsedComesFirst(lru: seq<Entry>, rest: seq<Entry>, uses: seq<Entry>, e: Entry)
    requires ByRecency(rest, uses) && e !in rest && lru == [e] + rest
    ensures ByRecency(lru, uses + [e])
  {
    forall x
      ensures LastUse(uses + [e], x) == if x == e then |uses| + 1 else LastUse(uses, x)
    {
      LastUseAfter(uses, e, x);
    }
    forall i | 0 <= i < |lru|
      ensures i > 0 ==> lru[i] == rest[i - 1] && lru[i] != e
    {
      assert i > 0 ==> rest[i - 1] in rest;
    }
  }

  lemma WithoutKeepsOrder(s: seq<Entry>, uses: seq<Entry>, e: Entry)
    requires ByRecency(s, uses) && NoDup(s) && e in s
    ensures ByRecency(Without(s, e), uses)
  {
    var i :| 0 <= i < |s| && s[i] == e;
    WithoutAt(s, i);
    CutKeepsOrder(s, uses, i);
  }

  lemma CutKeepsOrder(s: seq<Entry>, uses: seq<Entry>, i: nat)
    requires ByRecency(s, uses) && i < |s|
    ensures ByRecency(s[..i] + s[i + 1..], uses)
  {
    hide LastUse;
    var r := s[..i] + s[i + 1..];
    forall k | 0 <= k < |r|
      ensures r[k] == s[if k < i then k else k + 1]
    {
    }
    forall k, l | 0 <= k < l < |r|
      ensures LastUse(uses, r[k]) > LastUse(uses, r[l])
    {
      var k', l' := if k < i then k else k + 1, if l < i then l else l + 1;
      assert LastUse(uses, s[k']) > LastUse(uses, s[l']);
    }
  }

  /** What an operation asks for: a new entry, filed under its own hash; a jump in memory. */
  ghost predicate Allowed(s: State, op: Op) {
    match op
    case DoInsert(e) => e !in s.lru && e.hash == Hash(e.addr)
    case DoRegister(j) => j.site + PATCH_LEN <= |s.ram|
    case _ => true
  }

  ghost predicate Sound(s: State, dispatcher: seq<byte>) {
    WellFormed(s) && JumpsFit(s, dispatcher)
  }

  /** Each operation, clearing included, keeps the state well formed, and no insertion has to follow a lookup. */
  lemma StepKeepsSound(r: TcacheRuns.Run, op: Op, dispatcher: seq<byte>)
    requires Sound(r.state, dispatcher) && Allowed(r.state, op)
    ensures Sound(TcacheRuns.Play(r, op, dispatcher).state, dispatcher)
  {
    hide Hash, ChainsHold, Patched, EvictOne, SumSizes;
    var s := r.state;
    match op
    case DoLookup(addr) => TouchKeepsWellFormed(s, addr);
    case DoInsert(e) =>
      EvictKeepsWellFormed(s, e.size, dispatcher);
      EvictDropsShortestSuffix(s, e.size, dispatcher);
      PushKeepsWellFormed(Evict(s, e.size, dispatcher), e);
    case DoMakeRoom(size) => EvictKeepsWellFormed(s, size, dispatcher);
    case DoResize(size) => ResizeKeepsWellFormed(s, size);
    case DoRegister(j) =>
    case DoClear => ClearKeepsWellFormed(s);
  }

  lemma StepKeepsRecency(r: TcacheRuns.Run, op: Op, uses: seq<Entry>, dispatcher: seq<byte>)
    requires Sound(r.state, dispatcher) && Allowed(r.state, op) && ByRecency(r.state.lru, uses)
    ensures ByRecency(TcacheRuns.Play(r, op, dispatcher).state.lru, UsesAfter(r.state, op, uses))
  {
    hide Hash, ChainsHold, Patched, ByRecency, EvictOne, LastUse, SumSizes;
    var s := r.state;
    match op
    case DoLookup(addr) =>
      TouchKeepsWellFormed(s, addr);
      if Find(s, addr).Hit? {
        var e := Find(s, addr).entry;
        WithoutKeepsOrder(s.lru, uses, e);
        WithoutKeepsNoDup(s.lru, e);
        UsedComesFirst([e] + Without(s.lru, e), Without(s.lru, e), uses, e);
      }
    case DoInsert(e) =>
      EvictDropsShortestSuffix(s, e.size, dispatcher);
      var t := Evict(s, e.size, dispatcher);
      PrefixKeepsOrder(s.lru, uses, |t.lru|);
      UsedComesFirst([e] + t.lru, t.lru, uses, e);
    case DoMakeRoom(size) =>
      EvictDropsShortestSuffix(s, size, dispatcher);
      PrefixKeepsOrder(s.lru, uses, |Evict(s, size, dispatcher).lru|);
    case DoResize(size) =>
    case DoRegister(j) =>
    case DoClear => NothingIsOrdered(uses);
  }

  lemma PrefixKeepsOrder(s: seq<Entry>, uses: seq<Entry>, k: nat)
    requires ByRecency(s, uses) && k <= |s|
    ensures ByRecency(s[..k], uses)
  {
  }

  lemma NothingIsOrdered(uses: seq<Entry>)
    ensures ByRecency([], uses)
  {
  }

  ghost predicate Runs(r: TcacheRuns.Run, ops: seq<Op>, dispatcher: seq<byte>)
    decreases |ops|
  {
    ops == [] ||
    (|r.state.chains| > 0 && JumpsFit(r.state, dispatcher) && Allowed(r.state, ops[0]) &&
     Runs(TcacheRuns.Play(r, ops[0], dispatcher), ops[1..], dispatcher))
  }

  ghost function PlayAll(r: TcacheRuns.Run, ops: seq<Op>, dispatcher: seq<byte>): TcacheRuns.Run
    requires Runs(r, ops, dispatcher)
    decreases |ops|
  {
    if ops == [] then r else PlayAll(TcacheRuns.Play(r, ops[0], dispatcher), ops[1..], dispatcher)
  }

  ghost function Uses(r: TcacheRuns.Run, ops: seq<Op>, uses: seq<Entry>, dispatcher: seq<byte>): seq<Entry>
    requires Runs(r, ops, dispatcher)
    decreases |ops|
  {
    if ops == [] then uses
    else Uses(TcacheRuns.Play(r, ops[0], dispatcher), ops[1..], UsesAfter(r.state, ops[0], uses), dispatcher)
  }

  /**
    After any run of lookups, insertions, resizes, jump registrations and clears, in
    any order, the cache is well formed: chains and recency list over the same
    entries, each once and in its bucket, and the byte count their sum.
   */
  lemma {:induction false} RunsStaySound(r: TcacheRuns.Run, ops: seq<Op>, dispatcher: seq<byte>)
    requires Sound(r.state, dispatcher) && Runs(r, ops, dispatcher)
    ensures Sound(PlayAll(r, ops, dispatcher).state, dispatcher)
    decreases |ops|
  {
    assert ops != [] ==> |r.state.chains| > 0 && JumpsFit(r.state, dispatcher);
    hide Sound, TcacheRuns.Play, Allowed;
    if ops != [] {
      StepKeepsSound(r, ops[0], dispatcher);
      RunsStaySound(TcacheRuns.Play(r, ops[0], dispatcher), ops[1..], dispatcher);
    }
  }

  /** And the recency list has the cached blocks in the order of their most recent use. */
  lemma {:induction false} RunsStayByRecency(r: TcacheRuns.Run, ops: seq<Op>, uses: seq<Entry>, dispatcher: seq<byte>)
    requires Sound(r.state, dispatcher) && Runs(r, ops, dispatcher) && ByRecency(r.state.lru, uses)
    ensures ByRecency(PlayAll(r, ops, dispatcher).state.lru, Uses(r, ops, uses, dispatcher))
    decreases |ops|
  {
    assert ops != [] ==> |r.state.chains| > 0 && JumpsFit(r.state, dispatcher);
    hide Sound, TcacheRuns.Play, Allowed, ByRecency, UsesAfter;
    if ops != [] {
      StepKeepsSound(r, ops[0], dispatcher);
      StepKeepsRecency(r, ops[0], uses, dispatcher);
      RunsStayByRecency(TcacheRuns.Play(r, ops[0], dispatcher), ops[1..], UsesAfter(r.state, ops[0], uses), dispatcher);
    }
  }

  /** A created cache is where such runs start. */
  lemma FreshIsSound(total: u64, buckets: nat, ram: seq<byte>, dispatcher: seq<byte>)
    requires buckets > 0 && |dispatcher| == 8
    ensures Sound(TcacheRuns.Fresh(total, buckets, ram).state, dispatcher) && ByRecency([], [])
  {
  }
}
