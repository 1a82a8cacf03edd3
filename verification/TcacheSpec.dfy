/**
  What the translation cache does, on values: the recency list and the hash
  chains are sequences of entries.  The fields of an entry that the operations
  here look at never change after it is made.
 */
module TcacheSpec {
  import opened Words
  import opened Sequences
  import opened Jumps

  const HOT_THRESHOLD: nat := 3
  const MIN_SIZE: u64 := 512 * 1024
  const MAX_SIZE: u64 := 64 * 1024 * 1024
  const POINTER_SIZE: nat := 8

  /** One translated block, a member of a hash chain and of the recency list. */
  class Entry {
    const addr: Addr
    const code: u64
    const size: u64
    const hash: nat
    const owned: bool
    const mapped: bool
    const locked: bool
    var execCount: u32
    var hot: bool
    var next: Entry?
    var lruPrev: Entry?
    var lruNext: Entry?

    constructor (addr: Addr, code: u64, size: u64, owned: bool, mapped: bool)
      ensures this.addr == addr && this.code == code && this.size == size && this.hash == Hash(addr)
      ensures this.owned == owned && this.mapped == mapped && !locked
      ensures execCount == 1 && !hot && next == null && lruPrev == null && lruNext == null
    {
      this.addr, this.code, this.size, this.hash := addr, code, size, Hash(addr);
      this.owned, this.mapped, this.locked := owned, mapped, false;
      execCount, hot, next, lruPrev, lruNext := 1, false, null, null, null;
    }
  }

  function Hash(addr: Addr): (h: nat)
    ensures h < 0x1_0000
  {
    var a := addr as bv64;
    var h0: bv64 := 14695981039346656037;
    var h1 := (h0 ^ (a & 0xFFFFFFFF)) * 1099511628211;
    var h2 := (h1 ^ ((a >> 32) & 0xFFFFFFFF)) * 1099511628211;
    ((h2 & 0xFFFF) as bv16) as nat
  }

  datatype State = State(
    lru: seq<Entry>,
    chains: seq<seq<Entry>>,
    used: u64,
    total: u64,
    jumps: seq<JumpTarget>,
    ram: seq<byte>)

  ghost function SumSizes(s: seq<Entry>): nat {
    if s == [] then 0 else SumSizes(s[..|s| - 1]) + s[|s| - 1].size
  }

  ghost predicate ChainsHold(lru: seq<Entry>, chains: seq<seq<Entry>>) {
    && |chains| > 0
    && (forall e :: e in lru ==> e.hash == Hash(e.addr) && e in chains[e.hash % |chains|])
    && (forall b :: 0 <= b < |chains| ==> NoDup(chains[b]))
    && (forall b, e :: 0 <= b < |chains| && e in chains[b] ==> e in lru && e.hash % |chains| == b)
  }

  /**
    The recency list and the chains hold the same entries, each once, each in the
    bucket its hash names, and the byte count is the sum of the sizes, modulo 2^64.
   */
  ghost predicate WellFormed(s: State) {
    && NoDup(s.lru)
    && |s.chains| > 0 && ChainsHold(s.lru, s.chains)
    && s.used == SumSizes(s.lru) % TWO64
  }

  // ---- looking up

  datatype Found = Missing | Hit(entry: Entry)

  ghost function FindFirst(chain: seq<Entry>, addr: Addr): (r: Found)
    ensures r.Hit? ==> r.entry in chain && r.entry.addr == addr
    ensures r.Missing? ==> forall e :: e in chain ==> e.addr != addr
  {
    if chain == [] then Missing
    else if chain[0].addr == addr then Hit(chain[0])
    else FindFirst(chain[1..], addr)
  }

  ghost function Find(s: State, addr: Addr): (r: Found)
    requires |s.chains| > 0
  {
    FindFirst(s.chains[Hash(addr) % |s.chains|], addr)
  }

  /** Moves the entry that is found, if any, to the front of the recency list. */
  ghost function Touch(s: State, addr: Addr): State
    requires |s.chains| > 0
  {
    match Find(s, addr)
    case Missing => s
    case Hit(e) => s.(lru := [e] + Without(s.lru, e))
  }

  // ---- inserting

  ghost predicate Room(used: int, size: u64, total: u64) {
    (used + size) % TWO64 <= total
  }

  ghost predicate Evicts(s: State, size: u64) {
    !Room(s.used, size, s.total) && s.lru != [] && !s.lru[|s.lru| - 1].locked
  }

  ghost function Unchained(chains: seq<seq<Entry>>, e: Entry): seq<seq<Entry>>
    requires |chains| > 0
  {
    var b := e.hash % |chains|;
    chains[b := Without(chains[b], e)]
  }

  ghost predicate JumpsFit(s: State, dispatcher: seq<byte>) {
    |dispatcher| == 8 && SitesFit(s.jumps, |s.ram|)
  }

  /** One round of the eviction loop: the least recently used entry goes. */
  ghost function EvictOne(s: State, dispatcher: seq<byte>): (r: State)
    requires s.lru != [] && |s.chains| > 0 && JumpsFit(s, dispatcher)
    ensures |r.chains| == |s.chains| && JumpsFit(r, dispatcher) && |r.lru| == |s.lru| - 1
  {
    var e := s.lru[|s.lru| - 1];
    State(s.lru[..|s.lru| - 1], Unchained(s.chains, e), (s.used - e.size) % TWO64, s.total,
          Remaining(s.jumps, e.addr), Patched(s.jumps, e.addr, dispatcher, s.ram))
  }

  ghost function Evict(s: State, size: u64, dispatcher: seq<byte>): (r: State)
    requires |s.chains| > 0 && JumpsFit(s, dispatcher)
    ensures |r.chains| == |s.chains| && JumpsFit(r, dispatcher) && r.total == s.total && |r.ram| == |s.ram|
    decreases |s.lru|
  {
    if Evicts(s, size) then Evict(EvictOne(s, dispatcher), size, dispatcher) else s
  }

  ghost function Push(s: State, e: Entry): State
    requires |s.chains| > 0
  {
    var b := e.hash % |s.chains|;
    s.(lru := [e] + s.lru, chains := s.chains[b := [e] + s.chains[b]], used := (s.used + e.size) % TWO64)
  }

  ghost function Insert(s: State, e: Entry, dispatcher: seq<byte>): State
    requires |s.chains| > 0 && JumpsFit(s, dispatcher)
  {
    Push(Evict(s, e.size, dispatcher), e)
  }

  // ---- resizing

  ghost function Flatten(chains: seq<seq<Entry>>): (r: seq<Entry>)
    ensures forall e :: e in r ==> exists b :: 0 <= b < |chains| && e in chains[b]
    ensures forall b, e :: 0 <= b < |chains| && e in chains[b] ==> e in r
  {
    if chains == [] then [] else Flatten(chains[..|chains| - 1]) + chains[|chains| - 1]
  }

  /** The entries of es that hash to bucket b of n, each pushed in front of the earlier ones. */
  ghost function Bucketed(es: seq<Entry>, n: nat, b: nat): (r: seq<Entry>)
    requires n > 0
    ensures forall e :: e in r ==> e in es && e.hash % n == b
    ensures forall e :: e in es && e.hash % n == b ==> e in r
  {
    if es == [] then []
    else
      var e := es[|es| - 1];
      var r := Bucketed(es[..|es| - 1], n, b);
      if e.hash % n == b then [e] + r else r
  }

  ghost function Rehashed(es: seq<Entry>, n: nat): (r: seq<seq<Entry>>)
    requires n > 0
    ensures |r| == n
  {
    seq(n, b requires 0 <= b < n => Bucketed(es, n, b))
  }

  function Clamp(size: u64): (r: u64)
    ensures MIN_SIZE <= r <= MAX_SIZE
  {
    if size < MIN_SIZE then MIN_SIZE else if size > MAX_SIZE then MAX_SIZE else size
  }

  ghost function Resize(s: State, size: u64): State {
    var total := Clamp(size);
    if total == s.total then s
    else s.(chains := Rehashed(Flatten(s.chains), total / POINTER_SIZE), total := total)
  }

  ghost function Clear(s: State): State {
    s.(lru := [], chains := seq(|s.chains|, _ => []), used := 0)
  }

  // ---- every operation keeps the state well formed

  lemma SumPush(e: Entry, s: seq<Entry>)
    ensures SumSizes([e] + s) == e.size + SumSizes(s)
  {
    if s != [] {
      assert ([e] + s)[..|s|] == [e] + s[..|s| - 1];
      SumPush(e, s[..|s| - 1]);
    } else {
      assert [e] + s == [e];
      assert [e][..0] == [];
    }
  }

  lemma {:induction false} SumWithout(s: seq<Entry>, e: Entry)
    requires NoDup(s) && e in s
    ensures SumSizes(Without(s, e)) == SumSizes(s) - e.size
  {
    assert s == [s[0]] + s[1..];
    SumPush(s[0], s[1..]);
    if s[0] != e {
      SumWithout(s[1..], e);
      SumPush(s[0], Without(s[1..], e));
    }
  }

  lemma TouchKeepsWellFormed(s: State, addr: Addr)
    requires WellFormed(s)
    ensures WellFormed(Touch(s, addr))
    ensures Find(s, addr).Hit? ==> Find(s, addr).entry in s.lru
  {
    hide Hash;
    match Find(s, addr)
    case Missing =>
    case Hit(e) =>
      assert e in s.lru;
      WithoutKeepsNoDup(s.lru, e);
      SumWithout(s.lru, e);
      SumPush(e, Without(s.lru, e));
  }

  lemma UnchainedHolds(lru: seq<Entry>, chains: seq<seq<Entry>>)
    requires NoDup(lru) && lru != [] && ChainsHold(lru, chains)
    ensures ChainsHold(lru[..|lru| - 1], Unchained(chains, lru[|lru| - 1]))
  {
    hide Hash;
    var n := |chains|;
    var lru', e := lru[..|lru| - 1], lru[|lru| - 1];
    var chains' := Unchained(chains, e);
    var c := e.hash % n;
    WithoutKeepsNoDup(chains[c], e);
    assert forall x :: x in lru <==> x in lru' || x == e by { assert lru == lru' + [e]; }
    assert e !in lru';
    forall b, x | 0 <= b < n && x in chains'[b]
      ensures x in lru' && x.hash % n == b
    {
      assert x in chains[b];
    }
  }

  lemma EvictOneKeepsWellFormed(s: State, dispatcher: seq<byte>)
    requires WellFormed(s) && s.lru != [] && JumpsFit(s, dispatcher)
    ensures WellFormed(EvictOne(s, dispatcher))
  {
    hide Hash, Remaining, Patched, ChainsHold;
    UnchainedHolds(s.lru, s.chains);
    WrapSub(SumSizes(s.lru), s.lru[|s.lru| - 1].size);
  }

  lemma {:induction false} EvictKeepsWellFormed(s: State, size: u64, dispatcher: seq<byte>)
    requires WellFormed(s) && JumpsFit(s, dispatcher)
    ensures WellFormed(Evict(s, size, dispatcher))
    decreases |s.lru|
  {
    hide Hash, EvictOne, ChainsHold;
    if Evicts(s, size) {
      EvictOneKeepsWellFormed(s, dispatcher);
      EvictKeepsWellFormed(EvictOne(s, dispatcher), size, dispatcher);
    }
  }

  lemma PushKeepsWellFormed(s: State, e: Entry)
    requires WellFormed(s) && e !in s.lru && e.hash == Hash(e.addr)
    ensures WellFormed(Push(s, e))
  {
    hide Hash;
    SumPush(e, s.lru);
    WrapAdd(SumSizes(s.lru), e.size);
  }

  lemma {:induction false} FlattenNoDup(chains: seq<seq<Entry>>, n: nat)
    requires n > 0
    requires forall b :: 0 <= b < |chains| ==> NoDup(chains[b])
    requires forall b, e :: 0 <= b < |chains| && e in chains[b] ==> e.hash % n == b
    ensures NoDup(Flatten(chains))
  {
    if chains != [] {
      var front, last := chains[..|chains| - 1], |chains| - 1;
      FlattenNoDup(front, n);
      forall e | e in Flatten(front)
        ensures e !in chains[last]
      {
        var b :| 0 <= b < |front| && e in front[b];
        assert e in chains[b];
        assert e.hash % n == b != last;
      }
      NoDupConcat(Flatten(front), chains[last]);
    }
  }

  lemma {:induction false} BucketedNoDup(es: seq<Entry>, n: nat, b: nat)
    requires n > 0 && NoDup(es)
    ensures NoDup(Bucketed(es, n, b))
  {
    if es != [] {
      assert es[|es| - 1] !in es[..|es| - 1];
      BucketedNoDup(es[..|es| - 1], n, b);
    }
  }

  lemma RehashedHolds(lru: seq<Entry>, chains: seq<seq<Entry>>, n: nat)
    requires ChainsHold(lru, chains) && n > 0
    ensures ChainsHold(lru, Rehashed(Flatten(chains), n))
  {
    hide Hash;
    var es := Flatten(chains);
    FlattenNoDup(chains, |chains|);
    forall b | 0 <= b < n
      ensures NoDup(Rehashed(es, n)[b])
    {
      BucketedNoDup(es, n, b);
    }
  }

  lemma ResizeKeepsWellFormed(s: State, size: u64)
    requires WellFormed(s)
    ensures WellFormed(Resize(s, size))
  {
    hide Hash;
    RehashedHolds(s.lru, s.chains, Clamp(size) / POINTER_SIZE);
  }

  lemma ClearKeepsWellFormed(s: State)
    requires WellFormed(s)
    ensures WellFormed(Clear(s))
  {
  }

  // ---- which entries an insertion evicts

  /** With only the first j entries left there is still no room, and the last of them can go. */
  ghost predicate MustGo(s: State, j: nat, size: u64)
    requires 0 < j <= |s.lru|
  {
    !s.lru[j - 1].locked && !Room(SumSizes(s.lru[..j]), size, s.total)
  }

  /**
    Eviction drops the shortest least-recent suffix of the recency list that
    makes room, unless a locked entry stops it.
   */
  lemma {:induction false} EvictDropsShortestSuffix(s: State, size: u64, dispatcher: seq<byte>)
    requires WellFormed(s) && JumpsFit(s, dispatcher)
    ensures var k := |Evict(s, size, dispatcher).lru|;
            && k <= |s.lru| && Evict(s, size, dispatcher).lru == s.lru[..k]
            && (k == 0 || !MustGo(s, k, size))
            && (forall j :: k < j <= |s.lru| ==> MustGo(s, j, size))
    decreases |s.lru|
  {
    hide Hash, Patched, Remaining, ChainsHold;
    WrapAdd(SumSizes(s.lru), size);
    assert s.lru[..|s.lru|] == s.lru;
    if Evicts(s, size) {
      var t := EvictOne(s, dispatcher);
      EvictOneKeepsWellFormed(s, dispatcher);
      EvictDropsShortestSuffix(t, size, dispatcher);
      forall j | |Evict(t, size, dispatcher).lru| < j <= |s.lru|
        ensures MustGo(s, j, size)
      {
        if j < |s.lru| {
          assert MustGo(t, j, size);
          assert t.lru[..j] == s.lru[..j];
        }
      }
      assert t.lru[..|Evict(t, size, dispatcher).lru|] == s.lru[..|Evict(t, size, dispatcher).lru|];
    }
  }

  /** What stays keeps its order in every chain. */
  lemma {:induction false} EvictRestrictsChains(s: State, size: u64, dispatcher: seq<byte>, b: nat)
    requires WellFormed(s) && JumpsFit(s, dispatcher) && b < |s.chains|
    ensures var r := Evict(s, size, dispatcher); r.chains[b] == Restrict(s.chains[b], r.lru)
    decreases |s.lru|
  {
    hide Hash, Patched, Remaining;
    if Evicts(s, size) {
      var e := s.lru[|s.lru| - 1];
      var t := EvictOne(s, dispatcher);
      EvictOneKeepsWellFormed(s, dispatcher);
      EvictRestrictsChains(t, size, dispatcher, b);
      EvictDropsShortestSuffix(t, size, dispatcher);
      RestrictWithout(s.chains[b], Evict(t, size, dispatcher).lru, e);
    } else {
      RestrictAll(s.chains[b], s.lru);
    }
  }

  lemma {:induction false} RestrictRemaining(js: seq<JumpTarget>, addr: Addr, keep: seq<JumpTarget>)
    requires forall j :: j in keep ==> j.target != addr
    ensures Restrict(Remaining(js, addr), keep) == Restrict(js, keep)
  {
    if js != [] {
      RestrictRemaining(js[1..], addr, keep);
    }
  }

  ghost predicate LeadsTo(j: JumpTarget, blocks: seq<Entry>) {
    exists e :: e in blocks && e.addr == j.target
  }

  /**
    The jump records that go are exactly those of the evicted blocks, and the
    others keep their order.
   */
  lemma {:induction false} EvictForgetsJumps(s: State, size: u64, dispatcher: seq<byte>)
    requires WellFormed(s) && JumpsFit(s, dispatcher)
    ensures var r := Evict(s, size, dispatcher);
            && |r.lru| <= |s.lru|
            && (forall j :: j in r.jumps <==> j in s.jumps && !LeadsTo(j, s.lru[|r.lru|..]))
            && r.jumps == Restrict(s.jumps, r.jumps)
    decreases |s.lru|
  {
    hide Hash, Patched, ChainsHold;
    if Evicts(s, size) {
      var n := |s.lru| - 1;
      var e := s.lru[n];
      var t := EvictOne(s, dispatcher);
      EvictOneKeepsWellFormed(s, dispatcher);
      EvictForgetsJumps(t, size, dispatcher);
      var k := |Evict(t, size, dispatcher).lru|;
      assert s.lru[k..] == t.lru[k..] + [e];
      forall j | j in s.jumps
        ensures LeadsTo(j, s.lru[k..]) <==> LeadsTo(j, t.lru[k..]) || j.target == e.addr
      {
        assert e in s.lru[k..];
      }
      RestrictRemaining(s.jumps, e.addr, Evict(t, size, dispatcher).jumps);
    } else {
      RestrictAll(s.jumps, s.jumps);
    }
  }

  /** Only the 14-byte windows of the forgotten jumps are written. */
  lemma {:induction false} EvictWritesOnlySites(s: State, size: u64, dispatcher: seq<byte>, k: nat)
    requires WellFormed(s) && JumpsFit(s, dispatcher) && k < |s.ram|
    requires var r := Evict(s, size, dispatcher);
             forall j :: j in s.jumps && j !in r.jumps ==> !(j.site <= k < j.site + PATCH_LEN)
    ensures Evict(s, size, dispatcher).ram[k] == s.ram[k]
    decreases |s.lru|
  {
    hide Hash, ChainsHold;
    if Evicts(s, size) {
      var e := s.lru[|s.lru| - 1];
      var t := EvictOne(s, dispatcher);
      EvictOneKeepsWellFormed(s, dispatcher);
      EvictForgetsJumps(t, size, dispatcher);
      PatchingLeavesTheRest(s.jumps, e.addr, dispatcher, s.ram, k);
      EvictWritesOnlySites(t, size, dispatcher, k);
    }
  }

  /** The records in the order an eviction down to k blocks redirects them: victim after victim, from the tail. */
  ghost function PatchOrder(js: seq<JumpTarget>, lru: seq<Entry>, k: nat): (r: seq<JumpTarget>)
    ensures forall j :: j in r ==> j in js
    decreases |lru|
  {
    if |lru| <= k then []
    else
      var addr := lru[|lru| - 1].addr;
      Matching(js, addr) + PatchOrder(Remaining(js, addr), lru[..|lru| - 1], k)
  }

  /** An eviction writes exactly the redirections of these records, one after the other. */
  lemma {:induction false} EvictRedirectsInOrder(s: State, size: u64, dispatcher: seq<byte>)
    requires WellFormed(s) && JumpsFit(s, dispatcher)
    ensures var r := Evict(s, size, dispatcher);
            Redirected(PatchOrder(s.jumps, s.lru, |r.lru|), dispatcher, s.ram) == r.ram
    decreases |s.lru|
  {
    assert |s.chains| > 0;
    hide Hash, ChainsHold, WellFormed, Patched, Matching, Redirected;
    EvictDropsShortestSuffix(s, size, dispatcher);
    var k := |Evict(s, size, dispatcher).lru|;
    if Evicts(s, size) {
      var addr := s.lru[|s.lru| - 1].addr;
      var t := EvictOne(s, dispatcher);
      EvictOneKeepsWellFormed(s, dispatcher);
      EvictDropsShortestSuffix(t, size, dispatcher);
      EvictRedirectsInOrder(t, size, dispatcher);
      PatchedIsRedirected(s.jumps, addr, dispatcher, s.ram);
      RedirectedInTurn(Matching(s.jumps, addr), PatchOrder(t.jumps, t.lru, k), dispatcher, s.ram);
    } else {
      NothingRedirected(s.jumps, s.lru, dispatcher, s.ram);
    }
  }

  lemma NothingRedirected(js: seq<JumpTarget>, lru: seq<Entry>, dispatcher: seq<byte>, ram: seq<byte>)
    requires |dispatcher| == 8
    ensures PatchOrder(js, lru, |lru|) == [] && Redirected([], dispatcher, ram) == ram
  {
  }

  lemma {:induction false} PatchOrderLeadsTo(js: seq<JumpTarget>, lru: seq<Entry>, k: nat, j: JumpTarget)
    requires k <= |lru|
    ensures j in PatchOrder(js, lru, k) <==> j in js && LeadsTo(j, lru[k..])
    decreases |lru|
  {
    if k == |lru| {
      assert lru[k..] == [];
    } else {
      var front, last := lru[..|lru| - 1], lru[|lru| - 1];
      PatchOrderLeadsTo(Remaining(js, last.addr), front, k, j);
      LeadsToMore(j, front[k..], last);
      assert lru[k..] == front[k..] + [last];
    }
  }

  lemma LeadsToMore(j: JumpTarget, s: seq<Entry>, e: Entry)
    ensures LeadsTo(j, s + [e]) <==> LeadsTo(j, s) || j.target == e.addr
  {
    assert e in s + [e];
    if LeadsTo(j, s) {
      var x :| x in s && x.addr == j.target;
      assert x in s + [e];
    }
  }

  /** The records that go are the ones redirected. */
  lemma ForgottenIsRedirected(s: State, size: u64, dispatcher: seq<byte>, j: JumpTarget)
    requires WellFormed(s) && JumpsFit(s, dispatcher)
    ensures var r := Evict(s, size, dispatcher);
            j in PatchOrder(s.jumps, s.lru, |r.lru|) <==> j in s.jumps && j !in r.jumps
  {
    assert |s.chains| > 0;
    hide WellFormed, Evict, PatchOrder, LeadsTo;
    EvictForgetsJumps(s, size, dispatcher);
    PatchOrderLeadsTo(s.jumps, s.lru, |Evict(s, size, dispatcher).lru|, j);
  }

  /**
    After an insertion has evicted what it must, the site of a record that went holds
    its redirection exactly when the last record redirected over it, whichever victim
    it led to, is the same site and kind.
   */
  lemma EvictRedirectsIff(s: State, size: u64, dispatcher: seq<byte>, j: JumpTarget)
    requires WellFormed(s) && JumpsFit(s, dispatcher) && Distinctive(dispatcher)
    requires j in s.jumps && j !in Evict(s, size, dispatcher).jumps
    ensures var r := Evict(s, size, dispatcher);
            var l := LastToucher(PatchOrder(s.jumps, s.lru, |r.lru|), j.site);
            && j.site + PATCH_LEN <= |r.ram| && l.By?
            && (r.ram[j.site..j.site + PATCH_LEN] == Redirection(j.isCall, dispatcher) <==> SameRedirection(l.who, j))
  {
    assert |s.chains| > 0;
    hide Hash, WellFormed, Evict, PatchOrder, Redirected, Redirection, Distinctive, LastToucher;
    EvictRedirectsInOrder(s, size, dispatcher);
    ForgottenIsRedirected(s, size, dispatcher, j);
    SiteRedirectedIff(PatchOrder(s.jumps, s.lru, |Evict(s, size, dispatcher).lru|), j, dispatcher, s.ram);
  }

  /** If no other site that is redirected overlaps it, the site holds its redirection, whatever the dispatcher's address. */
  lemma EvictRedirectsSeparated(s: State, size: u64, dispatcher: seq<byte>, j: JumpTarget)
    requires WellFormed(s) && JumpsFit(s, dispatcher)
    requires j in s.jumps && j !in Evict(s, size, dispatcher).jumps
    requires forall x :: x in s.jumps && x !in Evict(s, size, dispatcher).jumps && Touches(x, j.site) ==> SameRedirection(x, j)
    ensures var r := Evict(s, size, dispatcher);
            j.site + PATCH_LEN <= |r.ram| && r.ram[j.site..j.site + PATCH_LEN] == Redirection(j.isCall, dispatcher)
  {
    assert |s.chains| > 0;
    hide Hash, WellFormed, Evict, PatchOrder, Redirected, Redirection, LastToucher;
    EvictRedirectsInOrder(s, size, dispatcher);
    var ps := PatchOrder(s.jumps, s.lru, |Evict(s, size, dispatcher).lru|);
    forall x | x in ps && Touches(x, j.site)
      ensures SameRedirection(x, j)
    {
      ForgottenIsRedirected(s, size, dispatcher, x);
    }
    ForgottenIsRedirected(s, size, dispatcher, j);
    SeparatedSitesRedirected(ps, j, dispatcher, s.ram);
  }

  ghost predicate Unlocked(s: seq<Entry>) {
    forall e :: e in s ==> !e.locked
  }

  /**
    After an insertion the blocks fit, by the cache's own count, or the new block
    is the only one; this does not depend on the state having fitted before.
   */
  lemma InsertFitsOrIsAlone(s: State, e: Entry, dispatcher: seq<byte>)
    requires WellFormed(s) && JumpsFit(s, dispatcher) && Unlocked(s.lru)
    ensures var r := Insert(s, e, dispatcher); r.used <= r.total || r.lru == [e]
  {
    hide Hash, ChainsHold;
    EvictDropsShortestSuffix(s, e.size, dispatcher);
    EvictKeepsWellFormed(s, e.size, dispatcher);
    WrapAdd(SumSizes(Evict(s, e.size, dispatcher).lru), e.size);
  }

  /** The count is the real sum of the sizes exactly while that sum is a 64-bit number. */
  lemma CountIsExactBelow2To64(s: State)
    requires WellFormed(s)
    ensures s.used == SumSizes(s.lru) <==> SumSizes(s.lru) < TWO64
  {
    hide ChainsHold;
  }
}
