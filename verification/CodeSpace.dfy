/**
  Where translated code lives: regions of the pool and blocks mapped directly,
  none of which is handed out twice.
 */
module CodeSpace {
  import opened Words
  import M = MempoolSpec

  datatype Span = Span(at: nat, size: nat)

  /** Where some code is, or that it is nowhere. */
  datatype Place = Nowhere | Place(at: nat)

  ghost predicate Apart(a: Span, b: Span) {
    a.at + a.size <= b.at || b.at + b.size <= a.at
  }

  ghost predicate Inside(a: Span, b: Span) {
    b.at <= a.at && a.at + a.size <= b.at + b.size
  }

  function Start(r: M.Region): nat {
    r.base + r.offset
  }

  ghost function SpanOf(r: M.Region): Span {
    Span(Start(r), r.size)
  }

  ghost function AreaSpan(a: M.Area): Span {
    Span(a.base, a.size)
  }

  /** All the memory that has been taken for code and not given back. */
  datatype Space = Space(ghost pool: M.State, ghost direct: seq<Span>)

  /** The pool is sound, and directly mapped blocks lie in memory outside the pool's chunks. */
  ghost predicate Tidy(s: Space, n: nat) {
    && M.Sound(s.pool)
    && (forall c, i :: M.Has(s.pool, c, i) ==> M.At(s.pool, c, i).base + M.At(s.pool, c, i).size <= n)
    && (forall k :: 0 <= k < |s.direct| ==> s.direct[k].at + s.direct[k].size <= n)
    && (forall k, c, i :: 0 <= k < |s.direct| && M.Has(s.pool, c, i) ==> Apart(s.direct[k], AreaSpan(M.At(s.pool, c, i))))
  }

  /** The bytes lie in one piece of memory that has been taken. */
  ghost predicate Taken(s: Space, w: Span) {
    || (exists k :: 0 <= k < |s.direct| && Inside(w, s.direct[k]))
    || (exists k :: 0 <= k < |s.pool.regions| && Inside(w, SpanOf(s.pool.regions[k])))
  }

  ghost predicate Unused(s: Space, w: Span) {
    && (forall k :: 0 <= k < |s.direct| ==> Apart(s.direct[k], w))
    && (forall k :: 0 <= k < |s.pool.regions| ==> Apart(SpanOf(s.pool.regions[k]), w))
  }

  /** What the kernel guarantees of a mapping: in memory, not at 0, over no mapping made before. */
  ghost predicate Mappable(s: Space, n: nat, w: Span) {
    && 0 < w.at && w.at + w.size <= n && w.at + w.size <= M.USER_SPACE
    && (forall k :: 0 <= k < |s.direct| ==> Apart(s.direct[k], w))
    && (forall c, i :: M.Has(s.pool, c, i) ==> Apart(AreaSpan(M.At(s.pool, c, i)), w))
  }

  /** A block mapped on its own. */
  ghost function Mapped(s: Space, at: nat, size: nat): Space {
    Space(s.pool, s.direct + [Span(at, size)])
  }

  /** Taking memory for a block of `size` bytes: from the pool, else by a mapping of its own. */
  ghost function Take(s: Space, size: u64, poolMap: Option<u64>, blockMap: Option<u64>): (Space, Place)
    requires |s.pool.lists| == M.CLASSES
  {
    var (pool, r) := M.Alloc(s.pool, size, poolMap);
    match r
    case Some(region) => (Space(pool, s.direct), Place(Start(region)))
    case None =>
      match blockMap
      case Some(at) => (Mapped(Space(pool, s.direct), at, size), Place(at))
      case None => (Space(pool, s.direct), Nowhere)
  }

  ghost predicate MapsFit(s: Space, n: nat, size: u64, poolMap: Option<u64>, blockMap: Option<u64>) {
    && 0 < size <= M.USER_SPACE - 16
    && (poolMap.Some? ==> Mappable(s, n, Span(poolMap.value, M.ChunkSize(M.Round16(size)))))
    && (blockMap.Some? ==> Mappable(s, n, Span(blockMap.value, size)))
  }

  lemma MappingIsFresh(s: Space, n: nat, base: u64, size: u64)
    requires Mappable(s, n, Span(base, size)) && 0 < size
    ensures M.FreshMapping(s.pool, base, size)
  {
    forall c, i | M.Has(s.pool, c, i)
      ensures M.ApartAreas(M.At(s.pool, c, i), M.Area(base, size, 0, 0))
    {
      assert Apart(AreaSpan(M.At(s.pool, c, i)), Span(base, size));
    }
  }

  lemma UnusedIfMappable(s: Space, n: nat, w: Span)
    requires Tidy(s, n) && Mappable(s, n, w)
    ensures Unused(s, w)
  {
    hide M.ChunksSound, M.SumLists, M.SumRegions;
    forall k | 0 <= k < |s.pool.regions|
      ensures Apart(SpanOf(s.pool.regions[k]), w)
    {
      assert M.HasHome(s.pool, s.pool.regions[k]);
      RegionInArea(s, s.pool.regions[k], n, w);
    }
  }

  /** A region of the pool is apart from whatever is apart from the pool's chunks. */
  lemma RegionInArea(s: Space, r: M.Region, n: nat, w: Span)
    requires M.Sound(s.pool) && M.HasHome(s.pool, r)
    requires forall c, i :: M.Has(s.pool, c, i) ==> Apart(AreaSpan(M.At(s.pool, c, i)), w)
    ensures Apart(SpanOf(r), w)
  {
    var c, i :| M.Has(s.pool, c, i) && M.Within(r, M.At(s.pool, c, i));
    assert M.WellSized(M.At(s.pool, c, i), c);
    assert Apart(AreaSpan(M.At(s.pool, c, i)), w);
  }

  /** Every chunk after an allocation is a chunk from before, or the one just mapped. */
  lemma AllocChunks(s: Space, n: nat, size: u64, poolMap: Option<u64>, c: int, i: int)
    requires Tidy(s, n) && 0 < size <= M.USER_SPACE - 16
    requires poolMap.Some? ==> Mappable(s, n, Span(poolMap.value, M.ChunkSize(M.Round16(size))))
    requires M.Has(M.Alloc(s.pool, size, poolMap).0, c, i)
    ensures var w := AreaSpan(M.At(M.Alloc(s.pool, size, poolMap).0, c, i));
            w.at + w.size <= n && forall k :: 0 <= k < |s.direct| ==> Apart(s.direct[k], w)
  {
    hide M.Sound, M.Reused, M.Grown;
    M.SoundHasLists(s.pool);
    var rounded := M.Round16(size);
    var cl := M.ClassOf(rounded);
    var j := M.FirstFit(s.pool.lists[cl], rounded);
    if j < |s.pool.lists[cl]| {
      M.ReusedAt(s.pool, cl, j, rounded);
    } else if poolMap.Some? {
      M.ClassOfChunk(rounded);
      M.GrownAt(s.pool, cl, M.Area(poolMap.value, M.ChunkSize(rounded), rounded, cl));
    }
  }

  lemma RegionsOnlyGrow(s: M.State, size: u64, poolMap: Option<u64>)
    requires |s.lists| == M.CLASSES
    ensures var (t, r) := M.Alloc(s, size, poolMap);
            t.regions == s.regions + if r.Some? then [r.value] else []
    ensures var r := M.Alloc(s, size, poolMap).1; r.Some? ==> r.value.size == M.Round16(size)
  {
  }

  lemma TakenStaysTaken(s: Space, t: Space, w: Span)
    requires Taken(s, w) && s.direct <= t.direct && s.pool.regions <= t.pool.regions
    ensures Taken(t, w)
  {
    if k :| 0 <= k < |s.direct| && Inside(w, s.direct[k]) {
      assert t.direct[k] == s.direct[k];
    } else {
      var k :| 0 <= k < |s.pool.regions| && Inside(w, SpanOf(s.pool.regions[k]));
      assert t.pool.regions[k] == s.pool.regions[k];
    }
  }

  /** The pool's part of taking memory. */
  lemma AllocKeepsTidy(s: Space, n: nat, size: u64, poolMap: Option<u64>)
    requires Tidy(s, n) && 0 < size <= M.USER_SPACE - 16
    requires poolMap.Some? ==> Mappable(s, n, Span(poolMap.value, M.ChunkSize(M.Round16(size))))
    ensures Tidy(Space(M.Alloc(s.pool, size, poolMap).0, s.direct), n)
  {
    hide M.ChunksSound, M.SumLists, M.SumRegions, M.Alloc, M.HasHome, M.ApartRegions;
    if poolMap.Some? {
      MappingIsFresh(s, n, poolMap.value, M.ChunkSize(M.Round16(size)));
    }
    M.SoundHasLists(s.pool);
    M.RealRequestsDoNotOverrun(s.pool, size);
    M.AllocKeepsSound(s.pool, size, poolMap);
    forall c, i | M.Has(M.Alloc(s.pool, size, poolMap).0, c, i)
      ensures var w := AreaSpan(M.At(M.Alloc(s.pool, size, poolMap).0, c, i));
              w.at + w.size <= n && forall k :: 0 <= k < |s.direct| ==> Apart(s.direct[k], w)
    {
      AllocChunks(s, n, size, poolMap, c, i);
    }
  }

  /** A region the pool hands out was unused, and is in memory. */
  lemma RegionWasUnused(s: Space, n: nat, size: u64, poolMap: Option<u64>)
    requires Tidy(s, n) && Tidy(Space(M.Alloc(s.pool, size, poolMap).0, s.direct), n) && 0 < size <= M.USER_SPACE - 16
    requires M.Alloc(s.pool, size, poolMap).1.Some?
    ensures var r := M.Alloc(s.pool, size, poolMap).1.value;
            && SpanOf(r).at + SpanOf(r).size <= n && r.size >= size && Unused(s, SpanOf(r))
  {
    hide M.ChunksSound, M.SumLists, M.SumRegions, M.Alloc;
    M.SoundHasLists(s.pool);
    var (pool, o) := M.Alloc(s.pool, size, poolMap);
    var r := o.value;
    M.SoundHasLists(pool);
    RegionsOnlyGrow(s.pool, size, poolMap);
    var last := |s.pool.regions|;
    assert pool.regions[last] == r && M.HasHome(pool, r);
    RegionInMemory(pool, r, n);
    forall k | 0 <= k < last
      ensures Apart(SpanOf(s.pool.regions[k]), SpanOf(r))
    {
      assert pool.regions[k] == s.pool.regions[k] && M.ApartRegions(pool.regions[k], pool.regions[last]);
    }
    forall k | 0 <= k < |s.direct|
      ensures Apart(s.direct[k], SpanOf(r))
    {
      RegionInArea(Space(pool, s.direct), r, n, s.direct[k]);
    }
  }

  lemma RegionInMemory(pool: M.State, r: M.Region, n: nat)
    requires M.ChunksSound(pool) && M.HasHome(pool, r)
    requires forall c, i :: M.Has(pool, c, i) ==> M.At(pool, c, i).base + M.At(pool, c, i).size <= n
    ensures SpanOf(r).at + SpanOf(r).size <= n
  {
    var c, i :| M.Has(pool, c, i) && M.Within(r, M.At(pool, c, i));
    assert M.WellSized(M.At(pool, c, i), c);
  }

  /** A directly mapped block was unused. */
  lemma MapKeepsTidy(s: Space, n: nat, w: Span)
    requires Tidy(s, n) && Mappable(s, n, w)
    ensures var t := Mapped(s, w.at, w.size); Tidy(t, n) && Unused(s, w) && Taken(t, w) && w.at + w.size <= n
  {
    hide M.Sound;
    UnusedIfMappable(s, n, w);
    assert (s.direct + [w])[|s.direct|] == w;
  }

  /**
    Memory that is taken was not in use before, lies in memory, stays taken, and
    nothing that was taken before is given up.
   */
  lemma TakeGivesUnused(s: Space, n: nat, size: u64, poolMap: Option<u64>, blockMap: Option<u64>)
    requires Tidy(s, n) && MapsFit(s, n, size, poolMap, blockMap)
    ensures |s.pool.lists| == M.CLASSES
    ensures var (t, o) := Take(s, size, poolMap, blockMap);
            && Tidy(t, n) && s.direct <= t.direct && s.pool.regions <= t.pool.regions
            && (o.Place? ==> o.at + size <= n && Unused(s, Span(o.at, size)) && Taken(t, Span(o.at, size)))
  {
    hide M.Sound, M.Alloc, Mappable, Tidy;
    assert M.Sound(s.pool) by { TidyIsSound(s, n); }
    M.SoundHasLists(s.pool);
    AllocKeepsTidy(s, n, size, poolMap);
    RegionsOnlyGrow(s.pool, size, poolMap);
    var (pool, r) := M.Alloc(s.pool, size, poolMap);
    if r.Some? {
      RegionWasUnused(s, n, size, poolMap);
      assert pool.regions[|s.pool.regions|] == r.value;
    } else if blockMap.Some? {
      NoRegionNoChange(s, n, size, poolMap);
      MapKeepsTidy(s, n, Span(blockMap.value, size));
    }
  }

  lemma TidyIsSound(s: Space, n: nat)
    requires Tidy(s, n)
    ensures M.Sound(s.pool)
  {
  }

  lemma NoRegionNoChange(s: Space, n: nat, size: u64, poolMap: Option<u64>)
    requires |s.pool.lists| == M.CLASSES && M.Alloc(s.pool, size, poolMap).1.None?
    ensures M.Alloc(s.pool, size, poolMap).0 == s.pool
  {
  }
}
