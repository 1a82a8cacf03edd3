/** The pool of executable memory: linked chunks by size class, updated in place. */
module Mempool {
  import opened Words
  import opened MempoolSpec

  class Chunk {
    const base: u64
    const size: u64
    const classId: nat
    var offset: u64
    var next: Chunk?

    constructor (base: u64, size: u64, classId: nat, offset: u64, next: Chunk?)
      ensures this.base == base && this.size == size && this.classId == classId && this.offset == offset && this.next == next
    {
      this.base, this.size, this.classId, this.offset, this.next := base, size, classId, offset, next;
    }

    function Abs(): Area
      reads this`offset
    {
      Area(base, size, offset, classId)
    }
  }

  function Nth(s: seq<Chunk>, i: nat): Chunk? {
    if i < |s| then s[i] else null
  }

  ghost predicate Linked(head: Chunk?, s: seq<Chunk>)
    reads s`next
  {
    head == Nth(s, 0) && forall i {:trigger s[i].next} :: 0 <= i < |s| ==> s[i].next == Nth(s, i + 1)
  }

  ghost function Areas(s: seq<Chunk>): (r: seq<Area>)
    reads s`offset
    ensures |r| == |s| && forall i :: 0 <= i < |s| ==> r[i] == s[i].Abs()
  {
    if s == [] then [] else [s[0].Abs()] + Areas(s[1..])
  }

  /** A chunk occurs at one place only. */
  ghost predicate Once(lists: seq<seq<Chunk>>) {
    forall c, i, d, j :: 0 <= c < |lists| && 0 <= i < |lists[c]| && 0 <= d < |lists| && 0 <= j < |lists[d]| && (c != d || i != j) ==>
      lists[c][i] != lists[d][j]
  }

  class Pool {
    const chunks: array<Chunk?>
    var total: u64
    var used: u64
    const maxSize: u64
    const growth: bool
    ghost var lists: seq<seq<Chunk>>
    ghost var all: set<Chunk>
    ghost var regions: seq<Region>

    ghost predicate Listed()
      reads this`lists, this`all
    {
      && |lists| == chunks.Length == CLASSES && Once(lists)
      && (forall c, i :: 0 <= c < CLASSES && 0 <= i < |lists[c]| ==> lists[c][i] in all)
    }

    ghost function AllAreas(): (r: seq<seq<Area>>)
      requires Listed()
      reads this`lists, this`all, all`offset
      ensures |r| == CLASSES && forall c :: 0 <= c < CLASSES ==> r[c] == Areas(lists[c])
    {
      [Areas(lists[0]), Areas(lists[1]), Areas(lists[2]), Areas(lists[3]), Areas(lists[4]), Areas(lists[5])]
    }

    ghost function St(): State
      requires Listed()
      reads this, all`offset
    {
      State(AllAreas(), total, used, maxSize, growth, regions)
    }

    ghost predicate HeadsLinked()
      requires Listed()
      reads this`lists, this`all, chunks, all`next
    {
      forall c :: 0 <= c < CLASSES && c < chunks.Length ==> Linked(chunks[c], lists[c])
    }

    ghost predicate Valid()
      reads this, chunks, all`next, all`offset
    {
      Listed() && HeadsLinked() && Sound(St())
    }

    lemma ValidIsListed()
      requires Valid()
      ensures Listed()
    {
    }

    /** The initial chunk goes to the list of its class; growth is on whatever the configuration says. */
    constructor (initialSize: u64, chunkSize: u64, maxSize: u64, mmap: Option<u64>)
      requires var s := Init(initialSize, chunkSize, maxSize, mmap); mmap.Some? ==>
                 0 < ChunkSize(s.total) && mmap.value + ChunkSize(s.total) <= USER_SPACE
      ensures Valid() && St() == Init(initialSize, chunkSize, maxSize, mmap)
      ensures fresh(chunks) && fresh(all)
    {
      total, used, regions := 0, 0, [];
      hide *;
      var max := LimitOf(maxSize);
      var initial := InitialOf(initialSize, chunkSize, max);
      var heads := NoChunks();
      this.maxSize, growth := max, true;
      chunks := heads;
      lists, all := [[], [], [], [], [], []], {};
      new;
      EmptyLists();
      MapInitialChunk(initial, mmap);
      Established(initialSize, chunkSize, maxSize, mmap);
    }

    static method NoChunks() returns (heads: array<Chunk?>)
      ensures fresh(heads) && NoneIn(heads)
    {
      heads := new Chunk?[CLASSES](_ => null);
    }

    static ghost predicate NoneIn(heads: array<Chunk?>)
      reads heads
    {
      heads.Length == CLASSES && forall c :: 0 <= c < CLASSES ==> heads[c] == null
    }

    lemma Established(initialSize: u64, chunkSize: u64, maxSize: u64, mmap: Option<u64>)
      requires Listed() && HeadsLinked() && this.maxSize == LimitOf(maxSize) && growth && used == 0 && regions == []
      requires var initial := InitialOf(initialSize, chunkSize, LimitOf(maxSize));
               && total == (if mmap.Some? then initial else 0)
               && AllAreas() == (if mmap.Some? then NoAreas()[ClassOf(initial) := [Area(mmap.value, ChunkSize(initial), 0, ClassOf(initial))]]
                                 else NoAreas())
      requires var s := Init(initialSize, chunkSize, maxSize, mmap); mmap.Some? ==>
                 0 < ChunkSize(s.total) && mmap.value + ChunkSize(s.total) <= USER_SPACE
      ensures Valid() && St() == Init(initialSize, chunkSize, maxSize, mmap)
    {
      hide Areas, AllAreas, Once, Sound, HeadsLinked, ClassOf, ChunkSize, LimitOf, InitialOf;
      InitIsSound(initialSize, chunkSize, maxSize, mmap);
    }

    lemma EmptyLists()
      requires lists == [[], [], [], [], [], []] && NoneIn(chunks)
      ensures Listed() && HeadsLinked() && AllAreas() == NoAreas()
    {
    }

    method MapInitialChunk(initial: u64, mmap: Option<u64>)
      requires Listed() && HeadsLinked() && all == {} && AllAreas() == NoAreas() && total == 0
      modifies this`lists, this`all, this`total, chunks
      ensures Listed() && HeadsLinked() && fresh(all) && total == (if mmap.Some? then initial else 0)
      ensures AllAreas() == (if mmap.Some? then NoAreas()[ClassOf(initial) := [Area(mmap.value, ChunkSize(initial), 0, ClassOf(initial))]]
                             else NoAreas())
    {
      hide *;
      if mmap.Some? {
        AddInitialChunk(initial, mmap.value);
      }
    }

    method AddInitialChunk(initial: u64, base: u64)
      requires Listed() && HeadsLinked() && all == {} && AllAreas() == NoAreas()
      modifies this`lists, this`all, this`total, chunks
      ensures Listed() && HeadsLinked() && fresh(all) && total == initial
      ensures AllAreas() == NoAreas()[ClassOf(initial) := [Area(base, ChunkSize(initial), 0, ClassOf(initial))]]
    {
      hide *;
      var c := ClassOf(initial);
      NoneMapped(c);
      var chunk := new Chunk(base, ChunkSize(initial), c, 0, chunks[c]);
      PushChunk(chunk, c, NoAreas());
      total := initial;
      AbsIs(chunk);
      assert [chunk.Abs()] + [] == [chunk.Abs()];
    }

    lemma NoneMapped(c: nat)
      requires Listed() && c < CLASSES
      ensures NoAreas()[c] == [] && c < chunks.Length
    {
    }

    /** The first chunk of the list with room, or null. */
    method FindRoom(c: nat, size: u64) returns (chunk: Chunk?, ghost i: nat)
      requires c < CLASSES && Listed() && HeadsLinked()
      ensures i == FirstFit(Areas(lists[c]), size) && chunk == Nth(lists[c], i)
    {
      ghost var list, areas := lists[c], Areas(lists[c]);
      assert Linked(chunks[c], list);
      hide *;
      chunk := chunks[c];
      i := 0;
      while chunk != null && !HasRoom(chunk.Abs(), size)
        invariant i <= |list| && chunk == Nth(list, i)
        invariant forall k :: 0 <= k < i ==> !HasRoom(areas[k], size)
        decreases |list| - i
      {
        NextOf(chunks[c], list, i);
        chunk := chunk.next;
        i := i + 1;
      }
      NextOf(chunks[c], list, i);
      FirstFitIs(areas, size, i);
    }

    lemma NextOf(head: Chunk?, list: seq<Chunk>, i: nat)
      requires Linked(head, list) && i <= |list|
      ensures Nth(list, 0) == head && (Nth(list, i) == null <==> i == |list|)
      ensures i < |list| ==> Nth(list, i) == list[i] && list[i].next == Nth(list, i + 1)
      ensures |Areas(list)| == |list| && (i < |list| ==> Areas(list)[i] == list[i].Abs())
    {
    }

    /**
      Hands out memory for a block; `mmap` is what the kernel answers if a new chunk is mapped.
      Any request is taken, by a sound pool or not; a sound one stays sound unless the request overruns.
     */
    method Alloc(request: u64, mmap: Option<u64>) returns (r: Option<Region>)
      requires Listed() && HeadsLinked()
      modifies this, chunks, all`offset
      ensures Listed() && HeadsLinked() && (St(), r) == MempoolSpec.Alloc(old(St()), request, mmap)
      ensures old(Sound(St())) && (mmap.Some? ==> FreshMapping(old(St()), mmap.value, ChunkSize(Round16(request)))) ==>
                (Valid() <==> !Overruns(old(St()), request))
      ensures all >= old(all) && fresh(all - old(all))
    {
      hide Sound, Areas, AllAreas, Once, HeadsLinked, Overruns, FreshMapping;
      ghost var before := St();
      var size := Round16(request);
      var c := ClassOf(size);
      var chunk;
      ghost var i;
      chunk, i := FindRoom(c, size);
      AllocFrom(before, request, mmap);
      hide *;
      if chunk != null {
        r := Some(Region(chunk.base, chunk.offset, size));
        HandOut(chunk, c, i, size);
      } else {
        r := AllocInNewChunk(size, c, mmap);
      }
      ValidIff(before, request, mmap);
    }

    lemma AllocFrom(s: State, request: u64, mmap: Option<u64>)
      requires |s.lists| == CLASSES
      ensures var size := Round16(request);
              var c := ClassOf(size);
              var i := FirstFit(s.lists[c], size);
              && (i < |s.lists[c]| ==>
                    && Has(s, c, i)
                    && MempoolSpec.Alloc(s, request, mmap) ==
                       (Reused(s, c, i, size), Some(Region(s.lists[c][i].base, s.lists[c][i].offset, size))))
              && (i == |s.lists[c]| ==> MempoolSpec.Alloc(s, request, mmap) == InNewChunk(s, size, mmap))
    {
    }

    lemma ValidIff(before: State, request: u64, mmap: Option<u64>)
      requires Listed() && HeadsLinked() && |before.lists| == CLASSES && St() == MempoolSpec.Alloc(before, request, mmap).0
      ensures Sound(before) && (mmap.Some? ==> FreshMapping(before, mmap.value, ChunkSize(Round16(request)))) ==>
                (Valid() <==> !Overruns(before, request))
    {
      hide Sound, Areas, AllAreas, Once, HeadsLinked, Overruns, FreshMapping, MempoolSpec.Alloc;
      if Sound(before) && (mmap.Some? ==> FreshMapping(before, mmap.value, ChunkSize(Round16(request)))) {
        AllocKeepsSoundIff(before, request, mmap);
      }
    }

    method AllocInNewChunk(size: u64, c: nat, mmap: Option<u64>) returns (r: Option<Region>)
      requires Listed() && HeadsLinked() && c == ClassOf(size) && size % 16 == 0
      modifies this, chunks
      ensures Listed() && HeadsLinked() && all >= old(all) && fresh(all - old(all))
      ensures (St(), r) == InNewChunk(old(St()), size, mmap)
    {
      hide Areas, AllAreas, Once, HeadsLinked, Grown;
      ClassOfChunk(size);
      var newSize := ChunkSize(size);
      if (total + newSize) % TWO64 > maxSize && !growth {
        return None;
      }
      if mmap.None? {
        return None;
      }
      Grow(mmap.value, ChunkSize(newSize), ClassOf(newSize), c, size, St());
      return Some(Region(mmap.value, 0, size));
    }

    method HandOut(chunk: Chunk, ghost c: nat, ghost i: nat, size: u64)
      requires Listed() && HeadsLinked() && c < CLASSES && i < |lists[c]| && lists[c][i] == chunk
      modifies this`used, this`regions, chunk`offset
      ensures Listed() && HeadsLinked() && St() == Reused(old(St()), c, i, size)
    {
      hide Areas, AllAreas;
      ghost var before := St();
      regions := regions + [Region(chunk.base, chunk.offset, size)];
      chunk.offset := (chunk.offset + size) % TWO64;
      used := (used + size) % TWO64;
      forall d | 0 <= d < CLASSES
        ensures St().lists[d] == Reused(before, c, i, size).lists[d]
      {
        forall j | 0 <= j < |lists[d]|
          ensures St().lists[d][j] == Reused(before, c, i, size).lists[d][j]
        {
          assert d != c || j != i ==> lists[d][j] != chunk;
        }
      }
      assert St().lists == Reused(before, c, i, size).lists;
    }

    method Grow(base: u64, size: u64, classId: nat, c: nat, first: u64, ghost s: State)
      requires Listed() && HeadsLinked() && c < CLASSES && St() == s
      modifies this, chunks
      ensures Listed() && HeadsLinked() && c < |s.lists| && St() == Grown(s, c, Area(base, size, first, classId))
      ensures all >= old(all) && fresh(all - old(all))
    {
      hide *;
      StIs(s);
      var chunk := new Chunk(base, size, classId, first, chunks[c]);
      AbsIs(chunk);
      PushChunk(chunk, c, s.lists);
      total := Plus(total, size);
      used := Plus(used, first);
      regions := regions + [Region(base, 0, first)];
      GrownIs(s, c, chunk.Abs());
    }

    lemma AbsIs(chunk: Chunk)
      ensures chunk.Abs() == Area(chunk.base, chunk.size, chunk.offset, chunk.classId)
    {
    }

    lemma StIs(s: State)
      requires Listed() && St() == s
      ensures s == State(AllAreas(), total, used, maxSize, growth, regions) && |s.lists| == CLASSES == chunks.Length
    {
    }

    lemma GrownIs(s: State, c: nat, a: Area)
      requires Listed() && |s.lists| == CLASSES && c < CLASSES && AllAreas() == s.lists[c := [a] + s.lists[c]]
      requires total == Plus(s.total, a.size) && used == Plus(s.used, a.offset) && maxSize == s.maxSize && growth == s.growth
      requires regions == s.regions + [Region(a.base, 0, a.offset)]
      ensures St() == Grown(s, c, a)
    {
      hide AllAreas;
    }

    /** A chunk goes to the front of list c; `areas` are those of the lists before. */
    method PushChunk(chunk: Chunk, c: nat, ghost areas: seq<seq<Area>>)
      requires Listed() && HeadsLinked() && c < CLASSES && AllAreas() == areas && chunk.next == chunks[c] && chunk !in all
      modifies this`lists, this`all, chunks
      ensures Listed() && HeadsLinked() && all == old(all) + {chunk}
      ensures c < |areas| && AllAreas() == areas[c := [chunk.Abs()] + areas[c]]
    {
      hide *;
      ghost var was, before := lists, all;
      ListsAre(areas);
      chunks[c] := chunk;
      all := all + {chunk};
      lists := lists[c := [chunk] + lists[c]];
      Pushed(chunk, c, was, before, areas);
    }

    lemma ListsAre(areas: seq<seq<Area>>)
      requires Listed() && HeadsLinked() && AllAreas() == areas
      ensures |lists| == chunks.Length == CLASSES == |areas| && Once(lists)
      ensures forall d :: 0 <= d < |lists| ==> Linked(chunks[d], lists[d]) && Areas(lists[d]) == areas[d]
      ensures forall d, i :: 0 <= d < |lists| && 0 <= i < |lists[d]| ==> lists[d][i] in all
    {
      hide Areas, Linked, Once;
    }

    lemma Pushed(chunk: Chunk, c: nat, was: seq<seq<Chunk>>, before: set<Chunk>, areas: seq<seq<Area>>)
      requires |was| == chunks.Length == CLASSES == |areas| && c < |was| && Once(was)
      requires forall d, i :: 0 <= d < |was| && 0 <= i < |was[d]| ==> was[d][i] in before
      requires forall d :: 0 <= d < |was| && d != c ==> Linked(chunks[d], was[d])
      requires forall d :: 0 <= d < |was| ==> Areas(was[d]) == areas[d]
      requires chunk !in before && all == before + {chunk} && lists == was[c := [chunk] + was[c]]
      requires chunks[c] == chunk && Linked(chunk.next, was[c])
      ensures Listed() && HeadsLinked() && AllAreas() == areas[c := [chunk.Abs()] + areas[c]]
    {
      LinkedFront(chunk, was[c]);
      OnceMore(chunk, c, was, before);
      hide Linked, Areas, Once;
    }

    lemma OnceMore(chunk: Chunk, c: nat, was: seq<seq<Chunk>>, before: set<Chunk>)
      requires c < |was| && Once(was) && chunk !in before
      requires forall d, i :: 0 <= d < |was| && 0 <= i < |was[d]| ==> was[d][i] in before
      ensures Once(was[c := [chunk] + was[c]])
    {
      var now := was[c := [chunk] + was[c]];
      forall d, i, e, j | 0 <= d < |now| && 0 <= i < |now[d]| && 0 <= e < |now| && 0 <= j < |now[e]| && (d != e || i != j)
        ensures now[d][i] != now[e][j]
      {
        var i', j' := if d == c then i - 1 else i, if e == c then j - 1 else j;
        if i' >= 0 && j' >= 0 {
          assert was[d][i'] != was[e][j'];
        }
      }
    }

    lemma LinkedFront(chunk: Chunk, s: seq<Chunk>)
      requires Linked(chunk.next, s)
      ensures Linked(chunk, [chunk] + s) && Areas([chunk] + s) == [chunk.Abs()] + Areas(s)
    {
      ghost var list := [chunk] + s;
      assert list[1..] == s;
      forall i | 0 <= i < |list|
        ensures list[i].next == Nth(list, i + 1)
      {
        assert i > 0 ==> list[i] == s[i - 1] && s[i - 1].next == Nth(s, i);
      }
    }
  }

  lemma {:induction false} FirstFitIs(list: seq<Area>, size: u64, i: nat)
    requires i <= |list|
    requires i < |list| ==> HasRoom(list[i], size)
    requires forall k :: 0 <= k < i ==> !HasRoom(list[k], size)
    ensures i == FirstFit(list, size)
  {
    if i > 0 {
      assert !HasRoom(list[0], size);
      FirstFitIs(list[1..], size, i - 1);
    }
  }
}
