/**
  The pool of executable memory, on values: six lists of chunks by size class,
  each chunk handed out from its base up.
 */
module MempoolSpec {
  import opened Words

  const CLASSES: nat := 6
  const USER_SPACE: int := 0x8000_0000_0000_0000

  function ClassOf(size: u64): (c: nat)
    ensures c < CLASSES
  {
    if size <= 64 then 0
    else if size <= 256 then 1
    else if size <= 1024 then 2
    else if size <= 4096 then 3
    else if size <= 16384 then 4
    else 5
  }

  function ClassSize(c: nat): u64
    requires c < CLASSES
  {
    match c
    case 0 => 64
    case 1 => 256
    case 2 => 1024
    case 3 => 4096
    case 4 => 16384
    case 5 => 65536
  }

  /** Rounds up to 16 bytes; the addition wraps. */
  function Round16(size: u64): (r: u64)
    ensures r % 16 == 0
    ensures size <= TWO64 - 16 ==> size <= r < size + 16
    ensures size > TWO64 - 16 ==> r == 0
  {
    (size + 15) % TWO64 / 16 * 16
  }

  function ChunkSize(size: u64): (r: u64)
  {
    if size > ClassSize(ClassOf(size)) then Round16(size) else ClassSize(ClassOf(size))
  }

  function Plus(x: u64, y: u64): u64 {
    (x + y) % TWO64
  }

  /** A mapped chunk, its first `offset` bytes handed out. */
  datatype Area = Area(base: u64, size: u64, offset: u64, class_: nat)

  /** What one allocation returned: `size` bytes at `offset` in the chunk at `base`. */
  datatype Region = Region(base: u64, offset: u64, size: u64)

  datatype State = State(
    lists: seq<seq<Area>>,
    total: u64,
    used: u64,
    maxSize: u64,
    growth: bool,
    ghost regions: seq<Region>)

  ghost predicate Has(s: State, c: int, i: int) {
    0 <= c < |s.lists| && 0 <= i < |s.lists[c]|
  }

  ghost function At(s: State, c: int, i: int): Area
    requires Has(s, c, i)
  {
    s.lists[c][i]
  }

  ghost predicate ApartAreas(a: Area, b: Area) {
    a.base + a.size <= b.base || b.base + b.size <= a.base
  }

  ghost predicate ApartRegions(a: Region, b: Region) {
    a.base + a.offset + a.size <= b.base + b.offset || b.base + b.offset + b.size <= a.base + a.offset
  }

  ghost predicate WellSized(a: Area, c: int) {
    && a.class_ == c && 0 < a.size && a.base + a.size <= USER_SPACE
    && a.offset <= a.size && a.offset % 16 == 0
  }

  /** r is handed out of the chunk a. */
  ghost predicate Within(r: Region, a: Area) {
    r.base == a.base && r.offset + r.size <= a.offset && r.offset % 16 == 0 && r.size % 16 == 0
  }

  ghost predicate HasHome(s: State, r: Region) {
    exists c, i :: Has(s, c, i) && Within(r, At(s, c, i))
  }

  ghost function SumOffsets(list: seq<Area>): nat {
    if list == [] then 0 else list[0].offset + SumOffsets(list[1..])
  }

  ghost function SumLists(lists: seq<seq<Area>>): nat {
    if lists == [] then 0 else SumOffsets(lists[0]) + SumLists(lists[1..])
  }

  ghost function SumRegions(regions: seq<Region>): nat {
    if regions == [] then 0 else SumRegions(regions[..|regions| - 1]) + regions[|regions| - 1].size
  }

  ghost predicate ChunksSound(s: State) {
    && |s.lists| == CLASSES
    && (forall c, i :: Has(s, c, i) ==> WellSized(At(s, c, i), c))
    && (forall c, i, d, j :: Has(s, c, i) && Has(s, d, j) && (c != d || i != j) ==> ApartAreas(At(s, c, i), At(s, d, j)))
  }

  /**
    Chunks do not overlap and are in the list of their class; the regions handed
    out lie inside one chunk each, start at a multiple of 16 from its base and do
    not overlap; and the bytes used are the sum of the offsets and of the sizes.
   */
  ghost predicate Sound(s: State) {
    && ChunksSound(s)
    && (forall k :: 0 <= k < |s.regions| ==> HasHome(s, s.regions[k]))
    && (forall k, l :: 0 <= k < l < |s.regions| ==> ApartRegions(s.regions[k], s.regions[l]))
    && s.used == SumLists(s.lists) % TWO64
    && SumLists(s.lists) == SumRegions(s.regions)
  }

  // ---- the operations

  /** The chunk has that many bytes left; the addition wraps. */
  predicate HasRoom(a: Area, size: u64) {
    (a.offset + size) % TWO64 <= a.size
  }

  ghost function FirstFit(list: seq<Area>, size: u64): (i: nat)
    ensures i <= |list|
    ensures i < |list| ==> (list[i].offset + size) % TWO64 <= list[i].size
    ensures forall k :: 0 <= k < i ==> (list[k].offset + size) % TWO64 > list[k].size
  {
    if list == [] then 0
    else if HasRoom(list[0], size) then 0
    else 1 + FirstFit(list[1..], size)
  }

  /** What the kernel guarantees of a mapping: not empty, in user space, over no chunk of the pool. */
  ghost predicate FreshMapping(s: State, base: u64, size: u64) {
    && 0 < size && base + size <= USER_SPACE
    && forall c, i :: Has(s, c, i) ==> ApartAreas(At(s, c, i), Area(base, size, 0, 0))
  }

  /** Chunk i of list c hands out `size` more bytes. */
  ghost function Reused(s: State, c: nat, i: nat, size: u64): State
    requires Has(s, c, i)
  {
    var a := s.lists[c][i];
    s.(lists := s.lists[c := s.lists[c][i := a.(offset := (a.offset + size) % TWO64)]],
       used := (s.used + size) % TWO64, regions := s.regions + [Region(a.base, a.offset, size)])
  }

  /** A new chunk, its first bytes handed out, goes to the front of list c. */
  ghost function Grown(s: State, c: nat, a: Area): State
    requires c < |s.lists|
  {
    s.(lists := s.lists[c := [a] + s.lists[c]], total := (s.total + a.size) % TWO64,
       used := (s.used + a.offset) % TWO64, regions := s.regions + [Region(a.base, 0, a.offset)])
  }

  ghost function Alloc(s: State, request: u64, mmap: Option<u64>): (State, Option<Region>)
    requires |s.lists| == CLASSES
  {
    var size := Round16(request);
    var c := ClassOf(size);
    var i := FirstFit(s.lists[c], size);
    if i < |s.lists[c]| then
      var a := s.lists[c][i];
      (Reused(s, c, i, size), Some(Region(a.base, a.offset, size)))
    else InNewChunk(s, size, mmap)
  }

  /** When no chunk has room; the size is rounded to that of a chunk here and once more where it is mapped. */
  ghost function InNewChunk(s: State, size: u64, mmap: Option<u64>): (State, Option<Region>)
    requires |s.lists| == CLASSES && size % 16 == 0
  {
    var newSize := ChunkSize(size);
    if (s.total + newSize) % TWO64 > s.maxSize && !s.growth then (s, None)
    else if mmap.None? then (s, None)
    else
      var a := Area(mmap.value, ChunkSize(newSize), size, ClassOf(newSize));
      (Grown(s, ClassOf(size), a), Some(Region(mmap.value, 0, size)))
  }

  function LimitOf(maxSize: u64): u64 {
    if maxSize != 0 then maxSize else 64 * 1024 * 1024
  }

  function InitialOf(initialSize: u64, chunkSize: u64, max: u64): u64 {
    var asked := if initialSize != 0 then initialSize else if chunkSize != 0 then chunkSize else 64 * 1024;
    if asked > max then max else asked
  }

  /** No list has a chunk. */
  function NoAreas(): (r: seq<seq<Area>>)
    ensures |r| == CLASSES && forall c :: 0 <= c < CLASSES ==> r[c] == []
  {
    seq(CLASSES, _ => [])
  }

  /** The pool after initialisation; `growth` ends up set whatever the configuration says. */
  ghost function Init(initialSize: u64, chunkSize: u64, maxSize: u64, mmap: Option<u64>): State {
    var max := LimitOf(maxSize);
    var initial := InitialOf(initialSize, chunkSize, max);
    if mmap.None? then State(NoAreas(), 0, 0, max, true, [])
    else
      var c := ClassOf(initial);
      State(NoAreas()[c := [Area(mmap.value, ChunkSize(initial), 0, c)]], initial, 0, max, true, [])
  }

  // ---- sums

  lemma {:induction false} SumOffsetsUpdate(list: seq<Area>, i: nat, a: Area)
    requires i < |list|
    ensures SumOffsets(list[i := a]) == SumOffsets(list) - list[i].offset + a.offset
  {
    if i == 0 {
      assert list[0 := a][1..] == list[1..];
    } else {
      assert list[i := a][1..] == list[1..][i - 1 := a];
      SumOffsetsUpdate(list[1..], i - 1, a);
    }
  }

  lemma {:induction false} SumListsUpdate(lists: seq<seq<Area>>, c: nat, list: seq<Area>)
    requires c < |lists|
    ensures SumLists(lists[c := list]) == SumLists(lists) - SumOffsets(lists[c]) + SumOffsets(list)
  {
    if c == 0 {
      assert lists[0 := list][1..] == lists[1..];
    } else {
      assert lists[c := list][1..] == lists[1..][c - 1 := list];
      SumListsUpdate(lists[1..], c - 1, list);
    }
  }

  lemma SumRegionsMore(regions: seq<Region>, r: Region)
    ensures SumRegions(regions + [r]) == SumRegions(regions) + r.size
  {
    assert (regions + [r])[..|regions|] == regions;
  }

  // ---- chunks side by side fit the address space

  ghost function All(lists: seq<seq<Area>>): seq<Area> {
    if lists == [] then [] else lists[0] + All(lists[1..])
  }

  lemma {:induction false} SumOffsetsJoin(a: seq<Area>, b: seq<Area>)
    ensures SumOffsets(a + b) == SumOffsets(a) + SumOffsets(b)
  {
    if a == [] {
      assert a + b == b;
    } else {
      assert (a + b)[1..] == a[1..] + b;
      SumOffsetsJoin(a[1..], b);
    }
  }

  lemma {:induction false} SumOfAll(lists: seq<seq<Area>>)
    ensures SumLists(lists) == SumOffsets(All(lists))
  {
    if lists != [] {
      SumOfAll(lists[1..]);
      SumOffsetsJoin(lists[0], All(lists[1..]));
    }
  }

  ghost predicate FitsBelow(a: Area, hi: int) {
    a.offset <= a.size && 0 < a.size && a.base + a.size <= hi
  }

  ghost predicate AllApart(areas: seq<Area>) {
    forall k, l :: 0 <= k < l < |areas| ==> ApartAreas(areas[k], areas[l])
  }

  /** Where the area with the highest end is. */
  lemma {:induction false} Highest(areas: seq<Area>) returns (m: nat)
    requires areas != []
    ensures m < |areas| && forall k :: 0 <= k < |areas| ==> areas[k].base + areas[k].size <= areas[m].base + areas[m].size
  {
    if |areas| == 1 {
      m := 0;
    } else {
      var n := Highest(areas[1..]);
      m := if areas[0].base + areas[0].size <= areas[n + 1].base + areas[n + 1].size then n + 1 else 0;
      assert forall k :: 1 <= k < |areas| ==> areas[k] == areas[1..][k - 1];
    }
  }

  /** Areas apart from one another and below hi have handed out at most hi bytes together. */
  lemma {:induction false} PackedBelow(areas: seq<Area>, hi: int)
    requires 0 <= hi && AllApart(areas) && forall k :: 0 <= k < |areas| ==> FitsBelow(areas[k], hi)
    ensures SumOffsets(areas) <= hi
    decreases |areas|
  {
    if areas != [] {
      var m := Highest(areas);
      var a, front, back := areas[m], areas[..m], areas[m + 1..];
      var rest := front + back;
      assert areas == front + ([a] + back) && [a][1..] == [];
      SumOffsetsJoin(front, [a] + back);
      SumOffsetsJoin([a], back);
      SumOffsetsJoin(front, back);
      RestIsBelow(areas, m);
      PackedBelow(rest, a.base);
    }
  }

  lemma RestIsBelow(areas: seq<Area>, m: nat)
    requires m < |areas| && AllApart(areas) && forall k :: 0 <= k < |areas| ==> FitsBelow(areas[k], areas[k].base + areas[k].size)
    requires forall k :: 0 <= k < |areas| ==> areas[k].base + areas[k].size <= areas[m].base + areas[m].size
    ensures var rest := areas[..m] + areas[m + 1..];
            AllApart(rest) && forall k :: 0 <= k < |rest| ==> FitsBelow(rest[k], areas[m].base)
  {
    var rest := areas[..m] + areas[m + 1..];
    forall k | 0 <= k < |rest|
      ensures rest[k] == areas[if k < m then k else k + 1] && FitsBelow(rest[k], areas[m].base)
    {
      var j := if k < m then k else k + 1;
      assert ApartAreas(areas[if j < m then j else m], areas[if j < m then m else j]);
      assert FitsBelow(areas[j], areas[j].base + areas[j].size);
    }
  }

  ghost predicate ListsApart(lists: seq<seq<Area>>) {
    && (forall c :: 0 <= c < |lists| ==> AllApart(lists[c]))
    && (forall c, d, i, j :: 0 <= c < d < |lists| && 0 <= i < |lists[c]| && 0 <= j < |lists[d]| ==> ApartAreas(lists[c][i], lists[d][j]))
  }

  lemma {:induction false} AllIsFrom(lists: seq<seq<Area>>, k: nat) returns (c: nat, i: nat)
    requires k < |All(lists)|
    ensures c < |lists| && i < |lists[c]| && All(lists)[k] == lists[c][i]
  {
    if k < |lists[0]| {
      c, i := 0, k;
    } else {
      var d, j := AllIsFrom(lists[1..], k - |lists[0]|);
      c, i := d + 1, j;
    }
  }

  lemma {:induction false} AllIsApart(lists: seq<seq<Area>>)
    requires ListsApart(lists)
    ensures AllApart(All(lists))
  {
    if lists != [] {
      var first, rest := lists[0], All(lists[1..]);
      assert forall c :: 1 <= c < |lists| ==> lists[1..][c - 1] == lists[c];
      AllIsApart(lists[1..]);
      forall k, l | 0 <= k < l < |first + rest|
        ensures ApartAreas((first + rest)[k], (first + rest)[l])
      {
        if k < |first| <= l {
          var c, i := AllIsFrom(lists[1..], l - |first|);
          assert ApartAreas(lists[0][k], lists[c + 1][i]);
        }
      }
    }
  }

  /** Chunks apart from one another in user space have handed out at most its size together. */
  lemma ListsFit(lists: seq<seq<Area>>)
    requires forall c, i :: 0 <= c < |lists| && 0 <= i < |lists[c]| ==> FitsBelow(lists[c][i], USER_SPACE)
    requires ListsApart(lists)
    ensures SumLists(lists) <= USER_SPACE
  {
    hide ListsApart, FitsBelow, AllApart;
    AllIsApart(lists);
    forall k | 0 <= k < |All(lists)|
      ensures FitsBelow(All(lists)[k], USER_SPACE)
    {
      var c, i := AllIsFrom(lists, k);
    }
    PackedBelow(All(lists), USER_SPACE);
    SumOfAll(lists);
  }

  lemma ChunkListsApart(s: State)
    requires ChunksSound(s)
    ensures ListsApart(s.lists)
    ensures forall c, i :: 0 <= c < |s.lists| && 0 <= i < |s.lists[c]| ==> WellSized(s.lists[c][i], c)
  {
    var lists := s.lists;
    hide WellSized, ApartAreas;
    forall c, i, d, j | 0 <= c < |lists| && 0 <= i < |lists[c]| && 0 <= d < |lists| && 0 <= j < |lists[d]| && (c != d || i != j)
      ensures ApartAreas(lists[c][i], lists[d][j])
    {
      assert Has(s, c, i) && Has(s, d, j) && ApartAreas(At(s, c, i), At(s, d, j));
    }
    forall c, i | 0 <= c < |s.lists| && 0 <= i < |s.lists[c]|
      ensures WellSized(s.lists[c][i], c)
    {
      assert Has(s, c, i) && WellSized(At(s, c, i), c);
    }
  }

  /** A sound pool has handed out less than 2^64 bytes, so the bytes used are the sums themselves. */
  lemma UsedIsExact(s: State)
    requires Sound(s)
    ensures s.used == SumLists(s.lists) == SumRegions(s.regions) && s.used <= USER_SPACE
  {
    hide SumRegions, SumLists, HasHome, ApartRegions, ListsApart;
    ChunkListsApart(s);
    ListsFit(s.lists);
  }

  // ---- the bytes mapped

  /** The chunk with all of it handed out. */
  ghost function Filled(a: Area): Area {
    a.(offset := a.size)
  }

  ghost function FilledList(list: seq<Area>): (r: seq<Area>)
    ensures |r| == |list| && forall i :: 0 <= i < |list| ==> r[i] == Filled(list[i])
  {
    seq(|list|, i requires 0 <= i < |list| => Filled(list[i]))
  }

  ghost function FilledLists(lists: seq<seq<Area>>): (r: seq<seq<Area>>)
    ensures |r| == |lists| && forall c :: 0 <= c < |lists| ==> r[c] == FilledList(lists[c])
  {
    seq(|lists|, c requires 0 <= c < |lists| => FilledList(lists[c]))
  }

  /** How many bytes of chunks the pool has. */
  ghost function Mapped(s: State): nat {
    SumLists(FilledLists(s.lists))
  }

  lemma MappedFits(s: State)
    requires ChunksSound(s)
    ensures Mapped(s) <= USER_SPACE
  {
    hide SumLists;
    ChunkListsApart(s);
    ListsFit(FilledLists(s.lists));
  }

  lemma ReusedMapped(s: State, c: nat, i: nat, size: u64)
    requires Has(s, c, i)
    ensures Mapped(Reused(s, c, i, size)) == Mapped(s)
  {
    hide SumLists;
    var list := s.lists[c];
    var a := list[i].(offset := (list[i].offset + size) % TWO64);
    assert FilledList(list[i := a]) == FilledList(list);
    assert FilledLists(s.lists[c := list[i := a]]) == FilledLists(s.lists);
  }

  lemma GrownMapped(s: State, c: nat, a: Area)
    requires c < |s.lists|
    ensures Mapped(Grown(s, c, a)) == Mapped(s) + a.size
  {
    hide SumLists;
    var list := s.lists[c];
    assert FilledList([a] + list) == [Filled(a)] + FilledList(list);
    assert FilledLists(s.lists[c := [a] + list]) == FilledLists(s.lists)[c := [Filled(a)] + FilledList(list)];
    assert ([Filled(a)] + FilledList(list))[1..] == FilledList(list);
    SumListsUpdate(FilledLists(s.lists), c, [Filled(a)] + FilledList(list));
  }

  /** The recorded total and the bytes mapped grow alike, so what lies between them stays. */
  lemma AllocKeepsGap(s: State, request: u64, mmap: Option<u64>, gap: int)
    requires |s.lists| == CLASSES && s.total == (Mapped(s) - gap) % TWO64
    ensures var t := Alloc(s, request, mmap).0; t.total == (Mapped(t) - gap) % TWO64
  {
    hide Mapped;
    var size := Round16(request);
    var c := ClassOf(size);
    var i := FirstFit(s.lists[c], size);
    if i < |s.lists[c]| {
      ReusedMapped(s, c, i, size);
    } else if mmap.Some? {
      ClassOfChunk(size);
      var a := Area(mmap.value, ChunkSize(size), size, c);
      GrownMapped(s, c, a);
      WrapAdd(Mapped(s) - gap, a.size);
    }
  }

  // ---- soundness

  /** The request runs past the end of a chunk because its size wraps. */
  ghost predicate Overruns(s: State, request: u64)
    requires |s.lists| == CLASSES
  {
    var size := Round16(request);
    var list := s.lists[ClassOf(size)];
    var i := FirstFit(list, size);
    i < |list| && list[i].offset + size >= TWO64
  }

  lemma RealRequestsDoNotOverrun(s: State, request: u64)
    requires ChunksSound(s) && request <= USER_SPACE - 16
    ensures !Overruns(s, request)
  {
    var size := Round16(request);
    var c := ClassOf(size);
    var i := FirstFit(s.lists[c], size);
    if i < |s.lists[c]| {
      assert Has(s, c, i) && WellSized(At(s, c, i), c);
    }
  }

  lemma ClassOfChunk(size: u64)
    requires size % 16 == 0
    ensures ClassOf(ChunkSize(size)) == ClassOf(size)
    ensures ChunkSize(ChunkSize(size)) == ChunkSize(size) && size <= ChunkSize(size)
  {
  }

  /** A region that lies above all that its chunk has handed out, in front of the chunk's end, meets no earlier region. */
  lemma NewRegionApart(s: State, c: int, i: int, size: u64, earlier: Region)
    requires ChunksSound(s) && Has(s, c, i) && HasHome(s, earlier)
    requires At(s, c, i).offset + size <= At(s, c, i).size
    ensures ApartRegions(earlier, Region(At(s, c, i).base, At(s, c, i).offset, size))
  {
    var d, j :| Has(s, d, j) && Within(earlier, At(s, d, j));
    assert WellSized(At(s, d, j), d);
    if c != d || i != j {
      assert ApartAreas(At(s, c, i), At(s, d, j));
    }
  }

  lemma ReusedAt(s: State, c: nat, i: nat, size: u64)
    requires Has(s, c, i)
    ensures var t := Reused(s, c, i, size);
            && (forall d, j :: Has(t, d, j) <==> Has(s, d, j))
            && (forall d, j :: Has(t, d, j) ==>
                  At(t, d, j) == if d == c && j == i then At(s, c, i).(offset := (At(s, c, i).offset + size) % TWO64) else At(s, d, j))
  {
  }

  lemma ReusedChunksSound(s: State, c: nat, i: nat, size: u64)
    requires ChunksSound(s) && Has(s, c, i) && size % 16 == 0 && At(s, c, i).offset + size <= At(s, c, i).size
    ensures ChunksSound(Reused(s, c, i, size))
  {
    var t := Reused(s, c, i, size);
    ReusedAt(s, c, i, size);
    hide Reused;
    forall d, j | Has(t, d, j)
      ensures WellSized(At(t, d, j), d)
    {
      assert WellSized(At(s, d, j), d);
    }
    forall d, j, e, k | Has(t, d, j) && Has(t, e, k) && (d != e || j != k)
      ensures ApartAreas(At(t, d, j), At(t, e, k))
    {
      assert ApartAreas(At(s, d, j), At(s, e, k));
    }
    assert |t.lists| == CLASSES by { ReusedLists(s, c, i, size); }
  }

  lemma ReusedLists(s: State, c: nat, i: nat, size: u64)
    requires Has(s, c, i)
    ensures |Reused(s, c, i, size).lists| == |s.lists|
  {
  }

  lemma ReusedHome(s: State, c: nat, i: nat, size: u64, r: Region)
    requires Has(s, c, i) && size % 16 == 0 && WellSized(At(s, c, i), c) && At(s, c, i).offset + size <= At(s, c, i).size
    requires HasHome(s, r) || r == Region(At(s, c, i).base, At(s, c, i).offset, size)
    ensures HasHome(Reused(s, c, i, size), r)
  {
    var t := Reused(s, c, i, size);
    ReusedAt(s, c, i, size);
    hide Reused;
    if HasHome(s, r) {
      var d, j :| Has(s, d, j) && Within(r, At(s, d, j));
      assert Has(t, d, j) && Within(r, At(t, d, j));
    } else {
      assert Has(t, c, i) && Within(r, At(t, c, i));
    }
  }

  lemma ReusedListSum(s: State, c: nat, i: nat, size: u64)
    requires Has(s, c, i) && At(s, c, i).offset + size <= At(s, c, i).size
    ensures SumLists(Reused(s, c, i, size).lists) == SumLists(s.lists) + size
  {
    hide SumOffsets, SumLists;
    var a := s.lists[c][i];
    var a' := a.(offset := (a.offset + size) % TWO64);
    SumOffsetsUpdate(s.lists[c], i, a');
    SumListsUpdate(s.lists, c, s.lists[c][i := a']);
  }

  lemma ReusedSums(s: State, c: nat, i: nat, size: u64)
    requires s.used == SumLists(s.lists) % TWO64 && SumLists(s.lists) == SumRegions(s.regions)
    requires Has(s, c, i) && At(s, c, i).offset + size <= At(s, c, i).size
    ensures var t := Reused(s, c, i, size); t.used == SumLists(t.lists) % TWO64 && SumLists(t.lists) == SumRegions(t.regions)
  {
    hide SumOffsets, SumLists, SumRegions;
    ReusedListSum(s, c, i, size);
    SumRegionsMore(s.regions, Region(At(s, c, i).base, At(s, c, i).offset, size));
    WrapAdd(SumLists(s.lists), size);
  }

  lemma ReuseKeepsSound(s: State, c: nat, i: nat, size: u64)
    requires Sound(s) && Has(s, c, i) && size % 16 == 0 && At(s, c, i).offset + size <= At(s, c, i).size
    ensures Sound(Reused(s, c, i, size))
  {
    var t := Reused(s, c, i, size);
    var r := Region(At(s, c, i).base, At(s, c, i).offset, size);
    assert t.regions == s.regions + [r];
    ReusedChunksSound(s, c, i, size);
    ReusedSums(s, c, i, size);
    hide Reused, HasHome, ApartRegions;
    forall k | 0 <= k < |t.regions|
      ensures HasHome(t, t.regions[k])
    {
      ReusedHome(s, c, i, size, t.regions[k]);
    }
    forall k | 0 <= k < |s.regions|
      ensures ApartRegions(s.regions[k], r)
    {
      NewRegionApart(s, c, i, size, s.regions[k]);
    }
  }

  // a new chunk at the front of its list

  /** The position of an old chunk once a new one has been put in front of list c. */
  function Moved(c: nat, d: int, j: int): int {
    if d == c then j + 1 else j
  }

  lemma GrownAt(s: State, c: nat, a: Area)
    requires c < |s.lists|
    ensures var t := Grown(s, c, a);
            && |t.lists| == |s.lists| && Has(t, c, 0) && At(t, c, 0) == a
            && (forall d, j :: Has(s, d, j) ==> Has(t, d, Moved(c, d, j)) && At(t, d, Moved(c, d, j)) == At(s, d, j))
            && (forall d, j :: Has(t, d, j) && (d != c || j != 0) ==>
                  Has(s, d, if d == c then j - 1 else j) && At(t, d, j) == At(s, d, if d == c then j - 1 else j))
  {
  }

  lemma GrownHome(s: State, c: nat, a: Area, r: Region)
    requires c < |s.lists| && WellSized(a, c)
    requires HasHome(s, r) || r == Region(a.base, 0, a.offset)
    ensures HasHome(Grown(s, c, a), r)
  {
    var t := Grown(s, c, a);
    GrownAt(s, c, a);
    hide Grown;
    if HasHome(s, r) {
      var d, j :| Has(s, d, j) && Within(r, At(s, d, j));
      assert Has(t, d, Moved(c, d, j)) && Within(r, At(t, d, Moved(c, d, j)));
    } else {
      assert Has(t, c, 0) && Within(r, At(t, c, 0));
    }
  }

  lemma GrownApart(s: State, c: nat, a: Area, earlier: Region)
    requires ChunksSound(s) && WellSized(a, c) && ApartFromAll(s, a) && HasHome(s, earlier)
    ensures ApartRegions(earlier, Region(a.base, 0, a.offset))
  {
    var d, j :| Has(s, d, j) && Within(earlier, At(s, d, j));
    assert ApartAreas(At(s, d, j), a) && WellSized(At(s, d, j), d);
  }

  lemma GrownSums(s: State, c: nat, a: Area)
    requires s.used == SumLists(s.lists) % TWO64 && SumLists(s.lists) == SumRegions(s.regions) && c < |s.lists|
    ensures var t := Grown(s, c, a); t.used == SumLists(t.lists) % TWO64 && SumLists(t.lists) == SumRegions(t.regions)
  {
    assert ([a] + s.lists[c])[1..] == s.lists[c];
    SumListsUpdate(s.lists, c, [a] + s.lists[c]);
    SumRegionsMore(s.regions, Region(a.base, 0, a.offset));
    WrapAdd(SumLists(s.lists), a.offset);
  }

  lemma GrowKeepsSound(s: State, c: nat, a: Area)
    requires Sound(s) && c < CLASSES && WellSized(a, c) && ApartFromAll(s, a)
    ensures Sound(Grown(s, c, a))
  {
    var t := Grown(s, c, a);
    var r := Region(a.base, 0, a.offset);
    assert t.regions == s.regions + [r];
    GrownChunksSound(s, c, a);
    GrownSums(s, c, a);
    hide Grown, HasHome, ApartRegions;
    forall k | 0 <= k < |t.regions|
      ensures HasHome(t, t.regions[k])
    {
      GrownHome(s, c, a, t.regions[k]);
    }
    forall k | 0 <= k < |s.regions|
      ensures ApartRegions(s.regions[k], r)
    {
      GrownApart(s, c, a, s.regions[k]);
    }
  }

  ghost predicate ApartFromAll(s: State, a: Area) {
    forall c, i :: Has(s, c, i) ==> ApartAreas(At(s, c, i), a)
  }

  lemma GrownChunksSound(s: State, c: nat, a: Area)
    requires ChunksSound(s) && c < CLASSES && WellSized(a, c) && ApartFromAll(s, a)
    ensures ChunksSound(Grown(s, c, a))
  {
    var t := Grown(s, c, a);
    GrownAt(s, c, a);
    hide Grown;
    forall d, j | Has(t, d, j)
      ensures WellSized(At(t, d, j), d)
    {
    }
    forall d, j, e, k | Has(t, d, j) && Has(t, e, k) && (d != e || j != k)
      ensures ApartAreas(At(t, d, j), At(t, e, k))
    {
      var j', k' := if d == c then j - 1 else j, if e == c then k - 1 else k;
      if d == c && j == 0 {
        assert Has(s, e, k') && At(t, e, k) == At(s, e, k');
      } else if e == c && k == 0 {
        assert Has(s, d, j') && At(t, d, j) == At(s, d, j');
      } else {
        assert Has(s, d, j') && Has(s, e, k') && At(t, d, j) == At(s, d, j') && At(t, e, k) == At(s, e, k');
      }
    }
  }

  /** One allocation keeps the pool sound, unless the request overruns. */
  lemma AllocKeepsSound(s: State, request: u64, mmap: Option<u64>)
    requires Sound(s) && !Overruns(s, request)
    requires mmap.Some? ==> FreshMapping(s, mmap.value, ChunkSize(Round16(request)))
    ensures Sound(Alloc(s, request, mmap).0)
  {
    hide Sound, Reused, Grown;
    SoundHasLists(s);
    var size := Round16(request);
    var c := ClassOf(size);
    var i := FirstFit(s.lists[c], size);
    if i < |s.lists[c]| {
      assert Has(s, c, i) && WellSized(At(s, c, i), c);
      ReuseKeepsSound(s, c, i, size);
    } else if mmap.Some? {
      ClassOfChunk(size);
      GrowKeepsSound(s, c, Area(mmap.value, ChunkSize(size), size, c));
    }
  }

  /** An overrunning request gets a region that does not fit its chunk. */
  lemma OverrunIsUnsound(s: State, request: u64, mmap: Option<u64>)
    requires Sound(s) && Overruns(s, request)
    ensures var (t, r) := Alloc(s, request, mmap); r.Some? && !Sound(t)
  {
    var size := Round16(request);
    var c := ClassOf(size);
    var i := FirstFit(s.lists[c], size);
    assert Has(s, c, i) && WellSized(At(s, c, i), c);
    var (t, r) := Alloc(s, request, mmap);
    assert t.regions[|s.regions|] == r.value;
  }

  /** So an allocation keeps the pool sound exactly when it does not overrun. */
  lemma AllocKeepsSoundIff(s: State, request: u64, mmap: Option<u64>)
    requires Sound(s)
    requires mmap.Some? ==> FreshMapping(s, mmap.value, ChunkSize(Round16(request)))
    ensures Sound(Alloc(s, request, mmap).0) <==> !Overruns(s, request)
  {
    if Overruns(s, request) {
      OverrunIsUnsound(s, request, mmap);
    } else {
      AllocKeepsSound(s, request, mmap);
    }
  }

  /** The region given holds what was asked for exactly when rounding up does not wrap; above that it is empty. */
  lemma RegionHoldsRequestIff(s: State, request: u64, mmap: Option<u64>)
    requires |s.lists| == CLASSES
    ensures var r := Alloc(s, request, mmap).1;
            r.Some? ==> r.value.size == Round16(request) && (request <= r.value.size <==> request <= TWO64 - 16)
  {
    hide FirstFit, ChunkSize, ClassOf;
  }

  /** A request is served as it should be exactly when it neither overruns its chunk nor wraps to nothing. */
  lemma AllocServesIff(s: State, request: u64, mmap: Option<u64>)
    requires Sound(s) && |s.lists| == CLASSES && Alloc(s, request, mmap).1.Some?
    requires mmap.Some? ==> FreshMapping(s, mmap.value, ChunkSize(Round16(request)))
    ensures var (t, r) := Alloc(s, request, mmap);
            Sound(t) && request <= r.value.size <==> !Overruns(s, request) && request <= TWO64 - 16
  {
    AllocKeepsSoundIff(s, request, mmap);
    RegionHoldsRequestIff(s, request, mmap);
    hide Sound, Alloc, Overruns, FreshMapping;
  }

  lemma InitIsSound(initialSize: u64, chunkSize: u64, maxSize: u64, mmap: Option<u64>)
    requires var s := Init(initialSize, chunkSize, maxSize, mmap);
             mmap.Some? ==> 0 < ChunkSize(s.total) && mmap.value + ChunkSize(s.total) <= USER_SPACE
    ensures Sound(Init(initialSize, chunkSize, maxSize, mmap))
  {
    var s := Init(initialSize, chunkSize, maxSize, mmap);
    NothingUsed(s.lists);
  }

  lemma {:induction false} NothingUsed(lists: seq<seq<Area>>)
    requires forall c :: 0 <= c < |lists| ==> lists[c] == [] || (|lists[c]| == 1 && lists[c][0].offset == 0)
    ensures SumLists(lists) == 0
  {
    if lists != [] {
      assert SumOffsets([]) == 0;
      assert lists[0] != [] ==> lists[0][1..] == [];
      assert SumOffsets(lists[0]) == 0;
      NothingUsed(lists[1..]);
    }
  }

  // ---- runs

  datatype Request = Request(size: u64, mmap: Option<u64>)

  ghost function Serve(s: State, requests: seq<Request>): (r: State)
    requires |s.lists| == CLASSES
    ensures |r.lists| == CLASSES
    decreases |requests|
  {
    if requests == [] then s else Serve(Alloc(s, requests[0].size, requests[0].mmap).0, requests[1..])
  }

  /** The requests are of real sizes and every mapping is fresh when it is made. */
  ghost predicate Served(s: State, requests: seq<Request>)
    requires |s.lists| == CLASSES
    decreases |requests|
  {
    requests == [] ||
    var q := requests[0];
    && q.size <= USER_SPACE - 16
    && (q.mmap.Some? ==> FreshMapping(s, q.mmap.value, ChunkSize(Round16(q.size))))
    && Served(Alloc(s, q.size, q.mmap).0, requests[1..])
  }

  /** Over any sequence of allocations the pool stays sound, no region is taken back, and the bytes used are exactly the sums. */
  lemma {:induction false} RunsStaySound(s: State, requests: seq<Request>)
    requires Sound(s) && Served(s, requests)
    ensures var t := Serve(s, requests);
            Sound(t) && s.regions <= t.regions && t.used == SumLists(t.lists) == SumRegions(t.regions)
    decreases |requests|
  {
    hide Sound, ChunksSound, Overruns, FreshMapping;
    if requests == [] {
      UsedIsExact(s);
    } else {
      SoundHasLists(s);
      RealRequestsDoNotOverrun(s, requests[0].size);
      AllocKeepsSound(s, requests[0].size, requests[0].mmap);
      RunsStaySound(Alloc(s, requests[0].size, requests[0].mmap).0, requests[1..]);
    }
  }

  lemma SoundHasLists(s: State)
    requires Sound(s)
    ensures |s.lists| == CLASSES && ChunksSound(s)
  {
  }

  /** Such a pool comes about: half of the first chunk handed out, then a request of 2^64 - 16 bytes. */
  lemma OverrunComesAbout()
    ensures var s := Serve(Init(65536, 0, 0, Some(4096)), [Request(32768, None)]);
            Sound(s) && Overruns(s, TWO64 - 16) && Alloc(s, TWO64 - 16, None).1 == Some(Region(4096, 32768, TWO64 - 16))
  {
    var s := Init(65536, 0, 0, Some(4096));
    var a := Area(4096, 65536, 0, 5);
    InitIsSound(65536, 0, 0, Some(4096));
    assert s.lists[5] == [a];
    var t := Alloc(s, 32768, None).0;
    HalfHandedOut(s, a);
    assert [Request(32768, None)][1..] == [];
    assert Serve(s, [Request(32768, None)]) == t;
  }

  /** A new pool gives a request of 2^64 - 1 bytes nothing, at the place where the next region starts. */
  lemma EmptyRegionComesAbout()
    ensures var s := Init(64, 0, 0, Some(4096));
            var (t, r) := Alloc(s, TWO64 - 1, None);
            && Sound(s) && !Overruns(s, TWO64 - 1) && r == Some(Region(4096, 0, 0))
            && Sound(t) && Alloc(t, 16, None).1 == Some(Region(4096, 0, 16))
  {
    var s := Init(64, 0, 0, Some(4096));
    InitIsSound(64, 0, 0, Some(4096));
    assert s.lists[0] == [Area(4096, 64, 0, 0)];
    NothingHandedOut(s, Area(4096, 64, 0, 0));
  }

  lemma NothingHandedOut(s: State, a: Area)
    requires Sound(s) && |s.lists| == CLASSES && s.lists[0] == [a] && a == Area(4096, 64, 0, 0)
    ensures var (t, r) := Alloc(s, TWO64 - 1, None);
            && !Overruns(s, TWO64 - 1) && r == Some(Region(4096, 0, 0))
            && Sound(t) && Alloc(t, 16, None).1 == Some(Region(4096, 0, 16))
  {
    hide Sound;
    assert Round16(TWO64 - 1) == 0 && ClassOf(0) == 0 && FirstFit([a], 0) == 0;
    AllocKeepsSound(s, TWO64 - 1, None);
    var t := Alloc(s, TWO64 - 1, None).0;
    assert t.lists[0] == [a];
    assert Round16(16) == 16 && ClassOf(16) == 0 && FirstFit([a], 16) == 0;
  }

  lemma HalfHandedOut(s: State, a: Area)
    requires Sound(s) && s.lists[5] == [a] && a == Area(4096, 65536, 0, 5)
    ensures var t := Alloc(s, 32768, None).0;
            Sound(t) && Overruns(t, TWO64 - 16) && Alloc(t, TWO64 - 16, None).1 == Some(Region(4096, 32768, TWO64 - 16))
  {
    hide Sound;
    SoundHasLists(s);
    RealRequestsDoNotOverrun(s, 32768);
    AllocKeepsSound(s, 32768, None);
    assert Round16(32768) == 32768 && ClassOf(32768) == 5 && FirstFit([a], 32768) == 0;
    var t := Alloc(s, 32768, None).0;
    var b := a.(offset := 32768);
    assert t.lists[5] == [b];
    assert Round16(TWO64 - 16) == TWO64 - 16 && ClassOf(TWO64 - 16) == 5 && FirstFit([b], TWO64 - 16) == 0;
  }

  lemma {:induction false} ServeKeepsGrowth(s: State, requests: seq<Request>)
    requires |s.lists| == CLASSES
    ensures Serve(s, requests).growth == s.growth
    decreases |requests|
  {
    if requests != [] {
      ServeKeepsGrowth(Alloc(s, requests[0].size, requests[0].mmap).0, requests[1..]);
    }
  }

  /**
    Growth is on from the start, whatever the configuration says, and stays on. So after any
    requests of any sizes a request is refused exactly when no chunk of its class has
    room and the kernel maps nothing; the limit never refuses.
   */
  lemma LimitNeverRefuses(initialSize: u64, chunkSize: u64, maxSize: u64, first: Option<u64>, requests: seq<Request>,
                          request: u64, mmap: Option<u64>)
    ensures var s := Serve(Init(initialSize, chunkSize, maxSize, first), requests);
            var size := Round16(request);
            var list := s.lists[ClassOf(size)];
            Alloc(s, request, mmap).1.None? <==>
              mmap.None? && forall k :: 0 <= k < |list| ==> (list[k].offset + size) % TWO64 > list[k].size
  {
    hide Round16, ClassOf, ChunkSize, Reused, Grown;
    var s0 := Init(initialSize, chunkSize, maxSize, first);
    ServeKeepsGrowth(s0, requests);
    var s := Serve(s0, requests);
    var size := Round16(request);
    var i := FirstFit(s.lists[ClassOf(size)], size);
  }

  /** The sizes that are mapped as they are asked for. */
  predicate IsChunkSize(n: u64) {
    n in {64, 256, 1024, 4096, 16384, 65536} || (n > 65536 && n % 16 == 0)
  }

  lemma ChunkSizeIff(n: u64)
    ensures ChunkSize(n) == n <==> IsChunkSize(n)
  {
    if n > 65536 && n % 16 != 0 {
      assert Round16(n) % 16 == 0;
    }
  }

  lemma {:induction false} ServeKeepsGap(s: State, requests: seq<Request>, gap: int)
    requires |s.lists| == CLASSES && s.total == (Mapped(s) - gap) % TWO64
    ensures var t := Serve(s, requests); t.total == (Mapped(t) - gap) % TWO64
    decreases |requests|
  {
    hide Mapped;
    if requests != [] {
      AllocKeepsGap(s, requests[0].size, requests[0].mmap, gap);
      ServeKeepsGap(Alloc(s, requests[0].size, requests[0].mmap).0, requests[1..], gap);
    }
  }

  /**
    The total starts as the initial size that was asked for, not as what was mapped for it.
    So after any sequence of allocations the recorded total is the number of bytes
    mapped exactly if nothing was mapped at first or the initial size is a chunk size.
   */
  lemma InitialTotalIff(initialSize: u64, chunkSize: u64, maxSize: u64, first: Option<u64>, requests: seq<Request>)
    requires var s := Init(initialSize, chunkSize, maxSize, first); Sound(s) && Served(s, requests)
    ensures var t := Serve(Init(initialSize, chunkSize, maxSize, first), requests);
            t.total == Mapped(t) <==> first.None? || IsChunkSize(InitialOf(initialSize, chunkSize, LimitOf(maxSize)))
  {
    hide *;
    var s := Init(initialSize, chunkSize, maxSize, first);
    var n := InitialOf(initialSize, chunkSize, LimitOf(maxSize));
    var gap := if first.None? then 0 else ChunkSize(n) - n;
    SoundHasLists(s);
    InitialGap(initialSize, chunkSize, maxSize, first);
    RunsStaySound(s, requests);
    ServeKeepsGap(s, requests, gap);
    ChunkSizeIff(n);
    var t := Serve(s, requests);
    SoundHasLists(t);
    MappedFits(t);
    GapShows(t.total, Mapped(t), if first.None? then n else ChunkSize(n), n);
  }

  lemma GapShows(total: u64, mapped: nat, size: u64, n: u64)
    requires mapped <= USER_SPACE && total == (mapped - (size - n)) % TWO64
    ensures total == mapped <==> size == n
  {
  }

  lemma {:induction false} OneChunkMapped(lists: seq<seq<Area>>, c: nat)
    requires c < |lists| && |lists[c]| == 1 && forall d :: 0 <= d < |lists| && d != c ==> lists[d] == []
    ensures SumLists(FilledLists(lists)) == lists[c][0].size
  {
    var empty := FilledLists(lists)[c := []];
    NothingUsed(empty);
    assert empty[c := FilledLists(lists)[c]] == FilledLists(lists);
    SumListsUpdate(empty, c, FilledLists(lists)[c]);
    assert FilledLists(lists)[c][1..] == [];
  }

  lemma InitialGap(initialSize: u64, chunkSize: u64, maxSize: u64, first: Option<u64>)
    ensures var s := Init(initialSize, chunkSize, maxSize, first);
            var n := InitialOf(initialSize, chunkSize, LimitOf(maxSize));
            s.total == (Mapped(s) - if first.None? then 0 else ChunkSize(n) - n) % TWO64
  {
    hide InitialOf, LimitOf, ChunkSize, ClassOf;
    var s := Init(initialSize, chunkSize, maxSize, first);
    if first.None? {
      NothingUsed(FilledLists(s.lists));
    } else {
      OneChunkMapped(s.lists, ClassOf(InitialOf(initialSize, chunkSize, LimitOf(maxSize))));
    }
  }
}
