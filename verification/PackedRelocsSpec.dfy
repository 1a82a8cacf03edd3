/**
  Packed relocations, on values: groups of offset deltas in LEB128, and what
  applying them does to the module's memory.
 */
module PackedRelocsSpec {
  import opened Words
  import opened Memory
  import opened LittleEndian
  import opened Leb128

  const ABS64: u64 := 257
  const GLOB_DAT: u64 := 1025
  const JUMP_SLOT: u64 := 1026

  /** Relocations of one type with one addend, each offset given by its distance from the one before. */
  datatype Group = Group(kind: u64, addend: int, deltas: seq<u64>)

  /** Where a module is meant to be and how large it is. */
  datatype Image = Image(bias: u64, size: u64)

  /** The types that look up no symbol all get the load bias added. */
  ghost predicate Plain(g: Group) {
    && g.kind != ABS64 && g.kind != GLOB_DAT && g.kind != JUMP_SLOT
    && -TWO63 <= g.addend < TWO63 && 0 < |g.deltas| < TWO64
  }

  // ---- the packed form

  ghost function PackDeltas(deltas: seq<u64>): (s: seq<byte>)
    ensures deltas != [] ==> s != []
  {
    if deltas == [] then [] else EncodeUnsigned(deltas[0]) + PackDeltas(deltas[1..])
  }

  ghost function PackGroup(g: Group): (s: seq<byte>)
    ensures s != []
  {
    EncodeUnsigned(|g.deltas|) + (EncodeUnsigned(g.kind) + (EncodeSigned(g.addend) + PackDeltas(g.deltas)))
  }

  ghost function PackGroups(groups: seq<Group>): (s: seq<byte>)
    ensures groups != [] ==> s != []
  {
    if groups == [] then [] else PackGroup(groups[0]) + PackGroups(groups[1..])
  }

  ghost function Pack(count: u64, size: u64, groups: seq<Group>): seq<byte> {
    EncodeUnsigned(count) + (EncodeUnsigned(size) + PackGroups(groups))
  }

  // ---- what it stands for

  datatype Reloc = Reloc(offset: u64, addend: int)

  function Step(at: u64, delta: u64): u64 {
    (at + delta) % TWO64
  }

  /** The prefix sums of the deltas. */
  ghost function Sites(deltas: seq<u64>, addend: int, at: u64): (r: seq<Reloc>)
    ensures |r| == |deltas|
    decreases |deltas|
  {
    if deltas == [] then []
    else [Reloc(Step(at, deltas[0]), addend)] + Sites(deltas[1..], addend, Step(at, deltas[0]))
  }

  ghost function EndOf(deltas: seq<u64>, at: u64): u64
    decreases |deltas|
  {
    if deltas == [] then at else EndOf(deltas[1..], Step(at, deltas[0]))
  }

  /** All relocations in order; offsets carry over from one group to the next. */
  ghost function Relocs(groups: seq<Group>, at: u64): seq<Reloc>
    decreases |groups|
  {
    if groups == [] then []
    else Sites(groups[0].deltas, groups[0].addend, at) + Relocs(groups[1..], EndOf(groups[0].deltas, at))
  }

  predicate InRange(m: Image, offset: u64) {
    !(offset < m.bias || offset >= (m.bias + m.size) % TWO64)
  }

  /** The offset lies in the image. */
  predicate Inside(m: Image, offset: u64) {
    0 <= offset - m.bias < m.size
  }

  function Target(m: Image, addend: int): u64 {
    (m.bias + addend) % TWO64
  }

  lemma InRangeIs(m: Image, offset: u64)
    ensures InRange(m, offset) ==> Inside(m, offset)
    ensures m.bias + m.size < TWO64 ==> (InRange(m, offset) <==> Inside(m, offset))
  {
  }

  /** The range test is membership in the image for every offset exactly when the image's end does not wrap. */
  lemma InRangeIffUnwrapped(m: Image)
    ensures (forall offset: u64 :: InRange(m, offset) <==> Inside(m, offset)) <==> m.bias + m.size < TWO64
  {
    forall offset: u64
      ensures InRange(m, offset) ==> Inside(m, offset)
      ensures m.bias + m.size < TWO64 ==> (InRange(m, offset) <==> Inside(m, offset))
    {
      InRangeIs(m, offset);
    }
    assert m.size > 0 ==> Inside(m, m.bias);
    assert m.bias + m.size >= TWO64 ==> !InRange(m, m.bias);
  }

  /** An eight-byte write may start at the last byte of the image. */
  ghost predicate Fits(m: Image, mem: seq<byte>) {
    m.size + 7 <= |mem|
  }

  ghost function ApplyOne(mem: seq<byte>, m: Image, r: Reloc): (n: seq<byte>)
    requires Fits(m, mem)
    ensures |n| == |mem|
  {
    if InRange(m, r.offset) then
      InRangeIs(m, r.offset);
      WriteAt(mem, r.offset - m.bias, Encode(Target(m, r.addend), 8))
    else mem
  }

  ghost function ApplyAll(mem: seq<byte>, m: Image, rs: seq<Reloc>): (n: seq<byte>)
    requires Fits(m, mem)
    ensures |n| == |mem|
    decreases |rs|
  {
    if rs == [] then mem else ApplyAll(ApplyOne(mem, m, rs[0]), m, rs[1..])
  }

  /** At most the first n. */
  ghost function Limited(rs: seq<Reloc>, n: nat): seq<Reloc> {
    if n < |rs| then rs[..n] else rs
  }

  // ---- exactly the words at the in-range offsets change

  ghost predicate Covers(m: Image, r: Reloc, k: int) {
    InRange(m, r.offset) && r.offset - m.bias <= k < r.offset - m.bias + 8
  }

  lemma {:induction false} OtherBytesStay(mem: seq<byte>, m: Image, rs: seq<Reloc>, k: nat)
    requires Fits(m, mem) && k < |mem| && forall i :: 0 <= i < |rs| ==> !Covers(m, rs[i], k)
    ensures ApplyAll(mem, m, rs)[k] == mem[k]
    decreases |rs|
  {
    if rs != [] {
      InRangeIs(m, rs[0].offset);
      var mem' := ApplyOne(mem, m, rs[0]);
      assert mem'[k] == mem[k] by { assert !Covers(m, rs[0], k); }
      OtherBytesStay(mem', m, rs[1..], k);
    }
  }

  lemma {:induction false} ApplySplits(mem: seq<byte>, m: Image, a: seq<Reloc>, b: seq<Reloc>)
    requires Fits(m, mem)
    ensures ApplyAll(mem, m, a + b) == ApplyAll(ApplyAll(mem, m, a), m, b)
    decreases |a|
  {
    if a == [] {
      assert a + b == b;
    } else {
      assert (a + b)[1..] == a[1..] + b;
      ApplySplits(ApplyOne(mem, m, a[0]), m, a[1..], b);
    }
  }

  /**
    The word at an in-range offset ends up as the load bias plus the addend of the
    last relocation there, if no later one meets it half-way.
   */
  lemma WordIsTarget(mem: seq<byte>, m: Image, rs: seq<Reloc>, i: nat)
    requires Fits(m, mem) && i < |rs| && InRange(m, rs[i].offset)
    requires forall j, k :: i < j < |rs| && Covers(m, rs[i], k) ==> !Covers(m, rs[j], k)
    ensures var at := rs[i].offset - m.bias;
            0 <= at && at + 8 <= |mem| && Decode(ApplyAll(mem, m, rs)[at..at + 8]) == Target(m, rs[i].addend)
  {
    InRangeIs(m, rs[i].offset);
    var at := rs[i].offset - m.bias;
    var before := ApplyAll(mem, m, rs[..i]);
    var written := ApplyOne(before, m, rs[i]);
    var rest := rs[i + 1..];
    assert rs == rs[..i] + rs[i..] && rs[i..][1..] == rest;
    ApplySplits(mem, m, rs[..i], rs[i..]);
    var word := Encode(Target(m, rs[i].addend), 8);
    OneWrites(before, m, rs[i]);
    assert ApplyAll(mem, m, rs) == ApplyAll(written, m, rest) && |ApplyAll(mem, m, rs)| == |written| == |mem|;
    hide Encode, Decode, ApplyOne, ApplyAll, InRange, Covers;
    forall k | at <= k < at + 8
      ensures ApplyAll(written, m, rest)[k] == written[k]
    {
      NoneCovers(m, rs, i, rest, k);
      OtherBytesStay(written, m, rest, k);
    }
    assert ApplyAll(written, m, rest)[at..at + 8] == word;
    Bounds();
    DecodeEncode(Target(m, rs[i].addend), 8);
  }

  lemma NoneCovers(m: Image, rs: seq<Reloc>, i: nat, rest: seq<Reloc>, k: int)
    requires i < |rs| && Covers(m, rs[i], k) && rest == rs[i + 1..]
    requires forall j, k :: i < j < |rs| && Covers(m, rs[i], k) ==> !Covers(m, rs[j], k)
    ensures forall j :: 0 <= j < |rest| ==> !Covers(m, rest[j], k)
  {
    forall j | 0 <= j < |rest|
      ensures !Covers(m, rest[j], k)
    {
      assert rest[j] == rs[i + 1 + j];
    }
  }

  lemma OneWrites(mem: seq<byte>, m: Image, r: Reloc)
    requires Fits(m, mem) && InRange(m, r.offset)
    ensures 0 <= r.offset - m.bias && r.offset - m.bias + 8 <= |mem|
    ensures ApplyOne(mem, m, r) == WriteAt(mem, r.offset - m.bias, Encode(Target(m, r.addend), 8))
  {
    InRangeIs(m, r.offset);
  }

  /** A write at an in-range offset stays in the image exactly when the image has eight bytes from there on. */
  lemma WriteStaysInsideIff(mem: seq<byte>, m: Image, r: Reloc)
    requires Fits(m, mem) && InRange(m, r.offset)
    ensures (forall k :: Covers(m, r, k) ==> k < m.size) <==> r.offset - m.bias + 8 <= m.size
  {
    assert Covers(m, r, r.offset - m.bias + 7);
  }
}
