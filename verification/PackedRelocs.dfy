/** Applying packed relocations to a loaded module: the packed section is read from the memory that is written. */
module PackedRelocs {
  import opened Words
  import opened Memory
  import opened LittleEndian
  import opened Leb128
  import opened PackedRelocsSpec

  ghost predicate Avoids(m: Image, rs: seq<Reloc>, from: nat, to: nat) {
    forall i :: 0 <= i < |rs| && InRange(m, rs[i].offset) ==>
      rs[i].offset - m.bias + 8 <= from || to <= rs[i].offset - m.bias
  }

  lemma AvoidsParts(m: Image, a: seq<Reloc>, b: seq<Reloc>, from: nat, to: nat)
    requires Avoids(m, a + b, from, to)
    ensures Avoids(m, a, from, to) && Avoids(m, b, from, to)
  {
    forall i | 0 <= i < |b| && InRange(m, b[i].offset)
      ensures b[i].offset - m.bias + 8 <= from || to <= b[i].offset - m.bias
    {
      assert (a + b)[|a| + i] == b[i];
    }
    assert forall i :: 0 <= i < |a| ==> (a + b)[i] == a[i];
  }

  class Module {
    const memory: array<byte>
    const image: Image

    constructor (memory: array<byte>, image: Image)
      ensures this.memory == memory && this.image == image
    {
      this.memory, this.image := memory, image;
    }

    method ReadUnsigned(p: nat, end: nat, ghost x: u64, ghost rest: seq<byte>) returns (value: u64, q: nat)
      requires p <= end <= memory.Length && memory[p..end] == EncodeUnsigned(x) + rest
      ensures value == x && p < q <= end && memory[q..end] == rest
    {
      ghost var after := rest + memory[end..];
      Follows(p, end, EncodeUnsigned(x), rest);
      UnsignedRoundTrip(x, after);
      value, q := DecodeUnsigned(memory, p);
      Splits(p, q, end, EncodeUnsigned(x), rest);
    }

    method ReadSigned(p: nat, end: nat, ghost x: int, ghost rest: seq<byte>) returns (value: int, q: nat)
      requires -TWO63 <= x < TWO63
      requires p <= end <= memory.Length && memory[p..end] == EncodeSigned(x) + rest
      ensures value == x && p < q <= end && memory[q..end] == rest
    {
      ghost var after := rest + memory[end..];
      Follows(p, end, EncodeSigned(x), rest);
      SignedRoundTrip(x, after);
      value, q := DecodeSigned(memory, p);
      Splits(p, q, end, EncodeSigned(x), rest);
    }

    lemma Follows(p: nat, end: nat, s: seq<byte>, rest: seq<byte>)
      requires p <= end <= memory.Length && memory[p..end] == s + rest
      ensures memory[p..] == s + (rest + memory[end..])
      ensures forall n :: 0 <= n <= memory.Length - p ==> memory[p..][..n] == memory[p..p + n]
    {
      assert memory[p..] == memory[p..end] + memory[end..];
    }

    lemma Splits(p: nat, q: nat, end: nat, s: seq<byte>, rest: seq<byte>)
      requires p <= end <= memory.Length && memory[p..end] == s + rest && q == p + |s| && s != []
      ensures p < q <= end && memory[q..end] == rest
    {
      assert memory[p..end][|s|..] == rest;
    }

    /** One relocation: the word at an in-range offset is overwritten. */
    method Relocate(offset: u64, addend: int)
      requires Fits(image, memory[..])
      modifies memory
      ensures memory[..] == ApplyOne(old(memory[..]), image, Reloc(offset, addend))
    {
      hide Encode, WriteAt, Target;
      if offset < image.bias || offset >= (image.bias + image.size) % TWO64 {
        return;
      }
      InRangeIs(image, offset);
      StoreBytes(memory, offset - image.bias, Encode(Target(image, addend), 8));
    }

    lemma SectionStays(mem: seq<byte>, r: Reloc, from: nat, to: nat)
      requires Fits(image, mem) && from <= to <= |mem| && Avoids(image, [r], from, to)
      ensures ApplyOne(mem, image, r)[from..to] == mem[from..to]
    {
      InRangeIs(image, r.offset);
      assert InRange(image, r.offset) ==> [r][0].offset - image.bias + 8 <= from || to <= [r][0].offset - image.bias;
    }

    /** Reads one offset delta and relocates there. */
    method ApplyDelta(q: nat, end: nat, at: u64, addend: int, ghost rest: seq<u64>,
        ghost tail: seq<byte>) returns (next: nat, offset: u64)
      requires Fits(image, memory[..]) && q <= end <= memory.Length && rest != [] && memory[q..end] == PackDeltas(rest) + tail
      requires Avoids(image, Sites(rest, addend, at), q, end)
      modifies memory
      ensures offset == Step(at, rest[0]) && q < next <= end && memory[next..end] == PackDeltas(rest[1..]) + tail
      ensures memory[..] == ApplyOne(old(memory[..]), image, Reloc(offset, addend))
      ensures Avoids(image, Sites(rest[1..], addend, offset), next, end)
    {
      hide EncodeUnsigned, ApplyOne;
      assert memory[q..end] == EncodeUnsigned(rest[0]) + (PackDeltas(rest[1..]) + tail);
      var delta;
      delta, next := ReadUnsigned(q, end, rest[0], PackDeltas(rest[1..]) + tail);
      offset := Step(at, delta);
      ghost var r := Reloc(offset, addend);
      ghost var before := memory[..];
      assert Sites(rest, addend, at) == [r] + Sites(rest[1..], addend, offset);
      AvoidsParts(image, [r], Sites(rest[1..], addend, offset), q, end);
      SectionStays(before, r, next, end);
      Relocate(offset, addend);
      assert memory[next..end] == memory[..][next..end] && before[next..end] == old(memory[next..end]);
    }

    /** The offsets of one group, up to the end of the group or the number still wanted. */
    method ApplyDeltas(p: nat, end: nat, count: u64, addend: int, at: u64, wanted: u64, ghost deltas: seq<u64>,
        ghost tail: seq<byte>)
        returns (q: nat, last: u64, done: nat)
      requires Fits(image, memory[..]) && p <= end <= memory.Length && memory[p..end] == PackDeltas(deltas) + tail
          && count == |deltas|
      requires Avoids(image, Sites(deltas, addend, at), p, end)
      modifies memory
      ensures memory[..] == ApplyAll(old(memory[..]), image, Limited(Sites(deltas, addend, at), wanted))
      ensures done == (if wanted < |deltas| then wanted else |deltas|) && p <= q <= end
      ensures done == |deltas| ==> last == EndOf(deltas, at) && memory[q..end] == tail
    {
      q, last, done := p, at, 0;
      ghost var rest := deltas;
      hide PackDeltas, ApplyOne, Avoids, ApplyAll, Limited, Sites;
      while done < count && q < end && done < wanted
        invariant p <= q <= end && done <= |deltas| && done <= wanted && |rest| == |deltas| - done
        invariant memory[q..end] == PackDeltas(rest) + tail
        invariant Avoids(image, Sites(rest, addend, last), q, end)
        invariant EndOf(rest, last) == EndOf(deltas, at)
        invariant Fits(image, memory[..])
        invariant ApplyAll(memory[..], image, Limited(Sites(rest, addend, last), wanted - done))
               == ApplyAll(old(memory[..]), image, Limited(Sites(deltas, addend, at), wanted))
        decreases count - done
      {
        OneSite(memory[..], rest, addend, last, wanted - done);
        q, last := ApplyDelta(q, end, last, addend, rest, tail);
        done, rest := done + 1, rest[1..];
      }
      NothingLeft(memory[..], rest, addend, last, wanted - done, q, end, tail);
    }

    lemma OneSite(mem: seq<byte>, rest: seq<u64>, addend: int, at: u64, n: nat)
      requires Fits(image, mem) && rest != [] && n > 0
      ensures var offset := Step(at, rest[0]);
              ApplyAll(mem, image, Limited(Sites(rest, addend, at), n))
              == ApplyAll(ApplyOne(mem, image, Reloc(offset, addend)), image, Limited(Sites(rest[1..], addend, offset), n - 1))
    {
      var offset := Step(at, rest[0]);
      var rs, later := Sites(rest, addend, at), Sites(rest[1..], addend, offset);
      assert rs == [Reloc(offset, addend)] + later;
      assert Limited(rs, n) == [Reloc(offset, addend)] + Limited(later, n - 1);
      assert Limited(rs, n)[1..] == Limited(later, n - 1);
      hide ApplyOne, Sites;
    }

    lemma NothingLeft(mem: seq<byte>, rest: seq<u64>, addend: int, at: u64, n: nat, q: nat, end: nat, tail: seq<byte>)
      requires Fits(image, mem) && q <= end <= |mem| && mem[q..end] == PackDeltas(rest) + tail
      requires rest == [] || n == 0 || q >= end
      ensures ApplyAll(mem, image, Limited(Sites(rest, addend, at), n)) == mem
      ensures q >= end ==> rest == []
      ensures rest == [] ==> mem[q..end] == tail && EndOf(rest, at) == at
    {
      if rest != [] {
        assert |PackDeltas(rest) + tail| > 0;
      }
      assert rest == [] ==> PackDeltas(rest) + tail == tail;
      assert Limited(Sites(rest, addend, at), n) == [];
    }

    /** The head of a group, unless the section ends in it. */
    method ReadGroup(p: nat, end: nat, ghost g: Group, ghost tail: seq<byte>) returns (ok: bool, count: u64,
        kind: u64, addend: int, q: nat)
      requires p <= end <= memory.Length && Plain(g) && memory[p..end] == PackGroup(g) + tail
      ensures ok && count == |g.deltas| && kind == g.kind && addend == g.addend && p < q <= end
      ensures memory[q..end] == PackDeltas(g.deltas) + tail
    {
      hide EncodeUnsigned, EncodeSigned;
      ok, kind, addend := false, 0, 0;
      GroupParts(g, tail);
      count, q := ReadUnsigned(p, end, |g.deltas|, AfterCount(g, tail));
      if count != 0 && q < end {
        kind, q := ReadUnsigned(q, end, g.kind, AfterKind(g, tail));
        if q < end {
          addend, q := ReadSigned(q, end, g.addend, PackDeltas(g.deltas) + tail);
          ok := q < end;
        }
      }
    }

    ghost function AfterKind(g: Group, tail: seq<byte>): (s: seq<byte>)
      ensures s != []
    {
      EncodeSigned(g.addend) + (PackDeltas(g.deltas) + tail)
    }

    ghost function AfterCount(g: Group, tail: seq<byte>): (s: seq<byte>)
      ensures s != []
    {
      EncodeUnsigned(g.kind) + AfterKind(g, tail)
    }

    lemma GroupParts(g: Group, tail: seq<byte>)
      requires Plain(g)
      ensures PackGroup(g) + tail == EncodeUnsigned(|g.deltas|) + AfterCount(g, tail)
      ensures PackDeltas(g.deltas) + tail != []
    {
      hide EncodeUnsigned, EncodeSigned, PackDeltas;
      var c, k, a, d := EncodeUnsigned(|g.deltas|), EncodeUnsigned(g.kind), EncodeSigned(g.addend), PackDeltas(g.deltas);
      assert (a + d) + tail == a + (d + tail);
      assert (k + (a + d)) + tail == k + ((a + d) + tail);
      assert (c + (k + (a + d))) + tail == c + ((k + (a + d)) + tail);
    }

    /** What is left to do. */
    ghost function Rest(mem: seq<byte>, groups: seq<Group>, at: u64, wanted: nat): seq<byte>
      requires Fits(image, mem)
    {
      ApplyAll(mem, image, Limited(Relocs(groups, at), wanted))
    }

    method ApplyGroup(p: nat, end: nat, at: u64, wanted: u64, ghost groups: seq<Group>) returns (q: nat, last: u64, done: nat)
      requires Fits(image, memory[..]) && p <= end <= memory.Length && groups != [] && Plain(groups[0])
      requires memory[p..end] == PackGroups(groups) && Avoids(image, Relocs(groups, at), p, end)
      modifies memory
      ensures Fits(image, memory[..])
      ensures memory[..] == ApplyAll(old(memory[..]), image, Limited(Sites(groups[0].deltas, groups[0].addend, at), wanted))
      ensures done == (if wanted < |groups[0].deltas| then wanted else |groups[0].deltas|) && p <= q <= end
      ensures done == |groups[0].deltas| ==>
                last == EndOf(groups[0].deltas, at) && memory[q..end] == PackGroups(groups[1..]) && Avoids(image, Relocs(groups[1..], last), q, end)
    {
      ghost var g, tail := groups[0], PackGroups(groups[1..]);
      AvoidsParts(image, Sites(g.deltas, g.addend, at), Relocs(groups[1..], EndOf(g.deltas, at)), p, end);
      hide PackGroup, PackGroups, PackDeltas, Sites, ApplyAll, Limited;
      var ok, count, kind, addend, start := ReadGroup(p, end, g, tail);
      q, last, done := ApplyDeltas(start, end, count, addend, at, wanted, g.deltas, tail);
    }

    /** A section with nothing left to do, or one more group to do. */
    lemma GroupIsDone(mem: seq<byte>, groups: seq<Group>, at: u64, wanted: nat)
      requires Fits(image, mem) && groups != []
      ensures var g := groups[0];
              var next := ApplyAll(mem, image, Limited(Sites(g.deltas, g.addend, at), wanted));
              && (wanted < |g.deltas| ==> Rest(mem, groups, at, wanted) == next)
              && (wanted >= |g.deltas| ==> Rest(mem, groups, at, wanted) == Rest(next, groups[1..], EndOf(g.deltas, at), wanted - |g.deltas|))
    {
      var g := groups[0];
      var here, later := Sites(g.deltas, g.addend, at), Relocs(groups[1..], EndOf(g.deltas, at));
      assert Relocs(groups, at) == here + later;
      if wanted < |here| {
        assert Limited(here + later, wanted) == here[..wanted];
      } else {
        assert Limited(here + later, wanted) == here + Limited(later, wanted - |here|);
        ApplySplits(mem, image, here, Limited(later, wanted - |here|));
      }
    }

    lemma NoGroupLeft(mem: seq<byte>, groups: seq<Group>, at: u64, wanted: nat)
      requires Fits(image, mem) && (wanted == 0 || groups == [])
      ensures Rest(mem, groups, at, wanted) == mem
    {
      assert Limited(Relocs(groups, at), wanted) == [];
    }

    /**
      Applies a packed section that is not itself relocated: the first `count`
      relocations are performed, and nothing else changes.
     */
    method ApplyPacked(rel: nat, length: nat, ghost count: u64, ghost size: u64, ghost groups: seq<Group>)
      requires Fits(image, memory[..]) && rel + length <= memory.Length
      requires memory[rel..rel + length] == Pack(count, size, groups) && forall i :: 0 <= i < |groups| ==> Plain(groups[i])
      requires Avoids(image, Relocs(groups, 0), rel, rel + length)
      modifies memory
      ensures memory[..] == ApplyAll(old(memory[..]), image, Limited(Relocs(groups, 0), count))
    {
      PackIsLong(count, size, groups);
      ghost var all := Rest(memory[..], groups, 0, count);
      hide PackGroups, EncodeUnsigned, Relocs, ApplyAll, Limited, Plain;
      var end := rel + length;
      if rel + 2 <= end {
        var wanted, p := ReadUnsigned(rel, end, count, EncodeUnsigned(size) + PackGroups(groups));
        var relocSize;
        relocSize, p := ReadUnsigned(p, end, size, PackGroups(groups));
        if wanted != 0 && p < end {
          ApplyGroups(p, end, wanted, groups, all);
        } else {
          NoGroupLeft(memory[..], groups, 0, wanted);
          AtTheEnd(memory[p..end], groups);
        }
      }
    }

    lemma PackIsLong(count: u64, size: u64, groups: seq<Group>)
      ensures |Pack(count, size, groups)| >= 2
    {
      hide EncodeUnsigned, PackGroups;
      assert |EncodeUnsigned(count)| > 0 && |EncodeUnsigned(size)| > 0;
    }

    /** The groups are still to be read from p on, and applying the next `left` relocations gives `all`. */
    ghost predicate Pending(p: nat, end: nat, groups: seq<Group>, at: u64, left: nat, all: seq<byte>)
      reads memory
    {
      && Fits(image, memory[..]) && p <= end <= memory.Length
      && memory[p..end] == PackGroups(groups) && Avoids(image, Relocs(groups, at), p, end)
      && (forall i :: 0 <= i < |groups| ==> Plain(groups[i]))
      && Rest(memory[..], groups, at, left) == all
    }

    /** The work that is left, if any relocations are. */
    ghost predicate Left(p: nat, end: nat, groups: seq<Group>, at: u64, left: nat, all: seq<byte>)
      reads memory
    {
      if left > 0 then Pending(p, end, groups, at, left, all) else memory[..] == all
    }

    /** One group of several, as a step of the work that is left. */
    method NextGroup(p: nat, end: nat, at: u64, wanted: u64, ghost groups: seq<Group>, ghost all: seq<byte>)
        returns (q: nat, last: u64, done: nat)
      requires Left(p, end, groups, at, wanted, all) && p < end && wanted > 0
      modifies memory
      ensures groups != [] && done <= wanted && Left(q, end, groups[1..], last, wanted - done, all)
    {
      hide PackGroups, Relocs, ApplyAll, Limited, Plain, Avoids, Rest, Sites, EndOf;
      ghost var before := memory[..];
      AtTheEnd(memory[p..end], groups);
      GroupIsDone(before, groups, at, wanted);
      q, last, done := ApplyGroup(p, end, at, wanted, groups);
      NoGroupLeft(memory[..], groups[1..], last, 0);
    }

    method ApplyGroups(start: nat, end: nat, wanted: u64, ghost groups: seq<Group>, ghost all: seq<byte>)
      requires Left(start, end, groups, 0, wanted, all)
      modifies memory
      ensures memory[..] == all
    {
      hide *;
      var p: nat, processed, current: u64 := start, 0, 0;
      ghost var rest := groups;
      while processed < wanted && p < end
        invariant 0 <= processed <= wanted
        invariant Left(p, end, rest, current, wanted - processed, all)
        decreases |rest|
      {
        var done;
        p, current, done := NextGroup(p, end, current, wanted - processed, rest, all);
        processed, rest := processed + done, rest[1..];
      }
      WorkIsDone(p, end, rest, current, wanted - processed, all);
    }

    lemma WorkIsDone(p: nat, end: nat, groups: seq<Group>, at: u64, left: nat, all: seq<byte>)
      requires Left(p, end, groups, at, left, all) && (p >= end || left == 0)
      ensures memory[..] == all
    {
      hide PackGroups, Relocs, ApplyAll, Limited, Plain, Avoids, Rest;
      if left > 0 {
        AtTheEnd(memory[p..end], groups);
        NoGroupLeft(memory[..], groups, at, left);
      }
    }

    /** A section is used up when no group is left. */
    lemma AtTheEnd(section: seq<byte>, groups: seq<Group>)
      requires section == PackGroups(groups)
      ensures section == [] <==> groups == []
    {
    }
  }
}
