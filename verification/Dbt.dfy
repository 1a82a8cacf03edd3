/** The block cache of the run-time translator, updated in place. */
module Dbt {
  import opened Words
  import opened Memory
  import opened Sequences
  import opened DbtSpec

  class BlockCache {
    const machine: Machine
    const guest: array<byte>
    const table: array<Slot>
    const code: array<byte>
    var count: nat
    var used: nat
    ghost var origins: seq<seq<byte>>

    ghost function St(): State
      reads this, guest, table, code
    {
      State(guest[..], table[..], count, used, code[..], origins)
    }

    ghost predicate Separate()
    {
      guest != code && table as object != guest && table as object != code
    }

    ghost predicate Valid()
      reads this, guest, table, code
    {
      Separate() && Bounded(machine.translator) && Coherent(St(), machine)
    }

    /** The code region is empty when it could not be mapped. */
    constructor (machine: Machine, guest: array<byte>, mapped: bool)
      requires Bounded(machine.translator)
      ensures Valid() && Started(St()) && this.machine == machine && this.guest == guest
      ensures fresh(table) && fresh(code) && code.Length == if mapped then CODE_SIZE else 0
    {
      this.machine, this.guest := machine, guest;
      table := new Slot[TABLE_SIZE](_ => EMPTY);
      code := new byte[if mapped then CODE_SIZE else 0](_ => 0);
      count, used := 0, 0;
      origins := seq(TABLE_SIZE, _ => []);
      new;
      StartedIsCoherent(St(), machine);
    }

    /** The first block at an address among those in use. */
    method FindSlot(pc: u64) returns (i: nat)
      requires Shaped(St())
      ensures i == Find(table[..], count, pc)
    {
      i := 0;
      while i < count && table[i].pc != pc
        invariant i <= count && forall k :: 0 <= k < i ==> table[k].pc != pc
      {
        i := i + 1;
      }
      FindIsFirst(table[..], count, pc, i);
    }

    /** Compares the guest code under a block with its copy, word by word. */
    method CheckModified(i: nat) returns (modified: bool)
      requires Shaped(St()) && i < count
      requires table[i].snapshot.Some? ==> |table[i].snapshot.value| % 4 == 0 && table[i].pc + |table[i].snapshot.value| <= guest.Length
      ensures modified == Modified(table[i], guest[..])
    {
      var slot := table[i];
      if slot.snapshot.None? || slot.entry.None? || |slot.snapshot.value| == 0 {
        return false;
      }
      var copy, pc := slot.snapshot.value, slot.pc;
      var k := 0;
      while k < |copy|
        invariant k <= |copy| && k % 4 == 0
        invariant guest[pc..pc + k] == copy[..k]
        decreases |copy| - k
      {
        if guest[pc + k..pc + k + 4] != copy[k..k + 4] {
          SubSlice(guest[..], pc, |copy|, k, 4);
          assert guest[..][pc + k..pc + k + 4] == guest[pc + k..pc + k + 4];
          return true;
        }
        assert guest[pc..pc + k + 4] == guest[pc..pc + k] + guest[pc + k..pc + k + 4];
        assert copy[..k + 4] == copy[..k] + copy[k..k + 4];
        k := k + 4;
      }
      assert guest[..][pc..pc + |copy|] == guest[pc..pc + k];
      return false;
    }

    /** Forgets the block at an address that has been cut to 32 bits. */
    method InvalidateBlock(pc: u32)
      requires Valid()
      modifies table
      ensures Valid() && St() == Invalidate(old(St()), pc)
    {
      InvalidateKeepsCoherent(St(), machine, pc);
      var i := FindSlot(pc);
      if i < count {
        table[i] := Vacated(table[i]);
      }
    }

    method FlushCache()
      requires Valid()
      modifies this, table
      ensures Valid() && St() == Flush(old(St()))
    {
      FlushKeepsCoherent(St(), machine);
      for i := 0 to count
        modifies table
        invariant forall k :: 0 <= k < i ==> table[k] == Vacated(old(table[k])).(hits := 0)
        invariant forall k :: i <= k < TABLE_SIZE ==> table[k] == old(table[k])
      {
        table[i] := Vacated(table[i]).(hits := 0);
      }
      count, used := 0, 0;
      assert St() == Flush(old(St()));
    }

    method LookupBlock(pc: u64) returns (hit: Option<nat>)
      requires Valid() && Readable(guest[..], pc, SNAPSHOT)
      modifies table
      ensures Valid() && (St(), hit) == Lookup(old(St()), pc)
    {
      hide Honest, Live, Disjoint, Find;
      LookupKeepsCoherent(St(), machine, pc);
      var i := FindSlot(pc);
      if i == count {
        return None;
      }
      var modified := CheckModified(i);
      if modified {
        InvalidateBlock(pc % TWO32);
        return None;
      }
      table[i] := table[i].(hits := table[i].hits + 1);
      return Some(i);
    }

    /** Puts a block in the first free slot, or in place of the least often hit one. */
    method InsertBlock(slot: Slot, ghost origin: seq<byte>) returns (idx: nat)
      requires Separate() && Shaped(St()) && (slot.snapshot.Some? ==> |slot.snapshot.value| == SNAPSHOT)
      modifies this`count, this`origins, table
      ensures idx == Victim(old(St())) && St() == Insert(old(St()), slot, origin)
    {
      idx := FindVictim();
      ghost var s := St();
      hide Least, Find;
      if count < TABLE_SIZE {
        count := count + 1;
      }
      table[idx] := slot;
      origins := origins[idx := origin];
      assert St() == Insert(s, slot, origin);
    }

    /** The next free slot, or the first of the least often hit when all are taken. */
    method FindVictim() returns (idx: nat)
      requires Shaped(St())
      ensures idx == Victim(St())
    {
      if count < TABLE_SIZE {
        return count;
      }
      idx := 0;
      for i := 1 to count
        invariant idx == Least(table[..], i)
      {
        if table[i].hits < table[idx].hits {
          idx := i;
        }
      }
    }

    /** The block for a guest address: from the cache, or translated now; `copyOk` if memory is found for the copy. */
    method TranslateBlock(pc: u64, copyOk: bool) returns (block: Option<Region>)
      requires Valid() && Readable(guest[..], pc, Span(machine.mode))
      modifies this, table, code
      ensures Valid() && (St(), block) == Translate(old(St()), machine, pc, copyOk)
    {
      hide Honest, Live, Disjoint, Insert, Lookup;
      TranslateKeepsCoherent(St(), machine, pc, copyOk);
      var hit := LookupBlock(pc);
      if hit.Some? {
        var slot := table[hit.value];
        return if slot.entry.Some? then Some(Region(slot.entry.value, slot.size)) else None;
      }
      if code.Length == 0 || used + MAX_BLOCK > CODE_SIZE {
        return None;
      }
      if !copyOk {
        return None;
      }
      var start := used;
      var bytes := guest[pc..pc + Span(machine.mode)];
      var out := machine.translator(machine.mode, pc, bytes);
      StoreBytes(code, start, Written(out));
      if out.Failed? {
        return None;
      }
      var slot := Slot(pc, Some(start), |out.code|, Some(bytes[..SNAPSHOT]), 0);
      var idx := InsertBlock(slot, bytes);
      used := start + Round16(|out.code|);
      return Some(Region(start, |out.code|));
    }
  }

  lemma FindIsFirst(slots: seq<Slot>, count: nat, pc: u64, i: nat)
    requires i <= count <= |slots| && forall k :: 0 <= k < i ==> slots[k].pc != pc
    requires i < count ==> slots[i].pc == pc
    ensures i == Find(slots, count, pc)
  {
  }
}
