/**
  The block cache of the run-time translator, on values: a fixed table of
  blocks, a code region that is handed out from the bottom up, and a copy of the
  guest bytes each block was translated from.
 */
module DbtSpec {
  import opened Words
  import opened Memory

  const TABLE_SIZE: nat := 1024
  const CODE_SIZE: nat := 64 * 1024 * 1024
  const MAX_BLOCK: nat := 4096
  const SNAPSHOT: nat := 256

  datatype Mode = Arm32 | Arm64 | Thumb

  /** What the instruction translator does with a stretch of guest code. */
  datatype Translation = Translated(code: seq<byte>) | Failed(scribble: seq<byte>)

  type Translator = (Mode, u64, seq<byte>) -> Translation

  function Written(t: Translation): seq<byte> {
    if t.Translated? then t.code else t.scribble
  }

  ghost predicate Bounded(translator: Translator) {
    forall m, pc, bytes :: |Written(translator(m, pc, bytes))| <= MAX_BLOCK
  }

  datatype Slot = Slot(pc: u64, entry: Option<nat>, size: nat, snapshot: Option<seq<byte>>, hits: nat)

  const EMPTY: Slot := Slot(0, None, 0, None, 0)

  datatype Machine = Machine(mode: Mode, translator: Translator)

  /** `origins` records, for every slot, the guest bytes its block was translated from. */
  datatype State = State(
    guest: seq<byte>,
    slots: seq<Slot>,
    count: nat,
    used: nat,
    code: seq<byte>,
    ghost origins: seq<seq<byte>>)

  /** How many guest bytes are translated in one go. */
  function Span(mode: Mode): (n: nat)
    ensures n >= SNAPSHOT
  {
    if mode == Thumb then 2 * SNAPSHOT else SNAPSHOT
  }

  function Round16(n: nat): (r: nat)
    ensures n <= r < n + 16 && r % 16 == 0
  {
    (n + 15) / 16 * 16
  }

  ghost predicate Shaped(s: State) {
    && |s.slots| == |s.origins| == TABLE_SIZE && s.count <= TABLE_SIZE
    && s.used <= CODE_SIZE && (|s.code| == CODE_SIZE || |s.code| == 0)
    && (forall i :: 0 <= i < TABLE_SIZE ==> s.slots[i].snapshot.Some? ==> |s.slots[i].snapshot.value| == SNAPSHOT)
  }

  // ---- the operations

  ghost function Find(slots: seq<Slot>, count: nat, pc: u64): (i: nat)
    requires count <= |slots|
    ensures i <= count && (i < count ==> slots[i].pc == pc)
    ensures forall k :: 0 <= k < i ==> slots[k].pc != pc
    decreases count
  {
    if count == 0 then 0
    else
      var i := Find(slots, count - 1, pc);
      if i < count - 1 then i
      else if slots[count - 1].pc == pc then count - 1 else count
  }

  ghost predicate Readable(guest: seq<byte>, pc: u64, n: nat) {
    pc + n <= |guest|
  }

  /** The guest bytes under a block are no longer those it was translated from. */
  ghost predicate Modified(slot: Slot, guest: seq<byte>) {
    && slot.snapshot.Some? && slot.entry.Some? && slot.snapshot.value != []
    && !(Readable(guest, slot.pc, |slot.snapshot.value|) &&
         guest[slot.pc..slot.pc + |slot.snapshot.value|] == slot.snapshot.value)
  }

  function Vacated(slot: Slot): Slot {
    slot.(pc := 0, entry := None, snapshot := None)
  }

  /** The address is cut to 32 bits on the way in. */
  ghost function Invalidate(s: State, pc: u64): State
    requires Shaped(s)
  {
    var i := Find(s.slots, s.count, pc % TWO32);
    if i < s.count then s.(slots := s.slots[i := Vacated(s.slots[i])]) else s
  }

  ghost function Flush(s: State): State
    requires Shaped(s)
  {
    s.(slots := seq(TABLE_SIZE, i requires 0 <= i < TABLE_SIZE =>
                     if i < s.count then Vacated(s.slots[i]).(hits := 0) else s.slots[i]),
       count := 0, used := 0)
  }

  ghost function Lookup(s: State, pc: u64): (r: (State, Option<nat>))
    requires Shaped(s)
    ensures Shaped(r.0) && (r.1.Some? ==> r.1.value < s.count)
  {
    var i := Find(s.slots, s.count, pc);
    if i == s.count then (s, None)
    else if Modified(s.slots[i], s.guest) then (Invalidate(s, pc), None)
    else (s.(slots := s.slots[i := s.slots[i].(hits := s.slots[i].hits + 1)]), Some(i))
  }

  /** The first of the least often hit among the first n slots. */
  ghost function Least(slots: seq<Slot>, n: nat): (l: nat)
    requires 0 < n <= |slots|
    ensures l < n
    ensures forall k :: 0 <= k < n ==> slots[l].hits <= slots[k].hits
    ensures forall k :: 0 <= k < l ==> slots[l].hits < slots[k].hits
    decreases n
  {
    if n == 1 then 0
    else
      var l := Least(slots, n - 1);
      if slots[n - 1].hits < slots[l].hits then n - 1 else l
  }

  ghost function Victim(s: State): nat
    requires Shaped(s)
  {
    if s.count >= TABLE_SIZE then Least(s.slots, TABLE_SIZE) else s.count
  }

  ghost function Insert(s: State, slot: Slot, origin: seq<byte>): (r: State)
    requires Shaped(s)
    requires slot.snapshot.Some? ==> |slot.snapshot.value| == SNAPSHOT
    ensures Shaped(r)
  {
    var i := Victim(s);
    s.(slots := s.slots[i := slot], origins := s.origins[i := origin],
       count := if s.count >= TABLE_SIZE then s.count else s.count + 1)
  }

  /** Where a block's code is: an offset into the code region and a size. */
  datatype Region = Region(start: nat, size: nat)

  ghost function Translate(s: State, m: Machine, pc: u64, copyOk: bool): (r: (State, Option<Region>))
    requires Shaped(s) && Bounded(m.translator) && Readable(s.guest, pc, Span(m.mode))
    ensures Shaped(r.0)
  {
    var (t, hit) := Lookup(s, pc);
    if hit.Some? then
      var slot := t.slots[hit.value];
      (t, if slot.entry.Some? then Some(Region(slot.entry.value, slot.size)) else None)
    else if |t.code| == 0 || t.used + MAX_BLOCK > CODE_SIZE || !copyOk then (t, None)
    else
      var bytes := s.guest[pc..pc + Span(m.mode)];
      var out := m.translator(m.mode, pc, bytes);
      var u := t.(code := WriteAt(t.code, t.used, Written(out)));
      if out.Failed? then (u, None)
      else
        var slot := Slot(pc, Some(t.used), |out.code|, Some(bytes[..SNAPSHOT]), 0);
        (Insert(u, slot, bytes).(used := t.used + Round16(|out.code|)), Some(Region(t.used, |out.code|)))
  }

  // ---- coherence

  ghost predicate Inside(s: State, slot: Slot) {
    slot.entry.Some? && slot.entry.value + slot.size <= s.used <= |s.code|
  }

  /** A live slot holds the translation of its origin, whose first bytes are its snapshot. */
  ghost predicate Honest(s: State, m: Machine, i: int)
    requires Shaped(s) && 0 <= i < TABLE_SIZE
  {
    var slot := s.slots[i];
    && Inside(s, slot)
    && |s.origins[i]| == Span(m.mode) && slot.snapshot == Some(s.origins[i][..SNAPSHOT])
    && m.translator(m.mode, slot.pc, s.origins[i])
       == Translated(s.code[slot.entry.value..slot.entry.value + slot.size])
  }

  ghost predicate Live(s: State, i: int) {
    0 <= i < s.count && i < |s.slots| && s.slots[i].entry.Some?
  }

  ghost predicate Disjoint(a: Slot, b: Slot)
    requires a.entry.Some? && b.entry.Some?
  {
    a.entry.value + a.size <= b.entry.value || b.entry.value + b.size <= a.entry.value
  }

  ghost predicate Coherent(s: State, m: Machine) {
    && Shaped(s)
    && (forall i :: Live(s, i) ==> Honest(s, m, i))
    && (forall i, j :: Live(s, i) && Live(s, j) && i != j ==> Disjoint(s.slots[i], s.slots[j]))
    && VacatedAtZero(s)
  }

  /** A slot in use without a block carries address 0. */
  ghost predicate VacatedAtZero(s: State)
    requires Shaped(s)
  {
    forall i :: 0 <= i < s.count && s.slots[i].entry.None? ==> s.slots[i].pc == 0
  }

  ghost predicate Started(s: State) {
    && Shaped(s) && s.count == 0 && s.used == 0
  }

  lemma StartedIsCoherent(s: State, m: Machine)
    requires Started(s)
    ensures Coherent(s, m)
  {
  }

  lemma InvalidateKeepsCoherent(s: State, m: Machine, pc: u64)
    requires Coherent(s, m)
    ensures Coherent(Invalidate(s, pc), m)
  {
    var t := Invalidate(s, pc);
    assert forall i :: Live(t, i) ==> Live(s, i) && t.slots[i] == s.slots[i];
    forall i | Live(t, i)
      ensures Honest(t, m, i)
    {
      assert Honest(s, m, i);
    }
  }

  lemma FlushKeepsCoherent(s: State, m: Machine)
    requires Coherent(s, m)
    ensures Coherent(Flush(s), m)
  {
  }

  /** A guest store changes no snapshot and no translated code. */
  ghost function Store(s: State, addr: nat, b: byte): State {
    if addr < |s.guest| then s.(guest := s.guest[addr := b]) else s
  }

  lemma StoreKeepsCoherent(s: State, m: Machine, addr: nat, b: byte)
    requires Coherent(s, m)
    ensures Coherent(Store(s, addr, b), m)
  {
    var t := Store(s, addr, b);
    assert forall i :: Live(t, i) ==> Live(s, i) && t.slots[i] == s.slots[i];
    forall i | Live(t, i)
      ensures Honest(t, m, i)
    {
      assert Honest(s, m, i);
    }
  }

  lemma LookupKeepsCoherent(s: State, m: Machine, pc: u64)
    requires Coherent(s, m)
    ensures Coherent(Lookup(s, pc).0, m)
    ensures var (t, hit) := Lookup(s, pc);
            t.code == s.code && t.used == s.used && t.guest == s.guest && t.origins == s.origins
    ensures var (t, hit) := Lookup(s, pc);
            hit.Some? && s.slots[hit.value].entry.Some? ==>
              Live(s, hit.value) && s.slots[hit.value].pc == pc && t.slots[hit.value].(hits := 0) == s.slots[hit.value].(hits := 0) &&
              Readable(s.guest, pc, SNAPSHOT) && s.origins[hit.value][..SNAPSHOT] == s.guest[pc..pc + SNAPSHOT]
  {
    var (t, hit) := Lookup(s, pc);
    if hit.Some? {
      var i := hit.value;
      assert forall k :: Live(t, k) ==> Live(s, k) && t.slots[k].(hits := 0) == s.slots[k].(hits := 0);
      forall k | Live(t, k)
        ensures Honest(t, m, k)
      {
        assert Honest(s, m, k);
      }
      if s.slots[i].entry.Some? {
        assert Live(s, i) && Honest(s, m, i);
      }
    } else {
      InvalidateKeepsCoherent(s, m, pc);
    }
  }

  lemma InsertKeepsCoherent(s: State, m: Machine, slot: Slot, origin: seq<byte>, used: nat)
    requires Coherent(s, m)
    requires slot.entry == Some(s.used) && s.used + slot.size <= used <= CODE_SIZE == |s.code|
    requires |origin| == Span(m.mode) && slot.snapshot == Some(origin[..SNAPSHOT])
    requires m.translator(m.mode, slot.pc, origin) == Translated(s.code[s.used..s.used + slot.size])
    ensures Coherent(Insert(s, slot, origin).(used := used), m)
  {
    var t := Insert(s, slot, origin).(used := used);
    var v := Victim(s);
    assert forall k :: Live(t, k) && k != v ==> Live(s, k) && t.slots[k] == s.slots[k] && t.origins[k] == s.origins[k];
    forall k | Live(t, k)
      ensures Honest(t, m, k)
    {
      assert k != v ==> Honest(s, m, k);
    }
    forall i, j | Live(t, i) && Live(t, j) && i != j
      ensures Disjoint(t.slots[i], t.slots[j])
    {
      assert i != v ==> Honest(s, m, i);
      assert j != v ==> Honest(s, m, j);
    }
  }

  /** Bytes at or above `used` belong to no cached block. */
  lemma WriteAboveKeepsCoherent(s: State, m: Machine, bytes: seq<byte>)
    requires Coherent(s, m) && s.used + |bytes| <= |s.code|
    ensures Coherent(s.(code := WriteAt(s.code, s.used, bytes)), m)
  {
    hide Disjoint, Span;
    var t := s.(code := WriteAt(s.code, s.used, bytes));
    assert forall k :: Live(t, k) ==> Live(s, k) && t.slots[k] == s.slots[k];
    forall k | Live(t, k)
      ensures Honest(t, m, k)
    {
      assert Honest(s, m, k);
      var slot := s.slots[k];
      assert t.code[slot.entry.value..slot.entry.value + slot.size] == s.code[slot.entry.value..slot.entry.value + slot.size];
    }
  }

  /** Nothing that was handed out before is overwritten by a later translation. */
  lemma TranslateKeepsOldCode(s: State, m: Machine, pc: u64, copyOk: bool)
    requires Coherent(s, m) && Bounded(m.translator) && Readable(s.guest, pc, Span(m.mode))
    ensures var t := Translate(s, m, pc, copyOk).0;
            s.used <= t.used && |t.code| == |s.code| && (s.used <= |s.code| ==> t.code[..s.used] == s.code[..s.used])
  {
    LookupKeepsCoherent(s, m, pc);
  }

  /** The cache stays coherent, whatever block is asked for. */
  lemma TranslateKeepsCoherent(s: State, m: Machine, pc: u64, copyOk: bool)
    requires Coherent(s, m) && Bounded(m.translator) && Readable(s.guest, pc, Span(m.mode))
    ensures Coherent(Translate(s, m, pc, copyOk).0, m)
  {
    hide Lookup, Insert, Honest, Live, Disjoint;
    LookupKeepsCoherent(s, m, pc);
    var (t, hit) := Lookup(s, pc);
    if hit.None? && |t.code| != 0 && t.used + MAX_BLOCK <= CODE_SIZE && copyOk {
      var bytes := s.guest[pc..pc + Span(m.mode)];
      var out := m.translator(m.mode, pc, bytes);
      WriteAboveKeepsCoherent(t, m, Written(out));
      var u := t.(code := WriteAt(t.code, t.used, Written(out)));
      if out.Translated? {
        assert u.code[t.used..t.used + |out.code|] == out.code;
        InsertKeepsCoherent(u, m, Slot(pc, Some(t.used), |out.code|, Some(bytes[..SNAPSHOT]), 0), bytes,
                            t.used + Round16(|out.code|));
      }
    }
  }

  ghost predicate IsCode(s: State, m: Machine, pc: u64, r: Region, bytes: seq<byte>) {
    r.start + r.size <= |s.code| && m.translator(m.mode, pc, bytes) == Translated(s.code[r.start..r.start + r.size])
  }

  /**
    The block that is returned is the translation of bytes
    whose first 256 are the guest bytes at that address now.
   */
  lemma TranslateAnswers(s: State, m: Machine, pc: u64, copyOk: bool)
    requires Coherent(s, m) && Bounded(m.translator) && Readable(s.guest, pc, Span(m.mode))
    ensures var (t, r) := Translate(s, m, pc, copyOk);
            r.Some? ==> exists bytes :: |bytes| == Span(m.mode) && bytes[..SNAPSHOT] == s.guest[pc..pc + SNAPSHOT] && IsCode(t, m, pc, r.value, bytes)
  {
    LookupKeepsCoherent(s, m, pc);
    var (t, hit) := Lookup(s, pc);
    var (u, r) := Translate(s, m, pc, copyOk);
    if hit.Some? && r.Some? {
      assert Honest(s, m, hit.value);
      assert IsCode(u, m, pc, r.value, s.origins[hit.value]);
    } else if r.Some? {
      var bytes := s.guest[pc..pc + Span(m.mode)];
      assert bytes[..SNAPSHOT] == s.guest[pc..pc + SNAPSHOT];
      assert IsCode(u, m, pc, r.value, bytes);
    }
  }

  /** In the ARM modes the snapshot covers what is translated, so the block is the translation of the code as it is now. */
  lemma ArmBlockIsCurrent(s: State, m: Machine, pc: u64, copyOk: bool)
    requires Coherent(s, m) && Bounded(m.translator) && Readable(s.guest, pc, Span(m.mode)) && m.mode != Thumb
    ensures var (t, r) := Translate(s, m, pc, copyOk);
            r.Some? ==> IsCode(t, m, pc, r.value, s.guest[pc..pc + SNAPSHOT])
  {
    TranslateAnswers(s, m, pc, copyOk);
    var (t, r) := Translate(s, m, pc, copyOk);
    if r.Some? {
      var bytes :| |bytes| == Span(m.mode) && bytes[..SNAPSHOT] == s.guest[pc..pc + SNAPSHOT] && IsCode(t, m, pc, r.value, bytes);
      assert bytes == bytes[..SNAPSHOT];
    }
  }

  /**
    For every address, nothing is returned exactly when the first slot in use with the
    address has been vacated, or when there is no block to be found and the code region has
    less than 4096 bytes left, there is no memory for the copy or the translator fails. In a coherent cache the
    former can only happen for address 0, which is the address of vacated slots.
   */
  lemma NoBlockIff(s: State, m: Machine, pc: u64, copyOk: bool)
    requires Shaped(s) && Bounded(m.translator) && Readable(s.guest, pc, Span(m.mode))
    ensures var h := Lookup(s, pc).1;
            Translate(s, m, pc, copyOk).1.None? <==>
            || (h.Some? && s.slots[h.value].entry.None?)
            || (h.None? && (|s.code| == 0 || s.used + MAX_BLOCK > CODE_SIZE || !copyOk || m.translator(m.mode, pc, s.guest[pc..pc + Span(m.mode)]).Failed?))
    ensures Coherent(s, m) && Lookup(s, pc).1.Some? && s.slots[Lookup(s, pc).1.value].entry.None? ==> pc == 0
  {
    hide Coherent, Modified, Insert;
    if Coherent(s, m) && pc != 0 {
      FoundHasBlock(s, m, pc);
    }
  }

  lemma FoundHasBlock(s: State, m: Machine, pc: u64)
    requires Coherent(s, m) && pc != 0
    ensures var h := Lookup(s, pc).1; h.Some? ==> s.slots[h.value].entry.Some?
  {
    hide Modified, Disjoint, Live, Honest;
  }

  // ---- runs

  datatype Op = DoTranslate(pc: u64, copyOk: bool) | DoStore(addr: nat, b: byte) | DoInvalidate(pc: u64) | DoFlush

  ghost predicate Allowed(s: State, m: Machine, op: Op) {
    op.DoTranslate? ==> Readable(s.guest, op.pc, Span(m.mode))
  }

  ghost function Play(s: State, m: Machine, op: Op): (r: State)
    requires Shaped(s) && Bounded(m.translator) && Allowed(s, m, op)
    ensures Shaped(r)
  {
    match op
    case DoTranslate(pc, copyOk) => Translate(s, m, pc, copyOk).0
    case DoStore(addr, b) => Store(s, addr, b)
    case DoInvalidate(pc) => Invalidate(s, pc)
    case DoFlush => Flush(s)
  }

  lemma PlayKeepsCoherent(s: State, m: Machine, op: Op)
    requires Coherent(s, m) && Bounded(m.translator) && Allowed(s, m, op)
    ensures Coherent(Play(s, m, op), m)
  {
    match op
    case DoTranslate(pc, copyOk) => TranslateKeepsCoherent(s, m, pc, copyOk);
    case DoStore(addr, b) => StoreKeepsCoherent(s, m, addr, b);
    case DoInvalidate(pc) => InvalidateKeepsCoherent(s, m, pc);
    case DoFlush => FlushKeepsCoherent(s, m);
  }

  /** Every translation asked for along the run returns the translation of the code as it is then, or nothing. */
  ghost predicate AllCurrent(s: State, m: Machine, ops: seq<Op>)
    requires Bounded(m.translator)
    decreases |ops|
  {
    ops == [] ||
    (Shaped(s) && Allowed(s, m, ops[0]) &&
     (ops[0].DoTranslate? ==>
        var (t, r) := Translate(s, m, ops[0].pc, ops[0].copyOk);
        r.Some? ==> IsCode(t, m, ops[0].pc, r.value, s.guest[ops[0].pc..ops[0].pc + Span(m.mode)])) &&
     AllCurrent(Play(s, m, ops[0]), m, ops[1..]))
  }

  ghost predicate Possible(s: State, m: Machine, ops: seq<Op>)
    requires Bounded(m.translator)
    decreases |ops|
  {
    ops == [] || (Shaped(s) && Allowed(s, m, ops[0]) && Possible(Play(s, m, ops[0]), m, ops[1..]))
  }

  /** Over any run of translations, guest stores, invalidations and flushes. */
  lemma {:induction false} RunsStayCurrent(s: State, m: Machine, ops: seq<Op>)
    requires Coherent(s, m) && Bounded(m.translator) && m.mode != Thumb && Possible(s, m, ops)
    ensures AllCurrent(s, m, ops)
    decreases |ops|
  {
    hide Translate, Play, Coherent, IsCode;
    if ops != [] {
      PlayKeepsCoherent(s, m, ops[0]);
      if ops[0].DoTranslate? {
        ArmBlockIsCurrent(s, m, ops[0].pc, ops[0].copyOk);
        assert Span(m.mode) == SNAPSHOT;
      }
      RunsStayCurrent(Play(s, m, ops[0]), m, ops[1..]);
    }
  }

  // ---- Thumb mode, where the second half of a block is not compared

  /** The guest bytes that are translated but not compared on a hit. */
  function Unwatched(mode: Mode, bytes: seq<byte>): seq<byte>
    requires |bytes| == Span(mode)
  {
    bytes[SNAPSHOT..]
  }

  /**
    A hit is current if the bytes behind the first 256 are those the block was made from,
    and only then when the translator tells the two stretches of code apart.
   */
  lemma HitIsCurrentIff(s: State, m: Machine, pc: u64, copyOk: bool)
    requires Coherent(s, m) && Bounded(m.translator) && Readable(s.guest, pc, Span(m.mode))
    requires Lookup(s, pc).1.Some? && Translate(s, m, pc, copyOk).1.Some?
    ensures var i := Lookup(s, pc).1.value;
            var (t, r) := Translate(s, m, pc, copyOk);
            var now := s.guest[pc..pc + Span(m.mode)];
            && |s.origins[i]| == Span(m.mode)
            && (Unwatched(m.mode, now) == Unwatched(m.mode, s.origins[i]) ==> IsCode(t, m, pc, r.value, now))
            && ((now != s.origins[i] ==> m.translator(m.mode, pc, now) != m.translator(m.mode, pc, s.origins[i])) ==>
                (IsCode(t, m, pc, r.value, now) <==> Unwatched(m.mode, now) == Unwatched(m.mode, s.origins[i])))
  {
    LookupKeepsCoherent(s, m, pc);
    var i := Lookup(s, pc).1.value;
    var now := s.guest[pc..pc + Span(m.mode)];
    assert Honest(s, m, i);
    assert now[..SNAPSHOT] == s.guest[pc..pc + SNAPSHOT];
    assert now == now[..SNAPSHOT] + now[SNAPSHOT..];
    assert s.origins[i] == s.origins[i][..SNAPSHOT] + s.origins[i][SNAPSHOT..];
  }

  ghost predicate InUnwatched(mode: Mode, slot: Slot, addr: nat) {
    slot.pc + SNAPSHOT <= addr < slot.pc + Span(mode)
  }

  /** The slots whose unwatched bytes were stored to since they were filled. */
  ghost function Touched(s: State, m: Machine, touched: set<nat>, op: Op): set<nat>
    requires Shaped(s) && Bounded(m.translator) && Allowed(s, m, op)
  {
    match op
    case DoTranslate(pc, copyOk) =>
      if Lookup(s, pc).1.None? && Translate(s, m, pc, copyOk).1.Some? then touched - {Victim(Lookup(s, pc).0)} else touched
    case DoStore(addr, b) => touched + set i: nat | i < TABLE_SIZE && Live(s, i) && InUnwatched(m.mode, s.slots[i], addr)
    case DoInvalidate(_) => touched
    case DoFlush => touched
  }

  ghost predicate UnwatchedIsNow(s: State, m: Machine, i: int)
    requires Shaped(s) && 0 <= i < TABLE_SIZE
  {
    && Readable(s.guest, s.slots[i].pc, Span(m.mode)) && |s.origins[i]| == Span(m.mode)
    && Unwatched(m.mode, s.origins[i]) == s.guest[s.slots[i].pc + SNAPSHOT..s.slots[i].pc + Span(m.mode)]
  }

  /** The unwatched bytes of every block that was not touched are as they were translated. */
  ghost predicate Kept(s: State, m: Machine, touched: set<nat>)
    requires Shaped(s)
  {
    forall i :: Live(s, i) && i !in touched ==> UnwatchedIsNow(s, m, i)
  }

  lemma InsertKeepsKept(s: State, m: Machine, touched: set<nat>, slot: Slot, origin: seq<byte>, used: nat)
    requires Shaped(s) && Kept(s, m, touched) && used <= CODE_SIZE && Readable(s.guest, slot.pc, Span(m.mode))
    requires origin == s.guest[slot.pc..slot.pc + Span(m.mode)] && slot.snapshot == Some(origin[..SNAPSHOT])
    ensures Kept(Insert(s, slot, origin).(used := used), m, touched - {Victim(s)})
  {
    var t := Insert(s, slot, origin).(used := used);
    var v := Victim(s);
    forall i | Live(t, i) && i !in touched - {v}
      ensures UnwatchedIsNow(t, m, i)
    {
      assert i != v ==> Live(s, i) && UnwatchedIsNow(s, m, i);
    }
  }

  lemma CodeIsNotKept(s: State, m: Machine, touched: set<nat>, code: seq<byte>)
    requires Shaped(s) && Kept(s, m, touched) && |code| == |s.code|
    ensures Kept(s.(code := code), m, touched)
  {
    forall i | Live(s.(code := code), i) && i !in touched
      ensures UnwatchedIsNow(s.(code := code), m, i)
    {
      assert Live(s, i) && UnwatchedIsNow(s, m, i);
    }
  }

  lemma LookupKeepsKept(s: State, m: Machine, touched: set<nat>, pc: u64)
    requires Shaped(s) && Kept(s, m, touched)
    ensures var t := Lookup(s, pc).0; Kept(t, m, touched) && t.guest == s.guest && |t.code| == |s.code| && t.used == s.used
  {
    hide Unwatched, Modified;
    var t := Lookup(s, pc).0;
    assert forall i :: Live(t, i) ==> Live(s, i) && t.slots[i].(hits := 0) == s.slots[i].(hits := 0);
    forall i | Live(t, i) && i !in touched
      ensures UnwatchedIsNow(t, m, i)
    {
      assert UnwatchedIsNow(s, m, i);
    }
  }

  lemma TranslateKeepsKept(s: State, m: Machine, touched: set<nat>, pc: u64, copyOk: bool)
    requires Shaped(s) && Kept(s, m, touched) && Bounded(m.translator) && Allowed(s, m, DoTranslate(pc, copyOk))
    ensures Kept(Translate(s, m, pc, copyOk).0, m, Touched(s, m, touched, DoTranslate(pc, copyOk)))
  {
    hide Insert, Unwatched, Lookup, Kept;
    LookupKeepsKept(s, m, touched, pc);
    var (t, hit) := Lookup(s, pc);
    if hit.None? && |t.code| != 0 && t.used + MAX_BLOCK <= CODE_SIZE && copyOk {
      var bytes := s.guest[pc..pc + Span(m.mode)];
      var out := m.translator(m.mode, pc, bytes);
      var u := t.(code := WriteAt(t.code, t.used, Written(out)));
      assert Kept(u, m, touched) by {
        CodeIsNotKept(t, m, touched, u.code);
      }
      if out.Translated? {
        InsertKeepsKept(u, m, touched, Slot(pc, Some(t.used), |out.code|, Some(bytes[..SNAPSHOT]), 0), bytes,
                        t.used + Round16(|out.code|));
        assert Victim(u) == Victim(t) && Shaped(u);
      }
    }
  }

  lemma PlayKeepsKept(s: State, m: Machine, touched: set<nat>, op: Op)
    requires Shaped(s) && Kept(s, m, touched) && Bounded(m.translator) && Allowed(s, m, op)
    ensures Kept(Play(s, m, op), m, Touched(s, m, touched, op))
  {
    var t := Play(s, m, op);
    match op
    case DoTranslate(pc, copyOk) => TranslateKeepsKept(s, m, touched, pc, copyOk);
    case DoStore(addr, b) =>
      forall i | Live(t, i) && i !in Touched(s, m, touched, op)
        ensures UnwatchedIsNow(t, m, i)
      {
        assert Live(s, i) && UnwatchedIsNow(s, m, i) && !InUnwatched(m.mode, s.slots[i], addr);
      }
    case DoInvalidate(pc) =>
      forall i | Live(t, i) && i !in touched
        ensures UnwatchedIsNow(t, m, i)
      {
        assert Live(s, i) && UnwatchedIsNow(s, m, i);
      }
    case DoFlush =>
  }

  /** No request hits a block whose unwatched bytes were stored to since it was translated. */
  ghost predicate HitsUntouched(s: State, m: Machine, touched: set<nat>, ops: seq<Op>)
    requires Bounded(m.translator)
    decreases |ops|
  {
    ops == [] ||
    (Shaped(s) && Allowed(s, m, ops[0]) &&
     (ops[0].DoTranslate? ==> var hit := Lookup(s, ops[0].pc).1; hit.Some? ==> hit.value !in touched) &&
     HitsUntouched(Play(s, m, ops[0]), m, Touched(s, m, touched, ops[0]), ops[1..]))
  }

  lemma UntouchedIsCurrent(s: State, m: Machine, touched: set<nat>, pc: u64, copyOk: bool)
    requires Coherent(s, m) && Kept(s, m, touched) && Bounded(m.translator) && Readable(s.guest, pc, Span(m.mode))
    requires Lookup(s, pc).1.Some? ==> Lookup(s, pc).1.value !in touched
    ensures var (t, r) := Translate(s, m, pc, copyOk);
            r.Some? ==> IsCode(t, m, pc, r.value, s.guest[pc..pc + Span(m.mode)])
  {
    if Lookup(s, pc).1.Some? && Translate(s, m, pc, copyOk).1.Some? {
      LookupKeepsCoherent(s, m, pc);
      HitIsCurrentIff(s, m, pc, copyOk);
      assert UnwatchedIsNow(s, m, Lookup(s, pc).1.value);
    }
  }

  /**
    In every mode: over any run in which no request hits a block with a store to its unwatched
    bytes since it was translated, every block returned is the translation of the code at that moment.
   */
  lemma {:induction false} UntouchedRunsStayCurrent(s: State, m: Machine, touched: set<nat>, ops: seq<Op>)
    requires Coherent(s, m) && Kept(s, m, touched) && Bounded(m.translator) && HitsUntouched(s, m, touched, ops)
    ensures AllCurrent(s, m, ops)
    decreases |ops|
  {
    hide Translate, Play, Coherent, IsCode, Kept, Lookup, Touched;
    if ops != [] {
      PlayKeepsCoherent(s, m, ops[0]);
      PlayKeepsKept(s, m, touched, ops[0]);
      if ops[0].DoTranslate? {
        UntouchedIsCurrent(s, m, touched, ops[0].pc, ops[0].copyOk);
      }
      UntouchedRunsStayCurrent(Play(s, m, ops[0]), m, Touched(s, m, touched, ops[0]), ops[1..]);
    }
  }

  /** No store goes to the unwatched bytes of a block that is cached at the time. */
  ghost predicate StoresElsewhere(s: State, m: Machine, ops: seq<Op>)
    requires Bounded(m.translator)
    decreases |ops|
  {
    ops == [] ||
    (Shaped(s) && Allowed(s, m, ops[0]) &&
     (ops[0].DoStore? ==> forall i :: Live(s, i) ==> !InUnwatched(m.mode, s.slots[i], ops[0].addr)) &&
     StoresElsewhere(Play(s, m, ops[0]), m, ops[1..]))
  }

  lemma {:induction false} StoresElsewhereTouchNothing(s: State, m: Machine, ops: seq<Op>)
    requires Bounded(m.translator) && StoresElsewhere(s, m, ops)
    ensures HitsUntouched(s, m, {}, ops)
    decreases |ops|
  {
    hide Translate, Play, Lookup;
    if ops != [] {
      assert Touched(s, m, {}, ops[0]) == {};
      StoresElsewhereTouchNothing(Play(s, m, ops[0]), m, ops[1..]);
    }
  }

  /** So a started cache is current over every run whose stores spare the unwatched bytes of cached blocks. */
  lemma SparedRunsStayCurrent(s: State, m: Machine, ops: seq<Op>)
    requires Started(s) && Bounded(m.translator) && StoresElsewhere(s, m, ops)
    ensures AllCurrent(s, m, ops)
  {
    StartedIsCoherent(s, m);
    StoresElsewhereTouchNothing(s, m, ops);
    UntouchedRunsStayCurrent(s, m, {}, ops);
  }

  /** A translator whose output is byte 256 of its input. */
  function Peek(mode: Mode, pc: u64, bytes: seq<byte>): Translation {
    Translated(if |bytes| > SNAPSHOT then [bytes[SNAPSHOT]] else [])
  }

  /**
    In Thumb mode 512 bytes are translated but only 256 are compared, so a store to
    the second half goes unnoticed: the old block is returned.
   */
  lemma ThumbBlockCanBeStale(s: State)
    requires Started(s) && |s.code| == CODE_SIZE && |s.guest| == 1 + 2 * SNAPSHOT && s.guest[1 + SNAPSHOT] == 0
    ensures var m := Machine(Thumb, Peek);
            Bounded(m.translator) &&
            var t := Store(Translate(s, m, 1, true).0, 1 + SNAPSHOT, 7);
            var (u, r) := Translate(t, m, 1, true);
            Coherent(t, m) && r.Some? && !IsCode(u, m, 1, r.value, t.guest[1..1 + Span(Thumb)])
  {
    var m := Machine(Thumb, Peek);
    TranslateKeepsCoherent(s, m, 1, true);
    var (a, ra) := Translate(s, m, 1, true);
    var bytes := s.guest[1..1 + Span(Thumb)];
    assert Victim(s) == 0 && a.count == 1 && a.slots[0].pc == 1 && a.origins[0] == bytes;
    StoreKeepsCoherent(a, m, 1 + SNAPSHOT, 7);
    var t := Store(a, 1 + SNAPSHOT, 7);
    assert Find(t.slots, t.count, 1) == 0;
    assert t.guest[1..1 + SNAPSHOT] == s.guest[1..1 + SNAPSHOT] == bytes[..SNAPSHOT];
    HitIsCurrentIff(t, m, 1, true);
    var now := t.guest[1..1 + Span(Thumb)];
    assert now[SNAPSHOT] == 7 && bytes[SNAPSHOT] == 0;
    assert Peek(Thumb, 1, now).code[0] != Peek(Thumb, 1, bytes).code[0];
  }

  lemma FirstTranslation(s: State, m: Machine, pc: u64)
    requires Started(s) && |s.code| == CODE_SIZE && Bounded(m.translator) && Readable(s.guest, pc, Span(m.mode))
    ensures var (t, r) := Translate(s, m, pc, true);
            var out := m.translator(m.mode, pc, s.guest[pc..pc + Span(m.mode)]);
            && (r.Some? <==> out.Translated?)
            && (r.Some? ==>
                  && r.value == Region(0, |out.code|) && t.count == 1 && t.used == Round16(|out.code|) && t.guest == s.guest
                  && t.slots[0] == Slot(pc, Some(0), |out.code|, Some(s.guest[pc..pc + SNAPSHOT]), 0))
  {
    assert Find(s.slots, 0, pc) == 0 && Victim(s) == 0;
    assert s.guest[pc..pc + Span(m.mode)][..SNAPSHOT] == s.guest[pc..pc + SNAPSHOT];
  }

  /** The second block goes to the second slot. */
  lemma SecondTranslation(a: State, m: Machine, pc: u64)
    requires Shaped(a) && |a.code| == CODE_SIZE && a.count == 1 && a.used <= MAX_BLOCK && a.slots[0].pc != pc
    requires Bounded(m.translator) && Readable(a.guest, pc, Span(m.mode))
    requires m.translator(m.mode, pc, a.guest[pc..pc + Span(m.mode)]).Translated?
    ensures var t := Translate(a, m, pc, true).0;
            t.count == 2 && t.slots[0] == a.slots[0] && t.slots[1].pc == pc && t.guest == a.guest
  {
    FindInOne(a.slots, pc);
  }

  lemma FindInOne(slots: seq<Slot>, pc: u64)
    requires |slots| > 0
    ensures Find(slots, 1, pc) == if slots[0].pc == pc then 0 else 1
  {
    assert Find(slots, 0, pc) == 0;
  }

  /**
    From a fresh cache: translate some block, invalidate it, ask for address 0. Nothing is returned,
    although the same request gets a block when it is made first, if the translator has one.
   */
  lemma AddressZeroMeetsVacated(s: State, m: Machine, pc: u64)
    requires Started(s) && |s.code| == CODE_SIZE && Bounded(m.translator) && 0 < pc < TWO32
    requires Readable(s.guest, pc, Span(m.mode)) && m.translator(m.mode, pc, s.guest[pc..pc + Span(m.mode)]).Translated?
    ensures var t := Invalidate(Translate(s, m, pc, true).0, pc);
            Shaped(t) && Translate(t, m, 0, true).1.None?
    ensures m.translator(m.mode, 0, s.guest[..Span(m.mode)]).Translated? ==> Translate(s, m, 0, true).1.Some?
  {
    FirstTranslation(s, m, pc);
    FirstTranslation(s, m, 0);
    assert s.guest[0..0 + Span(m.mode)] == s.guest[..Span(m.mode)];
    hide Translate;
    var a := Translate(s, m, pc, true).0;
    FindInOne(a.slots, pc);
    var t := Invalidate(a, pc);
    FindInOne(t.slots, 0);
    VacatedIsFound(t, 0);
    NoBlockIff(t, m, 0, true);
  }

  lemma VacatedIsFound(t: State, pc: u64)
    requires Shaped(t) && Find(t.slots, t.count, pc) == 0 < t.count && t.slots[0].entry.None?
    ensures Lookup(t, pc).1 == Some(0)
  {
  }

  /**
    It depends on which slot comes first: a block for address 0 that was translated before
    the other one is still found after the other one is invalidated.
   */
  lemma AddressZeroKeepsItsBlock(s: State, m: Machine, pc: u64)
    requires Started(s) && |s.code| == CODE_SIZE && Bounded(m.translator) && 0 < pc < TWO32
    requires Readable(s.guest, 0, Span(m.mode)) && m.translator(m.mode, 0, s.guest[0..0 + Span(m.mode)]).Translated?
    requires Readable(s.guest, pc, Span(m.mode)) && m.translator(m.mode, pc, s.guest[pc..pc + Span(m.mode)]).Translated?
    ensures var a := Translate(s, m, 0, true).0;
            Shaped(a) && Readable(a.guest, pc, Span(m.mode)) &&
            var t := Invalidate(Translate(a, m, pc, true).0, pc);
            Shaped(t) && Readable(t.guest, 0, Span(m.mode)) && Translate(t, m, 0, true).1 == Translate(s, m, 0, true).1 != None
  {
    FirstTranslation(s, m, 0);
    var (a, r) := Translate(s, m, 0, true);
    assert |m.translator(m.mode, 0, s.guest[0..0 + Span(m.mode)]).code| <= MAX_BLOCK by {
      assert |Written(m.translator(m.mode, 0, s.guest[0..0 + Span(m.mode)]))| <= MAX_BLOCK;
    }
    SecondTranslation(a, m, pc);
    var b := Translate(a, m, pc, true).0;
    hide Translate;
    FindInOne(b.slots, pc);
    assert Find(b.slots, 2, pc) == 1;
    var t := Invalidate(b, pc);
    assert t.count == 2 && t.slots[0] == a.slots[0] && t.guest == s.guest;
    FirstIsFound(t, m, 0);
  }

  lemma FirstIsFound(t: State, m: Machine, pc: u64)
    requires Shaped(t) && t.count > 0 && Bounded(m.translator) && Readable(t.guest, pc, Span(m.mode))
    requires t.slots[0].pc == pc && t.slots[0].entry.Some? && t.slots[0].snapshot == Some(t.guest[pc..pc + SNAPSHOT])
    ensures Translate(t, m, pc, true).1 == Some(Region(t.slots[0].entry.value, t.slots[0].size))
  {
    assert Find(t.slots, t.count, pc) == 0;
  }

  /**
    An invalidation cuts the address to 32 bits: for an address of 2^32 or more it
    takes out the block of another address, if any, and leaves its own.
   */
  lemma InvalidateReachesIff(s: State, pc: u64)
    requires Shaped(s) && pc != 0 && Find(s.slots, s.count, pc) < s.count
    ensures var i := Find(s.slots, s.count, pc);
            Invalidate(s, pc).slots[i].pc == 0 <==> pc < TWO32
  {
  }

  /** For instance the first block of a fresh cache, translated at address 2^32 + 1: invalidating it changes nothing. */
  lemma HighBlockStays(s: State)
    requires Started(s) && |s.code| == CODE_SIZE && |s.guest| == TWO32 + 1 + SNAPSHOT
    ensures var m := Machine(Arm64, Peek);
            var pc := TWO32 + 1;
            Bounded(m.translator) &&
            var (t, r) := Translate(s, m, pc, true);
            r.Some? && Invalidate(t, pc) == t && Find(t.slots, t.count, pc) < t.count
  {
    var m := Machine(Arm64, Peek);
    var pc := TWO32 + 1;
    FirstTranslation(s, m, pc);
    var t := Translate(s, m, pc, true).0;
    FindInOne(t.slots, pc);
    FindInOne(t.slots, pc % TWO32);
  }
}
