/** Tracked page protections, on values: a table of pages and the map it stands for. */
module PageProtectSpec {
  import opened Words

  const PAGE: nat := 4096
  const TRACK_MAX: nat := 65536

  datatype Page = Page(addr: u64, prot: byte, watched: bool, faults: u32)

  function PageOf(addr: u64): (p: u64)
    ensures p % PAGE == 0 && p <= addr < p + PAGE
  {
    addr / PAGE * PAGE
  }

  /** Rounded up to a page; the additions wrap. */
  function EndOf(addr: u64, size: u64): (e: u64)
    ensures e % PAGE == 0
    ensures addr + size + PAGE - 1 < TWO64 ==> addr + size <= e < addr + size + PAGE
  {
    ((addr + size) % TWO64 + PAGE - 1) % TWO64 / PAGE * PAGE
  }

  // ---- protection bits

  predicate Allows(prot: byte, access: byte) {
    prot & access == access
  }

  predicate Readable(prot: byte) {
    prot & 1 != 0
  }

  predicate Writable(prot: byte) {
    prot & 2 != 0
  }

  function WithWrite(prot: byte): byte {
    prot | 2
  }

  lemma WriteIsAdded(prot: byte)
    ensures Writable(WithWrite(prot)) && (Readable(WithWrite(prot)) <==> Readable(prot))
    ensures Allows(prot, 2) <==> Writable(prot)
  {
  }

  // ---- the table

  /** No page twice, every address aligned, within the limit. */
  ghost predicate Valid(s: seq<Page>) {
    && |s| <= TRACK_MAX
    && (forall i, j :: 0 <= i < j < |s| ==> s[i].addr != s[j].addr)
    && (forall i :: 0 <= i < |s| ==> s[i].addr % PAGE == 0)
  }

  /** The map from pages to protections that the table stands for. */
  ghost function Prots(s: seq<Page>): map<u64, byte> {
    if s == [] then map[] else Prots(s[1..])[s[0].addr := s[0].prot]
  }

  /** The place of a page, or the length. */
  function IndexOf(s: seq<Page>, p: u64): (i: nat)
    ensures i <= |s|
    ensures i < |s| ==> s[i].addr == p
    ensures forall k :: 0 <= k < i ==> s[k].addr != p
  {
    if s == [] then 0 else if s[0].addr == p then 0 else 1 + IndexOf(s[1..], p)
  }

  lemma IndexIs(s: seq<Page>, p: u64, i: nat)
    requires i <= |s| && (i < |s| ==> s[i].addr == p) && forall k :: 0 <= k < i ==> s[k].addr != p
    ensures IndexOf(s, p) == i
  {
  }

  /** A page is given a protection, in place if it is tracked and at the end if not. */
  ghost function SetPage(s: seq<Page>, p: u64, prot: byte): seq<Page> {
    var i := IndexOf(s, p);
    if i < |s| then s[i := s[i].(prot := prot)] else s + [Page(p, prot, true, 0)]
  }

  /** The pages from p up to the end, while there is room; room is asked for even if the page is tracked. */
  ghost function AddPages(s: seq<Page>, p: int, end: int, prot: byte): seq<Page>
    requires 0 <= p && end < TWO64
    decreases if p >= end then 0 else end - p
  {
    if p >= end || |s| >= TRACK_MAX then s else AddPages(SetPage(s, p, prot), p + PAGE, end, prot)
  }

  ghost function Add(s: seq<Page>, addr: u64, size: u64, prot: byte): (seq<Page>, int) {
    if addr == 0 || size == 0 || |s| >= TRACK_MAX then (s, -1)
    else (AddPages(s, PageOf(addr), EndOf(addr, size), prot), 0)
  }

  ghost function Modify(s: seq<Page>, addr: u64, prot: byte): (seq<Page>, int) {
    var i := IndexOf(s, PageOf(addr));
    if i < |s| then (s[i := s[i].(prot := prot)], 0) else Add(s, PageOf(addr), PAGE, prot)
  }

  ghost function Check(s: seq<Page>, addr: u64, access: byte): int {
    var i := IndexOf(s, PageOf(addr));
    if i < |s| && !Allows(s[i].prot, access) then -1 else 0
  }

  ghost predicate Handles(s: seq<Page>, addr: u64) {
    var i := IndexOf(s, PageOf(addr));
    i < |s| && Readable(s[i].prot) && !Writable(s[i].prot)
  }

  ghost function Fault(s: seq<Page>, addr: u64): (seq<Page>, int) {
    var i := IndexOf(s, PageOf(addr));
    if i == |s| then (s, -1)
    else
      var counted := s[i].(faults := (s[i].faults + 1) % TWO32);
      if Handles(s, addr) then (s[i := counted.(prot := WithWrite(s[i].prot))], 0) else (s[i := counted], -1)
  }

  // ---- every operation keeps the table valid, and acts on the map

  lemma {:induction false} Tracked(s: seq<Page>, p: u64)
    ensures IndexOf(s, p) < |s| <==> p in Prots(s)
    ensures IndexOf(s, p) < |s| ==> Prots(s)[p] == s[IndexOf(s, p)].prot
  {
    if s != [] {
      Tracked(s[1..], p);
    }
  }

  lemma {:induction false} UpdateAt(s: seq<Page>, i: nat, page: Page)
    requires i == IndexOf(s, page.addr) < |s|
    ensures Prots(s[i := page]) == Prots(s)[page.addr := page.prot]
  {
    if i == 0 {
      assert s[0 := page][1..] == s[1..];
    } else {
      assert s[i := page][1..] == s[1..][i - 1 := page];
      UpdateAt(s[1..], i - 1, page);
    }
  }

  lemma {:induction false} AppendAt(s: seq<Page>, page: Page)
    requires IndexOf(s, page.addr) == |s|
    ensures Prots(s + [page]) == Prots(s)[page.addr := page.prot]
  {
    if s == [] {
      assert [] + [page] == [page] && [page][1..] == [];
    } else {
      assert (s + [page])[1..] == s[1..] + [page];
      AppendAt(s[1..], page);
    }
  }

  lemma SetPageSets(s: seq<Page>, p: u64, prot: byte)
    requires Valid(s) && p % PAGE == 0 && |s| < TRACK_MAX
    ensures Valid(SetPage(s, p, prot)) && Prots(SetPage(s, p, prot)) == Prots(s)[p := prot]
    ensures |SetPage(s, p, prot)| == |s| + if p in Prots(s) then 0 else 1
  {
    Tracked(s, p);
    hide Prots;
    var i := IndexOf(s, p);
    if i < |s| {
      UpdateAt(s, i, s[i].(prot := prot));
    } else {
      AppendAt(s, Page(p, prot, true, 0));
    }
  }

  // ---- adding a range

  /** How many pages in [from, to) are not tracked. */
  ghost function Untracked(m: map<u64, byte>, from: int, to: int): nat
    requires 0 <= from && to < TWO64
    decreases if from >= to then 0 else to - from
  {
    if from >= to then 0 else (if from in m then 0 else 1) + Untracked(m, from + PAGE, to)
  }

  /** There is room left when page p is reached. */
  ghost predicate Reached(s: seq<Page>, from: int, p: int)
    requires 0 <= from && p < TWO64
  {
    |s| + Untracked(Prots(s), from, p) < TRACK_MAX
  }

  /** What adding the pages of [from, to) does to the map: those reached get the protection. */
  ghost predicate Sets(s: seq<Page>, from: int, to: int, prot: byte, m: map<u64, byte>)
    requires 0 <= from && to < TWO64
  {
    forall q: u64 :: q % PAGE == 0 ==>
      if from <= q < to && Reached(s, from, q) then q in m && m[q] == prot
      else (q in m <==> q in Prots(s)) && (q in m ==> m[q] == Prots(s)[q])
  }

  lemma {:induction false} UntrackedLater(m: map<u64, byte>, p: u64, prot: byte, from: int, to: int)
    requires 0 <= p < from && to < TWO64
    ensures Untracked(m[p := prot], from, to) == Untracked(m, from, to)
    decreases if from >= to then 0 else to - from
  {
    if from < to {
      UntrackedLater(m, p, prot, from + PAGE, to);
    }
  }

  lemma {:induction false} AddPagesSets(s: seq<Page>, from: int, to: int, prot: byte)
    requires Valid(s) && 0 <= from && from % PAGE == 0 && to < TWO64
    ensures Valid(AddPages(s, from, to, prot)) && Sets(s, from, to, prot, Prots(AddPages(s, from, to, prot)))
    decreases if from >= to then 0 else to - from
  {
    hide Prots, SetPage, Valid;
    if from < to && |s| < TRACK_MAX {
      assert |s| < TRACK_MAX;
      var s' := SetPage(s, from, prot);
      SetPageSets(s, from, prot);
      AddPagesSets(s', from + PAGE, to, prot);
      forall q: u64 | q % PAGE == 0 && from < q
        ensures Reached(s', from + PAGE, q) <==> Reached(s, from, q)
      {
        UntrackedLater(Prots(s), from, prot, from + PAGE, q);
      }
    }
  }

  /** Up to its end, the range as computed is the range asked for; an end that wraps can cut it short, never extend it. */
  lemma RangeEnd(addr: u64, size: u64, q: u64)
    requires q % PAGE == 0
    ensures addr + size + PAGE - 1 < TWO64 ==> (q < EndOf(addr, size) <==> q < addr + size)
    ensures q < EndOf(addr, size) ==> q < addr + size
  {
  }

  ghost predicate InRange(addr: u64, size: u64, q: u64) {
    q % PAGE == 0 && PageOf(addr) <= q < addr + size
  }

  /** The pages of the range have the protection, and no other page changed. */
  ghost predicate RangeSet(before: map<u64, byte>, after: map<u64, byte>, addr: u64, size: u64, prot: byte) {
    forall q: u64 :: q % PAGE == 0 ==>
      if InRange(addr, size, q) then q in after && after[q] == prot
      else (q in after <==> q in before) && (q in after ==> after[q] == before[q])
  }

  /** The page lies below the computed end and is reached with room left, or it has the protection already. */
  ghost predicate WillSet(s: seq<Page>, addr: u64, size: u64, prot: byte, q: u64) {
    || (q < EndOf(addr, size) && Reached(s, PageOf(addr), q))
    || (q in Prots(s) && Prots(s)[q] == prot)
  }

  /**
    Adding a range gives every page of it the protection, and no other page, exactly
    when each of its pages lies below the computed end and is reached with room left,
    or has the protection already. By RangeEnd an end that does not wrap leaves no page out.
   */
  lemma AddSetsRangeIff(s: seq<Page>, addr: u64, size: u64, prot: byte)
    requires Valid(s) && addr != 0 && size != 0 && |s| < TRACK_MAX
    ensures Add(s, addr, size, prot).1 == 0 && Valid(Add(s, addr, size, prot).0)
    ensures RangeSet(Prots(s), Prots(Add(s, addr, size, prot).0), addr, size, prot)
            <==> forall q: u64 :: InRange(addr, size, q) ==> WillSet(s, addr, size, prot, q)
  {
    AddPagesSets(s, PageOf(addr), EndOf(addr, size), prot);
    var m, n := Prots(s), Prots(Add(s, addr, size, prot).0);
    forall q: u64 | q % PAGE == 0
      ensures if InRange(addr, size, q) && !WillSet(s, addr, size, prot, q) then !(q in n && n[q] == prot)
              else if InRange(addr, size, q) then q in n && n[q] == prot
              else (q in n <==> q in m) && (q in n ==> n[q] == m[q])
    {
      PageIsSet(s, addr, size, prot, q, n);
    }
    hide *;
    RangeSetIff(s, m, n, addr, size, prot);
  }

  lemma PageIsSet(s: seq<Page>, addr: u64, size: u64, prot: byte, q: u64, n: map<u64, byte>)
    requires q % PAGE == 0 && Sets(s, PageOf(addr), EndOf(addr, size), prot, n)
    ensures if InRange(addr, size, q) && !WillSet(s, addr, size, prot, q) then !(q in n && n[q] == prot)
            else if InRange(addr, size, q) then q in n && n[q] == prot
            else (q in n <==> q in Prots(s)) && (q in n ==> n[q] == Prots(s)[q])
  {
    RangeEnd(addr, size, q);
    hide Prots, Reached, PageOf, EndOf;
  }

  lemma RangeSetIff(s: seq<Page>, m: map<u64, byte>, n: map<u64, byte>, addr: u64, size: u64, prot: byte)
    requires forall q: u64 :: q % PAGE == 0 ==>
               if InRange(addr, size, q) && !WillSet(s, addr, size, prot, q) then !(q in n && n[q] == prot)
               else if InRange(addr, size, q) then q in n && n[q] == prot
               else (q in n <==> q in m) && (q in n ==> n[q] == m[q])
    ensures RangeSet(m, n, addr, size, prot) <==> forall q: u64 :: InRange(addr, size, q) ==> WillSet(s, addr, size, prot, q)
  {
    hide WillSet, PageOf;
    if RangeSet(m, n, addr, size, prot) {
      forall q: u64 | InRange(addr, size, q)
        ensures WillSet(s, addr, size, prot, q)
      {
        assert q % PAGE == 0;
      }
    }
  }

  /** A table with room for one more page. */
  ghost function AlmostFull(): (s: seq<Page>)
    ensures Valid(s) && |s| == TRACK_MAX - 1 && forall i :: 0 <= i < |s| ==> s[i].addr == (i + 16) * PAGE
  {
    seq(TRACK_MAX - 1, i requires 0 <= i < TRACK_MAX - 1 => Page((i + 16) * PAGE, 1, true, 0))
  }

  /** With room for one page, adding the two pages at 4096 reports success and sets only the first. */
  lemma FullTableCutsRange()
    ensures var (t, rc) := Add(AlmostFull(), 4096, 8192, 3);
            && rc == 0 && 4096 in Prots(t) && Prots(t)[4096] == 3
            && InRange(4096, 8192, 8192) && 8192 !in Prots(t)
            && !RangeSet(Prots(AlmostFull()), Prots(t), 4096, 8192, 3)
  {
    var s, page, next: u64 := AlmostFull(), Page(4096, 3, true, 0), 8192;
    hide *;
    var t := s + [page];
    NotInTable(s, page.addr);
    NotInTable(s, next);
    AddsOne(s, page);
    AppendAt(s, page);
    Tracked(s, next);
    CutShort(Prots(s), Prots(t));
  }

  lemma NotInTable(s: seq<Page>, p: u64)
    requires p < 65536 && forall i :: 0 <= i < |s| ==> s[i].addr == (i + 16) * PAGE
    ensures IndexOf(s, p) == |s|
  {
    IndexIs(s, p, |s|);
  }

  lemma AddsOne(s: seq<Page>, page: Page)
    requires |s| == TRACK_MAX - 1 && page == Page(4096, 3, true, 0) && IndexOf(s, 4096) == |s|
    ensures Add(s, 4096, 8192, 3) == (s + [page], 0)
  {
    hide IndexOf;
    assert SetPage(s, 4096, 3) == s + [page];
    hide SetPage;
    assert AddPages(s + [page], 8192, 12288, 3) == s + [page];
  }

  lemma CutShort(before: map<u64, byte>, after: map<u64, byte>)
    requires after == before[4096 := 3] && 8192 !in before
    ensures 4096 in after && after[4096] == 3
    ensures InRange(4096, 8192, 8192) && 8192 !in after && !RangeSet(before, after, 4096, 8192, 3)
  {
    assert PageOf(4096) == 4096;
    hide PageOf;
    assert InRange(4096, 8192, 8192);
  }

  // ---- one page

  const LAST: int := TWO64 - PAGE

  lemma PageEnd(p: u64)
    requires p % PAGE == 0
    ensures PageOf(p) == p && EndOf(p, PAGE) == if p == LAST then 0 else p + PAGE
  {
  }

  /** Adding one page; the last one of the address space is silently left out. */
  lemma AddOnePage(s: seq<Page>, p: u64, prot: byte)
    requires p % PAGE == 0
    ensures Add(s, p, PAGE, prot) == if p == 0 || |s| >= TRACK_MAX then (s, -1)
                                     else if p == LAST then (s, 0) else (SetPage(s, p, prot), 0)
  {
    PageEnd(p);
    hide SetPage, PageOf, EndOf;
    if p != 0 && p != LAST && |s| < TRACK_MAX {
      var t := SetPage(s, p, prot);
      assert AddPages(t, p + PAGE, p + PAGE, prot) == t;
    }
  }

  lemma ModifyTracked(s: seq<Page>, p: u64, prot: byte)
    requires Valid(s) && p in Prots(s)
    ensures var i := IndexOf(s, p);
            i < |s| && Valid(s[i := s[i].(prot := prot)]) && Prots(s[i := s[i].(prot := prot)]) == Prots(s)[p := prot]
  {
    Tracked(s, p);
    UpdateAt(s, IndexOf(s, p), s[IndexOf(s, p)].(prot := prot));
    hide Prots;
  }

  ghost predicate Settable(s: seq<Page>, p: u64) {
    p in Prots(s) || (p != 0 && p != LAST && |s| < TRACK_MAX)
  }

  lemma ModifyCases(s: seq<Page>, addr: u64, prot: byte)
    requires Valid(s)
    ensures var p := PageOf(addr);
            var (t, rc) := Modify(s, addr, prot);
            && (Settable(s, p) ==> Valid(t) && Prots(t) == Prots(s)[p := prot] && rc == 0)
            && (!Settable(s, p) ==> t == s && (rc == 0 <==> p != 0 && |s| < TRACK_MAX))
  {
    var p := PageOf(addr);
    Tracked(s, p);
    AddOnePage(s, p, prot);
    if p in Prots(s) {
      ModifyTracked(s, p, prot);
    } else if |s| < TRACK_MAX {
      SetPageSets(s, p, prot);
    }
    hide Prots, PageOf, Add, Valid, SetPage, IndexOf;
  }

  /** A page gets the protection exactly when it is tracked or can be added: not page 0 or the last page, and with room left. */
  lemma ModifySetsIff(s: seq<Page>, addr: u64, prot: byte)
    requires Valid(s)
    ensures var p := PageOf(addr);
            var (t, rc) := Modify(s, addr, prot);
            && Valid(t)
            && (Prots(t) == Prots(s)[p := prot] <==> p in Prots(s) || (p != 0 && p != LAST && |s| < TRACK_MAX))
            && (Prots(t) != Prots(s)[p := prot] ==> t == s)
            && (rc == 0 <==> p in Prots(s) || (p != 0 && |s| < TRACK_MAX))
  {
    ModifyCases(s, addr, prot);
    hide Prots, PageOf, Modify, Valid;
    assert PageOf(addr) !in Prots(s) ==> Prots(s)[PageOf(addr) := prot] != Prots(s);
  }

  /** Access is refused exactly to a tracked page whose protection does not allow it. */
  lemma CheckAnswersMap(s: seq<Page>, addr: u64, access: byte)
    ensures var p := PageOf(addr);
            Check(s, addr, access) == if p in Prots(s) && !Allows(Prots(s)[p], access) then -1 else 0
  {
    Tracked(s, PageOf(addr));
    hide Prots, PageOf, Allows;
  }

  // ---- faults

  /** The pages on which a write would fault and be let through. */
  ghost function Guarded(m: map<u64, byte>): set<u64> {
    set q | q in m && Readable(m[q]) && !Writable(m[q])
  }

  /** A fault on a readable page that is not writable makes it writable; any other fault changes no protection. */
  lemma FaultActs(s: seq<Page>, addr: u64)
    requires Valid(s)
    ensures var p := PageOf(addr);
            var (t, rc) := Fault(s, addr);
            && Valid(t)
            && (rc == 0 <==> p in Guarded(Prots(s)))
            && Prots(t) == if rc == 0 then Prots(s)[p := WithWrite(Prots(s)[p])] else Prots(s)
  {
    var p := PageOf(addr);
    var i := IndexOf(s, p);
    Tracked(s, p);
    hide Prots, PageOf, Readable, Writable, WithWrite;
    if i < |s| {
      var counted := s[i].(faults := (s[i].faults + 1) % TWO32);
      UpdateAt(s, i, counted);
      UpdateAt(s, i, counted.(prot := WithWrite(s[i].prot)));
    }
  }

  /** Each handled fault leaves one guarded page fewer. */
  lemma FaultLowers(s: seq<Page>, addr: u64)
    requires Valid(s)
    ensures var (t, rc) := Fault(s, addr);
            |Guarded(Prots(t))| == |Guarded(Prots(s))| - if rc == 0 then 1 else 0
  {
    FaultActs(s, addr);
    var p, m := PageOf(addr), Prots(s);
    var (t, rc) := Fault(s, addr);
    if rc == 0 {
      WriteIsAdded(m[p]);
      hide Prots, PageOf, Readable, Writable, WithWrite, Fault;
      assert Guarded(Prots(t)) == Guarded(m) - {p};
    }
  }

  ghost function Faults(s: seq<Page>, addrs: seq<u64>): (seq<Page>, nat)
    decreases |addrs|
  {
    if addrs == [] then (s, 0)
    else
      var (t, rc) := Fault(s, addrs[0]);
      var (u, handled) := Faults(t, addrs[1..]);
      (u, handled + if rc == 0 then 1 else 0)
  }

  /** So of any series of faults at most as many are handled as there are guarded pages: retrying ends. */
  lemma {:induction false} FaultsEnd(s: seq<Page>, addrs: seq<u64>)
    requires Valid(s)
    ensures var (t, handled) := Faults(s, addrs);
            Valid(t) && handled + |Guarded(Prots(t))| == |Guarded(Prots(s))|
    decreases |addrs|
  {
    hide Fault, Prots, Guarded, Valid;
    if addrs != [] {
      FaultActs(s, addrs[0]);
      FaultLowers(s, addrs[0]);
      FaultsEnd(Fault(s, addrs[0]).0, addrs[1..]);
    }
  }

  // ---- runs

  datatype Op = DoAdd(addr: u64, size: u64, prot: byte) | DoModify(addr: u64, prot: byte) | DoFault(addr: u64)

  ghost function Play(s: seq<Page>, ops: seq<Op>): seq<Page>
    decreases |ops|
  {
    if ops == [] then s
    else
      var t := match ops[0]
               case DoAdd(addr, size, prot) => Add(s, addr, size, prot).0
               case DoModify(addr, prot) => Modify(s, addr, prot).0
               case DoFault(addr) => Fault(s, addr).0;
      Play(t, ops[1..])
  }

  /** Over any run pages stay tracked at most once, at aligned addresses, and none is forgotten. */
  lemma {:induction false} RunsStayValid(s: seq<Page>, ops: seq<Op>)
    requires Valid(s)
    ensures Valid(Play(s, ops)) && Prots(s).Keys <= Prots(Play(s, ops)).Keys
    decreases |ops|
  {
    hide Prots, PageOf, EndOf, Valid, Fault, Modify, AddPages, Guarded;
    if ops != [] {
      match ops[0]
      case DoAdd(addr, size, prot) =>
        AddPagesSets(s, PageOf(addr), EndOf(addr, size), prot);
        AddKeeps(s, addr, size, prot);
        RunsStayValid(Add(s, addr, size, prot).0, ops[1..]);
      case DoModify(addr, prot) =>
        ModifyCases(s, addr, prot);
        RunsStayValid(Modify(s, addr, prot).0, ops[1..]);
      case DoFault(addr) =>
        FaultActs(s, addr);
        RunsStayValid(Fault(s, addr).0, ops[1..]);
    }
  }

  lemma AddKeeps(s: seq<Page>, addr: u64, size: u64, prot: byte)
    requires Valid(s)
    ensures Valid(Add(s, addr, size, prot).0) && Prots(s).Keys <= Prots(Add(s, addr, size, prot).0).Keys
  {
    AddPagesSets(s, PageOf(addr), EndOf(addr, size), prot);
    forall q | q in Prots(s)
      ensures q in Prots(Add(s, addr, size, prot).0)
    {
      Tracked(s, q);
    }
  }
}
