/**
  The list of direct jumps that the translator has emitted and the patching of
  those jumps when the block they lead to is evicted.
 */
module Jumps {
  import opened Words
  import opened Sequences
  import opened Memory

  type Addr = u64

  const PATCH_LEN: nat := 14

  /** One registered call or jump instruction, at address `site` of the host memory. */
  class JumpTarget {
    const target: Addr
    const site: nat
    const isCall: bool
    var next: JumpTarget?

    constructor (target: Addr, site: nat, isCall: bool, next: JumpTarget?)
      ensures this.target == target && this.site == site && this.isCall == isCall && this.next == next
    {
      this.target, this.site, this.isCall, this.next := target, site, isCall, next;
    }
  }

  /** call [rip+0] or jmp [rip+0], followed by the address that is loaded. */
  function Redirection(isCall: bool, dispatcher: seq<byte>): (r: seq<byte>)
    requires |dispatcher| == 8
    ensures |r| == PATCH_LEN
  {
    [0xff, if isCall then 0x15 else 0x25, 0, 0, 0, 0] + dispatcher
  }

  ghost predicate SitesFit(js: seq<JumpTarget>, n: nat) {
    forall j :: j in js ==> j.site + PATCH_LEN <= n
  }

  /** What is left of the list once every jump to addr has been taken out. */
  ghost function Remaining(js: seq<JumpTarget>, addr: Addr): (r: seq<JumpTarget>)
    ensures forall j :: j in r ==> j in js && j.target != addr
    ensures forall j :: j in js && j.target != addr ==> j in r
  {
    if js == [] then []
    else if js[0].target == addr then Remaining(js[1..], addr)
    else [js[0]] + Remaining(js[1..], addr)
  }

  /** The memory once every jump to addr has been redirected, front of the list first. */
  ghost function Patched(js: seq<JumpTarget>, addr: Addr, dispatcher: seq<byte>, ram: seq<byte>): (r: seq<byte>)
    requires |dispatcher| == 8 && SitesFit(js, |ram|)
    ensures |r| == |ram|
    decreases |js|
  {
    if js == [] then ram
    else
      assert js[0] in js;
      Patched(js[1..], addr, dispatcher, PatchedBy(js[0], addr, dispatcher, ram))
  }

  ghost function PatchedBy(j: JumpTarget, addr: Addr, dispatcher: seq<byte>, ram: seq<byte>): (r: seq<byte>)
    requires |dispatcher| == 8 && j.site + PATCH_LEN <= |ram|
    ensures |r| == |ram|
  {
    if j.target == addr then WriteAt(ram, j.site, Redirection(j.isCall, dispatcher)) else ram
  }

  /** Each kept record keeps its place among the kept ones. */
  lemma {:induction false} RemainingSplits(a: seq<JumpTarget>, b: seq<JumpTarget>, addr: Addr)
    ensures Remaining(a + b, addr) == Remaining(a, addr) + Remaining(b, addr)
  {
    if a == [] {
      assert a + b == b;
    } else {
      assert (a + b)[1..] == a[1..] + b;
      RemainingSplits(a[1..], b, addr);
    }
  }

  lemma RemainingNext(js: seq<JumpTarget>, i: nat, addr: Addr)
    requires NoDup(js) && i < |js|
    ensures Remaining(js[..i + 1], addr) == Remaining(js[..i], addr) + if js[i].target == addr then [] else [js[i]]
    ensures forall k :: i <= k < |js| ==> js[k] !in Remaining(js[..i], addr)
  {
    assert js[..i + 1] == js[..i] + [js[i]];
    RemainingSplits(js[..i], [js[i]], addr);
  }

  lemma PatchedNext(js: seq<JumpTarget>, i: nat, addr: Addr, dispatcher: seq<byte>, ram: seq<byte>)
    requires |dispatcher| == 8 && SitesFit(js, |ram|) && i < |js|
    ensures Patched(js[i..], addr, dispatcher, ram) == Patched(js[i + 1..], addr, dispatcher, PatchedBy(js[i], addr, dispatcher, ram))
  {
    assert js[i..][1..] == js[i + 1..];
  }

  lemma {:induction false} RemainingNoDup(js: seq<JumpTarget>, addr: Addr)
    requires NoDup(js)
    ensures NoDup(Remaining(js, addr))
  {
    if js != [] {
      RemainingNoDup(js[1..], addr);
      assert js[0] !in js[1..];
    }
  }

  /** No byte outside the windows of the removed records changes. */
  lemma {:induction false} PatchingLeavesTheRest(js: seq<JumpTarget>, addr: Addr, dispatcher: seq<byte>, ram: seq<byte>, k: nat)
    requires |dispatcher| == 8 && SitesFit(js, |ram|) && k < |ram|
    requires forall j :: j in js && j.target == addr ==> !(j.site <= k < j.site + PATCH_LEN)
    ensures Patched(js, addr, dispatcher, ram)[k] == ram[k]
  {
    if js != [] {
      assert js[0] in js;
      var ram' := PatchedBy(js[0], addr, dispatcher, ram);
      PatchingLeavesTheRest(js[1..], addr, dispatcher, ram', k);
    }
  }

  // ---- several redirections in a row

  /** The records for addr, in their order. */
  ghost function Matching(js: seq<JumpTarget>, addr: Addr): (r: seq<JumpTarget>)
    ensures forall j :: j in r ==> j in js && j.target == addr
    ensures forall j :: j in js && j.target == addr ==> j in r
  {
    if js == [] then []
    else if js[0].target == addr then [js[0]] + Matching(js[1..], addr)
    else Matching(js[1..], addr)
  }

  /** The memory once every record of ps has been redirected, in this order. */
  ghost function Redirected(ps: seq<JumpTarget>, dispatcher: seq<byte>, ram: seq<byte>): (r: seq<byte>)
    requires |dispatcher| == 8 && SitesFit(ps, |ram|)
    ensures |r| == |ram|
    decreases |ps|
  {
    if ps == [] then ram
    else
      assert ps[0] in ps;
      Redirected(ps[1..], dispatcher, WriteAt(ram, ps[0].site, Redirection(ps[0].isCall, dispatcher)))
  }

  lemma {:induction false} PatchedIsRedirected(js: seq<JumpTarget>, addr: Addr, dispatcher: seq<byte>, ram: seq<byte>)
    requires |dispatcher| == 8 && SitesFit(js, |ram|)
    ensures Patched(js, addr, dispatcher, ram) == Redirected(Matching(js, addr), dispatcher, ram)
    decreases |js|
  {
    hide Redirection, WriteAt;
    if js != [] {
      assert js[0] in js;
      PatchedIsRedirected(js[1..], addr, dispatcher, PatchedBy(js[0], addr, dispatcher, ram));
    }
  }

  lemma {:induction false} RedirectedInTurn(a: seq<JumpTarget>, b: seq<JumpTarget>, dispatcher: seq<byte>, ram: seq<byte>)
    requires |dispatcher| == 8 && SitesFit(a + b, |ram|)
    ensures SitesFit(a, |ram|) && SitesFit(b, |ram|)
    ensures Redirected(a + b, dispatcher, ram) == Redirected(b, dispatcher, Redirected(a, dispatcher, ram))
    decreases |a|
  {
    hide Redirection, WriteAt;
    if a == [] {
      assert a + b == b;
    } else {
      assert a[0] in a + b && (a + b)[1..] == a[1..] + b;
      RedirectedInTurn(a[1..], b, dispatcher, WriteAt(ram, a[0].site, Redirection(a[0].isCall, dispatcher)));
    }
  }

  lemma {:induction false} RedirectingLeavesTheRest(ps: seq<JumpTarget>, dispatcher: seq<byte>, ram: seq<byte>, k: nat)
    requires |dispatcher| == 8 && SitesFit(ps, |ram|) && k < |ram|
    requires forall j :: j in ps ==> !(j.site <= k < j.site + PATCH_LEN)
    ensures Redirected(ps, dispatcher, ram)[k] == ram[k]
    decreases |ps|
  {
    hide Redirection;
    if ps != [] {
      assert ps[0] in ps;
      RedirectingLeavesTheRest(ps[1..], dispatcher, WriteAt(ram, ps[0].site, Redirection(ps[0].isCall, dispatcher)), k);
    }
  }

  ghost predicate Touches(j: JumpTarget, site: nat) {
    j.site < site + PATCH_LEN && site < j.site + PATCH_LEN
  }

  ghost predicate SameRedirection(a: JumpTarget, b: JumpTarget) {
    a.site == b.site && a.isCall == b.isCall
  }

  datatype Toucher = Nobody | By(who: JumpTarget)

  /** The last redirected record whose window meets the window at site. */
  ghost function LastToucher(ps: seq<JumpTarget>, site: nat): (r: Toucher)
    ensures r.By? ==> r.who in ps && Touches(r.who, site)
    ensures r.Nobody? ==> forall j :: j in ps ==> !Touches(j, site)
  {
    if ps == [] then Nobody
    else
      var later := LastToucher(ps[1..], site);
      if later.By? then later
      else if Touches(ps[0], site) then By(ps[0])
      else Nobody
  }

  /** Where the windows meet, the bytes are those of the last toucher. */
  lemma {:induction false} LastToucherWins(ps: seq<JumpTarget>, w: JumpTarget, dispatcher: seq<byte>, ram: seq<byte>, site: nat, k: nat)
    requires |dispatcher| == 8 && SitesFit(ps, |ram|)
    requires LastToucher(ps, site) == By(w)
    requires site <= k < site + PATCH_LEN && w.site <= k < w.site + PATCH_LEN
    ensures k < |ram| && Redirected(ps, dispatcher, ram)[k] == Redirection(w.isCall, dispatcher)[k - w.site]
    decreases |ps|
  {
    hide Redirection;
    var ram' := WriteAt(ram, ps[0].site, Redirection(ps[0].isCall, dispatcher));
    if LastToucher(ps[1..], site).By? {
      LastToucherWins(ps[1..], w, dispatcher, ram', site, k);
    } else {
      RedirectingLeavesTheRest(ps[1..], dispatcher, ram', k);
    }
  }

  /** No end of the dispatcher's address looks like the start of a redirection. */
  ghost predicate Distinctive(dispatcher: seq<byte>)
    requires |dispatcher| == 8
  {
    forall i, isCall :: 0 <= i < 8 ==> dispatcher[i..] != Redirection(isCall, dispatcher)[..8 - i]
  }

  /** What a redirection at site puts at address k. */
  ghost function ByteAt(site: nat, isCall: bool, dispatcher: seq<byte>, k: nat): byte
    requires |dispatcher| == 8
  {
    if site <= k < site + PATCH_LEN then Redirection(isCall, dispatcher)[k - site] else 0
  }

  ghost predicate Meet(p: nat, q: nat) {
    p < q + PATCH_LEN && q < p + PATCH_LEN
  }

  /** Two redirections agree on the bytes they share. */
  ghost predicate Agree(p: nat, pCall: bool, q: nat, qCall: bool, dispatcher: seq<byte>)
    requires |dispatcher| == 8
  {
    forall k: nat :: p <= k < p + PATCH_LEN && q <= k < q + PATCH_LEN ==>
      ByteAt(p, pCall, dispatcher, k) == ByteAt(q, qCall, dispatcher, k)
  }

  /** When the second starts inside the first, they differ unless an end of the address starts like the second. */
  lemma LaterStartDiffers(p: nat, pCall: bool, q: nat, qCall: bool, dispatcher: seq<byte>)
    requires |dispatcher| == 8 && Distinctive(dispatcher) && p < q < p + PATCH_LEN
    ensures !Agree(p, pCall, q, qCall, dispatcher)
  {
    if q - p < 6 {
      assert ByteAt(p, pCall, dispatcher, q) != ByteAt(q, qCall, dispatcher, q);
    } else {
      var i := q - p - 6;
      var start := Redirection(qCall, dispatcher)[..8 - i];
      assert dispatcher[i..] != start;
      var n :| 0 <= n < 8 - i && dispatcher[i..][n] != start[n];
      assert ByteAt(p, pCall, dispatcher, q + n) != ByteAt(q, qCall, dispatcher, q + n);
    }
  }

  /** Two redirections that meet without being the same one disagree on some shared byte. */
  lemma MeetingRedirectionsDiffer(p: nat, pCall: bool, q: nat, qCall: bool, dispatcher: seq<byte>)
    requires |dispatcher| == 8 && Distinctive(dispatcher)
    requires Meet(p, q) && (p != q || pCall != qCall)
    ensures !Agree(p, pCall, q, qCall, dispatcher)
  {
    if p == q {
      assert ByteAt(p, pCall, dispatcher, p + 1) != ByteAt(q, qCall, dispatcher, p + 1);
    } else if p < q {
      LaterStartDiffers(p, pCall, q, qCall, dispatcher);
    } else {
      LaterStartDiffers(q, qCall, p, pCall, dispatcher);
      hide ByteAt;
      var k: nat :| q <= k < q + PATCH_LEN && p <= k < p + PATCH_LEN &&
                    ByteAt(q, qCall, dispatcher, k) != ByteAt(p, pCall, dispatcher, k);
    }
  }

  /** The condition on the address is exact: without it two redirections a few bytes apart can both stand. */
  lemma OverlapsAlwaysShowIff(dispatcher: seq<byte>)
    requires |dispatcher| == 8
    ensures Distinctive(dispatcher)
            <==> forall p: nat, pCall, q: nat, qCall :: Meet(p, q) && (p != q || pCall != qCall)
                   ==> !Agree(p, pCall, q, qCall, dispatcher)
  {
    if Distinctive(dispatcher) {
      forall p: nat, pCall, q: nat, qCall | Meet(p, q) && (p != q || pCall != qCall)
        ensures !Agree(p, pCall, q, qCall, dispatcher)
      {
        MeetingRedirectionsDiffer(p, pCall, q, qCall, dispatcher);
      }
    } else {
      var i, isCall :| 0 <= i < 8 && dispatcher[i..] == Redirection(isCall, dispatcher)[..8 - i];
      EndIsStart(dispatcher, i, isCall);
      assert Meet(0, i + 6);
    }
  }

  lemma EndIsStart(dispatcher: seq<byte>, i: nat, isCall: bool)
    requires |dispatcher| == 8 && i < 8 && dispatcher[i..] == Redirection(isCall, dispatcher)[..8 - i]
    ensures Agree(0, true, i + 6, isCall, dispatcher)
  {
    forall k: nat | 0 <= k < PATCH_LEN && i + 6 <= k < i + 6 + PATCH_LEN
      ensures ByteAt(0, true, dispatcher, k) == ByteAt(i + 6, isCall, dispatcher, k)
    {
      assert Redirection(true, dispatcher)[k] == dispatcher[i..][k - 6 - i];
      assert Redirection(isCall, dispatcher)[k - (i + 6)] == Redirection(isCall, dispatcher)[..8 - i][k - (i + 6)];
    }
  }

  lemma SameRedirectionHolds(ps: seq<JumpTarget>, r: JumpTarget, l: JumpTarget, dispatcher: seq<byte>, ram: seq<byte>)
    requires |dispatcher| == 8 && SitesFit(ps, |ram|) && r in ps
    requires LastToucher(ps, r.site) == By(l) && SameRedirection(l, r)
    ensures Redirected(ps, dispatcher, ram)[r.site..r.site + PATCH_LEN] == Redirection(r.isCall, dispatcher)
  {
    hide Redirection, Redirected, LastToucher;
    var window := Redirected(ps, dispatcher, ram)[r.site..r.site + PATCH_LEN];
    forall k | 0 <= k < PATCH_LEN
      ensures window[k] == Redirection(r.isCall, dispatcher)[k]
    {
      LastToucherWins(ps, l, dispatcher, ram, r.site, r.site + k);
    }
  }

  lemma SliceDiffers(s: seq<byte>, p: nat, t: seq<byte>, k: nat)
    requires p <= k < p + |t| <= |s| && s[k] != t[k - p]
    ensures s[p..p + |t|] != t
  {
    assert s[p..p + |t|][k - p] == s[k];
  }

  lemma OtherRedirectionSpoils(ps: seq<JumpTarget>, r: JumpTarget, l: JumpTarget, dispatcher: seq<byte>, ram: seq<byte>)
    requires |dispatcher| == 8 && Distinctive(dispatcher) && SitesFit(ps, |ram|) && r in ps
    requires LastToucher(ps, r.site) == By(l) && !SameRedirection(l, r)
    ensures Redirected(ps, dispatcher, ram)[r.site..r.site + PATCH_LEN] != Redirection(r.isCall, dispatcher)
  {
    hide Redirection, Redirected, LastToucher, Distinctive;
    assert Touches(l, r.site);
    MeetingRedirectionsDiffer(r.site, r.isCall, l.site, l.isCall, dispatcher);
    var k: nat :| r.site <= k < r.site + PATCH_LEN && l.site <= k < l.site + PATCH_LEN &&
                  ByteAt(r.site, r.isCall, dispatcher, k) != ByteAt(l.site, l.isCall, dispatcher, k);
    LastToucherWins(ps, l, dispatcher, ram, r.site, k);
    SliceDiffers(Redirected(ps, dispatcher, ram), r.site, Redirection(r.isCall, dispatcher), k);
  }

  /**
    However many records are redirected one after the other, a record's site ends up
    holding its redirection exactly when the last window that meets it is the same
    redirection: a jump met later by another one, a few bytes away, does not reach
    the dispatcher.
   */
  lemma SiteRedirectedIff(ps: seq<JumpTarget>, r: JumpTarget, dispatcher: seq<byte>, ram: seq<byte>)
    requires |dispatcher| == 8 && Distinctive(dispatcher) && SitesFit(ps, |ram|) && r in ps
    ensures var l := LastToucher(ps, r.site);
            l.By? &&
            (Redirected(ps, dispatcher, ram)[r.site..r.site + PATCH_LEN] == Redirection(r.isCall, dispatcher)
             <==> SameRedirection(l.who, r))
  {
    var l := LastToucher(ps, r.site);
    assert Touches(r, r.site);
    if SameRedirection(l.who, r) {
      SameRedirectionHolds(ps, r, l.who, dispatcher, ram);
    } else {
      OtherRedirectionSpoils(ps, r, l.who, dispatcher, ram);
    }
  }

  /** Well-separated jumps are all redirected, whatever the dispatcher address. */
  lemma SeparatedSitesRedirected(ps: seq<JumpTarget>, r: JumpTarget, dispatcher: seq<byte>, ram: seq<byte>)
    requires |dispatcher| == 8 && SitesFit(ps, |ram|) && r in ps
    requires forall j :: j in ps && Touches(j, r.site) ==> SameRedirection(j, r)
    ensures Redirected(ps, dispatcher, ram)[r.site..r.site + PATCH_LEN] == Redirection(r.isCall, dispatcher)
  {
    assert Touches(r, r.site);
    SameRedirectionHolds(ps, r, LastToucher(ps, r.site).who, dispatcher, ram);
  }

  /** Two five-byte jumps side by side: redirecting the second takes the first away from the dispatcher. */
  lemma CloseJumpIsSpoiled(a: JumpTarget, b: JumpTarget, dispatcher: seq<byte>, ram: seq<byte>)
    requires a.target == b.target == 7 && a.site == 0 && b.site == 5 && a.isCall && b.isCall
    requires dispatcher == [1, 2, 3, 4, 5, 6, 7, 0] && |ram| == 19
    ensures SitesFit([a, b], |ram|) && Patched([a, b], 7, dispatcher, ram)[0..PATCH_LEN] != Redirection(true, dispatcher)
  {
    var once := PatchedBy(a, 7, dispatcher, ram);
    var js, rest := [a, b], [b];
    assert js[1..] == rest && rest[1..] == [];
    assert SitesFit(rest, |once|);
    assert Patched(rest, 7, dispatcher, once) == Patched([], 7, dispatcher, PatchedBy(b, 7, dispatcher, once));
    var twice := Patched(js, 7, dispatcher, ram);
    assert twice == PatchedBy(b, 7, dispatcher, once);
    assert twice[5] == 0xff;
    SliceDiffers(twice, 0, Redirection(true, dispatcher), 5);
  }

  /** The registered jumps, newest first, and the memory that holds the instructions. */
  class JumpList {
    var head: JumpTarget?
    const ram: array<byte>
    const dispatcher: seq<byte>
    ghost var list: seq<JumpTarget>

    /** s is a stretch of linked records, followed by `after`. */
    static ghost predicate Linked(s: seq<JumpTarget>, after: JumpTarget?)
      reads s
    {
      forall i {:trigger s[i].next} :: 0 <= i < |s| ==> s[i].next == (if i + 1 < |s| then s[i + 1] else after)
    }

    /** From position i on, s is linked up to the end of the list. */
    static ghost predicate LinkedFrom(s: seq<JumpTarget>, i: nat)
      reads s
    {
      forall k {:trigger s[k].next} :: i <= k < |s| ==> s[k].next == At(s, k + 1)
    }

    static ghost function At(s: seq<JumpTarget>, i: nat): JumpTarget? {
      if i < |s| then s[i] else null
    }

    ghost predicate Valid()
      reads this, list
    {
      && head == At(list, 0) && LinkedFrom(list, 0)
      && NoDup(list)
      && SitesFit(list, ram.Length)
      && |dispatcher| == 8
    }

    constructor (ram: array<byte>, dispatcher: seq<byte>)
      requires |dispatcher| == 8
      ensures Valid() && list == [] && this.ram == ram && this.dispatcher == dispatcher
    {
      this.ram, this.dispatcher := ram, dispatcher;
      head, list := null, [];
    }

    method Register(target: Addr, site: nat, isCall: bool, allocOk: bool)
      requires Valid() && site + PATCH_LEN <= ram.Length
      modifies this
      ensures Valid()
      ensures if allocOk
              then |list| == |old(list)| + 1 && list[1..] == old(list) && fresh(list[0]) &&
                   list[0].target == target && list[0].site == site && list[0].isCall == isCall
              else list == old(list)
    {
      if !allocOk {
        return;
      }
      var jt := new JumpTarget(target, site, isCall, head);
      head := jt;
      list := [jt] + list;
    }

    /** The walk of Patch stands at record i; the records in front of it that stay are `kept`. */
    ghost predicate Walking(prev: JumpTarget?, jt: JumpTarget?, kept: seq<JumpTarget>, i: nat)
      reads this, list
    {
      && i <= |list| && jt == At(list, i)
      && prev == (if kept == [] then null else kept[|kept| - 1])
      && head == (if kept == [] then jt else kept[0])
      && (forall k :: 0 <= k < |kept| ==> kept[k] in list)
      && NoDup(list) && NoDup(kept) && Linked(kept, jt) && LinkedFrom(list, i)
    }

    /** Redirects and forgets every jump to an evicted block. */
    method Patch(evicted: Addr)
      requires Valid()
      modifies this, list, ram
      ensures Valid()
      ensures list == Remaining(old(list), evicted)
      ensures SitesFit(old(list), ram.Length) && ram[..] == Patched(old(list), evicted, dispatcher, old(ram[..]))
    {
      hide PatchedBy;
      var jt: JumpTarget? := head;
      var prev: JumpTarget? := null;
      ghost var i := 0;
      assert list[0..] == list;
      while jt != null
        invariant list == old(list) && i <= |list| && Walking(prev, jt, Remaining(list[..i], evicted), i)
        invariant Patched(list[i..], evicted, dispatcher, ram[..]) == Patched(list, evicted, dispatcher, old(ram[..]))
        decreases |list| - i
      {
        PatchedNext(list, i, evicted, dispatcher, ram[..]);
        prev, jt := Step(prev, jt, i, evicted);
        i := i + 1;
      }
      assert list[..i] == list;
      list := Remaining(list, evicted);
    }

    method Step(prev: JumpTarget?, jt: JumpTarget, ghost i: nat, evicted: Addr) returns (prev': JumpTarget?, jt': JumpTarget?)
      requires i < |list| && Walking(prev, jt, Remaining(list[..i], evicted), i)
      requires SitesFit(list, ram.Length) && |dispatcher| == 8
      modifies this`head, list, ram
      ensures Walking(prev', jt', Remaining(list[..i + 1], evicted), i + 1)
      ensures ram[..] == PatchedBy(list[i], evicted, dispatcher, old(ram[..]))
    {
      hide Remaining, Redirection;
      ghost var kept := Remaining(list[..i], evicted);
      RemainingNext(list, i, evicted);
      if jt.target == evicted {
        WritePatch(jt.site, jt.isCall);
        assert kept + [] == kept;
        Unlink(prev, jt, kept, i);
        prev', jt' := prev, jt.next;
      } else {
        prev', jt' := jt, jt.next;
      }
    }

    /** Takes jt out of the list; prev is the record in front of it. */
    method Unlink(prev: JumpTarget?, jt: JumpTarget, ghost kept: seq<JumpTarget>, ghost i: nat)
      requires Walking(prev, jt, kept, i)
      requires forall k :: i <= k < |list| ==> list[k] !in kept
      modifies this`head, list
      ensures Walking(prev, jt.next, kept, i + 1)
    {
      if prev != null {
        assert prev in kept;
        prev.next := jt.next;
      } else {
        head := jt.next;
      }
    }

    method WritePatch(site: nat, isCall: bool)
      requires site + PATCH_LEN <= ram.Length && |dispatcher| == 8
      modifies ram
      ensures ram[..] == WriteAt(old(ram[..]), site, Redirection(isCall, dispatcher))
    {
      var opcode: seq<byte> := [0xff, if isCall then 0x15 else 0x25];
      StoreBytes(ram, site, opcode);
      StoreBytes(ram, site + 2, [0, 0, 0, 0]);
      StoreBytes(ram, site + 6, dispatcher);
      PatchInParts(old(ram[..]), site, isCall, dispatcher);
    }
  }

  lemma PatchInParts(ram: seq<byte>, site: nat, isCall: bool, dispatcher: seq<byte>)
    requires |dispatcher| == 8 && site + PATCH_LEN <= |ram|
    ensures WriteAt(WriteAt(WriteAt(ram, site, [0xff, if isCall then 0x15 else 0x25]), site + 2, [0, 0, 0, 0]), site + 6, dispatcher)
            == WriteAt(ram, site, Redirection(isCall, dispatcher))
  {
    var opcode: seq<byte> := [0xff, if isCall then 0x15 else 0x25];
    var disp: seq<byte> := [0, 0, 0, 0];
    WriteAtJoin(ram, site, opcode, disp);
    WriteAtJoin(ram, site, opcode + disp, dispatcher);
    assert opcode + disp + dispatcher == Redirection(isCall, dispatcher);
  }
}
