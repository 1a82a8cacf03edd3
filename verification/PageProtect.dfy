/** The page tracker: a fixed table of pages, searched and changed in place. */
module PageProtect {
  import opened Words
  import opened PageProtectSpec

  class PageProtector {
    const pages: array<Page>
    var count: nat

    ghost predicate InTable()
      reads this
    {
      pages.Length == TRACK_MAX && count <= TRACK_MAX
    }

    ghost function St(): seq<Page>
      requires InTable()
      reads this, pages
    {
      pages[..count]
    }

    constructor ()
      ensures InTable() && St() == [] && fresh(pages)
    {
      pages := new Page[TRACK_MAX](_ => Page(0, 0, false, 0));
      count := 0;
    }

    /** The place of a page in the table, or the number of pages. */
    method Find(p: u64) returns (i: nat)
      requires InTable()
      ensures i == IndexOf(St(), p) <= count
    {
      i := 0;
      while i < count && pages[i].addr != p
        invariant i <= count && forall k :: 0 <= k < i ==> pages[k].addr != p
      {
        i := i + 1;
      }
      IndexIs(St(), p, i);
    }

    method SetOne(p: u64, prot: byte)
      requires InTable() && count < TRACK_MAX
      modifies this, pages
      ensures InTable() && St() == SetPage(old(St()), p, prot)
    {
      var i := Find(p);
      if i < count {
        pages[i] := pages[i].(prot := prot);
      } else {
        pages[count] := Page(p, prot, true, 0);
        count := count + 1;
      }
    }

    method Add(addr: u64, size: u64, prot: byte) returns (rc: int)
      requires InTable()
      modifies this, pages
      ensures InTable() && (St(), rc) == PageProtectSpec.Add(old(St()), addr, size, prot)
    {
      if addr == 0 || size == 0 {
        return -1;
      }
      if count >= TRACK_MAX {
        return -1;
      }
      var start, end := PageOf(addr), EndOf(addr, size);
      ghost var s := St();
      assert PageProtectSpec.Add(s, addr, size, prot) == (AddPages(s, start, end, prot), 0);
      hide *;
      AddRange(start, end, prot);
      return 0;
    }

    /** Every page of the range, while there is room. */
    method AddRange(start: u64, end: u64, prot: byte)
      requires InTable()
      modifies this, pages
      ensures InTable() && St() == AddPages(old(St()), start, end, prot)
    {
      var p: int := start;
      ghost var s := St();
      hide PageOf, EndOf, SetPage, IndexOf;
      while p < end && count < TRACK_MAX
        invariant InTable() && 0 <= p
        invariant AddPages(St(), p, end, prot) == AddPages(s, start, end, prot)
        decreases end - p
      {
        SetOne(p, prot);
        p := p + PAGE;
      }
    }

    method Modify(addr: u64, prot: byte) returns (rc: int)
      requires InTable()
      modifies this, pages
      ensures InTable() && (St(), rc) == PageProtectSpec.Modify(old(St()), addr, prot)
    {
      hide PageOf, PageProtectSpec.Add;
      var page := PageOf(addr);
      var i := Find(page);
      if i < count {
        pages[i] := pages[i].(prot := prot);
        return 0;
      }
      rc := Add(page, PAGE, prot);
    }

    method Check(addr: u64, access: byte) returns (rc: int)
      requires InTable()
      ensures rc == PageProtectSpec.Check(St(), addr, access)
    {
      hide PageOf, Allows;
      var i := Find(PageOf(addr));
      if i < count && !Allows(pages[i].prot, access) {
        return -1;
      }
      return 0;
    }

    /** Scans the whole table; it stops early only at a page it lets through. */
    method HandleFault(addr: u64) returns (rc: int)
      requires InTable() && Valid(St())
      modifies pages
      ensures InTable() && (St(), rc) == Fault(old(St()), addr)
    {
      ghost var s := St();
      var page := PageOf(addr);
      ghost var place := IndexOf(s, page);
      hide PageOf, Readable, Writable, WithWrite;
      for i := 0 to count
        invariant InTable() && |St()| == |s|
        invariant St() == if place < i then Fault(s, addr).0 else s
        invariant place < i ==> Fault(s, addr).1 == -1
      {
        if pages[i].addr == page {
          var counted := pages[i].(faults := (pages[i].faults + 1) % TWO32);
          pages[i] := counted;
          assert St() == s[i := counted];
          if Readable(pages[i].prot) && !Writable(pages[i].prot) {
            pages[i] := counted.(prot := WithWrite(counted.prot));
            assert St() == s[i := counted.(prot := WithWrite(counted.prot))];
            return 0;
          }
        }
      }
      return -1;
    }
  }
}
