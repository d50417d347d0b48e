/** What every allocator operation does to each address, and what whole runs of operations keep. */
module SpaceLaws {
  import opened Words
  import opened Space

  // ---- sorting an ordered list with one more region ---------------------------------------

  predicate Ordered(rs: seq<Region>) {
    forall i, j :: 0 <= i < j < |rs| ==> rs[i].addr < rs[j].addr
  }

  lemma LayoutOrdered(rs: seq<Region>, lo: nat)
    requires Layout(rs, lo)
    ensures Ordered(rs)
  {
    LayoutMeans(rs, lo);
  }

  lemma {:induction false} InsertLast(rs: seq<Region>, r: Region)
    requires forall i :: 0 <= i < |rs| ==> rs[i].addr < r.addr
    ensures Insert(rs, r) == rs + [r]
  {
    if |rs| > 0 {
      InsertLast(rs[1..], r);
      assert [rs[0]] + (rs[1..] + [r]) == rs + [r];
    }
  }

  lemma {:induction false} SortOrdered(rs: seq<Region>)
    requires Ordered(rs)
    ensures Sort(rs) == rs
  {
    if |rs| > 0 {
      var k := |rs| - 1;
      SortOrdered(rs[..k]);
      InsertLast(rs[..k], rs[k]);
      assert rs[..k] + [rs[k]] == rs;
    }
  }

  lemma SortOneMore(rs: seq<Region>, r: Region)
    requires Ordered(rs)
    ensures Sort(rs + [r]) == Insert(rs, r)
  {
    SortOrdered(rs);
    assert (rs + [r])[..|rs|] == rs;
  }

  // ---- what a request asks for ---------------------------------------------------------------

  /** The page of x meets [addr, addr + size), counted in natural numbers. */
  ghost predicate Touches(addr: Word, size: Word, x: Word) {
    exists y: nat :: addr <= y < addr + size && SamePage(x, y)
  }

  predicate SamePage(x: nat, y: nat) { x / PAGE == y / PAGE }

  /** The end of the last page asked for. */
  function TrueEnd(addr: Word, size: Word): nat {
    if size == 0 then PageDown(addr) else (addr + size + (PAGE - 1)) / PAGE * PAGE
  }

  /** The end of the pages the allocator works on: it rounds the size without the start, in 64-bit arithmetic, and
      does nothing with a range that wraps. */
  function DoneEnd(addr: Word, size: Word): nat {
    if PageDown(addr) + PageUp(size) < B64 then PageDown(addr) + PageUp(size) else PageDown(addr)
  }

  lemma Asked(addr: Word, size: Word, x: Word)
    ensures Touches(addr, size, x) <==> PageDown(addr) <= x < TrueEnd(addr, size)
  {
    if PageDown(addr) <= x < TrueEnd(addr, size) {
      var y: nat := if x < addr then addr else if x < addr + size then x else addr + size - 1;
      assert SamePage(x, y);
    }
  }

  /** The allocator never works on a page that is not asked for; and it works on all of them if and only if the first
      and the last partial page fit in one, and the last page of the address space is not needed. */
  lemma DoneIsAsked(addr: Word, size: Word)
    ensures PageDown(addr) <= DoneEnd(addr, size) <= TrueEnd(addr, size)
    ensures PageDown(addr) + PageUp(size) >= B64 ==> TrueEnd(addr, size) >= B64
    ensures DoneEnd(addr, size) == TrueEnd(addr, size) <==>
      size == 0 || (addr % PAGE + (size - 1) % PAGE < PAGE && addr + size <= B64 - PAGE)
  {
    if size > 0 {
      var extra := if addr % PAGE + (size - 1) % PAGE < PAGE then 0 else PAGE;
      InPages(addr, size, extra);
      SizeInPages(size);
    }
  }

  lemma InPages(addr: Word, size: Word, extra: nat)
    requires size > 0 && extra == if addr % PAGE + (size - 1) % PAGE < PAGE then 0 else PAGE
    ensures TrueEnd(addr, size) == PageDown(addr) + PageDown(size - 1) + PAGE + extra
  {
  }

  lemma SizeInPages(size: Word)
    requires size > 0
    ensures PageUp(size) == if size <= B64 - PAGE then PageDown(size - 1) + PAGE else 0
  {
  }

  /** Nothing is mapped in [from, to). */
  ghost predicate NothingIn(rs: seq<Region>, from: nat, to: nat) {
    forall x: Word :: from <= x < to ==> Attr(rs, x).None?
  }

  // ---- mapping ---------------------------------------------------------------------------------

  predicate Apart(r: Region, s: Region) {
    r.addr + r.size <= s.addr || s.addr + s.size <= r.addr
  }

  lemma {:induction false} InsertKeeps(rs: seq<Region>, r: Region, lo: nat, x: Word)
    requires Layout(rs, lo) && Good(r) && lo <= r.addr && forall i :: 0 <= i < |rs| ==> Apart(rs[i], r)
    ensures Layout(Insert(rs, r), lo)
    ensures Attr(Insert(rs, r), x) == if Contains(r, x) then Some((r.prot, r.desc)) else Attr(rs, x)
  {
    if |rs| > 0 {
      assert Apart(rs[0], r);
      if r.addr < rs[0].addr {
        assert ([r] + rs)[1..] == rs;
      } else {
        var tail := rs[1..];
        forall i | 0 <= i < |tail| ensures Apart(tail[i], r) {
          assert tail[i] == rs[i + 1];
        }
        InsertKeeps(tail, r, rs[0].addr + rs[0].size, x);
        assert ([rs[0]] + Insert(tail, r))[1..] == Insert(tail, r);
      }
    }
  }

  /** A fixed mapping is refused if and only if its size rounds up to nothing, or it meets a mapped address of the
      pages the allocator works on, or it wraps around a gap inside a region. */
  lemma MapRefused(rs: seq<Region>, addr: Word, size: Word, prot: int, desc: string)
    requires Layout(rs, 0)
    ensures Mapped(rs, addr, size, prot, desc).None? <==>
      size == 0 || size > B64 - PAGE
      || (WrappedEnd(addr, size) < 0 && !NothingIn(rs, PageDown(addr), DoneEnd(addr, size)))
      || (WrappedEnd(addr, size) >= 0 && Spanned(rs, PageDown(addr), WrappedEnd(addr, size)))
  {
    EmptySizes(size);
    if PageUp(size) == 0 {
      return;
    } else if WrappedEnd(addr, size) < 0 {
      OverlapsWithin(rs, PageDown(addr), PageUp(size));
    } else {
      OverlapsWrapped(rs, PageDown(addr), PageUp(size));
    }
  }

  ghost predicate AnyOverlaps(rs: seq<Region>, a: Word, n: Word) {
    exists i :: 0 <= i < |rs| && Overlaps(rs[i], a, n)
  }

  lemma OverlapsWithin(rs: seq<Region>, a: Word, n: Word)
    requires Layout(rs, 0) && a + n < B64 && 0 < n
    ensures AnyOverlaps(rs, a, n) <==> !NothingIn(rs, a, a + n)
  {
    LayoutMeans(rs, 0);
    if AnyOverlaps(rs, a, n) {
      var i :| 0 <= i < |rs| && Overlaps(rs[i], a, n);
      OverlapIs(rs[i], a, n);
      InRegion(rs, i, if rs[i].addr < a then a else rs[i].addr);
    }
    if !NothingIn(rs, a, a + n) {
      var x: Word :| a <= x < a + n && Attr(rs, x).Some?;
      var i := AttrRegion(rs, x);
      OverlapIs(rs[i], a, n);
    }
  }

  lemma OverlapIs(r: Region, a: Word, n: Word)
    requires Good(r) && a + n < B64
    ensures Overlaps(r, a, n) <==> a < r.addr + r.size && r.addr < a + n
  {
    EndIs(r);
  }

  lemma OverlapsWrapped(rs: seq<Region>, a: Word, n: Word)
    requires Layout(rs, 0) && a + n >= B64
    ensures AnyOverlaps(rs, a, n) <==> Spanned(rs, a, a + n - B64)
  {
    LayoutMeans(rs, 0);
    assert forall i :: 0 <= i < |rs| ==> (Overlaps(rs[i], a, n) <==> Spans(rs[i], a, a + n - B64));
  }

  /** A mapping refused although it is not empty, and not too large to round up, asks for a mapped page. */
  lemma RefusedMeets(rs: seq<Region>, addr: Word, size: Word, prot: int, desc: string) returns (x: Word)
    requires Layout(rs, 0) && 0 < size <= B64 - PAGE && Mapped(rs, addr, size, prot, desc).None?
    ensures Touches(addr, size, x) && Attr(rs, x).Some?
  {
    MapRefused(rs, addr, size, prot, desc);
    DoneIsAsked(addr, size);
    if WrappedEnd(addr, size) < 0 {
      x :| PageDown(addr) <= x < DoneEnd(addr, size) && Attr(rs, x).Some?;
    } else {
      var i :| 0 <= i < |rs| && Spans(rs[i], PageDown(addr), WrappedEnd(addr, size));
      x := PageDown(addr);
      InRegion(rs, i, x);
    }
    Asked(addr, size, x);
  }

  /** Otherwise it maps its pages, none of them mapped before, and changes no other. */
  lemma MapExact(rs: seq<Region>, addr: Word, size: Word, prot: int, desc: string, x: Word)
    requires Layout(rs, 0) && PageDown(addr) + PageUp(size) < B64 && Mapped(rs, addr, size, prot, desc).Some?
    ensures var a, n := PageDown(addr), PageUp(size);
      var out := Mapped(rs, addr, size, prot, desc).value;
      n > 0 && Layout(out, 0) && (a <= x < a + n ==> Attr(rs, x).None?)
      && Attr(out, x) == if a <= x < a + n then Some((prot, desc)) else Attr(rs, x)
  {
    var a, n := PageDown(addr), PageUp(size);
    Rounded(addr, size);
    var r := Region(a, n, prot, desc);
    NoOverlap(rs, r);
    LayoutOrdered(rs, 0);
    SortOneMore(rs, r);
    InsertKeeps(rs, r, 0, x);
    if Attr(rs, x).Some? {
      var i := AttrRegion(rs, x);
      assert Apart(rs[i], r);
    }
  }

  /** A mapping that is not refused keeps the layout if and only if its range does not wrap. */
  lemma MapKeepsIff(rs: seq<Region>, addr: Word, size: Word, prot: int, desc: string)
    requires Layout(rs, 0) && Mapped(rs, addr, size, prot, desc).Some?
    ensures Layout(Mapped(rs, addr, size, prot, desc).value, 0) <==> PageDown(addr) + PageUp(size) < B64
  {
    var r := Region(PageDown(addr), PageUp(size), prot, desc);
    if PageDown(addr) + PageUp(size) < B64 {
      MapExact(rs, addr, size, prot, desc, 0);
    } else {
      assert (rs + [r])[|rs|] == r;
      BadRegion(rs + [r], r);
    }
  }

  /** Address x gets what is mapped if its page is asked for, where nothing was, and keeps what it had otherwise. */
  ghost predicate TakenAt(rs: seq<Region>, out: seq<Region>, addr: Word, size: Word, prot: int, desc: string, x: Word) {
    if Touches(addr, size, x) then Attr(rs, x).None? && Attr(out, x) == Some((prot, desc))
    else Attr(out, x) == Attr(rs, x)
  }

  ghost predicate TakesExactly(rs: seq<Region>, out: seq<Region>, addr: Word, size: Word, prot: int, desc: string) {
    forall x: Word :: TakenAt(rs, out, addr, size, prot, desc, x)
  }

  /** A mapping that is not refused maps exactly the pages asked for, none of them mapped before, if and only if it
      works on all of them or, when the range wraps, nothing is mapped from its start on. */
  lemma MapExactIff(rs: seq<Region>, addr: Word, size: Word, prot: int, desc: string)
    requires Layout(rs, 0) && Mapped(rs, addr, size, prot, desc).Some?
    ensures TakesExactly(rs, Mapped(rs, addr, size, prot, desc).value, addr, size, prot, desc) <==>
      if WrappedEnd(addr, size) < 0 then DoneEnd(addr, size) == TrueEnd(addr, size)
      else NothingIn(rs, PageDown(addr), B64)
  {
    if WrappedEnd(addr, size) < 0 {
      MapWithin(rs, addr, size, prot, desc);
    } else {
      MapWraps(rs, addr, size, prot, desc);
    }
  }

  lemma MapWithin(rs: seq<Region>, addr: Word, size: Word, prot: int, desc: string)
    requires Layout(rs, 0) && Mapped(rs, addr, size, prot, desc).Some? && WrappedEnd(addr, size) < 0
    ensures TakesExactly(rs, Mapped(rs, addr, size, prot, desc).value, addr, size, prot, desc) <==>
      DoneEnd(addr, size) == TrueEnd(addr, size)
  {
    var out, end := Mapped(rs, addr, size, prot, desc).value, DoneEnd(addr, size);
    DoneIsAsked(addr, size);
    if end == TrueEnd(addr, size) {
      forall x: Word ensures TakenAt(rs, out, addr, size, prot, desc, x) {
        MapExact(rs, addr, size, prot, desc, x);
        Asked(addr, size, x);
      }
    } else {
      MapExact(rs, addr, size, prot, desc, end);
      Asked(addr, size, end);
      assert !TakenAt(rs, out, addr, size, prot, desc, end);
    }
  }

  lemma MapWraps(rs: seq<Region>, addr: Word, size: Word, prot: int, desc: string)
    requires Layout(rs, 0) && Mapped(rs, addr, size, prot, desc).Some? && WrappedEnd(addr, size) >= 0
    ensures TakesExactly(rs, Mapped(rs, addr, size, prot, desc).value, addr, size, prot, desc) <==>
      NothingIn(rs, PageDown(addr), B64)
  {
    var r, out := Region(PageDown(addr), PageUp(size), prot, desc), Mapped(rs, addr, size, prot, desc).value;
    DoneIsAsked(addr, size);
    LayoutOrdered(rs, 0);
    SortOneMore(rs, r);
    forall x: Word ensures Touches(addr, size, x) <==> Contains(r, x) {
      Asked(addr, size, x);
    }
    if NothingIn(rs, r.addr, B64) {
      forall x: Word ensures TakenAt(rs, out, addr, size, prot, desc, x) {
        LastTaken(rs, r, x);
      }
    } else {
      var x: Word :| x >= r.addr && Attr(rs, x).Some?;
      assert !TakenAt(rs, out, addr, size, prot, desc, x);
    }
  }

  lemma LastTaken(rs: seq<Region>, r: Region, x: Word)
    requires Layout(rs, 0) && NothingIn(rs, r.addr, B64)
    ensures Contains(r, x) ==> Attr(rs, x).None?
    ensures Attr(Insert(rs, r), x) == if Contains(r, x) then Some((r.prot, r.desc)) else Attr(rs, x)
  {
    LayoutMeans(rs, 0);
    forall i | 0 <= i < |rs| ensures rs[i].addr < r.addr {
      InRegion(rs, i, rs[i].addr);
    }
    InsertLast(rs, r);
    AttrConcat(rs, [r], x);
  }

  /** For instance, [0x1800, 0x2800) meets two pages, of which one is mapped. */
  lemma MapMisses(prot: int, desc: string)
    ensures Touches(0x1800, 0x1000, 0x2400)
    ensures Mapped([], 0x1800, 0x1000, prot, desc) == Some([Region(0x1000, 0x1000, prot, desc)])
  {
    Asked(0x1800, 0x1000, 0x2400);
    SortOne(Region(0x1000, 0x1000, prot, desc));
    assert [] + [Region(0x1000, 0x1000, prot, desc)] == [Region(0x1000, 0x1000, prot, desc)];
  }

  /** A sorted table is no layout if one of its regions is empty, unaligned or wraps. */
  lemma BadRegion(rs: seq<Region>, r: Region)
    requires r in rs && !Good(r)
    ensures !Layout(Sort(rs), 0)
  {
    SortHas(rs, r);
    if Layout(Sort(rs), 0) {
      LayoutMeans(Sort(rs), 0);
    }
  }

  lemma NoOverlap(rs: seq<Region>, r: Region)
    requires Layout(rs, 0) && Good(r) && forall i :: 0 <= i < |rs| ==> !Overlaps(rs[i], r.addr, r.size)
    ensures forall i :: 0 <= i < |rs| ==> Apart(rs[i], r)
  {
    LayoutMeans(rs, 0);
    forall i | 0 <= i < |rs| ensures Apart(rs[i], r) {
      assert !Overlaps(rs[i], r.addr, r.size);
      EndIs(rs[i]);
      EndIs(r);
    }
  }

  lemma {:induction false} InRegion(rs: seq<Region>, i: nat, x: Word)
    requires i < |rs| && Contains(rs[i], x)
    ensures Attr(rs, x).Some?
  {
    if i > 0 && !Contains(rs[0], x) {
      InRegion(rs[1..], i - 1, x);
    }
  }

  lemma {:induction false} AttrRegion(rs: seq<Region>, x: Word) returns (i: nat)
    requires Attr(rs, x).Some?
    ensures i < |rs| && Contains(rs[i], x) && Attr(rs, x) == Some((rs[i].prot, rs[i].desc))
  {
    if Contains(rs[0], x) {
      i := 0;
    } else {
      i := AttrRegion(rs[1..], x);
      i := i + 1;
    }
  }

  // ---- unmapping ---------------------------------------------------------------------------------

  /** What is left of a region below addr, and from end on. */
  function HeadOf(r: Region, addr: Word): Region
    requires r.addr < addr
  {
    Region(r.addr, addr - r.addr, r.prot, r.desc)
  }

  function TailOf(r: Region, end: Word): Region
    requires Good(r) && end < r.addr + r.size
  {
    Region(end, r.addr + r.size - end, r.prot, r.desc)
  }

  lemma EndsGood(r: Region, addr: Word, end: Word)
    requires Good(r) && addr % PAGE == 0 && end % PAGE == 0
    ensures r.addr < addr < r.addr + r.size ==> Good(HeadOf(r, addr))
    ensures r.addr < end < r.addr + r.size ==> Good(TailOf(r, end))
  {
    PagesApart(addr, r.addr);
    PagesApart(r.addr + r.size, end);
  }

  lemma PagesApart(hi: int, lo: int)
    requires hi % PAGE == 0 && lo % PAGE == 0
    ensures (hi - lo) % PAGE == 0
  {
    assert hi - lo == PAGE * (hi / PAGE - lo / PAGE);
  }

  lemma PiecesExact(r: Region, addr: Word, end: Word, x: Word)
    requires Good(r) && addr % PAGE == 0 && end % PAGE == 0 && addr <= end
    ensures Layout(Pieces(r, addr, end), r.addr)
    ensures EndBy(Pieces(r, addr, end), r.addr + r.size)
    ensures Attr(Pieces(r, addr, end), x)
      == if Contains(r, x) && !(addr <= x < end) then Some((r.prot, r.desc)) else None
  {
    EndIs(r);
    if addr < End(r) && end > r.addr {
      var h, t := if r.addr < addr then [Region(r.addr, addr - r.addr, r.prot, r.desc)] else [],
                  if end < End(r) then [Region(end, End(r) - end, r.prot, r.desc)] else [];
      AttrConcat(h, t, x);
      assert Attr(h, x) == if r.addr <= x < addr && r.addr < addr then Some((r.prot, r.desc)) else None;
      assert Attr(t, x) == if end <= x < End(r) then Some((r.prot, r.desc)) else None;
      PiecesLaid(r, h, t, addr, end);
    }
  }

  lemma PiecesLaid(r: Region, h: seq<Region>, t: seq<Region>, addr: Word, end: Word)
    requires Good(r) && addr % PAGE == 0 && end % PAGE == 0 && r.addr < end && addr < End(r) && addr <= end
    requires h == if r.addr < addr then [Region(r.addr, addr - r.addr, r.prot, r.desc)] else []
    requires t == if end < End(r) then [Region(end, End(r) - end, r.prot, r.desc)] else []
    ensures Layout(h + t, r.addr) && EndBy(h + t, r.addr + r.size)
  {
    EndIs(r);
    EndsGood(r, addr, end);
    var mid := if r.addr < addr then addr else r.addr;
    assert Layout(h, r.addr) && EndBy(h, mid) && Layout(t, mid) && EndBy(t, r.addr + r.size);
    LayoutConcat(h, t, r.addr, mid);
  }

  predicate EndBy(rs: seq<Region>, hi: nat) {
    forall i :: 0 <= i < |rs| ==> rs[i].addr + rs[i].size <= hi
  }

  lemma {:induction false} LayoutConcat(a: seq<Region>, b: seq<Region>, lo: nat, mid: nat)
    requires Layout(a, lo) && EndBy(a, mid) && Layout(b, mid) && lo <= mid
    ensures Layout(a + b, lo)
  {
    if |a| == 0 {
      assert a + b == b;
      LayoutFrom(b, mid, lo);
    } else {
      var t := a[1..];
      assert EndBy(t, mid) by {
        forall i | 0 <= i < |t| ensures t[i].addr + t[i].size <= mid {
          assert t[i] == a[i + 1];
        }
      }
      LayoutConcat(t, b, a[0].addr + a[0].size, mid);
      assert (a + b)[1..] == t + b;
    }
  }

  lemma LayoutFrom(rs: seq<Region>, lo: nat, lower: nat)
    requires Layout(rs, lo) && lower <= lo
    ensures Layout(rs, lower)
  {
  }

  lemma LayoutSplit(rs: seq<Region>, lo: nat)
    requires Layout(rs, lo) && |rs| > 0
    ensures var k := |rs| - 1;
      Layout(rs[..k], lo) && EndBy(rs[..k], rs[k].addr) && Good(rs[k]) && lo <= rs[k].addr
  {
    var k := |rs| - 1;
    LayoutMeans(rs, lo);
    FromPairs(rs[..k], lo);
  }

  lemma {:induction false} FromPairs(rs: seq<Region>, lo: nat)
    requires forall i :: 0 <= i < |rs| ==> Good(rs[i]) && lo <= rs[i].addr
    requires forall i, j :: 0 <= i < j < |rs| ==> rs[i].addr + rs[i].size <= rs[j].addr
    ensures Layout(rs, lo)
  {
    if |rs| > 0 {
      FromPairs(rs[1..], rs[0].addr + rs[0].size);
    }
  }

  /** out is a layout up to hi, without the range and unchanged at any x outside it. */
  ghost predicate Releases(rs: seq<Region>, out: seq<Region>, addr: Word, end: Word, x: Word, hi: nat) {
    Layout(out, 0) && EndBy(out, hi) && Attr(out, x) == if addr <= x < end then None else Attr(rs, x)
  }

  lemma {:induction false} ReleasedExact(rs: seq<Region>, addr: Word, end: Word, x: Word, hi: nat)
    requires Layout(rs, 0) && EndBy(rs, hi) && addr % PAGE == 0 && end % PAGE == 0 && addr <= end
    ensures Releases(rs, Released(rs, addr, end), addr, end, x, hi)
    decreases |rs|, 0
  {
    if |rs| > 0 {
      var k := |rs| - 1;
      LayoutSplit(rs, 0);
      ReleasedMore(rs[..k], rs[k], addr, end, x, hi);
      assert rs[..k] + [rs[k]] == rs;
    }
  }

  lemma ReleasedMore(below: seq<Region>, r: Region, addr: Word, end: Word, x: Word, hi: nat)
    requires Layout(below, 0) && EndBy(below, r.addr) && Good(r) && r.addr + r.size <= hi
    requires addr % PAGE == 0 && end % PAGE == 0 && addr <= end
    ensures Releases(below + [r], Released(below, addr, end) + Pieces(r, addr, end), addr, end, x, hi)
    decreases |below|, 1
  {
    ReleasedExact(below, addr, end, x, r.addr);
    PiecesExact(r, addr, end, x);
    ReleasedLast(below, r, Released(below, addr, end), Pieces(r, addr, end), addr, end, x, hi);
  }

  lemma ReleasedLast(below: seq<Region>, r: Region, out: seq<Region>, pieces: seq<Region>, addr: Word, end: Word,
      x: Word, hi: nat)
    requires EndBy(below, r.addr) && r.addr + r.size <= hi
    requires Releases(below, out, addr, end, x, r.addr)
    requires Good(r) && Layout(pieces, r.addr) && EndBy(pieces, r.addr + r.size)
    requires Attr(pieces, x) == if Contains(r, x) && !(addr <= x < end) then Some((r.prot, r.desc)) else None
    ensures Releases(below + [r], out + pieces, addr, end, x, hi)
  {
    LayoutConcat(out, pieces, 0, r.addr);
    AttrConcat(out, pieces, x);
    AttrConcat(below, [r], x);
    NoneBelow(below, r.addr, x);
  }

  lemma {:induction false} NoneBelow(rs: seq<Region>, hi: nat, x: Word)
    requires EndBy(rs, hi)
    ensures x >= hi ==> Attr(rs, x).None?
  {
    if |rs| > 0 {
      assert rs[0].addr + rs[0].size <= hi;
      forall i | 0 <= i < |rs| - 1 ensures rs[1..][i].addr + rs[1..][i].size <= hi {
        assert rs[1..][i] == rs[i + 1];
      }
      NoneBelow(rs[1..], hi, x);
    }
  }

  /** Unmapping removes exactly the pages of its range: every other address keeps its protection, through splits. */
  lemma UnmapExact(rs: seq<Region>, addr: Word, size: Word, x: Word)
    requires Layout(rs, 0) && PageDown(addr) + PageUp(size) < B64
    ensures var a, n := PageDown(addr), PageUp(size);
      var out := Unmapped(rs, addr, size);
      Layout(out, 0) && Attr(out, x) == if a <= x < a + n then None else Attr(rs, x)
  {
    var a, n := PageDown(addr), PageUp(size);
    var end := Sum(a, n);
    Rounded(addr, size);
    AllEndBy(rs);
    ReleasedExact(rs, a, end, x, B64);
    LayoutOrdered(Released(rs, a, end), 0);
    SortOrdered(Released(rs, a, end));
  }

  /** The region reaches from below end up to beyond addr, where end < addr. */
  predicate Spans(r: Region, addr: Word, end: nat) {
    r.addr < end && addr < r.addr + r.size
  }

  predicate Spanned(rs: seq<Region>, addr: Word, end: nat) {
    exists i :: 0 <= i < |rs| && Spans(rs[i], addr, end)
  }

  lemma Untouched(r: Region, addr: Word, end: Word)
    requires Good(r) && end < addr && !Spans(r, addr, end)
    ensures Pieces(r, addr, end) == [r]
  {
    EndIs(r);
  }

  ghost predicate AllUntouched(rs: seq<Region>, addr: Word, end: Word) {
    forall i :: 0 <= i < |rs| ==> Pieces(rs[i], addr, end) == [rs[i]]
  }

  lemma {:induction false} AllStay(rs: seq<Region>, addr: Word, end: Word)
    requires AllUntouched(rs, addr, end)
    ensures Released(rs, addr, end) == rs
  {
    if |rs| > 0 {
      var below, r := rs[..|rs| - 1], rs[|rs| - 1];
      assert Pieces(r, addr, end) == [r];
      AllStay(below, addr, end);
      LastBack(rs);
    }
  }

  lemma LastBack(rs: seq<Region>)
    requires |rs| > 0
    ensures rs[..|rs| - 1] + [rs[|rs| - 1]] == rs
  {
  }

  lemma NothingReleased(rs: seq<Region>, addr: Word, end: Word)
    requires (forall i :: 0 <= i < |rs| ==> Good(rs[i])) && end < addr && !Spanned(rs, addr, end)
    ensures Released(rs, addr, end) == rs
  {
    forall i | 0 <= i < |rs| ensures Pieces(rs[i], addr, end) == [rs[i]] {
      assert !Spans(rs[i], addr, end);
      Untouched(rs[i], addr, end);
    }
    AllStay(rs, addr, end);
  }

  lemma {:induction false} PiecesIn(rs: seq<Region>, addr: Word, end: Word, i: nat, p: Region, n: nat)
    requires i < n <= |rs| && p in Pieces(rs[i], addr, end)
    ensures p in Released(rs[..n], addr, end)
  {
    ReleasedNext(rs, n - 1, addr, end);
    if i < n - 1 {
      PiecesIn(rs, addr, end, i, p, n - 1);
    }
    InEither(Released(rs[..n - 1], addr, end), Pieces(rs[n - 1], addr, end), p);
  }

  lemma InEither(a: seq<Region>, b: seq<Region>, p: Region)
    requires p in a || p in b
    ensures p in a + b
  {
  }

  lemma PieceStays(rs: seq<Region>, addr: Word, end: Word, i: nat, p: Region)
    requires i < |rs| && p in Pieces(rs[i], addr, end)
    ensures p in Sort(Released(rs, addr, end))
  {
    PiecesIn(rs, addr, end, i, p, |rs|);
    assert rs[..|rs|] == rs;
    SortHas(Released(rs, addr, end), p);
  }

  /** A region that a wrapped range spans is left as two regions that overlap. */
  lemma SpannedOverlaps(rs: seq<Region>, addr: Word, end: Word, i: nat)
    requires i < |rs| && Good(rs[i]) && end < addr && Spans(rs[i], addr, end)
    ensures HeadOf(rs[i], addr) in Sort(Released(rs, addr, end)) && TailOf(rs[i], end) in Sort(Released(rs, addr, end))
    ensures HeadOf(rs[i], addr) != TailOf(rs[i], end) && !Apart(HeadOf(rs[i], addr), TailOf(rs[i], end))
  {
    SpannedPieces(rs[i], addr, end);
    PieceStays(rs, addr, end, i, HeadOf(rs[i], addr));
    PieceStays(rs, addr, end, i, TailOf(rs[i], end));
  }

  lemma SpannedPieces(r: Region, addr: Word, end: Word)
    requires Good(r) && end < addr && Spans(r, addr, end)
    ensures Pieces(r, addr, end) == [HeadOf(r, addr), TailOf(r, end)]
    ensures HeadOf(r, addr) != TailOf(r, end) && !Apart(HeadOf(r, addr), TailOf(r, end))
  {
    EndIs(r);
    assert [HeadOf(r, addr)] + [TailOf(r, end)] == [HeadOf(r, addr), TailOf(r, end)];
  }

  lemma LayoutApart(rs: seq<Region>, p: Region, q: Region)
    requires Layout(rs, 0) && p in rs && q in rs && p != q
    ensures Apart(p, q)
  {
    LayoutMeans(rs, 0);
    var i :| 0 <= i < |rs| && rs[i] == p;
    var j :| 0 <= j < |rs| && rs[j] == q;
  }

  lemma SpannedBreaks(rs: seq<Region>, addr: Word, end: Word, i: nat)
    requires i < |rs| && Good(rs[i]) && end < addr && Spans(rs[i], addr, end)
    ensures !Layout(Sort(Released(rs, addr, end)), 0)
  {
    SpannedOverlaps(rs, addr, end, i);
    NoLayout(Sort(Released(rs, addr, end)), HeadOf(rs[i], addr), TailOf(rs[i], end));
  }

  lemma NoLayout(rs: seq<Region>, p: Region, q: Region)
    requires p in rs && q in rs && p != q && !Apart(p, q)
    ensures !Layout(rs, 0)
  {
    if Layout(rs, 0) {
      LayoutApart(rs, p, q);
    }
  }

  /** Where a range that wraps comes to an end. */
  function WrappedEnd(addr: Word, size: Word): int {
    PageDown(addr) + PageUp(size) - B64
  }

  /** Unmapping a range that wraps either changes nothing or, when a region spans the gap, leaves overlapping
      regions. */
  lemma UnmapWraps(rs: seq<Region>, addr: Word, size: Word)
    requires Layout(rs, 0) && WrappedEnd(addr, size) >= 0
    ensures Layout(Unmapped(rs, addr, size), 0) <==> !Spanned(rs, PageDown(addr), WrappedEnd(addr, size))
    ensures !Spanned(rs, PageDown(addr), WrappedEnd(addr, size)) ==> Unmapped(rs, addr, size) == rs
  {
    var a: Word, e: Word := PageDown(addr), WrappedEnd(addr, size);
    assert Sum(a, PageUp(size)) == e < a;
    LayoutMeans(rs, 0);
    if Spanned(rs, a, e) {
      var i :| 0 <= i < |rs| && Spans(rs[i], a, e);
      SpannedBreaks(rs, a, e, i);
    } else {
      NothingReleased(rs, a, e);
      LayoutOrdered(rs, 0);
      SortOrdered(rs);
    }
  }

  /** Any unmapping keeps the layout if and only if its range does not wrap or no region spans the gap. */
  lemma UnmapKeepsIff(rs: seq<Region>, addr: Word, size: Word)
    requires Layout(rs, 0)
    ensures Layout(Unmapped(rs, addr, size), 0) <==>
      WrappedEnd(addr, size) < 0 || !Spanned(rs, PageDown(addr), WrappedEnd(addr, size))
  {
    if WrappedEnd(addr, size) < 0 {
      UnmapExact(rs, addr, size, 0);
    } else {
      UnmapWraps(rs, addr, size);
    }
  }

  /** Address x is released if its page is asked for, and keeps what it had otherwise. */
  ghost predicate ReleasedAt(rs: seq<Region>, out: seq<Region>, addr: Word, size: Word, x: Word) {
    Attr(out, x) == if Touches(addr, size, x) then None else Attr(rs, x)
  }

  ghost predicate ReleasesExactly(rs: seq<Region>, out: seq<Region>, addr: Word, size: Word) {
    forall x: Word :: ReleasedAt(rs, out, addr, size, x)
  }

  /** Unmapping releases exactly the pages asked for if and only if nothing is mapped on those it does not work on. */
  lemma UnmapExactIff(rs: seq<Region>, addr: Word, size: Word)
    requires Layout(rs, 0)
    ensures ReleasesExactly(rs, Unmapped(rs, addr, size), addr, size) <==>
      NothingIn(rs, DoneEnd(addr, size), TrueEnd(addr, size))
  {
    var out, a := Unmapped(rs, addr, size), PageDown(addr);
    DoneIsAsked(addr, size);
    forall x: Word ensures Touches(addr, size, x) <==> a <= x < TrueEnd(addr, size) {
      Asked(addr, size, x);
    }
    if WrappedEnd(addr, size) < 0 {
      forall x: Word ensures Attr(out, x) == if a <= x < DoneEnd(addr, size) then None else Attr(rs, x) {
        UnmapExact(rs, addr, size, x);
      }
      assert forall x: Word :: ReleasedAt(rs, out, addr, size, x) <==>
        (DoneEnd(addr, size) <= x < TrueEnd(addr, size) ==> Attr(rs, x).None?);
    } else if Spanned(rs, a, WrappedEnd(addr, size)) {
      SpannedStays(rs, addr, size);
      assert !ReleasedAt(rs, out, addr, size, a);
    } else {
      UnmapWraps(rs, addr, size);
      assert forall x: Word :: ReleasedAt(rs, out, addr, size, x) <==> (x >= a ==> Attr(rs, x).None?);
    }
  }

  /** For instance, [0x1800, 0x2800) meets two pages, of which one is released. */
  lemma UnmapMisses(prot: int, desc: string)
    ensures Touches(0x1800, 0x1000, 0x2400)
    ensures Unmapped([Region(0x1000, 0x3000, prot, desc)], 0x1800, 0x1000) == [Region(0x2000, 0x2000, prot, desc)]
  {
    Asked(0x1800, 0x1000, 0x2400);
    assert PageDown(0x1800) == 0x1000 && PageUp(0x1000) == 0x1000 && Sum(0x1000, 0x1000) == 0x2000;
    HeadReleased(Region(0x1000, 0x3000, prot, desc), 0x2000);
  }

  lemma HeadReleased(r: Region, end: Word)
    requires Good(r) && r.addr < end < r.addr + r.size
    ensures Sort(Released([r], r.addr, end)) == [TailOf(r, end)]
  {
    HeadPieces(r, end);
    ReleasedOne(r, r.addr, end);
    SortOne(TailOf(r, end));
  }

  lemma HeadPieces(r: Region, end: Word)
    requires Good(r) && r.addr < end < r.addr + r.size
    ensures Pieces(r, r.addr, end) == [TailOf(r, end)]
  {
    EndIs(r);
    assert [] + [TailOf(r, end)] == [TailOf(r, end)];
  }

  lemma SortOne(r: Region)
    ensures Sort([r]) == [r]
  {
    SortOrdered([r]);
  }

  /** And asking for the whole address space releases nothing, from any layout. */
  lemma UnmapAll(rs: seq<Region>, x: Word)
    requires Layout(rs, 0)
    ensures Touches(0, B64 - 1, x) && Unmapped(rs, 0, B64 - 1) == rs
  {
    Asked(0, B64 - 1, x);
    EmptySizes(B64 - 1);
    AllOutside(rs);
    AllStay(rs, 0, 0);
    LayoutOrdered(rs, 0);
    SortOrdered(rs);
    assert PageDown(0) == 0 && PageUp(B64 - 1) == 0;
  }

  lemma AllOutside(rs: seq<Region>)
    ensures AllUntouched(rs, 0, 0)
  {
  }

  /** A spanned start address is mapped before and after. */
  lemma SpannedStays(rs: seq<Region>, addr: Word, size: Word)
    requires Layout(rs, 0) && WrappedEnd(addr, size) >= 0 && Spanned(rs, PageDown(addr), WrappedEnd(addr, size))
    ensures Attr(rs, PageDown(addr)).Some? && Attr(Unmapped(rs, addr, size), PageDown(addr)).Some?
  {
    var a: Word, e: Word := PageDown(addr), WrappedEnd(addr, size);
    assert Sum(a, PageUp(size)) == e < a;
    LayoutMeans(rs, 0);
    var i :| 0 <= i < |rs| && Spans(rs[i], a, e);
    InRegion(rs, i, a);
    SpannedOverlaps(rs, a, e, i);
    var out := Unmapped(rs, addr, size);
    var j :| 0 <= j < |out| && out[j] == TailOf(rs[i], e);
    InRegion(out, j, a);
  }

  /** An unmapping of positive size that leaves two overlapping regions of one. */
  lemma UnmapOverlaps(prot: int, desc: string)
    ensures Unmapped([Region(0x2000, 0x6000, prot, desc)], 0x5000, B64 - 0x2000) ==
      [Region(0x2000, 0x3000, prot, desc), Region(0x3000, 0x5000, prot, desc)]
  {
    var r := Region(0x2000, 0x6000, prot, desc);
    assert PageDown(0x5000) == 0x5000 && PageUp(B64 - 0x2000) == B64 - 0x2000 && Sum(0x5000, B64 - 0x2000) == 0x3000;
    SpannedAlone(r, 0x5000, 0x3000);
  }

  lemma SpannedAlone(r: Region, addr: Word, end: Word)
    requires Good(r) && end < addr && Spans(r, addr, end)
    ensures Sort(Released([r], addr, end)) == [HeadOf(r, addr), TailOf(r, end)]
  {
    SpannedPieces(r, addr, end);
    ReleasedOne(r, addr, end);
    SortPair(HeadOf(r, addr), TailOf(r, end));
  }

  lemma SortPair(p: Region, q: Region)
    requires p.addr < q.addr
    ensures Sort([p, q]) == [p, q]
  {
    SortOrdered([p, q]);
  }

  lemma ReleasedOne(r: Region, addr: Word, end: Word)
    ensures Released([r], addr, end) == Pieces(r, addr, end)
  {
    assert [r][..0] == [] && Released([], addr, end) == [];
    assert [] + Pieces(r, addr, end) == Pieces(r, addr, end);
  }

  lemma Rounded(addr: Word, size: Word)
    ensures PageDown(addr) % PAGE == 0 && PageUp(size) % PAGE == 0
    ensures PageDown(addr) + PageUp(size) < B64 ==>
      Sum(PageDown(addr), PageUp(size)) == PageDown(addr) + PageUp(size) && (PageDown(addr) + PageUp(size)) % PAGE == 0
  {
    var x, y := addr / PAGE, (size + (PAGE - 1)) % B64 / PAGE;
    assert PageDown(addr) == PAGE * x && PageUp(size) == PAGE * y;
  }

  lemma AllEndBy(rs: seq<Region>)
    requires Layout(rs, 0)
    ensures EndBy(rs, B64)
  {
    LayoutMeans(rs, 0);
  }

  // ---- protecting ----------------------------------------------------------------------------------

  /** A region of which protecting a range takes hold: it lies wholly inside, and the range does not wrap. */
  predicate Caught(r: Region, a: nat, end: nat) {
    end < B64 && a <= r.addr && r.addr + r.size <= end
  }

  /** A region that has a page asked for and is not caught. */
  predicate Straddles(r: Region, addr: Word, size: Word) {
    var a := PageDown(addr);
    a < TrueEnd(addr, size) && r.addr < TrueEnd(addr, size) && a < r.addr + r.size
      && !Caught(r, a, a + PageUp(size))
  }

  lemma ReprotectedSame(rs: seq<Region>, addr: Word, size: Word, prot: int)
    ensures var out := Protected(rs, addr, size, prot);
      forall i :: 0 <= i < |rs| ==> out[i].addr == rs[i].addr && out[i].size == rs[i].size && out[i].desc == rs[i].desc
  {
  }

  /** Protecting changes no region's place, so it keeps any layout. */
  lemma ProtectKeeps(rs: seq<Region>, addr: Word, size: Word, prot: int)
    requires Layout(rs, 0)
    ensures Layout(Protected(rs, addr, size, prot), 0)
  {
    LayoutMeans(rs, 0);
    ReprotectedSame(rs, addr, size, prot);
    FromPairs(Protected(rs, addr, size, prot), 0);
  }

  /** In a layout the region holding an address is the one that decides it. */
  lemma AttrAt(rs: seq<Region>, i: nat, x: Word)
    requires Layout(rs, 0) && i < |rs| && Contains(rs[i], x)
    ensures Attr(rs, x) == Some((rs[i].prot, rs[i].desc))
  {
    InRegion(rs, i, x);
    var j := AttrRegion(rs, x);
    LayoutMeans(rs, 0);
    assert i == j;
  }

  /** Protecting gives the new protection to the addresses of the regions that lie wholly inside a range that does
      not wrap, and to no other. */
  lemma ProtectExact(rs: seq<Region>, addr: Word, size: Word, prot: int, i: nat, x: Word)
    requires Layout(rs, 0) && i < |rs| && Contains(rs[i], x)
    ensures var a, n := PageDown(addr), PageUp(size);
      Attr(Protected(rs, addr, size, prot), x)
        == Some((if Caught(rs[i], a, a + n) then prot else rs[i].prot, rs[i].desc))
  {
    ProtectKeeps(rs, addr, size, prot);
    ReprotectedSame(rs, addr, size, prot);
    LayoutMeans(rs, 0);
    EndIs(rs[i]);
    AttrAt(Protected(rs, addr, size, prot), i, x);
  }

  /** Address x has the protection if it is mapped and its page is asked for, and keeps what it had otherwise. */
  ghost predicate ReprotectedAt(rs: seq<Region>, out: seq<Region>, addr: Word, size: Word, prot: int, x: Word) {
    Attr(out, x) == if Touches(addr, size, x) && Attr(rs, x).Some? then Some((prot, Attr(rs, x).value.1))
                    else Attr(rs, x)
  }

  ghost predicate ReprotectsExactly(rs: seq<Region>, out: seq<Region>, addr: Word, size: Word, prot: int) {
    forall x: Word :: ReprotectedAt(rs, out, addr, size, prot, x)
  }

  ghost predicate EdgesHave(rs: seq<Region>, addr: Word, size: Word, prot: int) {
    forall i :: 0 <= i < |rs| && Straddles(rs[i], addr, size) ==> rs[i].prot == prot
  }

  /** So exactly the pages asked for get the protection if and only if every region that has one of them and is not
      caught had it already. */
  lemma ProtectWhole(rs: seq<Region>, addr: Word, size: Word, prot: int)
    requires Layout(rs, 0)
    ensures ReprotectsExactly(rs, Protected(rs, addr, size, prot), addr, size, prot) <==>
      EdgesHave(rs, addr, size, prot)
  {
    var out := Protected(rs, addr, size, prot);
    if EdgesHave(rs, addr, size, prot) {
      forall x: Word ensures ReprotectedAt(rs, out, addr, size, prot, x) {
        EdgesSuffice(rs, addr, size, prot, x);
      }
    }
    if ReprotectsExactly(rs, out, addr, size, prot) {
      forall i | 0 <= i < |rs| && Straddles(rs[i], addr, size) ensures rs[i].prot == prot {
        EdgeNeeded(rs, addr, size, prot, i);
      }
    }
  }

  lemma EdgesSuffice(rs: seq<Region>, addr: Word, size: Word, prot: int, x: Word)
    requires Layout(rs, 0) && EdgesHave(rs, addr, size, prot)
    ensures ReprotectedAt(rs, Protected(rs, addr, size, prot), addr, size, prot, x)
  {
    var out := Protected(rs, addr, size, prot);
    ReprotectedSame(rs, addr, size, prot);
    Asked(addr, size, x);
    DoneIsAsked(addr, size);
    if Attr(rs, x).Some? {
      var i := AttrRegion(rs, x);
      ProtectExact(rs, addr, size, prot, i, x);
      assert Straddles(rs[i], addr, size) ==> rs[i].prot == prot;
    } else if Attr(out, x).Some? {
      var i := AttrRegion(out, x);
      InRegion(rs, i, x);
    }
  }

  lemma EdgeNeeded(rs: seq<Region>, addr: Word, size: Word, prot: int, i: nat)
    requires Layout(rs, 0) && i < |rs| && Straddles(rs[i], addr, size)
    requires ReprotectsExactly(rs, Protected(rs, addr, size, prot), addr, size, prot)
    ensures rs[i].prot == prot
  {
    var x: Word := if rs[i].addr < PageDown(addr) then PageDown(addr) else rs[i].addr;
    LayoutMeans(rs, 0);
    assert Contains(rs[i], x);
    AttrAt(rs, i, x);
    Asked(addr, size, x);
    ProtectExact(rs, addr, size, prot, i, x);
    assert ReprotectedAt(rs, Protected(rs, addr, size, prot), addr, size, prot, x);
  }

  /** Nor is the second of two pages that [0x1800, 0x2800) meets, even as a region of its own. */
  lemma ProtectMissesPage(prot: int)
    ensures Touches(0x1800, 0x1000, 0x2400)
    ensures Protected([Region(0x1000, 0x1000, 3, "low"), Region(0x2000, 0x1000, 3, "high")], 0x1800, 0x1000, prot)
      == [Region(0x1000, 0x1000, prot, "low"), Region(0x2000, 0x1000, 3, "high")]
  {
    Asked(0x1800, 0x1000, 0x2400);
  }

  /** One page in the middle of a larger region is not reprotected at all. */
  lemma ProtectMisses()
    ensures Protected([Region(0x1000, 0x3000, 3, "heap")], 0x2000, 0x1000, 1) == [Region(0x1000, 0x3000, 3, "heap")]
  {
  }

  // ---- runs ------------------------------------------------------------------------------------------

  datatype Op =
    | MapOp(addr: Word, size: Word, prot: int, desc: string)
    | MmapOp(size: Word, prot: int, desc: string)
    | MunmapOp(addr: Word, size: Word)
    | ProtectOp(addr: Word, size: Word, prot: int)

  datatype State = State(regions: seq<Region>, top: Word)

  function Do(op: Op, s: State): State {
    match op
    case MapOp(addr, size, prot, desc) =>
      var m := Mapped(s.regions, addr, size, prot, desc);
      if m.Some? then s.(regions := m.value) else s
    case MmapOp(size, prot, desc) =>
      State(Sort(s.regions + [Region(s.top, PageUp(size), prot, desc)]), Sum(s.top, PageUp(size)))
    case MunmapOp(addr, size) => s.(regions := Unmapped(s.regions, addr, size))
    case ProtectOp(addr, size, prot) => s.(regions := Protected(s.regions, addr, size, prot))
  }

  /** Fixed mappings that are not refused end at or below the cursor; anonymous ones are not empty and do not wrap;
      a range unmapped does not wrap around the gap inside a region. */
  predicate Legal(op: Op, s: State) {
    match op
    case MapOp(addr, size, prot, desc) =>
      Mapped(s.regions, addr, size, prot, desc).None? || PageDown(addr) + PageUp(size) <= s.top
    case MmapOp(size, _, _) => PageUp(size) > 0 && s.top + PageUp(size) < B64
    case MunmapOp(addr, size) => WrappedEnd(addr, size) < 0
      || !Spanned(s.regions, PageDown(addr), WrappedEnd(addr, size))
    case ProtectOp(_, _, _) => true
  }

  /** Sorted, page-aligned, disjoint regions below a page-aligned cursor. */
  predicate Sound(s: State) {
    Layout(s.regions, 0) && EndBy(s.regions, s.top) && s.top % PAGE == 0
  }

  lemma EndByAttr(rs: seq<Region>, hi: Word)
    requires Layout(rs, 0) && forall x: Word :: x >= hi ==> Attr(rs, x).None?
    ensures EndBy(rs, hi)
  {
    LayoutMeans(rs, 0);
    forall i | 0 <= i < |rs| ensures rs[i].addr + rs[i].size <= hi {
      var last: Word := rs[i].addr + rs[i].size - 1;
      InRegion(rs, i, last);
    }
  }

  lemma Above(s: State)
    requires EndBy(s.regions, s.top)
    ensures forall x: Word :: x >= s.top ==> Attr(s.regions, x).None?
  {
    forall x: Word ensures x >= s.top ==> Attr(s.regions, x).None? {
      NoneBelow(s.regions, s.top, x);
    }
  }

  lemma MapSound(s: State, addr: Word, size: Word, prot: int, desc: string)
    requires Sound(s) && PageDown(addr) + PageUp(size) <= s.top
    ensures Sound(Do(MapOp(addr, size, prot, desc), s))
  {
    var m := Mapped(s.regions, addr, size, prot, desc);
    if m.Some? {
      Above(s);
      forall x: Word ensures x >= s.top ==> Attr(m.value, x).None? {
        MapExact(s.regions, addr, size, prot, desc, x);
      }
      MapExact(s.regions, addr, size, prot, desc, 0);
      EndByAttr(m.value, s.top);
    }
  }

  lemma MunmapSound(s: State, addr: Word, size: Word)
    requires Sound(s) && Legal(MunmapOp(addr, size), s)
    ensures Sound(Do(MunmapOp(addr, size), s))
  {
    var out := Unmapped(s.regions, addr, size);
    if WrappedEnd(addr, size) >= 0 {
      UnmapWraps(s.regions, addr, size);
      return;
    }
    Above(s);
    forall x: Word ensures x >= s.top ==> Attr(out, x).None? {
      UnmapExact(s.regions, addr, size, x);
    }
    UnmapExact(s.regions, addr, size, 0);
    EndByAttr(out, s.top);
  }

  /** An anonymous mapping starts at the cursor and changes nothing below it. */
  lemma MmapExact(s: State, size: Word, prot: int, desc: string, x: Word)
    requires Sound(s) && PageUp(size) > 0 && s.top + PageUp(size) < B64
    ensures var t := Do(MmapOp(size, prot, desc), s);
      Sound(t) && t.top == s.top + PageUp(size)
      && Attr(t.regions, x) == if s.top <= x < t.top then Some((prot, desc)) else Attr(s.regions, x)
  {
    var r := Region(s.top, PageUp(size), prot, desc);
    var t := Do(MmapOp(size, prot, desc), s);
    AtCursor(s, size, r);
    InsertKeeps(s.regions, r, 0, x);
    Above(s);
    forall y: Word ensures y >= t.top ==> Attr(t.regions, y).None? {
      InsertKeeps(s.regions, r, 0, y);
    }
    EndByAttr(t.regions, t.top);
  }

  lemma AtCursor(s: State, size: Word, r: Region)
    requires Sound(s) && PageUp(size) > 0 && s.top + PageUp(size) < B64 && r.addr == s.top && r.size == PageUp(size)
    ensures Sort(s.regions + [r]) == Insert(s.regions, r) && Good(r)
      && forall i :: 0 <= i < |s.regions| ==> Apart(s.regions[i], r)
    ensures Sum(s.top, PageUp(size)) == s.top + PageUp(size) && (s.top + PageUp(size)) % PAGE == 0
  {
    Rounded(0, size);
    LayoutOrdered(s.regions, 0);
    SortOneMore(s.regions, r);
  }

  lemma ProtectSound(s: State, addr: Word, size: Word, prot: int)
    requires Sound(s)
    ensures Sound(Do(ProtectOp(addr, size, prot), s))
  {
    ProtectKeeps(s.regions, addr, size, prot);
    ReprotectedSame(s.regions, addr, size, prot);
  }

  lemma DoKeeps(op: Op, s: State)
    requires Sound(s) && Legal(op, s)
    ensures Sound(Do(op, s)) && s.top <= Do(op, s).top && (op.MmapOp? ==> s.top < Do(op, s).top)
  {
    match op
    case MapOp(addr, size, prot, desc) =>
      if Mapped(s.regions, addr, size, prot, desc).Some? {
        MapSound(s, addr, size, prot, desc);
      }
    case MmapOp(size, prot, desc) => MmapExact(s, size, prot, desc, 0);
    case MunmapOp(addr, size) => MunmapSound(s, addr, size);
    case ProtectOp(addr, size, prot) => ProtectSound(s, addr, size, prot);
  }

  /** An operation that is not legal breaks the layout, or reaches above the cursor. */
  lemma IllegalBreaks(op: Op, s: State)
    requires Sound(s) && !Legal(op, s)
    ensures !Sound(Do(op, s))
  {
    match op
    case MapOp(addr, size, prot, desc) =>
      var r := Region(PageDown(addr), PageUp(size), prot, desc);
      assert (s.regions + [r])[|s.regions|] == r;
      SortHas(s.regions + [r], r);
      MapKeepsIff(s.regions, addr, size, prot, desc);
    case MmapOp(size, prot, desc) =>
      var r := Region(s.top, PageUp(size), prot, desc);
      assert (s.regions + [r])[|s.regions|] == r;
      BadRegion(s.regions + [r], r);
    case MunmapOp(addr, size) =>
      UnmapWraps(s.regions, addr, size);
    case ProtectOp(_, _, _) =>
  }

  /** The legal operations are exactly those that keep a sound allocator sound. */
  lemma SoundIff(op: Op, s: State)
    requires Sound(s)
    ensures Sound(Do(op, s)) <==> Legal(op, s)
  {
    if Legal(op, s) {
      DoKeeps(op, s);
    } else {
      IllegalBreaks(op, s);
    }
  }

  function After(ops: seq<Op>, s: State): State {
    if |ops| == 0 then s else After(ops[1..], Do(ops[0], s))
  }

  predicate AllLegal(ops: seq<Op>, s: State) {
    |ops| == 0 || (Legal(ops[0], s) && AllLegal(ops[1..], Do(ops[0], s)))
  }

  /** The addresses that the anonymous mappings of a run returned, in order. */
  function Given(ops: seq<Op>, s: State): seq<Word> {
    if |ops| == 0 then [] else (if ops[0].MmapOp? then [s.top] else []) + Given(ops[1..], Do(ops[0], s))
  }

  /** Every legal run keeps the layout sound and never hands out an address twice: results only grow, whatever is
      unmapped. */
  lemma {:induction false} Runs(ops: seq<Op>, s: State)
    requires Sound(s) && AllLegal(ops, s)
    ensures Sound(After(ops, s)) && s.top <= After(ops, s).top
    ensures forall i :: 0 <= i < |Given(ops, s)| ==> s.top <= Given(ops, s)[i]
    ensures forall i, j :: 0 <= i < j < |Given(ops, s)| ==> Given(ops, s)[i] < Given(ops, s)[j]
    decreases |ops|
  {
    if |ops| > 0 {
      DoKeeps(ops[0], s);
      Runs(ops[1..], Do(ops[0], s));
    }
  }

  /** So does every legal run of a new allocator. */
  lemma NewRuns(ops: seq<Op>)
    requires AllLegal(ops, State([], MMAP_BASE))
    ensures Sound(After(ops, State([], MMAP_BASE)))
    ensures var given := Given(ops, State([], MMAP_BASE));
      forall i, j :: 0 <= i < j < |given| ==> MMAP_BASE <= given[i] < given[j]
  {
    Runs(ops, State([], MMAP_BASE));
  }

  /** Sizes that round up to nothing. */
  lemma EmptySizes(size: Word)
    ensures PageUp(size) == 0 <==> size == 0 || size > B64 - PAGE
  {
  }

  /** An anonymous mapping leaves the cursor where it was if and only if its size rounds up to nothing. It then
      leaves an empty region, and the next one gets the same address. */
  lemma EmptyMmapRepeats(s: State, size: Word, prot: int, desc: string, next: Op)
    requires next.MmapOp?
    ensures var t := Do(MmapOp(size, prot, desc), s);
      (t.top == s.top <==> PageUp(size) == 0)
      && (PageUp(size) == 0 ==> !Sound(t) && Given([MmapOp(size, prot, desc), next], s) == [s.top, s.top])
  {
    var op := MmapOp(size, prot, desc);
    var t, r := Do(op, s), Region(s.top, PageUp(size), prot, desc);
    if PageUp(size) == 0 {
      assert (s.regions + [r])[|s.regions|] == r;
      BadRegion(s.regions + [r], r);
      assert [op, next][1..] == [next] && [next][1..] == [];
      assert Given([next], t) == [t.top] + Given([], Do(next, t));
    }
  }
}
