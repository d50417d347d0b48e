/** The region allocator of the guest address space: ranges with protections, in 64-bit arithmetic. */
module Space {
  import opened Words

  const PAGE := 0x1000
  const MMAP_BASE := 0x4000_0000

  datatype Region = Region(addr: Word, size: Word, prot: int, desc: string)

  function End(r: Region): Word { (r.addr + r.size) % B64 }
  function PageDown(x: Word): Word { x - x % PAGE }
  function PageUp(x: Word): Word { PageDown((x + (PAGE - 1)) % B64) }
  function Sum(a: Word, b: Word): Word { (a + b) % B64 }

  // ---- the operations as functions ------------------------------------------------------

  function Insert(rs: seq<Region>, r: Region): seq<Region> {
    if |rs| == 0 then [r] else if r.addr < rs[0].addr then [r] + rs else [rs[0]] + Insert(rs[1..], r)
  }

  /** The regions ordered by address. */
  function Sort(rs: seq<Region>): seq<Region> {
    if |rs| == 0 then [] else Insert(Sort(rs[..|rs| - 1]), rs[|rs| - 1])
  }

  predicate Overlaps(r: Region, addr: Word, size: Word) {
    addr < End(r) && r.addr < Sum(addr, size)
  }

  /** A fixed mapping, refused when it is empty or overlaps a region. */
  function Mapped(rs: seq<Region>, addr: Word, size: Word, prot: int, desc: string): Option<seq<Region>> {
    var a, n := PageDown(addr), PageUp(size);
    if n == 0 || exists i :: 0 <= i < |rs| && Overlaps(rs[i], a, n) then None
    else Some(Sort(rs + [Region(a, n, prot, desc)]))
  }

  /** What is left of a region when [addr, end) is released. */
  function Pieces(r: Region, addr: Word, end: Word): seq<Region> {
    if addr >= End(r) || end <= r.addr then [r]
    else (if r.addr < addr then [Region(r.addr, addr - r.addr, r.prot, r.desc)] else [])
         + if end < End(r) then [Region(end, End(r) - end, r.prot, r.desc)] else []
  }

  function Released(rs: seq<Region>, addr: Word, end: Word): seq<Region> {
    if |rs| == 0 then [] else Released(rs[..|rs| - 1], addr, end) + Pieces(rs[|rs| - 1], addr, end)
  }

  function Unmapped(rs: seq<Region>, addr: Word, size: Word): seq<Region> {
    Sort(Released(rs, PageDown(addr), Sum(PageDown(addr), PageUp(size))))
  }

  lemma ReleasedNext(rs: seq<Region>, i: nat, addr: Word, end: Word)
    requires i < |rs|
    ensures Released(rs[..i + 1], addr, end) == Released(rs[..i], addr, end) + Pieces(rs[i], addr, end)
  {
    assert rs[..i + 1][..i] == rs[..i];
  }

  predicate Covers(r: Region, addr: Word, end: Word) {
    r.addr >= addr && End(r) <= end
  }

  function Reprotected(r: Region, addr: Word, end: Word, prot: int): Region {
    if Covers(r, addr, end) then r.(prot := prot) else r
  }

  function Protected(rs: seq<Region>, addr: Word, size: Word, prot: int): (out: seq<Region>)
    ensures |out| == |rs|
  {
    var a := PageDown(addr);
    seq(|rs|, i requires 0 <= i < |rs| => Reprotected(rs[i], a, Sum(a, PageUp(size)), prot))
  }

  // ---- the allocator --------------------------------------------------------------------------

  class Allocator {
    var regions: seq<Region>
    var mmapTop: Word

    constructor ()
      ensures regions == [] && mmapTop == MMAP_BASE
    {
      regions, mmapTop := [], MMAP_BASE;
    }

    method Map(addr: Word, size: Word, prot: int, desc: string) returns (ok: bool)
      modifies this`regions
      ensures ok == Mapped(old(regions), addr, size, prot, desc).Some?
      ensures regions == if ok then Mapped(old(regions), addr, size, prot, desc).value else old(regions)
    {
      var a, n := PageDown(addr), PageUp(size);
      if n == 0 {
        return false;
      }
      for i := 0 to |regions|
        invariant forall j :: 0 <= j < i ==> !Overlaps(regions[j], a, n)
      {
        if Overlaps(regions[i], a, n) {
          return false;
        }
      }
      regions := Sort(regions + [Region(a, n, prot, desc)]);
      return true;
    }

    method Mmap(size: Word, prot: int, desc: string) returns (addr: Word)
      modifies this
      ensures addr == old(mmapTop) && mmapTop == Sum(addr, PageUp(size))
      ensures regions == Sort(old(regions) + [Region(addr, PageUp(size), prot, desc)])
    {
      addr := mmapTop;
      mmapTop := Sum(mmapTop, PageUp(size));
      regions := Sort(regions + [Region(addr, PageUp(size), prot, desc)]);
    }

    /** Appends what is left of a region: all of it, or its head and tail outside [a, end). */
    method Keep(kept: seq<Region>, r: Region, a: Word, end: Word) returns (out: seq<Region>)
      ensures out == kept + Pieces(r, a, end)
    {
      if a >= End(r) || end <= r.addr {
        return kept + [r];
      }
      out := kept;
      if r.addr < a {
        out := out + [Region(r.addr, a - r.addr, r.prot, r.desc)];
      }
      if end < End(r) {
        out := out + [Region(end, End(r) - end, r.prot, r.desc)];
      }
    }

    method Munmap(addr: Word, size: Word)
      modifies this`regions
      ensures regions == Unmapped(old(regions), addr, size)
    {
      var a := PageDown(addr);
      var end := Sum(a, PageUp(size));
      var out, rs := [], regions;
      for i := 0 to |rs|
        invariant out == Released(rs[..i], a, end)
      {
        ReleasedNext(rs, i, a, end);
        out := Keep(out, rs[i], a, end);
      }
      assert rs[..|rs|] == rs;
      regions := Sort(out);
    }

    method Protect(addr: Word, size: Word, prot: int) returns (ok: bool)
      modifies this`regions
      ensures regions == Protected(old(regions), addr, size, prot)
      ensures ok <==>
        exists i ::
          0 <= i < |old(regions)|
          && Covers(old(regions)[i], PageDown(addr), Sum(PageDown(addr), PageUp(size)))
    {
      var a := PageDown(addr);
      var end := Sum(a, PageUp(size));
      ok := false;
      for i := 0 to |regions|
        invariant |regions| == |old(regions)|
        invariant forall j :: 0 <= j < |regions| ==>
          regions[j] == if j < i then Reprotected(old(regions)[j], a, end, prot) else old(regions)[j]
        invariant ok <==> exists j :: 0 <= j < i && Covers(old(regions)[j], a, end)
      {
        if Covers(regions[i], a, end) {
          regions := regions[i := regions[i].(prot := prot)];
          ok := true;
        }
      }
    }

    /** Binary search for the first region that ends above addr. On an ordered table of disjoint regions it finds
        the region that contains addr, if there is one; on any table what it returns is a region around addr. */
    method Find(addr: Word) returns (r: Option<Region>)
      ensures r.Some? ==> r.value in regions && r.value.addr <= addr < End(r.value)
      ensures Layout(regions, 0) ==> (r.Some? <==> exists i :: 0 <= i < |regions| && Contains(regions[i], addr))
      ensures Layout(regions, 0) && r.Some? ==> Contains(r.value, addr)
    {
      var lo, hi := 0, |regions|;
      while lo < hi
        invariant 0 <= lo <= hi <= |regions| && (hi < |regions| ==> End(regions[hi]) > addr)
        invariant Layout(regions, 0) ==> Searched(regions, lo, hi, addr)
      {
        var mid := (lo + hi) / 2;
        if Layout(regions, 0) {
          SearchNext(regions, lo, hi, mid, addr);
        }
        if End(regions[mid]) > addr {
          hi := mid;
        } else {
          lo := mid + 1;
        }
      }
      if Layout(regions, 0) {
        SearchEnds(regions, lo, addr);
      }
      if lo < |regions| && regions[lo].addr <= addr {
        return Some(regions[lo]);
      }
      return None;
    }

    /** Replaces the table: the same regions, in the order of their addresses. */
    method SetLayout(rs: seq<Region>, top: Word)
      modifies this
      ensures ByAddress(regions) && multiset(regions) == multiset(rs) && mmapTop == top
    {
      SortSorts(rs);
      regions, mmapTop := Sort(rs), top;
    }
  }

  // ---- sorting --------------------------------------------------------------------------------------

  predicate ByAddress(rs: seq<Region>) {
    forall i, j :: 0 <= i < j < |rs| ==> rs[i].addr <= rs[j].addr
  }

  lemma {:induction false} InsertSorts(rs: seq<Region>, r: Region)
    requires ByAddress(rs)
    ensures ByAddress(Insert(rs, r)) && multiset(Insert(rs, r)) == multiset(rs) + multiset{r}
    ensures Insert(rs, r)[0] == r || (|rs| > 0 && Insert(rs, r)[0] == rs[0])
  {
    if |rs| > 0 {
      assert rs == [rs[0]] + rs[1..];
      if r.addr >= rs[0].addr {
        InsertSorts(rs[1..], r);
        FirstStays(rs[0], Insert(rs[1..], r), rs, r);
      }
    }
  }

  lemma FirstStays(f: Region, t: seq<Region>, rs: seq<Region>, r: Region)
    requires ByAddress(rs) && |rs| > 0 && f == rs[0] && f.addr <= r.addr
    requires ByAddress(t) && multiset(t) == multiset(rs[1..]) + multiset{r}
    ensures ByAddress([f] + t)
  {
    forall i | 0 <= i < |t| ensures f.addr <= t[i].addr {
      assert t[i] in multiset(t);
      if t[i] in rs[1..] {
        var j :| 0 <= j < |rs| - 1 && rs[1..][j] == t[i];
        assert rs[j + 1] == t[i];
      }
    }
  }

  /** Sorting gives the same regions in the order of their addresses. */
  lemma {:induction false} SortSorts(rs: seq<Region>)
    ensures ByAddress(Sort(rs)) && multiset(Sort(rs)) == multiset(rs)
  {
    if |rs| > 0 {
      var k := |rs| - 1;
      SortSorts(rs[..k]);
      InsertSorts(Sort(rs[..k]), rs[k]);
      assert rs == rs[..k] + [rs[k]];
    }
  }

  lemma SortHas(rs: seq<Region>, r: Region)
    ensures r in Sort(rs) <==> r in rs
  {
    SortSorts(rs);
    assert r in multiset(Sort(rs)) <==> r in multiset(rs);
  }

  // ---- what a layout is ---------------------------------------------------------------------------

  predicate Good(r: Region) {
    r.addr % PAGE == 0 && r.size % PAGE == 0 && r.size > 0 && r.addr + r.size < B64
  }

  /** Non-empty page-aligned regions, in order, none overlapping the next, all from lo on. */
  predicate Layout(rs: seq<Region>, lo: nat) {
    |rs| == 0 || (Good(rs[0]) && lo <= rs[0].addr && Layout(rs[1..], rs[0].addr + rs[0].size))
  }

  predicate Contains(r: Region, x: Word) {
    r.addr <= x < r.addr + r.size
  }

  /** Any two regions are apart. */
  lemma {:induction false} LayoutMeans(rs: seq<Region>, lo: nat)
    requires Layout(rs, lo)
    ensures forall i :: 0 <= i < |rs| ==> Good(rs[i]) && lo <= rs[i].addr
    ensures forall i, j :: 0 <= i < j < |rs| ==> rs[i].addr + rs[i].size <= rs[j].addr
  {
    if |rs| > 0 {
      LayoutMeans(rs[1..], rs[0].addr + rs[0].size);
      forall i | 0 <= i < |rs| ensures Good(rs[i]) && lo <= rs[i].addr {
        assert i > 0 ==> rs[i] == rs[1..][i - 1];
      }
      forall i, j | 0 <= i < j < |rs| ensures rs[i].addr + rs[i].size <= rs[j].addr {
        assert rs[j] == rs[1..][j - 1];
        assert i > 0 ==> rs[i] == rs[1..][i - 1];
      }
    }
  }

  lemma EndIs(r: Region)
    requires Good(r)
    ensures End(r) == r.addr + r.size > r.addr
  {
  }

  /** Regions before lo end at or below addr, those from hi on above it. */
  predicate Searched(rs: seq<Region>, lo: nat, hi: nat, addr: Word) {
    (forall i :: 0 <= i < lo < |rs| + 1 ==> i < |rs| && rs[i].addr + rs[i].size <= addr)
    && (forall i :: hi <= i < |rs| ==> rs[i].addr + rs[i].size > addr)
  }

  lemma SearchNext(rs: seq<Region>, lo: nat, hi: nat, mid: nat, addr: Word)
    requires Layout(rs, 0) && lo <= mid < hi <= |rs| && Searched(rs, lo, hi, addr)
    ensures if End(rs[mid]) > addr then Searched(rs, lo, mid, addr) else Searched(rs, mid + 1, hi, addr)
  {
    LayoutMeans(rs, 0);
    EndIs(rs[mid]);
  }

  lemma SearchEnds(rs: seq<Region>, lo: nat, addr: Word)
    requires Layout(rs, 0) && lo <= |rs| && Searched(rs, lo, lo, addr)
    ensures (lo < |rs| && rs[lo].addr <= addr) <==> exists i :: 0 <= i < |rs| && Contains(rs[i], addr)
    ensures lo < |rs| && rs[lo].addr <= addr ==> Contains(rs[lo], addr)
  {
    LayoutMeans(rs, 0);
    if lo < |rs| && rs[lo].addr <= addr {
      assert Contains(rs[lo], addr);
    }
    forall i | 0 <= i < |rs| && Contains(rs[i], addr) ensures lo < |rs| && rs[lo].addr <= addr {
      assert i >= lo;
    }
  }

  /** What a page is: its protection and name, if some region has it. */
  function Attr(rs: seq<Region>, x: Word): Option<(int, string)> {
    if |rs| == 0 then None else if Contains(rs[0], x) then Some((rs[0].prot, rs[0].desc)) else Attr(rs[1..], x)
  }

  lemma {:induction false} AttrConcat(a: seq<Region>, b: seq<Region>, x: Word)
    ensures Attr(a + b, x) == if Attr(a, x).Some? then Attr(a, x) else Attr(b, x)
  {
    if |a| == 0 {
      assert a + b == b;
    } else {
      AttrConcat(a[1..], b, x);
      assert (a + b)[1..] == a[1..] + b;
    }
  }
}
