/** The three-level radix page table behind guest memory. */
module PageTables {
  const FANOUT := 4096
  const VPN_LIMIT := 0x10_0000_0000  // 2^36 pages: a 48-bit address space

  /** A handle to an object the guest memory owns; NIL is no object. */
  type Ptr = nat
  const NIL: Ptr := 0

  type Level3 = array?<Ptr>
  type Level2 = array?<array?<Ptr>>

  class PageTable {
    var l1: seq<array?<array?<Ptr>>>
    ghost var pages: map<nat, Ptr>           // the table read as a plain map
    ghost var tables2: map<Level2, nat>       // each level-2 table, with its only position
    ghost var tables3: map<Level3, nat>       // each level-3 table, with its only position
    ghost var Repr: set<object?>

    ghost predicate Shape()
      reads this, Repr
    {
      && this in Repr && null !in Repr && tables2.Keys <= Repr && tables3.Keys <= Repr
      && |l1| == FANOUT
      && (forall i :: 0 <= i < FANOUT && l1[i] != null ==> l1[i] in tables2 && tables2[l1[i]] == i)
      && (forall t :: t in tables2 ==> t != null && t.Length == FANOUT)
      && (forall t :: t in tables3 ==> t != null && t.Length == FANOUT)
      && (forall t, j :: t in tables2 && 0 <= j < FANOUT && t[j] != null ==>
            t[j] in tables3 && tables3[t[j]] == tables2[t] * FANOUT + j)
    }

    function Walk(vpn: nat): (p: Ptr)
      requires Shape()
      reads this, Repr
    {
      if vpn >= VPN_LIMIT then NIL else
      var t2 := l1[vpn / 0x100_0000];
      if t2 == null then NIL else
      var t3 := t2[vpn / FANOUT % FANOUT];
      if t3 == null then NIL else t3[vpn % FANOUT]
    }

    ghost predicate Valid()
      reads this, Repr
    {
      && Shape()
      && (forall v: nat :: v in pages ==> v < VPN_LIMIT && pages[v] != NIL)
      && (forall v: nat {:trigger Walk(v)} :: v < VPN_LIMIT ==> Walk(v) == if v in pages then pages[v] else NIL)
    }

    constructor ()
      ensures Valid() && pages == map[]
      ensures fresh(Repr)
    {
      l1 := seq(FANOUT, _ => null);
      pages, tables2, tables3, Repr := map[], map[], map[], {this};
    }

    function Lookup(vpn: nat): (p: Ptr)
      requires Valid()
      reads this, Repr
      ensures p == if vpn in pages then pages[vpn] else NIL
    {
      Walk(vpn)
    }

    /** Allocates an empty level-2 table at position i1. */
    method AddLevel2(i1: nat)
      requires Valid() && i1 < FANOUT && l1[i1] == null
      modifies Repr
      ensures Valid() && pages == old(pages)
      ensures fresh(Repr - old(Repr))
      ensures l1[i1] != null && forall j :: 0 <= j < FANOUT ==> l1[i1][j] == null
    {
      var t2 := new array?<Ptr>[FANOUT](_ => null);
      l1 := l1[i1 := t2];
      tables2, Repr := tables2[t2 := i1], Repr + {t2};
      assert Shape();
      forall v: nat | v < VPN_LIMIT
        ensures Walk(v) == if v in pages then pages[v] else NIL
      {
        assert v / 0x100_0000 != i1 ==> Walk(v) == old(Walk(v));
        assert v / 0x100_0000 == i1 ==> old(Walk(v)) == NIL == Walk(v);
      }
    }

    /** Allocates an empty level-3 table at position i2 of the level-2 table at i1. */
    method AddLevel3(i1: nat, i2: nat)
      requires Valid() && i1 < FANOUT && i2 < FANOUT && l1[i1] != null && l1[i1][i2] == null
      modifies Repr
      ensures Valid() && pages == old(pages) && l1 == old(l1)
      ensures fresh(Repr - old(Repr))
      ensures l1[i1][i2] != null
    {
      var t3 := new Ptr[FANOUT](_ => NIL);
      var t2 := l1[i1];
      t2[i2] := t3;
      tables3, Repr := tables3[t3 := i1 * FANOUT + i2], Repr + {t3};
      assert Shape();
      forall v: nat | v < VPN_LIMIT
        ensures Walk(v) == if v in pages then pages[v] else NIL
      {
        if v / 0x100_0000 == i1 && v / FANOUT % FANOUT == i2 {
          assert old(Walk(v)) == NIL == Walk(v);
        } else {
          assert Walk(v) == old(Walk(v));
        }
      }
    }

    /** Overwrites the slot of an existing level-3 table. */
    method Store(vpn: nat, p: Ptr)
      requires Valid() && vpn < VPN_LIMIT
      requires l1[vpn / 0x100_0000] != null && l1[vpn / 0x100_0000][vpn / FANOUT % FANOUT] != null
      modifies Repr
      ensures Valid() && Repr == old(Repr)
      ensures pages == if p == NIL then old(pages) - {vpn} else old(pages)[vpn := p]
    {
      var t2 := l1[vpn / 0x100_0000];
      var t3 := t2[vpn / FANOUT % FANOUT];
      t3[vpn % FANOUT] := p;
      pages := if p == NIL then pages - {vpn} else pages[vpn := p];
      forall v: nat | v < VPN_LIMIT
        ensures Walk(v) == if v in pages then pages[v] else NIL
      {
        if v != vpn {
          if v / 0x100_0000 == vpn / 0x100_0000 && v / FANOUT % FANOUT == vpn / FANOUT % FANOUT
            && v % FANOUT == vpn % FANOUT {
            SamePath(v, vpn);
          }
          assert Walk(v) == old(Walk(v));
        }
      }
    }

    /** A missing level-2 table holds no page. */
    lemma EmptyLevel2(i1: nat)
      requires Valid() && i1 < FANOUT && l1[i1] == null
      ensures forall v :: v in pages ==> v / 0x100_0000 != i1
    {
      forall v | v in pages ensures v / 0x100_0000 != i1 {
        assert Walk(v) == pages[v];
      }
    }

    /** A missing level-3 table holds no page. */
    lemma EmptyLevel3(i1: nat, i2: nat)
      requires Valid() && i1 < FANOUT && i2 < FANOUT && l1[i1] != null && l1[i1][i2] == null
      ensures forall v :: v in pages ==> v / FANOUT != i1 * FANOUT + i2
    {
      forall v | v in pages ensures v / FANOUT != i1 * FANOUT + i2 {
        assert Walk(v) == pages[v];
      }
    }

    /** The slot of a level-3 table is the page its three indices name. */
    lemma SlotIsPage(i1: nat, i2: nat, i3: nat)
      requires Valid() && i1 < FANOUT && i2 < FANOUT && i3 < FANOUT && l1[i1] != null && l1[i1][i2] != null
      ensures var v := i1 * 0x100_0000 + i2 * FANOUT + i3;
        l1[i1][i2][i3] == if v in pages then pages[v] else NIL
    {
      var v := i1 * 0x100_0000 + i2 * FANOUT + i3;
      assert v / 0x100_0000 == i1 && v / FANOUT % FANOUT == i2 && v % FANOUT == i3;
      assert Walk(v) == l1[i1][i2][i3];
    }

    /** The three indices determine the page number. */
    static lemma SamePath(v: nat, w: nat)
      requires v / 0x100_0000 == w / 0x100_0000 && v / FANOUT % FANOUT == w / FANOUT % FANOUT
        && v % FANOUT == w % FANOUT
      ensures v == w
    {
    }

    /** Installs p at vpn, allocating intermediate tables only when there is a page to hold. */
    method SetPage(vpn: nat, p: Ptr)
      requires Valid() && vpn < VPN_LIMIT
      modifies Repr
      ensures Valid()
      ensures pages == if p == NIL then old(pages) - {vpn} else old(pages)[vpn := p]
      ensures fresh(Repr - old(Repr))
    {
      var i1, i2 := vpn / 0x100_0000, vpn / FANOUT % FANOUT;
      if l1[i1] == null {
        if p == NIL {
          assert Walk(vpn) == NIL;
          return;
        }
        AddLevel2(i1);
      }
      if l1[i1][i2] == null {
        if p == NIL {
          assert Walk(vpn) == NIL;
          return;
        }
        AddLevel3(i1, i2);
      }
      Store(vpn, p);
    }
  }
}
