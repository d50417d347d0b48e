/** ZIP, UZP and TRN: lane permutes of two vector registers. */
module Permute {
  import opened Words
  import opened Lanes

  /** Reading and writing lanes of one width. */
  datatype Access = Access(get: (Vec, nat) -> nat, put: (Vec, nat, nat) -> Vec)

  /** The lanes of e bytes. */
  function Wide(e: nat): Access
    requires AccessSize(e)
  {
    Access((v: Vec, i: nat) => GetLane(v, e, i), (v: Vec, i: nat, x: nat) => SetLane(v, e, i, x))
  }

  /** A lane of n followed by m. */
  function Joined(o: Access, n: Vec, m: Vec, lanes: nat, idx: nat): nat {
    if idx >= lanes then o.get(m, idx - lanes) else o.get(n, idx)
  }

  /** part * lanes / 2. */
  function HalfFrom(lanes: nat, part: nat): nat {
    if part == 0 then 0 else lanes / 2
  }

  // ---- the first k iterations of each loop -------------------------------------------------

  function Uzp(o: Access, n: Vec, m: Vec, lanes: nat, part: nat, k: nat): Vec {
    if k == 0 then Vec(0, 0)
    else o.put(Uzp(o, n, m, lanes, part, k - 1), k - 1, Joined(o, n, m, lanes, 2 * (k - 1) + part))
  }

  function Trn(o: Access, n: Vec, m: Vec, part: nat, k: nat): Vec {
    if k == 0 then Vec(0, 0)
    else
      var l := k - 1;
      o.put(o.put(Trn(o, n, m, part, l), 2 * l, o.get(n, 2 * l + part)), 2 * l + 1, o.get(m, 2 * l + part))
  }

  function Zip(o: Access, n: Vec, m: Vec, base: nat, k: nat): Vec {
    if k == 0 then Vec(0, 0)
    else
      var l := k - 1;
      o.put(o.put(Zip(o, n, m, base, l), 2 * l, o.get(n, base + l)), 2 * l + 1, o.get(m, base + l))
  }

  /** The permutes: part 0 is the first form, part 1 the second. */
  function Uzps(o: Access, n: Vec, m: Vec, lanes: nat, part: nat): Vec { Uzp(o, n, m, lanes, part, lanes) }
  function Trns(o: Access, n: Vec, m: Vec, lanes: nat, part: nat): Vec { Trn(o, n, m, part, lanes / 2) }
  function Zips(o: Access, n: Vec, m: Vec, lanes: nat, part: nat): Vec {
    Zip(o, n, m, HalfFrom(lanes, part), lanes / 2)
  }

  /** The permute handler on its operands: kind 1 is UZP, 2 TRN, 3 ZIP. */
  method Permuted(o: Access, n: Vec, m: Vec, lanes: nat, part: nat, kind: nat) returns (out: Vec)
    requires 1 <= kind <= 3
    ensures out ==
      if kind == 1 then Uzps(o, n, m, lanes, part)
      else if kind == 2 then Trns(o, n, m, lanes, part)
      else Zips(o, n, m, lanes, part)
  {
    out := Vec(0, 0);
    if kind == 1 {
      for l := 0 to lanes
        invariant out == Uzp(o, n, m, lanes, part, l)
      {
        out := o.put(out, l, Joined(o, n, m, lanes, 2 * l + part));
      }
    } else if kind == 2 {
      for l := 0 to lanes / 2
        invariant out == Trn(o, n, m, part, l)
      {
        out := o.put(out, 2 * l, o.get(n, 2 * l + part));
        out := o.put(out, 2 * l + 1, o.get(m, 2 * l + part));
      }
    } else {
      var base := HalfFrom(lanes, part);
      for l := 0 to lanes / 2
        invariant out == Zip(o, n, m, base, l)
      {
        out := o.put(out, 2 * l, o.get(n, base + l));
        out := o.put(out, 2 * l + 1, o.get(m, base + l));
      }
    }
  }

  // ---- their lanes ------------------------------------------------------------------------------

  /** Copying lane y of w to lane l of v changes only that lane, among the first total. */
  ghost predicate Copies(o: Access, v: Vec, l: nat, w: Vec, y: nat, x: nat) {
    o.get(o.put(v, l, o.get(w, y)), x) == if x == l then o.get(w, y) else o.get(v, x)
  }

  ghost predicate Laws(o: Access, total: nat) {
    (forall v: Vec, l: nat, w: Vec, y: nat, x: nat :: l < total && x < total ==> Copies(o, v, l, w, y, x))
    && (forall x: nat :: x < total ==> o.get(Vec(0, 0), x) == 0)
  }

  lemma {:induction false} UzpLane(o: Access, total: nat, n: Vec, m: Vec, lanes: nat, part: nat, k: nat, x: nat)
    requires Laws(o, total) && k <= lanes <= total && x < total
    ensures o.get(Uzp(o, n, m, lanes, part, k), x) == if x < k then Joined(o, n, m, lanes, 2 * x + part) else 0
  {
    if k > 0 {
      var v, idx := Uzp(o, n, m, lanes, part, k - 1), 2 * (k - 1) + part;
      UzpLane(o, total, n, m, lanes, part, k - 1, x);
      assert idx < lanes ==> Copies(o, v, k - 1, n, idx, x);
      assert idx >= lanes ==> Copies(o, v, k - 1, m, idx - lanes, x);
    }
  }

  lemma TwoLanes(o: Access, total: nat, v: Vec, l: nat, n: Vec, m: Vec, y: nat, x: nat)
    requires Laws(o, total) && 2 * l + 1 < total && x < total
    ensures o.get(o.put(o.put(v, 2 * l, o.get(n, y)), 2 * l + 1, o.get(m, y)), x) ==
      if x == 2 * l then o.get(n, y) else if x == 2 * l + 1 then o.get(m, y) else o.get(v, x)
  {
    assert Copies(o, v, 2 * l, n, y, x);
    assert Copies(o, o.put(v, 2 * l, o.get(n, y)), 2 * l + 1, m, y, x);
  }

  lemma {:induction false} ZipLane(o: Access, total: nat, n: Vec, m: Vec, base: nat, k: nat, x: nat)
    requires Laws(o, total) && 2 * k <= total && x < total
    ensures o.get(Zip(o, n, m, base, k), x) ==
      if x >= 2 * k then 0 else if x % 2 == 0 then o.get(n, base + x / 2) else o.get(m, base + x / 2)
  {
    if k > 0 {
      ZipLane(o, total, n, m, base, k - 1, x);
      TwoLanes(o, total, Zip(o, n, m, base, k - 1), k - 1, n, m, base + (k - 1), x);
    }
  }

  lemma {:induction false} TrnLane(o: Access, total: nat, n: Vec, m: Vec, part: nat, k: nat, x: nat)
    requires Laws(o, total) && 2 * k <= total && x < total
    ensures o.get(Trn(o, n, m, part, k), x) ==
      if x >= 2 * k then 0 else if x % 2 == 0 then o.get(n, x + part) else o.get(m, x - 1 + part)
  {
    if k > 0 {
      TrnLane(o, total, n, m, part, k - 1, x);
      TwoLanes(o, total, Trn(o, n, m, part, k - 1), k - 1, n, m, 2 * (k - 1) + part, x);
    }
  }

  // ---- the permutes undo each other -----------------------------------------------------------------

  /** v has the first lanes of w and zeros above them. */
  ghost predicate Gives(o: Access, total: nat, lanes: nat, v: Vec, w: Vec) {
    forall x :: 0 <= x < total ==> o.get(v, x) == if x < lanes then o.get(w, x) else 0
  }

  lemma UnzippedLanes(o: Access, total: nat, n: Vec, m: Vec, lanes: nat, part: nat)
    requires Laws(o, total) && lanes <= total && lanes % 2 == 0 && part <= 1
    ensures Gives(o, total, lanes, Uzps(o, Zips(o, n, m, lanes, 0), Zips(o, n, m, lanes, 1), lanes, part),
      if part == 0 then n else m)
  {
    var z0, z1 := Zips(o, n, m, lanes, 0), Zips(o, n, m, lanes, 1);
    forall x | 0 <= x < total
      ensures o.get(Uzps(o, z0, z1, lanes, part), x) == if x < lanes then o.get(if part == 0 then n else m, x) else 0 {
      UzpLane(o, total, z0, z1, lanes, part, lanes, x);
      var idx := 2 * x + part;
      if idx < lanes {
        ZipLane(o, total, n, m, 0, lanes / 2, idx);
      } else if x < lanes {
        ZipLane(o, total, n, m, lanes / 2, lanes / 2, idx - lanes);
      }
    }
  }

  lemma TransposedLanes(o: Access, total: nat, n: Vec, m: Vec, lanes: nat, part: nat)
    requires Laws(o, total) && lanes <= total && lanes % 2 == 0 && part <= 1
    ensures Gives(o, total, lanes, Trns(o, Trns(o, n, m, lanes, 0), Trns(o, n, m, lanes, 1), lanes, part),
      if part == 0 then n else m)
  {
    var t0, t1 := Trns(o, n, m, lanes, 0), Trns(o, n, m, lanes, 1);
    forall x | 0 <= x < total
      ensures o.get(Trns(o, t0, t1, lanes, part), x) == if x < lanes then o.get(if part == 0 then n else m, x) else 0 {
      TrnLane(o, total, t0, t1, part, lanes / 2, x);
      if x < lanes {
        var y := if x % 2 == 0 then x + part else x - 1 + part;
        TrnLane(o, total, n, m, 0, lanes / 2, y);
        TrnLane(o, total, n, m, 1, lanes / 2, y);
      }
    }
  }

  // ---- at each lane width ------------------------------------------------------------------------------

  /** Lanes of e bytes filling 16 or 8 bytes; an even number of them. */
  predicate Form(e: nat, lanes: nat) {
    AccessSize(e) && lanes % 2 == 0 && (Offset(e, lanes) == 16 || Offset(e, lanes) == 8)
  }

  function Total(e: nat): (t: nat)
    requires AccessSize(e)
    ensures forall x: nat :: x < t <==> Offset(e, x) < 16
  {
    if e == 1 then 16 else if e == 2 then 8 else if e == 4 then 4 else 2
  }

  lemma WideCopies(e: nat, v: Vec, l: nat, w: Vec, y: nat, x: nat)
    requires AccessSize(e) && Offset(e, l) < 16 && Offset(e, x) < 16
    ensures Copies(Wide(e), v, l, w, y, x)
  {
    var g := GetLane(w, e, y);
    GetSetLane(v, e, l, g, x);
    DivModUnique(g, Pow256(e), 0, g);
  }

  lemma WideLaws(e: nat)
    requires AccessSize(e)
    ensures Laws(Wide(e), Total(e))
  {
    var o := Wide(e);
    forall v: Vec, l: nat, w: Vec, y: nat, x: nat | l < Total(e) && x < Total(e) ensures Copies(o, v, l, w, y, x) {
      WideCopies(e, v, l, w, y, x);
    }
    forall x: nat | x < Total(e) ensures o.get(Vec(0, 0), x) == 0 {
      ZeroLane(e, x);
    }
  }

  lemma GivesKept(e: nat, lanes: nat, v: Vec, w: Vec)
    requires Form(e, lanes) && Gives(Wide(e), Total(e), lanes, v, w)
    ensures v == Kept(w, Offset(e, lanes))
  {
    forall x | x >= 0 && Offset(e, x) < 16 ensures GetLane(v, e, x) == GetLane(Kept(w, Offset(e, lanes)), e, x) {
      assert Wide(e).get(v, x) == GetLane(v, e, x);
      KeptLane(w, e, lanes, x);
    }
    SameLanes(v, Kept(w, Offset(e, lanes)), e);
  }

  /** UZP1 and UZP2 of ZIP1 and ZIP2 give back both sources, for every lane width and both forms. */
  lemma UnzipZip(n: Vec, m: Vec, e: nat, lanes: nat)
    requires Form(e, lanes)
    ensures var o := Wide(e);
      var z1, z2 := Zips(o, n, m, lanes, 0), Zips(o, n, m, lanes, 1);
      Uzps(o, z1, z2, lanes, 0) == Kept(n, Offset(e, lanes)) && Uzps(o, z1, z2, lanes, 1) == Kept(m, Offset(e, lanes))
  {
    var o := Wide(e);
    WideLaws(e);
    UnzippedLanes(o, Total(e), n, m, lanes, 0);
    UnzippedLanes(o, Total(e), n, m, lanes, 1);
    GivesKept(e, lanes, Uzps(o, Zips(o, n, m, lanes, 0), Zips(o, n, m, lanes, 1), lanes, 0), n);
    GivesKept(e, lanes, Uzps(o, Zips(o, n, m, lanes, 0), Zips(o, n, m, lanes, 1), lanes, 1), m);
  }

  /** TRN1 and TRN2 are their own inverse. */
  lemma TransposeTwice(n: Vec, m: Vec, e: nat, lanes: nat)
    requires Form(e, lanes)
    ensures var o := Wide(e);
      var t1, t2 := Trns(o, n, m, lanes, 0), Trns(o, n, m, lanes, 1);
      Trns(o, t1, t2, lanes, 0) == Kept(n, Offset(e, lanes)) && Trns(o, t1, t2, lanes, 1) == Kept(m, Offset(e, lanes))
  {
    var o := Wide(e);
    WideLaws(e);
    TransposedLanes(o, Total(e), n, m, lanes, 0);
    TransposedLanes(o, Total(e), n, m, lanes, 1);
    GivesKept(e, lanes, Trns(o, Trns(o, n, m, lanes, 0), Trns(o, n, m, lanes, 1), lanes, 0), n);
    GivesKept(e, lanes, Trns(o, Trns(o, n, m, lanes, 0), Trns(o, n, m, lanes, 1), lanes, 1), m);
  }
}
