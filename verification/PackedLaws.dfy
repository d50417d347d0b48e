/** The APS2 encoding of a relocation list under any grouping, and that decoding gives the list back. */
module PackedLaws {
  import opened Words
  import opened Sleb
  import opened Packed

  // ---- reading a list of numbers ----------------------------------------------------------

  /** From pos to end, rd gives exactly vals. */
  predicate Reads(rd: Reading, pos: nat, vals: seq<Int64>, end: nat)
    decreases |vals|
  {
    if |vals| == 0 then pos == end else rd(pos).0 == Ok(vals[0]) && Reads(rd, rd(pos).1, vals[1..], end)
  }

  function Bytes(vals: seq<Int64>): seq<byte> {
    if |vals| == 0 then [] else Encode(vals[0]) + Bytes(vals[1..])
  }

  /** rd gives every number whose encoding stands at a position of b. */
  ghost predicate Gives(rd: Reading, b: seq<byte>, pos: nat, v: Int64) {
    var e := Encode(v);
    pos + |e| <= |b| && b[pos..pos + |e|] == e ==> rd(pos) == (Ok(v), pos + |e|)
  }

  lemma NumbersGive(b: seq<byte>, pos: nat, v: Int64)
    ensures Gives(Numbers(b), b, pos, v)
  {
    var e := Encode(v);
    if pos + |e| <= |b| && b[pos..pos + |e|] == e {
      RoundTrip(b, pos, v);
    }
  }

  lemma {:induction false} BytesRead(rd: Reading, b: seq<byte>, pos: nat, vals: seq<Int64>)
    requires pos + |Bytes(vals)| <= |b| && b[pos..pos + |Bytes(vals)|] == Bytes(vals)
    requires forall p, v :: Gives(rd, b, p, v)
    ensures Reads(rd, pos, vals, pos + |Bytes(vals)|)
    decreases |vals|
  {
    if |vals| > 0 {
      var e, rest := Encode(vals[0]), Bytes(vals[1..]);
      var all := b[pos..pos + |e + rest|];
      TwoParts(e, rest);
      assert b[pos..pos + |e|] == all[..|e|] && b[pos + |e|..pos + |e| + |rest|] == all[|e|..];
      assert Gives(rd, b, pos, vals[0]);
      BytesRead(rd, b, pos + |e|, vals[1..]);
    }
  }

  /** A number that is there only under a condition. */
  function Opt(c: bool, v: Int64): seq<Int64> {
    if c then [v] else []
  }

  lemma ReadsOpt(rd: Reading, pos: nat, c: bool, v: Int64, rest: seq<Int64>, end: nat)
    requires Reads(rd, pos, Opt(c, v) + rest, end)
    ensures ReadIf(c, rd, pos).0 == Ok(if c then v else 0) && Reads(rd, ReadIf(c, rd, pos).1, rest, end)
  {
    if c {
      assert ([v] + rest)[1..] == rest;
    } else {
      assert [] + rest == rest;
    }
  }

  // ---- the encoder ---------------------------------------------------------------------------

  function Delta(from: Word, to: Word): Int64 {
    ToInt(ToWord(to - from))
  }

  function Minus(a: Int64, b: Int64): Int64 {
    ToInt(ToWord(a - b))
  }

  function InfoOf(r: Reloc): Int64 {
    ToInt(ToWord(r.sym * B32 + r.kind))
  }

  lemma DeltaUndone(from: Word, to: Word)
    ensures ToWord(from + Delta(from, to)) == to
  {
  }

  lemma MinusUndone(a: Int64, b: Int64)
    ensures Plus(b, Minus(a, b)) == a
  {
  }

  lemma InfoUndone(r: Reloc)
    ensures ToWord(InfoOf(r)) % B32 == r.kind && ToWord(InfoOf(r)) / B32 == r.sym
  {
  }

  predicate Own(flags: Int64) { HasAddend(flags) && !ByAddend(flags) }
  predicate Shared(flags: Int64) { HasAddend(flags) && ByAddend(flags) }

  /** One entry, then rest. */
  function EncodeEntry(r: Reloc, flags: Int64, offset: Word, addend: Int64, rest: seq<Int64>): seq<Int64> {
    Opt(!ByOffset(flags), Delta(offset, r.offset))
      + (Opt(!ByInfo(flags), InfoOf(r)) + (Opt(Own(flags), Minus(r.addend, addend)) + rest))
  }

  /** The entries of a group, then rest. */
  function EncodeEntries(rs: seq<Reloc>, flags: Int64, offset: Word, addend: Int64, rest: seq<Int64>): seq<Int64>
    decreases |rs|
  {
    if |rs| == 0 then rest
    else
      var r := rs[0];
      EncodeEntry(r, flags, offset, addend,
        EncodeEntries(rs[1..], flags, r.offset, if Own(flags) then r.addend else addend, rest))
  }

  /** The head of a group: what its entries share is taken from the first of them. */
  function GroupOf(rs: seq<Reloc>, flags: Int64, offset: Word): Group
    requires |rs| > 0
  {
    Group(|rs|, flags, if ByOffset(flags) then Delta(offset, rs[0].offset) else 0,
      if ByInfo(flags) then InfoOf(rs[0]) else 0)
  }

  function HeadAddend(rs: seq<Reloc>, flags: Int64, addend: Int64): Int64
    requires |rs| > 0
  {
    if !HasAddend(flags) then 0 else if ByAddend(flags) then rs[0].addend else addend
  }

  function LastAddend(rs: seq<Reloc>, flags: Int64, addend: Int64): Int64
    requires |rs| > 0
  {
    if !HasAddend(flags) then 0 else rs[|rs| - 1].addend
  }

  /** How a list is cut into groups: their sizes and flags. */
  datatype Piece = Piece(size: nat, flags: Int64)

  function EncodeGroups(rs: seq<Reloc>, cut: seq<Piece>, offset: Word, addend: Int64): seq<Int64>
    requires Cut(rs, cut)
    decreases |cut|
  {
    if |cut| == 0 then []
    else
      var p := cut[0];
      var head := rs[..p.size];
      EncodeGroup(head, p.flags, offset, addend,
        EncodeGroups(rs[p.size..], cut[1..], head[p.size - 1].offset, LastAddend(head, p.flags, addend)))
  }

  /** One group, then rest. */
  function EncodeGroup(rs: seq<Reloc>, flags: Int64, offset: Word, addend: Int64, rest: seq<Int64>): seq<Int64>
    requires 0 < |rs| <= MAX_RELOCS
  {
    var g := GroupOf(rs, flags, offset);
    [g.size, flags] + (Opt(ByOffset(flags), g.delta) + (Opt(ByInfo(flags), g.info)
      + (Opt(Shared(flags), Minus(rs[0].addend, addend))
        + EncodeEntries(rs, flags, offset, HeadAddend(rs, flags, addend), rest))))
  }

  /** The cut covers the list with non-empty pieces. */
  predicate Cut(rs: seq<Reloc>, cut: seq<Piece>)
    decreases |cut|
  {
    |rs| <= MAX_RELOCS
    && if |cut| == 0 then |rs| == 0 else 0 < cut[0].size <= |rs| && Cut(rs[cut[0].size..], cut[1..])
  }

  function EncodeAps2(rs: seq<Reloc>, cut: seq<Piece>, first: Int64): seq<byte>
    requires Cut(rs, cut)
  {
    Magic() + Bytes([|rs|, first] + EncodeGroups(rs, cut, ToWord(first), 0))
  }

  // ---- which groupings are legal ----------------------------------------------------------------

  function Before(rs: seq<Reloc>, k: nat, offset: Word): Word
    requires k <= |rs|
  {
    if k == 0 then offset else rs[k - 1].offset
  }

  /** Entry k agrees with everything the group shares; without addends, it has the implicit one. */
  predicate EntryFits(rs: seq<Reloc>, k: nat, g: Group, offset: Word, addend: Int64, implicit: Implicit)
    requires k < |rs|
  {
    (ByOffset(g.flags) ==> rs[k].offset == ToWord(Before(rs, k, offset) + g.delta))
    && (ByInfo(g.flags) ==> InfoOf(rs[k]) == g.info)
    && (Shared(g.flags) ==> rs[k].addend == addend)
    && (!HasAddend(g.flags) ==> rs[k].addend == ImplicitAt(implicit, rs[k].offset))
  }

  predicate Fits(rs: seq<Reloc>, g: Group, offset: Word, addend: Int64, implicit: Implicit) {
    forall k :: 0 <= k < |rs| ==> EntryFits(rs, k, g, offset, addend, implicit)
  }

  predicate Legal(rs: seq<Reloc>, cut: seq<Piece>, offset: Word, addend: Int64, implicit: Implicit)
    requires Cut(rs, cut)
    decreases |cut|
  {
    |cut| == 0 ||
    var p := cut[0];
    var head := rs[..p.size];
    Fits(head, GroupOf(head, p.flags, offset), offset, HeadAddend(head, p.flags, addend), implicit)
    && Legal(rs[p.size..], cut[1..], head[p.size - 1].offset, LastAddend(head, p.flags, addend), implicit)
  }

  /** Every list has a legal encoding: one group that shares nothing. */
  lemma Ungrouped(rs: seq<Reloc>, offset: Word, addend: Int64, implicit: Implicit)
    requires 0 < |rs| <= MAX_RELOCS
    ensures Cut(rs, [Piece(|rs|, 8)]) && Legal(rs, [Piece(|rs|, 8)], offset, addend, implicit)
  {
    assert rs[|rs|..] == [] && [Piece(|rs|, 8)][1..] == [];
    assert Cut([], []);
  }

  // ---- decoding what was encoded -------------------------------------------------------------------

  lemma FitsTail(rs: seq<Reloc>, g: Group, offset: Word, addend: Int64, implicit: Implicit)
    requires |rs| > 0 && Fits(rs, g, offset, addend, implicit)
    ensures Fits(rs[1..], g, rs[0].offset, addend, implicit)
  {
    forall k | 0 <= k < |rs| - 1 ensures EntryFits(rs[1..], k, g, rs[0].offset, addend, implicit) {
      assert EntryFits(rs, k + 1, g, offset, addend, implicit);
    }
  }

  function RunningAddend(rs: seq<Reloc>, flags: Int64, addend: Int64): Int64 {
    if Own(flags) && |rs| > 0 then rs[|rs| - 1].addend else addend
  }

  /** One entry. */
  lemma EntryRead(rd: Reading, p: Progress, g: Group, r: Reloc, rest: seq<Int64>, end: nat, implicit: Implicit)
    returns (q: Progress)
    requires EntryFits([r], 0, g, p.offset, p.addend, implicit)
    requires Reads(rd, p.pos, EncodeEntry(r, g.flags, p.offset, p.addend, rest), end)
    ensures Entry(rd, p, g, implicit) == Ok(q) && Reads(rd, q.pos, rest, end)
    ensures q.out == p.out + [r] && q.offset == r.offset && q.addend == if Own(g.flags) then r.addend else p.addend
  {
    var f, d, i, a := g.flags, Delta(p.offset, r.offset), InfoOf(r), Minus(r.addend, p.addend);
    ReadsOpt(rd, p.pos, !ByOffset(f), d, Opt(!ByInfo(f), i) + (Opt(Own(f), a) + rest), end);
    var p1 := ReadIf(!ByOffset(f), rd, p.pos).1;
    ReadsOpt(rd, p1, !ByInfo(f), i, Opt(Own(f), a) + rest, end);
    var p2 := ReadIf(!ByInfo(f), rd, p1).1;
    ReadsOpt(rd, p2, Own(f), a, rest, end);
    var p3 := ReadIf(Own(f), rd, p2).1;
    var d', i', a' := if ByOffset(f) then 0 else d, if ByInfo(f) then 0 else i, if Own(f) then a else 0;
    EntryIs(rd, p, g, implicit, d', i', a', p1, p2, p3);
    MadeBack(p, g, r, implicit);
    q := Progress(p3, r.offset, if Own(f) then r.addend else p.addend, p.out + [r]);
  }

  /** The numbers written for an entry make it again. */
  lemma MadeBack(p: Progress, g: Group, r: Reloc, implicit: Implicit)
    requires EntryFits([r], 0, g, p.offset, p.addend, implicit)
    ensures var f, d, i, a := g.flags, Delta(p.offset, r.offset), InfoOf(r), Minus(r.addend, p.addend);
      var addend := if Own(f) then Plus(p.addend, a) else p.addend;
      Made(p, g, implicit, if ByOffset(f) then 0 else d, if ByInfo(f) then 0 else i, addend) == r
      && addend == if Own(f) then r.addend else p.addend
  {
    DeltaUndone(p.offset, r.offset);
    InfoUndone(r);
    MinusUndone(r.addend, p.addend);
  }

  /** The relocation an entry gives from the numbers it reads. */
  function Made(p: Progress, g: Group, implicit: Implicit, d: Int64, i: Int64, addend: Int64): Reloc {
    var offset := ToWord(p.offset + if ByOffset(g.flags) then g.delta else d);
    var info := ToWord(if ByInfo(g.flags) then g.info else i);
    Reloc(offset, info % B32, info / B32, if HasAddend(g.flags) then addend else ImplicitAt(implicit, offset))
  }

  lemma EntryIs(rd: Reading, p: Progress, g: Group, implicit: Implicit, d: Int64, i: Int64, a: Int64, p1: nat,
      p2: nat, p3: nat)
    requires ReadIf(!ByOffset(g.flags), rd, p.pos) == (Ok(d), p1) && ReadIf(!ByInfo(g.flags), rd, p1) == (Ok(i), p2)
    requires ReadIf(Own(g.flags), rd, p2) == (Ok(a), p3)
    ensures var addend := if Own(g.flags) then Plus(p.addend, a) else p.addend;
      var r := Made(p, g, implicit, d, i, addend);
      Entry(rd, p, g, implicit) == Ok(Progress(p3, r.offset, addend, p.out + [r]))
  {
  }

  /** Reading n entries from p leads to q. */
  ghost predicate EntriesGive(rd: Reading, p: Progress, g: Group, n: nat, implicit: Implicit, q: Progress) {
    Entries(rd, p, g, n, implicit) == Ok(q)
  }

  lemma {:induction false} EntriesRead(rd: Reading, p: Progress, g: Group, rs: seq<Reloc>, rest: seq<Int64>, end: nat,
      implicit: Implicit) returns (q: Progress)
    requires Fits(rs, g, p.offset, p.addend, implicit)
    requires Reads(rd, p.pos, EncodeEntries(rs, g.flags, p.offset, p.addend, rest), end)
    ensures EntriesGive(rd, p, g, |rs|, implicit, q) && Reads(rd, q.pos, rest, end)
    ensures q.out == p.out + rs && q.offset == Before(rs, |rs|, p.offset)
      && q.addend == RunningAddend(rs, g.flags, p.addend)
    decreases |rs|
  {
    if |rs| == 0 {
      q := p;
    } else {
      var e := FirstEntry(rd, p, g, rs, rest, end, implicit);
      q := EntriesRead(rd, e, g, rs[1..], rest, end, implicit);
      EntriesStep(rd, p, g, |rs|, implicit, e, q);
      assert p.out + [rs[0]] + rs[1..] == p.out + rs;
    }
  }

  lemma FirstEntry(rd: Reading, p: Progress, g: Group, rs: seq<Reloc>, rest: seq<Int64>, end: nat, implicit: Implicit)
    returns (e: Progress)
    requires |rs| > 0 && Fits(rs, g, p.offset, p.addend, implicit)
    requires Reads(rd, p.pos, EncodeEntries(rs, g.flags, p.offset, p.addend, rest), end)
    ensures Entry(rd, p, g, implicit) == Ok(e) && e.out == p.out + [rs[0]] && e.offset == rs[0].offset
    ensures e.addend == (if Own(g.flags) then rs[0].addend else p.addend)
      && Fits(rs[1..], g, e.offset, e.addend, implicit)
    ensures Reads(rd, e.pos, EncodeEntries(rs[1..], g.flags, e.offset, e.addend, rest), end)
  {
    var r := rs[0];
    var tail := EncodeEntries(rs[1..], g.flags, r.offset, if Own(g.flags) then r.addend else p.addend, rest);
    assert EntryFits(rs, 0, g, p.offset, p.addend, implicit);
    e := EntryRead(rd, p, g, r, tail, end, implicit);
    FitsTail(rs, g, p.offset, p.addend, implicit);
    AddendMayMove(rs[1..], g, r.offset, p.addend, e.addend, implicit);
  }

  lemma EntriesStep(rd: Reading, p: Progress, g: Group, n: nat, implicit: Implicit, e: Progress, q: Progress)
    requires n > 0 && Entry(rd, p, g, implicit) == Ok(e) && EntriesGive(rd, e, g, n - 1, implicit, q)
    ensures EntriesGive(rd, p, g, n, implicit, q)
  {
  }

  lemma AddendMayMove(rs: seq<Reloc>, g: Group, offset: Word, a: Int64, b: Int64, implicit: Implicit)
    requires Fits(rs, g, offset, a, implicit) && (Shared(g.flags) ==> a == b)
    ensures Fits(rs, g, offset, b, implicit)
  {
    forall k | 0 <= k < |rs| ensures EntryFits(rs, k, g, offset, b, implicit) {
      assert EntryFits(rs, k, g, offset, a, implicit);
    }
  }

  lemma HeadRead(rd: Reading, pos: nat, g: Group, d: Int64, addend: Int64, left: nat, rest: seq<Int64>, end: nat)
    returns (q: nat)
    requires 0 < g.size <= left <= MAX_RELOCS
    requires (!ByOffset(g.flags) ==> g.delta == 0) && (!ByInfo(g.flags) ==> g.info == 0)
    requires Reads(rd, pos, [g.size, g.flags] + (Opt(ByOffset(g.flags), g.delta) + (Opt(ByInfo(g.flags), g.info)
               + (Opt(Shared(g.flags), d) + rest))), end)
    ensures Reads(rd, q, rest, end)
    ensures Head(rd, pos, addend, left) ==
      Ok((g, q, if !HasAddend(g.flags) then 0 else if ByAddend(g.flags) then Plus(addend, d) else Plus(addend, 0)))
  {
    var f := g.flags;
    var r3 := Opt(Shared(f), d) + rest;
    var r2 := Opt(ByInfo(f), g.info) + r3;
    var r1 := Opt(ByOffset(f), g.delta) + r2;
    assert ([g.size, f] + r1)[1..] == [f] + r1 && ([f] + r1)[1..] == r1;
    var p1 := rd(pos).1;
    var p2 := rd(p1).1;
    ReadsOpt(rd, p2, ByOffset(f), g.delta, r2, end);
    var p3 := ReadIf(ByOffset(f), rd, p2).1;
    ReadsOpt(rd, p3, ByInfo(f), g.info, r3, end);
    var p4 := ReadIf(ByInfo(f), rd, p3).1;
    ReadsOpt(rd, p4, Shared(f), d, rest, end);
    q := ReadIf(Shared(f), rd, p4).1;
  }

  lemma PlusZero(a: Int64)
    ensures Plus(a, 0) == a
  {
  }

  /** The rest of the stream, from where p stands, encodes rs. */
  ghost predicate Ahead(rd: Reading, p: Progress, rs: seq<Reloc>, cut: seq<Piece>, total: nat, end: nat,
      implicit: Implicit)
  {
    Cut(rs, cut) && Legal(rs, cut, p.offset, p.addend, implicit) && total == |p.out| + |rs| <= MAX_RELOCS
    && Reads(rd, p.pos, EncodeGroups(rs, cut, p.offset, p.addend), end)
  }

  /** Decoding the groups from p on gives out and stops at end. */
  ghost predicate Arrives(rd: Reading, p: Progress, total: nat, out: seq<Reloc>, end: nat, implicit: Implicit)
    requires |p.out| <= total
  {
    var r := Groups(rd, p, total, implicit);
    r.Ok? && r.value.out == out && r.value.pos == end
  }

  lemma {:induction false} GroupsRead(rd: Reading, p: Progress, rs: seq<Reloc>, cut: seq<Piece>, total: nat, end: nat,
      implicit: Implicit)
    requires Ahead(rd, p, rs, cut, total, end, implicit)
    ensures Arrives(rd, p, total, p.out + rs, end, implicit)
    decreases |cut|
  {
    if |cut| == 0 {
      assert p.out + rs == p.out;
    } else {
      var q := FirstGroup(rd, p, rs, cut, total, end, implicit);
      GroupsRead(rd, q, rs[cut[0].size..], cut[1..], total, end, implicit);
    }
  }

  lemma FirstGroup(rd: Reading, p: Progress, rs: seq<Reloc>, cut: seq<Piece>, total: nat, end: nat,
      implicit: Implicit) returns (q: Progress)
    requires |cut| > 0 && Ahead(rd, p, rs, cut, total, end, implicit)
    ensures cut[0].size <= |rs| && Ahead(rd, q, rs[cut[0].size..], cut[1..], total, end, implicit)
    ensures q.out + rs[cut[0].size..] == p.out + rs && |q.out| <= total
    ensures Arrives(rd, q, total, p.out + rs, end, implicit) ==> Arrives(rd, p, total, p.out + rs, end, implicit)
  {
    var c := cut[0];
    var head, tail := rs[..c.size], rs[c.size..];
    var rest := FirstPiece(rd, p, rs, cut, total, end, implicit);
    q := GroupRead(rd, p, head, c.flags, |rs|, rest, end, implicit);
    GroupsStep(rd, p, total, implicit, c.size, q);
    Regroup(p.out, head, tail, rs);
  }

  lemma Regroup<T>(out: seq<T>, head: seq<T>, tail: seq<T>, all: seq<T>)
    requires head + tail == all
    ensures out + head + tail == out + all
  {
    assert out + head + tail == out + (head + tail);
  }

  lemma FirstPiece(rd: Reading, p: Progress, rs: seq<Reloc>, cut: seq<Piece>, total: nat, end: nat,
      implicit: Implicit) returns (rest: seq<Int64>)
    requires |cut| > 0 && Ahead(rd, p, rs, cut, total, end, implicit)
    ensures var c := cut[0];
      0 < c.size <= |rs| && rs[..c.size] + rs[c.size..] == rs
      && Reads(rd, p.pos, EncodeGroup(rs[..c.size], c.flags, p.offset, p.addend, rest), end)
      && Fits(rs[..c.size], GroupOf(rs[..c.size], c.flags, p.offset), p.offset,
        HeadAddend(rs[..c.size], c.flags, p.addend), implicit)
      && Cut(rs[c.size..], cut[1..])
      && Legal(rs[c.size..], cut[1..], rs[..c.size][c.size - 1].offset, LastAddend(rs[..c.size], c.flags, p.addend),
        implicit)
      && rest == EncodeGroups(rs[c.size..], cut[1..], rs[..c.size][c.size - 1].offset,
        LastAddend(rs[..c.size], c.flags, p.addend))
  {
    var c := cut[0];
    var head := rs[..c.size];
    rest := EncodeGroups(rs[c.size..], cut[1..], head[c.size - 1].offset, LastAddend(head, c.flags, p.addend));
    assert EncodeGroups(rs, cut, p.offset, p.addend) == EncodeGroup(head, c.flags, p.offset, p.addend, rest);
  }

  /** The next group is read and has n entries, leading to q. */
  predicate GroupGives(rd: Reading, p: Progress, left: nat, implicit: Implicit, n: nat, q: Progress) {
    var h := Head(rd, p.pos, p.addend, left);
    h.Ok? && h.value.0.size == n
    && Entries(rd, Progress(h.value.1, p.offset, h.value.2, p.out), h.value.0, n, implicit) == Ok(q)
  }

  lemma GroupsStep(rd: Reading, p: Progress, total: nat, implicit: Implicit, n: nat, q: Progress)
    requires |p.out| < total && GroupGives(rd, p, total - |p.out|, implicit, n, q)
    ensures |q.out| == |p.out| + n <= total && Groups(rd, p, total, implicit) == Groups(rd, q, total, implicit)
  {
  }

  lemma GroupRead(rd: Reading, p: Progress, rs: seq<Reloc>, flags: Int64, left: nat, rest: seq<Int64>, end: nat,
      implicit: Implicit) returns (q: Progress)
    requires 0 < |rs| <= left <= MAX_RELOCS
    requires Fits(rs, GroupOf(rs, flags, p.offset), p.offset, HeadAddend(rs, flags, p.addend), implicit)
    requires Reads(rd, p.pos, EncodeGroup(rs, flags, p.offset, p.addend, rest), end)
    ensures GroupGives(rd, p, left, implicit, |rs|, q)
    ensures Reads(rd, q.pos, rest, end) && q.out == p.out + rs && q.offset == rs[|rs| - 1].offset
    ensures q.addend == LastAddend(rs, flags, p.addend)
  {
    var g, a := GroupOf(rs, flags, p.offset), HeadAddend(rs, flags, p.addend);
    var pos := HeadRead(rd, p.pos, g, Minus(rs[0].addend, p.addend), p.addend, left,
      EncodeEntries(rs, flags, p.offset, a, rest), end);
    MinusUndone(rs[0].addend, p.addend);
    PlusZero(p.addend);
    q := EntriesRead(rd, Progress(pos, p.offset, a, p.out), g, rs, rest, end, implicit);
    LastIs(rs, g, p.offset, p.addend, a, implicit);
  }

  lemma LastIs(rs: seq<Reloc>, g: Group, offset: Word, addend: Int64, a: Int64, implicit: Implicit)
    requires |rs| > 0 && Fits(rs, g, offset, a, implicit) && a == HeadAddend(rs, g.flags, addend)
    ensures RunningAddend(rs, g.flags, a) == LastAddend(rs, g.flags, addend)
  {
    assert EntryFits(rs, |rs| - 1, g, offset, a, implicit);
  }

  /** Decoding inverts encoding: any relocation list, cut into groups with any legal flags and any first offset,
      whatever bytes follow it. */
  lemma Aps2RoundTrip(rs: seq<Reloc>, cut: seq<Piece>, first: Int64, implicit: Implicit, more: seq<byte>)
    requires Cut(rs, cut) && Legal(rs, cut, ToWord(first), 0, implicit)
    ensures DecodeAps2(EncodeAps2(rs, cut, first) + more, implicit) == Ok(rs)
  {
    var vals := [|rs|, first] + EncodeGroups(rs, cut, ToWord(first), 0);
    var data := EncodeAps2(rs, cut, first) + more;
    NumbersFramed(data, vals, more);
    StreamRead(Numbers(data), rs, cut, first, 4 + |Bytes(vals)|, implicit);
  }

  lemma NumbersFramed(data: seq<byte>, vals: seq<Int64>, more: seq<byte>)
    requires data == Magic() + Bytes(vals) + more
    ensures |data| >= 4 && data[..4] == Magic() && Reads(Numbers(data), 4, vals, 4 + |Bytes(vals)|)
  {
    Framed(Magic(), Bytes(vals), more);
    forall p, v ensures Gives(Numbers(data), data, p, v) {
      NumbersGive(data, p, v);
    }
    BytesRead(Numbers(data), data, 4, vals);
  }

  lemma Framed(a: seq<byte>, b: seq<byte>, c: seq<byte>)
    ensures (a + b + c)[..|a|] == a && (a + b + c)[|a|..|a| + |b|] == b
  {
  }

  lemma StreamRead(rd: Reading, rs: seq<Reloc>, cut: seq<Piece>, first: Int64, end: nat, implicit: Implicit)
    requires Cut(rs, cut) && Legal(rs, cut, ToWord(first), 0, implicit)
    requires Reads(rd, 4, [|rs|, first] + EncodeGroups(rs, cut, ToWord(first), 0), end)
    ensures Stream(rd, implicit) == Ok(rs)
  {
    var groups := EncodeGroups(rs, cut, ToWord(first), 0);
    assert ([|rs|, first] + groups)[1..] == [first] + groups && ([first] + groups)[1..] == groups;
    var p2 := rd(rd(4).1).1;
    GroupsRead(rd, Progress(p2, ToWord(first), 0, []), rs, cut, |rs|, end, implicit);
  }
}
