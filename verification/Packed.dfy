/** Packed relocations: the APS2 group encoding. */
module Packed {
  import opened Words
  import opened Sleb

  type Half32 = x: int | 0 <= x < 0x1_0000_0000

  datatype Reloc = Reloc(offset: Word, kind: Half32, sym: Half32, addend: Int64)

  /** The value stored at the patch site, for relocations that carry no addend. */
  type Implicit = Option<Word -> Int64>

  const MAX_RELOCS := 0x100_0000

  function Magic(): seq<byte> { [0x41, 0x50, 0x53, 0x32] }

  // The group flags, each a bit of a 64-bit number.
  predicate ByInfo(flags: Int64) { flags % 2 == 1 }
  predicate ByOffset(flags: Int64) { flags / 2 % 2 == 1 }
  predicate ByAddend(flags: Int64) { flags / 4 % 2 == 1 }
  predicate HasAddend(flags: Int64) { flags / 8 % 2 == 1 }

  /** 64-bit signed addition, wrapping. */
  function Plus(a: Int64, d: Int64): Int64 {
    ToInt(ToWord(a + d))
  }

  function ImplicitAt(implicit: Implicit, at: Word): Int64 {
    if implicit.Some? then implicit.value(at) else 0
  }

  // ---- the decoder as a function -----------------------------------------------------------

  /** Where decoding stands: the position, the running offset and addend, the relocations so far. */
  datatype Progress = Progress(pos: nat, offset: Word, addend: Int64, out: seq<Reloc>)

  /** What the entries of a group share. */
  datatype Group = Group(size: nat, flags: Int64, delta: Int64, info: Int64)

  /** Reads a number if there is one to read. */
  function ReadIf(c: bool, rd: Reading, pos: nat): (Result<Int64>, nat) {
    if c then rd(pos) else (Ok(0), pos)
  }

  function Entry(rd: Reading, p: Progress, g: Group, implicit: Implicit): (r: Result<Progress>)
    ensures r.Ok? ==> |r.value.out| == |p.out| + 1 && r.value.out[..|p.out|] == p.out
  {
    var (d, p1) := ReadIf(!ByOffset(g.flags), rd, p.pos);
    if d.Err? then Err(d.error)
    else
      var offset := ToWord(p.offset + if ByOffset(g.flags) then g.delta else d.value);
      var (i, p2) := ReadIf(!ByInfo(g.flags), rd, p1);
      if i.Err? then Err(i.error)
      else
        var own := HasAddend(g.flags) && !ByAddend(g.flags);
        var (a, p3) := ReadIf(own, rd, p2);
        if a.Err? then Err(a.error)
        else
          var addend := if own then Plus(p.addend, a.value) else p.addend;
          var info := ToWord(if ByInfo(g.flags) then g.info else i.value);
          var r := Reloc(offset, info % B32, info / B32,
            if HasAddend(g.flags) then addend else ImplicitAt(implicit, offset));
          Ok(Progress(p3, offset, addend, p.out + [r]))
  }

  function Entries(rd: Reading, p: Progress, g: Group, n: nat, implicit: Implicit): (r: Result<Progress>)
    ensures r.Ok? ==> |r.value.out| == |p.out| + n && r.value.out[..|p.out|] == p.out
    decreases n
  {
    if n == 0 then Ok(p)
    else
      var q := Entry(rd, p, g, implicit);
      if q.Err? then q else Entries(rd, q.value, g, n - 1, implicit)
  }

  /** A group's head, given how many relocations are left to declare; the addend it leaves running. */
  function Head(rd: Reading, pos: nat, addend: Int64, left: nat): (r: Result<(Group, nat, Int64)>)
    ensures r.Ok? ==> 0 < r.value.0.size <= left
  {
    var (size, p1) := rd(pos);
    if size.Err? then Err(size.error)
    else if size.value <= 0 || size.value > left then Err(BadGroup(size.value))
    else
      var (flags, p2) := rd(p1);
      if flags.Err? then Err(flags.error)
      else
        var f := flags.value;
        var (delta, p3) := ReadIf(ByOffset(f), rd, p2);
        if delta.Err? then Err(delta.error)
        else
          var (info, p4) := ReadIf(ByInfo(f), rd, p3);
          if info.Err? then Err(info.error)
          else
            var (d, p5) := ReadIf(HasAddend(f) && ByAddend(f), rd, p4);
            if d.Err? then Err(d.error)
            else
              Ok((Group(size.value, f, delta.value, info.value), p5,
                  if HasAddend(f) then Plus(addend, d.value) else 0))
  }

  function Groups(rd: Reading, p: Progress, total: nat, implicit: Implicit): (r: Result<Progress>)
    requires |p.out| <= total
    ensures r.Ok? ==> |r.value.out| == total && r.value.out[..|p.out|] == p.out
    decreases total - |p.out|
  {
    if |p.out| >= total then Ok(p)
    else
      var h := Head(rd, p.pos, p.addend, total - |p.out|);
      if h.Err? then Err(h.error)
      else
        var (g, pos, addend) := h.value;
        var q := Entries(rd, Progress(pos, p.offset, addend, p.out), g, g.size, implicit);
        if q.Err? then q else Groups(rd, q.value, total, implicit)
  }

  /** What follows the magic: the count, the first offset, the groups. */
  function Stream(rd: Reading, implicit: Implicit): Result<seq<Reloc>> {
    var (total, p1) := rd(4);
    if total.Err? then Err(total.error)
    else if total.value < 0 || total.value > MAX_RELOCS then Err(BadCount(total.value))
    else
      var (offset, p2) := rd(p1);
      if offset.Err? then Err(offset.error)
      else
        var r := Groups(rd, Progress(p2, ToWord(offset.value), 0, []), total.value, implicit);
        if r.Err? then Err(r.error) else Ok(r.value.out)
  }

  function DecodeAps2(data: seq<byte>, implicit: Implicit): Result<seq<Reloc>> {
    if |data| < 4 || data[..4] != Magic() then Err(BadMagic) else Stream(Numbers(data), implicit)
  }

  /** On any bytes, a successful decoding has exactly the declared count. */
  lemma CountDeclared(data: seq<byte>, implicit: Implicit)
    ensures DecodeAps2(data, implicit).Ok? ==>
      |data| >= 4 && SlebAt(data, 4).0 == Ok(|DecodeAps2(data, implicit).value|)
        && |DecodeAps2(data, implicit).value| <= MAX_RELOCS
  {
  }

  // ---- the decoder as it runs -------------------------------------------------------------------

  method ReadEntry(s: Reader, p: Progress, g: Group, implicit: Implicit) returns (r: Result<Progress>)
    requires s.Valid() && s.pos == p.pos
    modifies s
    ensures s.Valid() && r == Entry(s.numbers, p, g, implicit) && (r.Ok? ==> s.pos == r.value.pos)
  {
    var offset, addend := p.offset, p.addend;
    if ByOffset(g.flags) {
      offset := ToWord(offset + g.delta);
    } else {
      var d := s.Next();
      if d.Err? {
        return Err(d.error);
      }
      offset := ToWord(offset + d.value);
    }
    var info := g.info;
    if !ByInfo(g.flags) {
      var i := s.Next();
      if i.Err? {
        return Err(i.error);
      }
      info := i.value;
    }
    var a: Int64 := 0;
    if HasAddend(g.flags) {
      if !ByAddend(g.flags) {
        var d := s.Next();
        if d.Err? {
          return Err(d.error);
        }
        addend := Plus(addend, d.value);
      }
      a := addend;
    } else {
      a := ImplicitAt(implicit, offset);
    }
    return Ok(Progress(s.pos, offset, addend, p.out + [Reloc(offset, ToWord(info) % B32, ToWord(info) / B32, a)]));
  }

  method ReadHead(s: Reader, addend: Int64, left: nat) returns (r: Result<(Group, nat, Int64)>)
    requires s.Valid()
    modifies s
    ensures s.Valid() && r == Head(s.numbers, old(s.pos), addend, left) && (r.Ok? ==> s.pos == r.value.1)
  {
    var size := s.Next();
    if size.Err? {
      return Err(size.error);
    }
    if size.value <= 0 || size.value > left {
      return Err(BadGroup(size.value));
    }
    var flags := s.Next();
    if flags.Err? {
      return Err(flags.error);
    }
    var f := flags.value;
    var delta: Result<Int64>, info: Result<Int64>, d: Result<Int64> := Ok(0), Ok(0), Ok(0);
    if ByOffset(f) {
      delta := s.Next();
      if delta.Err? {
        return Err(delta.error);
      }
    }
    if ByInfo(f) {
      info := s.Next();
      if info.Err? {
        return Err(info.error);
      }
    }
    var a := addend;
    if HasAddend(f) && ByAddend(f) {
      d := s.Next();
      if d.Err? {
        return Err(d.error);
      }
      a := Plus(a, d.value);
    }
    if !HasAddend(f) {
      a := 0;
    }
    return Ok((Group(size.value, f, delta.value, info.value), s.pos, a));
  }

  method ReadEntries(s: Reader, p: Progress, g: Group, implicit: Implicit) returns (r: Result<Progress>)
    requires s.Valid() && s.pos == p.pos
    modifies s
    ensures s.Valid() && r == Entries(s.numbers, p, g, g.size, implicit) && (r.Ok? ==> s.pos == r.value.pos)
  {
    var q := p;
    for i := 0 to g.size
      invariant s.Valid() && s.pos == q.pos
      invariant Entries(s.numbers, q, g, g.size - i, implicit) == Entries(s.numbers, p, g, g.size, implicit)
    {
      var e := ReadEntry(s, q, g, implicit);
      if e.Err? {
        return Err(e.error);
      }
      q := e.value;
    }
    return Ok(q);
  }

  method ReadGroups(s: Reader, start: Progress, total: nat, implicit: Implicit) returns (r: Result<Progress>)
    requires s.Valid() && s.pos == start.pos && |start.out| <= total
    modifies s
    ensures s.Valid() && r == Groups(s.numbers, start, total, implicit)
  {
    var p := start;
    while |p.out| < total
      invariant s.Valid() && s.pos == p.pos && |p.out| <= total
      invariant Groups(s.numbers, p, total, implicit) == Groups(s.numbers, start, total, implicit)
      decreases total - |p.out|
    {
      var h := ReadHead(s, p.addend, total - |p.out|);
      if h.Err? {
        return Err(h.error);
      }
      var q := ReadEntries(s, Progress(h.value.1, p.offset, h.value.2, p.out), h.value.0, implicit);
      if q.Err? {
        return q;
      }
      p := q.value;
    }
    return Ok(p);
  }

  method ReadStream(s: Reader, implicit: Implicit) returns (r: Result<seq<Reloc>>)
    requires s.Valid() && s.pos == 4
    modifies s
    ensures s.Valid() && r == Stream(s.numbers, implicit)
  {
    var total := s.Next();
    if total.Err? {
      return Err(total.error);
    }
    if total.value < 0 || total.value > MAX_RELOCS {
      return Err(BadCount(total.value));
    }
    var offset := s.Next();
    if offset.Err? {
      return Err(offset.error);
    }
    var p := ReadGroups(s, Progress(s.pos, ToWord(offset.value), 0, []), total.value, implicit);
    if p.Err? {
      return Err(p.error);
    }
    return Ok(p.value.out);
  }

  /** The decoder's loops compute the function, on every input. */
  method Decode(data: seq<byte>, implicit: Implicit) returns (r: Result<seq<Reloc>>)
    ensures r == DecodeAps2(data, implicit)
  {
    if |data| < 4 || data[..4] != Magic() {
      return Err(BadMagic);
    }
    var s := new Reader(data, 4);
    r := ReadStream(s, implicit);
  }
}
