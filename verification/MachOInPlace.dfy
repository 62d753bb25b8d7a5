/** The passes over a thin image as they run: nested loops over one buffer, in place. */
module MachOInPlace {
  import opened Bytes
  import opened MachOImage
  import opened MachOSections
  import MachOGot

  // ---------------------------------------------------------------- nothing to re-point

  lemma {:induction false} NoSlotsNoTextPass(s: seq<byte>, at: nat, size: nat, address: nat)
    requires at + size <= |s|
    ensures MachOGot.TextPass(s, at, size, address, map[]) == s
  {
    hide MachOGot.TextPass, MachOGot.Words, MachOGot.IsPair, MachOGot.Slot;
    assert MachOGot.Rewrite(MachOGot.Words(s, at, size / 4), address, map[]) == MachOGot.Words(s, at, size / 4);
    MachOGot.TextPassByWords(s, s, at, size, address, map[]);
  }

  lemma {:induction false} NoSlotsNoSectionPass(s: seq<byte>, base: nat, size: nat, big: bool, wide: bool, at: nat, n: nat, end: nat)
    requires base + size <= |s| && end <= |s|
    ensures SectionPass(GotLoads(map[]), s, base, size, big, wide, at, n, end) == s
    decreases n
  {
    hide SectionAt, MachOGot.TextPass;
    if n > 0 && at + SectionSize(wide) <= end {
      var sec := SectionAt(s, big, wide, at);
      if Applies(GotLoads(map[]), base, size, sec) {
        NoSlotsNoTextPass(s, base + sec.offset, sec.size, sec.address);
      }
      NoSlotsNoSectionPass(s, base, size, big, wide, at + SectionSize(wide), n - 1, end);
    }
  }

  lemma {:induction false} NoSlotsNoChange(s: seq<byte>, base: nat, size: nat, big: bool, at: nat, n: nat)
    requires base + size <= |s|
    ensures CommandPass(GotLoads(map[]), s, base, size, big, at, n) == s
    decreases n
  {
    hide U32At, SectionPass;
    if n > 0 && at + 8 <= base + size {
      var c := Command(at, U32At(s, at, big), U32At(s, at + 4, big));
      if c.size >= 8 && at + c.size <= base + size {
        var wide := c.cmd == LC_SEGMENT_64;
        if c.size >= SegmentHeaderSize(wide) {
          NoSlotsNoSectionPass(s, base, size, big, wide, at + SegmentHeaderSize(wide), NsectsAt(s, big, c), at + c.size);
        }
        NoSlotsNoChange(s, base, size, big, at + c.size, n - 1);
      }
    }
  }

  // ---------------------------------------------------------------- the loops

  method ActInPlace(pass: Pass, data: array<byte>, base: nat, size: nat, sec: Section)
    requires base + size <= data.Length
    modifies data
    ensures data[..] == Act(pass, old(data[..]), base, size, sec)
  {
    hide MachOGot.TextPass, MachOGot.Words, MachOGot.Rewrite;
    if !Applies(pass, base, size, sec) {
      return;
    }
    ghost var was := data[..];
    var start := base + sec.offset;
    match pass
    case Stubs =>
      ZeroRange(data, start, start + sec.size);
    case GotLoads(slots) =>
      MachOGot.NormalizeTextSection(data, start, sec.size, sec.address, slots);
      MachOGot.TextPassByWords(was, data[..], start, sec.size, sec.address, slots);
  }

  /** The walk over the commands and sections of a thin image, which both passes share. */
  method RunPass(pass: Pass, data: array<byte>, base: nat, size: nat)
    requires base + size <= data.Length
    modifies data
    ensures data[..] == ImagePass(pass, old(data[..]), base, size)
  {
    hide U32At, ShapeOf, Act, SectionAt;
    ghost var was := data[..];
    var shape := ShapeOf(data[..], base, size);
    if pass == GotLoads(map[]) {
      var t := TableOf(data[..], base, size);
      NoSlotsNoChange(data[..], base, size, t.big, t.at, t.n);
      return;
    }
    if !shape.Thin? || (pass.GotLoads? && !shape.wide) || size < HeaderSize(shape.wide) {
      return;
    }
    var ncmds := U32At(data[..], base + 16, shape.big);
    var command: nat := base + HeaderSize(shape.wide);
    var i := 0;
    while i < ncmds
      invariant 0 <= i <= ncmds
      invariant ImagePass(pass, was, base, size) == CommandPass(pass, data[..], base, size, shape.big, command, ncmds - i)
    {
      if command + 8 > base + size {
        return;
      }
      var c := Command(command, U32At(data[..], command, shape.big), U32At(data[..], command + 4, shape.big));
      if c.size < 8 || command + c.size > base + size {
        return;
      }
      RunCommand(pass, data, base, size, shape.big, c);
      command := command + c.size;
      i := i + 1;
    }
  }

  method RunCommand(pass: Pass, data: array<byte>, base: nat, size: nat, big: bool, c: Command)
    requires base + size <= data.Length && c.at + c.size <= data.Length
    modifies data
    ensures data[..] == OneCommand(pass, old(data[..]), base, size, big, c)
  {
    hide U32At, Act, SectionAt;
    var wide := c.cmd == LC_SEGMENT_64;
    if !Visits(pass, c.cmd) || c.size < SegmentHeaderSize(wide) {
      return;
    }
    ghost var was := data[..];
    var nsects := NsectsAt(data[..], big, c);
    var section: nat := c.at + SegmentHeaderSize(wide);
    var end := c.at + c.size;
    var j := 0;
    while j < nsects
      invariant 0 <= j <= nsects
      invariant OneCommand(pass, was, base, size, big, c) ==
                SectionPass(pass, data[..], base, size, big, wide, section, nsects - j, end)
    {
      if section + SectionSize(wide) > end {
        break;
      }
      ActInPlace(pass, data, base, size, SectionAt(data[..], big, wide, section));
      section := section + SectionSize(wide);
      j := j + 1;
    }
  }
}
