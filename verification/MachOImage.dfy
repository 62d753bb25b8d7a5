/** Walking the load commands of a thin Mach-O image, and zeroing its UUIDs in place. */
module MachOImage {
  import opened Bytes

  const LC_UUID := 0x1B
  const LC_SEGMENT := 0x1
  const LC_SEGMENT_64 := 0x19

  /** The shape of the image that fills `s[base..base + size]`, from its magic number. */
  datatype Shape = Thin(big: bool, wide: bool) | NotThin

  function ShapeOf(s: seq<byte>, base: nat, size: nat): Shape
    requires base + size <= |s|
  {
    if size < 4 then NotThin
    else
      var magic := s[base..base + 4];
      if magic == [0xFE, 0xED, 0xFA, 0xCE] then Thin(true, false)
      else if magic == [0xFE, 0xED, 0xFA, 0xCF] then Thin(true, true)
      else if magic == [0xCE, 0xFA, 0xED, 0xFE] then Thin(false, false)
      else if magic == [0xCF, 0xFA, 0xED, 0xFE] then Thin(false, true)
      else NotThin
  }

  function HeaderSize(wide: bool): nat { if wide then 32 else 28 }

  // ---------------------------------------------------------------- the walk

  datatype Command = Command(at: nat, cmd: word, size: nat)

  /** The commands visited by `n` iterations of the loop from `at`. */
  function Walk(s: seq<byte>, big: bool, at: nat, n: nat, limit: nat): seq<Command>
    requires limit <= |s|
    decreases n
  {
    if n == 0 || at + 8 > limit then []
    else
      var (cmd, size) := (U32At(s, at, big), U32At(s, at + 4, big));
      if size < 8 || at + size > limit then []
      else [Command(at, cmd, size)] + Walk(s, big, at + size, n - 1, limit)
  }

  /** The first byte that the walk does not read as part of a command or its header. */
  function WalkEnd(s: seq<byte>, big: bool, at: nat, n: nat, limit: nat): (end: nat)
    requires limit <= |s|
    ensures end >= at
    decreases n
  {
    if n == 0 || at + 8 > limit then at
    else
      var size := U32At(s, at + 4, big);
      if size < 8 || at + size > limit then at + 8 else WalkEnd(s, big, at + size, n - 1, limit)
  }

  /** A walk that reads `n` commands from `at`, none of them past `limit`. */
  datatype Table = Table(big: bool, at: nat, n: nat)

  /** Where the loop over the commands of a thin image starts, and how often it runs. */
  function TableOf(s: seq<byte>, base: nat, size: nat): Table
    requires base + size <= |s|
  {
    var shape := ShapeOf(s, base, size);
    if shape.Thin? && size >= HeaderSize(shape.wide)
    then Table(shape.big, base + HeaderSize(shape.wide), U32At(s, base + 16, shape.big))
    else Table(false, base, 0)
  }

  function Commands(s: seq<byte>, base: nat, size: nat): seq<Command>
    requires base + size <= |s|
  {
    var t := TableOf(s, base, size);
    Walk(s, t.big, t.at, t.n, base + size)
  }

  function TableEnd(s: seq<byte>, base: nat, size: nat): nat
    requires base + size <= |s|
  {
    var t := TableOf(s, base, size);
    WalkEnd(s, t.big, t.at, t.n, base + size)
  }

  /** `p` is in the eight-byte header of a command, or in the one that ends the walk. */
  predicate Steers(s: seq<byte>, big: bool, at: nat, n: nat, limit: nat, p: int)
    requires limit <= |s|
    decreases n
  {
    if n == 0 || at + 8 > limit then false
    else
      var size := U32At(s, at + 4, big);
      at <= p < at + 8 || (size >= 8 && at + size <= limit && Steers(s, big, at + size, n - 1, limit, p))
  }

  /** Only the steering bytes decide where the walk goes. */
  lemma {:induction false} WalkFrame(s: seq<byte>, t: seq<byte>, big: bool, at: nat, n: nat, limit: nat)
    requires limit <= |s| == |t|
    requires forall p :: 0 <= p < |s| && Steers(s, big, at, n, limit, p) ==> t[p] == s[p]
    ensures Walk(t, big, at, n, limit) == Walk(s, big, at, n, limit)
    ensures WalkEnd(t, big, at, n, limit) == WalkEnd(s, big, at, n, limit)
    decreases n
  {
    hide U32At;
    if n > 0 && at + 8 <= limit {
      forall p | at <= p < at + 8 ensures t[p] == s[p] {
        assert Steers(s, big, at, n, limit, p);
      }
      SameU32(s, t, at, big);
      SameU32(s, t, at + 4, big);
      var size := U32At(s, at + 4, big);
      if size >= 8 && at + size <= limit {
        WalkFrame(s, t, big, at + size, n - 1, limit);
      }
    }
  }

  lemma {:induction false} SameU32(s: seq<byte>, t: seq<byte>, at: nat, big: bool)
    requires at + 4 <= |s| == |t|
    requires forall p :: at <= p < at + 4 ==> s[p] == t[p]
    ensures U32At(s, at, big) == U32At(t, at, big)
  {
  }

  /** Steering bytes lie in the table, and none is in the payload of a command. */
  lemma {:induction false} SteersOutsidePayloads(s: seq<byte>, big: bool, at: nat, n: nat, limit: nat, p: int, k: nat)
    requires limit <= |s| && Steers(s, big, at, n, limit, p)
    ensures at <= p < WalkEnd(s, big, at, n, limit) && p < limit
    ensures k < |Walk(s, big, at, n, limit)| ==>
              var c := Walk(s, big, at, n, limit)[k];
              at <= c.at && c.size >= 8 && c.at + c.size <= limit && !(c.at + 8 <= p < c.at + c.size)
    decreases n
  {
    hide U32At;
    var size := U32At(s, at + 4, big);
    if size >= 8 && at + size <= limit {
      if !(at <= p < at + 8) {
        SteersOutsidePayloads(s, big, at + size, n - 1, limit, p, if k == 0 then 0 else k - 1);
      } else if k > 0 && k < |Walk(s, big, at, n, limit)| {
        WalkLaysOut(s, big, at + size, n - 1, limit, k - 1);
      }
    }
  }

  /** The commands lie one after another between `at` and the end of the walk. */
  lemma {:induction false} WalkLaysOut(s: seq<byte>, big: bool, at: nat, n: nat, limit: nat, k: nat)
    requires limit <= |s| && k < |Walk(s, big, at, n, limit)|
    ensures var c := Walk(s, big, at, n, limit)[k];
            at <= c.at && 8 <= c.size && c.at + c.size <= limit && c.at + c.size <= WalkEnd(s, big, at, n, limit)
    decreases n
  {
    hide U32At;
    if k > 0 {
      WalkLaysOut(s, big, at + U32At(s, at + 4, big), n - 1, limit, k - 1);
    } else {
      assert WalkEnd(s, big, at, n, limit) == WalkEnd(s, big, at + U32At(s, at + 4, big), n - 1, limit);
    }
  }

  /** `p` decides what the image's command table is. */
  predicate SteersImage(s: seq<byte>, base: nat, size: nat, p: int)
    requires base + size <= |s|
  {
    var t := TableOf(s, base, size);
    base <= p < base + 28 || Steers(s, t.big, t.at, t.n, base + size, p)
  }

  lemma {:induction false} ImageFrame(s: seq<byte>, t: seq<byte>, base: nat, size: nat)
    requires base + size <= |s| == |t|
    requires forall p :: 0 <= p < |s| && SteersImage(s, base, size, p) ==> t[p] == s[p]
    ensures TableOf(t, base, size) == TableOf(s, base, size)
    ensures Commands(t, base, size) == Commands(s, base, size)
    ensures TableEnd(t, base, size) == TableEnd(s, base, size)
  {
    hide TableOf, Walk, WalkEnd, Steers;
    assert forall p :: base <= p < base + 28 && p < |s| ==> SteersImage(s, base, size, p);
    HeaderFrame(s, t, base, size);
    var table := TableOf(s, base, size);
    forall p | 0 <= p < |s| && Steers(s, table.big, table.at, table.n, base + size, p) ensures t[p] == s[p] {
      assert SteersImage(s, base, size, p);
    }
    WalkFrame(s, t, table.big, table.at, table.n, base + size);
  }

  /** The first bytes of an image say where its table starts and how long it is. */
  lemma {:induction false} HeaderFrame(s: seq<byte>, t: seq<byte>, base: nat, size: nat)
    requires base + size <= |s| == |t|
    requires forall p :: base <= p < base + 28 && p < |s| ==> t[p] == s[p]
    ensures TableOf(t, base, size) == TableOf(s, base, size)
  {
    hide U32At;
    assert size >= 4 ==> t[base..base + 4] == s[base..base + 4];
    var shape := ShapeOf(s, base, size);
    assert ShapeOf(t, base, size) == shape;
    hide ShapeOf;
    if shape.Thin? && size >= HeaderSize(shape.wide) {
      SameU32(s, t, base + 16, shape.big);
    }
  }

  // ---------------------------------------------------------------- UUIDs

  /** `p` is one of the sixteen bytes of a UUID that the walk reaches. */
  predicate InUuid(cs: seq<Command>, p: int) {
    exists k :: 0 <= k < |cs| && cs[k].cmd == LC_UUID && cs[k].size >= 24 && cs[k].at + 8 <= p < cs[k].at + 24
  }

  function ZeroUuids(s: seq<byte>, base: nat, size: nat): (r: seq<byte>)
    requires base + size <= |s|
    ensures |r| == |s|
  {
    ZeroUuidsOf(s, Commands(s, base, size))
  }

  function ZeroUuidsOf(s: seq<byte>, cs: seq<Command>): (r: seq<byte>)
    ensures |r| == |s|
  {
    seq(|s|, p requires 0 <= p < |s| => if InUuid(cs, p) then 0 else s[p])
  }

  /** Zeroing the UUIDs leaves the walk, and so the set of UUID bytes, as it was. */
  lemma {:induction false} ZeroUuidsKeepsWalk(s: seq<byte>, base: nat, size: nat)
    requires base + size <= |s|
    ensures Commands(ZeroUuids(s, base, size), base, size) == Commands(s, base, size)
  {
    var cs := Commands(s, base, size);
    var t := TableOf(s, base, size);
    forall p | 0 <= p < |s| && SteersImage(s, base, size, p) ensures ZeroUuids(s, base, size)[p] == s[p] {
      if InUuid(cs, p) {
        var k :| 0 <= k < |cs| && cs[k].cmd == LC_UUID && cs[k].size >= 24 && cs[k].at + 8 <= p < cs[k].at + 24;
        WalkLaysOut(s, t.big, t.at, t.n, base + size, k);
        if p >= base + 28 {
          SteersOutsidePayloads(s, t.big, t.at, t.n, base + size, p, k);
        }
        assert false;
      }
    }
    ImageFrame(s, ZeroUuids(s, base, size), base, size);
  }

  lemma {:induction false} ZeroUuidsIdempotent(s: seq<byte>, base: nat, size: nat)
    requires base + size <= |s|
    ensures ZeroUuids(ZeroUuids(s, base, size), base, size) == ZeroUuids(s, base, size)
  {
    ZeroUuidsKeepsWalk(s, base, size);
  }

  method ZeroRange(data: array<byte>, lo: nat, hi: nat)
    requires lo <= hi <= data.Length
    modifies data
    ensures forall p :: 0 <= p < data.Length ==> data[p] == if lo <= p < hi then 0 else old(data[p])
  {
    for i := lo to hi
      invariant forall p :: 0 <= p < data.Length ==> data[p] == if lo <= p < i then 0 else old(data[p])
    {
      data[i] := 0;
    }
  }

  /** The UUID pass over a thin image, in place. */
  method ZeroThinUuids(data: array<byte>, base: nat, size: nat)
    requires base + size <= data.Length
    modifies data
    ensures data[..] == ZeroUuids(old(data[..]), base, size)
  {
    hide U32At, ShapeOf, InUuid, UuidsDone, ZeroUuidsOf;
    ghost var was := data[..];
    var shape := ShapeOf(data[..], base, size);
    UuidsDoneStart(was, base);
    if !shape.Thin? || size < HeaderSize(shape.wide) {
      UuidsDoneEnd(was, was, [], base);
      return;
    }
    var ncmds := U32At(data[..], base + 16, shape.big);
    var command: nat := base + HeaderSize(shape.wide);
    var limit := base + size;
    ghost var done: seq<Command> := [];
    var i := 0;
    UuidsDoneStart(was, command);
    while i < ncmds
      invariant 0 <= i <= ncmds
      invariant Commands(was, base, size) == done + Walk(was, shape.big, command, ncmds - i, limit)
      invariant UuidsDone(was, data[..], done, command)
    {
      UuidsDoneEnd(was, data[..], done, command);
      assert done + [] == done;
      if command + 8 > limit {
        return;
      }
      var (cmd, cmdsize) := (U32At(data[..], command, shape.big), U32At(data[..], command + 4, shape.big));
      SameU32(was, data[..], command, shape.big);
      SameU32(was, data[..], command + 4, shape.big);
      if cmdsize < 8 || command + cmdsize > limit {
        return;
      }
      ghost var before := data[..];
      if cmd == LC_UUID && cmdsize >= 24 {
        ZeroRange(data, command + 8, command + 24);
      }
      UuidsDoneStep(was, before, data[..], done, Command(command, cmd, cmdsize));
      done := done + [Command(command, cmd, cmdsize)];
      command := command + cmdsize;
      i := i + 1;
    }
    UuidsDoneEnd(was, data[..], done, command);
    assert done + [] == done;
  }

  /** `s` is `was` with the UUIDs of the commands in `done` zeroed; all of them end by `at`. */
  ghost predicate UuidsDone(was: seq<byte>, s: seq<byte>, done: seq<Command>, at: nat) {
    && |s| == |was|
    && (forall k :: 0 <= k < |done| ==> done[k].at + done[k].size <= at)
    && (forall p :: 0 <= p < |s| ==> s[p] == if InUuid(done, p) then 0 else was[p])
    && (forall p :: at <= p < |s| ==> s[p] == was[p])
  }

  lemma {:induction false} UuidsDoneStart(was: seq<byte>, at: nat)
    ensures UuidsDone(was, was, [], at)
  {
  }

  lemma {:induction false} UuidsDoneEnd(was: seq<byte>, s: seq<byte>, done: seq<Command>, at: nat)
    requires UuidsDone(was, s, done, at)
    ensures s == ZeroUuidsOf(was, done)
    ensures forall p :: at <= p < |s| ==> s[p] == was[p]
  {
  }

  lemma {:induction false} UuidsDoneStep(was: seq<byte>, s: seq<byte>, t: seq<byte>, done: seq<Command>, c: Command)
    requires UuidsDone(was, s, done, c.at) && |t| == |s| && c.size >= 8
    requires forall p :: 0 <= p < |s| ==>
               t[p] == if c.cmd == LC_UUID && c.size >= 24 && c.at + 8 <= p < c.at + 24 then 0 else s[p]
    ensures UuidsDone(was, t, done + [c], c.at + c.size)
  {
    var next := done + [c];
    forall p | 0 <= p < |s| ensures t[p] == if InUuid(next, p) then 0 else was[p] {
      if InUuid(done, p) {
        var k :| 0 <= k < |done| && done[k].cmd == LC_UUID && done[k].size >= 24 && done[k].at + 8 <= p < done[k].at + 24;
        assert next[k] == done[k];
      } else if InUuid(next, p) {
        var k :| 0 <= k < |next| && next[k].cmd == LC_UUID && next[k].size >= 24 && next[k].at + 8 <= p < next[k].at + 24;
        assert k < |done| ==> next[k] == done[k];
      } else {
        assert next[|done|] == c;
      }
    }
  }
}
