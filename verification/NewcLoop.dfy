/** The archive reader as it runs: a file cursor, a running byte count and two collections. */
module NewcLoop {
  import opened Bytes
  import opened Collections
  import opened NewcReader

  class Input {
    const data: seq<byte>
    var pos: nat

    constructor (data: seq<byte>)
      ensures this.data == data && pos == 0
    {
      this.data := data;
      pos := 0;
    }

    /** Up to `n` bytes; fewer only at the end. */
    method Read(n: nat) returns (chunk: seq<byte>)
      requires pos <= |data|
      modifies this
      ensures pos == old(pos) + |chunk| && pos <= |data| && chunk == data[old(pos)..pos]
      ensures |chunk| == n || (|chunk| < n && pos == |data|)
    {
      var end := if pos + n <= |data| then pos + n else |data|;
      chunk := data[pos..end];
      pos := end;
    }

    method ReadExact(size: int) returns (r: Result<seq<byte>>)
      requires pos <= |data|
      modifies this
      ensures pos <= |data|
      ensures r.Ok? <==> Skip(data, old(pos), size).Ok?
      ensures r.Ok? ==> pos == old(pos) + size && r.value == data[old(pos)..pos]
    {
      if size < 0 {
        return Err;
      }
      var chunk := Read(size);
      r := if |chunk| == size then Ok(chunk) else Err;
    }

    /** Skip in chunks of at most a mebibyte. */
    method SkipExact(size: int) returns (ok: bool)
      requires pos <= |data|
      modifies this
      ensures pos <= |data|
      ensures ok <==> Skip(data, old(pos), size).Ok?
      ensures ok ==> pos == old(pos) + size
    {
      if size < 0 {
        return false;
      }
      var left: nat := size;
      while left > 0
        invariant pos <= |data| && pos + left == old(pos) + size
      {
        var chunk := Read(if left < 1024 * 1024 then left else 1024 * 1024);
        if chunk == [] {
          return false;
        }
        left := left - |chunk|;
      }
      return true;
    }
  }

  method NewcEntries(file: Input, selected: Selection) returns (r: Result<Captured>)
    requires file.pos == 0
    modifies file
    ensures r == Entries(file.data, selected)
  {
    hide ReadEntry, IsUtf8, ParseHeader;
    var captured: Captured := map[];
    var seen: set<seq<byte>> := {};
    var uncompressed: nat := 0;
    for i := 0 to MAX_ENTRIES
      invariant uncompressed == file.pos <= |file.data| && file.pos % 4 == 0
      invariant Entries(file.data, selected) == ReadEntries(file.data, file.pos, MAX_ENTRIES - i, seen, captured, selected)
    {
      var step, count := NextEntry(file, uncompressed, seen, captured, selected);
      if step.Bad? {
        return Err;
      }
      if step.Finished? {
        return Ok(step.captured);
      }
      seen, captured, uncompressed := step.seen, step.captured, count;
    }
    return Err;
  }

  /** One iteration: the file and the count advance together, from one multiple of four to the next. */
  method NextEntry(file: Input, uncompressed: nat, seen: set<seq<byte>>, captured: Captured, selected: Selection)
    returns (step: Progress, count: nat)
    requires uncompressed == file.pos <= |file.data| && file.pos % 4 == 0
    modifies file
    ensures step == ReadEntry(file.data, old(file.pos), seen, captured, selected)
    ensures step.More? ==> count == file.pos == step.pos
  {
    hide IsUtf8, ParseHeader, AllZero;
    ghost var pos := file.pos;
    step, count := Bad, uncompressed;
    var header := file.ReadExact(110);
    if header.Err? {
      return;
    }
    count := count + |header.value|;
    var parsed := ParseHeader(header.value);
    if parsed.None? {
      return;
    }
    var h := parsed.value;
    if !(1 <= h.nameSize <= 4096) || h.size > MAX_ARCHIVE_BYTES {
      return;
    }
    var raw := file.ReadExact(h.nameSize);
    if raw.Err? {
      return;
    }
    count := count + h.nameSize;
    if raw.value[|raw.value| - 1] != 0 {
      return;
    }
    var name := raw.value[..|raw.value| - 1];
    assert name == file.data[pos + 110..pos + 110 + h.nameSize - 1];
    if !IsUtf8(name) || name in seen {
      return;
    }
    var padding := Padding(110 + h.nameSize);
    var skipped := file.SkipExact(padding);
    if !skipped {
      return;
    }
    count := count + padding;
    assert file.pos == BodyAt(pos, h.nameSize);
    step, count := NextBody(file, pos, count, h, name, seen + {name}, captured, selected);
  }

  method NextBody(file: Input, ghost pos: nat, uncompressed: nat, h: Header, name: seq<byte>, seen: set<seq<byte>>, captured: Captured,
                  selected: Selection) returns (step: Progress, count: nat)
    requires pos < uncompressed == file.pos <= |file.data| && file.pos % 4 == 0
    modifies file
    ensures step == ReadBody(file.data, pos, old(file.pos), h, name, seen, captured, selected)
    ensures step.More? ==> count == file.pos == step.pos
  {
    ghost var body := file.pos;
    step, count := Bad, uncompressed;
    if uncompressed + h.size > MAX_ARCHIVE_BYTES {
      return;
    }
    if name == TRAILER {
      var tail := file.Read(4097);
      var more := file.Read(1);
      assert |tail| <= 4096 ==> tail == file.data[body..];
      if h.size == 0 && |tail| <= 4096 && AllZero(tail) && more == [] {
        step := Finished(captured);
      }
      return;
    }
    var kept := captured;
    if selected(name) {
      if h.size > MAX_CAPTURE_BYTES {
        return;
      }
      var contents := file.ReadExact(h.size);
      if contents.Err? {
        return;
      }
      kept := captured[name := (h.mode, contents.value)];
    } else {
      var skipped := file.SkipExact(h.size);
      if !skipped {
        return;
      }
    }
    count := count + h.size;
    var skipped := file.SkipExact(Padding(h.size));
    if !skipped {
      return;
    }
    count := count + Padding(h.size);
    step := More(file.pos, seen, kept);
  }
}
