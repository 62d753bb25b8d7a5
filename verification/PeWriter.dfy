/** Portable Executable images written out field by field, against what is found in them and what is left of them. */
module PeWriter {
  import opened Bytes
  import opened Collections
  import opened PeCanonical

  /** An image. `dos` and `stub` come before the PE header; `coff` and `flags` surround the size of the optional header, which
      holds `early`, the checksum, `middle`, four directories, the certificate directory and `late`; `body` follows. */
  datatype Pe = Pe(dos: seq<byte>, stub: seq<byte>, coff: seq<byte>, flags: seq<byte>, wide: bool, early: seq<byte>, checksum: word,
                   middle: seq<byte>, directories: seq<byte>, offset: word, size: word, late: seq<byte>, body: seq<byte>)

  predicate ValidPe(x: Pe) {
    && |x.dos| == 0x3A && |x.coff| == 16 && |x.flags| == 2 && |x.early| == 62 && |x.middle| == (if x.wide then 44 else 28)
    && |x.directories| == 32 && OptionalSize(x) < 0x1_0000 && 0x40 + |x.stub| < 0x1_0000_0000
  }

  /** The optional header, up to `late`, is this long. */
  function OptionalSize(x: Pe): nat { 2 + |x.early| + 4 + |x.middle| + |x.directories| + 8 + |x.late| }

  function PutDos(x: Pe): (r: seq<byte>)
    requires ValidPe(x)
    ensures |r| == 0x40 + |x.stub|
  {
    [0x4D, 0x5A] + (x.dos + (ToLe32(0x40 + |x.stub|) + x.stub))
  }

  function PutCoff(x: Pe): (r: seq<byte>)
    requires ValidPe(x)
    ensures |r| == 24
  {
    [0x50, 0x45, 0, 0] + (x.coff + (ToLe16(OptionalSize(x)) + x.flags))
  }

  function PutOptional(x: Pe): (r: seq<byte>)
    requires ValidPe(x)
    ensures |r| == OptionalSize(x)
  {
    ToLe16(if x.wide then 0x20B else 0x10B) + (x.early + (ToLe32(x.checksum) + (x.middle + (x.directories
      + (ToLe32(x.offset) + (ToLe32(x.size) + x.late))))))
  }

  function PutPe(x: Pe): (r: seq<byte>)
    requires ValidPe(x)
    ensures |r| == OptionalAt(x) + OptionalSize(x) + |x.body|
  {
    PutDos(x) + (PutCoff(x) + (PutOptional(x) + x.body))
  }

  function OptionalAt(x: Pe): nat { 0x40 + |x.stub| + 24 }

  /** The checksum follows the magic number and `early`; the certificate directory is the fifth. */
  function WrittenLayout(x: Pe): Layout {
    var at := OptionalAt(x);
    Layout(at + OptionalSize(x), at + 2 + |x.early|, at + 2 + |x.early| + 4 + |x.middle| + |x.directories|)
  }

  // ---------------------------------------------------------------- reading back

  lemma {:induction false} ReadsLe16(d: seq<byte>, at: nat, n: nat)
    requires n < 0x1_0000 && HasAt(d, at, ToLe16(n))
    ensures Le16(d, at) == n
  {
    assert d[at..at + 2] == ToLe16(n);
    assert d[at] == ToLe16(n)[0] && d[at + 1] == ToLe16(n)[1];
  }

  lemma {:induction false} ReadsLe32(d: seq<byte>, at: nat, w: word)
    requires HasAt(d, at, ToLe32(w))
    ensures Le32(d, at) == w
  {
    ReadsU32(d, at, w, false);
  }

  lemma {:induction false} PeParts(x: Pe)
    requires ValidPe(x)
    ensures var d := PutPe(x);
            && HasAt(d, 0, PutDos(x)) && HasAt(d, 0x40 + |x.stub|, PutCoff(x)) && HasAt(d, OptionalAt(x), PutOptional(x))
  {
    var d := PutPe(x);
    assert HasAt(d, 0, PutDos(x) + (PutCoff(x) + (PutOptional(x) + x.body)));
    hide HasAt, PutDos, PutCoff, PutOptional, PutPe, ValidPe;
    HasParts(d, 0, PutDos(x), PutCoff(x) + (PutOptional(x) + x.body));
    HasParts(d, 0x40 + |x.stub|, PutCoff(x), PutOptional(x) + x.body);
    HasParts(d, OptionalAt(x), PutOptional(x), x.body);
  }

  lemma {:induction false} DosParts(d: seq<byte>, x: Pe)
    requires ValidPe(x) && HasAt(d, 0, PutDos(x))
    ensures HasAt(d, 0, [0x4D, 0x5A]) && |d| >= 0x40 && PeOffset(d) == 0x40 + |x.stub|
  {
    assert |PutDos(x)| <= |d|;
    hide HasAt, ToLe32, Le32;
    HasParts(d, 0, [0x4D, 0x5A], x.dos + (ToLe32(0x40 + |x.stub|) + x.stub));
    HasParts(d, 2, x.dos, ToLe32(0x40 + |x.stub|) + x.stub);
    HasParts(d, 0x3C, ToLe32(0x40 + |x.stub|), x.stub);
    ReadsLe32(d, 0x3C, 0x40 + |x.stub|);
  }

  lemma {:induction false} CoffParts(d: seq<byte>, at: nat, x: Pe)
    requires ValidPe(x) && HasAt(d, at, PutCoff(x))
    ensures HasAt(d, at, [0x50, 0x45, 0, 0]) && at + 24 <= |d| && Le16(d, at + 20) == OptionalSize(x)
  {
    assert at + |PutCoff(x)| <= |d|;
    hide HasAt, ToLe16, Le16, OptionalSize;
    HasParts(d, at, [0x50, 0x45, 0, 0], x.coff + (ToLe16(OptionalSize(x)) + x.flags));
    HasParts(d, at + 4, x.coff, ToLe16(OptionalSize(x)) + x.flags);
    HasParts(d, at + 20, ToLe16(OptionalSize(x)), x.flags);
    ReadsLe16(d, at + 20, OptionalSize(x));
  }

  lemma {:induction false} OptionalParts(d: seq<byte>, at: nat, x: Pe)
    requires ValidPe(x) && HasAt(d, at, PutOptional(x))
    ensures at + OptionalSize(x) <= |d| && Le16(d, at) == if x.wide then 0x20B else 0x10B
    ensures var certificate := at + 2 + |x.early| + 4 + |x.middle| + |x.directories|;
            && certificate + 8 <= |d| && Le32(d, certificate) == x.offset && Le32(d, certificate + 4) == x.size
  {
    assert at + |PutOptional(x)| <= |d|;
    hide HasAt, ToLe16, ToLe32, Le16, Le32;
    var (three, two) := (ToLe32(x.size) + x.late, ToLe32(x.offset) + (ToLe32(x.size) + x.late));
    var one := x.middle + (x.directories + two);
    var magic := ToLe16(if x.wide then 0x20B else 0x10B);
    HasParts(d, at, magic, x.early + (ToLe32(x.checksum) + one));
    HasParts(d, at + 2, x.early, ToLe32(x.checksum) + one);
    HasParts(d, at + 2 + |x.early|, ToLe32(x.checksum), one);
    var middle := at + 2 + |x.early| + 4;
    HasParts(d, middle, x.middle, x.directories + two);
    HasParts(d, middle + |x.middle|, x.directories, two);
    var certificate := middle + |x.middle| + |x.directories|;
    HasParts(d, certificate, ToLe32(x.offset), three);
    HasParts(d, certificate + 4, ToLe32(x.size), x.late);
    ReadsLe16(d, at, if x.wide then 0x20B else 0x10B);
    ReadsLe32(d, certificate, x.offset);
    ReadsLe32(d, certificate + 4, x.size);
  }

  lemma {:induction false} ReadsSignatures(d: seq<byte>, pe: nat)
    requires |d| >= 0x40 && PeOffset(d) == pe && HasAt(d, 0, [0x4D, 0x5A]) && HasAt(d, pe, [0x50, 0x45, 0, 0])
    ensures IsPe(d)
  {
    assert d[0] == d[0..2][0] && d[1] == d[0..2][1];
    assert d[pe] == d[pe..pe + 4][0] && d[pe + 1] == d[pe..pe + 4][1] && d[pe + 2] == d[pe..pe + 4][2] && d[pe + 3] == d[pe..pe + 4][3];
  }

  /** In every written image the checksum and the certificate directory are found where they were written. */
  lemma {:induction false} ReadsPe(x: Pe)
    requires ValidPe(x)
    ensures var (d, l) := (PutPe(x), WrittenLayout(x));
            && IsPe(d) && LayoutOf(d) == Ok(l) && TableOffset(d, l) == x.offset && TableSize(d, l) == x.size
  {
    var d := PutPe(x);
    hide PutPe, PutDos, PutCoff, PutOptional, HasAt, Le16, Le32, ToLe16, ToLe32, IsPe, PeOffset;
    PeParts(x);
    DosParts(d, x);
    CoffParts(d, 0x40 + |x.stub|, x);
    OptionalParts(d, OptionalAt(x), x);
    ReadsSignatures(d, 0x40 + |x.stub|);
  }

  // ---------------------------------------------------------------- what is left

  /** The image as it would have been written unsigned and without a checksum. */
  function Bare(x: Pe): (r: Pe)
    requires ValidPe(x)
    ensures ValidPe(r)
  {
    x.(checksum := 0, offset := 0, size := 0)
  }

  /** The table fills the file from `offset`, up to seven bytes of padding. */
  predicate ReachesEnd(offset: nat, size: nat, length: nat) {
    offset + size <= length < offset + size + 8 && (length - offset) % 8 == 0
  }

  lemma {:induction false} AlignedReaches(offset: nat, size: nat, length: nat)
    ensures offset <= length && offset + Aligned(size) == length <==> ReachesEnd(offset, size, length)
  {
  }

  lemma {:induction false} ZeroedWords(a: seq<byte>, c: seq<byte>, b: seq<byte>, o: seq<byte>, late: seq<byte>, z: seq<byte>, i: nat)
    requires |c| == |z| == 4 && |o| == 8 && (forall j :: 0 <= j < 4 ==> z[j] == 0) && i < |a| + 4 + |b| + 8 + |late|
    ensures var (from, at) := (|a|, |a| + 4 + |b|);
            (a + (z + (b + ((z + z) + late))))[i]
            == if from <= i < from + 4 || at <= i < at + 8 then 0 else (a + (c + (b + (o + late))))[i]
  {
  }

  function OptionalHead(x: Pe): seq<byte> { ToLe16(if x.wide then 0x20B else 0x10B) + x.early }

  lemma {:induction false} OptionalGroups(x: Pe)
    requires ValidPe(x)
    ensures PutOptional(x) == OptionalHead(x)
                              + (ToLe32(x.checksum) + ((x.middle + x.directories) + ((ToLe32(x.offset) + ToLe32(x.size)) + x.late)))
  {
    hide ToLe16, ToLe32;
  }

  lemma {:induction false} BareOptional(x: Pe, i: nat)
    requires ValidPe(x) && i < OptionalSize(x)
    ensures OptionalSize(Bare(x)) == OptionalSize(x)
    ensures var l := WrittenLayout(x);
            PutOptional(Bare(x))[i] == if Volatile(l, OptionalAt(x) + i) then 0 else PutOptional(x)[i]
  {
    hide PutOptional, ToLe32;
    var (l, head, words) := (WrittenLayout(x), OptionalHead(x), ToLe32(x.offset) + ToLe32(x.size));
    var from := 2 + |x.early|;
    assert ValidPe(Bare(x)) && OptionalSize(Bare(x)) == OptionalSize(x) && OptionalHead(Bare(x)) == head && |head| == from;
    assert OptionalSize(x) == from + 4 + |x.middle + x.directories| + 8 + |x.late|;
    assert l.checksum == OptionalAt(x) + from && l.certificate == OptionalAt(x) + from + 4 + |x.middle + x.directories|;
    hide OptionalHead, WrittenLayout, OptionalSize, OptionalAt, ValidPe;
    OptionalGroups(x);
    OptionalGroups(Bare(x));
    ZeroWord(0);
    ZeroedWords(head, ToLe32(x.checksum), x.middle + x.directories, words, x.late, ToLe32(0), i);
  }

  lemma {:induction false} ZeroWord(w: word)
    requires w == 0
    ensures forall j :: 0 <= j < 4 ==> ToLe32(w)[j] == 0
  {
    hide ToLe32;
    var zeros: seq<byte> := [0, 0, 0, 0];
    Le32Injective(ToLe32(w), zeros, 0);
  }

  lemma {:induction false} BareIsCleared(x: Pe)
    requires ValidPe(x)
    ensures Cleared(PutPe(x), WrittenLayout(x)) == PutPe(Bare(x))
  {
    hide PutOptional;
    var (d, b, l) := (PutPe(x), PutPe(Bare(x)), WrittenLayout(x));
    forall i | 0 <= i < |d| ensures b[i] == if Volatile(l, i) then 0 else d[i] {
      if OptionalAt(x) <= i < OptionalAt(x) + OptionalSize(x) {
        BareOptional(x, i - OptionalAt(x));
      }
    }
  }

  /** An image without its table, or an error when it has one that does not reach its end. */
  function WithoutTable(bare: seq<byte>, offset: word, size: word): Result<seq<byte>> {
    if offset == 0 && size == 0 then Ok(bare)
    else if ReachesEnd(offset, size, |bare|) then Ok(bare[..offset])
    else Err
  }

  /** The canonical bytes of a written image are those of the image written unsigned and without a checksum, up to the
      certificate table; and an image is refused exactly when it has a table that does not reach its end. */
  lemma {:induction false} CanonicalOfWrittenPe(x: Pe)
    requires ValidPe(x)
    ensures Canonical(PutPe(x)) == WithoutTable(PutPe(Bare(x)), x.offset, x.size)
  {
    hide PutPe, IsPe, LayoutOf, Cleared, WrittenLayout, Aligned, ReachesEnd, Le32;
    ReadsPe(x);
    BareIsCleared(x);
    AlignedReaches(x.offset, x.size, |PutPe(x)|);
  }
}
