/** Portable Executable images reduced to the bytes that signing does not touch. */
module PeCanonical {
  import opened Bytes
  import opened Collections

  function ReadU16(d: seq<byte>, at: int): Result<nat> {
    if at < 0 || at + 2 > |d| then Err else Ok(Le16(d, at))
  }

  function PeOffset(d: seq<byte>): nat
    requires |d| >= 0x40
  {
    Le32(d, 0x3C)
  }

  predicate IsPe(d: seq<byte>) {
    && |d| >= 0x40 && d[0] == 0x4D && d[1] == 0x5A
    && var pe := PeOffset(d);
      pe + 4 <= |d| && d[pe] == 0x50 && d[pe + 1] == 0x45 && d[pe + 2] == 0 && d[pe + 3] == 0
  }

  /** Where the optional header ends, and where the two volatile fields are. */
  datatype Layout = Layout(end: nat, checksum: nat, certificate: nat)

  function DirectoriesAt(magic: nat): Option<nat> {
    if magic == 0x10B then Some(96) else if magic == 0x20B then Some(112) else None
  }

  function LayoutOf(d: seq<byte>): (r: Result<Layout>)
    requires IsPe(d)
    ensures r.Ok? ==> Separate(PeOffset(d), r.value) && Fits(d, r.value)
  {
    var optional := PeOffset(d) + 24;
    match ReadU16(d, optional - 4)
    case Err => Err
    case Ok(size) =>
      if optional + size > |d| then Err
      else
        match ReadU16(d, optional)
        case Err => Err
        case Ok(magic) =>
          match DirectoriesAt(magic)
          case None => Err
          case Some(directories) =>
            if optional + directories + 8 * 4 + 8 > optional + size then Err
            else Ok(Layout(optional + size, optional + 64, optional + directories + 8 * 4))
  }

  /** The fields that are read to find the layout lie before the checksum, which lies before the certificate entry. */
  predicate Separate(pe: nat, l: Layout) {
    0x40 <= l.checksum && pe + 26 <= l.checksum && l.checksum + 4 <= l.certificate && l.certificate + 8 <= l.end
  }

  function Put32(d: seq<byte>, at: nat, w: word): (r: seq<byte>)
    requires at + 4 <= |d|
    ensures |r| == |d| && Le32(r, at) == w
    ensures forall i :: 0 <= i < |d| && !(at <= i < at + 4) ==> r[i] == d[i]
  {
    var b := ToLe32(w);
    d[at := b[0]][at + 1 := b[1]][at + 2 := b[2]][at + 3 := b[3]]
  }

  predicate Fits(d: seq<byte>, l: Layout) {
    l.checksum + 4 <= l.certificate && l.certificate + 8 <= l.end <= |d|
  }

  /** The image with its three volatile words set. */
  function Stamped(d: seq<byte>, l: Layout, checksum: word, offset: word, size: word): (r: seq<byte>)
    requires Fits(d, l)
    ensures |r| == |d|
    ensures forall i :: 0 <= i < |d| && !Volatile(l, i) ==> r[i] == d[i]
  {
    Put32(Put32(Put32(d, l.checksum, checksum), l.certificate, offset), l.certificate + 4, size)
  }

  lemma {:induction false} StampedWords(d: seq<byte>, l: Layout, checksum: word, offset: word, size: word)
    requires Fits(d, l)
    ensures var r := Stamped(d, l, checksum, offset, size);
      Le32(r, l.checksum) == checksum && Le32(r, l.certificate) == offset && Le32(r, l.certificate + 4) == size
  {
    hide Put32;
    var one := Put32(d, l.checksum, checksum);
    var two := Put32(one, l.certificate, offset);
    var three := Put32(two, l.certificate + 4, size);
    assert Le32(two, l.checksum) == checksum && Le32(three, l.checksum) == checksum && Le32(three, l.certificate) == offset;
  }

  predicate Volatile(l: Layout, i: int) {
    l.checksum <= i < l.checksum + 4 || l.certificate <= i < l.certificate + 8
  }

  /** The image with its volatile fields zeroed. */
  function Cleared(d: seq<byte>, l: Layout): (r: seq<byte>)
    ensures |r| == |d|
  {
    seq(|d|, i requires 0 <= i < |d| => if Volatile(l, i) then 0 else d[i])
  }

  function Aligned(size: nat): nat { (size + 7) / 8 * 8 }

  /** The recorded place and size of the certificate table. */
  function TableOffset(d: seq<byte>, l: Layout): word
    requires Fits(d, l)
  {
    Le32(d, l.certificate)
  }

  function TableSize(d: seq<byte>, l: Layout): word
    requires Fits(d, l)
  {
    Le32(d, l.certificate + 4)
  }

  predicate HasTable(d: seq<byte>, l: Layout)
    requires Fits(d, l)
  {
    TableOffset(d, l) != 0 || TableSize(d, l) != 0
  }

  /** The table can be stripped only when it is the last thing in the file. */
  predicate TableAtEnd(d: seq<byte>, l: Layout)
    requires Fits(d, l)
  {
    TableOffset(d, l) <= |d| && TableOffset(d, l) + Aligned(TableSize(d, l)) == |d|
  }

  function Stripped(d: seq<byte>, l: Layout): Result<seq<byte>>
    requires Fits(d, l)
  {
    if !HasTable(d, l) then Ok(Cleared(d, l))
    else if TableAtEnd(d, l) then Ok(Cleared(d, l)[..TableOffset(d, l)])
    else Err
  }

  function Canonical(d: seq<byte>): Result<seq<byte>> {
    if !IsPe(d) then Ok(d)
    else
      match LayoutOf(d)
      case Err => Err
      case Ok(l) => Stripped(d, l)
  }

  // ---------------------------------------------------------------- as it runs, over a byte buffer

  method WriteU32(out: array<byte>, at: nat, w: word)
    requires at + 4 <= out.Length
    modifies out
    ensures out[..] == Put32(old(out[..]), at, w)
  {
    var b := ToLe32(w);
    out[at], out[at + 1], out[at + 2], out[at + 3] := b[0], b[1], b[2], b[3];
  }

  method CanonicalPeBytes(data: seq<byte>) returns (r: Result<seq<byte>>)
    ensures r == Canonical(data)
  {
    hide IsPe, LayoutOf, Le32;
    if !IsPe(data) {
      return Ok(data);
    }
    var layout := LayoutOf(data);
    if layout.Err? {
      return Err;
    }
    var l := layout.value;
    var out := new byte[|data|](i requires 0 <= i < |data| => data[i]);
    assert out[..] == data;
    var (offset, size) := (TableOffset(out[..], l), TableSize(out[..], l));
    WriteU32(out, l.checksum, 0);
    WriteU32(out, l.certificate, 0);
    WriteU32(out, l.certificate + 4, 0);
    assert out[..] == Cleared(data, l);
    if offset == 0 && size == 0 {
      return Ok(out[..]);
    }
    var end := offset + Aligned(size);
    if offset > out.Length || end > out.Length {
      return Err;
    }
    if end != out.Length {
      return Err;
    }
    return Ok(out[..offset]);
  }

  // ---------------------------------------------------------------- the header decides, and is never disturbed

  ghost predicate SameHeader(a: seq<byte>, b: seq<byte>, l: Layout) {
    l.end <= |a| && l.end <= |b| && forall i :: 0 <= i < l.end && !Volatile(l, i) ==> a[i] == b[i]
  }

  lemma {:induction false} HeaderDecides(a: seq<byte>, b: seq<byte>, l: Layout)
    requires IsPe(a) && LayoutOf(a) == Ok(l) && SameHeader(a, b, l)
    ensures IsPe(b) && LayoutOf(b) == Ok(l)
  {
    var pe := PeOffset(a);
    assert forall i :: 0 <= i < 0x40 || pe <= i < pe + 26 ==> a[i] == b[i];
    assert PeOffset(b) == pe;
    assert Le16(b, pe + 20) == Le16(a, pe + 20) && Le16(b, pe + 24) == Le16(a, pe + 24);
  }

  /** Every byte of the canonical form: the volatile fields are zero, the others are the image's own; what is cut is the table. */
  lemma {:induction false} CanonicalBytes(d: seq<byte>, l: Layout, c: seq<byte>)
    requires Fits(d, l) && Stripped(d, l) == Ok(c)
    ensures |c| == if HasTable(d, l) then TableOffset(d, l) else |d|
    ensures |c| == |d| || |d| == |c| + Aligned(TableSize(d, l))
    ensures forall i :: 0 <= i < |c| ==> c[i] == if Volatile(l, i) then 0 else d[i]
  {
    hide Aligned, Le32;
  }

  // ---------------------------------------------------------------- signing

  predicate Unsigned(d: seq<byte>)
    requires IsPe(d) && LayoutOf(d).Ok?
  {
    !HasTable(d, LayoutOf(d).value)
  }

  /** A signer: pad the image, stamp a checksum and the table's place, append the table and fill it up to eight bytes. */
  function Sign(d: seq<byte>, checksum: word, padding: seq<byte>, table: seq<byte>, fill: seq<byte>): seq<byte>
    requires IsPe(d) && LayoutOf(d).Ok?
    requires |d| + |padding| < 0x1_0000_0000 && |table| < 0x1_0000_0000 && |table| + |fill| == Aligned(|table|)
  {
    Stamped(d, LayoutOf(d).value, checksum, |d| + |padding|, |table|) + padding + table + fill
  }

  lemma {:induction false} ClearedAgree(a: seq<byte>, b: seq<byte>, l: Layout)
    requires |a| <= |b|
    requires forall i :: 0 <= i < |a| && !Volatile(l, i) ==> a[i] == b[i]
    ensures Cleared(a, l) == Cleared(b, l)[..|a|]
  {
    hide Volatile;
  }

  /** Signing an unsigned image leaves its canonical bytes, followed by whatever padding the signer put before the table. */
  lemma {:induction false} SignedCanonical(d: seq<byte>, checksum: word, padding: seq<byte>, table: seq<byte>, fill: seq<byte>)
    requires IsPe(d) && LayoutOf(d).Ok? && Unsigned(d)
    requires |d| + |padding| < 0x1_0000_0000 && |table| < 0x1_0000_0000 && |table| + |fill| == Aligned(|table|)
    ensures Canonical(d).Ok? && Canonical(Sign(d, checksum, padding, table, fill)) == Ok(Canonical(d).value + padding)
  {
    var l := LayoutOf(d).value;
    var s := Sign(d, checksum, padding, table, fill);
    SignKeepsHeader(d, checksum, padding, table, fill);
    HeaderDecides(d, s, l);
    hide IsPe, LayoutOf, Sign, Stamped, SameHeader;
    StrippedSigned(d, s, l, padding);
  }

  lemma {:induction false} StrippedSigned(d: seq<byte>, s: seq<byte>, l: Layout, padding: seq<byte>)
    requires Fits(d, l) && Fits(s, l) && |d| > 0
    requires TableOffset(s, l) == |d| + |padding| && |s| == |d| + |padding| + Aligned(TableSize(s, l))
    requires forall i :: 0 <= i < |d| && !Volatile(l, i) ==> s[i] == d[i]
    requires forall i :: 0 <= i < |padding| ==> s[|d| + i] == padding[i]
    ensures Stripped(s, l) == Ok(Cleared(d, l) + padding)
  {
    hide TableOffset, TableSize, Aligned;
    var out := Cleared(s, l);
    ClearedAgree(d, s, l);
    assert out[..|d| + |padding|] == out[..|d|] + padding;
  }

  lemma {:induction false} SignKeepsHeader(d: seq<byte>, checksum: word, padding: seq<byte>, table: seq<byte>, fill: seq<byte>)
    requires IsPe(d) && LayoutOf(d).Ok?
    requires |d| + |padding| < 0x1_0000_0000 && |table| < 0x1_0000_0000 && |table| + |fill| == Aligned(|table|)
    ensures var (s, l) := (Sign(d, checksum, padding, table, fill), LayoutOf(d).value);
      && SameHeader(d, s, l) && Fits(s, l) && |s| == |d| + |padding| + Aligned(|table|)
      && TableOffset(s, l) == |d| + |padding| && TableSize(s, l) == |table|
      && (forall i :: 0 <= i < |d| && !Volatile(l, i) ==> s[i] == d[i])
      && (forall i :: 0 <= i < |padding| ==> s[|d| + i] == padding[i])
  {
    var l := LayoutOf(d).value;
    hide LayoutOf, IsPe, Aligned;
    var stamped := Stamped(d, l, checksum, |d| + |padding|, |table|);
    var s := Sign(d, checksum, padding, table, fill);
    StampedWords(d, l, checksum, |d| + |padding|, |table|);
    hide Stamped;
    assert forall i :: 0 <= i < |d| ==> s[i] == stamped[i];
  }

  /** Canonical bytes survive signing exactly when the signer added no padding, whatever it stamped and appended. */
  lemma {:induction false} SigningIsInvisible(d: seq<byte>, checksum: word, padding: seq<byte>, table: seq<byte>, fill: seq<byte>)
    requires IsPe(d) && LayoutOf(d).Ok? && Unsigned(d)
    requires |d| + |padding| < 0x1_0000_0000 && |table| < 0x1_0000_0000 && |table| + |fill| == Aligned(|table|)
    ensures Canonical(Sign(d, checksum, padding, table, fill)) == Canonical(d) <==> padding == []
  {
    hide IsPe, LayoutOf, Canonical, Sign;
    SignedCanonical(d, checksum, padding, table, fill);
    var c := Canonical(d).value;
    assert |c + padding| == |c| + |padding|;
    if padding == [] {
      assert c + padding == c;
    }
  }

  // ---------------------------------------------------------------- idempotence

  /** The recorded table cuts into the headers, yet leaves enough to look like an image. */
  predicate CutsHeader(d: seq<byte>)
    requires IsPe(d) && LayoutOf(d).Ok?
  {
    var offset := TableOffset(d, LayoutOf(d).value);
    !Unsigned(d) && 0x40 <= offset && PeOffset(d) + 4 <= offset < LayoutOf(d).value.end
  }

  lemma {:induction false} TruncatedHeader(d: seq<byte>, c: seq<byte>)
    requires IsPe(d) && LayoutOf(d).Ok? && |c| <= |d|
    requires forall i :: 0 <= i < |c| && !Volatile(LayoutOf(d).value, i) ==> c[i] == d[i]
    ensures |c| >= 0x40 ==> PeOffset(c) == PeOffset(d)
    ensures IsPe(c) <==> |c| >= 0x40 && PeOffset(d) + 4 <= |c|
    ensures IsPe(c) && |c| < LayoutOf(d).value.end ==> LayoutOf(c) == Err
  {
    var pe := PeOffset(d);
    if |c| >= 0x40 {
      assert PeOffset(c) == pe;
      if pe + 22 <= |c| {
        assert Le16(c, pe + 20) == Le16(d, pe + 20);
      }
    }
  }

  /** Canonicalising twice is canonicalising once, unless the recorded table starts inside the headers; then it is refused. */
  lemma {:induction false} CanonicalTwice(d: seq<byte>, c: seq<byte>)
    requires Canonical(d) == Ok(c)
    ensures Canonical(c) == if IsPe(d) && LayoutOf(d).Ok? && CutsHeader(d) then Err else Ok(c)
  {
    if IsPe(d) {
      var l := LayoutOf(d).value;
      CanonicalBytes(d, l, c);
      TruncatedHeader(d, c);
      hide Stripped, Stamped, Le32;
      if IsPe(c) && |c| >= l.end {
        HeaderDecides(d, c, l);
        hide LayoutOf, IsPe;
        ClearedAlready(c, l);
      }
    }
  }

  lemma {:induction false} ClearedAlready(c: seq<byte>, l: Layout)
    requires Fits(c, l) && forall i :: 0 <= i < |c| && Volatile(l, i) ==> c[i] == 0
    ensures Stripped(c, l) == Ok(c)
  {
    assert Cleared(c, l) == c;
    assert forall i :: l.certificate <= i < l.certificate + 8 ==> c[i] == 0;
  }

  /** A PE32 header of 224 bytes whose certificate entry points back at byte 72. */
  function BackwardsTable(): seq<byte> {
    seq(224, i =>
      if i == 0 then 0x4D else if i == 1 then 0x5A else if i == 0x3C then 0x40
      else if i == 0x40 then 0x50 else if i == 0x41 then 0x45 else if i == 0x54 then 136
      else if i == 0x58 then 0x0B else if i == 0x59 then 0x01 else if i == 0xD8 then 72 else if i == 0xDC then 152 else 0)
  }

  /** So canonicalising twice can fail where once succeeds. */
  lemma {:induction false} CanonicalTwiceCanFail()
    ensures exists c :: Canonical(BackwardsTable()) == Ok(c) && Canonical(c) == Err
  {
    hide Cleared, IsPe, LayoutOf, TableOffset, TableSize, BackwardsTable;
    var (d, l) := (BackwardsTable(), Layout(0xE0, 0x98, 0xD8));
    BackwardsLayout();
    var c := Cleared(d, l)[..72];
    assert Canonical(d) == Ok(c);
    CanonicalTwice(d, c);
    assert CutsHeader(d);
  }

  lemma {:induction false} BackwardsLayout()
    ensures var (d, l) := (BackwardsTable(), Layout(0xE0, 0x98, 0xD8));
            |d| == 224 && IsPe(d) && PeOffset(d) == 0x40 && LayoutOf(d) == Ok(l) && TableOffset(d, l) == 72 && TableSize(d, l) == 152
  {
    var d := BackwardsTable();
    assert PeOffset(d) == 0x40;
    assert Le16(d, 0x54) == 136 && Le16(d, 0x58) == 0x10B;
  }

  // ---------------------------------------------------------------- nothing else is hidden

  /** Images with the same canonical form share every byte of it but the volatile fields, at the same places; and unless the
      recorded table of one starts inside its headers, they have the same layout. */
  lemma {:induction false} CanonicalHidesOnlySigning(a: seq<byte>, b: seq<byte>, c: seq<byte>)
    requires IsPe(a) && IsPe(b) && Canonical(a) == Ok(c) == Canonical(b)
    ensures LayoutOf(a).Ok? && LayoutOf(b).Ok?
    ensures LayoutOf(a).value.end <= |c| ==> LayoutOf(b) == LayoutOf(a)
    ensures forall i :: 0 <= i < |c| && !Volatile(LayoutOf(a).value, i) && !Volatile(LayoutOf(b).value, i) ==> a[i] == b[i]
  {
    var (l, m) := (LayoutOf(a).value, LayoutOf(b).value);
    CanonicalBytes(a, l, c);
    CanonicalBytes(b, m, c);
    hide Stripped;
    if l.end <= |c| {
      HeaderDecides(a, c, l);
      TruncatedHeader(b, c);
      HeaderDecides(b, c, m);
    }
  }

  /** How much of an image the canonical form keeps. */
  function KeptLength(d: seq<byte>, l: Layout): nat
    requires Fits(d, l)
  {
    if HasTable(d, l) then TableOffset(d, l) else |d|
  }

  /** The recorded table, if there is one, starts after the headers. */
  predicate KeepsHeader(d: seq<byte>)
    requires IsPe(d) && LayoutOf(d).Ok?
  {
    LayoutOf(d).value.end <= KeptLength(d, LayoutOf(d).value)
  }

  /** Images that keep their headers have the same canonical form exactly when as much of each is kept, and that is the same
      outside the volatile fields. */
  lemma {:induction false} CanonicalDecides(a: seq<byte>, b: seq<byte>)
    requires IsPe(a) && IsPe(b) && Canonical(a).Ok? && Canonical(b).Ok?
    requires LayoutOf(a).Ok? && LayoutOf(b).Ok? && KeepsHeader(a) && KeepsHeader(b)
    ensures var (l, m) := (LayoutOf(a).value, LayoutOf(b).value);
            Canonical(a) == Canonical(b) <==>
            && KeptLength(a, l) == KeptLength(b, m)
            && forall i :: 0 <= i < |a| && i < |b| && i < KeptLength(a, l) && !Volatile(l, i) ==> a[i] == b[i]
  {
    var (l, m) := (LayoutOf(a).value, LayoutOf(b).value);
    var (c, d) := (Canonical(a).value, Canonical(b).value);
    CanonicalBytes(a, l, c);
    CanonicalBytes(b, m, d);
    if c == d {
      CanonicalHidesOnlySigning(a, b, c);
    }
    hide Canonical, Stripped, TableOffset, HasTable, Aligned, IsPe, LayoutOf;
    if |c| == |d| && forall i :: 0 <= i < |a| && i < |b| && i < |c| && !Volatile(l, i) ==> a[i] == b[i] {
      SameKept(a, b, l, m, c, d);
    }
  }

  lemma {:induction false} SameKept(a: seq<byte>, b: seq<byte>, l: Layout, m: Layout, c: seq<byte>, d: seq<byte>)
    requires IsPe(a) && IsPe(b) && LayoutOf(a) == Ok(l) && LayoutOf(b) == Ok(m) && l.end <= |c| == |d| <= |a| && |d| <= |b|
    requires forall i :: 0 <= i < |a| && i < |b| && i < |c| && !Volatile(l, i) ==> a[i] == b[i]
    requires forall i :: 0 <= i < |c| ==> c[i] == if Volatile(l, i) then 0 else a[i]
    requires forall i :: 0 <= i < |d| ==> d[i] == if Volatile(m, i) then 0 else b[i]
    ensures c == d
  {
    hide IsPe, LayoutOf, Volatile;
    HeaderDecides(a, b, l);
  }
}
