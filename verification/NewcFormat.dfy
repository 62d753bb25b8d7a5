/** The newc layout itself, and what the reader makes of every archive laid out that way. */
module NewcFormat {
  import opened Bytes
  import opened Collections
  import opened NewcReader

  // ---------------------------------------------------------------- eight hexadecimal digits

  predicate Digits(f: seq<byte>) { forall i :: 0 <= i < |f| ==> IsHex(f[i]) }

  /** The number that hexadecimal digits, of either case, stand for. */
  function Number(f: seq<byte>): nat
    requires Digits(f)
  {
    if f == [] then 0 else 16 * Number(f[..|f| - 1]) + HexValue(f[|f| - 1])
  }

  lemma {:induction false} RunIsNumber(done: seq<byte>, rest: seq<byte>, need: bool)
    requires Digits(done) && Digits(rest) && (need ==> rest != [])
    ensures Digits(done + rest) && HexRun(rest, Number(done), need) == Some(Number(done + rest))
    decreases |rest|
  {
    if rest == [] {
      assert done + rest == done;
    } else {
      var next := done + [rest[0]];
      assert next[..|next| - 1] == done && next + rest[1..] == done + rest;
      RunIsNumber(next, rest[1..], false);
    }
  }

  /** On digits alone the lenient parser reads the plain number. */
  lemma {:induction false} ParseDigits(f: seq<byte>)
    requires Digits(f) && f != []
    ensures ParseHex(f) == Some(Number(f))
  {
    RunIsNumber([], f, true);
    assert [] + f == f;
  }

  // ---------------------------------------------------------------- the layout

  datatype Entry = Entry(name: seq<byte>, mode: nat, contents: seq<byte>)

  /** A header for `e`: the magic and thirteen fields of eight digits, three of which say something about it. */
  predicate Describes(h: seq<byte>, e: Entry) {
    && |h| == 110 && h[..6] == MAGIC
    && (forall k :: 0 <= k < 13 ==> Digits(Field(h, k)))
    && Number(Field(h, 1)) == e.mode && Number(Field(h, 6)) == |e.contents| && Number(Field(h, 11)) == |e.name| + 1
  }

  /** Where the contents start and where the entry ends, from its first byte. */
  function Start(e: Entry): (n: nat)
    ensures n % 4 == 0 && n >= 111 + |e.name|
  {
    BodyAt(0, |e.name| + 1)
  }

  function Length(e: Entry): (n: nat)
    ensures n % 4 == 0 && n >= Start(e) + |e.contents|
  {
    Start(e) + |e.contents| + Padding(|e.contents|)
  }

  /** Header, name, terminator and contents; the padding after the last two may hold anything. */
  predicate LaidOut(data: seq<byte>, pos: nat, e: Entry) {
    && pos + Length(e) <= |data|
    && Describes(data[pos..pos + 110], e)
    && data[pos + 110..pos + 110 + |e.name|] == e.name && data[pos + 110 + |e.name|] == 0
    && data[pos + Start(e)..pos + Start(e) + |e.contents|] == e.contents
  }

  /** The last entry, with at most a page of zeros after it. */
  predicate EndsAt(data: seq<byte>, pos: nat, e: Entry) {
    LaidOut(data, pos, e) && |data| - (pos + Length(e)) <= 4096 && AllZero(data[pos + Length(e)..])
  }

  /** Entries one after another, then the trailer. */
  ghost predicate ArchiveAt(data: seq<byte>, pos: nat, es: seq<Entry>)
    decreases |es|
  {
    if es == [] then exists mode: nat :: EndsAt(data, pos, Entry(TRAILER, mode, []))
    else LaidOut(data, pos, es[0]) && ArchiveAt(data, pos + Length(es[0]), es[1..])
  }

  // ---------------------------------------------------------------- what is accepted

  function Total(es: seq<Entry>): (n: nat)
    ensures n % 4 == 0
  {
    if es == [] then 0 else Length(es[0]) + Total(es[1..])
  }

  ghost predicate DistinctNames(es: seq<Entry>) {
    forall i, j :: 0 <= i < j < |es| ==> es[i].name != es[j].name
  }

  /** An entry the reader lets through, whatever stands around it. */
  predicate Legal(e: Entry, selected: Selection) {
    |e.name| < 4096 && IsUtf8(e.name) && e.name != TRAILER && (selected(e.name) ==> |e.contents| <= MAX_CAPTURE_BYTES)
  }

  const TRAILER_LENGTH := 124

  ghost predicate Admissible(es: seq<Entry>, selected: Selection) {
    && |es| < MAX_ENTRIES && DistinctNames(es) && (forall e :: e in es ==> Legal(e, selected))
    && Total(es) + TRAILER_LENGTH <= MAX_ARCHIVE_BYTES
  }

  /** The same, part-way through an archive. */
  ghost predicate AdmissibleFrom(es: seq<Entry>, pos: nat, n: nat, seen: set<seq<byte>>, selected: Selection) {
    && |es| < n && DistinctNames(es) && (forall e :: e in es ==> Legal(e, selected) && e.name !in seen)
    && pos + Total(es) + TRAILER_LENGTH <= MAX_ARCHIVE_BYTES
  }

  /** Exactly the selected entries, under their names. */
  ghost function Kept(es: seq<Entry>, selected: Selection): Captured
    requires DistinctNames(es)
  {
    map e | e in es && selected(e.name) :: e.name := (e.mode, e.contents)
  }

  function With(captured: Captured, e: Entry, selected: Selection): Captured {
    if selected(e.name) then captured[e.name := (e.mode, e.contents)] else captured
  }

  // ---------------------------------------------------------------- one entry

  lemma {:induction false} HeaderParses(h: seq<byte>, e: Entry)
    requires Describes(h, e)
    ensures ParseHeader(h) == Some(Header(e.mode, |e.contents|, |e.name| + 1))
  {
    hide ParseHex, Number, Field;
    forall k | 0 <= k < 13 ensures ParseHex(Field(h, k)) == Some(Number(Field(h, k))) {
      ParseDigits(Field(h, k));
    }
  }

  lemma {:induction false} NameParses(data: seq<byte>, pos: nat, e: Entry)
    requires LaidOut(data, pos, e)
    ensures NameAt(data, pos, Header(e.mode, |e.contents|, |e.name| + 1))
         == if |e.name| < 4096 && IsUtf8(e.name) then Some(e.name) else None
  {
    hide Describes, IsUtf8, Padding;
  }

  /** Reading an entry that is laid out at `pos`: rejected, or passed over exactly. */
  lemma {:induction false} EntryParses(data: seq<byte>, pos: nat, e: Entry, seen: set<seq<byte>>, captured: Captured, selected: Selection)
    requires LaidOut(data, pos, e) && pos % 4 == 0 && e.name != TRAILER
    ensures ReadEntry(data, pos, seen, captured, selected)
         == if Legal(e, selected) && e.name !in seen && pos + Start(e) + |e.contents| <= MAX_ARCHIVE_BYTES
            then More(pos + Length(e), seen + {e.name}, With(captured, e, selected)) else Bad
  {
    hide IsUtf8, Describes, ParseHeader, NameAt;
    HeaderParses(data[pos..pos + 110], e);
    NameParses(data, pos, e);
    assert BodyAt(pos, |e.name| + 1) == pos + Start(e);
  }

  lemma {:induction false} TrailerParses(data: seq<byte>, pos: nat, e: Entry, seen: set<seq<byte>>, captured: Captured, selected: Selection)
    requires LaidOut(data, pos, e) && pos % 4 == 0 && e.name == TRAILER
    ensures ReadEntry(data, pos, seen, captured, selected)
         == if && TRAILER !in seen && pos + Start(e) + |e.contents| <= MAX_ARCHIVE_BYTES && e.contents == []
               && |data| - (pos + Length(e)) <= 4096 && AllZero(data[pos + Length(e)..])
            then Finished(captured) else Bad
  {
    hide IsUtf8, Describes, ParseHeader, NameAt, AllZero, TRAILER;
    TrailerIsAName();
    HeaderParses(data[pos..pos + 110], e);
    NameParses(data, pos, e);
    assert BodyAt(pos, |e.name| + 1) == pos + Start(e);
  }

  lemma {:induction false} TrailerIsAName()
    ensures IsUtf8(TRAILER) && |TRAILER| == 10
  {
    TrailerIsAscii(TRAILER);
  }

  lemma {:induction false} TrailerIsAscii(s: seq<byte>)
    requires forall i :: 0 <= i < |s| ==> s[i] < 0x80
    ensures IsUtf8(s)
  {
    if s != [] {
      TrailerIsAscii(s[1..]);
    }
  }

  // ---------------------------------------------------------------- whole archives

  /** Whatever follows an entry starts with a digit, so it is not the zeros after a trailer. */
  lemma {:induction false} NextHeader(data: seq<byte>, pos: nat, es: seq<Entry>)
    requires ArchiveAt(data, pos, es)
    ensures pos < |data| && data[pos] == 0x30
  {
    if es == [] {
      var mode: nat :| EndsAt(data, pos, Entry(TRAILER, mode, []));
      FirstByte(data, pos, Entry(TRAILER, mode, []));
    } else {
      FirstByte(data, pos, es[0]);
    }
  }

  lemma {:induction false} FirstByte(data: seq<byte>, pos: nat, e: Entry)
    requires LaidOut(data, pos, e)
    ensures pos < |data| && data[pos] == 0x30
  {
    hide Number, Digits;
    assert data[pos] == data[pos..pos + 110][..6][0];
  }

  lemma {:induction false} DistinctStep(es: seq<Entry>)
    requires es != []
    ensures DistinctNames(es) <==> DistinctNames(es[1..]) && forall x :: x in es[1..] ==> x.name != es[0].name
  {
    var (e, rest) := (es[0], es[1..]);
    assert forall i :: 0 <= i < |rest| ==> rest[i] == es[i + 1] && rest[i] in rest;
    assert forall i :: 0 < i < |es| ==> es[i] == rest[i - 1];
  }

  lemma {:induction false} AdmissibleStep(es: seq<Entry>, pos: nat, n: nat, seen: set<seq<byte>>, selected: Selection)
    requires es != [] && n > 0 && Legal(es[0], selected) && es[0].name !in seen
    ensures AdmissibleFrom(es, pos, n, seen, selected)
       <==> AdmissibleFrom(es[1..], pos + Length(es[0]), n - 1, seen + {es[0].name}, selected)
  {
    hide Legal, Length, DistinctNames;
    var (e, rest) := (es[0], es[1..]);
    DistinctStep(es);
    assert es == [e] + rest;
    assert forall x :: x in es <==> x == e || x in rest;
  }

  lemma {:induction false} KeptHas(es: seq<Entry>, e: Entry, selected: Selection)
    requires DistinctNames(es) && e in es && selected(e.name)
    ensures e.name in Kept(es, selected) && Kept(es, selected)[e.name] == (e.mode, e.contents)
  {
  }

  lemma {:induction false} KeptFrom(es: seq<Entry>, name: seq<byte>, selected: Selection) returns (e: Entry)
    requires DistinctNames(es) && name in Kept(es, selected)
    ensures e in es && e.name == name && selected(name)
  {
    e :| e in es && e.name == name && selected(name);
  }

  lemma {:induction false} KeptStep(es: seq<Entry>, captured: Captured, selected: Selection)
    requires es != [] && DistinctNames(es)
    ensures DistinctNames(es[1..])
    ensures captured + Kept(es, selected) == With(captured, es[0], selected) + Kept(es[1..], selected)
  {
    hide Kept, DistinctNames;
    var (e, rest) := (es[0], es[1..]);
    DistinctStep(es);
    assert es == [e] + rest;
    var (l, r) := (captured + Kept(es, selected), With(captured, e, selected) + Kept(rest, selected));
    forall k ensures (k in l <==> k in r) && (k in l && k in r ==> l[k] == r[k]) {
      if k in Kept(es, selected) {
        var x := KeptFrom(es, k, selected);
        KeptHas(es, x, selected);
        if x != e {
          KeptHas(rest, x, selected);
        }
      }
      if k in Kept(rest, selected) {
        var x := KeptFrom(rest, k, selected);
        KeptHas(es, x, selected);
        KeptHas(rest, x, selected);
      }
      if k == e.name && selected(k) {
        KeptHas(es, e, selected);
      }
    }
    assert l == r;
  }

  /** Part-way through an archive: accepted exactly when the rest is admissible, and then nothing is lost or added. */
  lemma {:induction false} RestParses(data: seq<byte>, pos: nat, es: seq<Entry>, n: nat, seen: set<seq<byte>>, captured: Captured,
                                      selected: Selection)
    requires ArchiveAt(data, pos, es) && pos % 4 == 0 && TRAILER !in seen
    ensures ReadEntries(data, pos, n, seen, captured, selected)
         == if AdmissibleFrom(es, pos, n, seen, selected) then Ok(captured + Kept(es, selected)) else Err
    decreases |es|
  {
    hide ReadEntry, LaidOut, AllZero, TRAILER, IsUtf8;
    if n > 0 && es == [] {
      TrailerIsAName();
      var mode: nat :| EndsAt(data, pos, Entry(TRAILER, mode, []));
      TrailerParses(data, pos, Entry(TRAILER, mode, []), seen, captured, selected);
      assert captured + Kept(es, selected) == captured;
    } else if n > 0 {
      var (e, rest) := (es[0], es[1..]);
      if e.name == TRAILER {
        RefusesEarlyTrailer(data, pos, es, n, seen, captured, selected);
      } else {
        EntryParses(data, pos, e, seen, captured, selected);
        if ReadEntry(data, pos, seen, captured, selected).More? {
          RestParses(data, pos + Length(e), rest, n - 1, seen + {e.name}, With(captured, e, selected), selected);
          AdmissibleStep(es, pos, n, seen, selected);
          if AdmissibleFrom(es, pos, n, seen, selected) {
            KeptStep(es, captured, selected);
          }
        }
      }
    }
  }

  lemma {:induction false} RefusesEarlyTrailer(data: seq<byte>, pos: nat, es: seq<Entry>, n: nat, seen: set<seq<byte>>, captured: Captured,
                            selected: Selection)
    requires ArchiveAt(data, pos, es) && pos % 4 == 0 && es != [] && es[0].name == TRAILER && n > 0
    ensures ReadEntry(data, pos, seen, captured, selected) == Bad && !AdmissibleFrom(es, pos, n, seen, selected)
  {
    hide ReadEntry, LaidOut, TRAILER, IsUtf8;
    TrailerParses(data, pos, es[0], seen, captured, selected);
    var next := pos + Length(es[0]);
    NextHeader(data, next, es[1..]);
    assert data[next..][0] == 0x30;
    assert es[0] in es && !Legal(es[0], selected);
  }

  /**
   * Every archive in the newc layout, whatever its padding bytes, digit case and unread fields: it is accepted exactly
   * when its entries are within the limits and distinctly named, and then the result is exactly the selected entries.
   */
  lemma {:induction false} ArchiveParses(data: seq<byte>, es: seq<Entry>, selected: Selection)
    requires ArchiveAt(data, 0, es)
    ensures Entries(data, selected) == if Admissible(es, selected) then Ok(Kept(es, selected)) else Err
  {
    hide ReadEntries, ArchiveAt, Legal;
    RestParses(data, 0, es, MAX_ENTRIES, {}, map[], selected);
    if Admissible(es, selected) {
      assert map[] + Kept(es, selected) == Kept(es, selected);
    }
  }
}
