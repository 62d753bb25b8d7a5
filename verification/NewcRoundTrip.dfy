/** A writer of the newc layout, and the round trip through the reader. */
module NewcRoundTrip {
  import opened Bytes
  import opened Collections
  import opened NewcReader
  import opened NewcFormat

  function Digit(d: nat): (b: byte)
    requires d < 16
    ensures IsHex(b) && HexValue(b) == d
  {
    if d < 10 then d + 0x30 else d + 0x57
  }

  /** The last `k` hexadecimal digits of `n`. */
  function Hex(n: nat, k: nat): (f: seq<byte>)
    ensures |f| == k && Digits(f)
  {
    if k == 0 then [] else Hex(n / 16, k - 1) + [Digit(n % 16)]
  }

  function Power16(k: nat): nat { if k == 0 then 1 else 16 * Power16(k - 1) }

  lemma {:induction false} HexIsNumber(n: nat, k: nat)
    requires n < Power16(k)
    ensures Number(Hex(n, k)) == n
  {
    if k > 0 {
      HexIsNumber(n / 16, k - 1);
      var f := Hex(n, k);
      assert f[..k - 1] == Hex(n / 16, k - 1);
    }
  }

  lemma {:induction false} EightDigits(n: word)
    ensures Number(Hex(n, 8)) == n
  {
    assert Power16(4) == 0x1_0000;
    assert Power16(8) == 16 * (16 * (16 * (16 * Power16(4))));
    HexIsNumber(n, 8);
  }

  /** The numbers of a header: three say something about the entry, the caller picks the others. */
  function FieldValue(e: Entry, stat: nat -> word, k: nat): (v: word)
    requires Encodable(e)
  {
    if k == 1 then e.mode else if k == 6 then |e.contents| else if k == 11 then |e.name| + 1 else stat(k)
  }

  /** What eight digits can hold. */
  predicate Encodable(e: Entry) {
    e.mode < 0x1_0000_0000 && |e.contents| < 0x1_0000_0000 && |e.name| + 1 < 0x1_0000_0000
  }

  function FieldBytes(e: Entry, stat: nat -> word, n: nat): (s: seq<byte>)
    requires Encodable(e)
    ensures |s| == 8 * n
  {
    if n == 0 then [] else FieldBytes(e, stat, n - 1) + Hex(FieldValue(e, stat, n - 1), 8)
  }

  lemma {:induction false} FieldBytesAt(e: Entry, stat: nat -> word, n: nat, k: nat)
    requires Encodable(e) && k < n
    ensures FieldBytes(e, stat, n)[8 * k..8 * k + 8] == Hex(FieldValue(e, stat, k), 8)
  {
    hide Hex, FieldValue;
    if k < n - 1 {
      FieldBytesAt(e, stat, n - 1, k);
      var s := FieldBytes(e, stat, n - 1);
      assert (s + Hex(FieldValue(e, stat, n - 1), 8))[8 * k..8 * k + 8] == s[8 * k..8 * k + 8];
    }
  }

  function HeaderBytes(e: Entry, stat: nat -> word): (h: seq<byte>)
    requires Encodable(e)
    ensures |h| == 110
  {
    MAGIC + FieldBytes(e, stat, 13)
  }

  lemma {:induction false} HeaderDescribes(e: Entry, stat: nat -> word)
    requires Encodable(e)
    ensures Describes(HeaderBytes(e, stat), e)
  {
    hide FieldBytes, Hex, Number;
    var h := HeaderBytes(e, stat);
    forall k | 0 <= k < 13 ensures Field(h, k) == Hex(FieldValue(e, stat, k), 8) && Number(Field(h, k)) == FieldValue(e, stat, k) {
      FieldBytesAt(e, stat, 13, k);
      assert Field(h, k) == FieldBytes(e, stat, 13)[8 * k..8 * k + 8];
      EightDigits(FieldValue(e, stat, k));
    }
  }

  function Zeros(n: nat): (s: seq<byte>)
    ensures |s| == n && AllZero(s)
  {
    if n == 0 then [] else Zeros(n - 1) + [0]
  }

  function Encode(e: Entry, stat: nat -> word): (s: seq<byte>)
    requires Encodable(e)
    ensures |s| == Length(e)
  {
    var head := HeaderBytes(e, stat) + e.name + [0];
    head + Zeros(Padding(|head|)) + e.contents + Zeros(Padding(|e.contents|))
  }

  lemma {:induction false} EncodeLaysOut(pre: seq<byte>, e: Entry, stat: nat -> word, rest: seq<byte>)
    requires Encodable(e)
    ensures LaidOut(pre + Encode(e, stat) + rest, |pre|, e)
  {
    hide HeaderBytes, Zeros, Describes;
    var data := pre + Encode(e, stat) + rest;
    HeaderDescribes(e, stat);
    assert data[|pre|..|pre| + 110] == HeaderBytes(e, stat);
    assert data[|pre| + 110..|pre| + 110 + |e.name|] == e.name;
    assert data[|pre| + 110 + |e.name|] == 0;
    assert data[|pre| + Start(e)..|pre| + Start(e) + |e.contents|] == e.contents;
  }

  /** The entries, the trailer and any number of zeros up to a page. */
  function Archive(es: seq<Entry>, stat: nat -> word, tail: nat): (s: seq<byte>)
    requires forall e :: e in es ==> Encodable(e)
  {
    if es == [] then Encode(Entry(TRAILER, 0, []), stat) + Zeros(tail)
    else Encode(es[0], stat) + Archive(es[1..], stat, tail)
  }

  lemma {:induction false} ArchiveIsWellFormed(pre: seq<byte>, es: seq<Entry>, stat: nat -> word, tail: nat)
    requires (forall e :: e in es ==> Encodable(e)) && tail <= 4096
    ensures ArchiveAt(pre + Archive(es, stat, tail), |pre|, es)
    decreases |es|
  {
    hide Encode, LaidOut, TRAILER, Length;
    var data := pre + Archive(es, stat, tail);
    if es == [] {
      var e := Entry(TRAILER, 0, []);
      TrailerIsAName();
      assert data == pre + Encode(e, stat) + Zeros(tail);
      EncodeLaysOut(pre, e, stat, Zeros(tail));
      assert data[|pre| + Length(e)..] == Zeros(tail);
      assert EndsAt(data, |pre|, e);
    } else {
      var rest := Archive(es[1..], stat, tail);
      assert data == pre + Encode(es[0], stat) + rest;
      EncodeLaysOut(pre, es[0], stat, rest);
      ArchiveIsWellFormed(pre + Encode(es[0], stat), es[1..], stat, tail);
    }
  }

  /** Writing and reading back: exactly the selected entries, or a refusal exactly when a limit is passed or a name repeats. */
  lemma {:induction false} RoundTrip(es: seq<Entry>, stat: nat -> word, tail: nat, selected: Selection)
    requires (forall e :: e in es ==> Encodable(e)) && tail <= 4096
    ensures Entries(Archive(es, stat, tail), selected) == if Admissible(es, selected) then Ok(Kept(es, selected)) else Err
  {
    hide Archive, ArchiveAt, Entries, Admissible, Kept;
    ArchiveIsWellFormed([], es, stat, tail);
    assert [] + Archive(es, stat, tail) == Archive(es, stat, tail);
    ArchiveParses(Archive(es, stat, tail), es, selected);
  }
}
