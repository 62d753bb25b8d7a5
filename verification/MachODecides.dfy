/** Two universal files have the same canonical bytes exactly when they are builds of one another. */
module MachODecides {
  import opened Bytes
  import opened MachOImage
  import opened MachOSections
  import opened MachOCanonical
  import opened MachOFat
  import opened MachOForm

  // ---------------------------------------------------------------- universal files

  /** The layout of an image is read off its own bytes. */
  lemma {:induction false} LayoutInside(s: seq<byte>, t: seq<byte>, base: nat, size: nat, slots: map<int, int>)
    requires Same(s, t, base, size) && WellLaidOut(s, base, size, slots)
    ensures WellLaidOut(t, base, size, slots)
  {
    hide ImageSections, TableEnd, Commands, Touched, DisjointSections;
    SectionsInside(Stubs, s, t, base, size);
    SectionsInside(GotLoads(slots), s, t, base, size);
    StillClear(Stubs, s, t, base, size);
    StillClear(GotLoads(slots), s, t, base, size);
  }

  lemma {:induction false} SectionsInside(pass: Pass, s: seq<byte>, t: seq<byte>, base: nat, size: nat)
    requires Same(s, t, base, size)
    ensures ImageSections(pass, t, base, size) == ImageSections(pass, s, base, size)
    ensures TableEnd(t, base, size) == TableEnd(s, base, size)
  {
    hide ShapeOf, TableOf, AllSections, WalkEnd;
    TableInside(s, t, base, size);
    var table := TableOf(s, base, size);
    AllSectionsInside(pass, s, t, table.big, table.at, table.n, base + size);
  }

  lemma {:induction false} AllSectionsInside(pass: Pass, s: seq<byte>, t: seq<byte>, big: bool, at: nat, n: nat, limit: nat)
    requires limit <= |s| == |t| && forall p :: at <= p < limit ==> s[p] == t[p]
    ensures AllSections(pass, s, big, at, n, limit) == AllSections(pass, t, big, at, n, limit)
    ensures WalkEnd(s, big, at, n, limit) == WalkEnd(t, big, at, n, limit)
    decreases n
  {
    hide U32At, SectionsOf;
    if n > 0 && at + 8 <= limit {
      SameU32(s, t, at, big);
      SameU32(s, t, at + 4, big);
      var c := Command(at, U32At(s, at, big), U32At(s, at + 4, big));
      if c.size >= 8 && at + c.size <= limit {
        SectionsOfFrame(pass, s, t, big, c);
        AllSectionsInside(pass, s, t, big, at + c.size, n - 1, limit);
      }
    }
  }

  /** Images whose canonical forms agree are variants, whatever stands around them. */
  lemma {:induction false} SliceFormsAgree(s: seq<byte>, t: seq<byte>, slice: Slice, slots: map<int, int>)
    requires |s| == |t| && Fits(|s|, slice)
    requires WellLaidOut(s, slice.offset, slice.size, slots) && WellLaidOut(t, slice.offset, slice.size, slots)
    requires Same(CanonicalImage(s, slice.offset, slice.size, slots), CanonicalImage(t, slice.offset, slice.size, slots),
                  slice.offset, slice.size)
    ensures Variant(s, Patched(s, t, slice), slice.offset, slice.size, slots)
  {
    hide CanonicalImage, WellLaidOut, Variant;
    var (o, n, u) := (slice.offset, slice.size, Patched(s, t, slice));
    LayoutInside(t, u, o, n, slots);
    CanonicalInside(t, u, o, n, slots);
    CanonicalOutside(s, o, n, slots);
    CanonicalOutside(u, o, n, slots);
    assert CanonicalImage(s, o, n, slots) == CanonicalImage(u, o, n, slots);
    CanonicalDecides(s, u, o, n, slots);
  }

  lemma {:induction false} SliceByte(s: seq<byte>, slots: map<int, int>, k: nat, p: nat)
    requires Packed(s) && k < |Slices(s)| && InSlice(Slices(s)[k], p)
    ensures CanonicalFile(s, slots)[p] == CanonicalImage(s, Slices(s)[k].offset, Slices(s)[k].size, slots)[p]
  {
    hide CanonicalFile, CanonicalImage, Packed, Slices;
    CanonicalPerSlice(s, slots);
  }

  /** Two universal files have the same canonical bytes exactly when each image is a build of its counterpart and the rest is
      the same. */
  lemma {:induction false} CanonicalFileDecides(s: seq<byte>, t: seq<byte>, slots: map<int, int>)
    requires |s| == |t| && Packed(s) && Packed(t) && AllWellLaidOut(s, slots) && AllWellLaidOut(t, slots)
    ensures CanonicalFile(s, slots) == CanonicalFile(t, slots) <==> FileVariant(s, t, slots)
  {
    hide CanonicalFile, CanonicalImage, WellLaidOut, Variant, Patched, Packed, Slices;
    if FileVariant(s, t, slots) {
      FileVariantsAlike(s, t, slots);
    }
    if CanonicalFile(s, slots) == CanonicalFile(t, slots) {
      CanonicalPerSlice(s, slots);
      CanonicalPerSlice(t, slots);
      var slices := Slices(s);
      forall k | 0 <= k < |slices| ensures Variant(s, Patched(s, t, slices[k]), slices[k].offset, slices[k].size, slots) {
        var (o, n) := (slices[k].offset, slices[k].size);
        assert slices[k] == Slices(t)[k];
        forall p | o <= p < o + n ensures CanonicalImage(s, o, n, slots)[p] == CanonicalImage(t, o, n, slots)[p] {
          SliceByte(s, slots, k, p);
          SliceByte(t, slots, k, p);
        }
        SliceFormsAgree(s, t, slices[k], slots);
      }
    }
  }
}
