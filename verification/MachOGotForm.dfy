/** The rewritten section as a form: when two sections share it, and when rewriting again changes it, for any slot map. */
module MachOGotForm {
  import opened Bytes
  import opened MachOGot
  import opened MachOGotMeaning

  // ---------------------------------------------------------------- one word

  /** The slot that a load names after the pass. */
  function FinalSlot(previous: word, w: word, pc: nat, slots: map<int, int>): int {
    if Rewrites(previous, w, pc, slots) then slots[Slot(previous, w, pc)] else Slot(previous, w, pc)
  }

  /** `v` is `w` up to its slot, below the same ADRP, and both end up with the same one. */
  predicate SameFinal(previous: word, w: word, v: word, pc: nat, slots: map<int, int>) {
    && IsPair(previous, w) && IsPair(previous, v)
    && w % 0x400 == v % 0x400 && w / 0x40_0000 == v / 0x40_0000
    && FinalSlot(previous, w, pc, slots) == FinalSlot(previous, v, pc, slots)
  }

  lemma {:induction false} CanonicalNames(previous: word, w: word, pc: nat, slots: map<int, int>)
    requires IsPair(previous, w)
    ensures var r := Canonical(previous, w, pc, slots);
            && Slot(previous, r, pc) == FinalSlot(previous, w, pc, slots)
            && r % 0x400 == w % 0x400 && r / 0x40_0000 == w / 0x40_0000
  {
    hide IsLdr, IsAdrp, AdrpPage, LdrImmediate, LdrBase, AdrpRegister;
    CanonicalKeeps(previous, w, pc, slots);
  }

  lemma {:induction false} SlotDecides(previous: word, w: word, v: word, pc: nat)
    requires w % 0x400 == v % 0x400 && w / 0x40_0000 == v / 0x40_0000 && Slot(previous, w, pc) == Slot(previous, v, pc)
    ensures w == v
  {
    hide AdrpPage;
    Fields(w);
    Fields(v);
  }

  /** Below one ADRP, loads get the same form exactly when they end up with the same slot and agree elsewhere. */
  lemma {:induction false} FormDecides(previous: word, w: word, v: word, pc: nat, slots: map<int, int>)
    requires IsPair(previous, w) && IsPair(previous, v)
    ensures Canonical(previous, w, pc, slots) == Canonical(previous, v, pc, slots) <==> SameFinal(previous, w, v, pc, slots)
  {
    hide IsPair, Slot, Canonical, FinalSlot;
    CanonicalNames(previous, w, pc, slots);
    CanonicalNames(previous, v, pc, slots);
    if SameFinal(previous, w, v, pc, slots) {
      SlotDecides(previous, Canonical(previous, w, pc, slots), Canonical(previous, v, pc, slots), pc);
    }
  }

  // ---------------------------------------------------------------- sections of one form

  /** Two texts that differ only in loads that end up with the same slot. */
  ghost predicate SameLoads(ws: seq<word>, vs: seq<word>, address: nat, slots: map<int, int>) {
    && |ws| == |vs|
    && forall i :: 0 <= i < |ws| && ws[i] != vs[i] ==> i > 0 && SameFinal(ws[i - 1], ws[i], vs[i], PcOf(address, i), slots)
  }

  lemma {:induction false} FirstStays(ws: seq<word>, address: nat, slots: map<int, int>)
    ensures |ws| > 0 ==> Rewrite(ws, address, slots)[0] == ws[0]
  {
  }

  /** An ADRP is in the rewritten section where it is in the section, and nowhere else. */
  lemma {:induction false} AdrpsStay(ws: seq<word>, address: nat, slots: map<int, int>, i: nat)
    requires i < |ws|
    ensures IsAdrp(Rewrite(ws, address, slots)[i]) || IsAdrp(ws[i]) ==> Rewrite(ws, address, slots)[i] == ws[i]
  {
    hide IsAdrp, Rewrite, Canonical, Rewrites;
    FirstStays(ws, address, slots);
    if i > 0 {
      RewriteAt(ws, address, slots, i);
      CanonicalKeeps(ws[i - 1], ws[i], PcOf(address, i), slots);
    }
  }

  lemma {:induction false} SameFormAt(ws: seq<word>, vs: seq<word>, address: nat, slots: map<int, int>, i: nat)
    requires SameLoads(ws, vs, address, slots) && i < |ws|
    ensures Rewrite(ws, address, slots)[i] == Rewrite(vs, address, slots)[i]
  {
    hide IsLdr, IsAdrp, Slot, FinalSlot, AdrpRegister, LdrBase, Canonical, Rewrite;
    FirstStays(ws, address, slots);
    FirstStays(vs, address, slots);
    if i > 0 {
      RewriteAt(ws, address, slots, i);
      RewriteAt(vs, address, slots, i);
      if ws[i - 1] != vs[i - 1] {
        assert SameFinal(ws[i - 2], ws[i - 1], vs[i - 1], PcOf(address, i - 1), slots);
        LdrIsNotAdrp(ws[i - 1]);
        LdrIsNotAdrp(vs[i - 1]);
        NotAPair(ws[i - 1], ws[i], PcOf(address, i), slots);
        NotAPair(vs[i - 1], vs[i], PcOf(address, i), slots);
      } else if ws[i] != vs[i] {
        FormDecides(ws[i - 1], ws[i], vs[i], PcOf(address, i), slots);
      }
    }
  }

  /** A rewritten load stands below the same ADRP in every section of the same form. */
  lemma {:induction false} SameAdrp(ws: seq<word>, vs: seq<word>, address: nat, slots: map<int, int>, i: nat)
    requires |ws| == |vs| && Rewrite(ws, address, slots) == Rewrite(vs, address, slots) && 0 < i < |ws|
    requires Rewrites(ws[i - 1], ws[i], PcOf(address, i), slots)
    ensures ws[i - 1] == vs[i - 1] && IsPair(ws[i - 1], vs[i])
  {
    hide IsLdr, IsAdrp, Slot, AdrpRegister, LdrBase, Canonical, Rewrite, Encodable;
    AdrpsStay(ws, address, slots, i - 1);
    AdrpsStay(vs, address, slots, i - 1);
    RewriteAt(ws, address, slots, i);
    RewriteAt(vs, address, slots, i);
    CanonicalKeeps(ws[i - 1], ws[i], PcOf(address, i), slots);
    CanonicalKeeps(vs[i - 1], vs[i], PcOf(address, i), slots);
  }

  lemma {:induction false} SameFormSameFinal(ws: seq<word>, vs: seq<word>, address: nat, slots: map<int, int>, i: nat)
    requires |ws| == |vs| && Rewrite(ws, address, slots) == Rewrite(vs, address, slots) && i < |ws| && ws[i] != vs[i]
    ensures i > 0 && SameFinal(ws[i - 1], ws[i], vs[i], PcOf(address, i), slots)
  {
    hide IsPair, Slot, FinalSlot, Rewrite, Encodable, SameFinal;
    FirstStays(ws, address, slots);
    FirstStays(vs, address, slots);
    RewriteAt(ws, address, slots, i);
    RewriteAt(vs, address, slots, i);
    var pc := PcOf(address, i);
    if Rewrites(ws[i - 1], ws[i], pc, slots) {
      SameAdrp(ws, vs, address, slots, i);
      RewritesIsPair(ws[i - 1], ws[i], pc, slots);
    } else {
      SameAdrp(vs, ws, address, slots, i);
      RewritesIsPair(vs[i - 1], vs[i], pc, slots);
    }
    FormDecides(ws[i - 1], ws[i], vs[i], pc, slots);
  }

  lemma {:induction false} RewritesIsPair(previous: word, w: word, pc: nat, slots: map<int, int>)
    requires Rewrites(previous, w, pc, slots)
    ensures IsPair(previous, w)
  {
  }

  /** For every slot map: sections are rewritten alike exactly when they differ only in loads that end up with the same slot. */
  lemma {:induction false} RewriteDecides(ws: seq<word>, vs: seq<word>, address: nat, slots: map<int, int>)
    ensures Rewrite(ws, address, slots) == Rewrite(vs, address, slots) <==> SameLoads(ws, vs, address, slots)
  {
    hide Rewrite, SameFinal;
    var (x, y) := (Rewrite(ws, address, slots), Rewrite(vs, address, slots));
    if SameLoads(ws, vs, address, slots) {
      forall i | 0 <= i < |ws| ensures x[i] == y[i] {
        SameFormAt(ws, vs, address, slots, i);
      }
    }
    if x == y {
      assert |ws| == |x| == |y| == |vs|;
      forall i | 0 <= i < |ws| && ws[i] != vs[i] ensures i > 0 && SameFinal(ws[i - 1], ws[i], vs[i], PcOf(address, i), slots) {
        SameFormSameFinal(ws, vs, address, slots, i);
      }
    }
  }

  /** With a settled map, that is: the same group, whose lowest slot the immediate can name. */
  lemma {:induction false} SettledFinal(previous: word, w: word, v: word, pc: nat, slots: map<int, int>)
    requires Settled(slots) && w != v
    ensures SameFinal(previous, w, v, pc, slots) <==>
            SameUpToSlot(previous, w, v, pc, slots) && LowestInReach(previous, w, pc, slots)
  {
    hide IsPair, Slot, AdrpPage, Encodable;
    if SameFinal(previous, w, v, pc, slots) && Slot(previous, w, pc) == Slot(previous, v, pc) {
      SlotDecides(previous, w, v, pc);
    }
  }

  // ---------------------------------------------------------------- rewriting again

  /** The lowest slot of a rewritten load is not sent on, or only to itself or out of reach. */
  predicate Stops(previous: word, w: word, pc: nat, slots: map<int, int>)
    requires Rewrites(previous, w, pc, slots)
  {
    var b := slots[Slot(previous, w, pc)];
    b !in slots || slots[b] == b || !Encodable(AdrpPage(previous, pc), slots[b])
  }

  ghost predicate AllStop(ws: seq<word>, address: nat, slots: map<int, int>) {
    forall i :: 0 < i < |ws| && Rewrites(ws[i - 1], ws[i], PcOf(address, i), slots) ==>
      Stops(ws[i - 1], ws[i], PcOf(address, i), slots)
  }

  lemma {:induction false} FormTwice(previous: word, w: word, pc: nat, slots: map<int, int>)
    requires IsPair(previous, w)
    ensures var r := Canonical(previous, w, pc, slots);
            Canonical(previous, r, pc, slots) == r <==> (Rewrites(previous, w, pc, slots) ==> Stops(previous, w, pc, slots))
  {
    hide IsLdr, IsAdrp, AdrpPage, LdrImmediate, LdrBase, AdrpRegister, WithImmediate, Encodable;
    var r := Canonical(previous, w, pc, slots);
    CanonicalKeeps(previous, w, pc, slots);
    CanonicalKeeps(previous, r, pc, slots);
    if Rewrites(previous, w, pc, slots) && Rewrites(previous, r, pc, slots) && slots[Slot(previous, r, pc)] == Slot(previous, r, pc) {
      SameSlotSameWord(previous, r, pc, slots);
    }
  }

  lemma {:induction false} TwiceAt(ws: seq<word>, address: nat, slots: map<int, int>, i: nat)
    requires 0 < i < |ws|
    ensures var r := Rewrite(ws, address, slots);
            Rewrite(r, address, slots)[i] == r[i] <==>
            (Rewrites(ws[i - 1], ws[i], PcOf(address, i), slots) ==> Stops(ws[i - 1], ws[i], PcOf(address, i), slots))
  {
    hide IsPair, Rewrite, Slot, Encodable, Stops;
    var (r, pc) := (Rewrite(ws, address, slots), PcOf(address, i));
    RewriteAt(ws, address, slots, i);
    RewriteAt(r, address, slots, i);
    PairsStay(ws, address, slots, i);
    if IsPair(ws[i - 1], ws[i]) {
      FormTwice(ws[i - 1], ws[i], pc, slots);
    }
  }

  /** For every section and slot map: rewriting twice is rewriting once exactly when every rewritten load stops. */
  lemma {:induction false} RewriteTwiceIff(ws: seq<word>, address: nat, slots: map<int, int>)
    ensures Rewrite(Rewrite(ws, address, slots), address, slots) == Rewrite(ws, address, slots) <==> AllStop(ws, address, slots)
  {
    hide Rewrite, Stops, Rewrites;
    var r := Rewrite(ws, address, slots);
    var rr := Rewrite(r, address, slots);
    FirstStays(r, address, slots);
    if AllStop(ws, address, slots) {
      forall i | 0 <= i < |ws| ensures rr[i] == r[i] {
        if i > 0 {
          TwiceAt(ws, address, slots, i);
        }
      }
    }
    if rr == r {
      forall i | 0 < i < |ws| && Rewrites(ws[i - 1], ws[i], PcOf(address, i), slots)
        ensures Stops(ws[i - 1], ws[i], PcOf(address, i), slots)
      {
        TwiceAt(ws, address, slots, i);
      }
    }
  }

  /** With a settled map every load stops. */
  lemma {:induction false} SettledStops(ws: seq<word>, address: nat, slots: map<int, int>)
    requires Settled(slots)
    ensures AllStop(ws, address, slots)
  {
    hide Slot, Encodable, AdrpPage;
  }

  lemma {:induction false} RewriteIdempotent(ws: seq<word>, address: nat, slots: map<int, int>)
    requires Settled(slots)
    ensures Rewrite(Rewrite(ws, address, slots), address, slots) == Rewrite(ws, address, slots)
  {
    hide Rewrite, AllStop, Settled;
    SettledStops(ws, address, slots);
    RewriteTwiceIff(ws, address, slots);
  }

  /** `ADRP x0, 0` and `LDR x0, [x0, #16]`. */
  const FAR_PAIR: seq<word> := [0x9000_0000, 0xF940_0800]

  /** With the map that two images of one universal file give, the load goes from 16 to 8, and from 8 to 0 the next time. */
  lemma {:induction false} RewriteTwiceDiffers(slots: map<int, int>)
    requires IsOwnerMap(TWO_IMAGES, Targets(TWO_IMAGES), slots)
    ensures Rewrite(Rewrite(FAR_PAIR, 0, slots), 0, slots) != Rewrite(FAR_PAIR, 0, slots)
  {
    hide FAR_PAIR, Rewrite, IsOwnerMap, Targets, TWO_IMAGES, Settled;
    TwoImagesUnsettled(slots);
    FarPairGoesOn(slots);
  }

  lemma {:induction false} FarPairGoesOn(slots: map<int, int>)
    requires slots == map[0 := 0, 8 := 0, 16 := 8]
    ensures Rewrite(Rewrite(FAR_PAIR, 0, slots), 0, slots) != Rewrite(FAR_PAIR, 0, slots)
  {
    hide FAR_PAIR, Rewrite, IsPair, AdrpPage, LdrImmediate, Rewrites, Stops;
    FarPairFields();
    GoesOn(FAR_PAIR[0], FAR_PAIR[1], slots);
    var pc := PcOf(0, 1);
    assert pc == 0 && Rewrites(FAR_PAIR[1 - 1], FAR_PAIR[1], pc, slots);
    RewriteTwiceIff(FAR_PAIR, 0, slots);
  }

  lemma {:induction false} GoesOn(a: word, w: word, slots: map<int, int>)
    requires IsPair(a, w) && LdrImmediate(w) == 2 && AdrpPage(a, 0) == 0 && slots == map[0 := 0, 8 := 0, 16 := 8]
    ensures Rewrites(a, w, 0, slots) && !Stops(a, w, 0, slots)
  {
    hide IsPair, LdrImmediate, AdrpPage;
    assert Slot(a, w, 0) == 16;
  }

  lemma {:induction false} FarPairFields()
    ensures |FAR_PAIR| == 2
    ensures var (a, w) := (FAR_PAIR[0], FAR_PAIR[1]); IsPair(a, w) && LdrImmediate(w) == 2 && AdrpPage(a, 0) == 0
  {
    hide SignExtend;
    NoOffset(21);
  }

  lemma {:induction false} NoOffset(bits: nat)
    requires bits > 0
    ensures SignExtend(0, bits) == 0
  {
    hide Pow2;
    var sign := Pow2(bits - 1);
    assert 0 / sign == 0;
  }
}
