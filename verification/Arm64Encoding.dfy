/** The two ARM64 instructions of a GOT load, written out field by field, against how the pass reads them. */
module Arm64Encoding {
  import opened Bytes
  import opened MachOGot
  import opened MachOGotRuns

  /** ADRP: bit 31, the low two bits of the immediate in bits 29-30, the opcode in bits 24-28, the rest of the immediate
      in bits 5-23, and the register in bits 0-4. The immediate counts pages, in two's complement. */
  function EncodeAdrp(r: nat, pages: int): word
    requires r < 0x20 && -0x10_0000 <= pages < 0x10_0000
  {
    var imm: nat := if pages < 0 then pages + 0x20_0000 else pages;
    0x8000_0000 + imm % 4 * 0x2000_0000 + 0x10 * 0x100_0000 + imm / 4 * 0x20 + r
  }

  /** The 64-bit LDR: the opcode in bits 22-31, the scaled immediate in bits 10-21, the base in bits 5-9 and the target in
      bits 0-4. */
  function EncodeLdr(base: nat, target: nat, imm: nat): word
    requires base < 0x20 && target < 0x20 && imm < 0x1000
  {
    0x3E5 * 0x40_0000 + imm * 0x400 + base * 0x20 + target
  }

  /** The address of the page of `pc`, moved by `pages`. */
  function Page(pc: nat, pages: int): int { pc - pc % 0x1000 + 0x1000 * pages }

  // ---------------------------------------------------------------- fields

  lemma {:induction false} Pow2Twenty()
    ensures Pow2(20) == 0x10_0000 && Pow2(21) == 0x20_0000
  {
    assert Pow2(4) == 16;
    assert Pow2(8) == 256;
    assert Pow2(12) == 0x1000;
    assert Pow2(16) == 0x1_0000;
  }

  /** A word that is put together from an ADRP's fields has these fields. */
  lemma {:induction false} AdrpFields(lo: nat, hi: nat, r: nat)
    requires lo < 4 && hi < 0x8_0000 && r < 0x20
    ensures var w := 0x8000_0000 + lo * 0x2000_0000 + 0x10 * 0x100_0000 + hi * 0x20 + r;
            && w / 0x8000_0000 == 1 && w / 0x100_0000 % 0x20 == 0x10
            && w % 0x20 == r && w / 0x20 % 0x8_0000 == hi && w / 0x2000_0000 % 4 == lo
  {
    var w := 0x8000_0000 + lo * 0x2000_0000 + 0x10 * 0x100_0000 + hi * 0x20 + r;
    assert w / 0x20 == 0x400_0000 + lo * 0x100_0000 + 0x80_0000 + hi;
  }

  /** And an ADRP is put together from them. */
  lemma {:induction false} AdrpFromFields(w: word)
    requires IsAdrp(w)
    ensures w == 0x8000_0000 + w / 0x2000_0000 % 4 * 0x2000_0000 + 0x10 * 0x100_0000 + w / 0x20 % 0x8_0000 * 0x20 + w % 0x20
  {
    var (a, b) := (w / 0x20, w / 0x100_0000);
    assert a == a / 0x8_0000 * 0x8_0000 + a % 0x8_0000 && a / 0x8_0000 == b;
    assert b == b / 0x20 * 0x20 + 0x10 && b / 0x20 == w / 0x2000_0000;
    assert w / 0x2000_0000 == 4 + w / 0x2000_0000 % 4;
  }

  lemma {:induction false} Extended(imm: nat)
    requires imm < 0x20_0000
    ensures SignExtend(imm, 21) == if imm < 0x10_0000 then imm else imm - 0x20_0000
  {
    Pow2Twenty();
    hide Pow2;
    assert imm / 0x10_0000 == if imm < 0x10_0000 then 0 else 1;
  }

  // ---------------------------------------------------------------- decoding undoes encoding

  /** Every encoded ADRP is read as one, with its register and the page that many pages away. */
  lemma {:induction false} AdrpDecodes(r: nat, pages: int, pc: nat)
    requires r < 0x20 && -0x10_0000 <= pages < 0x10_0000
    ensures var w := EncodeAdrp(r, pages); IsAdrp(w) && AdrpRegister(w) == r && AdrpPage(w, pc) == Page(pc, pages)
  {
    hide SignExtend;
    var imm: nat := if pages < 0 then pages + 0x20_0000 else pages;
    AdrpFields(imm % 4, imm / 4, r);
    Extended(imm);
  }

  /** And every word that is read as one is so encoded. */
  lemma {:induction false} AdrpIsEncoded(w: word)
    requires IsAdrp(w)
    ensures exists pages :: -0x10_0000 <= pages < 0x10_0000 && w == EncodeAdrp(AdrpRegister(w), pages)
  {
    AdrpFromFields(w);
    var imm := 4 * (w / 0x20 % 0x8_0000) + w / 0x2000_0000 % 4;
    var pages := if imm < 0x10_0000 then imm else imm - 0x20_0000;
    assert w == EncodeAdrp(AdrpRegister(w), pages);
  }

  lemma {:induction false} LdrDecodes(base: nat, target: nat, imm: nat)
    requires base < 0x20 && target < 0x20 && imm < 0x1000
    ensures var w := EncodeLdr(base, target, imm);
            IsLdr(w) && LdrBase(w) == base && LdrTarget(w) == target && LdrImmediate(w) == imm
  {
    var w := EncodeLdr(base, target, imm);
    assert w / 0x20 == 0x3E5 * 0x2_0000 + imm * 0x20 + base;
    assert w / 0x400 == 0x3E5 * 0x1000 + imm;
  }

  lemma {:induction false} LdrIsEncoded(w: word)
    requires IsLdr(w)
    ensures w == EncodeLdr(LdrBase(w), LdrTarget(w), LdrImmediate(w))
  {
    Fields(w);
    LowFields(w);
    assert w % 0x400 == w % 0x400 / 0x20 * 0x20 + w % 0x400 % 0x20;
  }

  // ---------------------------------------------------------------- the pass and the machine, on encodings

  /** The load that the pass leaves below an ADRP, when its slot is `slot` and a slot `to` replaces that. */
  function Repointed(page: int, base: nat, target: nat, imm: nat, slots: map<int, int>): word
    requires base < 0x20 && target < 0x20 && imm < 0x1000
  {
    var slot := page + 8 * imm;
    if slot in slots && 0 <= slots[slot] - page < 0x8000 && (slots[slot] - page) % 8 == 0
    then EncodeLdr(base, target, (slots[slot] - page) / 8)
    else EncodeLdr(base, target, imm)
  }

  /** A load is re-pointed exactly when the ADRP above it sets its base register. */
  lemma {:induction false} PairIsRepointed(r: nat, pages: int, base: nat, target: nat, imm: nat, pc: nat, slots: map<int, int>)
    requires r < 0x20 && -0x10_0000 <= pages < 0x10_0000 && base < 0x20 && target < 0x20 && imm < 0x1000
    ensures Canonical(EncodeAdrp(r, pages), EncodeLdr(base, target, imm), pc, slots)
         == if r == base then Repointed(Page(pc, pages), base, target, imm, slots) else EncodeLdr(base, target, imm)
  {
    hide EncodeAdrp, EncodeLdr, AdrpPage, IsAdrp, IsLdr, LdrBase, LdrTarget, LdrImmediate, AdrpRegister, Page, WithImmediate;
    AdrpDecodes(r, pages, pc);
    LdrDecodes(base, target, imm);
    var (a, w) := (EncodeAdrp(r, pages), EncodeLdr(base, target, imm));
    if Rewrites(a, w, pc, slots) {
      Reimmediate(base, target, imm, (slots[Slot(a, w, pc)] - Page(pc, pages)) / 8);
    }
  }

  lemma {:induction false} Reimmediate(base: nat, target: nat, imm: nat, to: nat)
    requires base < 0x20 && target < 0x20 && imm < 0x1000 && to < 0x1000
    ensures WithImmediate(EncodeLdr(base, target, imm), to) == EncodeLdr(base, target, to)
  {
    var w := EncodeLdr(base, target, imm);
    assert w / 0x40_0000 == 0x3E5 && w % 0x400 == base * 0x20 + target;
  }

  /** Every word that the pass changes is such a load below such an ADRP. */
  lemma {:induction false} OnlyPairsChange(previous: word, w: word, pc: nat, slots: map<int, int>)
    requires Canonical(previous, w, pc, slots) != w
    ensures w == EncodeLdr(LdrBase(w), LdrTarget(w), LdrImmediate(w))
    ensures exists pages ::
              && -0x10_0000 <= pages < 0x10_0000 && previous == EncodeAdrp(LdrBase(w), pages)
              && Canonical(previous, w, pc, slots) == Repointed(Page(pc, pages), LdrBase(w), LdrTarget(w), LdrImmediate(w), slots)
  {
    hide EncodeAdrp, EncodeLdr, AdrpPage, WithImmediate, Page, Repointed;
    AdrpIsEncoded(previous);
    var pages :| -0x10_0000 <= pages < 0x10_0000 && previous == EncodeAdrp(AdrpRegister(previous), pages);
    LdrIsEncoded(w);
    PairIsRepointed(LdrBase(w), pages, LdrBase(w), LdrTarget(w), LdrImmediate(w), pc, slots);
  }

  lemma {:induction false} EncodingsDiffer(r: nat, pages: int, target: nat, imm: nat)
    requires r < 0x20 && -0x10_0000 <= pages < 0x10_0000 && target < 0x20 && imm < 0x1000
    ensures EncodeAdrp(r, pages) != EncodeLdr(r, target, imm)
  {
    hide EncodeAdrp, EncodeLdr, IsAdrp, IsLdr, AdrpPage;
    AdrpDecodes(r, pages, 0);
    LdrDecodes(r, target, imm);
    LdrIsNotAdrp(EncodeLdr(r, target, imm));
  }

  /** The machine of the runs executes both instructions as they are encoded. */
  lemma {:induction false} EncodedSteps<M>(ws: seq<word>, address: nat, m: Machine<M>, read: (M, nat) -> nat,
                                           other: (word, Machine<M>) -> Machine<M>, r: nat, pages: int, target: nat, imm: nat)
    requires r < 0x20 && -0x10_0000 <= pages < 0x10_0000 && target < 0x20 && imm < 0x1000 && m.pc < |ws|
    ensures ws[m.pc] == EncodeAdrp(r, pages) ==>
              Step(ws, address, m, read, other) == SetX(m, r, Page(address + 4 * m.pc, pages) % U64).(pc := m.pc + 1)
    ensures ws[m.pc] == EncodeLdr(r, target, imm) ==>
              Step(ws, address, m, read, other) == SetX(m, target, read(m.rest, (BaseValue(m, r) + 8 * imm) % U64)).(pc := m.pc + 1)
  {
    hide EncodeAdrp, EncodeLdr, AdrpPage, IsAdrp, IsLdr, LdrBase, LdrTarget, LdrImmediate, AdrpRegister, Page, SetX, BaseValue;
    if ws[m.pc] == EncodeAdrp(r, pages) {
      AdrpDecodes(r, pages, address + 4 * m.pc);
    } else {
      LdrDecodes(r, target, imm);
      LdrIsNotAdrp(EncodeLdr(r, target, imm));
    }
    EncodingsDiffer(r, pages, target, imm);
  }
}
