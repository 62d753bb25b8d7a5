/** Re-pointing ARM64 GOT loads at the lowest of several slots bound to one symbol. */
module MachOGot {
  import opened Bytes

  // ---------------------------------------------------------------- instruction fields

  /** Flip bit `sign` of `value`, where `sign` is a power of two. */
  function FlipBit(value: nat, sign: nat): int
    requires sign > 0
  {
    if value / sign % 2 == 1 then value - sign else value + sign
  }

  function Pow2(n: nat): (p: nat)
    ensures p > 0
  {
    if n == 0 then 1 else 2 * Pow2(n - 1)
  }

  /** `(value ^ sign_bit) - sign_bit`. */
  function SignExtend(value: nat, bits: nat): int
    requires bits > 0
  {
    FlipBit(value, Pow2(bits - 1)) - Pow2(bits - 1)
  }

  predicate IsAdrp(w: word) {
    w / 0x8000_0000 == 1 && w / 0x100_0000 % 0x20 == 0x10
  }

  /** A 64-bit LDR with an unsigned scaled immediate. */
  predicate IsLdr(w: word) {
    w / 0x40_0000 == 0x3E5
  }

  function AdrpRegister(w: word): nat { w % 0x20 }

  /** The page an ADRP at address `pc` computes, not reduced to 64 bits. */
  function AdrpPage(w: word, pc: nat): int {
    var immlo := w / 0x2000_0000 % 4;
    var immhi := w / 0x20 % 0x8_0000;
    (pc - pc % 0x1000) + SignExtend(4 * immhi + immlo, 21) * 0x1000
  }

  function LdrBase(w: word): nat { w / 0x20 % 0x20 }

  function LdrTarget(w: word): nat { w % 0x20 }

  function LdrImmediate(w: word): nat { w / 0x400 % 0x1000 }

  /** Replace bits 10-21 of an instruction. */
  function WithImmediate(w: word, imm: nat): (r: word)
    requires imm < 0x1000
    ensures r % 0x400 == w % 0x400 && r / 0x40_0000 == w / 0x40_0000 && LdrImmediate(r) == imm
  {
    w / 0x40_0000 * 0x40_0000 + imm * 0x400 + w % 0x400
  }

  /** `SignExtend` yields the two's-complement reading of the low `bits` bits. */
  lemma {:induction false} SignExtendIsTwosComplement(value: nat, bits: nat)
    requires bits > 0 && value < Pow2(bits)
    ensures 0 - Pow2(bits - 1) <= SignExtend(value, bits) < Pow2(bits - 1)
    ensures SignExtend(value, bits) == value || SignExtend(value, bits) == value - Pow2(bits)
  {
    var s := Pow2(bits - 1);
    if value < s {
      assert value / s == 0;
    } else {
      assert value / s == 1 by { assert value == s + (value - s); assert 0 <= value - s < s; DivOne(value, s); }
    }
  }

  lemma {:induction false} DivOne(a: nat, s: nat)
    requires 0 < s <= a < 2 * s
    ensures a / s == 1
  {
    var q := a / s;
    assert a == s * q + a % s;
    assert q >= 2 ==> s * q >= s * 2;
  }

  /** No word is both an ADRP and a load. */
  lemma {:induction false} LdrIsNotAdrp(w: word)
    requires IsLdr(w)
    ensures !IsAdrp(w)
  {
    assert w / 0x100_0000 == 0xF9;
  }

  /** Replacing bits 10-21 keeps the opcode and both registers. */
  lemma {:induction false} WithImmediateKeeps(w: word, imm: nat)
    requires imm < 0x1000
    ensures var r := WithImmediate(w, imm);
            IsLdr(r) == IsLdr(w) && LdrBase(r) == LdrBase(w) && LdrTarget(r) == LdrTarget(w)
  {
    LowFields(w);
    LowFields(WithImmediate(w, imm));
  }

  lemma {:induction false} LowFields(w: nat)
    ensures w % 0x20 == w % 0x400 % 0x20
    ensures w / 0x20 % 0x20 == w % 0x400 / 0x20
  {
    var q, r := w / 0x400, w % 0x400;
    assert w == 0x20 * (0x20 * q + r / 0x20) + r % 0x20;
    assert w / 0x20 == 0x20 * q + r / 0x20;
  }

  lemma {:induction false} Fields(w: nat)
    ensures w == w / 0x40_0000 * 0x40_0000 + w / 0x400 % 0x1000 * 0x400 + w % 0x400
  {
    var q := w / 0x400;
    assert w == q * 0x400 + w % 0x400;
    assert q == q / 0x1000 * 0x1000 + q % 0x1000;
    assert q / 0x1000 == w / 0x40_0000;
  }

  // ---------------------------------------------------------------- the pass, word by word

  /** `w` loads through the page that `previous` computes. */
  predicate IsPair(previous: word, w: word) {
    IsLdr(w) && IsAdrp(previous) && AdrpRegister(previous) == LdrBase(w)
  }

  /** The slot that a pair reads, when its ADRP is at `pc`. */
  function Slot(previous: word, w: word, pc: nat): int {
    AdrpPage(previous, pc) + 8 * LdrImmediate(w)
  }

  /** A scaled 12-bit immediate can name `slot` from `page`. */
  predicate Encodable(page: int, slot: int) {
    0 <= slot - page <= 0x7FF8 && (slot - page) % 8 == 0
  }

  /** The pass rewrites this word to name `slots[Slot(previous, w, pc)]`. */
  predicate Rewrites(previous: word, w: word, pc: nat, slots: map<int, int>) {
    && IsPair(previous, w)
    && Slot(previous, w, pc) in slots
    && Encodable(AdrpPage(previous, pc), slots[Slot(previous, w, pc)])
  }

  function Canonical(previous: word, w: word, pc: nat, slots: map<int, int>): word {
    if Rewrites(previous, w, pc, slots)
    then WithImmediate(w, (slots[Slot(previous, w, pc)] - AdrpPage(previous, pc)) / 8)
    else w
  }

  /** A whole section, every word in terms of the words before the pass. */
  function Rewrite(ws: seq<word>, address: nat, slots: map<int, int>): (r: seq<word>)
    ensures |r| == |ws|
  {
    seq(|ws|, i requires 0 <= i < |ws| =>
      if i == 0 then ws[i] else Canonical(ws[i - 1], ws[i], address + 4 * (i - 1), slots))
  }

  /** The instruction words of `s[at..at + 4 * n]`. */
  function Words(s: seq<byte>, at: nat, n: nat): (ws: seq<word>)
    requires at + 4 * n <= |s|
    ensures |ws| == n
  {
    seq(n, k requires 0 <= k < n => Le32(s, at + 4 * k))
  }

  /** What a rewritten word keeps, and the slot it now names. */
  lemma {:induction false} CanonicalKeeps(previous: word, w: word, pc: nat, slots: map<int, int>)
    ensures var r := Canonical(previous, w, pc, slots);
            && IsLdr(r) == IsLdr(w) && IsAdrp(r) == IsAdrp(w)
            && (IsAdrp(w) ==> r == w)
            && (IsLdr(w) ==> LdrBase(r) == LdrBase(w) && LdrTarget(r) == LdrTarget(w))
            && (Rewrites(previous, w, pc, slots) ==> Slot(previous, r, pc) == slots[Slot(previous, w, pc)])
  {
    if Rewrites(previous, w, pc, slots) {
      var imm := (slots[Slot(previous, w, pc)] - AdrpPage(previous, pc)) / 8;
      WithImmediateKeeps(w, imm);
      LdrIsNotAdrp(w);
      LdrIsNotAdrp(WithImmediate(w, imm));
    }
  }

  /** Naming the slot that is already named changes nothing. */
  lemma {:induction false} SameSlotSameWord(previous: word, w: word, pc: nat, slots: map<int, int>)
    requires Slot(previous, w, pc) in slots && slots[Slot(previous, w, pc)] == Slot(previous, w, pc)
    ensures Canonical(previous, w, pc, slots) == w
  {
    Fields(w);
    assert Slot(previous, w, pc) - AdrpPage(previous, pc) == 8 * LdrImmediate(w);
  }

  method WriteLe32(data: array<byte>, at: nat, w: word)
    requires at + 4 <= data.Length
    modifies data
    ensures Le32(data[..], at) == w
    ensures forall p :: 0 <= p < data.Length && !(at <= p < at + 4) ==> data[p] == old(data[p])
  {
    var b := ToLe32(w);
    data[at], data[at + 1], data[at + 2], data[at + 3] := b[0], b[1], b[2], b[3];
  }

  /** One iteration of the loop: the load at `at`, below the word at `at - 4`. */
  method NormalizeLoad(data: array<byte>, at: nat, pc: nat, slots: map<int, int>)
    requires 4 <= at && at + 4 <= data.Length
    modifies data
    ensures Le32(data[..], at) == Canonical(old(Le32(data[..], at - 4)), old(Le32(data[..], at)), pc, slots)
    ensures forall p :: 0 <= p < data.Length && !(at <= p < at + 4) ==> data[p] == old(data[p])
  {
    var instruction := Le32(data[..], at);
    if !IsLdr(instruction) {
      return;
    }
    var previous := Le32(data[..], at - 4);
    if !IsAdrp(previous) || AdrpRegister(previous) != LdrBase(instruction) {
      return;
    }
    var page := AdrpPage(previous, pc);
    var target := page + LdrImmediate(instruction) * 8;
    if target !in slots || slots[target] == target {
      if target in slots { SameSlotSameWord(previous, instruction, pc, slots); }
      return;
    }
    var scaled := slots[target] - page;
    if scaled < 0 || scaled > 0xFFF * 8 || scaled % 8 != 0 {
      return;
    }
    WriteLe32(data, at, WithImmediate(instruction, scaled / 8));
  }

  /** The in-place pass is the pointwise map `Rewrite` over the original words. */
  method NormalizeTextSection(data: array<byte>, offset: nat, size: nat, address: nat, slots: map<int, int>)
    requires offset + size <= data.Length
    modifies data
    ensures Words(data[..], offset, size / 4) == Rewrite(Words(old(data[..]), offset, size / 4), address, slots)
    ensures forall p :: 0 <= p < data.Length && !(offset <= p < offset + size / 4 * 4) ==> data[p] == old(data[p])
  {
    ghost var n := size / 4;
    ghost var was := data[..];
    HalfDoneStart(was, offset, n, address, slots);
    if size < 8 {
      return;
    }
    var at := offset + 4;
    ghost var i := 1;
    while at < offset + size - 3
      invariant 1 <= i <= n && at == offset + 4 * i
      invariant HalfDone(was, data[..], offset, n, i, address, slots)
    {
      ghost var before := data[..];
      var pc := address + (at - 4 - offset);
      NormalizeLoad(data, at, pc, slots);
      HalfDoneStep(was, before, data[..], offset, n, i, address, pc, slots);
      at := at + 4;
      i := i + 1;
    }
    assert i == n;
  }

  /** `s` is `was` with its first `i` words rewritten. */
  ghost predicate HalfDone(was: seq<byte>, s: seq<byte>, at: nat, n: nat, i: nat, address: nat, slots: map<int, int>)
  {
    && |s| == |was| && at + 4 * n <= |s| && i <= n
    && Words(s, at, n) == Rewrite(Words(was, at, n), address, slots)[..i] + Words(was, at, n)[i..]
    && forall p :: 0 <= p < |s| && !(at <= p < at + 4 * n) ==> s[p] == was[p]
  }

  lemma {:induction false} HalfDoneStart(was: seq<byte>, at: nat, n: nat, address: nat, slots: map<int, int>)
    requires at + 4 * n <= |was|
    ensures HalfDone(was, was, at, n, if n == 0 then 0 else 1, address, slots)
  {
    if n > 0 {
      assert Rewrite(Words(was, at, n), address, slots)[..1] == Words(was, at, n)[..1];
    }
  }

  lemma {:induction false} HalfDoneStep(was: seq<byte>, s: seq<byte>, t: seq<byte>, at: nat, n: nat, i: nat,
                     address: nat, pc: nat, slots: map<int, int>)
    requires 0 < i < n && HalfDone(was, s, at, n, i, address, slots) && pc == address + 4 * (i - 1)
    requires |t| == |s| && forall p :: 0 <= p < |s| && !(at + 4 * i <= p < at + 4 * i + 4) ==> s[p] == t[p]
    requires Le32(t, at + 4 * i) == Canonical(Le32(s, at + 4 * i - 4), Le32(s, at + 4 * i), pc, slots)
    ensures HalfDone(was, t, at, n, i + 1, address, slots)
  {
    NextWord(was, s, at, n, i, address, slots);
    WordsElsewhere(s, t, at, n, i);
    Splice(Rewrite(Words(was, at, n), address, slots), Words(was, at, n), i);
  }

  /** The loop computes the next word of `Rewrite`, although word `i - 1` is already rewritten. */
  lemma {:induction false} NextWord(was: seq<byte>, s: seq<byte>, at: nat, n: nat, i: nat, address: nat, slots: map<int, int>)
    requires 0 < i < n && HalfDone(was, s, at, n, i, address, slots)
    ensures Canonical(Le32(s, at + 4 * i - 4), Le32(s, at + 4 * i), address + 4 * (i - 1), slots)
         == Rewrite(Words(was, at, n), address, slots)[i]
  {
    assert at + 4 * i - 4 == at + 4 * (i - 1);
    assert Words(s, at, n)[i - 1] == Le32(s, at + 4 * i - 4) && Words(s, at, n)[i] == Le32(s, at + 4 * i);
    AdrpSurvives(Words(was, at, n), i, address, slots);
  }

  lemma {:induction false} Splice<T>(rs: seq<T>, ws: seq<T>, i: nat)
    requires |rs| == |ws| && i < |ws|
    ensures (rs[..i] + ws[i..])[i := rs[i]] == rs[..i + 1] + ws[i + 1..]
  {
  }

  lemma {:induction false} WordsElsewhere(s: seq<byte>, t: seq<byte>, at: nat, n: nat, i: nat)
    requires |s| == |t| && at + 4 * n <= |s| && i < n
    requires forall p :: 0 <= p < |s| && !(at + 4 * i <= p < at + 4 * i + 4) ==> s[p] == t[p]
    ensures Words(t, at, n) == Words(s, at, n)[i := Le32(t, at + 4 * i)]
  {
  }

  /** Reading the predecessor of word `i` after it was rewritten makes no difference. */
  lemma {:induction false} AdrpSurvives(ws: seq<word>, i: nat, address: nat, slots: map<int, int>)
    requires 0 < i < |ws|
    ensures Canonical(Rewrite(ws, address, slots)[i - 1], ws[i], address + 4 * (i - 1), slots)
         == Rewrite(ws, address, slots)[i]
  {
    if i > 1 {
      CanonicalKeeps(ws[i - 2], ws[i - 1], address + 4 * (i - 2), slots);
    }
  }

  // ---------------------------------------------------------------- the pass, byte by byte

  /** The bytes after the pass over the section `s[at..at + size]`. */
  function TextPass(s: seq<byte>, at: nat, size: nat, address: nat, slots: map<int, int>): (r: seq<byte>)
    requires at + size <= |s|
    ensures |r| == |s|
  {
    var rs := Rewrite(Words(s, at, size / 4), address, slots);
    seq(|s|, p requires 0 <= p < |s| =>
      if at <= p < at + size / 4 * 4 then ToLe32(rs[(p - at) / 4])[(p - at) % 4] else s[p])
  }

  /** Rewriting the words and keeping everything else is `TextPass`, and nothing else is. */
  lemma {:induction false} TextPassByWords(s: seq<byte>, t: seq<byte>, at: nat, size: nat, address: nat, slots: map<int, int>)
    requires at + size <= |s| == |t|
    ensures t == TextPass(s, at, size, address, slots) <==>
            && Words(t, at, size / 4) == Rewrite(Words(s, at, size / 4), address, slots)
            && forall p :: 0 <= p < |s| && !(at <= p < at + size / 4 * 4) ==> t[p] == s[p]
  {
    hide Rewrite, TextPass, Words;
    TextPassWords(s, at, size, address, slots);
    if Words(t, at, size / 4) == Rewrite(Words(s, at, size / 4), address, slots)
       && forall p :: 0 <= p < |s| && !(at <= p < at + size / 4 * 4) ==> t[p] == s[p] {
      WordsDetermineBytes(t, TextPass(s, at, size, address, slots), at, size / 4);
    }
  }

  lemma {:induction false} TextPassWords(s: seq<byte>, at: nat, size: nat, address: nat, slots: map<int, int>)
    requires at + size <= |s|
    ensures var r := TextPass(s, at, size, address, slots);
            && Words(r, at, size / 4) == Rewrite(Words(s, at, size / 4), address, slots)
            && forall p :: 0 <= p < |s| && !(at <= p < at + size / 4 * 4) ==> r[p] == s[p]
  {
    hide Rewrite, Le32;
    forall k | 0 <= k < size / 4
      ensures Words(TextPass(s, at, size, address, slots), at, size / 4)[k]
           == Rewrite(Words(s, at, size / 4), address, slots)[k]
    {
      TextPassWord(s, at, size, address, slots, k);
    }
  }

  lemma {:induction false} WordsDetermineBytes(s: seq<byte>, t: seq<byte>, at: nat, n: nat)
    requires at + 4 * n <= |s| == |t| && Words(s, at, n) == Words(t, at, n)
    requires forall p :: 0 <= p < |s| && !(at <= p < at + 4 * n) ==> s[p] == t[p]
    ensures s == t
  {
    hide Le32;
    forall p | at <= p < at + 4 * n ensures s[p] == t[p] {
      var k := (p - at) / 4;
      assert Words(s, at, n)[k] == Words(t, at, n)[k];
      Le32Injective(s, t, at + 4 * k);
    }
  }

  lemma {:induction false} TextPassWord(s: seq<byte>, at: nat, size: nat, address: nat, slots: map<int, int>, k: nat)
    requires at + size <= |s| && k < size / 4
    ensures Le32(TextPass(s, at, size, address, slots), at + 4 * k)
         == Rewrite(Words(s, at, size / 4), address, slots)[k]
  {
    hide Rewrite, ToLe32;
    var r := TextPass(s, at, size, address, slots);
    var b := ToLe32(Rewrite(Words(s, at, size / 4), address, slots)[k]);
    forall j | 0 <= j < 4 ensures r[at + 4 * k + j] == b[j] {
      assert (4 * k + j) / 4 == k && (4 * k + j) % 4 == j;
    }
  }
}
