/** What a machine does with the rewritten section: when a step, and a run, stays the same. */
module MachOGotRuns {
  import opened Bytes
  import opened MachOGot
  import opened MachOGotMeaning
  import MachOGotForm

  // ---------------------------------------------------------------- the machine

  /** ARM64 registers and whatever else the program can observe. Register number 31 is the
      discarded zero register as a destination and the stack pointer as a load's base. */
  datatype Machine<M> = Machine(pc: nat, x: seq<nat>, sp: nat, rest: M)

  function SetX<M>(m: Machine<M>, r: nat, value: nat): Machine<M> {
    if r < 31 && r < |m.x| then m.(x := m.x[r := value]) else m
  }

  function BaseValue<M>(m: Machine<M>, r: nat): nat {
    if r < 31 && r < |m.x| then m.x[r] else m.sp
  }

  function LoadAddress<M>(m: Machine<M>, w: word): nat {
    (BaseValue(m, LdrBase(w)) + 8 * LdrImmediate(w)) % U64
  }

  /** One instruction of the section mapped at `address`; `other` executes everything but
      ADRP and the 64-bit load, and may branch anywhere. */
  function Step<M>(ws: seq<word>, address: nat, m: Machine<M>, read: (M, nat) -> nat,
                   other: (word, Machine<M>) -> Machine<M>): Machine<M> {
    if m.pc >= |ws| then m
    else
      var w := ws[m.pc];
      if IsAdrp(w) then SetX(m, AdrpRegister(w), AdrpPage(w, address + 4 * m.pc) % U64).(pc := m.pc + 1)
      else if IsLdr(w) then SetX(m, LdrTarget(w), read(m.rest, LoadAddress(m, w))).(pc := m.pc + 1)
      else other(w, m)
  }

  function Run<M>(ws: seq<word>, address: nat, m: Machine<M>, read: (M, nat) -> nat,
                  other: (word, Machine<M>) -> Machine<M>, k: nat): Machine<M> {
    if k == 0 then m else Step(ws, address, Run(ws, address, m, read, other, k - 1), read, other)
  }

  /** The dynamic linker has filled the slots that the image's own listing binds to one symbol alike. */
  ghost predicate GroupsAgree<M>(own: seq<Fixup>, rest: M, read: (M, nat) -> nat) {
    forall t, a, b :: a in AddressesOf(own, t) && b in AddressesOf(own, t) ==> read(rest, a % U64) == read(rest, b % U64)
  }

  // ---------------------------------------------------------------- addresses that must hold the same value

  /** Two slots of one symbol, as 64-bit addresses. */
  ghost predicate Link(own: seq<Fixup>, x: nat, y: nat) {
    exists t, a, b :: a in AddressesOf(own, t) && b in AddressesOf(own, t) && x == a % U64 && y == b % U64
  }

  ghost predicate Chain(own: seq<Fixup>, p: seq<nat>, x: nat, y: nat) {
    p != [] && p[0] == x && p[|p| - 1] == y && forall i :: 0 <= i < |p| - 1 ==> Link(own, p[i], p[i + 1])
  }

  /** The same address, or slots that are linked through symbols. */
  ghost predicate OneGroup(own: seq<Fixup>, x: nat, y: nat) {
    exists p :: Chain(own, p, x, y)
  }

  lemma {:induction false} SameAddress(own: seq<Fixup>, x: nat)
    ensures OneGroup(own, x, x)
  {
    assert Chain(own, [x], x, x);
  }

  lemma {:induction false} OneFurther(own: seq<Fixup>, x: nat, y: nat, z: nat)
    requires OneGroup(own, x, y) && Link(own, y, z)
    ensures OneGroup(own, x, z)
  {
    var p :| Chain(own, p, x, y);
    assert Chain(own, p + [z], x, z);
  }

  lemma {:induction false} LinkAgrees<M>(own: seq<Fixup>, rest: M, read: (M, nat) -> nat, x: nat, y: nat)
    requires GroupsAgree(own, rest, read) && Link(own, x, y)
    ensures read(rest, x) == read(rest, y)
  {
    hide AddressesOf;
  }

  lemma {:induction false} ChainAgrees<M>(own: seq<Fixup>, rest: M, read: (M, nat) -> nat, p: seq<nat>, x: nat, y: nat)
    requires GroupsAgree(own, rest, read) && Chain(own, p, x, y)
    ensures read(rest, x) == read(rest, y)
    decreases |p|
  {
    hide GroupsAgree, Link;
    if |p| > 1 {
      var before := p[..|p| - 1];
      ChainAgrees(own, rest, read, before, x, p[|p| - 2]);
      assert Link(own, p[|p| - 2], p[|p| - 2 + 1]);
      LinkAgrees(own, rest, read, p[|p| - 2], y);
    }
  }

  /** A memory that the loader may have left, in which only the group of `x` holds zero. */
  ghost function Telling<M>(own: seq<Fixup>, x: nat): (M, nat) -> nat {
    (rest: M, y: nat) => if OneGroup(own, x, y) then 0 else 1
  }

  lemma {:induction false} TellingAgrees<M>(own: seq<Fixup>, rest: M, x: nat)
    ensures GroupsAgree(own, rest, Telling(own, x))
  {
    hide OneGroup, AddressesOf;
    forall t, a, b | a in AddressesOf(own, t) && b in AddressesOf(own, t)
      ensures OneGroup(own, x, a % U64) <==> OneGroup(own, x, b % U64)
    {
      assert Link(own, a % U64, b % U64) && Link(own, b % U64, a % U64);
      if OneGroup(own, x, a % U64) {
        OneFurther(own, x, a % U64, b % U64);
      }
      if OneGroup(own, x, b % U64) {
        OneFurther(own, x, b % U64, a % U64);
      }
    }
  }

  /** Two addresses hold the same value in every memory the loader may leave exactly when they are in one group. */
  lemma {:induction false} GroupsDecide<M(!new)>(own: seq<Fixup>, rest: M, x: nat, y: nat)
    ensures OneGroup(own, x, y) <==>
            forall read: (M, nat) -> nat :: GroupsAgree(own, rest, read) ==> read(rest, x) == read(rest, y)
  {
    hide GroupsAgree;
    if OneGroup(own, x, y) {
      var p :| Chain(own, p, x, y);
      forall read: (M, nat) -> nat | GroupsAgree(own, rest, read) ensures read(rest, x) == read(rest, y) {
        ChainAgrees(own, rest, read, p, x, y);
      }
    } else {
      var read: (M, nat) -> nat := Telling(own, x);
      TellingAgrees(own, rest, x);
      SameAddress(own, x);
      assert read(rest, x) != read(rest, y);
    }
  }

  ghost predicate OneSymbol(own: seq<Fixup>, x: int, y: int) {
    exists t :: x in AddressesOf(own, t) && y in AddressesOf(own, t)
  }

  /** In a listing of real addresses, none bound twice, groups are what they seem: the slots of one symbol. */
  lemma {:induction false} OneGroupIsOneSymbol(own: seq<Fixup>, x: nat, y: nat)
    requires Disjoint(own) && forall i :: 0 <= i < |own| ==> 0 <= own[i].address < U64
    ensures OneGroup(own, x, y) <==> x == y || OneSymbol(own, x, y)
  {
    hide Disjoint;
    if OneGroup(own, x, y) {
      var p :| Chain(own, p, x, y);
      ChainKeepsSymbol(own, p, x, y);
    }
    SameAddress(own, x);
    if OneSymbol(own, x, y) {
      var t :| x in AddressesOf(own, t) && y in AddressesOf(own, t);
      assert x % U64 == x && y % U64 == y;
      assert Link(own, x, y);
      OneFurther(own, x, x, y);
    }
  }

  lemma {:induction false} LinkIsOneSymbol(own: seq<Fixup>, x: nat, y: nat)
    requires Link(own, x, y) && forall i :: 0 <= i < |own| ==> 0 <= own[i].address < U64
    ensures OneSymbol(own, x, y)
  {
    var t, a, b :| a in AddressesOf(own, t) && b in AddressesOf(own, t) && x == a % U64 && y == b % U64;
    assert x == a && y == b;
  }

  lemma {:induction false} ChainKeepsSymbol(own: seq<Fixup>, p: seq<nat>, x: nat, y: nat)
    requires Disjoint(own) && (forall i :: 0 <= i < |own| ==> 0 <= own[i].address < U64) && Chain(own, p, x, y)
    ensures x == y || OneSymbol(own, x, y)
    decreases |p|
  {
    hide AddressesOf, Disjoint, Link;
    if |p| > 1 {
      var z := p[|p| - 2];
      ChainKeepsSymbol(own, p[..|p| - 1], x, z);
      assert Link(own, p[|p| - 2], p[|p| - 2 + 1]);
      LinkIsOneSymbol(own, z, y);
      if x != z {
        var t :| x in AddressesOf(own, t) && z in AddressesOf(own, t);
        var u :| z in AddressesOf(own, u) && y in AddressesOf(own, u);
        SameTarget(own, t, u, z);
      }
    }
  }

  // ---------------------------------------------------------------- one step

  /** The instruction at `s` is the same, or its result is discarded, or both forms load from one group. */
  ghost predicate Harmless<M>(ws: seq<word>, address: nat, slots: map<int, int>, own: seq<Fixup>, s: Machine<M>) {
    s.pc < |ws| && Rewrite(ws, address, slots)[s.pc] != ws[s.pc] && LdrTarget(ws[s.pc]) != 31 ==>
      OneGroup(own, LoadAddress(s, ws[s.pc]), LoadAddress(s, Rewrite(ws, address, slots)[s.pc]))
  }

  ghost predicate SameStep<M>(ws: seq<word>, address: nat, slots: map<int, int>, s: Machine<M>, read: (M, nat) -> nat,
                              other: (word, Machine<M>) -> Machine<M>) {
    Step(Rewrite(ws, address, slots), address, s, read, other) == Step(ws, address, s, read, other)
  }

  /** From any state at all, however it was reached, and whatever listing the slot map was built from: the rewritten section
      makes the same step in every memory that the loader may leave for the image exactly when the step is harmless. */
  lemma {:induction false} StepSameIff<M(!new)>(ws: seq<word>, address: nat, slots: map<int, int>, own: seq<Fixup>, s: Machine<M>,
                             other: (word, Machine<M>) -> Machine<M>)
    requires |s.x| == 31
    ensures Harmless(ws, address, slots, own, s) <==>
            forall read: (M, nat) -> nat :: GroupsAgree(own, s.rest, read) ==> SameStep(ws, address, slots, s, read, other)
  {
    hide GroupsAgree, OneGroup, LoadAddress, Rewrite, IsLdr, IsAdrp;
    if s.pc < |ws| && Rewrite(ws, address, slots)[s.pc] != ws[s.pc] {
      ChangedIsLoad(ws, address, slots, s.pc);
      var (w, r) := (ws[s.pc], Rewrite(ws, address, slots)[s.pc]);
      GroupsDecide(own, s.rest, LoadAddress(s, w), LoadAddress(s, r));
      forall read: (M, nat) -> nat
        ensures SameStep(ws, address, slots, s, read, other) <==>
                LdrTarget(w) == 31 || read(s.rest, LoadAddress(s, w)) == read(s.rest, LoadAddress(s, r))
      {
        LoadStep(ws, address, slots, s, read, other);
      }
    }
  }

  lemma {:induction false} ChangedIsLoad(ws: seq<word>, address: nat, slots: map<int, int>, i: nat)
    requires i < |ws| && Rewrite(ws, address, slots)[i] != ws[i]
    ensures i > 0 && Rewrites(ws[i - 1], ws[i], PcOf(address, i), slots)
    ensures var r := Rewrite(ws, address, slots)[i];
            IsLdr(ws[i]) && IsLdr(r) && !IsAdrp(ws[i]) && !IsAdrp(r) && LdrTarget(r) == LdrTarget(ws[i])
  {
    hide Rewrites, IsLdr, IsAdrp, LdrTarget;
    RewriteAt(ws, address, slots, i);
    RewrittenIsLoad(ws[i - 1], ws[i], PcOf(address, i), slots);
  }

  lemma {:induction false} LoadStep<M>(ws: seq<word>, address: nat, slots: map<int, int>, s: Machine<M>, read: (M, nat) -> nat,
                    other: (word, Machine<M>) -> Machine<M>)
    requires |s.x| == 31 && s.pc < |ws| && Rewrite(ws, address, slots)[s.pc] != ws[s.pc]
    ensures var (w, r) := (ws[s.pc], Rewrite(ws, address, slots)[s.pc]);
            SameStep(ws, address, slots, s, read, other) <==>
            LdrTarget(w) == 31 || read(s.rest, LoadAddress(s, w)) == read(s.rest, LoadAddress(s, r))
  {
    ChangedIsLoad(ws, address, slots, s.pc);
    hide IsLdr, IsAdrp, LoadAddress, Rewrite;
    var (w, r) := (ws[s.pc], Rewrite(ws, address, slots)[s.pc]);
    var (v, u) := (read(s.rest, LoadAddress(s, w)), read(s.rest, LoadAddress(s, r)));
    var t := LdrTarget(w);
    assert t < 31 ==> s.x[t := v][t] == v && s.x[t := u][t] == u;
  }

  lemma {:induction false} RewrittenIsLoad(previous: word, w: word, pc: nat, slots: map<int, int>)
    requires Rewrites(previous, w, pc, slots)
    ensures var r := Canonical(previous, w, pc, slots);
            IsLdr(w) && IsLdr(r) && !IsAdrp(w) && !IsAdrp(r) && LdrTarget(r) == LdrTarget(w)
  {
    hide AdrpPage, LdrTarget;
    CanonicalKeeps(previous, w, pc, slots);
    LdrIsNotAdrp(w);
  }

  // ---------------------------------------------------------------- whole runs

  /** After `k` steps the loader's promise holds, the 31 registers exist, and the next step is harmless. */
  ghost predicate Fit<M>(ws: seq<word>, address: nat, slots: map<int, int>, own: seq<Fixup>, m: Machine<M>, read: (M, nat) -> nat,
                         other: (word, Machine<M>) -> Machine<M>, k: nat) {
    var s := Run(ws, address, m, read, other, k);
    GroupsAgree(own, s.rest, read) && |s.x| == 31 && Harmless(ws, address, slots, own, s)
  }

  /** A run whose every step is harmless goes through exactly the same states. */
  lemma {:induction false} RewriteSimulates<M(!new)>(ws: seq<word>, address: nat, slots: map<int, int>, own: seq<Fixup>, m: Machine<M>,
      read: (M, nat) -> nat, other: (word, Machine<M>) -> Machine<M>, k: nat)
    requires forall j :: 0 <= j < k ==> Fit(ws, address, slots, own, m, read, other, j)
    ensures Run(Rewrite(ws, address, slots), address, m, read, other, k) == Run(ws, address, m, read, other, k)
  {
    hide GroupsAgree, Step, Rewrite, Harmless;
    if k > 0 {
      RewriteSimulates(ws, address, slots, own, m, read, other, k - 1);
      assert Fit(ws, address, slots, own, m, read, other, k - 1);
      var s := Run(ws, address, m, read, other, k - 1);
      StepSameIff(ws, address, slots, own, s, other);
      assert SameStep(ws, address, slots, s, read, other);
    }
  }

  /** The instruction before `s` was the ADRP of the load at `s`, and the pair does not go through register 31. */
  ghost predicate EnteredFromAdrp<M>(ws: seq<word>, address: nat, m: Machine<M>, read: (M, nat) -> nat,
                                     other: (word, Machine<M>) -> Machine<M>, k: nat) {
    var s := Run(ws, address, m, read, other, k);
    && k > 0 && s.pc > 0 && Run(ws, address, m, read, other, k - 1).pc == s.pc - 1
    && (s.pc < |ws| ==> LdrBase(ws[s.pc]) != 31)
  }

  /** The image links the slot of the load at `i` and the slot that it is sent to. */
  ghost predicate SentWithin(ws: seq<word>, address: nat, slots: map<int, int>, own: seq<Fixup>, i: nat) {
    && 0 < i < |ws|
    && var slot := Slot(ws[i - 1], ws[i], PcOf(address, i));
       slot in slots && OneGroup(own, slot % U64, slots[slot] % U64)
  }

  /** A load that is entered from its own ADRP is harmless exactly when its slot and the slot it is sent to are in one group
      of the image: the base then holds the page. */
  lemma {:induction false} InOrderIff<M>(ws: seq<word>, address: nat, slots: map<int, int>, own: seq<Fixup>, m: Machine<M>,
                             read: (M, nat) -> nat, other: (word, Machine<M>) -> Machine<M>, k: nat)
    requires EnteredFromAdrp(ws, address, m, read, other, k) && |Run(ws, address, m, read, other, k - 1).x| == 31
    requires var s := Run(ws, address, m, read, other, k);
             s.pc < |ws| && Rewrite(ws, address, slots)[s.pc] != ws[s.pc] && LdrTarget(ws[s.pc]) != 31
    ensures var s := Run(ws, address, m, read, other, k);
            Harmless(ws, address, slots, own, s) <==> SentWithin(ws, address, slots, own, s.pc)
  {
    hide Step, Rewrite, IsPair, OneGroup, LoadAddress, Encodable;
    var s := Run(ws, address, m, read, other, k);
    ChangedIsLoad(ws, address, slots, s.pc);
    MachOGotForm.RewritesIsPair(ws[s.pc - 1], ws[s.pc], PcOf(address, s.pc), slots);
    PageIsInTheBase(ws, address, Run(ws, address, m, read, other, k - 1), read, other);
    RewriteAt(ws, address, slots, s.pc);
    PageGivesSlots(ws[s.pc - 1], ws[s.pc], PcOf(address, s.pc), slots, s);
  }

  /** So with the slot map of the image's own listing, a load that is entered from its ADRP is always harmless. */
  lemma {:induction false} InOrderIsHarmless<M>(ws: seq<word>, address: nat, slots: map<int, int>, own: seq<Fixup>, m: Machine<M>,
                             read: (M, nat) -> nat, other: (word, Machine<M>) -> Machine<M>, k: nat)
    requires IsSlotMap(own, slots)
    requires EnteredFromAdrp(ws, address, m, read, other, k) && |Run(ws, address, m, read, other, k - 1).x| == 31
    ensures Harmless(ws, address, slots, own, Run(ws, address, m, read, other, k))
  {
    hide Rewrite, OneGroup, LoadAddress, LdrTarget, EnteredFromAdrp, Run, IsSlotMap;
    var s := Run(ws, address, m, read, other, k);
    if s.pc < |ws| && Rewrite(ws, address, slots)[s.pc] != ws[s.pc] && LdrTarget(ws[s.pc]) != 31 {
      InOrderIff(ws, address, slots, own, m, read, other, k);
      ChangedIsLoad(ws, address, slots, s.pc);
      OwnSlotsLink(own, slots, Slot(ws[s.pc - 1], ws[s.pc], PcOf(address, s.pc)));
    }
  }

  lemma {:induction false} OwnSlotsLink(own: seq<Fixup>, slots: map<int, int>, a: int)
    requires IsSlotMap(own, slots) && a in slots
    ensures OneGroup(own, a % U64, slots[a] % U64)
  {
    hide OneGroup, AddressesOf;
    var t :| Shares(own, t, a);
    assert IsLowest(slots[a], AddressesOf(own, t));
    assert Link(own, a % U64, slots[a] % U64);
    SameAddress(own, a % U64);
    OneFurther(own, a % U64, a % U64, slots[a] % U64);
  }

  lemma {:induction false} PageIsInTheBase<M>(ws: seq<word>, address: nat, p: Machine<M>, read: (M, nat) -> nat,
                           other: (word, Machine<M>) -> Machine<M>)
    requires p.pc + 1 < |ws| && |p.x| == 31 && IsPair(ws[p.pc], ws[p.pc + 1]) && LdrBase(ws[p.pc + 1]) != 31
    ensures var s := Step(ws, address, p, read, other);
            s.pc == p.pc + 1 && BaseValue(s, LdrBase(ws[s.pc])) == AdrpPage(ws[p.pc], PcOf(address, s.pc)) % U64
  {
  }

  /** With the page in the base, the two forms load from the slot and from the one it is sent to. */
  lemma {:induction false} PageGivesSlots<M>(previous: word, w: word, pc: nat, slots: map<int, int>, s: Machine<M>)
    requires Rewrites(previous, w, pc, slots) && BaseValue(s, LdrBase(w)) == AdrpPage(previous, pc) % U64
    ensures LoadAddress(s, w) == Slot(previous, w, pc) % U64
    ensures LoadAddress(s, Canonical(previous, w, pc, slots)) == slots[Slot(previous, w, pc)] % U64
  {
    hide AdrpPage, IsLdr, IsAdrp, LdrImmediate, LdrBase;
    var r := Canonical(previous, w, pc, slots);
    CanonicalKeeps(previous, w, pc, slots);
    AddMod(AdrpPage(previous, pc), 8 * LdrImmediate(w));
    AddMod(AdrpPage(previous, pc), 8 * LdrImmediate(r));
  }

  lemma {:induction false} AddMod(a: int, b: int)
    ensures (a % U64 + b) % U64 == (a + b) % U64
  {
    assert a == U64 * (a / U64) + a % U64;
    ModPlus(a % U64 + b, a / U64);
  }

  lemma {:induction false} ModPlus(a: int, q: int)
    ensures (a + U64 * q) % U64 == a % U64
  {
    assert a + U64 * q == U64 * (a / U64 + q) + a % U64;
  }

  /** The slot the pass computes for a pair is the one the load reads right after its ADRP ran, from
      every state before it, exactly when the shared register is not number 31. */
  lemma {:induction false} PairReadsItsSlot(previous: word, w: word, pc: nat)
    requires IsPair(previous, w)
    ensures LdrBase(w) != 31 <==>
            forall x: seq<nat>, sp: nat :: |x| == 31 && sp < U64 ==> ReadsSlot(previous, w, pc, x, sp)
  {
    hide IsLdr, IsAdrp, AdrpPage, LdrImmediate;
    var page := AdrpPage(previous, pc);
    AddMod(page, 8 * LdrImmediate(w));
    if LdrBase(w) == 31 {
      var sp := (page + 1) % U64;
      assert !ReadsSlot(previous, w, pc, seq(31, _ => 0), sp) by {
        AddMod(page + 1, 8 * LdrImmediate(w));
        NextMod(Slot(previous, w, pc));
      }
    }
  }

  lemma {:induction false} NextMod(a: int)
    ensures (a + 1) % U64 != a % U64
  {
    AddMod(a, 1);
  }

  /** After the ADRP at `pc` ran with registers `x` and `sp`, the load reads the slot of the pair. */
  predicate ReadsSlot(previous: word, w: word, pc: nat, x: seq<nat>, sp: nat) {
    LoadAddress(SetX(Machine(0, x, sp, ()), AdrpRegister(previous), AdrpPage(previous, pc) % U64), w)
      == Slot(previous, w, pc) % U64
  }

  // ---------------------------------------------------------------- where the pass misleads

  /** `ADRP x0, 0` and `LDR x0, [x0, #8]`. */
  const PAIR: seq<word> := [0x9000_0000, 0xF940_0400]

  const TWO_SLOTS: map<int, int> := map[0 := 0, 8 := 0]

  /** One symbol with two slots: `TWO_SLOTS` is its slot map. */
  const ONE_SYMBOL: seq<Fixup> := [Fixup("_a", 0), Fixup("_a", 8)]

  /** At the load, with `x` in every register. */
  function AtLoad(x: nat): Machine<()> { Machine(1, seq(31, _ => x), 0, ()) }

  /** Entered by a branch, a rewritten load may read something else: 0x1008 before the pass and 0x1000 after it,
      two addresses that the loader need not fill alike. The pass makes no test that would exclude this. */
  lemma {:induction false} BranchIntoPair(other: (word, Machine<()>) -> Machine<()>)
    ensures var r := Rewrite(PAIR, 0, TWO_SLOTS);
            && LdrBase(PAIR[1]) == 0 && LoadAddress(AtLoad(0x1000), PAIR[1]) == 0x1008 && LoadAddress(AtLoad(0x1000), r[1]) == 0x1000
    ensures !Harmless(PAIR, 0, TWO_SLOTS, ONE_SYMBOL, AtLoad(0x1000))
    ensures exists read: ((), nat) -> nat ::
              GroupsAgree(ONE_SYMBOL, (), read) && !SameStep(PAIR, 0, TWO_SLOTS, AtLoad(0x1000), read, other)
  {
    PairAddresses(0x1000);
    hide Rewrite, LoadAddress, OneGroup, PAIR, TWO_SLOTS;
    OneGroupIsOneSymbol(ONE_SYMBOL, 0x1008, 0x1000);
    assert forall t, a :: a in AddressesOf(ONE_SYMBOL, t) ==> a == 0 || a == 8;
    StepSameIff(PAIR, 0, TWO_SLOTS, ONE_SYMBOL, AtLoad(0x1000), other);
  }

  /** The four lines that two images of a universal file give: the first binds `_a` to 8 and `_c` to 0, the second `_b` to both. */
  const SHARED: seq<Fixup> := [Fixup("_a", 8), Fixup("_c", 0), Fixup("_b", 0), Fixup("_b", 8)]

  const FIRST_IMAGE: seq<Fixup> := [Fixup("_a", 8), Fixup("_c", 0)]

  /** Their common map is settled, and yet the first image's load, right after its ADRP, reads `_a` before the pass and
      `_c` after it. A load of `_c` gets the same bytes, and the loader need not fill the two slots alike. */
  lemma {:induction false} SharedMapMisleads(slots: map<int, int>, other: (word, Machine<()>) -> Machine<()>)
    requires IsOwnerMap(SHARED, Targets(SHARED), slots)
    ensures slots == TWO_SLOTS && Settled(slots)
    ensures var r := Rewrite(PAIR, 0, slots);
            && Slot(PAIR[0], PAIR[1], 0) in AddressesOf(FIRST_IMAGE, "_a") && Slot(PAIR[0], PAIR[1], 0) !in AddressesOf(FIRST_IMAGE, "_c")
            && Slot(r[0], r[1], 0) in AddressesOf(FIRST_IMAGE, "_c") && Slot(r[0], r[1], 0) !in AddressesOf(FIRST_IMAGE, "_a")
            && r != PAIR && Rewrite(r, 0, slots) == Rewrite(PAIR, 0, slots)
    ensures exists read: ((), nat) -> nat ::
              GroupsAgree(FIRST_IMAGE, (), read) && !SameStep(PAIR, 0, slots, AtLoad(0), read, other)
  {
    hide Rewrite, LoadAddress, OneGroup, PAIR, TWO_SLOTS, SHARED, FIRST_IMAGE, Targets, IsOwnerMap, Settled, Slot, AddressesOf,
         GroupsAgree, SameStep;
    SharedMap(slots);
    PairAddresses(0);
    FirstImageSymbols();
    MachOGotForm.RewriteIdempotent(PAIR, 0, slots);
    SharedStep(other);
  }

  lemma {:induction false} SharedStep(other: (word, Machine<()>) -> Machine<()>)
    ensures exists read: ((), nat) -> nat ::
              GroupsAgree(FIRST_IMAGE, (), read) && !SameStep(PAIR, 0, TWO_SLOTS, AtLoad(0), read, other)
  {
    hide Rewrite, LoadAddress, OneGroup, PAIR, TWO_SLOTS, FIRST_IMAGE, GroupsAgree, SameStep;
    PairAddresses(0);
    FirstImageSymbols();
    StepSameIff(PAIR, 0, TWO_SLOTS, FIRST_IMAGE, AtLoad(0), other);
    assert !Harmless(PAIR, 0, TWO_SLOTS, FIRST_IMAGE, AtLoad(0));
  }

  lemma {:induction false} FirstImageSymbols()
    ensures AddressesOf(FIRST_IMAGE, "_a") == {8} && AddressesOf(FIRST_IMAGE, "_c") == {0} && !OneGroup(FIRST_IMAGE, 8, 0)
  {
    var fs := FIRST_IMAGE;
    assert fs[0].address in AddressesOf(fs, "_a") && fs[1].address in AddressesOf(fs, "_c");
    hide OneGroup;
    OneGroupIsOneSymbol(fs, 8, 0);
  }

  lemma {:induction false} SharedMap(slots: map<int, int>)
    requires IsOwnerMap(SHARED, Targets(SHARED), slots)
    ensures slots == TWO_SLOTS && Settled(slots)
  {
    SharedGroups();
    hide Targets, AddressesOf, SHARED;
    var (fs, order) := (SHARED, ["_a", "_c", "_b"]);
    assert Owns(fs, order, 2, 0) && Owns(fs, order, 2, 8);
    LowestIsUnique(slots[0], 0, {0, 8});
    LowestIsUnique(slots[8], 0, {0, 8});
    forall a | a in slots ensures a in {0, 8} {
      var k :| Owns(fs, order, k, a);
    }
    assert slots.Keys == {0, 8};
  }

  lemma {:induction false} SharedGroups()
    ensures Targets(SHARED) == ["_a", "_c", "_b"]
    ensures AddressesOf(SHARED, "_a") == {8} && AddressesOf(SHARED, "_c") == {0} && AddressesOf(SHARED, "_b") == {0, 8}
  {
    hide Targets, AddressesOf, SHARED;
    SharedTargets();
    SharedAddresses();
  }

  lemma {:induction false} SharedTargets()
    ensures Targets(SHARED) == ["_a", "_c", "_b"]
  {
    var fs := SHARED;
    assert fs[..4] == fs && fs[..0] == [];
    TargetsAppend(fs, 0);
    TargetsAppend(fs, 1);
    TargetsAppend(fs, 2);
    TargetsAppend(fs, 3);
  }

  lemma {:induction false} SharedAddresses()
    ensures AddressesOf(SHARED, "_a") == {8} && AddressesOf(SHARED, "_c") == {0} && AddressesOf(SHARED, "_b") == {0, 8}
  {
    var fs := SHARED;
    assert fs[0].address in AddressesOf(fs, "_a") && fs[1].address in AddressesOf(fs, "_c");
    assert fs[2].address in AddressesOf(fs, "_b") && fs[3].address in AddressesOf(fs, "_b");
  }

  lemma {:induction false} PairAddresses(x: nat)
    requires x <= 0x1000
    ensures var r := Rewrite(PAIR, 0, TWO_SLOTS);
            && |PAIR| == 2 && r[1] != PAIR[1] && LdrTarget(PAIR[1]) == 0 && LdrBase(PAIR[1]) == 0
            && LoadAddress(AtLoad(x), PAIR[1]) == x + 8 && LoadAddress(AtLoad(x), r[1]) == x
            && Slot(PAIR[0], PAIR[1], 0) == 8 && Slot(r[0], r[1], 0) == 0
  {
    PairFields();
    hide PAIR, Rewrite, IsPair, LoadAddress, AdrpPage, LdrImmediate, LdrBase, LdrTarget;
    RewriteAt(PAIR, 0, TWO_SLOTS, 1);
    MachOGotForm.FirstStays(PAIR, 0, TWO_SLOTS);
    PairLoads(PAIR[0], PAIR[1], x);
  }

  lemma {:induction false} PairLoads(a: word, w: word, x: nat)
    requires IsPair(a, w) && LdrBase(w) == 0 && LdrImmediate(w) == 1 && AdrpPage(a, 0) == 0 && x <= 0x1000
    ensures var r := Canonical(a, w, 0, TWO_SLOTS);
            && r != w && LoadAddress(AtLoad(x), w) == x + 8 && LoadAddress(AtLoad(x), r) == x
            && Slot(a, w, 0) == 8 && Slot(a, r, 0) == 0
  {
    hide IsLdr, IsAdrp, AdrpPage, LdrImmediate, LdrBase, Canonical;
    assert Rewrites(a, w, 0, TWO_SLOTS);
    CanonicalKeeps(a, w, 0, TWO_SLOTS);
    assert LdrImmediate(Canonical(a, w, 0, TWO_SLOTS)) == 0;
  }

  lemma {:induction false} PairFields()
    ensures |PAIR| == 2
    ensures var (a, w) := (PAIR[0], PAIR[1]);
            && IsPair(a, w) && LdrTarget(w) == 0 && LdrBase(w) == 0 && LdrImmediate(w) == 1 && AdrpPage(a, 0) == 0
  {
    hide SignExtend;
    MachOGotForm.NoOffset(21);
  }
}
