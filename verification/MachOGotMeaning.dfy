/** What re-pointing GOT loads does to a section: which slots its loads name, and what those are bound to. */
module MachOGotMeaning {
  import opened Bytes
  import opened Collections
  import opened MachOGot

  // ---------------------------------------------------------------- slots bound to one symbol

  /** A `bind` line of the fixup listing: the symbol and the GOT slot that receives it. */
  datatype Fixup = Fixup(target: string, address: int)

  ghost function AddressesOf(fixups: seq<Fixup>, target: string): set<int> {
    set i | 0 <= i < |fixups| && fixups[i].target == target :: fixups[i].address
  }

  /** No slot is bound to two symbols. */
  ghost predicate Disjoint(fixups: seq<Fixup>) {
    forall i, j :: 0 <= i < |fixups| && 0 <= j < |fixups| && fixups[i].address == fixups[j].address ==>
      fixups[i].target == fixups[j].target
  }

  /** The symbols in the order they first appear. */
  function Targets(fixups: seq<Fixup>): seq<string> {
    if fixups == [] then []
    else
      var (before, last) := (Targets(fixups[..|fixups| - 1]), fixups[|fixups| - 1].target);
      if last in before then before else before + [last]
  }

  /** The slot is one of several of the symbol. */
  ghost predicate Shares(fixups: seq<Fixup>, target: string, a: int) {
    a in AddressesOf(fixups, target) && |AddressesOf(fixups, target)| >= 2
  }

  /** Of the symbols that share `a`, the one at `k` comes last. */
  ghost predicate Owns(fixups: seq<Fixup>, order: seq<string>, k: int, a: int) {
    0 <= k < |order| && Shares(fixups, order[k], a) && forall j :: k < j < |order| ==> !Shares(fixups, order[j], a)
  }

  /** `slots` sends each shared slot to the lowest one of the last symbol that shares it, and nothing else. */
  ghost predicate IsOwnerMap(fixups: seq<Fixup>, order: seq<string>, slots: map<int, int>) {
    && (forall k, a :: Owns(fixups, order, k, a) ==> a in slots && IsLowest(slots[a], AddressesOf(fixups, order[k])))
    && (forall a :: a in slots ==> exists k :: Owns(fixups, order, k, a))
  }

  /** `slots` sends each slot of a symbol that has several to the lowest of them, and nothing else. */
  ghost predicate IsSlotMap(fixups: seq<Fixup>, slots: map<int, int>) {
    && (forall t, a :: Shares(fixups, t, a) ==> a in slots && IsLowest(slots[a], AddressesOf(fixups, t)))
    && (forall a :: a in slots ==> exists t :: Shares(fixups, t, a))
  }

  ghost predicate IsLowest(low: int, s: set<int>) {
    low in s && forall b :: b in s ==> low <= b
  }

  method Lowest(s: set<int>) returns (low: int)
    requires s != {}
    ensures IsLowest(low, s)
  {
    low := Pick(s);
    var rest := s - {low};
    while rest != {}
      invariant low in s && rest <= s
      invariant forall b :: b in s ==> low <= b || b in rest
    {
      var b := Pick(rest);
      if b < low { low := b; }
      rest := rest - {b};
    }
  }

  /** `groups` and `targets` hold what the lines say. */
  ghost predicate Grouped(fixups: seq<Fixup>, groups: map<string, set<int>>, targets: seq<string>) {
    && targets == Targets(fixups) && (forall t :: t in groups <==> t in targets)
    && (forall t :: t in targets <==> AddressesOf(fixups, t) != {})
    && (forall t :: t in groups ==> groups[t] == AddressesOf(fixups, t))
  }

  /** The bind addresses by target, and the targets in the order they first appear. */
  method GroupByTarget(fixups: seq<Fixup>) returns (groups: map<string, set<int>>, targets: seq<string>)
    ensures targets == Targets(fixups) && forall t :: t in targets <==> AddressesOf(fixups, t) != {}
    ensures forall t :: t in targets ==> t in groups && groups[t] == AddressesOf(fixups, t)
  {
    hide AddressesOf, Targets;
    groups, targets := map[], [];
    NothingGrouped(fixups);
    for i := 0 to |fixups|
      invariant Grouped(fixups[..i], groups, targets)
    {
      var f := fixups[i];
      ghost var (was, before) := (groups, targets);
      if f.target !in groups {
        targets := targets + [f.target];
        groups := groups[f.target := {}];
      }
      groups := groups[f.target := groups[f.target] + {f.address}];
      GroupedStep(fixups, was, before, i);
    }
    assert fixups[..|fixups|] == fixups;
  }

  lemma {:induction false} NothingGrouped(fixups: seq<Fixup>)
    ensures Grouped(fixups[..0], map[], [])
  {
  }

  lemma {:induction false} GroupedStep(fixups: seq<Fixup>, groups: map<string, set<int>>, targets: seq<string>, i: nat)
    requires i < |fixups| && Grouped(fixups[..i], groups, targets)
    ensures var f := fixups[i];
            Grouped(fixups[..i + 1],
                    groups[f.target := (if f.target in groups then groups[f.target] else {}) + {f.address}],
                    if f.target in groups then targets else targets + [f.target])
  {
    AddressesOfAppend(fixups, i);
    TargetsAppend(fixups, i);
    hide AddressesOf, Targets;
  }

  lemma {:induction false} TargetsAppend(fixups: seq<Fixup>, i: nat)
    requires i < |fixups|
    ensures var before := Targets(fixups[..i]);
            Targets(fixups[..i + 1]) == if fixups[i].target in before then before else before + [fixups[i].target]
  {
    assert fixups[..i + 1][..i] == fixups[..i];
  }

  /** Whatever the listing, even one address bound to two symbols: the last symbol that shares a slot decides. */
  method DuplicateGotSlots(fixups: seq<Fixup>) returns (slots: map<int, int>)
    ensures IsOwnerMap(fixups, Targets(fixups), slots)
  {
    hide AddressesOf, Targets;
    var groups, targets := GroupByTarget(fixups);
    slots := map[];
    for i := 0 to |targets|
      invariant IsOwnerMap(fixups, targets[..i], slots)
    {
      var group := groups[targets[i]];
      ghost var was := slots;
      if |group| >= 2 {
        var low := Lowest(group);
        slots := slots + map a | a in group :: low;
      }
      assert targets[..i + 1] == targets[..i] + [targets[i]];
      ExtendOwnerMap(fixups, targets[..i], targets[i], was, slots);
    }
    assert targets[..|targets|] == targets;
  }

  lemma {:induction false} ExtendOwnerMap(fixups: seq<Fixup>, done: seq<string>, t: string, was: map<int, int>, slots: map<int, int>)
    requires IsOwnerMap(fixups, done, was)
    requires var group := AddressesOf(fixups, t);
             if |group| < 2 then slots == was
             else exists low :: IsLowest(low, group) && slots == was + map a | a in group :: low
    ensures IsOwnerMap(fixups, done + [t], slots)
  {
    hide AddressesOf, IsLowest;
    var (order, last) := (done + [t], |done|);
    forall a ensures Owns(fixups, order, last, a) <==> Shares(fixups, t, a) {
    }
    forall k, a | 0 <= k < last ensures Owns(fixups, order, k, a) <==> Owns(fixups, done, k, a) && !Shares(fixups, t, a) {
      OwnsAppend(fixups, done, t, k, a);
    }
    forall a | a in slots ensures exists k :: Owns(fixups, order, k, a) {
      if !Shares(fixups, t, a) {
        var k :| Owns(fixups, done, k, a);
        assert Owns(fixups, order, k, a);
      } else {
        assert Owns(fixups, order, last, a);
      }
    }
  }

  lemma {:induction false} OwnsAppend(fixups: seq<Fixup>, done: seq<string>, t: string, k: nat, a: int)
    requires k < |done|
    ensures Owns(fixups, done + [t], k, a) <==> Owns(fixups, done, k, a) && !Shares(fixups, t, a)
  {
    hide Shares;
    var order := done + [t];
    assert order[|done|] == t && forall j :: 0 <= j < |done| ==> order[j] == done[j];
  }

  lemma {:induction false} TargetsHold(fixups: seq<Fixup>, t: string, a: int) returns (k: nat)
    requires a in AddressesOf(fixups, t)
    ensures k < |Targets(fixups)| && Targets(fixups)[k] == t
  {
    var before := fixups[..|fixups| - 1];
    var last := fixups[|fixups| - 1];
    if last.target == t {
      k :| 0 <= k < |Targets(fixups)| && Targets(fixups)[k] == t;
    } else {
      var i :| 0 <= i < |fixups| && fixups[i].target == t && fixups[i].address == a;
      assert before[i] == fixups[i];
      k := TargetsHold(before, t, a);
    }
  }

  /** Some symbol is the last to share a shared slot. */
  lemma {:induction false} SomeoneOwns(fixups: seq<Fixup>, order: seq<string>, k: nat, a: int) returns (l: nat)
    requires k < |order| && Shares(fixups, order[k], a)
    ensures Owns(fixups, order, l, a)
    decreases |order| - k
  {
    if j :| k < j < |order| && Shares(fixups, order[j], a) {
      l := SomeoneOwns(fixups, order, j, a);
    } else {
      l := k;
    }
  }

  /** When no slot is bound to two symbols, every symbol owns the slots it shares. */
  lemma {:induction false} OwnerMapIsSlotMap(fixups: seq<Fixup>, slots: map<int, int>)
    requires Disjoint(fixups) && IsOwnerMap(fixups, Targets(fixups), slots)
    ensures IsSlotMap(fixups, slots)
  {
    hide Targets, Disjoint, AddressesOf;
    var order := Targets(fixups);
    forall t, a | Shares(fixups, t, a) ensures a in slots && IsLowest(slots[a], AddressesOf(fixups, t)) {
      var k := TargetsHold(fixups, t, a);
      var l := SomeoneOwns(fixups, order, k, a);
      SameTarget(fixups, t, order[l], a);
    }
    forall a | a in slots ensures exists t :: Shares(fixups, t, a) {
      var k :| Owns(fixups, order, k, a);
      assert Shares(fixups, order[k], a);
    }
  }

  /** The lowest slot of an owner is the lowest slot of its own owner. */
  ghost predicate LowestOwnsItself(fixups: seq<Fixup>, order: seq<string>) {
    forall k, a, low, l ::
      Owns(fixups, order, k, a) && IsLowest(low, AddressesOf(fixups, order[k])) && Owns(fixups, order, l, low) ==>
        IsLowest(low, AddressesOf(fixups, order[l]))
  }

  /** Exactly when the map built from a listing is settled, read off the listing. */
  lemma {:induction false} SettledIff(fixups: seq<Fixup>, slots: map<int, int>)
    requires IsOwnerMap(fixups, Targets(fixups), slots)
    ensures Settled(slots) <==> LowestOwnsItself(fixups, Targets(fixups))
  {
    hide Targets, AddressesOf;
    var order := Targets(fixups);
    forall k, a, low | Owns(fixups, order, k, a) && IsLowest(low, AddressesOf(fixups, order[k]))
      ensures slots[a] == low && low in slots
    {
      LowestIsUnique(low, slots[a], AddressesOf(fixups, order[k]));
      var l := SomeoneOwns(fixups, order, k, low);
    }
    if Settled(slots) {
      forall k, a, low, l | Owns(fixups, order, k, a) && IsLowest(low, AddressesOf(fixups, order[k])) && Owns(fixups, order, l, low)
        ensures IsLowest(low, AddressesOf(fixups, order[l]))
      {
        assert slots[low] == low;
      }
    }
    if LowestOwnsItself(fixups, order) {
      forall a | a in slots ensures slots[a] in slots && slots[slots[a]] == slots[a] {
        var k :| Owns(fixups, order, k, a);
        var low := slots[a];
        var l :| Owns(fixups, order, l, low);
        LowestIsUnique(low, slots[low], AddressesOf(fixups, order[l]));
      }
    }
  }

  lemma {:induction false} LowestIsUnique(a: int, b: int, s: set<int>)
    requires IsLowest(a, s) && IsLowest(b, s)
    ensures a == b
  {
  }

  /** Two images of one universal file that bind one address to different symbols. */
  const TWO_IMAGES: seq<Fixup> := [Fixup("_a", 8), Fixup("_a", 16), Fixup("_b", 0), Fixup("_b", 8)]

  /** Their common map sends 16 to 8 and 8 to 0: it is not settled. */
  lemma {:induction false} TwoImagesUnsettled(slots: map<int, int>)
    requires IsOwnerMap(TWO_IMAGES, Targets(TWO_IMAGES), slots)
    ensures slots == map[0 := 0, 8 := 0, 16 := 8] && !Settled(slots)
  {
    TwoImagesGroups();
    hide Targets, AddressesOf, TWO_IMAGES;
    var fs := TWO_IMAGES;
    assert Owns(fs, ["_a", "_b"], 1, 0) && Owns(fs, ["_a", "_b"], 1, 8) && Owns(fs, ["_a", "_b"], 0, 16);
    LowestIsUnique(slots[0], 0, {0, 8});
    LowestIsUnique(slots[8], 0, {0, 8});
    LowestIsUnique(slots[16], 8, {8, 16});
    forall a | a in slots ensures a in {0, 8, 16} {
      var k :| Owns(fs, ["_a", "_b"], k, a);
    }
    assert slots.Keys == {0, 8, 16};
  }

  lemma {:induction false} TwoImagesGroups()
    ensures Targets(TWO_IMAGES) == ["_a", "_b"]
    ensures AddressesOf(TWO_IMAGES, "_a") == {8, 16} && AddressesOf(TWO_IMAGES, "_b") == {0, 8}
  {
    hide Targets, AddressesOf, TWO_IMAGES;
    TwoImagesTargets();
    TwoImagesAddresses();
  }

  lemma {:induction false} TwoImagesTargets()
    ensures Targets(TWO_IMAGES) == ["_a", "_b"]
  {
    var fs := TWO_IMAGES;
    assert fs[..4] == fs && fs[..0] == [];
    TargetsAppend(fs, 0);
    TargetsAppend(fs, 1);
    TargetsAppend(fs, 2);
    TargetsAppend(fs, 3);
  }

  lemma {:induction false} TwoImagesAddresses()
    ensures AddressesOf(TWO_IMAGES, "_a") == {8, 16} && AddressesOf(TWO_IMAGES, "_b") == {0, 8}
  {
    var fs := TWO_IMAGES;
    assert fs[0].address in AddressesOf(fs, "_a") && fs[1].address in AddressesOf(fs, "_a");
    assert fs[2].address in AddressesOf(fs, "_b") && fs[3].address in AddressesOf(fs, "_b");
  }

  lemma {:induction false} SameTarget(fixups: seq<Fixup>, t: string, u: string, a: int)
    requires Disjoint(fixups) && a in AddressesOf(fixups, t) && a in AddressesOf(fixups, u)
    ensures t == u
  {
  }

  lemma {:induction false} AddressesOfAppend(fixups: seq<Fixup>, i: nat)
    requires i < |fixups|
    ensures forall t :: AddressesOf(fixups[..i + 1], t) ==
              AddressesOf(fixups[..i], t) + if t == fixups[i].target then {fixups[i].address} else {}
  {
    var (s, s') := (fixups[..i], fixups[..i + 1]);
    assert forall k :: 0 <= k < i ==> s[k] == s'[k];
    forall t
      ensures AddressesOf(s', t) == AddressesOf(s, t) + if t == fixups[i].target then {fixups[i].address} else {}
    {
      forall a | a in AddressesOf(s, t) ensures a in AddressesOf(s', t) {
        var k :| 0 <= k < |s| && s[k].target == t && s[k].address == a;
        assert s'[k] == s[k];
      }
      if t == fixups[i].target { assert s'[i].target == t; }
    }
  }

  // ---------------------------------------------------------------- what the pass keeps

  /** Where the ADRP of word `i` is mapped. */
  function PcOf(address: nat, i: nat): nat
    requires i > 0
  {
    address + 4 * (i - 1)
  }

  lemma {:induction false} RewriteAt(ws: seq<word>, address: nat, slots: map<int, int>, i: nat)
    requires 0 < i < |ws|
    ensures Rewrite(ws, address, slots)[i] == Canonical(ws[i - 1], ws[i], PcOf(address, i), slots)
  {
    hide Canonical;
  }

  /** Every pair stays a pair, below the same ADRP. */
  lemma {:induction false} PairsStay(ws: seq<word>, address: nat, slots: map<int, int>, i: nat)
    requires 0 < i < |ws|
    ensures var r := Rewrite(ws, address, slots);
            && IsPair(r[i - 1], r[i]) == IsPair(ws[i - 1], ws[i])
            && (IsPair(ws[i - 1], ws[i]) ==> r[i - 1] == ws[i - 1])
  {
    hide Canonical, IsLdr, IsAdrp, LdrBase, AdrpRegister, Rewrites;
    RewriteAt(ws, address, slots, i);
    CanonicalKeeps(ws[i - 1], ws[i], PcOf(address, i), slots);
    if i > 1 {
      RewriteAt(ws, address, slots, i - 1);
      CanonicalKeeps(ws[i - 2], ws[i - 1], PcOf(address, i - 1), slots);
    }
  }

  /** Only bits 10-21 of loads paired with an ADRP change. */
  lemma {:induction false} RewriteTouchesOnlyImmediates(ws: seq<word>, address: nat, slots: map<int, int>, i: nat)
    requires 0 < i < |ws|
    ensures var r := Rewrite(ws, address, slots);
            && (r[i] != ws[i] ==> IsPair(ws[i - 1], ws[i]))
            && r[i] % 0x400 == ws[i] % 0x400 && r[i] / 0x40_0000 == ws[i] / 0x40_0000
            && IsAdrp(r[i]) == IsAdrp(ws[i]) && IsLdr(r[i]) == IsLdr(ws[i])
  {
    hide IsLdr, IsAdrp, LdrBase, AdrpRegister, AdrpPage, LdrImmediate;
    RewriteAt(ws, address, slots, i);
    CanonicalKeeps(ws[i - 1], ws[i], PcOf(address, i), slots);
  }

  /** The listing binds the two slots to the same symbols. */
  ghost predicate BoundAlike(own: seq<Fixup>, a: int, b: int) {
    forall t :: a in AddressesOf(own, t) <==> b in AddressesOf(own, t)
  }

  /** The load at `i` reads a slot that the listing binds to the same symbols before and after the pass. */
  ghost predicate KeepsSymbols(own: seq<Fixup>, ws: seq<word>, address: nat, slots: map<int, int>, i: nat)
    requires 0 < i < |ws|
  {
    var r := Rewrite(ws, address, slots);
    BoundAlike(own, Slot(ws[i - 1], ws[i], PcOf(address, i)), Slot(r[i - 1], r[i], PcOf(address, i)))
  }

  lemma {:induction false} SymbolsAt(own: seq<Fixup>, ws: seq<word>, address: nat, slots: map<int, int>, i: nat)
    requires 0 < i < |ws| && IsPair(ws[i - 1], ws[i])
    ensures var slot := Slot(ws[i - 1], ws[i], PcOf(address, i));
            KeepsSymbols(own, ws, address, slots, i) <==>
            (Rewrites(ws[i - 1], ws[i], PcOf(address, i), slots) ==> BoundAlike(own, slot, slots[slot]))
  {
    hide IsPair, Encodable, AdrpPage, LdrImmediate, AddressesOf, Rewrite;
    PairsStay(ws, address, slots, i);
    RewriteAt(ws, address, slots, i);
    CanonicalKeeps(ws[i - 1], ws[i], PcOf(address, i), slots);
  }

  /** For the listing of one image and the slot map of any listing: every paired load of a section keeps its symbols exactly
      when the listing binds each rewritten load's slot and the slot it is sent to alike. */
  lemma {:induction false} SymbolsKeptIff(own: seq<Fixup>, ws: seq<word>, address: nat, slots: map<int, int>)
    ensures (forall i :: 0 < i < |ws| && IsPair(ws[i - 1], ws[i]) ==> KeepsSymbols(own, ws, address, slots, i)) <==>
            (forall i :: 0 < i < |ws| && Rewrites(ws[i - 1], ws[i], PcOf(address, i), slots) ==>
               BoundAlike(own, Slot(ws[i - 1], ws[i], PcOf(address, i)), slots[Slot(ws[i - 1], ws[i], PcOf(address, i))]))
  {
    hide KeepsSymbols, BoundAlike, Slot, Encodable, AdrpPage;
    forall i | 0 < i < |ws| && IsPair(ws[i - 1], ws[i])
      ensures var slot := Slot(ws[i - 1], ws[i], PcOf(address, i));
              KeepsSymbols(own, ws, address, slots, i) <==>
              (Rewrites(ws[i - 1], ws[i], PcOf(address, i), slots) ==> BoundAlike(own, slot, slots[slot]))
    {
      SymbolsAt(own, ws, address, slots, i);
    }
  }

  /** Read off the listings of the image and of the whole file: symbols are kept in every section of the image whenever
      each slot and the lowest one of the symbol that owns it in the file are bound alike in the image. */
  lemma {:induction false} ListingsKeepSymbols(own: seq<Fixup>, fixups: seq<Fixup>, slots: map<int, int>, ws: seq<word>, address: nat, i: nat)
    requires IsOwnerMap(fixups, Targets(fixups), slots)
    requires forall k, a, low :: Owns(fixups, Targets(fixups), k, a) && IsLowest(low, AddressesOf(fixups, Targets(fixups)[k])) ==>
               BoundAlike(own, a, low)
    requires 0 < i < |ws| && IsPair(ws[i - 1], ws[i])
    ensures KeepsSymbols(own, ws, address, slots, i)
  {
    hide Targets, AddressesOf, BoundAlike, KeepsSymbols, Encodable, AdrpPage, Slot;
    var slot := Slot(ws[i - 1], ws[i], PcOf(address, i));
    if slot in slots {
      var k :| Owns(fixups, Targets(fixups), k, slot);
      assert BoundAlike(own, slot, slots[slot]);
    }
    SymbolsAt(own, ws, address, slots, i);
  }

  /** In a file with one image, whose listing binds no address twice, every paired load keeps its symbol. */
  lemma {:induction false} LoadsKeepTheirSymbol(fixups: seq<Fixup>, ws: seq<word>, address: nat, slots: map<int, int>, i: nat, symbol: string)
    requires Disjoint(fixups) && IsSlotMap(fixups, slots)
    requires 0 < i < |ws| && IsPair(ws[i - 1], ws[i])
    ensures var r := Rewrite(ws, address, slots);
            && IsPair(r[i - 1], r[i])
            && (Slot(ws[i - 1], ws[i], PcOf(address, i)) in AddressesOf(fixups, symbol) <==>
                Slot(r[i - 1], r[i], PcOf(address, i)) in AddressesOf(fixups, symbol))
  {
    hide IsPair, Encodable, AdrpPage, LdrImmediate, IsSlotMap, Disjoint, AddressesOf, Rewrite;
    PairsStay(ws, address, slots, i);
    SymbolsAt(fixups, ws, address, slots, i);
    var slot := Slot(ws[i - 1], ws[i], PcOf(address, i));
    if slot in slots {
      forall t ensures slot in AddressesOf(fixups, t) <==> slots[slot] in AddressesOf(fixups, t) {
        LowestIsBoundAlike(fixups, slots, slot, t);
      }
    }
    assert KeepsSymbols(fixups, ws, address, slots, i);
  }

  lemma {:induction false} LowestIsBoundAlike(fixups: seq<Fixup>, slots: map<int, int>, a: int, symbol: string)
    requires Disjoint(fixups) && IsSlotMap(fixups, slots) && a in slots
    ensures slots[a] in slots && slots[slots[a]] == slots[a]
    ensures a in AddressesOf(fixups, symbol) <==> slots[a] in AddressesOf(fixups, symbol)
  {
    var t :| Shares(fixups, t, a);
    assert IsLowest(slots[a], AddressesOf(fixups, t));
    assert IsLowest(slots[slots[a]], AddressesOf(fixups, t));
    if a in AddressesOf(fixups, symbol) { SameTarget(fixups, t, symbol, a); }
    if slots[a] in AddressesOf(fixups, symbol) { SameTarget(fixups, t, symbol, slots[a]); }
  }

  /** The lowest slot of a group stands for itself. */
  ghost predicate Settled(slots: map<int, int>) {
    forall a :: a in slots ==> slots[a] in slots && slots[slots[a]] == slots[a]
  }

  lemma {:induction false} SlotMapIsSettled(fixups: seq<Fixup>, slots: map<int, int>)
    requires Disjoint(fixups) && IsSlotMap(fixups, slots)
    ensures Settled(slots)
  {
    hide Disjoint, IsSlotMap;
    forall a | a in slots ensures slots[a] in slots && slots[slots[a]] == slots[a] {
      LowestIsBoundAlike(fixups, slots, a, "");
    }
  }

  /** `v` is `w` with another slot of the same group, below the same ADRP. */
  predicate SameUpToSlot(previous: word, w: word, v: word, pc: nat, slots: map<int, int>) {
    && IsPair(previous, w) && IsPair(previous, v)
    && w % 0x400 == v % 0x400 && w / 0x40_0000 == v / 0x40_0000
    && Slot(previous, w, pc) in slots && Slot(previous, v, pc) in slots
    && slots[Slot(previous, w, pc)] == slots[Slot(previous, v, pc)]
  }

  /** The immediate of the load can name the lowest slot of its group. */
  predicate LowestInReach(previous: word, w: word, pc: nat, slots: map<int, int>) {
    Slot(previous, w, pc) in slots && Encodable(AdrpPage(previous, pc), slots[Slot(previous, w, pc)])
  }

  /** Sections that differ only in the duplicate slots they read become equal exactly when,
      wherever they differ, the lowest slot can be encoded from the page. */
  lemma {:induction false} RewriteIsCanonical(ws: seq<word>, vs: seq<word>, address: nat, slots: map<int, int>)
    requires |ws| == |vs|
    requires forall i :: 0 <= i < |ws| && ws[i] != vs[i] ==>
               i > 0 && SameUpToSlot(ws[i - 1], ws[i], vs[i], PcOf(address, i), slots)
    ensures Rewrite(ws, address, slots) == Rewrite(vs, address, slots) <==>
            forall i :: 0 < i < |ws| && ws[i] != vs[i] ==>
              LowestInReach(ws[i - 1], ws[i], PcOf(address, i), slots)
  {
    hide SameUpToSlot, LowestInReach, Rewrite;
    var (rw, rv) := (Rewrite(ws, address, slots), Rewrite(vs, address, slots));
    if rw == rv {
      forall i | 0 < i < |ws| && ws[i] != vs[i] ensures LowestInReach(ws[i - 1], ws[i], PcOf(address, i), slots) {
        CanonicalAt(ws, vs, address, slots, i);
      }
    } else {
      var i :| 0 <= i < |ws| && rw[i] != rv[i];
      CanonicalAt(ws, vs, address, slots, i);
    }
  }

  lemma {:induction false} CanonicalAt(ws: seq<word>, vs: seq<word>, address: nat, slots: map<int, int>, i: nat)
    requires |ws| == |vs| && i < |ws|
    requires forall i :: 0 <= i < |ws| && ws[i] != vs[i] ==>
               i > 0 && SameUpToSlot(ws[i - 1], ws[i], vs[i], PcOf(address, i), slots)
    ensures Rewrite(ws, address, slots)[i] == Rewrite(vs, address, slots)[i] <==>
            (i > 0 && ws[i] != vs[i] ==> LowestInReach(ws[i - 1], ws[i], PcOf(address, i), slots))
  {
    hide SameUpToSlot, LowestInReach, Canonical;
    if i > 0 {
      SamePredecessor(ws, vs, address, slots, i);
      if ws[i] != vs[i] {
        RewriteAt(ws, address, slots, i);
        RewriteAt(vs, address, slots, i);
        SameSlotSameCanonical(ws[i - 1], ws[i], vs[i], PcOf(address, i), slots);
      }
    }
  }

  lemma {:induction false} SamePredecessor(ws: seq<word>, vs: seq<word>, address: nat, slots: map<int, int>, i: nat)
    requires |ws| == |vs| && 0 < i < |ws|
    requires forall i :: 0 <= i < |ws| && ws[i] != vs[i] ==>
               i > 0 && SameUpToSlot(ws[i - 1], ws[i], vs[i], PcOf(address, i), slots)
    ensures ws[i] == vs[i] ==> Rewrite(ws, address, slots)[i] == Rewrite(vs, address, slots)[i]
    ensures ws[i] != vs[i] ==> ws[i - 1] == vs[i - 1]
  {
    hide IsLdr, IsAdrp, Slot, AdrpRegister, LdrBase, Canonical;
    RewriteAt(ws, address, slots, i);
    RewriteAt(vs, address, slots, i);
    if ws[i - 1] != vs[i - 1] {
      assert SameUpToSlot(ws[i - 2], ws[i - 1], vs[i - 1], PcOf(address, i - 1), slots);
      LdrIsNotAdrp(ws[i - 1]);
      LdrIsNotAdrp(vs[i - 1]);
      NotAPair(ws[i - 1], ws[i], PcOf(address, i), slots);
      NotAPair(vs[i - 1], vs[i], PcOf(address, i), slots);
    }
  }

  lemma {:induction false} NotAPair(previous: word, w: word, pc: nat, slots: map<int, int>)
    requires !IsAdrp(previous)
    ensures !IsPair(previous, w) && Canonical(previous, w, pc, slots) == w
  {
  }

  lemma {:induction false} SameSlotSameCanonical(previous: word, w: word, v: word, pc: nat, slots: map<int, int>)
    requires SameUpToSlot(previous, w, v, pc, slots) && w != v
    ensures Canonical(previous, w, pc, slots) == Canonical(previous, v, pc, slots) <==>
            LowestInReach(previous, w, pc, slots)
  {
  }
}
