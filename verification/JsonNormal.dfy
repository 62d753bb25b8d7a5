/** The normal form of asset-catalogue listings: volatile keys dropped and lists sorted, at every level. */
module JsonNormal {
  import opened Collections
  import opened Json
  import opened Sorting

  predicate DumpLeq(a: Json, b: Json) { StringLeq(Dump(a), Dump(b)) }

  predicate KeyLeq(a: Field, b: Field) { StringLeq(a.key, b.key) }

  function Normalize(v: Json, volatile: set<string>): Json
    decreases v, 0
  {
    match v
    case Arr(items) => Arr(Sort(NormalizeItems(items, volatile), DumpLeq))
    case Obj(fields) => Obj(Sort(NormalizeFields(fields, volatile), KeyLeq))
    case _ => v
  }

  function NormalizeItems(items: seq<Json>, volatile: set<string>): (r: seq<Json>)
    ensures |r| == |items|
    decreases items, 1
  {
    if items == [] then [] else [Normalize(items[0], volatile)] + NormalizeItems(items[1..], volatile)
  }

  function NormalizeFields(fields: seq<Field>, volatile: set<string>): seq<Field>
    decreases fields, 1
  {
    if fields == [] then []
    else
      var rest := NormalizeFields(fields[1..], volatile);
      if fields[0].key in volatile then rest
      else [Field(fields[0].key, Normalize(fields[0].value, volatile))] + rest
  }

  // ---------------------------------------------------------------- equality up to what is dropped

  /** Equal up to volatile keys and the order of lists and objects, at every level. */
  ghost predicate Equivalent(a: Json, b: Json, volatile: set<string>)
    decreases a, 0
  {
    match a
    case Arr(items) => b.Arr? && SameBag(items, b.items, volatile)
    case Obj(fields) => b.Obj? && SameEntries(fields, b.fields, volatile)
    case _ => a == b
  }

  /** The items can be paired off so that each pair is equivalent. */
  ghost predicate SameBag(a: seq<Json>, b: seq<Json>, volatile: set<string>)
    decreases a, 1
  {
    if a == [] then b == []
    else exists j :: 0 <= j < |b| && Equivalent(a[0], b[j], volatile) && SameBag(a[1..], Without(b, j), volatile)
  }

  function Without<T>(s: seq<T>, j: nat): seq<T>
    requires j < |s|
  {
    s[..j] + s[j + 1..]
  }

  /** The same keys are present, volatile ones aside, with equivalent values. */
  ghost predicate SameEntries(a: seq<Field>, b: seq<Field>, volatile: set<string>)
    decreases a, 1
  {
    && (forall i :: 0 <= i < |a| && a[i].key !in volatile ==>
          exists j :: 0 <= j < |b| && b[j].key == a[i].key && Equivalent(a[i].value, b[j].value, volatile))
    && KeysWithin(b, a, volatile)
  }

  /** Every key of `b` that stays is a key of `a`. */
  ghost predicate KeysWithin(b: seq<Field>, a: seq<Field>, volatile: set<string>) {
    forall j :: 0 <= j < |b| && b[j].key !in volatile ==> exists i :: 0 <= i < |a| && a[i].key == b[j].key
  }

  // ---------------------------------------------------------------- orders

  lemma {:induction false} DumpLeqIsTotalPreorder()
    ensures TotalPreorder(DumpLeq)
  {
    hide Dump, StringLeq;
    forall a, b ensures DumpLeq(a, b) || DumpLeq(b, a) { StringLeqTotal(Dump(a), Dump(b)); }
    forall a, b, c | DumpLeq(a, b) && DumpLeq(b, c) ensures DumpLeq(a, c) {
      StringLeqTransitive(Dump(a), Dump(b), Dump(c));
    }
  }

  lemma {:induction false} KeyLeqIsTotalPreorder()
    ensures TotalPreorder(KeyLeq)
  {
    hide StringLeq;
    forall a: Field, b: Field ensures KeyLeq(a, b) || KeyLeq(b, a) { StringLeqTotal(a.key, b.key); }
    forall a: Field, b: Field, c: Field | KeyLeq(a, b) && KeyLeq(b, c) ensures KeyLeq(a, c) {
      StringLeqTransitive(a.key, b.key, c.key);
    }
  }

  ghost predicate AllValid(items: seq<Json>) { forall i :: 0 <= i < |items| ==> Valid(items[i]) }

  /** Different valid values have different texts, so sorting by text leaves no choice. */
  lemma {:induction false} DumpLeqAntisymmetric(items: seq<Json>)
    requires AllValid(items)
    ensures AntisymmetricOn(items, DumpLeq)
  {
    hide Dump, StringLeq, Valid;
    forall x, y | x in items && y in items && DumpLeq(x, y) && DumpLeq(y, x) ensures x == y {
      StringLeqAntisymmetric(Dump(x), Dump(y));
      DumpUnique(x, y, "", "");
    }
  }

  lemma {:induction false} KeyLeqAntisymmetric(fields: seq<Field>)
    requires DistinctKeys(fields)
    ensures AntisymmetricOn(fields, KeyLeq)
  {
    hide StringLeq;
    forall x, y | x in fields && y in fields && KeyLeq(x, y) && KeyLeq(y, x) ensures x == y {
      StringLeqAntisymmetric(x.key, y.key);
      var i :| 0 <= i < |fields| && fields[i] == x;
      var j :| 0 <= j < |fields| && fields[j] == y;
    }
  }

  // ---------------------------------------------------------------- members of the normal form

  lemma {:induction false} ItemAt(items: seq<Json>, volatile: set<string>, i: nat)
    requires i < |items|
    ensures NormalizeItems(items, volatile)[i] == Normalize(items[i], volatile)
  {
    hide Normalize;
    if i > 0 { ItemAt(items[1..], volatile, i - 1); }
  }

  lemma {:induction false} NormalizeItemsConcat(a: seq<Json>, b: seq<Json>, volatile: set<string>)
    ensures NormalizeItems(a + b, volatile) == NormalizeItems(a, volatile) + NormalizeItems(b, volatile)
  {
    hide Normalize;
    if a == [] {
      assert a + b == b;
    } else {
      assert (a + b)[1..] == a[1..] + b;
      NormalizeItemsConcat(a[1..], b, volatile);
    }
  }

  lemma {:induction false} NormalizeItemsWithout(b: seq<Json>, volatile: set<string>, j: nat)
    requires j < |b|
    ensures multiset(NormalizeItems(b, volatile)) == multiset(NormalizeItems(Without(b, j), volatile)) + multiset{Normalize(b[j], volatile)}
  {
    hide Normalize;
    assert b == b[..j] + ([b[j]] + b[j + 1..]);
    NormalizeItemsConcat(b[..j], [b[j]] + b[j + 1..], volatile);
    NormalizeItemsConcat([b[j]], b[j + 1..], volatile);
    NormalizeItemsConcat(b[..j], b[j + 1..], volatile);
    assert NormalizeItems([b[j]], volatile) == [Normalize(b[j], volatile)];
  }

  /** `x` is the normal form of a field that stays. */
  ghost predicate FromField(fields: seq<Field>, volatile: set<string>, x: Field) {
    exists i :: 0 <= i < |fields| && fields[i].key !in volatile
                && x == Field(fields[i].key, Normalize(fields[i].value, volatile))
  }

  lemma {:induction false} FieldsMember(fields: seq<Field>, volatile: set<string>, x: Field)
    ensures x in NormalizeFields(fields, volatile) <==> FromField(fields, volatile, x)
  {
    hide Normalize;
    if fields != [] {
      FieldsMember(fields[1..], volatile, x);
      assert forall i :: 0 <= i < |fields[1..]| ==> fields[1..][i] == fields[i + 1];
      assert forall i :: 1 <= i < |fields| ==> fields[i] == fields[1..][i - 1];
    }
  }

  lemma {:induction false} NormalizedKeysDistinct(fields: seq<Field>, volatile: set<string>)
    requires DistinctKeys(fields)
    ensures DistinctKeys(NormalizeFields(fields, volatile))
  {
    hide Normalize;
    if fields != [] {
      var rest := NormalizeFields(fields[1..], volatile);
      NormalizedKeysDistinct(fields[1..], volatile);
      forall k | 0 <= k < |rest| ensures rest[k].key != fields[0].key {
        FieldsMember(fields[1..], volatile, rest[k]);
      }
    }
  }

  lemma {:induction false} DistinctByMultiset(a: seq<Field>, b: seq<Field>)
    requires DistinctKeys(a) && multiset(a) == multiset(b)
    ensures DistinctKeys(b)
  {
    forall i, j | 0 <= i < j < |b| ensures b[i].key != b[j].key {
      assert b[i] in multiset(b) && b[j] in multiset(b);
      assert b[i] in a && b[j] in a;
      if b[i].key == b[j].key {
        OnceEach(a, b[i]);
        CountsTwice(b, i, j);
      }
    }
  }

  // ---------------------------------------------------------------- the normal form decides equivalence

  lemma {:induction false} NormalizeValid(v: Json, volatile: set<string>)
    requires Valid(v)
    ensures Valid(Normalize(v, volatile))
    decreases v
  {
    match v
    case Arr(items) =>
      forall i | 0 <= i < |items| ensures Valid(Normalize(items[i], volatile)) { NormalizeValid(items[i], volatile); }
      NormalizeItemsValid(items, volatile);
    case Obj(fields) =>
      forall i | 0 <= i < |fields| ensures Valid(Normalize(fields[i].value, volatile)) {
        NormalizeValid(fields[i].value, volatile);
      }
      NormalizeFieldsValid(fields, volatile);
    case _ =>
  }

  lemma {:induction false} NormalizeItemsValid(items: seq<Json>, volatile: set<string>)
    requires forall i :: 0 <= i < |items| ==> Valid(Normalize(items[i], volatile))
    ensures AllValid(NormalizeItems(items, volatile)) && AllValid(Sort(NormalizeItems(items, volatile), DumpLeq))
  {
    hide Normalize, Valid, Sort, NormalizeItems;
    var a := NormalizeItems(items, volatile);
    forall i | 0 <= i < |a| ensures Valid(a[i]) { ItemAt(items, volatile, i); }
    DumpLeqIsTotalPreorder();
    SortSorts(a, DumpLeq);
    forall i | 0 <= i < |a| ensures Valid(Sort(a, DumpLeq)[i]) {
      assert Sort(a, DumpLeq)[i] in multiset(a);
    }
  }

  lemma {:induction false} NormalizeFieldsValid(fields: seq<Field>, volatile: set<string>)
    requires DistinctKeys(fields) && forall i :: 0 <= i < |fields| ==> Valid(Normalize(fields[i].value, volatile))
    ensures var r := Sort(NormalizeFields(fields, volatile), KeyLeq);
            DistinctKeys(r) && forall i :: 0 <= i < |r| ==> Valid(r[i].value)
  {
    hide Normalize, Valid, Sort, NormalizeFields, DistinctKeys;
    var a := NormalizeFields(fields, volatile);
    var r := Sort(a, KeyLeq);
    KeyLeqIsTotalPreorder();
    SortSorts(a, KeyLeq);
    NormalizedKeysDistinct(fields, volatile);
    DistinctByMultiset(a, r);
    forall i | 0 <= i < |r| ensures Valid(r[i].value) {
      assert r[i] in multiset(a);
      FieldsMember(fields, volatile, r[i]);
    }
  }

  /** Two values have the same normal form exactly when they are equivalent. */
  lemma {:induction false} NormalFormDecides(a: Json, b: Json, volatile: set<string>)
    requires Valid(a) && Valid(b)
    ensures Normalize(a, volatile) == Normalize(b, volatile) <==> Equivalent(a, b, volatile)
    decreases a, 0
  {
    match a
    case Arr(items) =>
      if b.Arr? {
        hide NormalizeItems;
        BagsDecide(items, b.items, volatile);
        NormalizeValid(a, volatile);
        DumpLeqIsTotalPreorder();
        ItemsOfNormal(items, volatile);
        DumpLeqAntisymmetric(NormalizeItems(items, volatile));
        SortIsCanonical(NormalizeItems(items, volatile), NormalizeItems(b.items, volatile), DumpLeq);
      }
    case Obj(fields) =>
      if b.Obj? {
        EntriesDecide(fields, b.fields, volatile);
        KeyLeqIsTotalPreorder();
        NormalizedKeysDistinct(fields, volatile);
        KeyLeqAntisymmetric(NormalizeFields(fields, volatile));
        SortIsCanonical(NormalizeFields(fields, volatile), NormalizeFields(b.fields, volatile), KeyLeq);
      }
    case _ =>
  }

  lemma {:induction false} ItemsOfNormal(items: seq<Json>, volatile: set<string>)
    requires AllValid(items)
    ensures AllValid(NormalizeItems(items, volatile))
  {
    hide Normalize, Valid, NormalizeItems;
    forall i | 0 <= i < |items| ensures Valid(NormalizeItems(items, volatile)[i]) {
      ItemAt(items, volatile, i);
      NormalizeValid(items[i], volatile);
    }
  }

  lemma {:induction false} BagsDecide(a: seq<Json>, b: seq<Json>, volatile: set<string>)
    requires AllValid(a) && AllValid(b)
    ensures multiset(NormalizeItems(a, volatile)) == multiset(NormalizeItems(b, volatile)) <==> SameBag(a, b, volatile)
    decreases a, 1
  {
    hide Normalize, Valid, Equivalent;
    var (na, nb) := (NormalizeItems(a, volatile), NormalizeItems(b, volatile));
    assert |multiset(na)| == |a| && |multiset(nb)| == |b|;
    if a != [] {
      forall j | 0 <= j < |b|
        ensures Equivalent(a[0], b[j], volatile) && SameBag(a[1..], Without(b, j), volatile) <==>
                Normalize(a[0], volatile) == Normalize(b[j], volatile) && multiset(na) == multiset(nb)
      {
        NormalFormDecides(a[0], b[j], volatile);
        WithoutValid(b, j);
        BagsDecide(a[1..], Without(b, j), volatile);
        Unpair(a, b, volatile, j);
      }
      if multiset(na) == multiset(nb) {
        var j := Partner(a, b, volatile);
        assert Equivalent(a[0], b[j], volatile);
      }
    }
  }

  /** Taking equal items off both sides keeps equal bags equal and unequal ones unequal. */
  lemma {:induction false} Unpair(a: seq<Json>, b: seq<Json>, volatile: set<string>, j: nat)
    requires a != [] && j < |b|
    ensures Normalize(a[0], volatile) == Normalize(b[j], volatile) ==>
              (multiset(NormalizeItems(a, volatile)) == multiset(NormalizeItems(b, volatile)) <==>
               multiset(NormalizeItems(a[1..], volatile)) == multiset(NormalizeItems(Without(b, j), volatile)))
  {
    hide Normalize;
    NormalizeItemsWithout(b, volatile, j);
    FirstAndRest(a, volatile);
    hide NormalizeItems;
    Cancel(multiset(NormalizeItems(a[1..], volatile)), multiset(NormalizeItems(Without(b, j), volatile)), Normalize(a[0], volatile));
  }

  lemma {:induction false} FirstAndRest(a: seq<Json>, volatile: set<string>)
    requires a != []
    ensures multiset(NormalizeItems(a, volatile)) == multiset(NormalizeItems(a[1..], volatile)) + multiset{Normalize(a[0], volatile)}
  {
    hide Normalize;
  }

  lemma {:induction false} Cancel<T>(m: multiset<T>, n: multiset<T>, x: T)
    ensures m + multiset{x} == n + multiset{x} <==> m == n
  {
    assert m == (m + multiset{x}) - multiset{x} && n == (n + multiset{x}) - multiset{x};
  }

  lemma {:induction false} Partner(a: seq<Json>, b: seq<Json>, volatile: set<string>) returns (j: nat)
    requires a != [] && multiset(NormalizeItems(a, volatile)) == multiset(NormalizeItems(b, volatile))
    ensures j < |b| && Normalize(a[0], volatile) == Normalize(b[j], volatile)
  {
    hide Normalize;
    var nb := NormalizeItems(b, volatile);
    assert NormalizeItems(a, volatile)[0] in multiset(nb);
    j :| 0 <= j < |nb| && nb[j] == Normalize(a[0], volatile);
    ItemAt(b, volatile, j);
  }

  lemma {:induction false} WithoutValid(b: seq<Json>, j: nat)
    requires j < |b| && AllValid(b)
    ensures AllValid(Without(b, j))
  {
    hide Valid;
  }

  lemma {:induction false} EntriesDecide(a: seq<Field>, b: seq<Field>, volatile: set<string>)
    requires DistinctKeys(a) && (forall i :: 0 <= i < |a| ==> Valid(a[i].value))
    requires DistinctKeys(b) && (forall i :: 0 <= i < |b| ==> Valid(b[i].value))
    ensures multiset(NormalizeFields(a, volatile)) == multiset(NormalizeFields(b, volatile)) <==> SameEntries(a, b, volatile)
    decreases a, 1
  {
    hide Normalize, Valid, Equivalent, NormalizeFields;
    var (na, nb) := (NormalizeFields(a, volatile), NormalizeFields(b, volatile));
    forall i, j | 0 <= i < |a| && 0 <= j < |b|
      ensures Normalize(a[i].value, volatile) == Normalize(b[j].value, volatile) <==> Equivalent(a[i].value, b[j].value, volatile)
    {
      NormalFormDecides(a[i].value, b[j].value, volatile);
    }
    if multiset(na) == multiset(nb) {
      forall x ensures x in na <==> x in nb { assert x in multiset(na) <==> x in multiset(nb); }
      EntriesFromMembers(a, b, volatile);
    }
    if SameEntries(a, b, volatile) {
      MembersFromEntries(a, b, volatile);
      NormalizedKeysDistinct(a, volatile);
      NormalizedKeysDistinct(b, volatile);
      SameMembersSameBag(na, nb);
    }
  }

  /** Equivalence of the values of two fields is equality of their normal forms. */
  ghost predicate Decided(a: seq<Field>, b: seq<Field>, volatile: set<string>) {
    forall i, j :: 0 <= i < |a| && 0 <= j < |b| ==>
      (Normalize(a[i].value, volatile) == Normalize(b[j].value, volatile) <==> Equivalent(a[i].value, b[j].value, volatile))
  }

  lemma {:induction false} EntriesFromMembers(a: seq<Field>, b: seq<Field>, volatile: set<string>)
    requires Decided(a, b, volatile)
    requires forall x :: x in NormalizeFields(a, volatile) <==> x in NormalizeFields(b, volatile)
    ensures SameEntries(a, b, volatile)
  {
    hide Normalize, Equivalent, NormalizeFields;
    forall i | 0 <= i < |a| && a[i].key !in volatile
      ensures exists j :: 0 <= j < |b| && b[j].key == a[i].key && Equivalent(a[i].value, b[j].value, volatile)
    {
      var x := Field(a[i].key, Normalize(a[i].value, volatile));
      FieldsMember(a, volatile, x);
      FieldsMember(b, volatile, x);
    }
    forall j | 0 <= j < |b| && b[j].key !in volatile ensures exists i :: 0 <= i < |a| && a[i].key == b[j].key {
      var x := Field(b[j].key, Normalize(b[j].value, volatile));
      FieldsMember(a, volatile, x);
      FieldsMember(b, volatile, x);
    }
  }

  lemma {:induction false} MembersFromEntries(a: seq<Field>, b: seq<Field>, volatile: set<string>)
    requires Decided(a, b, volatile) && SameEntries(a, b, volatile) && DistinctKeys(b)
    ensures forall x :: x in NormalizeFields(a, volatile) <==> x in NormalizeFields(b, volatile)
  {
    hide Normalize, Equivalent, NormalizeFields, FromField, SameEntries, Decided, DistinctKeys;
    forall x ensures x in NormalizeFields(a, volatile) <==> x in NormalizeFields(b, volatile) {
      FieldsMember(a, volatile, x);
      FieldsMember(b, volatile, x);
      if FromField(a, volatile, x) { MemberThere(a, b, volatile, x); }
      if FromField(b, volatile, x) { MemberBack(a, b, volatile, x); }
    }
  }

  lemma {:induction false} MemberThere(a: seq<Field>, b: seq<Field>, volatile: set<string>, x: Field)
    requires Decided(a, b, volatile) && SameEntries(a, b, volatile) && FromField(a, volatile, x)
    ensures FromField(b, volatile, x)
  {
    hide Normalize, Equivalent, KeysWithin;
    var i :| 0 <= i < |a| && a[i].key !in volatile && x == Field(a[i].key, Normalize(a[i].value, volatile));
    var j :| 0 <= j < |b| && b[j].key == a[i].key && Equivalent(a[i].value, b[j].value, volatile);
    assert b[j].key !in volatile && x == Field(b[j].key, Normalize(b[j].value, volatile));
  }

  lemma {:induction false} MemberBack(a: seq<Field>, b: seq<Field>, volatile: set<string>, x: Field)
    requires Decided(a, b, volatile) && SameEntries(a, b, volatile) && DistinctKeys(b) && FromField(b, volatile, x)
    ensures FromField(a, volatile, x)
  {
    hide Normalize, Equivalent, KeysWithin;
    var j :| 0 <= j < |b| && b[j].key !in volatile && x == Field(b[j].key, Normalize(b[j].value, volatile));
    var i := KeyOwner(b, a, volatile, j);
    var k :| 0 <= k < |b| && b[k].key == a[i].key && Equivalent(a[i].value, b[k].value, volatile);
    assert k == j;
  }

  lemma {:induction false} KeyOwner(b: seq<Field>, a: seq<Field>, volatile: set<string>, j: nat) returns (i: nat)
    requires KeysWithin(b, a, volatile) && j < |b| && b[j].key !in volatile
    ensures i < |a| && a[i].key == b[j].key
  {
    i :| 0 <= i < |a| && a[i].key == b[j].key;
  }

  /** The canonical text of a listing decides equivalence too. */
  lemma {:induction false} CanonicalTextDecides(a: Json, b: Json, volatile: set<string>)
    requires Valid(a) && Valid(b)
    ensures Dump(Normalize(a, volatile)) == Dump(Normalize(b, volatile)) <==> Equivalent(a, b, volatile)
  {
    hide Normalize, Valid, Equivalent, Dump;
    NormalizeValid(a, volatile);
    NormalizeValid(b, volatile);
    NormalFormDecides(a, b, volatile);
    if Dump(Normalize(a, volatile)) == Dump(Normalize(b, volatile)) {
      DumpUnique(Normalize(a, volatile), Normalize(b, volatile), "", "");
    }
  }

  // ---------------------------------------------------------------- normalizing twice

  lemma {:induction false} ItemsFixed(items: seq<Json>, volatile: set<string>)
    requires forall i :: 0 <= i < |items| ==> Normalize(items[i], volatile) == items[i]
    ensures NormalizeItems(items, volatile) == items
  {
    hide Normalize;
    if items != [] { ItemsFixed(items[1..], volatile); }
  }

  lemma {:induction false} FieldsFixed(fields: seq<Field>, volatile: set<string>)
    requires forall i :: 0 <= i < |fields| ==> fields[i].key !in volatile && Normalize(fields[i].value, volatile) == fields[i].value
    ensures NormalizeFields(fields, volatile) == fields
  {
    hide Normalize;
    if fields != [] {
      FieldsFixed(fields[1..], volatile);
      assert fields == [fields[0]] + fields[1..];
    }
  }

  lemma {:induction false} NormalizeIdempotent(v: Json, volatile: set<string>)
    requires Valid(v)
    ensures Normalize(Normalize(v, volatile), volatile) == Normalize(v, volatile)
  {
    match v
    case Arr(items) =>
      forall i | 0 <= i < |items|
        ensures Normalize(Normalize(items[i], volatile), volatile) == Normalize(items[i], volatile)
      {
        NormalizeIdempotent(items[i], volatile);
      }
      SortedItemsFixed(items, volatile);
    case Obj(fields) =>
      forall i | 0 <= i < |fields|
        ensures Normalize(Normalize(fields[i].value, volatile), volatile) == Normalize(fields[i].value, volatile)
      {
        NormalizeIdempotent(fields[i].value, volatile);
      }
      SortedFieldsFixed(fields, volatile);
    case _ =>
  }

  lemma {:induction false} SortedItemsFixed(items: seq<Json>, volatile: set<string>)
    requires AllValid(items)
    requires forall i :: 0 <= i < |items| ==>
               Normalize(Normalize(items[i], volatile), volatile) == Normalize(items[i], volatile)
    ensures var r := Sort(NormalizeItems(items, volatile), DumpLeq); Sort(NormalizeItems(r, volatile), DumpLeq) == r
  {
    hide Normalize, NormalizeItems, Sort, Valid, TotalPreorder, Sorted, AntisymmetricOn;
    var a := NormalizeItems(items, volatile);
    var r := Sort(a, DumpLeq);
    DumpLeqIsTotalPreorder();
    SortSorts(a, DumpLeq);
    forall i | 0 <= i < |r| ensures Normalize(r[i], volatile) == r[i] {
      assert r[i] in multiset(a);
      var k :| 0 <= k < |a| && a[k] == r[i];
      ItemAt(items, volatile, k);
    }
    ItemsFixed(r, volatile);
    forall i | 0 <= i < |items| ensures Valid(Normalize(items[i], volatile)) { NormalizeValid(items[i], volatile); }
    NormalizeItemsValid(items, volatile);
    DumpLeqAntisymmetric(r);
    SortOfSorted(r, DumpLeq);
  }

  lemma {:induction false} SortedFieldsFixed(fields: seq<Field>, volatile: set<string>)
    requires DistinctKeys(fields)
    requires forall i :: 0 <= i < |fields| ==>
               Normalize(Normalize(fields[i].value, volatile), volatile) == Normalize(fields[i].value, volatile)
    ensures var r := Sort(NormalizeFields(fields, volatile), KeyLeq); Sort(NormalizeFields(r, volatile), KeyLeq) == r
  {
    hide Normalize, NormalizeFields, Sort, TotalPreorder, Sorted, AntisymmetricOn, DistinctKeys;
    var a := NormalizeFields(fields, volatile);
    var r := Sort(a, KeyLeq);
    KeyLeqIsTotalPreorder();
    SortSorts(a, KeyLeq);
    forall i | 0 <= i < |r| ensures r[i].key !in volatile && Normalize(r[i].value, volatile) == r[i].value {
      assert r[i] in multiset(a);
      FieldsMember(fields, volatile, r[i]);
    }
    FieldsFixed(r, volatile);
    NormalizedKeysDistinct(fields, volatile);
    DistinctByMultiset(a, r);
    KeyLeqAntisymmetric(r);
    SortOfSorted(r, KeyLeq);
  }

  /** Every object in the value lists its keys in order, so `sort_keys` has nothing left to do. */
  ghost predicate KeysInOrder(v: Json) {
    match v
    case Arr(items) => forall i :: 0 <= i < |items| ==> KeysInOrder(items[i])
    case Obj(fields) => Sorted(fields, KeyLeq) && forall i :: 0 <= i < |fields| ==> KeysInOrder(fields[i].value)
    case _ => true
  }

  lemma {:induction false} NormalizeOrdersKeys(v: Json, volatile: set<string>)
    ensures KeysInOrder(Normalize(v, volatile))
    decreases v
  {
    match v
    case Arr(items) =>
      var a := NormalizeItems(items, volatile);
      DumpLeqIsTotalPreorder();
      SortSorts(a, DumpLeq);
      forall i | 0 <= i < |a| ensures KeysInOrder(Sort(a, DumpLeq)[i]) {
        assert Sort(a, DumpLeq)[i] in multiset(a);
        var k :| 0 <= k < |a| && a[k] == Sort(a, DumpLeq)[i];
        ItemAt(items, volatile, k);
        NormalizeOrdersKeys(items[k], volatile);
      }
    case Obj(fields) =>
      var a := NormalizeFields(fields, volatile);
      KeyLeqIsTotalPreorder();
      SortSorts(a, KeyLeq);
      forall i | 0 <= i < |a| ensures KeysInOrder(Sort(a, KeyLeq)[i].value) {
        assert Sort(a, KeyLeq)[i] in multiset(a);
        FieldsMember(fields, volatile, Sort(a, KeyLeq)[i]);
        var k :| 0 <= k < |fields| && fields[k].key !in volatile
                 && Sort(a, KeyLeq)[i] == Field(fields[k].key, Normalize(fields[k].value, volatile));
        NormalizeOrdersKeys(fields[k].value, volatile);
      }
    case _ =>
  }
}
