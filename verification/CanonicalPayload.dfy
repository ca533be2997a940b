/**
 * Canonical payload equality: sort the keys at every level, print, compare texts.
 * The reference is equality up to the order of object keys.
 */
module CanonicalPayload {
  import opened Prelude
  import opened Text
  import opened JsValues
  import opened JsonText
  import opened Sorting

  // ----- the code

  predicate KeyLess(f: Field, g: Field) {
    Less(f.key, g.key)
  }

  /** `Object.keys(value).sort()`, each key with its value. */
  function SortByKey(fs: seq<Field>): seq<Field> {
    Sort(KeyLess, fs)
  }

  function SortKeys(v: Value): Value
    decreases v, 1
  {
    match v
    case Arr(items) => Arr(SortItems(items))
    case Obj(fields) => Obj(PutAll([], SortByKey(SortValues(fields))))
    case _ => v
  }

  function SortItems(xs: seq<Value>): (r: seq<Value>)
    ensures |r| == |xs|
    decreases xs, 0
  {
    if xs == [] then [] else [SortKeys(xs[0])] + SortItems(xs[1..])
  }

  function SortValues(fs: seq<Field>): (r: seq<Field>)
    ensures |r| == |fs|
    decreases fs, 0
  {
    if fs == [] then [] else [Field(fs[0].key, SortKeys(fs[0].value))] + SortValues(fs[1..])
  }

  predicate PayloadsEqual(a: Value, b: Value) {
    Print(SortKeys(a)) == Print(SortKeys(b))
  }

  // ----- the reference

  /** Equal up to the order of object keys, at every nesting level. */
  ghost predicate SameJson(a: Value, b: Value)
    decreases a
  {
    if a.Arr? && b.Arr? then
      |a.items| == |b.items| && forall i :: 0 <= i < |a.items| ==> SameJson(a.items[i], b.items[i])
    else if a.Obj? && b.Obj? then
      && |a.fields| == |b.fields|
      && forall i :: 0 <= i < |a.fields| ==>
           exists j :: 0 <= j < |b.fields| && a.fields[i].key == b.fields[j].key &&
             SameJson(a.fields[i].value, b.fields[j].value)
    else a == b
  }

  ghost predicate ProtoFree(v: Value) {
    match v
    case Arr(items) => forall i :: 0 <= i < |items| ==> ProtoFree(items[i])
    case Obj(fields) =>
      forall i :: 0 <= i < |fields| ==> fields[i].key != PROTO && ProtoFree(fields[i].value)
    case _ => true
  }

  /** The value without its own `__proto__` members, at every level. */
  ghost function StripProto(v: Value): Value
    decreases v, 1
  {
    match v
    case Arr(items) => Arr(StripItems(items))
    case Obj(fields) => Obj(StripFields(fields))
    case _ => v
  }

  ghost function StripItems(xs: seq<Value>): (r: seq<Value>)
    ensures |r| == |xs|
    decreases xs, 0
  {
    if xs == [] then [] else [StripProto(xs[0])] + StripItems(xs[1..])
  }

  ghost function StripFields(fs: seq<Field>): seq<Field>
    decreases fs, 0
  {
    if fs == [] then []
    else if fs[0].key == PROTO then StripFields(fs[1..])
    else [Field(fs[0].key, StripProto(fs[0].value))] + StripFields(fs[1..])
  }

  // ----- sorting a record

  ghost predicate KeySorted(fs: seq<Field>) {
    forall i, j :: 0 <= i < j < |fs| ==> Less(fs[i].key, fs[j].key)
  }

  lemma SortByKeySorts(fs: seq<Field>)
    requires DistinctKeys(fs)
    ensures KeySorted(SortByKey(fs)) && |SortByKey(fs)| == |fs|
    ensures forall x :: x in SortByKey(fs) <==> x in fs
  {
    forall f, g, h | KeyLess(f, g) && KeyLess(g, h)
      ensures KeyLess(f, h)
    {
      LessTransitive(f.key, g.key, h.key);
    }
    forall i, j | 0 <= i < j < |fs|
      ensures KeyLess(fs[i], fs[j]) || KeyLess(fs[j], fs[i])
    {
      LessTotal(fs[i].key, fs[j].key);
    }
    SortSorts(KeyLess, fs);
  }

  /** The order in which a record filled in key order enumerates: indexes first, then the rest. */
  ghost predicate CanonLess(a: Text, b: Text) {
    if IsIndex(a) && IsIndex(b) then IndexLess(a, b)
    else if IsIndex(a) != IsIndex(b) then IsIndex(a)
    else Less(a, b)
  }

  ghost predicate CanonSorted(fs: seq<Field>) {
    forall i, j :: 0 <= i < j < |fs| ==> CanonLess(fs[i].key, fs[j].key)
  }

  lemma CanonLessStrict(a: Text, b: Text)
    requires CanonLess(a, b)
    ensures !CanonLess(b, a) && a != b
  {
    LessIrreflexive(a);
    if Less(a, b) {
      LessAsymmetric(a, b);
    }
  }

  lemma IndexLessTransitive(a: Text, b: Text, c: Text)
    requires IndexLess(a, b) && IndexLess(b, c)
    ensures IndexLess(a, c)
  {
    if |a| == |b| == |c| {
      LessTransitive(a, b, c);
    }
  }

  lemma {:induction false} InsertIndexCanon(fs: seq<Field>, f: Field)
    requires CanonSorted(fs) && IsIndex(f.key) && forall x :: x in fs ==> x.key != f.key
    ensures CanonSorted(InsertIndex(fs, f)) && |InsertIndex(fs, f)| == |fs| + 1
    ensures forall x :: x in InsertIndex(fs, f) <==> x == f || x in fs
    decreases |fs|
  {
    if fs == [] {
    } else if !IsIndex(fs[0].key) || IndexLess(f.key, fs[0].key) {
      forall j | 0 <= j < |fs|
        ensures CanonLess(f.key, fs[j].key)
      {
        if 0 < j && IsIndex(fs[0].key) && IsIndex(fs[j].key) {
          IndexLessTransitive(f.key, fs[0].key, fs[j].key);
        }
      }
    } else {
      LessTotal(f.key, fs[0].key);
      InsertIndexCanon(fs[1..], f);
      var rest := InsertIndex(fs[1..], f);
      forall j | 0 <= j < |rest|
        ensures CanonLess(fs[0].key, rest[j].key)
      {
        assert rest[j] in rest;
      }
    }
  }

  lemma PutCanon(out: seq<Field>, f: Field)
    requires CanonSorted(out) && forall x :: x in out ==> Less(x.key, f.key)
    ensures CanonSorted(Put(out, f))
    ensures forall x :: x in Put(out, f) <==> x in out || (x == f && f.key != PROTO)
  {
    LessIrreflexive(f.key);
    if f.key != PROTO && IsIndex(f.key) {
      InsertIndexCanon(out, f);
    }
  }

  lemma {:induction false} PutAllCanon(out: seq<Field>, fs: seq<Field>)
    requires CanonSorted(out) && KeySorted(fs) && forall x, y :: x in out && y in fs ==> Less(x.key, y.key)
    ensures CanonSorted(PutAll(out, fs))
    ensures forall x :: x in PutAll(out, fs) <==> x in out || (x in fs && x.key != PROTO)
    decreases |fs|
  {
    if fs != [] {
      PutCanon(out, fs[0]);
      forall x, y | x in Put(out, fs[0]) && y in fs[1..]
        ensures Less(x.key, y.key)
      {
        if x !in out {
          var j :| 0 < j < |fs| && fs[j] == y;
        }
      }
      PutAllCanon(Put(out, fs[0]), fs[1..]);
    }
  }

  lemma {:induction false} SortValuesAt(fs: seq<Field>, i: nat)
    requires i < |fs|
    ensures SortValues(fs)[i] == Field(fs[i].key, SortKeys(fs[i].value))
    decreases |fs|
  {
    if i > 0 {
      SortValuesAt(fs[1..], i - 1);
    }
  }

  lemma {:induction false} SortItemsAt(xs: seq<Value>, i: nat)
    requires i < |xs|
    ensures SortItems(xs)[i] == SortKeys(xs[i])
    decreases |xs|
  {
    if i > 0 {
      SortItemsAt(xs[1..], i - 1);
    }
  }

  /** Membership in the sorted record, said without the sorting. */
  ghost predicate SortedMember(fs: seq<Field>, x: Field) {
    x.key != PROTO && exists i :: 0 <= i < |fs| && x == Field(fs[i].key, SortKeys(fs[i].value))
  }

  /** The fields sortKeys leaves in an object: canonical order, exactly the sorted members. */
  lemma SortedFields(fs: seq<Field>)
    requires DistinctKeys(fs)
    ensures var out := PutAll([], SortByKey(SortValues(fs)));
      CanonSorted(out) && forall x :: x in out <==> SortedMember(fs, x)
  {
    var vs := SortValues(fs);
    forall i | 0 <= i < |fs|
      ensures vs[i] == Field(fs[i].key, SortKeys(fs[i].value))
    {
      SortValuesAt(fs, i);
    }
    SortByKeySorts(vs);
    PutAllCanon([], SortByKey(vs));
  }

  ghost predicate CanonFieldLess(f: Field, g: Field) {
    CanonLess(f.key, g.key)
  }

  /** A canonical order lists a set of fields in only one way. */
  lemma CanonSortedUnique(a: seq<Field>, b: seq<Field>)
    requires CanonSorted(a) && CanonSorted(b) && forall x :: x in a <==> x in b
    ensures a == b
  {
    forall f, g | CanonFieldLess(f, g)
      ensures !CanonFieldLess(g, f)
    {
      CanonLessStrict(f.key, g.key);
    }
    SortedUnique(CanonFieldLess, a, b);
  }

  // ----- sortKeys is a canonical form

  /** On values without `__proto__` members, equal sorted forms mean equal up to key order, and conversely. */
  lemma {:induction false} SortKeysCanonical(a: Value, b: Value)
    requires IsJson(a) && IsJson(b) && ProtoFree(a) && ProtoFree(b)
    ensures SortKeys(a) == SortKeys(b) <==> SameJson(a, b)
    decreases a
  {
    if a.Arr? && b.Arr? {
      forall i | 0 <= i < |a.items| && i < |b.items|
        ensures SortItems(a.items)[i] == SortItems(b.items)[i] <==> SameJson(a.items[i], b.items[i])
      {
        SortItemsAt(a.items, i);
        SortItemsAt(b.items, i);
        SortKeysCanonical(a.items[i], b.items[i]);
      }
    } else if a.Obj? && b.Obj? {
      forall i, j | 0 <= i < |a.fields| && 0 <= j < |b.fields|
        ensures SortKeys(a.fields[i].value) == SortKeys(b.fields[j].value)
           <==> SameJson(a.fields[i].value, b.fields[j].value)
      {
        SortKeysCanonical(a.fields[i].value, b.fields[j].value);
      }
      SortedObjectsAgree(a.fields, b.fields);
    }
  }

  /** The fields of one object each have a partner with the same key and the same sorted value. */
  ghost predicate Matched(fs: seq<Field>, gs: seq<Field>) {
    forall i :: 0 <= i < |fs| ==> HasPartner(fs[i], gs)
  }

  ghost predicate HasPartner(f: Field, gs: seq<Field>) {
    exists j :: 0 <= j < |gs| && f.key == gs[j].key && SortKeys(f.value) == SortKeys(gs[j].value)
  }

  lemma SortedObjectsAgree(fs: seq<Field>, gs: seq<Field>)
    requires DistinctKeys(fs) && DistinctKeys(gs)
    requires forall i :: 0 <= i < |fs| ==> fs[i].key != PROTO
    requires forall j :: 0 <= j < |gs| ==> gs[j].key != PROTO
    ensures SortKeys(Obj(fs)) == SortKeys(Obj(gs)) <==> |fs| == |gs| && Matched(fs, gs)
  {
    var a, b := PutAll([], SortByKey(SortValues(fs))), PutAll([], SortByKey(SortValues(gs)));
    SortedFields(fs);
    SortedFields(gs);
    if a == b {
      SameMembersSize(fs, gs);
    }
    if |fs| == |gs| && Matched(fs, gs) {
      MatchedBack(fs, gs);
      CanonSortedUnique(a, b);
    }
    assert SortKeys(Obj(fs)) == Obj(a) && SortKeys(Obj(gs)) == Obj(b);
  }

  lemma SameMembersSize(fs: seq<Field>, gs: seq<Field>)
    requires DistinctKeys(fs) && DistinctKeys(gs)
    requires forall i :: 0 <= i < |fs| ==> fs[i].key != PROTO
    requires forall j :: 0 <= j < |gs| ==> gs[j].key != PROTO
    requires forall x :: SortedMember(fs, x) <==> SortedMember(gs, x)
    ensures |fs| == |gs| && Matched(fs, gs)
  {
    SameMembersMatch(fs, gs);
    SameMembersMatch(gs, fs);
    MatchedSize(fs, gs);
    MatchedSize(gs, fs);
  }

  lemma SameMembersMatch(fs: seq<Field>, gs: seq<Field>)
    requires forall x :: SortedMember(fs, x) ==> SortedMember(gs, x)
    requires forall i :: 0 <= i < |fs| ==> fs[i].key != PROTO
    ensures Matched(fs, gs)
  {
    forall i | 0 <= i < |fs|
      ensures HasPartner(fs[i], gs)
    {
      assert SortedMember(fs, Field(fs[i].key, SortKeys(fs[i].value)));
    }
  }

  function KeySet(fs: seq<Field>): set<Text> {
    set i | 0 <= i < |fs| :: fs[i].key
  }

  lemma {:induction false} KeySetSize(fs: seq<Field>)
    requires DistinctKeys(fs)
    ensures |KeySet(fs)| == |fs|
    decreases |fs|
  {
    if fs != [] {
      var front := fs[..|fs| - 1];
      KeySetSize(front);
      assert fs[|fs| - 1].key !in KeySet(front);
      assert KeySet(fs) == KeySet(front) + {fs[|fs| - 1].key};
    }
  }

  lemma MatchedSize(fs: seq<Field>, gs: seq<Field>)
    requires DistinctKeys(fs) && DistinctKeys(gs) && Matched(fs, gs)
    ensures KeySet(fs) <= KeySet(gs) && |fs| <= |gs|
  {
    KeySetSize(fs);
    KeySetSize(gs);
    SubsetSize(KeySet(fs), KeySet(gs));
  }

  lemma MatchedBack(fs: seq<Field>, gs: seq<Field>)
    requires DistinctKeys(fs) && DistinctKeys(gs) && |fs| == |gs| && Matched(fs, gs)
    ensures forall x :: SortedMember(fs, x) <==> SortedMember(gs, x)
  {
    MatchedSize(fs, gs);
    KeySetSize(fs);
    KeySetSize(gs);
    SubsetSize(KeySet(fs), KeySet(gs));
    forall x | SortedMember(gs, x)
      ensures SortedMember(fs, x)
    {
      var j :| 0 <= j < |gs| && x == Field(gs[j].key, SortKeys(gs[j].value));
      assert gs[j].key in KeySet(fs);
      var i :| 0 <= i < |fs| && fs[i].key == gs[j].key;
      assert HasPartner(fs[i], gs);
      var k :| 0 <= k < |gs| && fs[i].key == gs[k].key && SortKeys(fs[i].value) == SortKeys(gs[k].value);
      assert k == j;
    }
  }

  // ----- `__proto__` members

  lemma {:induction false} StripItemsAt(xs: seq<Value>, i: nat)
    requires i < |xs|
    ensures StripItems(xs)[i] == StripProto(xs[i])
    decreases |xs|
  {
    if i > 0 {
      StripItemsAt(xs[1..], i - 1);
    }
  }

  lemma {:induction false} StripFieldsMembers(fs: seq<Field>)
    requires DistinctKeys(fs)
    ensures DistinctKeys(StripFields(fs))
    ensures forall x :: x in StripFields(fs) <==>
              exists i :: 0 <= i < |fs| && fs[i].key != PROTO && x == Field(fs[i].key, StripProto(fs[i].value))
    decreases |fs|
  {
    if fs != [] {
      StripFieldsMembers(fs[1..]);
      var rest := StripFields(fs[1..]);
      forall j | 0 <= j < |rest|
        ensures rest[j].key != fs[0].key
      {
        assert rest[j] in rest;
      }
      forall x
        ensures x in StripFields(fs) <==>
              exists i :: 0 <= i < |fs| && fs[i].key != PROTO && x == Field(fs[i].key, StripProto(fs[i].value))
      {
        if x in rest {
          var i :| 0 <= i < |fs[1..]| && fs[1..][i].key != PROTO
            && x == Field(fs[1..][i].key, StripProto(fs[1..][i].value));
          assert fs[i + 1] == fs[1..][i];
        }
        if i :| 0 < i < |fs| && fs[i].key != PROTO && x == Field(fs[i].key, StripProto(fs[i].value)) {
          assert fs[1..][i - 1] == fs[i];
        }
      }
    }
  }

  lemma {:induction false} StripProtoShape(v: Value)
    requires IsJson(v)
    ensures IsJson(StripProto(v)) && ProtoFree(StripProto(v))
    decreases v
  {
    if v.Arr? {
      forall i | 0 <= i < |v.items|
        ensures IsJson(StripItems(v.items)[i]) && ProtoFree(StripItems(v.items)[i])
      {
        StripItemsAt(v.items, i);
        StripProtoShape(v.items[i]);
      }
    } else if v.Obj? {
      var out := StripFields(v.fields);
      StripFieldsMembers(v.fields);
      forall j | 0 <= j < |out|
        ensures IsJson(out[j].value) && ProtoFree(out[j].value) && out[j].key != PROTO
      {
        assert out[j] in out;
        var i :| 0 <= i < |v.fields| && v.fields[i].key != PROTO
          && out[j] == Field(v.fields[i].key, StripProto(v.fields[i].value));
        StripProtoShape(v.fields[i].value);
      }
    }
  }

  /** sortKeys cannot see `__proto__` members: dropping them first changes nothing. */
  lemma {:induction false} SortKeysIgnoresProto(v: Value)
    requires IsJson(v)
    ensures SortKeys(StripProto(v)) == SortKeys(v)
    decreases v
  {
    if v.Arr? {
      forall i | 0 <= i < |v.items|
        ensures SortItems(StripItems(v.items))[i] == SortItems(v.items)[i]
      {
        StripItemsAt(v.items, i);
        SortItemsAt(v.items, i);
        SortItemsAt(StripItems(v.items), i);
        SortKeysIgnoresProto(v.items[i]);
      }
      assert SortItems(StripItems(v.items)) == SortItems(v.items);
    } else if v.Obj? {
      var fs, gs := v.fields, StripFields(v.fields);
      StripFieldsMembers(fs);
      SortedFields(fs);
      SortedFields(gs);
      forall i | 0 <= i < |fs|
        ensures SortKeys(StripProto(fs[i].value)) == SortKeys(fs[i].value)
      {
        SortKeysIgnoresProto(fs[i].value);
      }
      StrippedMembers(fs);
      CanonSortedUnique(PutAll([], SortByKey(SortValues(fs))), PutAll([], SortByKey(SortValues(gs))));
    }
  }

  ghost predicate MemberBy(sort: Value -> Value, fs: seq<Field>, x: Field) {
    x.key != PROTO && exists i :: 0 <= i < |fs| && x == Field(fs[i].key, sort(fs[i].value))
  }

  ghost predicate StrippedBy(strip: Value -> Value, fs: seq<Field>, gs: seq<Field>) {
    forall x :: x in gs <==>
      exists i :: 0 <= i < |fs| && fs[i].key != PROTO && x == Field(fs[i].key, strip(fs[i].value))
  }

  /** Stripping leaves the sorted members alone if it leaves each sorted value alone. */
  lemma StrippedMembersBy(sort: Value -> Value, strip: Value -> Value, fs: seq<Field>, gs: seq<Field>, x: Field)
    requires StrippedBy(strip, fs, gs)
    requires forall i :: 0 <= i < |fs| ==> sort(strip(fs[i].value)) == sort(fs[i].value)
    ensures MemberBy(sort, gs, x) <==> MemberBy(sort, fs, x)
  {
    if MemberBy(sort, fs, x) {
      var i :| 0 <= i < |fs| && x == Field(fs[i].key, sort(fs[i].value));
      assert Field(fs[i].key, strip(fs[i].value)) in gs;
      var j :| 0 <= j < |gs| && gs[j] == Field(fs[i].key, strip(fs[i].value));
    }
    if MemberBy(sort, gs, x) {
      var j :| 0 <= j < |gs| && x == Field(gs[j].key, sort(gs[j].value));
      assert gs[j] in gs;
      var i :| 0 <= i < |fs| && fs[i].key != PROTO && gs[j] == Field(fs[i].key, strip(fs[i].value));
    }
  }

  lemma StrippedMembers(fs: seq<Field>)
    requires DistinctKeys(fs)
    requires forall i :: 0 <= i < |fs| ==> SortKeys(StripProto(fs[i].value)) == SortKeys(fs[i].value)
    ensures forall x :: SortedMember(StripFields(fs), x) <==> SortedMember(fs, x)
  {
    StripFieldsMembers(fs);
    assert StrippedBy(StripProto, fs, StripFields(fs));
    forall x
      ensures SortedMember(StripFields(fs), x) <==> SortedMember(fs, x)
    {
      StrippedMembersBy(SortKeys, StripProto, fs, StripFields(fs), x);
      assert SortedMember(fs, x) <==> MemberBy(SortKeys, fs, x);
      assert SortedMember(StripFields(fs), x) <==> MemberBy(SortKeys, StripFields(fs), x);
    }
  }

  // ----- main results

  lemma {:induction false} SortKeysStaysJson(v: Value)
    requires IsJson(v)
    ensures IsJson(SortKeys(v))
    decreases v
  {
    if v.Arr? {
      forall i | 0 <= i < |v.items|
        ensures IsJson(SortItems(v.items)[i])
      {
        SortItemsAt(v.items, i);
        SortKeysStaysJson(v.items[i]);
      }
    } else if v.Obj? {
      SortedFields(v.fields);
      var out := PutAll([], SortByKey(SortValues(v.fields)));
      forall j | 0 <= j < |out|
        ensures IsJson(out[j].value)
      {
        assert out[j] in out;
        var i :| 0 <= i < |v.fields| && out[j] == Field(v.fields[i].key, SortKeys(v.fields[i].value));
        SortKeysStaysJson(v.fields[i].value);
      }
      forall i, j | 0 <= i < j < |out|
        ensures out[i].key != out[j].key
      {
        CanonLessStrict(out[i].key, out[j].key);
      }
    }
  }

  /**
   * Canonical payload equality, for all jsonb values: the texts agree exactly when the
   * values, apart from `__proto__` members, are equal up to key order at every level.
   */
  lemma PayloadsEqualIffSame(a: Value, b: Value)
    requires IsJson(a) && IsJson(b)
    ensures PayloadsEqual(a, b) <==> SameJson(StripProto(a), StripProto(b))
  {
    SortKeysStaysJson(a);
    SortKeysStaysJson(b);
    PrintInjective(SortKeys(a), SortKeys(b));
    SortKeysIgnoresProto(a);
    SortKeysIgnoresProto(b);
    StripProtoShape(a);
    StripProtoShape(b);
    SortKeysCanonical(StripProto(a), StripProto(b));
  }

  /** Without `__proto__` members it is equality up to key order. */
  lemma PayloadsEqualIffSameJson(a: Value, b: Value)
    requires IsJson(a) && IsJson(b) && ProtoFree(a) && ProtoFree(b)
    ensures PayloadsEqual(a, b) <==> SameJson(a, b)
  {
    SortKeysStaysJson(a);
    SortKeysStaysJson(b);
    PrintInjective(SortKeys(a), SortKeys(b));
    SortKeysCanonical(a, b);
  }

  /** Same length forces the same number of fields, so a stripped object differs from the original. */
  lemma {:induction false} StripFieldsShorter(fs: seq<Field>)
    ensures |StripFields(fs)| <= |fs|
    ensures |StripFields(fs)| == |fs| <==> forall i :: 0 <= i < |fs| ==> fs[i].key != PROTO
    decreases |fs|
  {
    if fs != [] {
      StripFieldsShorter(fs[1..]);
      assert fs == [fs[0]] + fs[1..];
    }
  }

  /** Stripping keeps every other member under its key, and nothing else under that key. */
  lemma {:induction false} StrippedPartner(fs: seq<Field>, i: nat)
    requires DistinctKeys(fs) && i < |fs| && fs[i].key != PROTO
    ensures exists j :: 0 <= j < |StripFields(fs)| && fs[i].key == StripFields(fs)[j].key
    ensures forall j :: 0 <= j < |StripFields(fs)| && fs[i].key == StripFields(fs)[j].key ==>
              StripFields(fs)[j].value == StripProto(fs[i].value)
  {
    var gs := StripFields(fs);
    StripFieldsMembers(fs);
    assert Field(fs[i].key, StripProto(fs[i].value)) in gs;
    forall j | 0 <= j < |gs| && fs[i].key == gs[j].key
      ensures gs[j].value == StripProto(fs[i].value)
    {
      assert gs[j] in gs;
    }
  }

  lemma {:induction false} SameIgnoresNothing(v: Value)
    requires IsJson(v)
    ensures SameJson(v, StripProto(v)) <==> ProtoFree(v)
    decreases v
  {
    if v.Arr? {
      forall i | 0 <= i < |v.items|
        ensures SameJson(v.items[i], StripItems(v.items)[i]) <==> ProtoFree(v.items[i])
      {
        StripItemsAt(v.items, i);
        SameIgnoresNothing(v.items[i]);
      }
    } else if v.Obj? {
      StripFieldsShorter(v.fields);
      if forall i :: 0 <= i < |v.fields| ==> v.fields[i].key != PROTO {
        var fs, gs := v.fields, StripFields(v.fields);
        forall i | 0 <= i < |fs|
          ensures exists j :: 0 <= j < |gs| && fs[i].key == gs[j].key
          ensures forall j :: 0 <= j < |gs| && fs[i].key == gs[j].key ==>
                    (SameJson(fs[i].value, gs[j].value) <==> ProtoFree(fs[i].value))
        {
          StrippedPartner(fs, i);
          SameIgnoresNothing(fs[i].value);
        }
      }
    }
  }

  /**
   * Exactly where the code and equality up to key order part ways: every value is
   * confused with its stripped form, and that is an error precisely when the value
   * carries a `__proto__` member somewhere.
   */
  lemma ConfusedWithStrippedIffProto(v: Value)
    requires IsJson(v)
    ensures PayloadsEqual(v, StripProto(v))
    ensures SameJson(v, StripProto(v)) <==> ProtoFree(v)
  {
    SortKeysIgnoresProto(v);
    SameIgnoresNothing(v);
  }

  // ----- sortKeys as the loop that fills a record

  lemma {:induction false} PutAllSnoc(out: seq<Field>, fs: seq<Field>, f: Field)
    ensures PutAll(out, fs + [f]) == Put(PutAll(out, fs), f)
    decreases |fs|
  {
    if fs == [] {
      assert PutAll(Put(out, f), []) == Put(out, f);
    } else {
      assert (fs + [f])[1..] == fs[1..] + [f];
      PutAllSnoc(Put(out, fs[0]), fs[1..], f);
    }
  }

  lemma {:induction false} InsertCommutes(f: Field, s: seq<Field>)
    ensures SortValues(Insert(KeyLess, f, s)) == Insert(KeyLess, Field(f.key, SortKeys(f.value)), SortValues(s))
    decreases |s|
  {
    if s != [] && !KeyLess(f, s[0]) {
      InsertCommutes(f, s[1..]);
      assert Insert(KeyLess, f, s)[1..] == Insert(KeyLess, f, s[1..]);
    } else {
      assert ([f] + s)[1..] == s;
    }
  }

  /** Sorting the keys and then the values is sorting the values and then the keys. */
  lemma {:induction false} SortCommutes(fs: seq<Field>)
    ensures SortByKey(SortValues(fs)) == SortValues(SortByKey(fs))
    decreases |fs|
  {
    if fs != [] {
      SortCommutes(fs[1..]);
      InsertCommutes(fs[0], SortByKey(fs[1..]));
    }
  }

  lemma {:induction false} SortValuesSnoc(fs: seq<Field>, f: Field)
    ensures SortValues(fs + [f]) == SortValues(fs) + [Field(f.key, SortKeys(f.value))]
    decreases |fs|
  {
    if fs != [] {
      assert (fs + [f])[1..] == fs[1..] + [f];
      SortValuesSnoc(fs[1..], f);
    }
  }

  lemma FillStep(sorted: seq<Field>, i: nat)
    requires i < |sorted|
    ensures PutAll([], SortValues(sorted[..i + 1]))
         == Put(PutAll([], SortValues(sorted[..i])), Field(sorted[i].key, SortKeys(sorted[i].value)))
  {
    assert sorted[..i + 1] == sorted[..i] + [sorted[i]];
    SortValuesSnoc(sorted[..i], sorted[i]);
    PutAllSnoc([], SortValues(sorted[..i]), Field(sorted[i].key, SortKeys(sorted[i].value)));
  }

  method SortKeysLoop(v: Value) returns (r: Value)
    requires IsJson(v)
    ensures r == SortKeys(v)
    decreases v, 1
  {
    if v.Arr? {
      var out := SortItemsLoop(v.items);
      r := Arr(out);
    } else if v.Obj? {
      var out := FillSortedRecord(v.fields);
      r := Obj(out);
    } else {
      r := v;
    }
  }

  method SortItemsLoop(xs: seq<Value>) returns (out: seq<Value>)
    requires forall i :: 0 <= i < |xs| ==> IsJson(xs[i])
    ensures out == SortItems(xs)
    decreases xs, 0
  {
    out := [];
    for i := 0 to |xs|
      invariant |out| == i
      invariant forall j :: 0 <= j < i ==> out[j] == SortItems(xs)[j]
    {
      var item := SortKeysLoop(xs[i]);
      SortItemsAt(xs, i);
      out := out + [item];
    }
  }

  /** The `out` record: keys assigned in sorted order, each with its sorted value. */
  method FillSortedRecord(fs: seq<Field>) returns (out: seq<Field>)
    requires DistinctKeys(fs) && forall i :: 0 <= i < |fs| ==> IsJson(fs[i].value)
    ensures out == PutAll([], SortByKey(SortValues(fs)))
    decreases fs, 0
  {
    var sorted := SortByKey(fs);
    SortByKeySorts(fs);
    out := [];
    for i := 0 to |sorted|
      invariant out == PutAll([], SortValues(sorted[..i]))
    {
      assert sorted[i] in fs;
      var value := SortKeysLoop(sorted[i].value);
      FillStep(sorted, i);
      out := Put(out, Field(sorted[i].key, value));
    }
    assert sorted[..|sorted|] == sorted;
    SortCommutes(fs);
  }
}
