/** JavaScript values as the system stores and compares them, and the records it builds key by key. */
module JsValues {
  import opened Prelude
  import opened Text

  type Digit = d: nat | d < 10

  /** A number by the parts of its shortest decimal text (sign, whole, fraction, exponent). */
  datatype Number = Number(minus: bool, whole: nat, fraction: seq<Digit>, exponent: Option<int>)

  datatype Value =
    | Undefined
    | Null
    | Bool(bit: bool)
    | Num(number: Number)
    | Str(text: Text)
    | Func
    | Sym
    | Arr(items: seq<Value>)
    | Obj(fields: seq<Field>)

  /** Own properties are listed in the order `Object.keys` enumerates them. */
  datatype Field = Field(key: Text, value: Value)

  const PROTO: Text := [95, 95, 112, 114, 111, 116, 111, 95, 95]

  const MAX_INDEX: Text := [52, 50, 57, 52, 57, 54, 55, 50, 57, 52]

  /** An array index: a canonical decimal below 2^32 - 1. Such keys enumerate first, in numeric order. */
  predicate IsIndex(k: Text) {
    && k != []
    && (forall i :: 0 <= i < |k| ==> 48 <= k[i] <= 57)
    && (k[0] == 48 ==> |k| == 1)
    && (|k| < 10 || (|k| == 10 && !Less(MAX_INDEX, k)))
  }

  predicate IndexLess(a: Text, b: Text) {
    |a| < |b| || (|a| == |b| && Less(a, b))
  }

  ghost predicate DistinctKeys(fs: seq<Field>) {
    forall i, j :: 0 <= i < j < |fs| ==> fs[i].key != fs[j].key
  }

  /** The enumeration order the language imposes: index keys first and ascending. */
  ghost predicate Enumerated(fs: seq<Field>) {
    && DistinctKeys(fs)
    && forall i, j :: 0 <= i < j < |fs| && IsIndex(fs[j].key) ==> IsIndex(fs[i].key) && IndexLess(fs[i].key, fs[j].key)
  }

  ghost predicate WellFormed(v: Value) {
    match v
    case Arr(items) => forall i :: 0 <= i < |items| ==> WellFormed(items[i])
    case Obj(fields) => Enumerated(fields) && forall i :: 0 <= i < |fields| ==> WellFormed(fields[i].value)
    case _ => true
  }

  /** Values of the jsonb domain. */
  ghost predicate IsJson(v: Value) {
    match v
    case Arr(items) => forall i :: 0 <= i < |items| ==> IsJson(items[i])
    case Obj(fields) => DistinctKeys(fields) && forall i :: 0 <= i < |fields| ==> IsJson(fields[i].value)
    case _ => !v.Undefined? && !v.Func? && !v.Sym?
  }

  predicate HasKey(fs: seq<Field>, k: Text) {
    exists i :: 0 <= i < |fs| && fs[i].key == k
  }

  function InsertIndex(fs: seq<Field>, f: Field): seq<Field> {
    if fs == [] || !IsIndex(fs[0].key) || IndexLess(f.key, fs[0].key) then [f] + fs
    else [fs[0]] + InsertIndex(fs[1..], f)
  }

  function Replace(fs: seq<Field>, f: Field): seq<Field> {
    if fs == [] then [] else if fs[0].key == f.key then [f] + fs[1..] else [fs[0]] + Replace(fs[1..], f)
  }

  /**
   * The assignment `record[key] = value` on a plain object. The key `__proto__` reaches
   * the accessor inherited from Object.prototype, so no own property comes of it.
   */
  function Put(fs: seq<Field>, f: Field): seq<Field> {
    if f.key == PROTO then fs
    else if HasKey(fs, f.key) then Replace(fs, f)
    else if IsIndex(f.key) then InsertIndex(fs, f)
    else fs + [f]
  }

  /** Filling a record: one assignment after another. */
  function PutAll(out: seq<Field>, fs: seq<Field>): seq<Field>
    decreases |fs|
  {
    if fs == [] then out else PutAll(Put(out, fs[0]), fs[1..])
  }

  lemma {:induction false} InsertIndexAppends(fs: seq<Field>, f: Field)
    requires forall i :: 0 <= i < |fs| ==> IsIndex(fs[i].key) && IndexLess(fs[i].key, f.key)
    ensures InsertIndex(fs, f) == fs + [f]
    decreases |fs|
  {
    if fs != [] {
      InsertIndexAppends(fs[1..], f);
      if IndexLess(f.key, fs[0].key) && |f.key| == |fs[0].key| {
        LessAsymmetric(f.key, fs[0].key);
      }
    }
  }

  /** Assigning keys in enumeration order rebuilds the enumeration. */
  lemma PutAppends(fs: seq<Field>, f: Field)
    requires Enumerated(fs + [f]) && f.key != PROTO
    ensures Put(fs, f) == fs + [f]
  {
    var all := fs + [f];
    forall i | 0 <= i < |fs|
      ensures fs[i].key != f.key
      ensures IsIndex(f.key) ==> IsIndex(fs[i].key) && IndexLess(fs[i].key, f.key)
    {
      assert all[i] == fs[i] && all[|fs|] == f;
    }
    if IsIndex(f.key) {
      InsertIndexAppends(fs, f);
    }
  }
}
