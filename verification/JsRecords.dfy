/** What an assignment does to a record, and the numbers behind the keys that are enumerated first. */
module JsRecords {
  import opened Prelude
  import opened Text
  import opened JsValues
  import opened JsonText

  // ----- index keys are numbers

  ghost function Power10(n: nat): nat {
    if n == 0 then 1 else 10 * Power10(n - 1)
  }

  ghost predicate AllDigits(t: Text) {
    forall i :: 0 <= i < |t| ==> 48 <= t[i] <= 57
  }

  lemma {:induction false} DecimalBounds(t: Text)
    requires AllDigits(t)
    ensures 0 <= DecimalValue(t) < Power10(|t|)
    ensures t != [] && t[0] != 48 ==> Power10(|t| - 1) <= DecimalValue(t)
    decreases |t|
  {
    if t != [] {
      DecimalBounds(t[..|t| - 1]);
    }
  }

  lemma {:induction false} LessSnoc(a: Text, b: Text, x: CodeUnit, y: CodeUnit)
    requires |a| == |b|
    ensures Less(a + [x], b + [y]) <==> Less(a, b) || (a == b && x < y)
    decreases |a|
  {
    if a == [] {
      assert a + [x] == [x] && b + [y] == [y] && [x][1..] == [] && [y][1..] == [];
    } else {
      assert (a + [x])[1..] == a[1..] + [x] && (b + [y])[1..] == b[1..] + [y];
      LessSnoc(a[1..], b[1..], x, y);
    }
  }

  /** Digit texts of one length are ordered as their values. */
  lemma {:induction false} LessIsSmaller(a: Text, b: Text)
    requires |a| == |b| && AllDigits(a) && AllDigits(b)
    ensures Less(a, b) <==> DecimalValue(a) < DecimalValue(b)
    ensures a == b <==> DecimalValue(a) == DecimalValue(b)
    decreases |a|
  {
    if a != [] {
      var n := |a| - 1;
      LessIsSmaller(a[..n], b[..n]);
      LessSnoc(a[..n], b[..n], a[n], b[n]);
      assert a == a[..n] + [a[n]] && b == b[..n] + [b[n]];
    }
  }

  /** A text without leading zeros is the decimal text of its value. */
  lemma {:induction false} WholeTextIsDecimal(n: nat, t: Text)
    requires WholeText(n, t)
    ensures t == Decimal(n)
    decreases |t|
  {
    var front := t[..|t| - 1];
    assert t == front + [t[|t| - 1]];
    if front == [] {
      assert DecimalValue(front) == 0;
    } else {
      DecimalBounds(front);
      WholeTextIsDecimal(DecimalValue(front), front);
      assert front[0] == t[0] != 48;
      DecimalBounds(t);
      assert Power10(1) == 10 * Power10(0);
      if |front| > 1 {
        assert Power10(|t| - 1) >= 10;
      }
      assert n / 10 == DecimalValue(front) && n % 10 == t[|t| - 1] - 48;
    }
  }

  lemma DecimalOfOne(t: Text)
    requires t != []
    ensures DecimalValue(t) == DecimalValue(t[..|t| - 1]) * 10 + t[|t| - 1] - 48
  {
  }

  /** The last five digits of a text. */
  lemma DecimalOfFive(t: Text, n: nat)
    requires |t| == n + 5
    ensures var a: int, b: int, c: int, d: int, e: int := t[n], t[n + 1], t[n + 2], t[n + 3], t[n + 4];
      DecimalValue(t) == DecimalValue(t[..n]) * 100000
        + (a - 48) * 10000 + (b - 48) * 1000 + (c - 48) * 100 + (d - 48) * 10 + (e - 48)
  {
    var t1, t2, t3, t4 := t[..n + 1], t[..n + 2], t[..n + 3], t[..n + 4];
    assert t1[..n] == t[..n] && t2[..n + 1] == t1 && t3[..n + 2] == t2 && t4[..n + 3] == t3;
    DecimalOfOne(t1);
    DecimalOfOne(t2);
    DecimalOfOne(t3);
    DecimalOfOne(t4);
    DecimalOfOne(t);
  }

  lemma MaxIndexValue()
    ensures AllDigits(MAX_INDEX) && DecimalValue(MAX_INDEX) == 4294967294
  {
    var front := MAX_INDEX[..5];
    DecimalOfFive(MAX_INDEX, 5);
    DecimalOfFive(front, 0);
    assert front[..0] == [];
  }

  lemma PowersOfTen()
    ensures Power10(9) == 1000000000 && Power10(10) == 10000000000
  {
    assert Power10(5) == 100000;
  }

  lemma {:induction false} Power10Grows(m: nat, n: nat)
    requires m <= n
    ensures Power10(m) <= Power10(n)
    decreases n
  {
    if m < n {
      Power10Grows(m, n - 1);
    }
  }

  /** The keys enumerated first are the decimal texts of the numbers below 2^32 - 1. */
  lemma IndexKeysAreNumbers(k: Text)
    ensures IsIndex(k) <==> exists n: nat :: n < 4294967295 && k == Decimal(n)
  {
    MaxIndexValue();
    PowersOfTen();
    if IsIndex(k) {
      DecimalBounds(k);
      var n := DecimalValue(k);
      WholeTextIsDecimal(n, k);
      if |k| == 10 {
        LessIsSmaller(MAX_INDEX, k);
      } else {
        Power10Grows(|k|, 9);
      }
      assert n < 4294967295;
    }
    forall n: nat | n < 4294967295 && k == Decimal(n)
      ensures IsIndex(k)
    {
      DecimalIsWholeText(n);
      DecimalBounds(k);
      if |k| > 10 {
        Power10Grows(10, |k| - 1);
      } else if |k| == 10 {
        LessIsSmaller(MAX_INDEX, k);
      }
    }
  }

  /** And they are enumerated in numeric order. */
  lemma IndexOrderIsNumeric(a: nat, b: nat)
    ensures IndexLess(Decimal(a), Decimal(b)) <==> a < b
  {
    var s, t := Decimal(a), Decimal(b);
    DecimalIsWholeText(a);
    DecimalIsWholeText(b);
    DecimalBounds(s);
    DecimalBounds(t);
    if |s| == |t| {
      LessIsSmaller(s, t);
    } else if |s| < |t| {
      Power10Grows(|s|, |t| - 1);
      assert t[0] != 48;
    } else {
      Power10Grows(|t|, |s| - 1);
      assert s[0] != 48;
    }
  }

  // ----- assignment

  lemma {:induction false} ReplacePositions(fs: seq<Field>, f: Field)
    requires DistinctKeys(fs)
    ensures |Replace(fs, f)| == |fs|
    ensures forall i :: 0 <= i < |fs| ==> Replace(fs, f)[i] == if fs[i].key == f.key then f else fs[i]
    decreases |fs|
  {
    if fs != [] {
      ReplacePositions(fs[1..], f);
    }
  }

  /** An index key goes before the first key that is not an index or is a greater one. */
  lemma {:induction false} InsertPosition(fs: seq<Field>, f: Field) returns (k: nat)
    ensures k <= |fs| && InsertIndex(fs, f) == fs[..k] + [f] + fs[k..]
    ensures forall i :: 0 <= i < k ==> IsIndex(fs[i].key) && !IndexLess(f.key, fs[i].key)
    ensures k < |fs| ==> !IsIndex(fs[k].key) || IndexLess(f.key, fs[k].key)
    decreases |fs|
  {
    if fs == [] || !IsIndex(fs[0].key) || IndexLess(f.key, fs[0].key) {
      k := 0;
    } else {
      var rest := InsertPosition(fs[1..], f);
      k := rest + 1;
      assert fs[..k] == [fs[0]] + fs[1..][..rest] && fs[k..] == fs[1..][rest..];
      assert InsertIndex(fs, f) == [fs[0]] + (fs[1..][..rest] + [f] + fs[1..][rest..]);
      forall i | 0 <= i < k
        ensures IsIndex(fs[i].key) && !IndexLess(f.key, fs[i].key)
      {
        if i > 0 {
          assert fs[i] == fs[1..][i - 1];
        }
      }
    }
  }

  lemma IndexLessTransitive(a: Text, b: Text, c: Text)
    requires IndexLess(a, b) && IndexLess(b, c)
    ensures IndexLess(a, c)
  {
    if |a| == |b| == |c| {
      LessTransitive(a, b, c);
    }
  }

  /** An index key keeps the enumeration: those before it are smaller, those after it greater or no indices. */
  lemma InsertedInOrder(fs: seq<Field>, f: Field, k: nat)
    requires Enumerated(fs) && !HasKey(fs, f.key) && IsIndex(f.key) && k <= |fs|
    requires forall i :: 0 <= i < k ==> IsIndex(fs[i].key) && !IndexLess(f.key, fs[i].key)
    requires k < |fs| ==> !IsIndex(fs[k].key) || IndexLess(f.key, fs[k].key)
    ensures Enumerated(fs[..k] + [f] + fs[k..])
  {
    var out := fs[..k] + [f] + fs[k..];
    forall i | 0 <= i < k
      ensures IndexLess(fs[i].key, f.key)
    {
      LessTotal(fs[i].key, f.key);
    }
    forall j | k <= j < |fs| && IsIndex(fs[j].key)
      ensures IndexLess(f.key, fs[j].key)
    {
      if k < j {
        IndexLessTransitive(f.key, fs[k].key, fs[j].key);
      }
    }
    forall i, j | 0 <= i < j < |out|
      ensures out[i].key != out[j].key
      ensures IsIndex(out[j].key) ==> IsIndex(out[i].key) && IndexLess(out[i].key, out[j].key)
    {
      var a, b := if i < k then i else i - 1, if j < k then j else j - 1;
      assert i != k ==> out[i] == fs[a];
      assert j != k ==> out[j] == fs[b];
    }
  }

  /** The members after an assignment: the new one, and every other as it was. */
  ghost predicate Assigned(fs: seq<Field>, f: Field, out: seq<Field>) {
    forall g :: g in out <==> g == f || (g in fs && g.key != f.key)
  }

  lemma SameKeysEnumerated(fs: seq<Field>, out: seq<Field>)
    requires Enumerated(fs) && |out| == |fs| && forall i :: 0 <= i < |fs| ==> out[i].key == fs[i].key
    ensures Enumerated(out)
  {
  }

  lemma ReplacedMember(fs: seq<Field>, f: Field, out: seq<Field>)
    requires HasKey(fs, f.key) && |out| == |fs|
    requires forall i :: 0 <= i < |fs| ==> out[i] == if fs[i].key == f.key then f else fs[i]
    ensures Assigned(fs, f, out)
  {
    forall g
      ensures g in out <==> g == f || (g in fs && g.key != f.key)
    {
      if g in out {
        var j :| 0 <= j < |out| && out[j] == g;
        assert g == f || g == fs[j];
      } else if g in fs {
        var j :| 0 <= j < |fs| && fs[j] == g;
        assert out[j] != g;
      }
    }
    var i :| 0 <= i < |fs| && fs[i].key == f.key;
    assert out[i] == f;
  }

  lemma InsertAssigns(fs: seq<Field>, f: Field)
    requires Enumerated(fs) && !HasKey(fs, f.key) && IsIndex(f.key)
    ensures Enumerated(InsertIndex(fs, f)) && Assigned(fs, f, InsertIndex(fs, f))
  {
    var k := InsertPosition(fs, f);
    InsertedInOrder(fs, f, k);
    assert fs == fs[..k] + fs[k..];
  }

  /**
   * Assignment: the record has the new member, every other member as it was and nothing else,
   * in enumeration order; a key it had keeps its place, and a new one that is no index comes last.
   */
  lemma PutIsAssignment(fs: seq<Field>, f: Field)
    requires Enumerated(fs) && f.key != PROTO
    ensures Enumerated(Put(fs, f)) && Assigned(fs, f, Put(fs, f))
    ensures HasKey(fs, f.key) ==>
      |Put(fs, f)| == |fs| && forall i :: 0 <= i < |fs| ==> Put(fs, f)[i].key == fs[i].key
    ensures !HasKey(fs, f.key) && !IsIndex(f.key) ==> Put(fs, f) == fs + [f]
  {
    if HasKey(fs, f.key) {
      ReplacePositions(fs, f);
      SameKeysEnumerated(fs, Replace(fs, f));
      ReplacedMember(fs, f, Replace(fs, f));
    } else if IsIndex(f.key) {
      InsertAssigns(fs, f);
    }
  }
}
