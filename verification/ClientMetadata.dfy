/** Client-event metadata: byte length without an encoder, and redaction of sensitive keys. */
module ClientMetadata {
  import opened Prelude
  import opened Text
  import opened JsValues
  import opened JsonText
  import MetadataDepth

  // ===== UTF-8 byte length

  const HASH: CodeUnit := 35

  /** First replacement: each surrogate pair becomes four marks. */
  function ReplacePairs(s: Text): Text {
    if s == [] then []
    else if StartsWithPair(s) then [HASH, HASH, HASH, HASH] + ReplacePairs(s[2..])
    else [s[0]] + ReplacePairs(s[1..])
  }

  /** Second replacement: units from U+0800 up become three marks. */
  function ReplaceThree(s: Text): Text {
    if s == [] then [] else (if s[0] >= 0x800 then [HASH, HASH, HASH] else [s[0]]) + ReplaceThree(s[1..])
  }

  /** Third replacement: units from U+0080 to U+07FF become two marks. */
  function ReplaceTwo(s: Text): Text {
    if s == [] then [] else (if 0x80 <= s[0] <= 0x7FF then [HASH, HASH] else [s[0]]) + ReplaceTwo(s[1..])
  }

  function Utf8ByteLength(s: Text): nat {
    |ReplaceTwo(ReplaceThree(ReplacePairs(s)))|
  }

  type Byte = b: nat | b < 256

  /** The encoding table of RFC 3629, section 3. */
  function EncodePoint(cp: nat): seq<Byte>
    requires cp < 0x110000
  {
    if cp < 0x80 then [cp]
    else if cp < 0x800 then [0xC0 + cp / 64, 0x80 + cp % 64]
    else if cp < 0x10000 then [0xE0 + cp / 4096, 0x80 + cp / 64 % 64, 0x80 + cp % 64]
    else [0xF0 + cp / 262144, 0x80 + cp / 4096 % 64, 0x80 + cp / 64 % 64, 0x80 + cp % 64]
  }

  function PairPoint(hi: CodeUnit, lo: CodeUnit): nat
    requires IsHigh(hi) && IsLow(lo)
  {
    0x10000 + (hi - 0xD800) * 0x400 + (lo - 0xDC00)
  }

  /** UTF-8 of a UTF-16 string, an unpaired surrogate giving the three bytes of U+FFFD. */
  function Utf8Encode(s: Text): seq<Byte> {
    if s == [] then []
    else if StartsWithPair(s) then EncodePoint(PairPoint(s[0], s[1])) + Utf8Encode(s[2..])
    else if IsHigh(s[0]) || IsLow(s[0]) then EncodePoint(0xFFFD) + Utf8Encode(s[1..])
    else EncodePoint(s[0]) + Utf8Encode(s[1..])
  }

  /** A byte of a marker and the bits below it. */
  ghost predicate Bits(b: Byte, marker: nat, room: nat, bits: nat) {
    bits < room && b == marker + bits
  }

  ghost predicate TwoBytes(cp: nat, bs: seq<Byte>) {
    |bs| == 2 && exists a: nat, b: nat ::
      Bits(bs[0], 0xC0, 0x20, a) && Bits(bs[1], 0x80, 0x40, b) && cp == a * 0x40 + b
  }

  ghost predicate ThreeBytes(cp: nat, bs: seq<Byte>) {
    |bs| == 3 && exists a: nat, b: nat, c: nat ::
      && Bits(bs[0], 0xE0, 0x10, a) && Bits(bs[1], 0x80, 0x40, b) && Bits(bs[2], 0x80, 0x40, c)
      && cp == (a * 0x40 + b) * 0x40 + c
  }

  ghost predicate FourBytes(cp: nat, bs: seq<Byte>) {
    |bs| == 4 && exists a: nat, b: nat, c: nat, d: nat ::
      && Bits(bs[0], 0xF0, 8, a) && Bits(bs[1], 0x80, 0x40, b) && Bits(bs[2], 0x80, 0x40, c)
      && Bits(bs[3], 0x80, 0x40, d)
      && cp == ((a * 0x40 + b) * 0x40 + c) * 0x40 + d
  }

  /** The bytes of a code point: the first one tells how many there are, and there are no more than it takes. */
  ghost predicate BytesOf(cp: nat, bs: seq<Byte>) {
    if cp <= 0x7F then bs == [cp]
    else if cp <= 0x7FF then TwoBytes(cp, bs)
    else if cp <= 0xFFFF then ThreeBytes(cp, bs)
    else FourBytes(cp, bs)
  }

  /** The bytes of a string, code point by code point; U+FFFD stands for a surrogate without its partner. */
  ghost predicate BytesOfText(s: Text, bs: seq<Byte>)
    decreases |s|
  {
    if s == [] then bs == []
    else if |s| > 1 && 0xD800 <= s[0] <= 0xDBFF && 0xDC00 <= s[1] <= 0xDFFF then
      var high: nat, low: nat := s[0] - 0xD800, s[1] - 0xDC00;
      exists k :: 0 <= k <= |bs| && BytesOf(0x10000 + high * 0x400 + low, bs[..k]) && BytesOfText(s[2..], bs[k..])
    else
      exists k :: 0 <= k <= |bs|
        && BytesOf(if 0xD800 <= s[0] <= 0xDFFF then 0xFFFD else s[0], bs[..k]) && BytesOfText(s[1..], bs[k..])
  }

  lemma SixBits(n: nat)
    ensures n == (n / 64) * 64 + n % 64
    ensures n / 4096 == n / 64 / 64 && n / 262144 == n / 64 / 64 / 64
  {
  }

  lemma TwoBytesWritten(cp: nat)
    requires 0x80 <= cp < 0x800
    ensures TwoBytes(cp, EncodePoint(cp))
  {
    var bs := EncodePoint(cp);
    SixBits(cp);
    assert Bits(bs[0], 0xC0, 0x20, cp / 64) && Bits(bs[1], 0x80, 0x40, cp % 64);
  }

  lemma ThreeBytesWritten(cp: nat)
    requires 0x800 <= cp < 0x10000
    ensures ThreeBytes(cp, EncodePoint(cp))
  {
    var bs := EncodePoint(cp);
    var q := cp / 64;
    SixBits(cp);
    SixBits(q);
    assert Bits(bs[0], 0xE0, 0x10, q / 64) && Bits(bs[1], 0x80, 0x40, q % 64) && Bits(bs[2], 0x80, 0x40, cp % 64);
  }

  lemma FourBytesWritten(cp: nat)
    requires 0x10000 <= cp < 0x110000
    ensures FourBytes(cp, EncodePoint(cp))
  {
    var bs := EncodePoint(cp);
    var q := cp / 64;
    var r := q / 64;
    SixBits(cp);
    SixBits(q);
    SixBits(r);
    assert Bits(bs[0], 0xF0, 8, r / 64) && Bits(bs[1], 0x80, 0x40, r % 64);
    assert Bits(bs[2], 0x80, 0x40, q % 64) && Bits(bs[3], 0x80, 0x40, cp % 64);
  }

  lemma PointWritten(cp: nat)
    requires cp < 0x110000
    ensures BytesOf(cp, EncodePoint(cp))
  {
    if 0x80 <= cp < 0x800 {
      TwoBytesWritten(cp);
    } else if 0x800 <= cp < 0x10000 {
      ThreeBytesWritten(cp);
    } else if 0x10000 <= cp {
      FourBytesWritten(cp);
    }
  }

  /** The encoder the byte counts are compared with writes the bytes of every string. */
  lemma {:induction false} EncoderWritesUtf8(s: Text)
    ensures BytesOfText(s, Utf8Encode(s))
    decreases |s|
  {
    if s != [] {
      var n := if StartsWithPair(s) then 2 else 1;
      var first := EncodePoint(
        if n == 2 then PairPoint(s[0], s[1]) else if IsHigh(s[0]) || IsLow(s[0]) then 0xFFFD else s[0]);
      PointWritten(if n == 2 then PairPoint(s[0], s[1]) else if IsHigh(s[0]) || IsLow(s[0]) then 0xFFFD else s[0]);
      EncoderWritesUtf8(s[n..]);
      assert Utf8Encode(s) == first + Utf8Encode(s[n..]);
      assert Utf8Encode(s)[..|first|] == first && Utf8Encode(s)[|first|..] == Utf8Encode(s[n..]);
    }
  }

  lemma {:induction false} ReplaceThreeConcat(a: Text, b: Text)
    ensures ReplaceThree(a + b) == ReplaceThree(a) + ReplaceThree(b)
    decreases |a|
  {
    if a == [] {
      assert a + b == b;
    } else {
      assert (a + b)[1..] == a[1..] + b;
      ReplaceThreeConcat(a[1..], b);
    }
  }

  lemma {:induction false} ReplaceTwoConcat(a: Text, b: Text)
    ensures ReplaceTwo(a + b) == ReplaceTwo(a) + ReplaceTwo(b)
    decreases |a|
  {
    if a == [] {
      assert a + b == b;
    } else {
      assert (a + b)[1..] == a[1..] + b;
      ReplaceTwoConcat(a[1..], b);
    }
  }

  ghost function LaterPasses(s: Text): Text {
    ReplaceTwo(ReplaceThree(s))
  }

  lemma LaterPassesConcat(a: Text, b: Text)
    ensures LaterPasses(a + b) == LaterPasses(a) + LaterPasses(b)
  {
    ReplaceThreeConcat(a, b);
    ReplaceTwoConcat(ReplaceThree(a), ReplaceThree(b));
  }

  lemma {:induction false} Marks(n: nat)
    ensures var m := seq(n, i => HASH); ReplaceThree(m) == m && ReplaceTwo(m) == m
    decreases n
  {
    var m := seq(n, i => HASH);
    if n > 0 {
      Marks(n - 1);
      assert m[1..] == seq(n - 1, i => HASH);
      assert m == [HASH] + m[1..];
    }
  }

  /** What the last two passes make of one unit: one, two or three marks by its range. */
  lemma UnitLength(u: CodeUnit)
    ensures |LaterPasses([u])| == if u < 0x80 then 1 else if u < 0x800 then 2 else 3
  {
    var three: Text := [HASH, HASH, HASH];
    assert [u][1..] == [];
    assert ReplaceThree([u]) == if u >= 0x800 then three else [u];
    Marks(3);
    assert seq(3, i => HASH) == three;
    if u < 0x800 {
      assert ReplaceTwo([u]) == if 0x80 <= u then [HASH, HASH] else [u];
    }
  }

  /** The three-pass length is the UTF-8 length, for every string, unpaired surrogates counting three bytes. */
  lemma {:induction false} ThreePassLengthIsUtf8(s: Text)
    ensures Utf8ByteLength(s) == |Utf8Encode(s)|
    decreases |s|
  {
    if s == [] {
    } else if StartsWithPair(s) {
      var four: Text := [HASH, HASH, HASH, HASH];
      Marks(4);
      assert seq(4, i => HASH) == four;
      LaterPassesConcat(four, ReplacePairs(s[2..]));
      ThreePassLengthIsUtf8(s[2..]);
    } else {
      LaterPassesConcat([s[0]], ReplacePairs(s[1..]));
      UnitLength(s[0]);
      ThreePassLengthIsUtf8(s[1..]);
    }
  }

  // ===== redaction

  const MAX_DEPTH: nat := 5

  const REDACTED: Value := Str([91, 114, 101, 100, 97, 99, 116, 101, 100, 93])

  predicate IsPrimitive(v: Value) {
    !v.Arr? && !v.Obj?
  }

  /** Whether a key is sensitive; the walk does not depend on the words it looks for. */
  type Denylist = Text -> bool

  function DenylistedWords(): seq<Text> {
    [Lit("password"), Lit("token"), Lit("cookie"), Lit("authorization"), Lit("auth"), Lit("secret"),
     Lit("answer"), Lit("answertext"), Lit("content"), Lit("body"), Lit("questiontext")]
  }

  /** Case-insensitive substring match against the denylist. */
  predicate IsDenylisted(lower: Lower, key: Text) {
    var words := DenylistedWords();
    exists i :: 0 <= i < |words| && Includes(MapText(key, lower), words[i])
  }

  /** What the walk stores for one entry; None drops it. */
  function SanitizedValue(denied: Denylist, f: Field, depth: nat): Option<Value>
    decreases f, 2
  {
    if denied(f.key) then Some(REDACTED)
    else if IsPrimitive(f.value) then if f.value.Func? || f.value.Sym? then None else Some(f.value)
    else if depth + 1 > MAX_DEPTH then Some(f.value)
    else Some(SanitizeMetadata(denied, f.value, depth + 1))
  }

  function SanitizeMetadata(denied: Denylist, v: Value, depth: nat): Value
    decreases v, 1
  {
    match v
    case Arr(items) => Arr(SanitizeItems(denied, items, depth))
    case Obj(fields) => Obj(SanitizeFields(denied, fields, depth))
    case _ => v
  }

  function SanitizeItems(denied: Denylist, xs: seq<Value>, depth: nat): (r: seq<Value>)
    ensures |r| == |xs|
    decreases xs, 0
  {
    if xs == [] then [] else [SanitizeMetadata(denied, xs[0], depth + 1)] + SanitizeItems(denied, xs[1..], depth)
  }

  /** Entries in order; assigning to `__proto__` makes no own property. */
  function SanitizeFields(denied: Denylist, fs: seq<Field>, depth: nat): seq<Field>
    decreases fs, 0
  {
    if fs == [] then []
    else
      var kept := SanitizedValue(denied, fs[0], depth);
      (if kept.None? || fs[0].key == PROTO then [] else [Field(fs[0].key, kept.value)])
      + SanitizeFields(denied, fs[1..], depth)
  }

  // ----- the reference: redaction at every depth

  ghost function RedactedValue(denied: Denylist, f: Field): Option<Value>
    decreases f, 2
  {
    if denied(f.key) then Some(REDACTED)
    else if f.value.Func? || f.value.Sym? then None
    else Some(Redact(denied, f.value))
  }

  ghost function Redact(denied: Denylist, v: Value): Value
    decreases v, 1
  {
    match v
    case Arr(items) => Arr(RedactItems(denied, items))
    case Obj(fields) => Obj(RedactFields(denied, fields))
    case _ => v
  }

  ghost function RedactItems(denied: Denylist, xs: seq<Value>): (r: seq<Value>)
    ensures |r| == |xs|
    decreases xs, 0
  {
    if xs == [] then [] else [Redact(denied, xs[0])] + RedactItems(denied, xs[1..])
  }

  ghost function RedactFields(denied: Denylist, fs: seq<Field>): seq<Field>
    decreases fs, 0
  {
    if fs == [] then []
    else
      var kept := RedactedValue(denied, fs[0]);
      (if kept.None? || fs[0].key == PROTO then [] else [Field(fs[0].key, kept.value)]) + RedactFields(denied, fs[1..])
  }

  /** Every denylisted key, at every depth, holds the placeholder. */
  ghost predicate NothingLeft(denied: Denylist, v: Value) {
    match v
    case Arr(items) => forall i :: 0 <= i < |items| ==> NothingLeft(denied, items[i])
    case Obj(fields) =>
      forall i :: 0 <= i < |fields| ==>
        if denied(fields[i].key) then fields[i].value == REDACTED else NothingLeft(denied, fields[i].value)
    case _ => true
  }

  /** Nothing to redact or drop: no denylisted key, no `__proto__` key, no function or symbol as a property. */
  ghost predicate Innocent(denied: Denylist, v: Value) {
    match v
    case Arr(items) => forall i :: 0 <= i < |items| ==> Innocent(denied, items[i])
    case Obj(fields) =>
      forall i :: 0 <= i < |fields| ==>
        && !denied(fields[i].key) && fields[i].key != PROTO
        && !fields[i].value.Func? && !fields[i].value.Sym? && Innocent(denied, fields[i].value)
    case _ => true
  }

  lemma {:induction false} RedactLeavesNothing(denied: Denylist, v: Value)
    ensures NothingLeft(denied, Redact(denied, v))
    decreases v, 1
  {
    if v.Arr? {
      RedactItemsLeaveNothing(denied, v.items);
    } else if v.Obj? {
      RedactFieldsLeaveNothing(denied, v.fields);
    }
  }

  lemma {:induction false} RedactItemsLeaveNothing(denied: Denylist, xs: seq<Value>)
    ensures forall i :: 0 <= i < |xs| ==> NothingLeft(denied, RedactItems(denied, xs)[i])
    decreases xs, 0
  {
    if xs != [] {
      RedactLeavesNothing(denied, xs[0]);
      RedactItemsLeaveNothing(denied, xs[1..]);
    }
  }

  ghost predicate FieldsClean(denied: Denylist, fs: seq<Field>) {
    forall i :: 0 <= i < |fs| ==>
      if denied(fs[i].key) then fs[i].value == REDACTED else NothingLeft(denied, fs[i].value)
  }

  lemma {:induction false} RedactFieldsLeaveNothing(denied: Denylist, fs: seq<Field>)
    ensures FieldsClean(denied, RedactFields(denied, fs))
    decreases fs, 0
  {
    if fs != [] {
      RedactLeavesNothing(denied, fs[0].value);
      RedactFieldsLeaveNothing(denied, fs[1..]);
    }
  }

  lemma {:induction false} RedactKeepsInnocent(denied: Denylist, v: Value)
    requires Innocent(denied, v)
    ensures Redact(denied, v) == v
    decreases v, 1
  {
    if v.Arr? {
      RedactKeepsInnocentItems(denied, v.items);
    } else if v.Obj? {
      RedactKeepsInnocentFields(denied, v.fields);
    }
  }

  lemma {:induction false} RedactKeepsInnocentItems(denied: Denylist, xs: seq<Value>)
    requires forall i :: 0 <= i < |xs| ==> Innocent(denied, xs[i])
    ensures RedactItems(denied, xs) == xs
    decreases xs, 0
  {
    if xs != [] {
      RedactKeepsInnocent(denied, xs[0]);
      RedactKeepsInnocentItems(denied, xs[1..]);
    }
  }

  lemma {:induction false} RedactKeepsInnocentFields(denied: Denylist, fs: seq<Field>)
    requires Innocent(denied, Obj(fs))
    ensures RedactFields(denied, fs) == fs
    decreases fs, 0
  {
    if fs != [] {
      RedactKeepsInnocent(denied, fs[0].value);
      assert Innocent(denied, Obj(fs[1..]));
      RedactKeepsInnocentFields(denied, fs[1..]);
    }
  }

  // ----- how deep a value nests

  /** Nodes on the longest path of a value, a primitive counting as one. */
  function Levels(v: Value): (n: nat)
    ensures n >= 1
    decreases v, 1
  {
    match v
    case Arr(items) => 1 + ItemLevels(items)
    case Obj(fields) => 1 + FieldLevels(fields)
    case _ => 1
  }

  function ItemLevels(xs: seq<Value>): nat
    decreases xs, 0
  {
    if xs == [] then 0 else Max(Levels(xs[0]), ItemLevels(xs[1..]))
  }

  function FieldLevels(fs: seq<Field>): nat
    decreases fs, 0
  {
    if fs == [] then 0 else Max(Levels(fs[0].value), FieldLevels(fs[1..]))
  }

  // ----- sanitizing is full redaction on shallow values

  lemma EmptyIsOneLevel(v: Value)
    requires Levels(v) <= 1 && !IsPrimitive(v)
    ensures v == Arr([]) || v == Obj([])
  {
  }

  /** Two levels of slack beyond the depth cap, because the walk only stops below a nested object. */
  lemma {:induction false} SanitizeIsRedact(denied: Denylist, v: Value, depth: nat)
    requires depth <= MAX_DEPTH + 1 && Levels(v) + depth <= MAX_DEPTH + 2
    ensures SanitizeMetadata(denied, v, depth) == Redact(denied, v)
    decreases v, 1
  {
    if v.Arr? && v.items != [] {
      SanitizeItemsIsRedact(denied, v.items, depth);
    } else if v.Obj? {
      SanitizeFieldsIsRedact(denied, v.fields, depth);
    }
  }

  lemma {:induction false} SanitizeItemsIsRedact(denied: Denylist, xs: seq<Value>, depth: nat)
    requires depth <= MAX_DEPTH && ItemLevels(xs) + depth + 1 <= MAX_DEPTH + 2
    ensures SanitizeItems(denied, xs, depth) == RedactItems(denied, xs)
    decreases xs, 0
  {
    if xs != [] {
      SanitizeIsRedact(denied, xs[0], depth + 1);
      SanitizeItemsIsRedact(denied, xs[1..], depth);
    }
  }

  lemma {:induction false} SanitizeEntryIsRedact(denied: Denylist, f: Field, depth: nat)
    requires depth <= MAX_DEPTH + 1 && Levels(f.value) + depth + 1 <= MAX_DEPTH + 2
    ensures SanitizedValue(denied, f, depth) == RedactedValue(denied, f)
    decreases f, 2
  {
    if !denied(f.key) && !IsPrimitive(f.value) {
      if depth + 1 > MAX_DEPTH {
        EmptyIsOneLevel(f.value);
      } else {
        SanitizeIsRedact(denied, f.value, depth + 1);
      }
    }
  }

  lemma {:induction false} SanitizeFieldsIsRedact(denied: Denylist, fs: seq<Field>, depth: nat)
    requires depth <= MAX_DEPTH + 1 && FieldLevels(fs) + depth + 1 <= MAX_DEPTH + 2
    ensures SanitizeFields(denied, fs, depth) == RedactFields(denied, fs)
    decreases fs, 0
  {
    if fs != [] {
      SanitizeEntryIsRedact(denied, fs[0], depth);
      SanitizeFieldsIsRedact(denied, fs[1..], depth);
    }
  }

  // ----- redaction, place by place

  /** A step into an object member or an array element. */
  datatype Step = Key(key: Text) | Index(index: nat)

  type Path = seq<Step>

  function MemberOf(fs: seq<Field>, key: Text): Option<Value> {
    if fs == [] then None else if fs[0].key == key then Some(fs[0].value) else MemberOf(fs[1..], key)
  }

  function Child(v: Value, s: Step): Option<Value> {
    match s
    case Key(k) => if v.Obj? then MemberOf(v.fields, k) else None
    case Index(i) => if v.Arr? && i < |v.items| then Some(v.items[i]) else None
  }

  /** The value at a path, if there is one. */
  function At(v: Value, path: Path): Option<Value>
    decreases |path|
  {
    if path == [] then Some(v)
    else
      var c := Child(v, path[0]);
      if c.None? then None else At(c.value, path[1..])
  }

  /** The step is into no denylisted and no `__proto__` member. */
  predicate Open(denied: Denylist, s: Step) {
    s.Key? ==> !denied(s.key) && s.key != PROTO
  }

  /** What is found at a path of the redacted value, said from the value itself and without walking it. */
  ghost function RedactedAt(denied: Denylist, v: Value, path: Path): Option<Value> {
    var x := At(v, path);
    if x.None? then None
    else if path == [] then Some(Redact(denied, v))
    else
      var last := path[|path| - 1];
      if exists i :: 0 <= i < |path| - 1 && !Open(denied, path[i]) then None
      else if Open(denied, last) then
        if last.Key? && (x.value.Func? || x.value.Sym?) then None else Some(Redact(denied, x.value))
      else if last.key != PROTO then Some(REDACTED)
      else None
  }

  /** Looking a member up in the redacted record. */
  lemma {:induction false} RedactedMember(denied: Denylist, fs: seq<Field>, key: Text)
    requires DistinctKeys(fs)
    ensures MemberOf(RedactFields(denied, fs), key) ==
      if MemberOf(fs, key).None? || key == PROTO then None
      else RedactedValue(denied, Field(key, MemberOf(fs, key).value))
    decreases |fs|
  {
    if fs != [] {
      RedactedMember(denied, fs[1..], key);
      if fs[0].key == key {
        NotAgain(fs, key);
      }
      var kept := RedactedValue(denied, fs[0]);
      var rest := RedactFields(denied, fs[1..]);
      if kept.Some? && fs[0].key != PROTO {
        assert ([Field(fs[0].key, kept.value)] + rest)[1..] == rest;
      } else {
        assert RedactFields(denied, fs) == rest;
      }
    }
  }

  lemma {:induction false} NotAgain(fs: seq<Field>, key: Text)
    requires DistinctKeys(fs) && fs != [] && fs[0].key == key
    ensures MemberOf(fs[1..], key).None?
  {
    forall i | 0 <= i < |fs[1..]|
      ensures fs[1..][i].key != key
    {
      assert fs[1..][i] == fs[i + 1];
    }
    AbsentMember(fs[1..], key);
  }

  lemma {:induction false} AbsentMember(fs: seq<Field>, key: Text)
    requires forall i :: 0 <= i < |fs| ==> fs[i].key != key
    ensures MemberOf(fs, key).None?
    decreases |fs|
  {
    if fs != [] {
      AbsentMember(fs[1..], key);
    }
  }

  lemma {:induction false} MemberIsWellFormed(fs: seq<Field>, key: Text)
    requires MemberOf(fs, key).Some? && forall i :: 0 <= i < |fs| ==> WellFormed(fs[i].value)
    ensures WellFormed(MemberOf(fs, key).value)
    decreases |fs|
  {
    if fs[0].key != key {
      MemberIsWellFormed(fs[1..], key);
    }
  }

  lemma {:induction false} RedactItemsAt(denied: Denylist, xs: seq<Value>, i: nat)
    requires i < |xs|
    ensures RedactItems(denied, xs)[i] == Redact(denied, xs[i])
    decreases |xs|
  {
    if i > 0 {
      RedactItemsAt(denied, xs[1..], i - 1);
    }
  }

  /** One step into the redacted value. */
  lemma {:induction false} RedactedChild(denied: Denylist, v: Value, s: Step)
    requires WellFormed(v)
    ensures Child(v, s).Some? ==> WellFormed(Child(v, s).value)
    ensures Child(Redact(denied, v), s) ==
      if Child(v, s).None? then None
      else if Open(denied, s) then
        if s.Key? && (Child(v, s).value.Func? || Child(v, s).value.Sym?) then None
        else Some(Redact(denied, Child(v, s).value))
      else if s.key != PROTO then Some(REDACTED)
      else None
  {
    if s.Key? && v.Obj? {
      RedactedMember(denied, v.fields, s.key);
      if Child(v, s).Some? {
        MemberIsWellFormed(v.fields, s.key);
      }
    } else if s.Index? && v.Arr? && s.index < |v.items| {
      RedactItemsAt(denied, v.items, s.index);
    }
  }

  lemma RedactedAtOne(denied: Denylist, v: Value, path: Path)
    requires WellFormed(v) && |path| == 1
    ensures At(Redact(denied, v), path) == RedactedAt(denied, v, path)
  {
    RedactedChild(denied, v, path[0]);
    assert path[1..] == [];
    assert At(v, path) == Child(v, path[0]);
    assert At(Redact(denied, v), path) == Child(Redact(denied, v), path[0]);
  }

  lemma RedactedAtStep(denied: Denylist, v: Value, path: Path)
    requires |path| >= 2 && Child(v, path[0]).Some?
    ensures RedactedAt(denied, v, path) ==
      if Open(denied, path[0]) then RedactedAt(denied, Child(v, path[0]).value, path[1..]) else None
  {
    var rest := path[1..];
    assert rest[|rest| - 1] == path[|path| - 1];
    if i :| 0 <= i < |rest| - 1 && !Open(denied, rest[i]) {
      assert path[i + 1] == rest[i];
    }
    if i :| 0 <= i < |path| - 1 && !Open(denied, path[i]) {
      assert i > 0 ==> rest[i - 1] == path[i];
    }
  }

  /**
   * Redaction place by place, both ways. At a path that crosses no denylisted and no
   * `__proto__` member stands what stood there, redacted in its turn, so a primitive
   * unchanged; only functions and symbols held as members are gone. At a denylisted member
   * stands the placeholder, and below it nothing. No other path leads anywhere.
   */
  lemma {:induction false} RedactByPaths(denied: Denylist, v: Value, path: Path)
    requires WellFormed(v)
    ensures At(Redact(denied, v), path) == RedactedAt(denied, v, path)
    decreases |path|
  {
    if path != [] {
      RedactedChild(denied, v, path[0]);
      var c := Child(v, path[0]);
      if c.Some? {
        if |path| == 1 {
          RedactedAtOne(denied, v, path);
        } else {
          RedactedAtStep(denied, v, path);
          if Open(denied, path[0]) {
            if !(path[0].Key? && (c.value.Func? || c.value.Sym?)) {
              RedactByPaths(denied, c.value, path[1..]);
            }
          }
        }
      }
    }
  }

  /** Metadata the event schema accepts is redacted completely, and everywhere else it is kept, path by path. */
  lemma AcceptedMetadataFullyRedacted(denied: Denylist, v: Value, path: Path)
    requires WellFormed(v) && Levels(v) <= 5
    ensures NothingLeft(denied, SanitizeMetadata(denied, v, 0))
    ensures Innocent(denied, v) ==> SanitizeMetadata(denied, v, 0) == v
    ensures At(SanitizeMetadata(denied, v, 0), path) == RedactedAt(denied, v, path)
  {
    SanitizeIsRedact(denied, v, 0);
    RedactLeavesNothing(denied, v);
    RedactByPaths(denied, v, path);
    if Innocent(denied, v) {
      RedactKeepsInnocent(denied, v);
    }
  }

  /** The same primitive, or arrays of the same length, or two objects. */
  predicate SameKind(a: Value, b: Value) {
    if a.Arr? then b.Arr? && |a.items| == |b.items| else if a.Obj? then b.Obj? else a == b
  }

  ghost predicate OpenPath(denied: Denylist, path: Path) {
    forall i :: 0 <= i < |path| ==> Open(denied, path[i])
  }

  /**
   * The same for the words the sanitizer looks for, in the two readings a caller wants: what
   * stands under no sensitive key stays, functions and symbols aside, and what stands in the
   * result stood there before or is the placeholder under a sensitive key.
   */
  lemma SensitiveKeysRedacted(lower: Lower, v: Value, path: Path)
    requires WellFormed(v) && Levels(v) <= 5
    ensures var denied := k => IsDenylisted(lower, k);
      var before, after := At(v, path), At(SanitizeMetadata(denied, v, 0), path);
      && (OpenPath(denied, path) && before.Some? && !before.value.Func? && !before.value.Sym? ==>
            after.Some? && SameKind(before.value, after.value))
      && (after.Some? ==>
            && before.Some?
            && if OpenPath(denied, path) then SameKind(before.value, after.value)
               else path[|path| - 1].Key? && IsDenylisted(lower, path[|path| - 1].key) && after.value == REDACTED)
  {
    AcceptedMetadataFullyRedacted(k => IsDenylisted(lower, k), v, path);
  }

  /** The sensitive words, as the list spells them. */
  const SENSITIVE_WORDS: set<string> := {
    "password", "token", "cookie", "authorization", "auth", "secret",
    "answer", "answertext", "content", "body", "questiontext"
  }

  lemma WordsAreAscii(word: string)
    requires word in SENSITIVE_WORDS
    ensures forall i :: 0 <= i < |word| ==> word[i] as int < 128
  {
  }

  lemma ListedWord(word: string)
    requires word in SENSITIVE_WORDS && forall i :: 0 <= i < |word| ==> word[i] as int < 128
    ensures Lit(word) in DenylistedWords()
  {
    var ws := DenylistedWords();
    assert Lit("password") == ws[0] && Lit("token") == ws[1] && Lit("cookie") == ws[2] && Lit("authorization") == ws[3];
    assert Lit("auth") == ws[4] && Lit("secret") == ws[5] && Lit("answer") == ws[6] && Lit("answertext") == ws[7];
    assert Lit("content") == ws[8] && Lit("body") == ws[9] && Lit("questiontext") == ws[10];
  }

  lemma SensitiveWordDenies(lower: Lower, key: Text, word: string, at: nat)
    requires word in SENSITIVE_WORDS && at + |word| <= |key|
    requires forall i :: 0 <= i < |word| ==> lower(key[at + i]) == word[i] as int
    ensures IsDenylisted(lower, key)
  {
    WordsAreAscii(word);
    ListedWord(word);
    var words := DenylistedWords();
    var i :| 0 <= i < |words| && words[i] == Lit(word);
    assert OccursAt(MapText(key, lower), words[i], at);
  }

  lemma RedactedUnderOpenPath(denied: Denylist, v: Value, path: Path, key: Text)
    requires OpenPath(denied, path) && denied(key) && key != PROTO && At(v, path + [Key(key)]).Some?
    ensures RedactedAt(denied, v, path + [Key(key)]) == Some(REDACTED)
  {
    var full := path + [Key(key)];
    assert forall j :: 0 <= j < |full| - 1 ==> full[j] == path[j];
  }

  /**
   * A member whose key, case folded, has one of the sensitive words anywhere in it holds
   * the text "[redacted]" in sanitized metadata, wherever it stands under keys that do not.
   */
  lemma SensitiveMemberRedacted(lower: Lower, v: Value, path: Path, key: Text, word: string, at: nat)
    requires WellFormed(v) && Levels(v) <= 5 && At(v, path + [Key(key)]).Some?
    requires OpenPath(k => IsDenylisted(lower, k), path) && key != PROTO
    requires word in SENSITIVE_WORDS && at + |word| <= |key|
    requires forall i :: 0 <= i < |word| ==> lower(key[at + i]) == word[i] as int
    ensures At(SanitizeMetadata(k => IsDenylisted(lower, k), v, 0), path + [Key(key)]) == Some(Str(Lit("[redacted]")))
  {
    var denied := k => IsDenylisted(lower, k);
    SensitiveWordDenies(lower, key, word, at);
    AcceptedMetadataFullyRedacted(denied, v, path + [Key(key)]);
    RedactedUnderOpenPath(denied, v, path, key);
    assert REDACTED == Str(Lit("[redacted]"));
  }

  /** `n` objects nested under one harmless key, around a value. */
  function Nest(key: Text, n: nat, inner: Value): Value {
    if n == 0 then inner else Obj([Field(key, Nest(key, n - 1, inner))])
  }

  lemma {:induction false} NestLevels(key: Text, n: nat, inner: Value)
    ensures Levels(Nest(key, n, inner)) == n + Levels(inner)
    decreases n
  {
    if n > 0 {
      NestLevels(key, n - 1, inner);
      var fs := [Field(key, Nest(key, n - 1, inner))];
      assert FieldLevels(fs[1..]) == 0;
    }
  }

  /** Past the cap the walk hands the nested value over as it is. */
  lemma {:induction false} NestPassesThrough(denied: Denylist, key: Text, n: nat, depth: nat, inner: Value)
    requires !denied(key) && key != PROTO && !IsPrimitive(inner) && n >= 1 && depth + n == MAX_DEPTH + 1
    ensures SanitizeMetadata(denied, Nest(key, n, inner), depth) == Nest(key, n, inner)
    decreases n
  {
    var fs := [Field(key, Nest(key, n - 1, inner))];
    assert fs[1..] == [];
    if n > 1 {
      NestPassesThrough(denied, key, n - 1, depth + 1, inner);
    }
    assert SanitizeFields(denied, fs, depth) == fs;
  }

  /** Seven levels are always redacted completely; at eight a denylisted key can come through untouched. */
  lemma CompletenessEndsAtEightLevels(denied: Denylist, harmless: Text, secret: Text)
    requires !denied(harmless) && harmless != PROTO && denied(secret)
    ensures forall v :: Levels(v) <= 7 ==> SanitizeMetadata(denied, v, 0) == Redact(denied, v)
    ensures var v := Nest(harmless, 6, Obj([Field(secret, Null)]));
      Levels(v) == 8 && SanitizeMetadata(denied, v, 0) == v != Redact(denied, v)
  {
    forall v | Levels(v) <= 7
      ensures SanitizeMetadata(denied, v, 0) == Redact(denied, v)
    {
      SanitizeIsRedact(denied, v, 0);
    }
    var inner := Obj([Field(secret, Null)]);
    var v := Nest(harmless, 6, inner);
    NestLevels(harmless, 6, inner);
    var fs := [Field(secret, Null)];
    assert FieldLevels(fs) == Max(Levels(fs[0].value), FieldLevels(fs[1..]));
    NestPassesThrough(denied, harmless, 6, 0, inner);
    NestStaysDirty(denied, harmless, 6, inner);
    RedactLeavesNothing(denied, v);
  }

  lemma {:induction false} NestStaysDirty(denied: Denylist, key: Text, n: nat, inner: Value)
    requires !denied(key) && !NothingLeft(denied, inner)
    ensures !NothingLeft(denied, Nest(key, n, inner))
    decreases n
  {
    if n > 0 {
      NestStaysDirty(denied, key, n - 1, inner);
      var fs := [Field(key, Nest(key, n - 1, inner))];
      assert !NothingLeft(denied, fs[0].value);
    }
  }

  // ----- idempotence

  lemma {:induction false} SanitizeIdempotent(denied: Denylist, v: Value, depth: nat)
    ensures SanitizeMetadata(denied, SanitizeMetadata(denied, v, depth), depth) == SanitizeMetadata(denied, v, depth)
    decreases v, 1
  {
    if v.Arr? {
      SanitizeItemsIdempotent(denied, v.items, depth);
    } else if v.Obj? {
      SanitizeFieldsIdempotent(denied, v.fields, depth);
    }
  }

  lemma {:induction false} SanitizeItemsIdempotent(denied: Denylist, xs: seq<Value>, depth: nat)
    ensures SanitizeItems(denied, SanitizeItems(denied, xs, depth), depth) == SanitizeItems(denied, xs, depth)
    decreases xs, 0
  {
    if xs != [] {
      SanitizeIdempotent(denied, xs[0], depth + 1);
      SanitizeItemsIdempotent(denied, xs[1..], depth);
      assert SanitizeItems(denied, xs, depth)[1..] == SanitizeItems(denied, xs[1..], depth);
    }
  }

  lemma {:induction false} SanitizeEntryIdempotent(denied: Denylist, f: Field, depth: nat)
    requires SanitizedValue(denied, f, depth).Some?
    ensures SanitizedValue(denied, Field(f.key, SanitizedValue(denied, f, depth).value), depth)
         == SanitizedValue(denied, f, depth)
    decreases f, 2
  {
    if !denied(f.key) && !IsPrimitive(f.value) && depth + 1 <= MAX_DEPTH {
      SanitizeIdempotent(denied, f.value, depth + 1);
    }
  }

  lemma {:induction false} SanitizeFieldsIdempotent(denied: Denylist, fs: seq<Field>, depth: nat)
    ensures SanitizeFields(denied, SanitizeFields(denied, fs, depth), depth) == SanitizeFields(denied, fs, depth)
    decreases fs, 0
  {
    if fs != [] {
      SanitizeFieldsIdempotent(denied, fs[1..], depth);
      var kept := SanitizedValue(denied, fs[0], depth);
      if kept.Some? && fs[0].key != PROTO {
        SanitizeEntryIdempotent(denied, fs[0], depth);
        assert SanitizeFields(denied, fs, depth)[1..] == SanitizeFields(denied, fs[1..], depth);
      } else {
        assert SanitizeFields(denied, fs, depth) == SanitizeFields(denied, fs[1..], depth);
      }
    }
  }

  // ----- the walk as the loop that fills a record

  lemma {:induction false} SanitizeItemsAt(denied: Denylist, xs: seq<Value>, depth: nat, i: nat)
    requires i < |xs|
    ensures SanitizeItems(denied, xs, depth)[i] == SanitizeMetadata(denied, xs[i], depth + 1)
    decreases |xs|
  {
    if i > 0 {
      SanitizeItemsAt(denied, xs[1..], depth, i - 1);
    }
  }

  lemma {:induction false} SanitizeFieldsSnoc(denied: Denylist, fs: seq<Field>, f: Field, depth: nat)
    ensures SanitizeFields(denied, fs + [f], depth)
         == SanitizeFields(denied, fs, depth) + SanitizeFields(denied, [f], depth)
    decreases |fs|
  {
    if fs == [] {
      assert fs + [f] == [f];
    } else {
      assert (fs + [f])[1..] == fs[1..] + [f];
      SanitizeFieldsSnoc(denied, fs[1..], f, depth);
    }
  }

  /** The keys that survive are among the keys walked. */
  lemma {:induction false} SanitizeFieldsKeys(denied: Denylist, fs: seq<Field>, depth: nat)
    ensures forall x :: x in SanitizeFields(denied, fs, depth) ==> HasKey(fs, x.key)
    decreases |fs|
  {
    if fs != [] {
      SanitizeFieldsKeys(denied, fs[1..], depth);
      forall x | x in SanitizeFields(denied, fs, depth)
        ensures HasKey(fs, x.key)
      {
        if x in SanitizeFields(denied, fs[1..], depth) {
          var k :| 0 <= k < |fs[1..]| && fs[1..][k].key == x.key;
          assert fs[k + 1].key == x.key;
        } else {
          assert fs[0].key == x.key;
        }
      }
    }
  }

  lemma KeyAfterFirst(fs: seq<Field>, key: Text)
    requires Enumerated(fs) && fs != [] && HasKey(fs[1..], key)
    ensures fs[0].key != key && (IsIndex(key) ==> IsIndex(fs[0].key) && IndexLess(fs[0].key, key))
  {
    var k :| 0 <= k < |fs[1..]| && fs[1..][k].key == key;
    assert fs[k + 1].key == key;
  }

  /** A record walked in enumeration order stays in enumeration order. */
  lemma {:induction false} SanitizeFieldsEnumerated(denied: Denylist, fs: seq<Field>, depth: nat)
    requires Enumerated(fs)
    ensures Enumerated(SanitizeFields(denied, fs, depth))
    decreases |fs|
  {
    if fs != [] {
      SanitizeFieldsEnumerated(denied, fs[1..], depth);
      SanitizeFieldsKeys(denied, fs[1..], depth);
      var rest := SanitizeFields(denied, fs[1..], depth);
      forall j | 0 <= j < |rest|
        ensures rest[j].key != fs[0].key
        ensures IsIndex(rest[j].key) ==> IsIndex(fs[0].key) && IndexLess(fs[0].key, rest[j].key)
      {
        assert rest[j] in rest;
        KeyAfterFirst(fs, rest[j].key);
      }
      var kept := SanitizedValue(denied, fs[0], depth);
      if kept.Some? && fs[0].key != PROTO {
        EnumeratedCons(Field(fs[0].key, kept.value), rest);
      }
    }
  }

  lemma EnumeratedCons(f: Field, rest: seq<Field>)
    requires Enumerated(rest)
    requires forall j :: 0 <= j < |rest| ==>
      rest[j].key != f.key && (IsIndex(rest[j].key) ==> IsIndex(f.key) && IndexLess(f.key, rest[j].key))
    ensures Enumerated([f] + rest)
  {
  }

  /** Assigning the next entry extends the record by what the specification keeps of it. */
  lemma SanitizePutStep(denied: Denylist, fs: seq<Field>, i: nat, depth: nat)
    requires Enumerated(fs) && i < |fs|
    ensures var out := SanitizeFields(denied, fs[..i], depth);
      var kept := SanitizedValue(denied, fs[i], depth);
      SanitizeFields(denied, fs[..i + 1], depth) == if kept.None? then out else Put(out, Field(fs[i].key, kept.value))
  {
    var out := SanitizeFields(denied, fs[..i], depth);
    var kept := SanitizedValue(denied, fs[i], depth);
    assert fs[..i + 1] == fs[..i] + [fs[i]];
    SanitizeFieldsSnoc(denied, fs[..i], fs[i], depth);
    assert SanitizeFields(denied, [fs[i]][1..], depth) == [];
    if kept.Some? && fs[i].key != PROTO {
      assert Enumerated(fs[..i + 1]);
      SanitizeFieldsEnumerated(denied, fs[..i + 1], depth);
      assert SanitizeFields(denied, fs[..i + 1], depth) == out + [Field(fs[i].key, kept.value)];
      PutAppends(out, Field(fs[i].key, kept.value));
    }
  }

  method SanitizeLoop(denied: Denylist, v: Value, depth: nat) returns (r: Value)
    requires WellFormed(v)
    ensures r == SanitizeMetadata(denied, v, depth)
    decreases v, 1
  {
    if v.Arr? {
      var out := [];
      for i := 0 to |v.items|
        invariant |out| == i
        invariant forall j :: 0 <= j < i ==> out[j] == SanitizeItems(denied, v.items, depth)[j]
      {
        var item := v.items[i];
        if !IsPrimitive(item) {
          item := SanitizeLoop(denied, item, depth + 1);
        }
        SanitizeItemsAt(denied, v.items, depth, i);
        out := out + [item];
      }
      r := Arr(out);
    } else if v.Obj? {
      var out := FillSanitized(denied, v.fields, depth);
      r := Obj(out);
    } else {
      r := v;
    }
  }

  method FillSanitized(denied: Denylist, fs: seq<Field>, depth: nat) returns (out: seq<Field>)
    requires WellFormed(Obj(fs))
    ensures out == SanitizeFields(denied, fs, depth)
    decreases fs, 0
  {
    out := [];
    for i := 0 to |fs|
      invariant out == SanitizeFields(denied, fs[..i], depth)
    {
      SanitizePutStep(denied, fs, i, depth);
      var raw := fs[i].value;
      if denied(fs[i].key) {
        out := Put(out, Field(fs[i].key, REDACTED));
      } else if IsPrimitive(raw) {
        if !raw.Func? && !raw.Sym? {
          out := Put(out, fs[i]);
        }
      } else if depth + 1 > MAX_DEPTH {
        out := Put(out, fs[i]);
      } else {
        var clean := SanitizeLoop(denied, raw, depth + 1);
        out := Put(out, Field(fs[i].key, clean));
      }
    }
    assert fs[..|fs|] == fs;
  }

  // ----- the depth the walk's comment describes

  /** Nested objects and arrays; a primitive counts nothing. */
  function Containers(v: Value): nat
    decreases v, 1
  {
    match v
    case Arr(items) => 1 + ItemContainers(items)
    case Obj(fields) => 1 + FieldContainers(fields)
    case _ => 0
  }

  function ItemContainers(xs: seq<Value>): nat
    decreases xs, 0
  {
    if xs == [] then 0 else Max(Containers(xs[0]), ItemContainers(xs[1..]))
  }

  function FieldContainers(fs: seq<Field>): nat
    decreases fs, 0
  {
    if fs == [] then 0 else Max(Containers(fs[0].value), FieldContainers(fs[1..]))
  }

  lemma {:induction false} ItemBounds(xs: seq<Value>, i: nat)
    requires i < |xs|
    ensures Levels(xs[i]) <= ItemLevels(xs) && Containers(xs[i]) <= ItemContainers(xs)
    decreases |xs|
  {
    if i > 0 {
      ItemBounds(xs[1..], i - 1);
    }
  }

  lemma {:induction false} DeepestItem(xs: seq<Value>) returns (i: nat, j: nat)
    requires xs != []
    ensures i < |xs| && Levels(xs[i]) == ItemLevels(xs)
    ensures j < |xs| && Containers(xs[j]) == ItemContainers(xs)
    decreases |xs|
  {
    i, j := 0, 0;
    if |xs| > 1 {
      var a, b := DeepestItem(xs[1..]);
      if Levels(xs[0]) < ItemLevels(xs[1..]) {
        i := a + 1;
      }
      if Containers(xs[0]) < ItemContainers(xs[1..]) {
        j := b + 1;
      }
    }
  }

  lemma {:induction false} MemberBounds(fs: seq<Field>, key: Text)
    requires MemberOf(fs, key).Some?
    ensures Levels(MemberOf(fs, key).value) <= FieldLevels(fs)
    ensures Containers(MemberOf(fs, key).value) <= FieldContainers(fs)
    decreases |fs|
  {
    if fs[0].key != key {
      MemberBounds(fs[1..], key);
    }
  }

  lemma {:induction false} MemberPresent(fs: seq<Field>, i: nat)
    requires DistinctKeys(fs) && i < |fs|
    ensures MemberOf(fs, fs[i].key) == Some(fs[i].value)
    decreases |fs|
  {
    if i > 0 {
      assert fs[0].key != fs[i].key;
      MemberPresent(fs[1..], i - 1);
    }
  }

  lemma {:induction false} DeepestField(fs: seq<Field>) returns (i: nat, j: nat)
    requires fs != []
    ensures i < |fs| && Levels(fs[i].value) == FieldLevels(fs)
    ensures j < |fs| && Containers(fs[j].value) == FieldContainers(fs)
    decreases |fs|
  {
    i, j := 0, 0;
    if |fs| > 1 {
      var a, b := DeepestField(fs[1..]);
      if Levels(fs[0].value) < FieldLevels(fs[1..]) {
        i := a + 1;
      }
      if Containers(fs[0].value) < FieldContainers(fs[1..]) {
        j := b + 1;
      }
    }
  }

  lemma ChildIsShallower(v: Value, s: Step)
    requires WellFormed(v) && Child(v, s).Some?
    ensures !IsPrimitive(v) && WellFormed(Child(v, s).value)
    ensures Levels(Child(v, s).value) < Levels(v) && Containers(Child(v, s).value) < Containers(v)
  {
    if v.Arr? {
      ItemBounds(v.items, s.index);
    } else {
      MemberBounds(v.fields, s.key);
      MemberIsWellFormed(v.fields, s.key);
    }
  }

  predicate Empty(v: Value) {
    v == Arr([]) || v == Obj([])
  }

  /** A non-empty container has a child one level and one with one container below it. */
  lemma DeepestChildren(v: Value) returns (s: Step, z: Step)
    requires WellFormed(v) && !IsPrimitive(v) && !Empty(v)
    ensures Child(v, s).Some? && Levels(Child(v, s).value) == Levels(v) - 1
    ensures Child(v, z).Some? && Containers(Child(v, z).value) == Containers(v) - 1
  {
    if v.Arr? {
      var i, j := DeepestItem(v.items);
      s, z := Index(i), Index(j);
    } else {
      var i, j := DeepestField(v.fields);
      MemberPresent(v.fields, i);
      MemberPresent(v.fields, j);
      s, z := Key(v.fields[i].key), Key(v.fields[j].key);
    }
  }

  lemma {:induction false} PathsAreShort(v: Value, path: Path)
    requires WellFormed(v) && At(v, path).Some?
    ensures |path| < Levels(v) && |path| + Containers(At(v, path).value) <= Containers(v)
    ensures WellFormed(At(v, path).value)
    decreases |path|
  {
    if path != [] {
      ChildIsShallower(v, path[0]);
      PathsAreShort(Child(v, path[0]).value, path[1..]);
    }
  }

  lemma {:induction false} LongestPath(v: Value, n: nat) returns (path: Path)
    requires WellFormed(v) && n < Levels(v)
    ensures |path| == n && At(v, path).Some?
    decreases n
  {
    if n == 0 {
      path := [];
    } else {
      EmptyIsOneLevelWhen(v);
      var s, z := DeepestChildren(v);
      ChildIsShallower(v, s);
      var rest := LongestPath(Child(v, s).value, n - 1);
      path := [s] + rest;
      assert path[1..] == rest;
    }
  }

  lemma EmptyIsOneLevelWhen(v: Value)
    ensures IsPrimitive(v) || Empty(v) ==> Levels(v) == 1
  {
  }

  lemma {:induction false} AtSnoc(v: Value, path: Path, s: Step)
    requires At(v, path).Some?
    ensures At(v, path + [s]) == Child(At(v, path).value, s)
    decreases |path|
  {
    if path == [] {
      assert path + [s] == [s];
      assert At(v, [s]) == if Child(v, s).None? then None else At(Child(v, s).value, []);
    } else {
      assert (path + [s])[1..] == path[1..] + [s];
      AtSnoc(Child(v, path[0]).value, path[1..], s);
    }
  }

  lemma {:induction false} AtPrefix(v: Value, path: Path)
    requires path != [] && At(v, path).Some?
    ensures var front := path[..|path| - 1];
      At(v, front).Some? && Child(At(v, front).value, path[|path| - 1]) == At(v, path)
    decreases |path|
  {
    var front := path[..|path| - 1];
    if |path| == 1 {
      assert front == [] && path[1..] == [];
    } else {
      AtPrefix(Child(v, path[0]).value, path[1..]);
      assert path[1..][..|path[1..]| - 1] == front[1..];
    }
  }

  /** Every container at the deepest nesting is empty. */
  ghost predicate DeepestAreEmpty(v: Value) {
    forall path :: |path| + 1 == Containers(v) && At(v, path).Some? && !IsPrimitive(At(v, path).value) ==>
      Empty(At(v, path).value)
  }

  lemma LongestPathEndsInside(v: Value)
    requires WellFormed(v) && !IsPrimitive(v) && Levels(v) > Containers(v)
    ensures !DeepestAreEmpty(v)
  {
    var path := LongestPath(v, Containers(v));
    AtPrefix(v, path);
    var front := path[..|path| - 1];
    assert !Empty(At(v, front).value) && !IsPrimitive(At(v, front).value);
  }

  lemma NothingBelowDeepest(v: Value)
    requires WellFormed(v) && !IsPrimitive(v) && Levels(v) <= Containers(v)
    ensures DeepestAreEmpty(v)
  {
    forall path | |path| + 1 == Containers(v) && At(v, path).Some? && !IsPrimitive(At(v, path).value)
      ensures Empty(At(v, path).value)
    {
      PathsAreShort(v, path);
      if !Empty(At(v, path).value) {
        var s, z := DeepestChildren(At(v, path).value);
        AtSnoc(v, path, s);
        PathsAreShort(v, path + [s]);
      }
    }
  }

  /**
   * Exactly when the walk measures the documented depth of a container: when every container
   * at the deepest nesting is empty. Otherwise it measures one more.
   */
  lemma MeasuresDocumentedDepthIff(v: Value)
    requires WellFormed(v) && !IsPrimitive(v)
    ensures Levels(v) == Containers(v) <==> DeepestAreEmpty(v)
    ensures Levels(v) == Containers(v) || Levels(v) == Containers(v) + 1
  {
    LevelsAboveContainers(v);
    if Levels(v) > Containers(v) {
      LongestPathEndsInside(v);
    } else {
      NothingBelowDeepest(v);
    }
  }

  lemma {:induction false} LevelsAboveContainers(v: Value)
    requires WellFormed(v)
    ensures Containers(v) <= Levels(v) <= Containers(v) + 1
    decreases v
  {
    if !IsPrimitive(v) && !Empty(v) {
      var s, z := DeepestChildren(v);
      ChildIsShallower(v, s);
      ChildIsShallower(v, z);
      ChildSmaller(v, s);
      ChildSmaller(v, z);
      LevelsAboveContainers(Child(v, s).value);
      LevelsAboveContainers(Child(v, z).value);
    }
  }

  lemma {:induction false} ChildSmaller(v: Value, s: Step)
    requires Child(v, s).Some?
    ensures Child(v, s).value < v
  {
    if s.Key? {
      MemberSmaller(v.fields, s.key);
    }
  }

  lemma {:induction false} MemberSmaller(fs: seq<Field>, key: Text)
    requires MemberOf(fs, key).Some?
    ensures exists i :: 0 <= i < |fs| && MemberOf(fs, key).value == fs[i].value
    decreases |fs|
  {
    if fs[0].key != key {
      MemberSmaller(fs[1..], key);
      var i :| 0 <= i < |fs[1..]| && MemberOf(fs[1..], key).value == fs[1..][i].value;
      assert fs[i + 1] == fs[1..][i];
    }
  }

  lemma {:induction false} NestContainers(key: Text, n: nat, inner: Value)
    ensures Containers(Nest(key, n, inner)) == n + Containers(inner)
    decreases n
  {
    if n > 0 {
      NestContainers(key, n - 1, inner);
      var fs := [Field(key, Nest(key, n - 1, inner))];
      assert FieldContainers(fs) == Max(Containers(fs[0].value), FieldContainers(fs[1..]));
    }
  }

  /** Five nested objects around a number: five deep by the comment, six by the walk, and over the limit of five. */
  lemma DocumentedDepthFiveRejected(key: Text, number: Number)
    ensures var v := Nest(key, 5, Num(number));
      Containers(v) == 5 && Levels(v) == 6 && !(Levels(v) <= 5)
  {
    NestContainers(key, 5, Num(number));
    NestLevels(key, 5, Num(number));
  }

  // ----- the depth check of the event schema

  /** The tree of nodes the depth walk sees in a value. */
  function Shape(v: Value): MetadataDepth.Tree
    decreases v, 1
  {
    match v
    case Arr(items) => MetadataDepth.BranchTree(ItemShapes(items))
    case Obj(fields) => MetadataDepth.BranchTree(FieldShapes(fields))
    case _ => MetadataDepth.LeafTree
  }

  function ItemShapes(xs: seq<Value>): seq<MetadataDepth.Tree>
    decreases xs, 0
  {
    if xs == [] then [] else [Shape(xs[0])] + ItemShapes(xs[1..])
  }

  function FieldShapes(fs: seq<Field>): seq<MetadataDepth.Tree>
    decreases fs, 0
  {
    if fs == [] then [] else [Shape(fs[0].value)] + FieldShapes(fs[1..])
  }

  lemma {:induction false} MaxHeightCons(t: MetadataDepth.Tree, ts: seq<MetadataDepth.Tree>)
    ensures MetadataDepth.MaxHeight([t] + ts) == Max(MetadataDepth.Height(t), MetadataDepth.MaxHeight(ts))
    decreases |ts|
  {
    if ts == [] {
      assert [t] + ts == [t];
      assert [t][..0] == [];
    } else {
      assert ([t] + ts)[..|ts|] == [t] + ts[..|ts| - 1];
      MaxHeightCons(t, ts[..|ts| - 1]);
    }
  }

  lemma {:induction false} LevelsIsHeight(v: Value)
    ensures MetadataDepth.Height(Shape(v)) == Levels(v)
    decreases v, 1
  {
    if v.Arr? {
      ItemLevelsIsHeight(v.items);
    } else if v.Obj? {
      FieldLevelsIsHeight(v.fields);
    }
  }

  lemma {:induction false} ItemLevelsIsHeight(xs: seq<Value>)
    ensures MetadataDepth.MaxHeight(ItemShapes(xs)) == ItemLevels(xs)
    decreases xs, 0
  {
    if xs != [] {
      LevelsIsHeight(xs[0]);
      ItemLevelsIsHeight(xs[1..]);
      MaxHeightCons(Shape(xs[0]), ItemShapes(xs[1..]));
    }
  }

  lemma {:induction false} FieldLevelsIsHeight(fs: seq<Field>)
    ensures MetadataDepth.MaxHeight(FieldShapes(fs)) == FieldLevels(fs)
    decreases fs, 0
  {
    if fs != [] {
      LevelsIsHeight(fs[0].value);
      FieldLevelsIsHeight(fs[1..]);
      MaxHeightCons(Shape(fs[0].value), FieldShapes(fs[1..]));
    }
  }

  const MAX_BYTES: nat := 32 * 1024

  /**
   * The schema's metadata check. It accepts a parsed metadata object exactly when it has at
   * most five levels, the walk can finish it, and its JSON text has at most 32768 UTF-8 bytes.
   */
  method MetadataAccepted(g: MetadataDepth.Graph, root: MetadataDepth.NodeId, v: Value) returns (ok: bool)
    requires MetadataDepth.Closed(g) && v.Obj? && IsJson(v) && MetadataDepth.Unfolds(g, root, Shape(v))
    ensures ok <==>
      && Levels(v) <= 5 && MetadataDepth.Size(Shape(v)) <= MetadataDepth.VISIT_LIMIT
      && |Utf8Encode(Print(v))| <= MAX_BYTES
  {
    var d := MetadataDepth.MeasureDepth(g, root);
    LevelsIsHeight(v);
    forall t | MetadataDepth.Unfolds(g, root, t)
      ensures t == Shape(v)
    {
      MetadataDepth.UnfoldingUnique(g, root, t, Shape(v));
    }
    if d.Infinite? || d.depth > 5 {
      return false;
    }
    ThreePassLengthIsUtf8(Print(v));
    ok := Utf8ByteLength(Print(v)) <= MAX_BYTES;
  }
}
