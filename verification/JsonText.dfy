/**
 * The text `JSON.stringify` prints (grammar of RFC 8259, sections 4 to 7) and its
 * unique readability: two values never share a text.
 */
module JsonText {
  import opened Prelude
  import opened Text
  import opened JsValues

  const QUOTE: CodeUnit := 34
  const BACKSLASH: CodeUnit := 92
  const COMMA: CodeUnit := 44
  const COLON: CodeUnit := 58
  const OPEN_ARRAY: CodeUnit := 91
  const CLOSE_ARRAY: CodeUnit := 93
  const OPEN_OBJECT: CodeUnit := 123
  const CLOSE_OBJECT: CodeUnit := 125

  predicate IsHigh(u: CodeUnit) {
    0xD800 <= u <= 0xDBFF
  }

  predicate IsLow(u: CodeUnit) {
    0xDC00 <= u <= 0xDFFF
  }

  predicate StartsWithPair(s: Text) {
    |s| >= 2 && IsHigh(s[0]) && IsLow(s[1])
  }

  // ----- strings

  function HexDigit(d: nat): CodeUnit
    requires d < 16
  {
    if d < 10 then 48 + d else 87 + d
  }

  function Hex4(u: CodeUnit): Text {
    [HexDigit(u / 4096), HexDigit(u / 256 % 16), HexDigit(u / 16 % 16), HexDigit(u % 16)]
  }

  function EscapeUnit(u: CodeUnit): Text {
    if u == QUOTE then [BACKSLASH, QUOTE]
    else if u == BACKSLASH then [BACKSLASH, BACKSLASH]
    else if u == 8 then [BACKSLASH, 98]
    else if u == 9 then [BACKSLASH, 116]
    else if u == 10 then [BACKSLASH, 110]
    else if u == 12 then [BACKSLASH, 102]
    else if u == 13 then [BACKSLASH, 114]
    else if u < 32 || IsHigh(u) || IsLow(u) then [BACKSLASH, 117] + Hex4(u)
    else [u]
  }

  /** Surrogate pairs are printed as they are, lone surrogates as escapes. */
  function Escape(s: Text): Text {
    if s == [] then []
    else if StartsWithPair(s) then s[..2] + Escape(s[2..])
    else EscapeUnit(s[0]) + Escape(s[1..])
  }

  function Quoted(s: Text): Text {
    [QUOTE] + Escape(s) + [QUOTE]
  }

  // ----- numbers

  function Decimal(n: nat): Text {
    if n < 10 then [48 + n] else Decimal(n / 10) + [48 + n % 10]
  }

  function DigitUnit(d: Digit): CodeUnit {
    var n: nat := d;
    48 + n
  }

  function Digits(ds: seq<Digit>): Text {
    if ds == [] then [] else [DigitUnit(ds[0])] + Digits(ds[1..])
  }

  function PrintFraction(ds: seq<Digit>): Text {
    if ds == [] then [] else [46] + Digits(ds)
  }

  function PrintExponent(e: Option<int>): Text {
    match e
    case None => []
    case Some(x) => [101] + (if x < 0 then [45] + Decimal(-x) else [43] + Decimal(x))
  }

  function PrintNumber(n: Number): Text {
    (if n.minus then [45] else []) + (Decimal(n.whole) + (PrintFraction(n.fraction) + PrintExponent(n.exponent)))
  }

  // ----- values

  function Join(parts: seq<Text>): Text {
    if parts == [] then []
    else if |parts| == 1 then parts[0]
    else parts[0] + ([COMMA] + Join(parts[1..]))
  }

  function Bracketed(open: CodeUnit, parts: seq<Text>, close: CodeUnit): Text {
    [open] + (Join(parts) + [close])
  }

  function Print(v: Value): Text
    decreases v, 1
  {
    match v
    case Null => [110, 117, 108, 108]
    case Bool(bit) => if bit then [116, 114, 117, 101] else [102, 97, 108, 115, 101]
    case Num(n) => PrintNumber(n)
    case Str(s) => Quoted(s)
    case Arr(items) => Bracketed(OPEN_ARRAY, PrintItems(items), CLOSE_ARRAY)
    case Obj(fields) => Bracketed(OPEN_OBJECT, PrintFields(fields), CLOSE_OBJECT)
    case _ => []
  }

  function PrintItems(xs: seq<Value>): seq<Text>
    decreases xs, 0
  {
    if xs == [] then [] else [Print(xs[0])] + PrintItems(xs[1..])
  }

  function PrintMember(key: Text, value: Text): Text {
    Quoted(key) + ([COLON] + value)
  }

  function PrintFields(fs: seq<Field>): seq<Text>
    decreases fs, 0
  {
    if fs == [] then [] else [PrintMember(fs[0].key, Print(fs[0].value))] + PrintFields(fs[1..])
  }

  // ----- cancelling equal fronts

  lemma Assoc<T>(a: seq<T>, b: seq<T>, c: seq<T>)
    ensures (a + b) + c == a + (b + c)
  {
  }

  lemma SameHead<T>(a: seq<T>, x: seq<T>, b: seq<T>, y: seq<T>)
    requires a != [] && b != [] && a + x == b + y
    ensures a[0] == b[0]
  {
    assert a[0] == (a + x)[0] == (b + y)[0] == b[0];
  }

  // ----- unique readability, strings

  lemma HexDigitInjective(a: nat, b: nat)
    requires a < 16 && b < 16 && HexDigit(a) == HexDigit(b)
    ensures a == b
  {
  }

  lemma SameNibble(a: nat, b: nat)
    requires a / 16 == b / 16 && HexDigit(a % 16) == HexDigit(b % 16)
    ensures a == b
  {
    HexDigitInjective(a % 16, b % 16);
    assert a == a / 16 * 16 + a % 16 && b == b / 16 * 16 + b % 16;
  }

  lemma Hex4Injective(u: CodeUnit, v: CodeUnit)
    requires Hex4(u) == Hex4(v)
    ensures u == v
  {
    var a, b := Hex4(u), Hex4(v);
    assert a[0] == b[0] && a[1] == b[1] && a[2] == b[2] && a[3] == b[3];
    HexDigitInjective(u / 4096, v / 4096);
    assert u / 4096 == u / 256 / 16 && v / 4096 == v / 256 / 16;
    SameNibble(u / 256, v / 256);
    assert u / 256 == u / 16 / 16 && v / 256 == v / 16 / 16;
    SameNibble(u / 16, v / 16);
    SameNibble(u, v);
  }

  /** The escapes of single code units form a prefix code. */
  lemma EscapeUnitPrefix(u: CodeUnit, v: CodeUnit, r: Text, s: Text)
    requires EscapeUnit(u) + r == EscapeUnit(v) + s
    ensures u == v && r == s
  {
    var a, b := EscapeUnit(u), EscapeUnit(v);
    assert a[0] == (a + r)[0] == (b + s)[0] == b[0];
    if a[0] == BACKSLASH {
      assert a[1] == (a + r)[1] == (b + s)[1] == b[1];
      if a[1] == 117 {
        assert Hex4(u) == (a + r)[2..6] == (b + s)[2..6] == Hex4(v);
        Hex4Injective(u, v);
      }
    }
    assert r == (a + r)[|a|..] == (b + s)[|b|..] == s;
  }

  lemma EscapeHead(s: Text)
    requires s != []
    ensures Escape(s) != [] && Escape(s)[0] != QUOTE
    ensures !StartsWithPair(s) ==> !IsHigh(Escape(s)[0])
  {
  }

  lemma EscapeEmptyPrefix(t: Text, r: Text, q: Text)
    requires [QUOTE] + r == Escape(t) + ([QUOTE] + q)
    ensures t == [] && r == q
  {
    if t != [] {
      EscapeHead(t);
      SameHead([QUOTE], r, Escape(t), [QUOTE] + q);
      assert false;
    }
    assert Escape(t) + ([QUOTE] + q) == [QUOTE] + q;
    Peel([QUOTE], r, [QUOTE], q);
  }

  lemma EscapePairStep(s: Text, t: Text, r: Text, q: Text)
    requires StartsWithPair(s) && t != []
    requires Escape(s) + r == Escape(t) + q
    ensures StartsWithPair(t) && s[..2] == t[..2] && Escape(s[2..]) + r == Escape(t[2..]) + q
  {
    EscapeHead(t);
    assert Escape(s) == s[..2] + Escape(s[2..]);
    SameHead(Escape(s), r, Escape(t), q);
    assert StartsWithPair(t);
    assert Escape(t) == t[..2] + Escape(t[2..]);
    Assoc(s[..2], Escape(s[2..]), r);
    Assoc(t[..2], Escape(t[2..]), q);
    Peel(s[..2], Escape(s[2..]) + r, t[..2], Escape(t[2..]) + q);
  }

  lemma EscapeUnitStep(s: Text, t: Text, r: Text, q: Text)
    requires s != [] && t != [] && !StartsWithPair(s) && !StartsWithPair(t)
    requires Escape(s) + r == Escape(t) + q
    ensures s[0] == t[0] && Escape(s[1..]) + r == Escape(t[1..]) + q
  {
    Assoc(EscapeUnit(s[0]), Escape(s[1..]), r);
    Assoc(EscapeUnit(t[0]), Escape(t[1..]), q);
    EscapeUnitPrefix(s[0], t[0], Escape(s[1..]) + r, Escape(t[1..]) + q);
  }

  lemma {:induction false} EscapePrefix(s: Text, t: Text, r: Text, q: Text)
    requires Escape(s) + ([QUOTE] + r) == Escape(t) + ([QUOTE] + q)
    ensures s == t && r == q
    decreases |s|
  {
    if s == [] {
      assert Escape(s) + ([QUOTE] + r) == [QUOTE] + r;
      EscapeEmptyPrefix(t, r, q);
    } else if t == [] {
      assert Escape(t) + ([QUOTE] + q) == [QUOTE] + q;
      EscapeEmptyPrefix(s, q, r);
    } else if StartsWithPair(s) {
      EscapePairStep(s, t, [QUOTE] + r, [QUOTE] + q);
      EscapePrefix(s[2..], t[2..], r, q);
      assert s == s[..2] + s[2..] && t == t[..2] + t[2..];
    } else {
      if StartsWithPair(t) {
        EscapePairStep(t, s, [QUOTE] + q, [QUOTE] + r);
      }
      EscapeUnitStep(s, t, [QUOTE] + r, [QUOTE] + q);
      EscapePrefix(s[1..], t[1..], r, q);
      assert s == [s[0]] + s[1..] && t == [t[0]] + t[1..];
    }
  }

  lemma QuotedPrefix(s: Text, t: Text, r: Text, q: Text)
    requires Quoted(s) + r == Quoted(t) + q
    ensures s == t && r == q
  {
    assert Quoted(s) + r == [QUOTE] + (Escape(s) + ([QUOTE] + r));
    assert Quoted(t) + q == [QUOTE] + (Escape(t) + ([QUOTE] + q));
    Peel([QUOTE], Escape(s) + ([QUOTE] + r), [QUOTE], Escape(t) + ([QUOTE] + q));
    EscapePrefix(s, t, r, q);
  }

  // ----- unique readability, numbers

  ghost predicate AllDigits(s: Text) {
    forall i :: 0 <= i < |s| ==> IsDigit(s[i])
  }

  ghost predicate NoDigitFirst(s: Text) {
    s != [] ==> !IsDigit(s[0])
  }

  lemma DigitRunUnique(a: Text, b: Text, r: Text, s: Text)
    requires AllDigits(a) && AllDigits(b) && NoDigitFirst(r) && NoDigitFirst(s)
    requires a + r == b + s
    ensures a == b && r == s
  {
    DigitRunNoShorter(a, b, r, s);
    DigitRunNoShorter(b, a, s, r);
    Peel(a, r, b, s);
  }

  lemma UnitAfterFront(a: Text, b: Text, r: Text, s: Text)
    requires a + r == b + s && |a| < |b|
    ensures r != [] && r[0] == b[|a|]
  {
    assert |a + r| == |b + s|;
    assert r[0] == (a + r)[|a|] == (b + s)[|a|] == b[|a|];
  }

  lemma DigitRunNoShorter(a: Text, b: Text, r: Text, s: Text)
    requires AllDigits(b) && NoDigitFirst(r) && a + r == b + s
    ensures |b| <= |a|
  {
    if |a| < |b| {
      UnitAfterFront(a, b, r, s);
      assert false;
    }
  }

  lemma {:induction false} DecimalDigits(n: nat)
    ensures AllDigits(Decimal(n)) && Decimal(n) != []
  {
    if n >= 10 {
      DecimalDigits(n / 10);
    }
  }

  lemma {:induction false} DecimalInjective(m: nat, n: nat)
    requires Decimal(m) == Decimal(n)
    ensures m == n
  {
    DecimalDigits(m / 10);
    DecimalDigits(n / 10);
    var a, b := Decimal(m), Decimal(n);
    assert a[|a| - 1] == 48 + m % 10 && b[|b| - 1] == 48 + n % 10;
    if m >= 10 && n >= 10 {
      assert a[..|a| - 1] == Decimal(m / 10) && b[..|b| - 1] == Decimal(n / 10);
      DecimalInjective(m / 10, n / 10);
    }
  }

  lemma DecimalPrefix(m: nat, n: nat, r: Text, s: Text)
    requires NoDigitFirst(r) && NoDigitFirst(s) && Decimal(m) + r == Decimal(n) + s
    ensures m == n && r == s
  {
    DecimalDigits(m);
    DecimalDigits(n);
    DigitRunUnique(Decimal(m), Decimal(n), r, s);
    DecimalInjective(m, n);
  }

  lemma {:induction false} DigitsInjective(a: seq<Digit>, b: seq<Digit>)
    ensures AllDigits(Digits(a))
    ensures Digits(a) == Digits(b) ==> a == b
    decreases |a|
  {
    if a != [] && b != [] {
      DigitsInjective(a[1..], b[1..]);
      if Digits(a) == Digits(b) {
        Peel([DigitUnit(a[0])], Digits(a[1..]), [DigitUnit(b[0])], Digits(b[1..]));
        assert a == [a[0]] + a[1..] && b == [b[0]] + b[1..];
      }
    } else if a != [] {
      DigitsInjective(a[1..], []);
    }
  }

  /** What may come after a value inside a JSON text. */
  ghost predicate Follows(r: Text) {
    r != [] ==> r[0] == COMMA || r[0] == CLOSE_ARRAY || r[0] == CLOSE_OBJECT
  }

  /** Two texts that no context can confuse: with anything that may follow a value, equal wholes have equal fronts. */
  ghost predicate UniqueFront(p: Text, q: Text) {
    forall r, s :: Follows(r) && Follows(s) && p + r == q + s ==> p == q && r == s
  }

  function Magnitude(x: int): nat {
    if x < 0 then -x else x
  }

  function SignUnit(x: int): CodeUnit {
    if x < 0 then 45 else 43
  }

  lemma ExponentShape(x: int, r: Text)
    ensures PrintExponent(Some(x)) + r == [101, SignUnit(x)] + (Decimal(Magnitude(x)) + r)
  {
    assert PrintExponent(Some(x)) == [101, SignUnit(x)] + Decimal(Magnitude(x));
  }

  lemma ExponentPrefix(x: Option<int>, y: Option<int>, r: Text, s: Text)
    requires Follows(r) && Follows(s) && PrintExponent(x) + r == PrintExponent(y) + s
    ensures x == y && r == s
  {
    assert x.None? ==> PrintExponent(x) + r == r;
    assert y.None? ==> PrintExponent(y) + s == s;
    if x.Some? {
      ExponentShape(x.value, r);
    }
    if y.Some? {
      ExponentShape(y.value, s);
    }
    if x.Some? && y.Some? {
      Peel([101, SignUnit(x.value)], Decimal(Magnitude(x.value)) + r,
           [101, SignUnit(y.value)], Decimal(Magnitude(y.value)) + s);
      assert [101, SignUnit(x.value)][1] == [101, SignUnit(y.value)][1];
      DecimalPrefix(Magnitude(x.value), Magnitude(y.value), r, s);
    }
  }

  lemma TailHasNoDigitFirst(x: Option<int>, r: Text)
    requires Follows(r)
    ensures NoDigitFirst(PrintExponent(x) + r)
    ensures PrintExponent(x) + r != [] ==> (PrintExponent(x) + r)[0] != 46
  {
  }

  lemma FractionPrefix(p: seq<Digit>, q: seq<Digit>, a: Text, b: Text)
    requires NoDigitFirst(a) && NoDigitFirst(b) && (a != [] ==> a[0] != 46) && (b != [] ==> b[0] != 46)
    requires PrintFraction(p) + a == PrintFraction(q) + b
    ensures p == q && a == b
  {
    assert p == [] ==> PrintFraction(p) + a == a;
    assert q == [] ==> PrintFraction(q) + b == b;
    assert p != [] ==> (PrintFraction(p) + a)[0] == 46;
    assert q != [] ==> (PrintFraction(q) + b)[0] == 46;
    if p != [] && q != [] {
      Assoc([46], Digits(p), a);
      Assoc([46], Digits(q), b);
      Peel([46], Digits(p) + a, [46], Digits(q) + b);
      DigitsInjective(p, q);
      DigitsInjective(q, p);
      DigitRunUnique(Digits(p), Digits(q), a, b);
    }
  }

  lemma FractionHasNoDigitFirst(p: seq<Digit>, a: Text)
    requires NoDigitFirst(a)
    ensures NoDigitFirst(PrintFraction(p) + a)
  {
  }

  function Unsigned(n: Number): Text {
    Decimal(n.whole) + (PrintFraction(n.fraction) + PrintExponent(n.exponent))
  }

  lemma UnsignedPrefix(m: Number, n: Number, r: Text, s: Text)
    requires Follows(r) && Follows(s) && Unsigned(m) + r == Unsigned(n) + s
    ensures m.whole == n.whole && m.fraction == n.fraction && m.exponent == n.exponent && r == s
  {
    var em, en := PrintExponent(m.exponent), PrintExponent(n.exponent);
    var fm, fn := PrintFraction(m.fraction), PrintFraction(n.fraction);
    TailHasNoDigitFirst(m.exponent, r);
    TailHasNoDigitFirst(n.exponent, s);
    FractionHasNoDigitFirst(m.fraction, em + r);
    FractionHasNoDigitFirst(n.fraction, en + s);
    NestedTail(Decimal(m.whole), fm, em, r);
    NestedTail(Decimal(n.whole), fn, en, s);
    DecimalPrefix(m.whole, n.whole, fm + (em + r), fn + (en + s));
    FractionPrefix(m.fraction, n.fraction, em + r, en + s);
    ExponentPrefix(m.exponent, n.exponent, r, s);
  }

  lemma NestedTail(a: Text, b: Text, c: Text, r: Text)
    ensures (a + (b + c)) + r == a + (b + (c + r))
  {
  }

  lemma NumberHead(n: Number)
    ensures PrintNumber(n) != []
    ensures PrintNumber(n)[0] == 45 || IsDigit(PrintNumber(n)[0])
    ensures PrintNumber(n)[0] == 45 <==> n.minus
  {
    DecimalDigits(n.whole);
  }

  lemma NumberPrefix(m: Number, n: Number, r: Text, s: Text)
    requires Follows(r) && Follows(s) && PrintNumber(m) + r == PrintNumber(n) + s
    ensures m == n && r == s
  {
    NumberHead(m);
    NumberHead(n);
    SameHead(PrintNumber(m), r, PrintNumber(n), s);
    var sign: Text := if m.minus then [45] else [];
    Assoc(sign, Unsigned(m), r);
    Assoc(sign, Unsigned(n), s);
    Peel(sign, Unsigned(m) + r, sign, Unsigned(n) + s);
    UnsignedPrefix(m, n, r, s);
  }

  // ----- unique readability, arrays and objects

  ghost predicate Parts(ps: seq<Text>) {
    forall i :: 0 <= i < |ps| ==> ps[i] != [] && ps[i][0] != CLOSE_ARRAY && ps[i][0] != CLOSE_OBJECT
  }

  ghost predicate AllUnique(ps: seq<Text>, qs: seq<Text>) {
    forall i, j :: 0 <= i < |ps| && 0 <= j < |qs| ==> UniqueFront(ps[i], qs[j])
  }

  ghost predicate IsClose(c: CodeUnit) {
    c == CLOSE_ARRAY || c == CLOSE_OBJECT
  }

  lemma JoinHead(ps: seq<Text>)
    requires Parts(ps) && ps != []
    ensures Join(ps) != [] && Join(ps)[0] == ps[0][0]
  {
  }

  /** What comes after the first part of a bracketed list. */
  ghost function AfterFirst(ps: seq<Text>, tail: Text): Text
    requires ps != []
  {
    if |ps| == 1 then tail else [COMMA] + (Join(ps[1..]) + tail)
  }

  lemma JoinShape(ps: seq<Text>, tail: Text)
    requires ps != []
    ensures Join(ps) + tail == ps[0] + AfterFirst(ps, tail)
  {
    if |ps| > 1 {
      Assoc(ps[0], [COMMA] + Join(ps[1..]), tail);
      Assoc([COMMA], Join(ps[1..]), tail);
    }
  }

  lemma {:induction false} JoinPrefix(ps: seq<Text>, qs: seq<Text>, close: CodeUnit, r: Text, s: Text)
    requires Parts(ps) && Parts(qs) && IsClose(close)
    requires AllUnique(ps, qs)
    requires Join(ps) + ([close] + r) == Join(qs) + ([close] + s)
    ensures ps == qs && r == s
    decreases |ps|
  {
    if ps == [] || qs == [] {
      JoinEmptyPrefix(ps, qs, close, r, s);
    } else {
      JoinShape(ps, [close] + r);
      JoinShape(qs, [close] + s);
      var x, y := AfterFirst(ps, [close] + r), AfterFirst(qs, [close] + s);
      assert UniqueFront(ps[0], qs[0]);
      assert ps[0] + x == qs[0] + y && Follows(x) && Follows(y);
      assert ps[0] == qs[0] && x == y;
      assert x[0] == y[0];
      assert |ps| == 1 <==> |qs| == 1;
      if |ps| == 1 {
        Peel([close], r, [close], s);
      } else {
        Peel([COMMA], Join(ps[1..]) + ([close] + r), [COMMA], Join(qs[1..]) + ([close] + s));
        JoinPrefix(ps[1..], qs[1..], close, r, s);
        assert ps == [ps[0]] + ps[1..] && qs == [qs[0]] + qs[1..];
      }
    }
  }

  lemma JoinEmptyPrefix(ps: seq<Text>, qs: seq<Text>, close: CodeUnit, r: Text, s: Text)
    requires Parts(ps) && Parts(qs) && IsClose(close) && (ps == [] || qs == [])
    requires Join(ps) + ([close] + r) == Join(qs) + ([close] + s)
    ensures ps == qs && r == s
  {
    assert ps == [] ==> Join(ps) + ([close] + r) == [close] + r;
    assert qs == [] ==> Join(qs) + ([close] + s) == [close] + s;
    if ps != [] {
      JoinHead(ps);
      SameHead(Join(ps), [close] + r, [close], s);
      assert false;
    }
    if qs != [] {
      JoinHead(qs);
      SameHead([close], r, Join(qs), [close] + s);
      assert false;
    }
    Peel([close], r, [close], s);
  }

  lemma BracketedPrefix(open: CodeUnit, close: CodeUnit, ps: seq<Text>, qs: seq<Text>)
    requires Parts(ps) && Parts(qs) && IsClose(close)
    requires AllUnique(ps, qs)
    ensures UniqueFront(Bracketed(open, ps, close), Bracketed(open, qs, close))
    ensures Bracketed(open, ps, close) == Bracketed(open, qs, close) ==> ps == qs
  {
    var p, q := Bracketed(open, ps, close), Bracketed(open, qs, close);
    forall r, s | p + r == q + s
      ensures ps == qs && r == s
    {
      NestedTail([open], Join(ps), [close], r);
      NestedTail([open], Join(qs), [close], s);
      Peel([open], Join(ps) + ([close] + r), [open], Join(qs) + ([close] + s));
      JoinPrefix(ps, qs, close, r, s);
    }
    assert p == q ==> p + [] == q + [];
  }

  lemma MemberPrefix(k: Text, l: Text, p: Text, q: Text)
    requires UniqueFront(p, q)
    ensures UniqueFront(PrintMember(k, p), PrintMember(l, q))
    ensures PrintMember(k, p) == PrintMember(l, q) ==> k == l && p == q
  {
    forall r, s | Follows(r) && Follows(s) && PrintMember(k, p) + r == PrintMember(l, q) + s
      ensures k == l && p == q && r == s
    {
      NestedTail(Quoted(k), [COLON], p, r);
      NestedTail(Quoted(l), [COLON], q, s);
      QuotedPrefix(k, l, [COLON] + (p + r), [COLON] + (q + s));
      Peel([COLON], p + r, [COLON], q + s);
    }
    assert PrintMember(k, p) == PrintMember(l, q) ==> PrintMember(k, p) + [] == PrintMember(l, q) + [];
  }

  // ----- unique readability, values

  /** The kind of a value and the kind the first unit of its text announces. */
  function KindOf(v: Value): nat {
    match v
    case Null => 0
    case Bool(bit) => if bit then 1 else 2
    case Num(_) => 3
    case Str(_) => 4
    case Arr(_) => 5
    case Obj(_) => 6
    case _ => 7
  }

  function KindOfHead(u: CodeUnit): nat {
    if u == 110 then 0 else if u == 116 then 1 else if u == 102 then 2
    else if u == 45 || IsDigit(u) then 3
    else if u == QUOTE then 4 else if u == OPEN_ARRAY then 5 else if u == OPEN_OBJECT then 6 else 7
  }

  lemma PrintHead(v: Value)
    requires IsJson(v)
    ensures Print(v) != [] && KindOfHead(Print(v)[0]) == KindOf(v) < 7
  {
    if v.Num? {
      NumberHead(v.number);
    }
  }

  lemma DifferentHeads(p: Text, q: Text)
    requires p != [] && q != [] && p[0] != q[0]
    ensures UniqueFront(p, q)
  {
    forall r, s | p + r == q + s
      ensures false
    {
      SameHead(p, r, q, s);
    }
  }

  lemma SameTextUniqueFront(p: Text)
    ensures UniqueFront(p, p)
  {
    forall r, s | p + r == p + s
      ensures r == s
    {
      Peel(p, r, p, s);
    }
  }

  lemma NumbersUnique(m: Number, n: Number)
    ensures UniqueFront(PrintNumber(m), PrintNumber(n))
    ensures PrintNumber(m) == PrintNumber(n) ==> m == n
  {
    forall r, s | Follows(r) && Follows(s) && PrintNumber(m) + r == PrintNumber(n) + s
      ensures m == n && r == s
    {
      NumberPrefix(m, n, r, s);
    }
    assert PrintNumber(m) == PrintNumber(n) ==> PrintNumber(m) + [] == PrintNumber(n) + [];
  }

  lemma StringsUnique(a: Text, b: Text)
    ensures UniqueFront(Quoted(a), Quoted(b))
    ensures Quoted(a) == Quoted(b) ==> a == b
  {
    forall r, s | Quoted(a) + r == Quoted(b) + s
      ensures a == b && r == s
    {
      QuotedPrefix(a, b, r, s);
    }
    assert Quoted(a) == Quoted(b) ==> Quoted(a) + [] == Quoted(b) + [];
  }

  /** A printed value is read off the front of any text in only one way, and its text determines it. */
  lemma {:induction false} PrintUnique(v: Value, w: Value)
    requires IsJson(v) && IsJson(w)
    ensures UniqueFront(Print(v), Print(w))
    ensures Print(v) == Print(w) ==> v == w
    decreases v, 1
  {
    PrintHead(v);
    PrintHead(w);
    if KindOf(v) != KindOf(w) {
      DifferentHeads(Print(v), Print(w));
    } else if v.Num? {
      NumbersUnique(v.number, w.number);
    } else if v.Str? {
      StringsUnique(v.text, w.text);
    } else if v.Arr? {
      ItemsUnique(v.items, w.items);
      BracketedPrefix(OPEN_ARRAY, CLOSE_ARRAY, PrintItems(v.items), PrintItems(w.items));
    } else if v.Obj? {
      FieldsUnique(v.fields, w.fields);
      BracketedPrefix(OPEN_OBJECT, CLOSE_OBJECT, PrintFields(v.fields), PrintFields(w.fields));
    } else {
      assert v == w;
      SameTextUniqueFront(Print(v));
    }
  }

  lemma {:induction false} PrintItemsAt(xs: seq<Value>, i: nat)
    requires i < |xs|
    ensures |PrintItems(xs)| == |xs| && PrintItems(xs)[i] == Print(xs[i])
    decreases |xs|
  {
    if |xs| > 1 {
      PrintItemsAt(xs[1..], if i > 0 then i - 1 else 0);
    }
  }

  lemma {:induction false} PrintFieldsAt(fs: seq<Field>, i: nat)
    requires i < |fs|
    ensures |PrintFields(fs)| == |fs| && PrintFields(fs)[i] == PrintMember(fs[i].key, Print(fs[i].value))
    decreases |fs|
  {
    if |fs| > 1 {
      PrintFieldsAt(fs[1..], if i > 0 then i - 1 else 0);
    }
  }

  lemma ItemParts(xs: seq<Value>)
    requires forall i :: 0 <= i < |xs| ==> IsJson(xs[i])
    ensures Parts(PrintItems(xs)) && |PrintItems(xs)| == |xs|
  {
    forall i | 0 <= i < |xs|
      ensures |PrintItems(xs)| == |xs|
      ensures PrintItems(xs)[i] != [] && !IsClose(PrintItems(xs)[i][0])
    {
      PrintItemsAt(xs, i);
      PrintHead(xs[i]);
    }
  }

  lemma FieldParts(fs: seq<Field>)
    ensures Parts(PrintFields(fs)) && |PrintFields(fs)| == |fs|
  {
    forall i | 0 <= i < |fs|
      ensures |PrintFields(fs)| == |fs|
      ensures PrintFields(fs)[i] != [] && !IsClose(PrintFields(fs)[i][0])
    {
      PrintFieldsAt(fs, i);
    }
  }

  ghost predicate PairUnique<T(!new)>(p: Text, q: Text, x: T, y: T) {
    UniqueFront(p, q) && (p == q ==> x == y)
  }

  /** Texts that determine their values one by one determine the whole sequence. */
  lemma PairsUnique<T(!new)>(ps: seq<Text>, qs: seq<Text>, xs: seq<T>, ys: seq<T>)
    requires |ps| == |xs| && |qs| == |ys|
    requires forall i, j :: 0 <= i < |xs| && 0 <= j < |ys| ==> PairUnique(ps[i], qs[j], xs[i], ys[j])
    ensures AllUnique(ps, qs) && (ps == qs ==> xs == ys)
  {
    if ps == qs {
      forall i | 0 <= i < |xs|
        ensures xs[i] == ys[i]
      {
        assert PairUnique(ps[i], qs[i], xs[i], ys[i]);
      }
    }
    forall i, j | 0 <= i < |ps| && 0 <= j < |qs|
      ensures UniqueFront(ps[i], qs[j])
    {
      assert PairUnique(ps[i], qs[j], xs[i], ys[j]);
    }
  }

  lemma {:induction false} ItemsUnique(xs: seq<Value>, ys: seq<Value>)
    requires forall i :: 0 <= i < |xs| ==> IsJson(xs[i])
    requires forall i :: 0 <= i < |ys| ==> IsJson(ys[i])
    ensures Parts(PrintItems(xs)) && Parts(PrintItems(ys))
    ensures AllUnique(PrintItems(xs), PrintItems(ys))
    ensures PrintItems(xs) == PrintItems(ys) ==> xs == ys
    decreases xs, 0
  {
    ItemParts(xs);
    ItemParts(ys);
    var ps, qs := PrintItems(xs), PrintItems(ys);
    forall i, j | 0 <= i < |xs| && 0 <= j < |ys|
      ensures PairUnique(ps[i], qs[j], xs[i], ys[j])
    {
      PrintItemsAt(xs, i);
      PrintItemsAt(ys, j);
      PrintUnique(xs[i], ys[j]);
    }
    PairsUnique(ps, qs, xs, ys);
  }

  function PrintField(f: Field): Text {
    PrintMember(f.key, Print(f.value))
  }

  lemma {:induction false} FieldUnique(f: Field, g: Field)
    requires IsJson(f.value) && IsJson(g.value)
    ensures UniqueFront(PrintField(f), PrintField(g))
    ensures PrintField(f) == PrintField(g) ==> f == g
    decreases f, 2
  {
    PrintUnique(f.value, g.value);
    MemberPrefix(f.key, g.key, Print(f.value), Print(g.value));
  }

  lemma {:induction false} FieldPairUnique(fs: seq<Field>, gs: seq<Field>, i: nat, j: nat)
    requires i < |fs| && j < |gs| && IsJson(fs[i].value) && IsJson(gs[j].value)
    requires |PrintFields(fs)| == |fs| && |PrintFields(gs)| == |gs|
    ensures UniqueFront(PrintFields(fs)[i], PrintFields(gs)[j])
    ensures PrintFields(fs)[i] == PrintFields(gs)[j] ==> fs[i] == gs[j]
    decreases fs, 0
  {
    PrintFieldsAt(fs, i);
    PrintFieldsAt(gs, j);
    FieldUnique(fs[i], gs[j]);
  }

  lemma {:induction false} FieldsUnique(fs: seq<Field>, gs: seq<Field>)
    requires forall i :: 0 <= i < |fs| ==> IsJson(fs[i].value)
    requires forall i :: 0 <= i < |gs| ==> IsJson(gs[i].value)
    ensures Parts(PrintFields(fs)) && Parts(PrintFields(gs))
    ensures AllUnique(PrintFields(fs), PrintFields(gs))
    ensures PrintFields(fs) == PrintFields(gs) ==> fs == gs
    decreases fs, 1
  {
    FieldParts(fs);
    FieldParts(gs);
    var ps, qs := PrintFields(fs), PrintFields(gs);
    forall i, j | 0 <= i < |fs| && 0 <= j < |gs|
      ensures PairUnique(ps[i], qs[j], fs[i], gs[j])
    {
      FieldPairUnique(fs, gs, i, j);
    }
    PairsUnique(ps, qs, fs, gs);
  }

  /** The printer is injective on the jsonb domain. */
  lemma PrintInjective(v: Value, w: Value)
    requires IsJson(v) && IsJson(w)
    ensures Print(v) == Print(w) <==> v == w
  {
    PrintUnique(v, w);
  }

  // ----- the texts of RFC 8259, said without the printer

  /** The value of a lower-case hexadecimal digit. */
  ghost predicate HexIs(u: CodeUnit, d: nat) {
    (d < 10 && u == 48 + d) || (10 <= d < 16 && u == 97 + (d - 10))
  }

  /** The escape `\uXXXX` of a unit. */
  ghost predicate HexEscape(u: CodeUnit, t: Text) {
    && |t| == 6 && t[..2] == Lit("\\u")
    && exists a: nat, b: nat, c: nat, d: nat ::
         && HexIs(t[2], a) && HexIs(t[3], b) && HexIs(t[4], c) && HexIs(t[5], d)
         && u == ((a * 16 + b) * 16 + c) * 16 + d
  }

  /** How one unit that is no part of a pair stands in a string (section 7). */
  ghost predicate UnitText(u: CodeUnit, t: Text) {
    if u == 0x22 then t == Lit("\\\"")
    else if u == 0x5C then t == Lit("\\\\")
    else if u == 0x08 then t == Lit("\\b")
    else if u == 0x09 then t == Lit("\\t")
    else if u == 0x0A then t == Lit("\\n")
    else if u == 0x0C then t == Lit("\\f")
    else if u == 0x0D then t == Lit("\\r")
    else if u <= 0x1F || 0xD800 <= u <= 0xDFFF then HexEscape(u, t)
    else t == [u]
  }

  /** Surrogate pairs stand as they are. */
  ghost predicate BodyText(s: Text, t: Text)
    decreases |s|
  {
    if s == [] then t == []
    else if |s| > 1 && 0xD800 <= s[0] <= 0xDBFF && 0xDC00 <= s[1] <= 0xDFFF then
      |t| >= 2 && t[..2] == s[..2] && BodyText(s[2..], t[2..])
    else exists k :: 0 <= k <= |t| && UnitText(s[0], t[..k]) && BodyText(s[1..], t[k..])
  }

  ghost predicate StringText(s: Text, t: Text) {
    |t| >= 2 && t[0] == 0x22 && t[|t| - 1] == 0x22 && BodyText(s, t[1..|t| - 1])
  }

  ghost function DecimalValue(t: Text): int {
    if t == [] then 0 else DecimalValue(t[..|t| - 1]) * 10 + t[|t| - 1] - 48
  }

  /** Decimal digits without a leading zero (section 6). */
  ghost predicate WholeText(n: nat, t: Text) {
    && t != [] && (forall i :: 0 <= i < |t| ==> 48 <= t[i] <= 57)
    && (t[0] == 48 ==> |t| == 1) && DecimalValue(t) == n
  }

  ghost predicate FractionText(ds: seq<Digit>, t: Text) {
    if ds == [] then t == []
    else |t| == 1 + |ds| && t[0] == 0x2E && forall i :: 0 <= i < |ds| ==> t[1 + i] == 48 + ds[i] as nat
  }

  ghost predicate ExponentText(e: Option<int>, t: Text) {
    match e
    case None => t == []
    case Some(x) =>
      |t| >= 2 && t[0] == 0x65 && t[1] == (if x < 0 then 0x2D else 0x2B) && WholeText(if x < 0 then -x else x, t[2..])
  }

  ghost predicate NumberText(n: Number, t: Text) {
    exists whole, fraction, exponent ::
      && t == (if n.minus then Lit("-") else []) + (whole + (fraction + exponent))
      && WholeText(n.whole, whole) && FractionText(n.fraction, fraction) && ExponentText(n.exponent, exponent)
  }

  /** Texts with commas between them. */
  ghost function Commas(ts: seq<Text>): Text {
    if ts == [] then []
    else if |ts| == 1 then ts[0]
    else Commas(ts[..|ts| - 1]) + Lit(",") + ts[|ts| - 1]
  }

  ghost predicate MemberText(key: Text, value: Text, t: Text) {
    exists k :: StringText(key, k) && t == k + Lit(":") + value
  }

  /** The JSON text of a value without white space, in the order of its members. */
  ghost predicate JsonTextOf(v: Value, t: Text)
    decreases v
  {
    match v
    case Null => t == Lit("null")
    case Bool(bit) => t == if bit then Lit("true") else Lit("false")
    case Num(n) => NumberText(n, t)
    case Str(s) => StringText(s, t)
    case Arr(items) =>
      exists ts: seq<Text> ::
        && |ts| == |items| && (forall i :: 0 <= i < |items| ==> JsonTextOf(items[i], ts[i]))
        && t == Lit("[") + Commas(ts) + Lit("]")
    case Obj(fields) =>
      exists ts: seq<Text>, vs: seq<Text> ::
        && |ts| == |vs| == |fields|
        && (forall i :: 0 <= i < |fields| ==> JsonTextOf(fields[i].value, vs[i]))
        && (forall i :: 0 <= i < |fields| ==> MemberText(fields[i].key, vs[i], ts[i]))
        && t == Lit("{") + Commas(ts) + Lit("}")
    case _ => false
  }

  lemma HexPositions(u: CodeUnit)
    ensures u == ((u / 4096 * 16 + u / 256 % 16) * 16 + u / 16 % 16) * 16 + u % 16
  {
  }

  lemma HexTextIs(a: nat, b: nat, c: nat, d: nat, u: CodeUnit, t: Text)
    requires a < 16 && b < 16 && c < 16 && d < 16
    requires u == ((a * 16 + b) * 16 + c) * 16 + d
    requires t == [BACKSLASH, 117, HexDigit(a), HexDigit(b), HexDigit(c), HexDigit(d)]
    ensures HexEscape(u, t)
  {
    assert t[..2] == Lit("\\u");
    assert HexIs(t[2], a) && HexIs(t[3], b) && HexIs(t[4], c) && HexIs(t[5], d);
  }

  lemma EscapeIsUnitText(u: CodeUnit)
    ensures UnitText(u, EscapeUnit(u))
  {
    if u < 32 || IsHigh(u) || IsLow(u) {
      HexPositions(u);
      HexTextIs(u / 4096, u / 256 % 16, u / 16 % 16, u % 16, u, [BACKSLASH, 117] + Hex4(u));
    }
  }

  lemma {:induction false} EscapeIsBodyText(s: Text)
    ensures BodyText(s, Escape(s))
    decreases |s|
  {
    if s == [] {
    } else if StartsWithPair(s) {
      EscapeIsBodyText(s[2..]);
      assert Escape(s)[2..] == Escape(s[2..]);
    } else {
      EscapeIsUnitText(s[0]);
      EscapeIsBodyText(s[1..]);
      var k := |EscapeUnit(s[0])|;
      assert Escape(s)[..k] == EscapeUnit(s[0]) && Escape(s)[k..] == Escape(s[1..]);
    }
  }

  lemma QuotedIsStringText(s: Text)
    ensures StringText(s, Quoted(s))
  {
    EscapeIsBodyText(s);
    assert Quoted(s)[1..|Quoted(s)| - 1] == Escape(s);
  }

  lemma {:induction false} DecimalIsWholeText(n: nat)
    ensures WholeText(n, Decimal(n)) && (n > 0 ==> Decimal(n)[0] != 48)
    decreases n
  {
    if n >= 10 {
      DecimalIsWholeText(n / 10);
      assert Decimal(n)[..|Decimal(n)| - 1] == Decimal(n / 10);
    } else {
      assert DecimalValue([48 + n]) == DecimalValue([]) * 10 + n;
    }
  }

  lemma {:induction false} DigitsAt(ds: seq<Digit>, i: nat)
    requires i < |ds|
    ensures |Digits(ds)| == |ds| && Digits(ds)[i] == 48 + ds[i] as nat
    decreases |ds|
  {
    if |ds| > 1 {
      DigitsAt(ds[1..], if i > 0 then i - 1 else 0);
    }
  }

  lemma FractionIsFractionText(ds: seq<Digit>)
    ensures FractionText(ds, PrintFraction(ds))
  {
    forall i | 0 <= i < |ds|
      ensures |Digits(ds)| == |ds| && Digits(ds)[i] == 48 + ds[i] as nat
    {
      DigitsAt(ds, i);
    }
  }

  lemma ExponentIsExponentText(e: Option<int>)
    ensures ExponentText(e, PrintExponent(e))
  {
    if e.Some? {
      var size := if e.value < 0 then -e.value else e.value;
      DecimalIsWholeText(size);
      assert PrintExponent(e)[2..] == Decimal(size);
    }
  }

  lemma NumberIsNumberText(n: Number)
    ensures NumberText(n, PrintNumber(n))
  {
    DecimalIsWholeText(n.whole);
    FractionIsFractionText(n.fraction);
    ExponentIsExponentText(n.exponent);
    assert Lit("-") == [45];
  }

  lemma {:induction false} JoinSnoc(ts: seq<Text>, t: Text)
    requires ts != []
    ensures Join(ts + [t]) == Join(ts) + Lit(",") + t
    decreases |ts|
  {
    assert Lit(",") == [COMMA];
    assert (ts + [t])[1..] == ts[1..] + [t];
    if |ts| > 1 {
      JoinSnoc(ts[1..], t);
    }
  }

  lemma {:induction false} JoinIsCommas(ts: seq<Text>)
    ensures Join(ts) == Commas(ts)
    decreases |ts|
  {
    if |ts| > 1 {
      var front := ts[..|ts| - 1];
      JoinIsCommas(front);
      JoinSnoc(front, ts[|ts| - 1]);
      assert ts == front + [ts[|ts| - 1]];
    }
  }

  lemma {:induction false} ItemsPrinted(xs: seq<Value>)
    requires forall i :: 0 <= i < |xs| ==> IsJson(xs[i])
    ensures |PrintItems(xs)| == |xs| && forall i :: 0 <= i < |xs| ==> JsonTextOf(xs[i], PrintItems(xs)[i])
    decreases xs, 0
  {
    ItemParts(xs);
    forall i | 0 <= i < |xs|
      ensures JsonTextOf(xs[i], PrintItems(xs)[i])
    {
      PrintItemsAt(xs, i);
      PrintIsJsonText(xs[i]);
    }
  }

  ghost function ValueTexts(fs: seq<Field>): (r: seq<Text>)
    ensures |r| == |fs| && forall i :: 0 <= i < |fs| ==> r[i] == Print(fs[i].value)
  {
    seq(|fs|, i requires 0 <= i < |fs| => Print(fs[i].value))
  }

  lemma {:induction false} FieldsPrinted(fs: seq<Field>)
    requires forall i :: 0 <= i < |fs| ==> IsJson(fs[i].value)
    ensures |PrintFields(fs)| == |fs|
    ensures forall i :: 0 <= i < |fs| ==> JsonTextOf(fs[i].value, ValueTexts(fs)[i])
    ensures forall i :: 0 <= i < |fs| ==> MemberText(fs[i].key, ValueTexts(fs)[i], PrintFields(fs)[i])
    decreases fs, 0
  {
    FieldParts(fs);
    forall i | 0 <= i < |fs|
      ensures JsonTextOf(fs[i].value, ValueTexts(fs)[i])
      ensures MemberText(fs[i].key, ValueTexts(fs)[i], PrintFields(fs)[i])
    {
      PrintFieldsAt(fs, i);
      PrintIsJsonText(fs[i].value);
      QuotedIsStringText(fs[i].key);
      assert Lit(":") == [COLON];
      assert PrintFields(fs)[i] == Quoted(fs[i].key) + Lit(":") + ValueTexts(fs)[i];
    }
  }

  lemma BracketsPrinted(items: seq<Value>, fields: seq<Field>)
    ensures Print(Arr(items)) == Lit("[") + Commas(PrintItems(items)) + Lit("]")
    ensures Print(Obj(fields)) == Lit("{") + Commas(PrintFields(fields)) + Lit("}")
  {
    JoinIsCommas(PrintItems(items));
    JoinIsCommas(PrintFields(fields));
    assert Lit("[") == [OPEN_ARRAY] && Lit("]") == [CLOSE_ARRAY];
    assert Lit("{") == [OPEN_OBJECT] && Lit("}") == [CLOSE_OBJECT];
  }

  lemma ArrayIsJsonText(items: seq<Value>)
    requires |PrintItems(items)| == |items|
    requires forall i :: 0 <= i < |items| ==> JsonTextOf(items[i], PrintItems(items)[i])
    ensures JsonTextOf(Arr(items), Print(Arr(items)))
  {
    BracketsPrinted(items, []);
  }

  lemma ObjectIsJsonText(fields: seq<Field>)
    requires |PrintFields(fields)| == |fields|
    requires forall i :: 0 <= i < |fields| ==> JsonTextOf(fields[i].value, ValueTexts(fields)[i])
    requires forall i :: 0 <= i < |fields| ==> MemberText(fields[i].key, ValueTexts(fields)[i], PrintFields(fields)[i])
    ensures JsonTextOf(Obj(fields), Print(Obj(fields)))
  {
    BracketsPrinted([], fields);
    assert |ValueTexts(fields)| == |PrintFields(fields)|;
  }

  /** What is printed is the JSON text of the value, for every kind of value of the jsonb domain. */
  lemma {:induction false} PrintIsJsonText(v: Value)
    requires IsJson(v)
    ensures JsonTextOf(v, Print(v))
    decreases v, 1
  {
    match v
    case Num(n) => NumberIsNumberText(n);
    case Str(s) => QuotedIsStringText(s);
    case Arr(items) =>
      ItemsPrinted(items);
      ArrayIsJsonText(items);
    case Obj(fields) =>
      FieldsPrinted(fields);
      ObjectIsJsonText(fields);
    case _ =>
  }
}
