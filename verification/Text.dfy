/** JavaScript strings: sequences of UTF-16 code units, compared unit by unit. */
module Text {
  type CodeUnit = u: nat | u < 0x10000

  type Text = seq<CodeUnit>

  /** JavaScript's `<` on strings, and the order of `Array.prototype.sort` without a comparator. */
  predicate Less(a: Text, b: Text)
    decreases |a|
  {
    b != [] && (a == [] || a[0] < b[0] || (a[0] == b[0] && Less(a[1..], b[1..])))
  }

  predicate IsDigit(u: CodeUnit) {
    48 <= u <= 57
  }

  lemma {:induction false} LessIrreflexive(a: Text)
    ensures !Less(a, a)
    decreases |a|
  {
    if a != [] {
      LessIrreflexive(a[1..]);
    }
  }

  lemma {:induction false} LessTotal(a: Text, b: Text)
    ensures Less(a, b) || a == b || Less(b, a)
    decreases |a|
  {
    if a != [] && b != [] && a[0] == b[0] {
      LessTotal(a[1..], b[1..]);
      assert a == [a[0]] + a[1..] && b == [b[0]] + b[1..];
    }
  }

  lemma {:induction false} LessTransitive(a: Text, b: Text, c: Text)
    requires Less(a, b) && Less(b, c)
    ensures Less(a, c)
    decreases |a|
  {
    if a != [] && a[0] == b[0] && b[0] == c[0] {
      LessTransitive(a[1..], b[1..], c[1..]);
    }
  }

  /** The texts agree up to k, where `a` has ended or has the smaller code unit. */
  ghost predicate DiffersAt(a: Text, b: Text, k: nat) {
    k <= |a| && k < |b| && a[..k] == b[..k] && (k == |a| || a[k] < b[k])
  }

  /** The order is the one of the first code unit that differs, a proper prefix coming first. */
  lemma {:induction false} LessByFirstDifference(a: Text, b: Text)
    ensures Less(a, b) <==> exists k: nat :: DiffersAt(a, b, k)
    decreases |a|
  {
    if a == [] || b == [] || a[0] != b[0] {
      assert b != [] && (a == [] || a[0] < b[0]) ==> DiffersAt(a, b, 0);
      assert forall k: nat :: DiffersAt(a, b, k) && k > 0 ==> a[..k][0] == b[..k][0];
    } else {
      LessByFirstDifference(a[1..], b[1..]);
      forall k: nat | DiffersAt(a[1..], b[1..], k)
        ensures DiffersAt(a, b, k + 1)
      {
        assert a[..k + 1] == [a[0]] + a[1..][..k] && b[..k + 1] == [b[0]] + b[1..][..k];
      }
      forall k: nat | DiffersAt(a, b, k)
        ensures k > 0 && DiffersAt(a[1..], b[1..], k - 1)
      {
        assert a[1..][..k - 1] == a[..k][1..] && b[1..][..k - 1] == b[..k][1..];
      }
    }
  }

  lemma LessAsymmetric(a: Text, b: Text)
    requires Less(a, b)
    ensures !Less(b, a) && a != b
  {
    LessIrreflexive(a);
    if Less(b, a) {
      LessTransitive(a, b, a);
    }
  }

  /** An ASCII literal as a JavaScript string. */
  function Lit(s: string): (t: Text)
    requires forall i :: 0 <= i < |s| ==> s[i] as int < 128
    ensures |t| == |s| && forall i :: 0 <= i < |s| ==> t[i] == s[i] as int
  {
    seq(|s|, i requires 0 <= i < |s| => s[i] as int)
  }

  /** Lower-casing, unit by unit; which map it is depends on the host's tables and locale. */
  type Lower = CodeUnit -> CodeUnit

  function MapText(s: Text, lower: Lower): (r: Text)
    ensures |r| == |s| && forall i :: 0 <= i < |s| ==> r[i] == lower(s[i])
  {
    if s == [] then [] else [lower(s[0])] + MapText(s[1..], lower)
  }

  predicate OccursAt(s: Text, part: Text, k: nat) {
    k + |part| <= |s| && s[k..k + |part|] == part
  }

  /** `String.prototype.includes` */
  predicate Includes(s: Text, part: Text) {
    exists k :: 0 <= k <= |s| && OccursAt(s, part, k)
  }

  /** White space and line terminators removed by `String.prototype.trim`. */
  predicate IsSpace(u: CodeUnit) {
    || 0x09 <= u <= 0x0D
    || u == 0x20 || u == 0xA0 || u == 0x1680
    || 0x2000 <= u <= 0x200A
    || u == 0x2028 || u == 0x2029 || u == 0x202F || u == 0x205F || u == 0x3000 || u == 0xFEFF
  }

  /** The units trimming removes, one by one: the white space and the line terminators of ECMAScript. */
  lemma SpacesListed(u: CodeUnit)
    ensures IsSpace(u) <==>
      u in [9, 10, 11, 12, 13, 32, 160, 5760, 8192, 8193, 8194, 8195, 8196, 8197, 8198, 8199, 8200, 8201, 8202,
            8232, 8233, 8239, 8287, 12288, 65279]
  {
  }

  ghost predicate AllSpace(s: Text) {
    forall i :: 0 <= i < |s| ==> IsSpace(s[i])
  }

  function TrimStart(s: Text): Text {
    if s != [] && IsSpace(s[0]) then TrimStart(s[1..]) else s
  }

  function TrimEnd(s: Text): Text {
    if s != [] && IsSpace(s[|s| - 1]) then TrimEnd(s[..|s| - 1]) else s
  }

  function Trim(s: Text): Text {
    TrimEnd(TrimStart(s))
  }

  /** A text with no white space at either end. */
  ghost predicate Trimmed(s: Text) {
    s != [] ==> !IsSpace(s[0]) && !IsSpace(s[|s| - 1])
  }

  lemma {:induction false} TrimEndOfPadded(s: Text, pad: Text)
    requires AllSpace(pad)
    ensures TrimEnd(s + pad) == TrimEnd(s)
    decreases |pad|
  {
    if pad == [] {
      assert s + pad == s;
    } else {
      assert (s + pad)[..|s + pad| - 1] == s + pad[..|pad| - 1];
      TrimEndOfPadded(s, pad[..|pad| - 1]);
    }
  }

  lemma {:induction false} TrimStartOfPadded(pad: Text, s: Text)
    requires AllSpace(pad)
    ensures TrimStart(pad + s) == TrimStart(s)
    decreases |pad|
  {
    if pad == [] {
      assert pad + s == s;
    } else {
      assert (pad + s)[1..] == pad[1..] + s;
      TrimStartOfPadded(pad[1..], s);
    }
  }

  lemma {:induction false} TrimStartShape(s: Text) returns (pad: Text)
    ensures AllSpace(pad) && s == pad + TrimStart(s)
    ensures TrimStart(s) != [] ==> !IsSpace(TrimStart(s)[0])
    decreases |s|
  {
    if s != [] && IsSpace(s[0]) {
      var rest := TrimStartShape(s[1..]);
      pad := [s[0]] + rest;
    } else {
      pad := [];
    }
  }

  lemma {:induction false} TrimEndShape(s: Text) returns (pad: Text)
    ensures AllSpace(pad) && s == TrimEnd(s) + pad
    ensures TrimEnd(s) != [] ==> !IsSpace(TrimEnd(s)[|TrimEnd(s)| - 1])
    decreases |s|
  {
    if s != [] && IsSpace(s[|s| - 1]) {
      var rest := TrimEndShape(s[..|s| - 1]);
      pad := rest + [s[|s| - 1]];
    } else {
      pad := [];
    }
  }

  lemma {:induction false} AllSpaceTrimsAway(s: Text)
    requires AllSpace(s)
    ensures TrimStart(s) == []
    decreases |s|
  {
    if s != [] {
      AllSpaceTrimsAway(s[1..]);
    }
  }

  /** `trim` cuts only white space, off the two ends, and leaves none there. */
  lemma TrimShape(s: Text) returns (front: Text, back: Text)
    ensures AllSpace(front) && AllSpace(back)
    ensures s == front + Trim(s) + back
    ensures Trimmed(Trim(s))
  {
    front := TrimStartShape(s);
    back := TrimEndShape(TrimStart(s));
    assert front + TrimStart(s) == front + Trim(s) + back;
  }

  /** Padding a text with white space does not change its trimmed form. */
  lemma TrimIgnoresPadding(front: Text, s: Text, back: Text)
    requires AllSpace(front) && AllSpace(back)
    ensures Trim(front + s + back) == Trim(s)
  {
    assert front + s + back == front + (s + back);
    TrimStartOfPadded(front, s + back);
    var lead := TrimStartShape(s);
    if TrimStart(s) == [] {
      assert s + back == lead + back;
      AllSpaceTrimsAway(lead + back);
    } else {
      assert s + back == lead + (TrimStart(s) + back);
      TrimStartOfPadded(lead, TrimStart(s) + back);
      assert TrimStart(TrimStart(s) + back) == TrimStart(s) + back;
      TrimEndOfPadded(TrimStart(s), back);
    }
  }

  lemma TrimOfTrimmed(s: Text)
    requires Trimmed(s)
    ensures Trim(s) == s
  {
  }

  lemma TrimIdempotent(s: Text)
    ensures Trim(Trim(s)) == Trim(s)
  {
    var _, _ := TrimShape(s);
    TrimOfTrimmed(Trim(s));
  }
}
