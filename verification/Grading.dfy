/** The grading engine. Scores are exact reals. */
module Grading {
  import opened Prelude
  import opened Text
  import opened JsValues
  import opened Sorting

  datatype QuestionType = SingleChoice | TrueFalse | MultipleChoice | FillBlank | TextResponse

  datatype MultiSelectScoring = AllOrNothing | PartialHalf

  datatype MatchMode = Exact | Keyword

  datatype GradingRule = GradingRule(multiSelect: MultiSelectScoring, matchMode: MatchMode, caseSensitive: Option<bool>)

  datatype Question = Question(id: string, kind: QuestionType, standard: Value, score: real, rule: GradingRule)

  datatype QuestionResult = QuestionResult(
    questionId: string, score: real, maxScore: real, correct: bool, candidate: Value, standard: Value)

  datatype AnswerRecord = AnswerRecord(questionId: string, answer: Value)

  datatype ScoreResult = ScoreResult(totalScore: real, passed: bool, results: seq<QuestionResult>)

  function MakeResult(q: Question, candidate: Value, score: real): QuestionResult {
    QuestionResult(q.id, score, q.score, score == q.score, candidate, q.standard)
  }

  // ----- single choice and true/false

  /** `===`: primitives by value; the candidate's and the standard's objects are never the same object. */
  predicate StrictlyEqual(a: Value, b: Value) {
    !a.Arr? && !a.Obj? && !a.Func? && !a.Sym? && a == b
  }

  function GradePrecise(q: Question, candidate: Value): QuestionResult {
    MakeResult(q, candidate,
      if !candidate.Undefined? && !candidate.Null? && StrictlyEqual(candidate, q.standard) then q.score else 0.0)
  }

  // ----- multiple choice

  function StringsIn(items: seq<Value>): seq<Text> {
    if items == [] then []
    else (if items[0].Str? then [items[0].text] else []) + StringsIn(items[1..])
  }

  function ToStringArray(v: Value): seq<Text> {
    if v.Arr? then StringsIn(v.items) else []
  }

  /** `[...new Set(xs)]`: first occurrences, in order. */
  function Dedup(xs: seq<Text>): seq<Text> {
    if xs == [] then []
    else
      var front := Dedup(xs[..|xs| - 1]);
      if xs[|xs| - 1] in front then front else front + [xs[|xs| - 1]]
  }

  function Selection(v: Value): seq<Text> {
    Sort(Less, Dedup(ToStringArray(v)))
  }

  function GradeMultipleChoice(q: Question, candidate: Value): QuestionResult {
    var c := Selection(candidate);
    var s := Selection(q.standard);
    var hasWrong := exists i :: 0 <= i < |c| && c[i] !in s;
    var isComplete := |s| > 0 && |c| == |s| && forall i :: 0 <= i < |c| ==> c[i] == s[i];
    var isPartial := 0 < |c| < |s| && !hasWrong;
    MakeResult(q, candidate,
      if isComplete then q.score
      else if isPartial && q.rule.multiSelect == PartialHalf then q.score / 2.0
      else 0.0)
  }

  // ----- fill in the blank

  function NormalizeBlank(s: Text, caseSensitive: bool, lower: Lower): Text {
    if caseSensitive then Trim(s) else MapText(Trim(s), lower)
  }

  const BAR: CodeUnit := 124

  /** `split("|")` */
  function SplitBar(s: Text): (parts: seq<Text>)
    ensures parts != []
  {
    if s == [] then [[]]
    else
      var rest := SplitBar(s[1..]);
      if s[0] == BAR then [[]] + rest else [[s[0]] + rest[0]] + rest[1..]
  }

  predicate Accepts(rule: GradingRule, lower: Lower, candidate: Text, alternative: Text) {
    var caseSensitive := rule.caseSensitive == Some(true);
    var c := NormalizeBlank(candidate, caseSensitive, lower);
    var a := NormalizeBlank(alternative, caseSensitive, lower);
    a != [] && (if rule.matchMode == Keyword then Includes(c, a) else c == a)
  }

  predicate MatchesBlank(rule: GradingRule, lower: Lower, candidate: Value, standard: Value) {
    candidate.Str? && standard.Str? &&
    var parts := SplitBar(standard.text);
    exists i :: 0 <= i < |parts| && Accepts(rule, lower, candidate.text, parts[i])
  }

  /** `record[key]`, undefined when there is no such own property. */
  function Member(fs: seq<Field>, key: Text): Value {
    if fs == [] then Undefined else if fs[0].key == key then fs[0].value else Member(fs[1..], key)
  }

  /** Every entry of the standard record is matched by the candidate's member of the same key. */
  predicate RecordMatches(rule: GradingRule, lower: Lower, candidate: seq<Field>, entries: seq<Field>) {
    |entries| > 0 &&
    forall i :: 0 <= i < |entries| ==> MatchesBlank(rule, lower, Member(candidate, entries[i].key), entries[i].value)
  }

  function GradeFillBlank(q: Question, candidate: Value, lower: Lower): QuestionResult {
    var correct :=
      if q.standard.Obj? && candidate.Obj? then
        RecordMatches(q.rule, lower, candidate.fields, q.standard.fields)
      else MatchesBlank(q.rule, lower, candidate, q.standard);
    MakeResult(q, candidate, if correct then q.score else 0.0)
  }

  // ----- a whole attempt

  function GradeQuestion(q: Question, candidate: Value, lower: Lower): QuestionResult {
    match q.kind
    case SingleChoice | TrueFalse => GradePrecise(q, candidate)
    case MultipleChoice => GradeMultipleChoice(q, candidate)
    case FillBlank => GradeFillBlank(q, candidate, lower)
    case TextResponse => MakeResult(q, candidate, 0.0)
  }

  /** `new Map(answers.map(...))`: later records replace earlier ones. */
  function AnswerMap(answers: seq<AnswerRecord>): map<string, AnswerRecord> {
    if answers == [] then map[]
    else
      var last := answers[|answers| - 1];
      AnswerMap(answers[..|answers| - 1])[last.questionId := last]
  }

  function AnswerFor(m: map<string, AnswerRecord>, id: string): Value {
    if id in m then m[id].answer else Undefined
  }

  function GradeAll(qs: seq<Question>, m: map<string, AnswerRecord>, lower: Lower): (r: seq<QuestionResult>)
    ensures |r| == |qs|
    ensures forall i :: 0 <= i < |qs| ==> r[i] == GradeQuestion(qs[i], AnswerFor(m, qs[i].id), lower)
  {
    if qs == [] then [] else [GradeQuestion(qs[0], AnswerFor(m, qs[0].id), lower)] + GradeAll(qs[1..], m, lower)
  }

  /** `reduce` from the left. */
  function SumScores(acc: real, rs: seq<QuestionResult>): real
    decreases |rs|
  {
    if rs == [] then acc else SumScores(acc + rs[0].score, rs[1..])
  }

  function GradeAnswers(qs: seq<Question>, answers: seq<AnswerRecord>, passingScore: real, lower: Lower): ScoreResult {
    var results := GradeAll(qs, AnswerMap(answers), lower);
    var total := SumScores(0.0, results);
    ScoreResult(total, total >= passingScore, results)
  }

  // ===== multiple choice: the set specification

  ghost function TextSet(v: Value): set<Text> {
    if v.Arr? then set i | 0 <= i < |v.items| && v.items[i].Str? :: v.items[i].text else {}
  }

  /** Full credit for exactly the standard set, half for a proper non-empty part of it, else nothing. */
  ghost function SetScore(rule: GradingRule, score: real, chosen: set<Text>, standard: set<Text>): real {
    if standard != {} && chosen == standard then score
    else if rule.multiSelect == PartialHalf && chosen != {} && chosen < standard then score / 2.0
    else 0.0
  }

  ghost predicate SortedTexts(s: seq<Text>) {
    forall i, j :: 0 <= i < j < |s| ==> Less(s[i], s[j])
  }

  ghost function Elements(s: seq<Text>): set<Text> {
    set x | x in s
  }

  ghost predicate Distinct(xs: seq<Text>) {
    forall i, j :: 0 <= i < j < |xs| ==> xs[i] != xs[j]
  }

  lemma LessOrders()
    ensures Transitive(Less) && Asymmetric(Less)
  {
    forall x, y, z | Less(x, y) && Less(y, z)
      ensures Less(x, z)
    {
      LessTransitive(x, y, z);
    }
    forall x, y | Less(x, y)
      ensures !Less(y, x)
    {
      LessAsymmetric(x, y);
    }
  }

  lemma SortTextsSorts(xs: seq<Text>)
    requires Distinct(xs)
    ensures SortedTexts(Sort(Less, xs)) && |Sort(Less, xs)| == |xs|
    ensures forall y :: y in Sort(Less, xs) <==> y in xs
  {
    LessOrders();
    forall i, j | 0 <= i < j < |xs|
      ensures Less(xs[i], xs[j]) || Less(xs[j], xs[i])
    {
      LessTotal(xs[i], xs[j]);
    }
    SortSorts(Less, xs);
  }

  lemma {:induction false} DedupDistinct(xs: seq<Text>)
    ensures Distinct(Dedup(xs)) && forall y :: y in Dedup(xs) <==> y in xs
    decreases |xs|
  {
    if xs != [] {
      var front := xs[..|xs| - 1];
      DedupDistinct(front);
      assert xs == front + [xs[|xs| - 1]];
    }
  }

  lemma {:induction false} StringsInElements(items: seq<Value>)
    ensures forall y :: y in StringsIn(items) <==> exists i :: 0 <= i < |items| && items[i].Str? && items[i].text == y
    decreases |items|
  {
    if items != [] {
      StringsInElements(items[1..]);
      forall y
        ensures y in StringsIn(items) <==> exists i :: 0 <= i < |items| && items[i].Str? && items[i].text == y
      {
        if y in StringsIn(items[1..]) {
          var i :| 0 <= i < |items[1..]| && items[1..][i].Str? && items[1..][i].text == y;
          assert items[i + 1] == items[1..][i];
        }
        if i :| 0 < i < |items| && items[i].Str? && items[i].text == y {
          assert items[1..][i - 1] == items[i];
        }
      }
    }
  }

  /** The sorted selection lists the chosen set, each text once, in order. */
  lemma SelectionListsSet(v: Value)
    ensures SortedTexts(Selection(v)) && Elements(Selection(v)) == TextSet(v) && |Selection(v)| == |TextSet(v)|
  {
    var xs := ToStringArray(v);
    if v.Arr? {
      StringsInElements(v.items);
    }
    DedupDistinct(xs);
    SortTextsSorts(Dedup(xs));
    SortedSize(Selection(v));
  }

  lemma {:induction false} SortedSize(s: seq<Text>)
    requires SortedTexts(s)
    ensures |Elements(s)| == |s|
    decreases |s|
  {
    if s != [] {
      SortedSize(s[1..]);
      forall j | 0 < j < |s|
        ensures s[j] != s[0]
      {
        LessAsymmetric(s[0], s[j]);
      }
      assert s[0] !in s[1..];
      assert Elements(s) == Elements(s[1..]) + {s[0]};
    }
  }

  /** Scoring by sorted, de-duplicated comparison is scoring by sets, for every pair of answers. */
  lemma MultipleChoiceIsSetScore(q: Question, candidate: Value)
    ensures GradeMultipleChoice(q, candidate).score
         == SetScore(q.rule, q.score, TextSet(candidate), TextSet(q.standard))
  {
    var c, s := Selection(candidate), Selection(q.standard);
    SelectionListsSet(candidate);
    SelectionListsSet(q.standard);
    SelectionsCompareAsSets(c, s);
  }

  /** Length and element comparisons of two sorted lists, as statements about their sets. */
  lemma SelectionsCompareAsSets(c: seq<Text>, s: seq<Text>)
    requires SortedTexts(c) && SortedTexts(s)
    ensures (|c| == |s| && forall i :: 0 <= i < |c| ==> c[i] == s[i]) <==> Elements(c) == Elements(s)
    ensures (exists i :: 0 <= i < |c| && c[i] !in s) <==> !(Elements(c) <= Elements(s))
    ensures Elements(c) <= Elements(s) ==> (|c| < |s| <==> Elements(c) != Elements(s))
    ensures |c| == 0 <==> Elements(c) == {}
    ensures |s| == 0 <==> Elements(s) == {}
  {
    SortedSize(c);
    SortedSize(s);
    if |c| == |s| && forall i :: 0 <= i < |c| ==> c[i] == s[i] {
      assert c == s;
    }
    if Elements(c) == Elements(s) {
      LessOrders();
      assert forall x :: x in c <==> x in Elements(c);
      assert forall x :: x in s <==> x in Elements(s);
      SortedUnique(Less, c, s);
    }
    if Elements(c) <= Elements(s) {
      SubsetSize(Elements(c), Elements(s));
    } else {
      var x :| x in Elements(c) && x !in Elements(s);
      var i :| 0 <= i < |c| && c[i] == x;
      assert c[i] !in s;
    }
    if i :| 0 <= i < |c| && c[i] !in s {
      assert c[i] in Elements(c);
    }
  }

  /**
   * Order, repetition and non-string noise do not matter; correct selections never lose credit;
   * a wrong one loses it all.
   */
  lemma MultipleChoiceLaws(q: Question, a: Value, b: Value)
    requires q.score >= 0.0
    ensures TextSet(a) == TextSet(b) ==> GradeMultipleChoice(q, a).score == GradeMultipleChoice(q, b).score
    ensures TextSet(a) <= TextSet(b) <= TextSet(q.standard) ==>
              GradeMultipleChoice(q, a).score <= GradeMultipleChoice(q, b).score
    ensures !(TextSet(a) <= TextSet(q.standard)) ==> GradeMultipleChoice(q, a).score == 0.0
  {
    MultipleChoiceIsSetScore(q, a);
    MultipleChoiceIsSetScore(q, b);
  }

  // ===== fill in the blank

  lemma {:induction false} SplitOverBar(s: Text, t: Text)
    ensures SplitBar(s + [BAR] + t) == SplitBar(s) + SplitBar(t)
    decreases |s|
  {
    if s == [] {
      assert s + [BAR] + t == [BAR] + t;
      assert ([BAR] + t)[1..] == t;
    } else {
      assert (s + [BAR] + t)[1..] == s[1..] + [BAR] + t;
      SplitOverBar(s[1..], t);
    }
  }

  function JoinBar(parts: seq<Text>): Text
    requires parts != []
  {
    if |parts| == 1 then parts[0] else parts[0] + [BAR] + JoinBar(parts[1..])
  }

  ghost predicate BarFree(s: Text) {
    forall i :: 0 <= i < |s| ==> s[i] != BAR
  }

  lemma {:induction false} SplitBarFree(s: Text)
    requires BarFree(s)
    ensures SplitBar(s) == [s]
    decreases |s|
  {
    if s != [] {
      SplitBarFree(s[1..]);
      assert [s[0]] + s[1..] == s;
    }
  }

  /** Splitting at bars is the inverse of joining with them. */
  lemma {:induction false} SplitBarInvertsJoin(parts: seq<Text>)
    requires parts != [] && forall i :: 0 <= i < |parts| ==> BarFree(parts[i])
    ensures SplitBar(JoinBar(parts)) == parts
    decreases |parts|
  {
    SplitBarFree(parts[0]);
    if |parts| > 1 {
      SplitBarInvertsJoin(parts[1..]);
      SplitOverBar(parts[0], JoinBar(parts[1..]));
      assert [parts[0]] + parts[1..] == parts;
    }
  }

  lemma {:induction false} JoinInvertsSplitBar(s: Text)
    ensures JoinBar(SplitBar(s)) == s
    ensures forall i :: 0 <= i < |SplitBar(s)| ==> BarFree(SplitBar(s)[i])
    decreases |s|
  {
    if s != [] {
      JoinInvertsSplitBar(s[1..]);
      var rest := SplitBar(s[1..]);
      var parts := SplitBar(s);
      if s[0] == BAR {
        assert parts[1..] == rest;
      } else {
        assert BarFree(rest[0]);
        assert parts[1..] == rest[1..];
      }
    }
  }

  /** Two units as a rule compares them: the same, or folded to the same unless case matters. */
  ghost predicate SameUnit(rule: GradingRule, lower: Lower, u: CodeUnit, v: CodeUnit) {
    if rule.caseSensitive == Some(true) then u == v else lower(u) == lower(v)
  }

  /** From index k on, the text reads like the part, unit by unit. */
  ghost predicate ReadsAt(rule: GradingRule, lower: Lower, text: Text, part: Text, k: nat) {
    k + |part| <= |text| && forall j :: 0 <= j < |part| ==> SameUnit(rule, lower, text[k + j], part[j])
  }

  /** A text earns an alternative: not a blank one, and equal to it or containing it, white space at the ends aside. */
  ghost predicate Earns(rule: GradingRule, lower: Lower, text: Text, alternative: Text) {
    && Trim(alternative) != []
    && if rule.matchMode == Exact
       then |Trim(text)| == |Trim(alternative)| && ReadsAt(rule, lower, Trim(text), Trim(alternative), 0)
       else exists k :: ReadsAt(rule, lower, Trim(text), Trim(alternative), k)
  }

  lemma OccursReads(rule: GradingRule, lower: Lower, text: Text, part: Text, k: nat)
    ensures var cs := rule.caseSensitive == Some(true);
      OccursAt(if cs then text else MapText(text, lower), if cs then part else MapText(part, lower), k)
      <==> ReadsAt(rule, lower, text, part, k)
  {
    var cs := rule.caseSensitive == Some(true);
    var t, p := if cs then text else MapText(text, lower), if cs then part else MapText(part, lower);
    if k + |part| <= |text| {
      var stretch := t[k..k + |p|];
      forall j | 0 <= j < |part|
        ensures stretch[j] == p[j] <==> SameUnit(rule, lower, text[k + j], part[j])
      {
        assert stretch[j] == t[k + j];
      }
      assert stretch == p <==> forall j :: 0 <= j < |p| ==> stretch[j] == p[j];
    }
  }

  lemma AcceptsIsEarns(rule: GradingRule, lower: Lower, text: Text, alternative: Text)
    ensures Accepts(rule, lower, text, alternative) <==> Earns(rule, lower, text, alternative)
  {
    var cs := rule.caseSensitive == Some(true);
    var c, a := NormalizeBlank(text, cs, lower), NormalizeBlank(alternative, cs, lower);
    forall k: nat
      ensures OccursAt(c, a, k) <==> ReadsAt(rule, lower, Trim(text), Trim(alternative), k)
    {
      OccursReads(rule, lower, Trim(text), Trim(alternative), k);
    }
    assert c == a <==> |c| == |a| && OccursAt(c, a, 0);
    if k: nat :| ReadsAt(rule, lower, Trim(text), Trim(alternative), k) {
      assert OccursAt(c, a, k);
    }
  }

  /**
   * Credit for a text blank, unit by unit: some alternative between the bars is not blank,
   * and the candidate's trimmed text is that alternative, or in keyword mode contains it,
   * with case folded unless the rule says that case matters.
   */
  lemma BlankCreditIff(rule: GradingRule, lower: Lower, c: Value, alternatives: seq<Text>)
    requires alternatives != [] && forall i :: 0 <= i < |alternatives| ==> BarFree(alternatives[i])
    ensures MatchesBlank(rule, lower, c, Str(JoinBar(alternatives)))
       <==> c.Str? && exists i :: 0 <= i < |alternatives| && Earns(rule, lower, c.text, alternatives[i])
  {
    SplitBarInvertsJoin(alternatives);
    if c.Str? {
      forall i | 0 <= i < |alternatives|
        ensures Accepts(rule, lower, c.text, alternatives[i]) <==> Earns(rule, lower, c.text, alternatives[i])
      {
        AcceptsIsEarns(rule, lower, c.text, alternatives[i]);
      }
    }
  }

  lemma {:induction false} MemberFound(fs: seq<Field>, key: Text, j: nat)
    requires DistinctKeys(fs) && j < |fs| && fs[j].key == key
    ensures Member(fs, key) == fs[j].value
    decreases |fs|
  {
    if j > 0 {
      assert fs[0].key != key;
      MemberFound(fs[1..], key, j - 1);
    }
  }

  lemma {:induction false} MemberMissing(fs: seq<Field>, key: Text)
    requires forall j :: 0 <= j < |fs| ==> fs[j].key != key
    ensures Member(fs, key) == Undefined
    decreases |fs|
  {
    if fs != [] {
      MemberMissing(fs[1..], key);
    }
  }

  /** The candidate has a member under the entry's key whose value earns it. */
  ghost predicate EntryEarned(rule: GradingRule, lower: Lower, fs: seq<Field>, entry: Field) {
    exists j :: 0 <= j < |fs| && fs[j].key == entry.key && MatchesBlank(rule, lower, fs[j].value, entry.value)
  }

  lemma EntryEarnedIsMember(rule: GradingRule, lower: Lower, fs: seq<Field>, entry: Field)
    requires DistinctKeys(fs)
    ensures MatchesBlank(rule, lower, Member(fs, entry.key), entry.value) <==> EntryEarned(rule, lower, fs, entry)
  {
    if j :| 0 <= j < |fs| && fs[j].key == entry.key {
      MemberFound(fs, entry.key, j);
    } else {
      MemberMissing(fs, entry.key);
    }
  }

  /**
   * Credit in record form, entry by entry: there is at least one entry, and for every entry of
   * the standard the candidate has a member of the same key whose value earns it.
   */
  lemma RecordCreditIff(q: Question, candidate: Value, lower: Lower)
    requires q.kind == FillBlank && q.standard.Obj? && candidate.Obj? && DistinctKeys(candidate.fields)
    ensures GradeQuestion(q, candidate, lower).score ==
      if q.standard.fields != []
         && forall i :: 0 <= i < |q.standard.fields| ==>
              EntryEarned(q.rule, lower, candidate.fields, q.standard.fields[i])
      then q.score else 0.0
  {
    forall i | 0 <= i < |q.standard.fields|
      ensures var f := q.standard.fields[i];
        EntryEarned(q.rule, lower, candidate.fields, f) <==>
        MatchesBlank(q.rule, lower, Member(candidate.fields, f.key), f.value)
    {
      EntryEarnedIsMember(q.rule, lower, candidate.fields, q.standard.fields[i]);
    }
  }

  /** Appending an alternative after a bar adds exactly that alternative. */
  lemma AppendedAlternative(rule: GradingRule, lower: Lower, c: Value, s: Text, t: Text)
    ensures MatchesBlank(rule, lower, c, Str(s + [BAR] + t))
       <==> MatchesBlank(rule, lower, c, Str(s)) || MatchesBlank(rule, lower, c, Str(t))
  {
    SplitOverBar(s, t);
    if c.Str? {
      SomeAcceptedConcat(rule, lower, c.text, SplitBar(s), SplitBar(t));
    }
  }

  ghost predicate SomeAccepted(rule: GradingRule, lower: Lower, c: Text, parts: seq<Text>) {
    exists i :: 0 <= i < |parts| && Accepts(rule, lower, c, parts[i])
  }

  lemma SomeAcceptedConcat(rule: GradingRule, lower: Lower, c: Text, a: seq<Text>, b: seq<Text>)
    ensures SomeAccepted(rule, lower, c, a + b) <==> SomeAccepted(rule, lower, c, a) || SomeAccepted(rule, lower, c, b)
  {
    var all := a + b;
    if i :| 0 <= i < |a| && Accepts(rule, lower, c, a[i]) {
      assert all[i] == a[i];
    }
    if i :| 0 <= i < |b| && Accepts(rule, lower, c, b[i]) {
      assert all[|a| + i] == b[i];
    }
  }

  /** What earns credit in exact mode earns it in keyword mode. */
  lemma ExactImpliesKeyword(rule: GradingRule, lower: Lower, c: Value, s: Value)
    requires rule.matchMode == Exact && MatchesBlank(rule, lower, c, s)
    ensures MatchesBlank(rule.(matchMode := Keyword), lower, c, s)
  {
    var parts := SplitBar(s.text);
    var i :| 0 <= i < |parts| && Accepts(rule, lower, c.text, parts[i]);
    var n := NormalizeBlank(c.text, rule.caseSensitive == Some(true), lower);
    assert OccursAt(n, n, 0);
    assert Accepts(rule.(matchMode := Keyword), lower, c.text, parts[i]);
  }

  lemma {:induction false} SplitOfBlanks(s: Text)
    requires forall i :: 0 <= i < |s| ==> IsSpace(s[i]) || s[i] == BAR
    ensures forall k :: 0 <= k < |SplitBar(s)| ==> AllSpace(SplitBar(s)[k])
    decreases |s|
  {
    if s != [] {
      SplitOfBlanks(s[1..]);
      var rest := SplitBar(s[1..]);
      assert AllSpace(rest[0]);
    }
  }

  /** Blank alternatives never match: a standard of white space and bars accepts nothing. */
  lemma BlankStandardAcceptsNothing(rule: GradingRule, lower: Lower, c: Value, s: Text)
    requires forall i :: 0 <= i < |s| ==> IsSpace(s[i]) || s[i] == BAR
    ensures !MatchesBlank(rule, lower, c, Str(s))
  {
    SplitOfBlanks(s);
    var parts := SplitBar(s);
    forall i | c.Str? && 0 <= i < |parts|
      ensures !Accepts(rule, lower, c.text, parts[i])
    {
      AllSpaceTrimsAway(parts[i]);
    }
  }

  /** White space around the candidate's text does not matter. */
  lemma CandidatePaddingIgnored(rule: GradingRule, lower: Lower, front: Text, c: Text, back: Text, s: Value)
    requires AllSpace(front) && AllSpace(back)
    ensures MatchesBlank(rule, lower, Str(front + c + back), s) == MatchesBlank(rule, lower, Str(c), s)
  {
    TrimIgnoresPadding(front, c, back);
    if s.Str? {
      var parts := SplitBar(s.text);
      assert forall i :: 0 <= i < |parts| ==>
        Accepts(rule, lower, front + c + back, parts[i]) == Accepts(rule, lower, c, parts[i]);
    }
  }

  /** In record form only the standard's keys are looked at. */
  lemma OnlyStandardKeysMatter(q: Question, a: seq<Field>, b: seq<Field>, lower: Lower)
    requires q.standard.Obj?
    requires forall i :: 0 <= i < |q.standard.fields| ==>
               Member(a, q.standard.fields[i].key) == Member(b, q.standard.fields[i].key)
    ensures GradeFillBlank(q, Obj(a), lower).score == GradeFillBlank(q, Obj(b), lower).score
  {
    SameMembersSameMatch(q.rule, lower, a, b, q.standard.fields);
  }

  lemma SameMembersSameMatch(rule: GradingRule, lower: Lower, a: seq<Field>, b: seq<Field>, entries: seq<Field>)
    requires forall i :: 0 <= i < |entries| ==> Member(a, entries[i].key) == Member(b, entries[i].key)
    ensures RecordMatches(rule, lower, a, entries) == RecordMatches(rule, lower, b, entries)
  {
    forall i | 0 <= i < |entries|
      ensures MatchesBlank(rule, lower, Member(a, entries[i].key), entries[i].value)
           == MatchesBlank(rule, lower, Member(b, entries[i].key), entries[i].value)
    {
    }
  }

  // ===== whole attempts

  lemma FillBlankCredit(q: Question, candidate: Value, lower: Lower)
    requires q.kind == FillBlank
    ensures q.standard.Str? ==>
      GradeQuestion(q, candidate, lower).score ==
        if MatchesBlank(q.rule, lower, candidate, q.standard) then q.score else 0.0
    ensures q.standard.Obj? && candidate.Obj? ==>
      GradeQuestion(q, candidate, lower).score ==
        if RecordMatches(q.rule, lower, candidate.fields, q.standard.fields) then q.score else 0.0
    ensures !q.standard.Str? && !(q.standard.Obj? && candidate.Obj?) ==>
      GradeQuestion(q, candidate, lower).score == 0.0
  {
  }

  lemma ResultNamesQuestion(q: Question, candidate: Value, lower: Lower)
    ensures var r := GradeQuestion(q, candidate, lower);
      && (r.correct <==> r.score == q.score) && r.questionId == q.id && r.maxScore == q.score
      && r.candidate == candidate && r.standard == q.standard
  {
  }

  /** What each kind of question gives: strict equality, the set score, the blanks, or nothing. */
  lemma QuestionCredit(q: Question, candidate: Value, lower: Lower)
    ensures q.kind == SingleChoice || q.kind == TrueFalse ==>
      GradeQuestion(q, candidate, lower).score ==
        if candidate == q.standard && (candidate.Str? || candidate.Bool? || candidate.Num?) then q.score else 0.0
    ensures q.kind == MultipleChoice ==>
      GradeQuestion(q, candidate, lower).score == SetScore(q.rule, q.score, TextSet(candidate), TextSet(q.standard))
    ensures q.kind == FillBlank && q.standard.Str? ==>
      GradeQuestion(q, candidate, lower).score ==
        if MatchesBlank(q.rule, lower, candidate, q.standard) then q.score else 0.0
    ensures q.kind == FillBlank && q.standard.Obj? && candidate.Obj? ==>
      GradeQuestion(q, candidate, lower).score ==
        if RecordMatches(q.rule, lower, candidate.fields, q.standard.fields) then q.score else 0.0
    ensures q.kind == FillBlank && !q.standard.Str? && !(q.standard.Obj? && candidate.Obj?) ==>
      GradeQuestion(q, candidate, lower).score == 0.0
    ensures q.kind == TextResponse ==> GradeQuestion(q, candidate, lower).score == 0.0
    ensures var r := GradeQuestion(q, candidate, lower);
      && (r.correct <==> r.score == q.score) && r.questionId == q.id && r.maxScore == q.score
      && r.candidate == candidate && r.standard == q.standard
  {
    ResultNamesQuestion(q, candidate, lower);
    if q.kind == FillBlank {
      FillBlankCredit(q, candidate, lower);
    } else if q.kind == MultipleChoice {
      MultipleChoiceIsSetScore(q, candidate);
    }
  }

  /** The last record for a question, looked for from the end. */
  ghost function LastAnswer(answers: seq<AnswerRecord>, id: string): Value {
    if answers == [] then Undefined
    else if answers[|answers| - 1].questionId == id then answers[|answers| - 1].answer
    else LastAnswer(answers[..|answers| - 1], id)
  }

  lemma {:induction false} MapHoldsLastAnswer(answers: seq<AnswerRecord>, id: string)
    ensures AnswerFor(AnswerMap(answers), id) == LastAnswer(answers, id)
    decreases |answers|
  {
    if answers != [] {
      MapHoldsLastAnswer(answers[..|answers| - 1], id);
    }
  }

  lemma ScoreWithinBounds(q: Question, candidate: Value, lower: Lower)
    requires q.score >= 0.0
    ensures 0.0 <= GradeQuestion(q, candidate, lower).score <= q.score
    ensures q.kind == TextResponse ==> GradeQuestion(q, candidate, lower).score == 0.0
    ensures GradeQuestion(q, candidate, lower).questionId == q.id
  {
  }

  /** Sum of the scores, right to left, as a reference for the fold. */
  ghost function Total(rs: seq<QuestionResult>): real {
    if rs == [] then 0.0 else Total(rs[..|rs| - 1]) + rs[|rs| - 1].score
  }

  ghost function MaxTotal(qs: seq<Question>): real {
    if qs == [] then 0.0 else MaxTotal(qs[..|qs| - 1]) + qs[|qs| - 1].score
  }

  lemma {:induction false} TotalCons(r: QuestionResult, rs: seq<QuestionResult>)
    ensures Total([r] + rs) == r.score + Total(rs)
    decreases |rs|
  {
    if rs == [] {
      assert [r] + rs == [r];
      assert Total([r]) == Total([]) + r.score;
    } else {
      assert ([r] + rs)[..|rs|] == [r] + rs[..|rs| - 1];
      TotalCons(r, rs[..|rs| - 1]);
    }
  }

  lemma {:induction false} SumIsTotal(acc: real, rs: seq<QuestionResult>)
    ensures SumScores(acc, rs) == acc + Total(rs)
    decreases |rs|
  {
    if rs != [] {
      SumIsTotal(acc + rs[0].score, rs[1..]);
      TotalCons(rs[0], rs[1..]);
      assert rs == [rs[0]] + rs[1..];
    }
  }

  lemma {:induction false} TotalWithinBounds(qs: seq<Question>, rs: seq<QuestionResult>)
    requires |qs| == |rs| && forall i :: 0 <= i < |qs| ==> 0.0 <= rs[i].score <= qs[i].score
    ensures 0.0 <= Total(rs) <= MaxTotal(qs)
    decreases |qs|
  {
    if qs != [] {
      TotalWithinBounds(qs[..|qs| - 1], rs[..|rs| - 1]);
    }
  }

  /**
   * gradeAnswers is the per-question specification on the last record of each question:
   * one result per question in order, their sum as total, and pass by that total.
   */
  lemma GradeAnswersIsPerQuestion(qs: seq<Question>, answers: seq<AnswerRecord>, passing: real, lower: Lower)
    ensures var r := GradeAnswers(qs, answers, passing, lower);
      && |r.results| == |qs|
      && (forall i :: 0 <= i < |qs| ==> r.results[i] == GradeQuestion(qs[i], LastAnswer(answers, qs[i].id), lower))
      && r.totalScore == Total(r.results)
      && (r.passed <==> Total(r.results) >= passing)
  {
    forall i | 0 <= i < |qs|
      ensures AnswerFor(AnswerMap(answers), qs[i].id) == LastAnswer(answers, qs[i].id)
    {
      MapHoldsLastAnswer(answers, qs[i].id);
    }
    SumIsTotal(0.0, GradeAll(qs, AnswerMap(answers), lower));
  }

  /** With non-negative scores the total lies between zero and the sum of the maximum scores. */
  lemma {:induction false} TotalBounded(qs: seq<Question>, answers: seq<AnswerRecord>, passing: real, lower: Lower)
    requires forall i :: 0 <= i < |qs| ==> qs[i].score >= 0.0
    ensures 0.0 <= GradeAnswers(qs, answers, passing, lower).totalScore <= MaxTotal(qs)
  {
    var r := GradeAnswers(qs, answers, passing, lower);
    GradeAnswersIsPerQuestion(qs, answers, passing, lower);
    forall i | 0 <= i < |qs|
      ensures 0.0 <= r.results[i].score <= qs[i].score
    {
      ScoreWithinBounds(qs[i], LastAnswer(answers, qs[i].id), lower);
    }
    TotalWithinBounds(qs, r.results);
  }

  /** Only each question's last record counts: other records and reorderings change nothing. */
  lemma OnlyLastRecordsMatter(
    qs: seq<Question>, a: seq<AnswerRecord>, b: seq<AnswerRecord>, passing: real, lower: Lower
  )
    requires forall i :: 0 <= i < |qs| ==> LastAnswer(a, qs[i].id) == LastAnswer(b, qs[i].id)
    ensures GradeAnswers(qs, a, passing, lower) == GradeAnswers(qs, b, passing, lower)
  {
    GradeAnswersIsPerQuestion(qs, a, passing, lower);
    GradeAnswersIsPerQuestion(qs, b, passing, lower);
    assert GradeAnswers(qs, a, passing, lower).results == GradeAnswers(qs, b, passing, lower).results;
  }

  /** A record for a question that is not in the attempt changes nothing, wherever it stands. */
  lemma {:induction false} UnknownRecordInvisible(
    before: seq<AnswerRecord>, extra: AnswerRecord, after: seq<AnswerRecord>, id: string
  )
    requires extra.questionId != id
    ensures LastAnswer(before + [extra] + after, id) == LastAnswer(before + after, id)
    decreases |after|
  {
    var long, short := before + [extra] + after, before + after;
    if after == [] {
      assert long[..|long| - 1] == before && short == before;
    } else {
      var front := after[..|after| - 1];
      assert long[..|long| - 1] == before + [extra] + front && short[..|short| - 1] == before + front;
      UnknownRecordInvisible(before, extra, front, id);
    }
  }

  /** Records for questions that are not in the attempt change nothing in the result, wherever they stand. */
  lemma UnknownRecordChangesNothing(
    qs: seq<Question>, before: seq<AnswerRecord>, extra: AnswerRecord, after: seq<AnswerRecord>, passing: real,
    lower: Lower
  )
    requires forall i :: 0 <= i < |qs| ==> qs[i].id != extra.questionId
    ensures GradeAnswers(qs, before + [extra] + after, passing, lower)
         == GradeAnswers(qs, before + after, passing, lower)
  {
    forall i | 0 <= i < |qs|
      ensures LastAnswer(before + [extra] + after, qs[i].id) == LastAnswer(before + after, qs[i].id)
    {
      UnknownRecordInvisible(before, extra, after, qs[i].id);
    }
    OnlyLastRecordsMatter(qs, before + [extra] + after, before + after, passing, lower);
  }
}
