/**
 * The weak-area analyser: `getGrammarAreaLabel` (App.tsx:27-31) and
 * `grammarAnalysis` (App.tsx:369-384).
 *
 * The source groups the Grammar questions by label in a plain object (whose
 * keys, none of them integer-like, enumerate in insertion order), turns the
 * entries into `{area, percentage}` and sorts them with a stable sort on the
 * percentage. Here each entry keeps its `correct` and `total` counts, and
 * two percentages are compared by cross-multiplication:
 * `c1 / t1 < c2 / t2` is `c1 * t2 < c2 * t1` for positive totals.
 */
module GrammarAnalysis {
  import opened Types
  import Scoring

  // ----- Labels -----

  /**
   * `getGrammarAreaLabel`: no area gives "Unknown Area", the legacy value
   * `TENSES_FUTURE` is renamed "Verb Tenses", any other area shows its own
   * display string.
   */
  function GetGrammarAreaLabel(area: Option<GrammarArea>): string {
    match area
    case None => "Unknown Area"
    case Some(a) => if a == LegacyTensesFuture then "Verb Tenses" else a.Value()
  }

  /**
   * Different areas never share a label, so grouping by label is grouping by
   * area; and no member of the enum as declared reaches the rename branch.
   */
  lemma LabelsDistinguishAreas(a: Option<GrammarArea>, b: Option<GrammarArea>)
    ensures GetGrammarAreaLabel(a) == GetGrammarAreaLabel(b) ==> a == b
    ensures a.Some? && a.value.Declared() ==>
              GetGrammarAreaLabel(a) == a.value.Value() != "Verb Tenses"
  {
  }

  function Label(q: Question): string {
    GetGrammarAreaLabel(q.grammarArea)
  }

  function Labels(qs: seq<Question>): (ls: seq<string>)
    ensures |ls| == |qs| && forall i :: 0 <= i < |qs| ==> ls[i] == Label(qs[i])
  {
    seq(|qs|, i requires 0 <= i < |qs| => Label(qs[i]))
  }

  // ----- The grouping dictionary -----

  /** One entry of the analysis: an area label and its counts. */
  datatype AreaStat = AreaStat(area: string, correct: nat, total: nat)

  /** The value the source stores under a label: `{ correct, total }`. */
  datatype Counts = Counts(correct: nat, total: nat)

  function Areas(es: seq<AreaStat>): (ls: seq<string>)
    ensures |ls| == |es| && forall i :: 0 <= i < |es| ==> ls[i] == es[i].area
  {
    seq(|es|, i requires 0 <= i < |es| => es[i].area)
  }

  /** The position of the first entry for label l, or -1 when there is none. */
  function IndexOf(es: seq<AreaStat>, l: string): (k: int)
    ensures -1 <= k < |es|
    ensures k >= 0 ==> es[k].area == l
    ensures k < 0 ==> forall i :: 0 <= i < |es| ==> es[i].area != l
    decreases |es|
  {
    if es == [] then -1
    else if es[0].area == l then 0
    else
      var k := IndexOf(es[1..], l);
      if k < 0 then -1 else k + 1
  }

  /**
   * The dictionary after the `forEach` of App.tsx:373-378 has visited qs, as
   * its entries in insertion order: a label seen for the first time gets a
   * new entry at the end; a label seen before has its entry counted up.
   */
  function Tally(qs: seq<Question>, answers: map<string, string>): seq<AreaStat>
    decreases |qs|
  {
    if qs == [] then []
    else
      var prev := Tally(qs[..|qs| - 1], answers);
      var q := qs[|qs| - 1];
      Visit(prev, Label(q), if IsCorrect(q, answers) then 1 else 0)
  }

  /**
   * Counting one question with label key into the entries es: a new entry
   * `{correct: hit, total: 1}` at the end, or the existing entry counted up.
   */
  function Visit(es: seq<AreaStat>, key: string, hit: nat): seq<AreaStat> {
    var k := IndexOf(es, key);
    if k < 0 then es + [AreaStat(key, hit, 1)]
    else es[k := AreaStat(key, es[k].correct + hit, es[k].total + 1)]
  }

  /** The distinct elements of ls in the order of their first occurrence. */
  function FirstSeen(ls: seq<string>): seq<string>
    decreases |ls|
  {
    if ls == [] then []
    else
      var prev := FirstSeen(ls[..|ls| - 1]);
      if ls[|ls| - 1] in prev then prev else prev + [ls[|ls| - 1]]
  }

  /** How many of qs carry label l. */
  function CountLabel(qs: seq<Question>, l: string): nat
    decreases |qs|
  {
    if qs == [] then 0
    else CountLabel(qs[..|qs| - 1], l) + (if Label(qs[|qs| - 1]) == l then 1 else 0)
  }

  /** How many of qs carry label l and are answered correctly. */
  function CountLabelCorrect(qs: seq<Question>, answers: map<string, string>, l: string): nat
    decreases |qs|
  {
    if qs == [] then 0
    else
      CountLabelCorrect(qs[..|qs| - 1], answers, l) +
      (if Label(qs[|qs| - 1]) == l && IsCorrect(qs[|qs| - 1], answers) then 1 else 0)
  }

  function SumTotals(es: seq<AreaStat>): nat
    decreases |es|
  {
    if es == [] then 0 else SumTotals(es[..|es| - 1]) + es[|es| - 1].total
  }

  predicate Distinct(ls: seq<string>) {
    forall i, j :: 0 <= i < j < |ls| ==> ls[i] != ls[j]
  }

  // ----- Facts about the dictionary -----

  /** The entries appear in first-seen order of the labels. */
  lemma {:induction false} TallyAreasFirstSeen(qs: seq<Question>, answers: map<string, string>)
    ensures Areas(Tally(qs, answers)) == FirstSeen(Labels(qs))
    decreases |qs|
  {
    if qs != [] {
      var n := |qs| - 1;
      var ls := Labels(qs);
      assert ls[..n] == Labels(qs[..n]);
      TallyAreasFirstSeen(qs[..n], answers);
      AreasVisit(Tally(qs[..n], answers), ls[n], if IsCorrect(qs[n], answers) then 1 else 0);
    }
  }

  /** Counting a label adds it to the areas exactly when it is not there yet. */
  lemma AreasVisit(es: seq<AreaStat>, key: string, hit: nat)
    ensures Areas(Visit(es, key, hit)) == if key in Areas(es) then Areas(es) else Areas(es) + [key]
  {
    var k := IndexOf(es, key);
    if k < 0 {
      assert key !in Areas(es);
    } else {
      assert Areas(es)[k] == key;
    }
  }

  /** `FirstSeen` keeps every element once and drops nothing. */
  lemma {:induction false} FirstSeenFacts(ls: seq<string>)
    ensures Distinct(FirstSeen(ls))
    ensures forall l :: l in FirstSeen(ls) <==> l in ls
    decreases |ls|
  {
    if ls != [] {
      var n := |ls| - 1;
      FirstSeenFacts(ls[..n]);
      assert forall l :: l in ls <==> l in ls[..n] || l == ls[n];
    }
  }

  /** The position of the first occurrence of x in ls. */
  function FirstIndex(ls: seq<string>, x: string): (k: nat)
    requires x in ls
    ensures k < |ls| && ls[k] == x
    ensures forall i :: 0 <= i < k ==> ls[i] != x
    decreases |ls|
  {
    if ls[0] == x then 0 else FirstIndex(ls[1..], x) + 1
  }

  lemma {:induction false} FirstIndexUnique(ls: seq<string>, x: string, k: nat)
    requires k < |ls| && ls[k] == x
    requires forall i :: 0 <= i < k ==> ls[i] != x
    ensures FirstIndex(ls, x) == k
    decreases |ls|
  {
    if ls[0] != x {
      FirstIndexUnique(ls[1..], x, k - 1);
    }
  }

  lemma FirstIndexSnoc(ls: seq<string>, x: string, y: string)
    requires y in ls
    ensures y in ls + [x] && FirstIndex(ls + [x], y) == FirstIndex(ls, y)
  {
    FirstIndexUnique(ls + [x], y, FirstIndex(ls, y));
  }

  /** Every element of fs occurs in ls, and earlier elements occur first earlier. */
  predicate InFirstSeenOrder(fs: seq<string>, ls: seq<string>) {
    forall i, j :: 0 <= i < j < |fs| ==>
      fs[i] in ls && fs[j] in ls && FirstIndex(ls, fs[i]) < FirstIndex(ls, fs[j])
  }

  /**
   * `FirstSeen` really is first-seen order: an earlier entry first occurs
   * earlier in the input.
   */
  lemma {:induction false} FirstSeenOrder(ls: seq<string>)
    ensures InFirstSeenOrder(FirstSeen(ls), ls)
    decreases |ls|
  {
    if ls != [] {
      var n := |ls| - 1;
      var p := ls[..n];
      var x := ls[n];
      assert ls == p + [x];
      FirstSeenOrder(p);
      FirstSeenFacts(p);
      var fp := FirstSeen(p);
      var fs := FirstSeen(ls);
      assert fs == if x in fp then fp else fp + [x];
      forall i, j | 0 <= i < j < |fs|
        ensures fs[i] in ls && fs[j] in ls && FirstIndex(ls, fs[i]) < FirstIndex(ls, fs[j])
      {
        assert fs[i] == fp[i] && fp[i] in p;
        FirstIndexSnoc(p, x, fs[i]);
        if j < |fp| {
          assert fs[j] == fp[j] && fp[j] in p;
          FirstIndexSnoc(p, x, fs[j]);
        } else {
          assert fs[j] == x && x !in p;
          FirstIndexUnique(ls, x, n);
        }
      }
    }
  }

  lemma {:induction false} CountAbsentLabel(qs: seq<Question>, answers: map<string, string>, l: string)
    requires l !in Labels(qs)
    ensures CountLabel(qs, l) == 0 && CountLabelCorrect(qs, answers, l) == 0
    decreases |qs|
  {
    if qs != [] {
      var n := |qs| - 1;
      assert Labels(qs)[..n] == Labels(qs[..n]);
      CountAbsentLabel(qs[..n], answers, l);
    }
  }

  lemma {:induction false} CorrectWithinLabel(qs: seq<Question>, answers: map<string, string>, l: string)
    ensures CountLabelCorrect(qs, answers, l) <= CountLabel(qs, l)
    decreases |qs|
  {
    if qs != [] {
      CorrectWithinLabel(qs[..|qs| - 1], answers, l);
    }
  }

  lemma {:induction false} SumTotalsUpdate(es: seq<AreaStat>, k: nat, v: AreaStat)
    requires k < |es|
    ensures SumTotals(es[k := v]) + es[k].total == SumTotals(es) + v.total
    decreases |es|
  {
    var n := |es| - 1;
    if k < n {
      assert es[k := v][..n] == es[..n][k := v];
      SumTotalsUpdate(es[..n], k, v);
    } else {
      assert es[k := v][..n] == es[..n];
    }
  }

  /**
   * Each entry of es counts exactly the questions of qs carrying its label
   * and, of those, the correctly answered ones.
   */
  predicate EntriesCount(qs: seq<Question>, answers: map<string, string>, es: seq<AreaStat>) {
    forall i :: 0 <= i < |es| ==>
      es[i].total == CountLabel(qs, es[i].area) &&
      es[i].correct == CountLabelCorrect(qs, answers, es[i].area)
  }

  /**
   * The tally counts its questions: each entry counts its label's questions
   * and correct answers, and the totals add up to the number of questions.
   */
  lemma TallyCounts(qs: seq<Question>, answers: map<string, string>)
    ensures EntriesCount(qs, answers, Tally(qs, answers))
    ensures SumTotals(Tally(qs, answers)) == |qs|
  {
    TallyEntriesCount(qs, answers);
    TallySum(qs, answers);
  }

  lemma {:induction false} TallyEntriesCount(qs: seq<Question>, answers: map<string, string>)
    ensures EntriesCount(qs, answers, Tally(qs, answers))
    decreases |qs|
  {
    if qs != [] {
      var n := |qs| - 1;
      TallyEntriesCount(qs[..n], answers);
      if IndexOf(Tally(qs[..n], answers), Label(qs[n])) < 0 {
        TallyCountsNew(qs, answers);
      } else {
        TallyCountsOld(qs, answers);
      }
    }
  }

  /** Every question adds one to exactly one entry's total. */
  lemma {:induction false} TallySum(qs: seq<Question>, answers: map<string, string>)
    ensures SumTotals(Tally(qs, answers)) == |qs|
    decreases |qs|
  {
    if qs != [] {
      var n := |qs| - 1;
      TallySum(qs[..n], answers);
      TallyLast(qs, answers);
      var prev := Tally(qs[..n], answers);
      var key := Label(qs[n]);
      var hit := if IsCorrect(qs[n], answers) then 1 else 0;
      var k := IndexOf(prev, key);
      if k < 0 {
        VisitMissing(prev, key, hit);
        SumTotalsAppend(prev, AreaStat(key, hit, 1));
      } else {
        VisitFound(prev, key, hit, k);
        SumTotalsUpdate(prev, k, AreaStat(key, prev[k].correct + hit, prev[k].total + 1));
      }
    }
  }

  lemma TallyCountsNew(qs: seq<Question>, answers: map<string, string>)
    requires qs != [] && IndexOf(Tally(qs[..|qs| - 1], answers), Label(qs[|qs| - 1])) < 0
    requires EntriesCount(qs[..|qs| - 1], answers, Tally(qs[..|qs| - 1], answers))
    ensures EntriesCount(qs, answers, Tally(qs, answers))
  {
    var n := |qs| - 1;
    TallyLast(qs, answers);
    var prev := Tally(qs[..n], answers);
    var key := Label(qs[n]);
    var hit := if IsCorrect(qs[n], answers) then 1 else 0;
    AbsentFromTally(qs[..n], answers, key);
    NewEntryCounts(qs, answers, prev, hit);
    VisitMissing(prev, key, hit);
  }

  lemma TallyCountsOld(qs: seq<Question>, answers: map<string, string>)
    requires qs != [] && IndexOf(Tally(qs[..|qs| - 1], answers), Label(qs[|qs| - 1])) >= 0
    requires EntriesCount(qs[..|qs| - 1], answers, Tally(qs[..|qs| - 1], answers))
    ensures EntriesCount(qs, answers, Tally(qs, answers))
  {
    var n := |qs| - 1;
    TallyLast(qs, answers);
    var prev := Tally(qs[..n], answers);
    var key := Label(qs[n]);
    var hit := if IsCorrect(qs[n], answers) then 1 else 0;
    var k := IndexOf(prev, key);
    TallyDistinct(qs[..n], answers);
    OldEntryCounts(qs, answers, prev, hit, k);
    VisitFound(prev, key, hit, k);
  }

  /** The tally has one entry per label. */
  lemma TallyDistinct(qs: seq<Question>, answers: map<string, string>)
    ensures Distinct(Areas(Tally(qs, answers)))
  {
    TallyAreasFirstSeen(qs, answers);
    FirstSeenFacts(Labels(qs));
  }

  lemma TallyLast(qs: seq<Question>, answers: map<string, string>)
    requires qs != []
    ensures Tally(qs, answers) ==
            Visit(Tally(qs[..|qs| - 1], answers), Label(qs[|qs| - 1]), if IsCorrect(qs[|qs| - 1], answers) then 1 else 0)
  {
  }

  lemma VisitMissing(es: seq<AreaStat>, key: string, hit: nat)
    requires IndexOf(es, key) < 0
    ensures Visit(es, key, hit) == es + [AreaStat(key, hit, 1)]
  {
  }

  /** A label the tally has no entry for carries no question. */
  lemma AbsentFromTally(qs: seq<Question>, answers: map<string, string>, key: string)
    requires IndexOf(Tally(qs, answers), key) < 0
    ensures key !in Labels(qs)
  {
    TallyAreasFirstSeen(qs, answers);
    FirstSeenFacts(Labels(qs));
    assert key !in Areas(Tally(qs, answers));
  }

  lemma SumTotalsAppend(es: seq<AreaStat>, e: AreaStat)
    ensures SumTotals(es + [e]) == SumTotals(es) + e.total
  {
    assert (es + [e])[..|es|] == es;
  }

  lemma CountStep(qs: seq<Question>, answers: map<string, string>, l: string)
    requires qs != []
    ensures CountLabel(qs, l) == CountLabel(qs[..|qs| - 1], l) + (if Label(qs[|qs| - 1]) == l then 1 else 0)
    ensures CountLabelCorrect(qs, answers, l) ==
            CountLabelCorrect(qs[..|qs| - 1], answers, l) +
            (if Label(qs[|qs| - 1]) == l && IsCorrect(qs[|qs| - 1], answers) then 1 else 0)
  {
  }

  /** A question with a label not seen before opens a new entry. */
  lemma NewEntryCounts(qs: seq<Question>, answers: map<string, string>, prev: seq<AreaStat>, hit: nat)
    requires qs != [] && prev == Tally(qs[..|qs| - 1], answers)
    requires EntriesCount(qs[..|qs| - 1], answers, prev)
    requires hit == if IsCorrect(qs[|qs| - 1], answers) then 1 else 0
    requires forall i :: 0 <= i < |prev| ==> prev[i].area != Label(qs[|qs| - 1])
    requires Label(qs[|qs| - 1]) !in Labels(qs[..|qs| - 1])
    ensures EntriesCount(qs, answers, prev + [AreaStat(Label(qs[|qs| - 1]), hit, 1)])
  {
    var n := |qs| - 1;
    var key := Label(qs[n]);
    var es := prev + [AreaStat(key, hit, 1)];
    CountAbsentLabel(qs[..n], answers, key);
    forall i | 0 <= i < |es|
      ensures es[i].total == CountLabel(qs, es[i].area)
      ensures es[i].correct == CountLabelCorrect(qs, answers, es[i].area)
    {
      CountStep(qs, answers, es[i].area);
    }
  }

  /** A question with a label seen before counts in that label's entry. */
  lemma OldEntryCounts(qs: seq<Question>, answers: map<string, string>, prev: seq<AreaStat>, hit: nat, k: nat)
    requires qs != [] && EntriesCount(qs[..|qs| - 1], answers, prev)
    requires hit == if IsCorrect(qs[|qs| - 1], answers) then 1 else 0
    requires Distinct(Areas(prev)) && k < |prev| && prev[k].area == Label(qs[|qs| - 1])
    ensures EntriesCount(qs, answers, prev[k := AreaStat(prev[k].area, prev[k].correct + hit, prev[k].total + 1)])
  {
    var es := prev[k := AreaStat(prev[k].area, prev[k].correct + hit, prev[k].total + 1)];
    forall i | 0 <= i < |es|
      ensures es[i].total == CountLabel(qs, es[i].area)
      ensures es[i].correct == CountLabelCorrect(qs, answers, es[i].area)
    {
      CountStep(qs, answers, es[i].area);
      if i != k {
        assert Areas(prev)[i] != Areas(prev)[k];
      }
    }
  }


  // ----- Ordering by percentage -----

  /** `a.percentage < b.percentage`. */
  predicate RatioLt(a: AreaStat, b: AreaStat) {
    a.correct * b.total < b.correct * a.total
  }

  /** `a.percentage <= b.percentage`. */
  predicate RatioLe(a: AreaStat, b: AreaStat) {
    a.correct * b.total <= b.correct * a.total
  }

  /** `a.percentage == b.percentage`. */
  predicate SameRatio(a: AreaStat, b: AreaStat) {
    a.correct * b.total == b.correct * a.total
  }

  predicate AllPositive(es: seq<AreaStat>) {
    forall i :: 0 <= i < |es| ==> es[i].total > 0
  }

  predicate SortedByPercentage(es: seq<AreaStat>) {
    forall i, j :: 0 <= i < j < |es| ==> RatioLe(es[i], es[j])
  }

  lemma MulSign(x: int, y: int)
    requires y > 0
    ensures x < 0 ==> x * y < 0
    ensures x <= 0 ==> x * y <= 0
  {
  }

  lemma CancelSign(x: int, y: int)
    requires y > 0
    ensures x * y < 0 ==> x < 0
    ensures x * y <= 0 ==> x <= 0
  {
    if x > 0 { MulSign(-x, y); }
    if x >= 0 { MulSign(-x, y); }
  }

  /** The cross-multiplied differences of three ratios are related linearly. */
  lemma CrossIdentity(ac: int, at: int, bc: int, bt: int, cc: int, ct: int)
    ensures (ac * ct - cc * at) * bt == (ac * bt - bc * at) * ct + (bc * ct - cc * bt) * at
  {
  }

  /**
   * Comparing percentages by cross-multiplication is transitive when the
   * totals are positive.
   */
  lemma RatioTrans(a: AreaStat, b: AreaStat, c: AreaStat)
    requires a.total > 0 && b.total > 0 && c.total > 0
    ensures RatioLe(a, b) && RatioLe(b, c) ==> RatioLe(a, c)
    ensures RatioLt(a, b) && RatioLe(b, c) ==> RatioLt(a, c)
    ensures RatioLe(a, b) && RatioLt(b, c) ==> RatioLt(a, c)
  {
    var d1 := a.correct * b.total - b.correct * a.total;
    var d2 := b.correct * c.total - c.correct * b.total;
    var d3 := a.correct * c.total - c.correct * a.total;
    CrossIdentity(a.correct, a.total, b.correct, b.total, c.correct, c.total);
    MulSign(d1, c.total);
    MulSign(d2, a.total);
    CancelSign(d3, b.total);
  }

  /**
   * The entries less than x stay in front of it, in order; x goes before the
   * first entry that is not less than x, and so before every entry of equal
   * percentage.
   */
  function Insert(x: AreaStat, s: seq<AreaStat>): (r: seq<AreaStat>)
    ensures |r| == |s| + 1
    ensures multiset(r) == multiset(s) + multiset{x}
    decreases |s|
  {
    if s == [] then [x]
    else if RatioLt(s[0], x) then
      assert s == [s[0]] + s[1..];
      [s[0]] + Insert(x, s[1..])
    else [x] + s
  }

  /**
   * The array's `sort((a, b) => a.percentage - b.percentage)`. A stable sort
   * has exactly one possible result, and this insertion sort produces it.
   */
  function SortByPercentage(es: seq<AreaStat>): (r: seq<AreaStat>)
    ensures |r| == |es|
    ensures multiset(r) == multiset(es)
    decreases |es|
  {
    if es == [] then []
    else
      assert es == [es[0]] + es[1..];
      Insert(es[0], SortByPercentage(es[1..]))
  }

  lemma {:induction false} InsertSorted(x: AreaStat, s: seq<AreaStat>)
    requires AllPositive(s) && x.total > 0 && SortedByPercentage(s)
    ensures SortedByPercentage(Insert(x, s))
    decreases |s|
  {
    var r := Insert(x, s);
    if s != [] {
      if RatioLt(s[0], x) {
        InsertSorted(x, s[1..]);
        var rest := Insert(x, s[1..]);
        forall j | 0 <= j < |rest| ensures RatioLe(s[0], rest[j]) {
          assert rest[j] in multiset(s[1..]) + multiset{x};
          if rest[j] != x {
            assert rest[j] in s[1..];
            var k :| 1 <= k < |s| && s[k] == rest[j];
          }
        }
      } else {
        forall j | 1 <= j < |s| ensures RatioLe(x, s[j]) {
          RatioTrans(x, s[0], s[j]);
        }
      }
    }
  }

  lemma {:induction false} SortSorted(es: seq<AreaStat>)
    requires AllPositive(es)
    ensures SortedByPercentage(SortByPercentage(es))
    decreases |es|
  {
    if es != [] {
      SortSorted(es[1..]);
      var sorted := SortByPercentage(es[1..]);
      forall i | 0 <= i < |sorted| ensures sorted[i].total > 0 {
        assert sorted[i] in multiset(es[1..]);
      }
      InsertSorted(es[0], sorted);
    }
  }

  /** The entries of s whose percentage equals that of x, in order. */
  function Ties(s: seq<AreaStat>, x: AreaStat): seq<AreaStat>
    decreases |s|
  {
    if s == [] then []
    else (if SameRatio(s[0], x) then [s[0]] else []) + Ties(s[1..], x)
  }

  lemma TiesCons(a: AreaStat, s: seq<AreaStat>, x: AreaStat)
    ensures Ties([a] + s, x) == (if SameRatio(a, x) then [a] else []) + Ties(s, x)
  {
    assert ([a] + s)[1..] == s;
  }

  lemma SwapEmpty(a: seq<AreaStat>, b: seq<AreaStat>, c: seq<AreaStat>)
    requires a == [] || b == []
    ensures a + (b + c) == b + (a + c)
  {
  }

  /** An entry strictly below y cannot tie with what ties with y. */
  lemma TieExclusive(a: AreaStat, y: AreaStat, x: AreaStat)
    requires a.total > 0 && y.total > 0 && x.total > 0
    ensures RatioLt(a, y) && SameRatio(y, x) ==> !SameRatio(a, x)
  {
    RatioTrans(a, y, x);
  }

  lemma {:induction false} InsertTies(y: AreaStat, s: seq<AreaStat>, x: AreaStat)
    requires AllPositive(s) && x.total > 0 && y.total > 0
    ensures Ties(Insert(y, s), x) == (if SameRatio(y, x) then [y] else []) + Ties(s, x)
    decreases |s|
  {
    if s == [] || !RatioLt(s[0], y) {
      TiesCons(y, s, x);
    } else {
      var rest := Insert(y, s[1..]);
      InsertTies(y, s[1..], x);
      TiesCons(s[0], rest, x);
      assert s == [s[0]] + s[1..];
      TiesCons(s[0], s[1..], x);
      TieExclusive(s[0], y, x);
      var ys := if SameRatio(y, x) then [y] else [];
      var zs := if SameRatio(s[0], x) then [s[0]] else [];
      SwapEmpty(zs, ys, Ties(s[1..], x));
    }
  }

  /**
   * The sort is stable: for every percentage, the entries with that
   * percentage come out in the order they went in.
   */
  lemma {:induction false} SortIsStable(es: seq<AreaStat>, x: AreaStat)
    requires AllPositive(es) && x.total > 0
    ensures Ties(SortByPercentage(es), x) == Ties(es, x)
    decreases |es|
  {
    if es != [] {
      SortIsStable(es[1..], x);
      var sorted := SortByPercentage(es[1..]);
      forall i | 0 <= i < |sorted| ensures sorted[i].total > 0 {
        assert sorted[i] in multiset(es[1..]);
      }
      InsertTies(es[0], sorted, x);
    }
  }

  // ----- The analysis -----

  /** The dictionary's entries, in insertion order, before sorting. */
  function GrammarTally(bank: seq<Question>, answers: map<string, string>): seq<AreaStat> {
    Tally(Scoring.SectionQuestions(bank, Grammar), answers)
  }

  /** `grammarAnalysis` as a function of the bank and the answers. */
  function Analysis(bank: seq<Question>, answers: map<string, string>): seq<AreaStat> {
    SortByPercentage(GrammarTally(bank, answers))
  }

  /**
   * An entry counts exactly the questions of qs carrying its label (at least
   * one) and, of those, the correctly answered ones.
   */
  predicate CountsLabel(e: AreaStat, qs: seq<Question>, answers: map<string, string>) {
    e.total == CountLabel(qs, e.area) > 0 &&
    e.correct == CountLabelCorrect(qs, answers, e.area) <= e.total
  }

  lemma {:induction false} CountPresentLabel(qs: seq<Question>, k: nat)
    requires k < |qs|
    ensures CountLabel(qs, Label(qs[k])) > 0
    decreases |qs|
  {
    if k < |qs| - 1 {
      assert qs[..|qs| - 1][k] == qs[k];
      CountPresentLabel(qs[..|qs| - 1], k);
    }
  }

  /**
   * The unsorted entries: one per distinct label among qs, each counting
   * exactly its label's questions.
   */
  lemma TallyEntries(qs: seq<Question>, answers: map<string, string>)
    ensures Distinct(Areas(Tally(qs, answers)))
    ensures forall l :: l in Areas(Tally(qs, answers)) <==> l in Labels(qs)
    ensures forall e :: e in Tally(qs, answers) ==> CountsLabel(e, qs, answers)
  {
    var es := Tally(qs, answers);
    TallyAreasFirstSeen(qs, answers);
    FirstSeenFacts(Labels(qs));
    TallyCounts(qs, answers);
    forall e | e in es ensures CountsLabel(e, qs, answers) {
      var i :| 0 <= i < |es| && es[i] == e;
      assert e.total == CountLabel(qs, e.area);
      assert e.correct == CountLabelCorrect(qs, answers, e.area);
      assert Areas(es)[i] == e.area;
      assert e.area in Labels(qs);
      var k :| 0 <= k < |qs| && Labels(qs)[k] == e.area;
      CountPresentLabel(qs, k);
      CorrectWithinLabel(qs, answers, e.area);
    }
  }

  lemma SplitAt<T>(a: seq<T>, i: nat)
    requires i < |a|
    ensures a == a[..i] + [a[i]] + a[i + 1..]
  {
  }

  /** An element that differs from every other position occurs once. */
  lemma OccursOnce<T>(a: seq<T>, i: nat)
    requires i < |a| && forall j :: 0 <= j < |a| && j != i ==> a[j] != a[i]
    ensures multiset(a)[a[i]] == 1
  {
    SplitAt(a, i);
    assert a[i] !in a[..i] && a[i] !in a[i + 1..];
  }

  lemma OccursTwice<T>(b: seq<T>, i: nat, j: nat)
    requires i < j < |b| && b[i] == b[j]
    ensures multiset(b)[b[i]] >= 2
  {
    assert b == b[..i] + [b[i]] + b[i + 1..j] + [b[j]] + b[j + 1..];
  }

  /** Entries with distinct areas are distinct entries. */
  lemma EntryUnique(a: seq<AreaStat>, i: nat)
    requires i < |a| && Distinct(Areas(a))
    ensures forall j :: 0 <= j < |a| && j != i ==> a[j] != a[i]
  {
    forall j | 0 <= j < |a| && j != i ensures a[j] != a[i] {
      assert Areas(a)[j] != Areas(a)[i];
    }
  }

  lemma DistinctAfterPermutation(a: seq<AreaStat>, b: seq<AreaStat>)
    requires Distinct(Areas(a)) && multiset(a) == multiset(b)
    ensures Distinct(Areas(b))
  {
    forall i, j | 0 <= i < j < |b| ensures Areas(b)[i] != Areas(b)[j] {
      assert b[i] in multiset(a) && b[j] in multiset(a);
      var i' :| 0 <= i' < |a| && a[i'] == b[i];
      var j' :| 0 <= j' < |a| && a[j'] == b[j];
      if i' == j' {
        OccursTwice(b, i, j);
        EntryUnique(a, i');
        OccursOnce(a, i');
      } else if i' < j' {
        assert Areas(a)[i'] != Areas(a)[j'];
      } else {
        assert Areas(a)[j'] != Areas(a)[i'];
      }
    }
  }

  /**
   * What the analysis promises: one entry per distinct label among the
   * Grammar questions, each counting exactly that label's questions and its
   * correctly answered ones; the entries are the dictionary's, ascending by
   * percentage, and entries of equal percentage keep their insertion order.
   */
  lemma AnalysisFacts(bank: seq<Question>, answers: map<string, string>)
    ensures Distinct(Areas(Analysis(bank, answers)))
    ensures forall l :: l in Areas(Analysis(bank, answers)) <==>
                        l in Labels(Scoring.SectionQuestions(bank, Grammar))
    ensures forall e :: e in Analysis(bank, answers) ==>
                        CountsLabel(e, Scoring.SectionQuestions(bank, Grammar), answers)
    ensures multiset(Analysis(bank, answers)) == multiset(GrammarTally(bank, answers))
    ensures SortedByPercentage(Analysis(bank, answers))
    ensures forall x :: x in Analysis(bank, answers) ==>
                        Ties(Analysis(bank, answers), x) == Ties(GrammarTally(bank, answers), x)
  {
    var gq := Scoring.SectionQuestions(bank, Grammar);
    var unsorted := GrammarTally(bank, answers);
    var es := Analysis(bank, answers);
    TallyEntries(gq, answers);
    assert forall e :: e in es <==> e in unsorted by {
      assert forall e :: e in es <==> e in multiset(es);
      assert forall e :: e in unsorted <==> e in multiset(unsorted);
    }
    forall i | 0 <= i < |unsorted| ensures unsorted[i].total > 0 {
      assert CountsLabel(unsorted[i], gq, answers);
    }
    SortSorted(unsorted);
    forall x | x in es ensures Ties(es, x) == Ties(unsorted, x) {
      SortIsStable(unsorted, x);
    }
    DistinctAfterPermutation(unsorted, es);
    forall l ensures l in Areas(es) <==> l in Areas(unsorted) {
      if l in Areas(es) {
        var i :| 0 <= i < |es| && Areas(es)[i] == l;
        assert es[i] in es && es[i] in unsorted;
        var j :| 0 <= j < |unsorted| && unsorted[j] == es[i];
        assert Areas(unsorted)[j] == l;
      }
      if l in Areas(unsorted) {
        var i :| 0 <= i < |unsorted| && Areas(unsorted)[i] == l;
        assert unsorted[i] in unsorted && unsorted[i] in es;
        var j :| 0 <= j < |es| && es[j] == unsorted[i];
        assert Areas(es)[j] == l;
      }
    }
  }

  /**
   * The dictionary `areas`, with `keys` its keys in insertion order, holds
   * exactly the entries es.
   */
  ghost predicate Holds(keys: seq<string>, areas: map<string, Counts>, es: seq<AreaStat>) {
    && |keys| == |es|
    && Distinct(keys)
    && (forall key :: key in areas <==> key in keys)
    && (forall k :: 0 <= k < |keys| ==>
          keys[k] == es[k].area && keys[k] in areas &&
          areas[keys[k]] == Counts(es[k].correct, es[k].total))
  }

  lemma {:induction false} IndexOfAbsent(es: seq<AreaStat>, key: string)
    requires forall i :: 0 <= i < |es| ==> es[i].area != key
    ensures IndexOf(es, key) == -1
    decreases |es|
  {
    if es != [] {
      IndexOfAbsent(es[1..], key);
    }
  }

  lemma {:induction false} IndexOfFirst(es: seq<AreaStat>, key: string, j: nat)
    requires j < |es| && es[j].area == key
    requires forall i :: 0 <= i < j ==> es[i].area != key
    ensures IndexOf(es, key) == j
    decreases |es|
  {
    if j > 0 {
      IndexOfFirst(es[1..], key, j - 1);
    }
  }

  lemma VisitFound(es: seq<AreaStat>, key: string, hit: nat, j: nat)
    requires j < |es| && IndexOf(es, key) == j
    ensures Visit(es, key, hit) == es[j := AreaStat(key, es[j].correct + hit, es[j].total + 1)]
  {
  }

  /** Counting a question under a label not yet in the dictionary. */
  lemma HoldsVisitNew(keys: seq<string>, areas: map<string, Counts>, es: seq<AreaStat>, key: string, hit: nat)
    requires Holds(keys, areas, es) && key !in areas
    ensures Holds(keys + [key], areas[key := Counts(hit, 1)], Visit(es, key, hit))
  {
    IndexOfAbsent(es, key);
    assert Visit(es, key, hit) == es + [AreaStat(key, hit, 1)];
  }

  /** Replacing the entry at j by one with the same label, in both views. */
  lemma HoldsUpdated(keys: seq<string>, areas: map<string, Counts>, es: seq<AreaStat>, j: nat, v: AreaStat)
    requires Holds(keys, areas, es) && j < |keys| && v.area == keys[j]
    ensures Holds(keys, areas[keys[j] := Counts(v.correct, v.total)], es[j := v])
  {
    var es' := es[j := v];
    var areas' := areas[keys[j] := Counts(v.correct, v.total)];
    forall m | 0 <= m < |keys|
      ensures keys[m] == es'[m].area && keys[m] in areas' && areas'[keys[m]] == Counts(es'[m].correct, es'[m].total)
    {
      if m < j {
        assert keys[m] != keys[j];
      } else if m > j {
        assert keys[j] != keys[m];
      }
    }
  }

  /** Where a label already in the dictionary sits among the entries. */
  lemma KeyPosition(keys: seq<string>, areas: map<string, Counts>, es: seq<AreaStat>, key: string)
    returns (j: nat)
    requires Holds(keys, areas, es) && key in areas
    ensures j < |keys| && keys[j] == key && IndexOf(es, key) == j
    ensures areas[key] == Counts(es[j].correct, es[j].total)
  {
    j :| 0 <= j < |keys| && keys[j] == key;
    forall i | 0 <= i < j ensures es[i].area != key {
      assert keys[i] != keys[j];
    }
    IndexOfFirst(es, key, j);
  }

  /** Counting a question under a label already in the dictionary. */
  lemma HoldsVisitOld(keys: seq<string>, areas: map<string, Counts>, es: seq<AreaStat>, key: string, hit: nat)
    requires Holds(keys, areas, es) && key in areas
    ensures Holds(keys, areas[key := Counts(areas[key].correct + hit, areas[key].total + 1)], Visit(es, key, hit))
  {
    var j := KeyPosition(keys, areas, es, key);
    var v := AreaStat(key, es[j].correct + hit, es[j].total + 1);
    VisitFound(es, key, hit, j);
    HoldsUpdated(keys, areas, es, j, v);
  }

  lemma TallyStep(qs: seq<Question>, answers: map<string, string>, i: nat)
    requires i < |qs|
    ensures Tally(qs[..i + 1], answers) ==
            Visit(Tally(qs[..i], answers), Label(qs[i]), if IsCorrect(qs[i], answers) then 1 else 0)
  {
    assert qs[..i + 1][..i] == qs[..i];
  }

  /**
   * `grammarAnalysis` (App.tsx:369-384): filter the Grammar questions, count
   * them into a dictionary keyed by label, list its entries in key order and
   * sort them by percentage, lowest first.
   */
  method AnalyzeGrammar(bank: seq<Question>, answers: map<string, string>) returns (analysis: seq<AreaStat>)
    ensures analysis == Analysis(bank, answers)
  {
    var grammarQuestions := Scoring.SectionQuestions(bank, Grammar);
    var areas: map<string, Counts> := map[];
    var keys: seq<string> := [];  // the dictionary's keys in insertion order
    for i := 0 to |grammarQuestions|
      invariant Holds(keys, areas, Tally(grammarQuestions[..i], answers))
    {
      var q := grammarQuestions[i];
      var areaKey := GetGrammarAreaLabel(q.grammarArea);
      keys, areas := CountAnswer(keys, areas, areaKey, IsCorrect(q, answers), Tally(grammarQuestions[..i], answers));
      TallyStep(grammarQuestions, answers, i);
    }
    assert grammarQuestions[..|grammarQuestions|] == grammarQuestions;
    ghost var tally := Tally(grammarQuestions, answers);
    var entries := ListEntries(keys, areas);
    assert entries == tally;
    analysis := SortByPercentage(entries);
  }

  /**
   * One step of the grouping loop: create the area's counters at zero when
   * the key is new (appending it to the key order), count the question, and
   * count it as correct when it is. The dictionary then holds the entries
   * with this question visited.
   */
  method CountAnswer(keys: seq<string>, areas: map<string, Counts>, areaKey: string, correct: bool,
                     ghost es: seq<AreaStat>)
    returns (keys': seq<string>, areas': map<string, Counts>)
    requires Holds(keys, areas, es)
    ensures Holds(keys', areas', Visit(es, areaKey, if correct then 1 else 0))
  {
    ghost var hit := if correct then 1 else 0;
    ghost var start := if areaKey in areas then areas[areaKey] else Counts(0, 0);
    keys', areas' := keys, areas;
    if areaKey !in areas' {
      areas' := areas'[areaKey := Counts(0, 0)];
      keys' := keys' + [areaKey];
    }
    areas' := areas'[areaKey := areas'[areaKey].(total := areas'[areaKey].total + 1)];
    if correct {
      areas' := areas'[areaKey := areas'[areaKey].(correct := areas'[areaKey].correct + 1)];
    }
    assert areas' == areas[areaKey := Counts(start.correct + hit, start.total + 1)];
    if areaKey in areas {
      HoldsVisitOld(keys, areas, es, areaKey, hit);
    } else {
      HoldsVisitNew(keys, areas, es, areaKey, hit);
    }
  }

  /**
   * `Object.entries(areas)` turned into entries: one per key, in the
   * dictionary's insertion order.
   */
  method ListEntries(keys: seq<string>, areas: map<string, Counts>) returns (entries: seq<AreaStat>)
    requires forall k :: 0 <= k < |keys| ==> keys[k] in areas
    ensures |entries| == |keys|
    ensures forall k :: 0 <= k < |keys| ==>
              entries[k] == AreaStat(keys[k], areas[keys[k]].correct, areas[keys[k]].total)
  {
    entries := [];
    for k := 0 to |keys|
      invariant |entries| == k
      invariant forall j :: 0 <= j < k ==>
                  entries[j] == AreaStat(keys[j], areas[keys[j]].correct, areas[keys[j]].total)
    {
      entries := entries + [AreaStat(keys[k], areas[keys[k]].correct, areas[keys[k]].total)];
    }
  }
}
