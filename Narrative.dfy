/**
 * The examiner's comment on the result screen: `getNagumoComment`
 * (App.tsx:387-416). It greets the student, opens with one of four verdicts on
 * the overall percentage, remarks on the vocabulary level, and either praises
 * the grammar or lists up to three of the weak grammar areas, lowest
 * percentage first.
 *
 * The overall percentage is `(vocab correct + grammar correct) / 100 * 100`:
 * the divisor is the fixed 100 rather than the number of questions, so the
 * percentage is the number of correct answers, compared with 90, 75 and 50.
 */
module Narrative {
  import opened Types
  import Scoring
  import Session
  import opened GrammarAnalysis

  // ----- Weak areas -----

  /** `percentage < 60` for an entry of the analysis. */
  predicate IsWeak(e: AreaStat) {
    100 * e.correct < 60 * e.total
  }

  /**
   * `grammarAnalysis.filter(a => a.percentage < 60).map(a => a.area)`: the
   * labels of the weak entries, in the order of the analysis.
   */
  function WeakGrammarAreas(analysis: seq<AreaStat>): (weak: seq<string>)
    ensures |weak| <= |analysis|
    ensures forall l :: l in weak <==> exists e :: e in analysis && IsWeak(e) && e.area == l
    decreases |analysis|
  {
    if analysis == [] then []
    else
      var rest := WeakGrammarAreas(analysis[1..]);
      assert forall e :: e in analysis <==> e == analysis[0] || e in analysis[1..];
      if IsWeak(analysis[0]) then [analysis[0].area] + rest else rest
  }

  /** An area at or above 60% is followed only by areas at or above 60%. */
  lemma StrongStaysStrong(a: AreaStat, b: AreaStat)
    requires a.total > 0 && b.total > 0
    requires RatioLe(a, b) && !IsWeak(a)
    ensures !IsWeak(b)
  {
    Scoring.CutPreserved(60, a.correct, a.total, b.correct, b.total);
  }

  /**
   * In an analysis sorted by percentage the weak areas are exactly the
   * leading entries: the first |weak| entries are weak and give the weak
   * labels in order, and none after them is weak.
   */
  lemma {:induction false} WeakAreasLead(analysis: seq<AreaStat>)
    requires SortedByPercentage(analysis) && AllPositive(analysis)
    ensures var weak := WeakGrammarAreas(analysis);
            && weak == Areas(analysis[..|weak|])
            && (forall i :: 0 <= i < |weak| ==> IsWeak(analysis[i]))
            && (forall i :: |weak| <= i < |analysis| ==> !IsWeak(analysis[i]))
    decreases |analysis|
  {
    if analysis != [] {
      var tail := analysis[1..];
      var weak := WeakGrammarAreas(analysis);
      if IsWeak(analysis[0]) {
        WeakAreasLead(tail);
        var n := |WeakGrammarAreas(tail)|;
        assert analysis[..n + 1] == [analysis[0]] + tail[..n];
      } else {
        forall i | 0 <= i < |analysis| ensures !IsWeak(analysis[i]) {
          if i > 0 {
            StrongStaysStrong(analysis[0], analysis[i]);
          }
        }
        NoWeakArea(tail);
      }
    }
  }

  lemma {:induction false} NoWeakArea(analysis: seq<AreaStat>)
    requires forall i :: 0 <= i < |analysis| ==> !IsWeak(analysis[i])
    ensures WeakGrammarAreas(analysis) == []
    decreases |analysis|
  {
    if analysis != [] {
      NoWeakArea(analysis[1..]);
    }
  }

  function Min(a: int, b: int): int {
    if a <= b then a else b
  }

  /**
   * The areas the comment lists (`weakGrammarAreas.slice(0, 3)`) are the
   * weakest areas of a sorted analysis: they are its first entries, each
   * below 60%, and none of the unlisted areas has a lower percentage.
   */
  lemma ListsTheWeakest(analysis: seq<AreaStat>)
    requires SortedByPercentage(analysis) && AllPositive(analysis)
    ensures var weak := WeakGrammarAreas(analysis);
            var k := Min(3, |weak|);
            && weak[..k] == Areas(analysis[..k])
            && (forall i :: 0 <= i < k ==> IsWeak(analysis[i]))
            && (forall i, j :: 0 <= i < k <= j < |analysis| ==> RatioLe(analysis[i], analysis[j]))
  {
    WeakAreasLead(analysis);
    var weak := WeakGrammarAreas(analysis);
    var k := Min(3, |weak|);
    assert weak[..k] == Areas(analysis[..|weak|])[..k];
  }

  // ----- The text -----

  /** `studentName || 'student'`: an empty name is replaced, any other kept. */
  function DisplayName(name: string): (shown: string)
    ensures shown != []
    ensures shown == "student" <==> name == [] || name == "student"
    ensures name != [] ==> shown == name
  {
    if name == [] then "student" else name
  }

  function Greeting(name: string): string {
    "Listen up, " + DisplayName(name) + ". Here is your evaluation. "
  }

  const ExcellentOpening := "Excellent work. You've demonstrated a command of the language that rivals native speakers. "
  const ImpressiveOpening := "Very impressive. You have a solid grasp of complex structures, though minor refinements are possible. "
  const SolidOpening := "A solid effort. You have the foundations, but there are specific gaps we need to address to reach the next level. "
  const WorkOpening := "We have work to do. The foundation is shaky, but with consistent practice, improvement is inevitable. "

  /** The four openings, harshest first. */
  datatype Opening = WorkToDo | SolidEffort | VeryImpressive | Excellent {
    function Rank(): nat {
      match this
      case WorkToDo => 0 case SolidEffort => 1 case VeryImpressive => 2 case Excellent => 3
    }

    function Text(): string {
      match this
      case Excellent => ExcellentOpening
      case VeryImpressive => ImpressiveOpening
      case SolidEffort => SolidOpening
      case WorkToDo => WorkOpening
    }
  }

  /** The opening for an overall percentage: above 90, above 75, above 50, or else. */
  function OpeningFor(totalPercentage: int): (o: Opening)
    ensures o == Excellent <==> totalPercentage > 90
    ensures o == WorkToDo <==> totalPercentage <= 50
  {
    if totalPercentage > 90 then Excellent
    else if totalPercentage > 75 then VeryImpressive
    else if totalPercentage > 50 then SolidEffort
    else WorkToDo
  }

  /** More correct answers never earn a harsher opening. */
  lemma OpeningMonotone(p1: int, p2: int)
    requires p1 <= p2
    ensures OpeningFor(p1).Rank() <= OpeningFor(p2).Rank()
  {
  }

  /** The cut points are strict: exactly 90, 75 or 50 stays in the lower opening. */
  lemma OpeningBoundaries()
    ensures OpeningFor(91) == Excellent && OpeningFor(90) == VeryImpressive
    ensures OpeningFor(76) == VeryImpressive && OpeningFor(75) == SolidEffort
    ensures OpeningFor(51) == SolidEffort && OpeningFor(50) == WorkToDo
  {
  }

  /** The vocabulary remark: one text for C1 and C2, one for B1 and B2, one for A1 and A2. */
  function VocabRemark(level: Scoring.Level): string {
    if level == Scoring.C2 || level == Scoring.C1 then
      VocabHigh
    else if level == Scoring.B2 || level == Scoring.B1 then
      VocabMid
    else
      VocabLow
  }

  /** Two levels get the same vocabulary remark exactly when they share a letter. */
  lemma VocabRemarkByLetter(l1: Scoring.Level, l2: Scoring.Level)
    ensures VocabRemark(l1) == VocabRemark(l2) <==> l1.Rank() / 2 == l2.Rank() / 2
  {
    var c, b, a := VocabRemark(Scoring.C1), VocabRemark(Scoring.B1), VocabRemark(Scoring.A1);
    assert |c| != |b| && |b| != |a| && |c| != |a|;
  }

  const VocabHigh := "Your lexical resource is sophisticated. You handled abstract concepts and nuance effectively."
  const VocabMid := "You manage standard communication well, but struggle slightly with lower-frequency academic terms."
  const VocabLow := "We need to build your core lexicon. Focus on high-frequency academic word lists first."

  /** `xs.join(sep)`. */
  function Join(xs: seq<string>, sep: string): string
    decreases |xs|
  {
    if xs == [] then ""
    else if |xs| == 1 then xs[0]
    else Join(xs[..|xs| - 1], sep) + sep + xs[|xs| - 1]
  }

  const Praise := "I can find no significant structural weaknesses. Your accuracy is commendable."
  const AttentionLead := "Pay close attention to these areas: "
  const AmongOthers := "Among others. "
  const Homework := "Reviewing the rules governing these structures is your next homework."

  /** The grammar remark for the list of weak areas. */
  function GrammarRemark(weak: seq<string>): string {
    if |weak| == 0 then Praise
    else
      AttentionLead + Join(weak[..Min(3, |weak|)], ", ") + ". " +
      (if |weak| > 3 then AmongOthers else "") + Homework
  }

  /** The heading of a section's paragraph, with the level reached. */
  function Heading(section: string, level: Scoring.Level): string {
    "\n\nRegarding " + section + " (" + level.Name() + "): "
  }

  /**
   * The whole comment, for the student's name, the two correct counts, the
   * two levels and the grammar analysis.
   */
  function Comment(studentName: string, vocabCorrect: nat, grammarCorrect: nat,
                   vocabLevel: Scoring.Level, grammarLevel: Scoring.Level,
                   analysis: seq<AreaStat>): string
  {
    Greeting(studentName) +
    OpeningFor(vocabCorrect + grammarCorrect).Text() +
    Heading("Vocabulary", vocabLevel) + VocabRemark(vocabLevel) +
    Heading("Grammar", grammarLevel) + GrammarRemark(WeakGrammarAreas(analysis))
  }

  /**
   * `getNagumoComment`: the comment is built up piece by piece with `+=`,
   * one paragraph per step below.
   */
  method GetNagumoComment(studentName: string, vocabCorrect: nat, grammarCorrect: nat,
                          vocabLevel: Scoring.Level, grammarLevel: Scoring.Level,
                          analysis: seq<AreaStat>) returns (comment: string)
    ensures comment == Comment(studentName, vocabCorrect, grammarCorrect, vocabLevel, grammarLevel, analysis)
  {
    var totalPercentage := vocabCorrect + grammarCorrect;
    var weakGrammarAreas := WeakGrammarAreas(analysis);

    comment := "Listen up, " + DisplayName(studentName) + ". Here is your evaluation. ";
    comment := AddOpening(comment, totalPercentage);
    comment := AddVocabulary(comment, vocabLevel);
    comment := AddGrammar(comment, grammarLevel, weakGrammarAreas);
  }

  /** The intro sentence for the overall percentage (App.tsx:396-399). */
  method AddOpening(comment: string, totalPercentage: int) returns (r: string)
    ensures r == comment + OpeningFor(totalPercentage).Text()
  {
    if totalPercentage > 90 {
      r := comment + ExcellentOpening;
    } else if totalPercentage > 75 {
      r := comment + ImpressiveOpening;
    } else if totalPercentage > 50 {
      r := comment + SolidOpening;
    } else {
      r := comment + WorkOpening;
    }
  }

  /** The vocabulary paragraph (App.tsx:402-405). */
  method AddVocabulary(comment: string, vocabLevel: Scoring.Level) returns (r: string)
    ensures r == comment + Heading("Vocabulary", vocabLevel) + VocabRemark(vocabLevel)
  {
    r := comment + Heading("Vocabulary", vocabLevel);
    if vocabLevel == Scoring.C2 || vocabLevel == Scoring.C1 {
      r := r + VocabHigh;
    } else if vocabLevel == Scoring.B2 || vocabLevel == Scoring.B1 {
      r := r + VocabMid;
    } else {
      r := r + VocabLow;
    }
  }

  /** The grammar paragraph (App.tsx:408-413). */
  method AddGrammar(comment: string, grammarLevel: Scoring.Level, weakGrammarAreas: seq<string>) returns (r: string)
    ensures r == comment + Heading("Grammar", grammarLevel) + GrammarRemark(weakGrammarAreas)
  {
    r := comment + Heading("Grammar", grammarLevel);
    if |weakGrammarAreas| == 0 {
      r := r + Praise;
    } else {
      r := r + (AttentionLead + Join(weakGrammarAreas[..Min(3, |weakGrammarAreas|)], ", ") + ". " +
                (if |weakGrammarAreas| > 3 then AmongOthers else "") + Homework);
    }
  }

  // ----- What the text says -----

  predicate EndsWith(s: string, t: string) {
    |t| <= |s| && s[|s| - |t|..] == t
  }

  lemma EndsWithAppend(a: string, b: string, t: string)
    requires EndsWith(b, t)
    ensures EndsWith(a + b, t)
  {
    assert (a + b)[|a + b| - |t|..] == b[|b| - |t|..];
  }

  /** A common tail can be cancelled from both sides of `EndsWith`. */
  lemma EndsWithCancel(a: string, c: string, b: string)
    requires EndsWith(a + b, c + b)
    ensures EndsWith(a, c)
  {
    var s := a + b;
    assert s[|s| - |c + b|..][..|c|] == c;
    assert a[|a| - |c|..] == s[|s| - |c + b|..][..|c|];
  }

  lemma SuffixChar(s: string, t: string, k: int)
    ensures EndsWith(s, t) && 0 <= k < |t| ==> t[k] == s[|s| - |t| + k]
  {
  }

  /**
   * When s has a separator character and a space at p and p + 1, a suffix of
   * s that does not start with a space and does not contain the separator
   * lies within the text after them.
   */
  lemma SeparatedSuffix(s: string, p: nat, t: string)
    requires p + 2 <= |s| && s[p + 1] == ' ' && EndsWith(s, t)
    requires |t| >= 1 && t[0] != ' ' && forall i :: 0 <= i < |t| ==> t[i] != s[p]
    ensures EndsWith(s[p + 2..], t)
  {
    SuffixChar(s, t, 0);
    SuffixChar(s, t, |t| - (|s| - p));
    if |t| <= |s| - p - 2 {
      assert s[p + 2..][|s| - p - 2 - |t|..] == s[|s| - |t|..];
    }
  }

  lemma JoinOne(xs: seq<string>, sep: string)
    requires |xs| == 1
    ensures Join(xs, sep) == xs[0]
  {
  }

  lemma JoinSnoc(xs: seq<string>, sep: string)
    requires |xs| > 1
    ensures Join(xs, sep) == Join(xs[..|xs| - 1], sep) + sep + xs[|xs| - 1]
  {
  }

  /**
   * In the lead-in followed by the joined list, the last area is preceded by
   * a separator character (the colon of the lead-in or a comma) and a space.
   */
  lemma LastAreaSeparated(xs: seq<string>, head: string) returns (p: nat)
    requires |xs| >= 1
    ensures var s := head + AttentionLead + Join(xs, ", ");
            p + 2 <= |s| && (s[p] == ':' || s[p] == ',') && s[p + 1] == ' ' &&
            s[p + 2..] == xs[|xs| - 1]
  {
    var lead := head + AttentionLead;
    var joined := Join(xs, ", ");
    var s := lead + joined;
    if |xs| == 1 {
      JoinOne(xs, ", ");
      p := |lead| - 2;
      assert s[p] == AttentionLead[|AttentionLead| - 2];
      assert s[p + 1] == AttentionLead[|AttentionLead| - 1];
      assert s[p + 2..] == joined;
    } else {
      var before := Join(xs[..|xs| - 1], ", ");
      JoinSnoc(xs, ", ");
      p := |lead| + |before|;
      assert s[p] == joined[|before|];
      assert s[p + 1] == joined[|before| + 1];
      assert s[p + 2..] == joined[|before| + 2..];
    }
  }

  /**
   * A suffix without commas or colons that does not start with a space lies
   * within the last area of the list that follows the lead-in.
   */
  lemma ListSuffix(xs: seq<string>, head: string, t: string)
    requires |xs| >= 1 && EndsWith(head + AttentionLead + Join(xs, ", "), t)
    requires |t| >= 1 && t[0] != ' '
    requires forall i :: 0 <= i < |t| ==> t[i] != ',' && t[i] != ':'
    ensures EndsWith(xs[|xs| - 1], t)
  {
    var p := LastAreaSeparated(xs, head);
    SeparatedSuffix(head + AttentionLead + Join(xs, ", "), p, t);
  }

  /** A string that ends in t has t's characters at its end. */
  lemma EndsWithChar(s: string, t: string, i: nat)
    requires i < |t|
    ensures EndsWith(s, t) ==> s[|s| - |t| + i] == t[i]
  {
    if EndsWith(s, t) {
      assert s[|s| - |t|..][i] == t[i];
    }
  }

  /** A string whose fourth character from the end is not 'h' does not end in "Among others". */
  lemma NotEndingInOthers(l: string)
    requires |l| >= 4 && l[|l| - 4] != 'h'
    ensures !EndsWith(l, "Among others")
  {
    EndsWithChar(l, "Among others", 8);
  }

  /** The fourth character from the end of every label. */
  lemma LabelFourthFromEnd(area: Option<GrammarArea>)
    ensures |GetGrammarAreaLabel(area)| >= 4 && GetGrammarAreaLabel(area)[|GetGrammarAreaLabel(area)| - 4] != 'h'
  {
    var l := GetGrammarAreaLabel(area);
    match area {
      case None => assert l[|l| - 4] == 'A';
      case Some(a) =>
        match a {
          case Tenses => assert l[|l| - 4] == 'o';
          case ArticlesQuantifiers => assert l[|l| - 4] == 'i';
          case AdjectivesAdverbs => assert l[|l| - 4] == 'e';
          case Prepositions => assert l[|l| - 4] == 'i';
          case Modals => assert l[|l| - 4] == 'd';
          case GerundsInfinitives => assert l[|l| - 4] == 'i';
          case Conditionals => assert l[|l| - 4] == 's';
          case RelativeClauses => assert l[|l| - 4] == 'u';
          case PassiveVoice => assert l[|l| - 4] == 'o';
          case Connectors => assert l[|l| - 4] == 'u';
          case WordFormation => assert l[|l| - 4] == 't';
          case LegacyTensesFuture => assert l[|l| - 4] == 'n';
        }
    }
  }

  /** No label the analysis can produce ends in "Among others". */
  lemma LabelNotAmongOthers(area: Option<GrammarArea>)
    ensures !EndsWith(GetGrammarAreaLabel(area), "Among others")
  {
    LabelFourthFromEnd(area);
    NotEndingInOthers(GetGrammarAreaLabel(area));
  }

  /** The comment for a result, from the bank, the answers and the name. */
  function ResultComment(bank: seq<Question>, answers: map<string, string>, studentName: string): string {
    var vocab := Scoring.SectionQuestions(bank, Vocabulary);
    var grammar := Scoring.SectionQuestions(bank, Grammar);
    var vc := Scoring.CountCorrect(vocab, answers);
    var gc := Scoring.CountCorrect(grammar, answers);
    Comment(studentName, vc, gc, Scoring.GetLevel(vc, |vocab|), Scoring.GetLevel(gc, |grammar|),
            Analysis(bank, answers))
  }

  /**
   * The praise sentence closes the comment exactly when no grammar area is
   * below 60%.
   */
  lemma PraiseIffNoWeakArea(bank: seq<Question>, answers: map<string, string>, studentName: string)
    ensures EndsWith(ResultComment(bank, answers, studentName), Praise) <==>
            forall e :: e in Analysis(bank, answers) ==> !IsWeak(e)
  {
    var c := ResultComment(bank, answers, studentName);
    var weak := WeakGrammarAreas(Analysis(bank, answers));
    var remark := GrammarRemark(weak);
    var head := c[..|c| - |remark|];
    assert c == head + remark;
    if weak == [] {
      EndsWithAppend(head, remark, Praise);
      forall e | e in Analysis(bank, answers) ensures !IsWeak(e) {
        assert e.area !in weak;
      }
    } else {
      var front := remark[..|remark| - |Homework|];
      assert remark == front + Homework;
      assert c[|c| - 2] == 'k' != Praise[|Praise| - 2];
      assert weak[0] in weak;
    }
  }

  lemma Regroup(h: string, a: string, j: string, d: string, m: string)
    ensures h + (a + j + d + m) == (h + a + j) + (d + m)
  {
  }

  lemma RemarkMany(head: string, weak: seq<string>)
    requires |weak| > 3
    ensures EndsWith(head + GrammarRemark(weak), AmongOthers + Homework)
  {
    var front := AttentionLead + Join(weak[..3], ", ") + ". ";
    assert GrammarRemark(weak) == front + (AmongOthers + Homework);
    EndsWithAppend(front, AmongOthers + Homework, AmongOthers + Homework);
    EndsWithAppend(head, GrammarRemark(weak), AmongOthers + Homework);
  }

  lemma RemarkNone(head: string)
    ensures !EndsWith(head + GrammarRemark([]), AmongOthers + Homework)
  {
    var s := head + Praise;
    SuffixChar(s, AmongOthers + Homework, |AmongOthers + Homework| - 2);
    assert s[|s| - 2] == Praise[|Praise| - 2];
  }

  lemma AppendEmpty(x: string, y: string)
    ensures x + "" + y == x + y
  {
  }

  lemma FewShape(weak: seq<string>)
    requires 1 <= |weak| <= 3
    ensures GrammarRemark(weak) == AttentionLead + Join(weak, ", ") + ". " + Homework
  {
    assert weak[..Min(3, |weak|)] == weak;
    AppendEmpty(AttentionLead + Join(weak, ", ") + ". ", Homework);
  }

  lemma ClosingSplit()
    ensures AmongOthers + Homework == "Among others" + (". " + Homework)
  {
  }

  lemma RemarkFew(head: string, weak: seq<string>)
    requires 1 <= |weak| <= 3 && !EndsWith(weak[|weak| - 1], "Among others")
    ensures !EndsWith(head + GrammarRemark(weak), AmongOthers + Homework)
  {
    var joined := Join(weak, ", ");
    var front := head + AttentionLead + joined;
    FewShape(weak);
    Regroup(head, AttentionLead, joined, ". ", Homework);
    ClosingSplit();
    if EndsWith(front + (". " + Homework), "Among others" + (". " + Homework)) {
      EndsWithCancel(front, "Among others", ". " + Homework);
      ListSuffix(weak, head, "Among others");
    }
  }

  /**
   * The grammar remark closes with "Among others." and the homework exactly
   * when more than three areas are weak, provided the last listed area does
   * not itself end in "Among others".
   */
  lemma RemarkAmongOthers(head: string, weak: seq<string>)
    requires |weak| >= 1 ==> !EndsWith(weak[|weak| - 1], "Among others")
    ensures EndsWith(head + GrammarRemark(weak), AmongOthers + Homework) <==> |weak| > 3
  {
    if |weak| > 3 {
      RemarkMany(head, weak);
    } else if |weak| == 0 {
      RemarkNone(head);
    } else {
      RemarkFew(head, weak);
    }
  }

  /** A weak area is the label of some grammar question, so it never ends in "Among others". */
  lemma WeakAreaIsALabel(bank: seq<Question>, answers: map<string, string>, l: string)
    requires l in WeakGrammarAreas(Analysis(bank, answers))
    ensures !EndsWith(l, "Among others")
  {
    var analysis := Analysis(bank, answers);
    var grammar := Scoring.SectionQuestions(bank, Grammar);
    var e :| e in analysis && IsWeak(e) && e.area == l;
    var i :| 0 <= i < |analysis| && analysis[i] == e;
    assert Areas(analysis)[i] == l;
    AnalysisFacts(bank, answers);
    assert l in Labels(grammar);
    var k :| 0 <= k < |grammar| && Labels(grammar)[k] == l;
    LabelNotAmongOthers(grammar[k].grammarArea);
  }

  /**
   * The comment closes with "Among others." and the homework exactly when
   * more than three grammar areas are below 60%.
   */
  lemma AmongOthersIffMoreThanThree(bank: seq<Question>, answers: map<string, string>, studentName: string)
    ensures EndsWith(ResultComment(bank, answers, studentName), AmongOthers + Homework) <==>
            |WeakGrammarAreas(Analysis(bank, answers))| > 3
  {
    var vocab := Scoring.SectionQuestions(bank, Vocabulary);
    var grammar := Scoring.SectionQuestions(bank, Grammar);
    var vc := Scoring.CountCorrect(vocab, answers);
    var gc := Scoring.CountCorrect(grammar, answers);
    var analysis := Analysis(bank, answers);
    var weak := WeakGrammarAreas(analysis);
    var head := Greeting(studentName) + OpeningFor(vc + gc).Text() +
                Heading("Vocabulary", Scoring.GetLevel(vc, |vocab|)) + VocabRemark(Scoring.GetLevel(vc, |vocab|)) +
                Heading("Grammar", Scoring.GetLevel(gc, |grammar|));
    assert ResultComment(bank, answers, studentName) == head + GrammarRemark(weak);
    if |weak| >= 1 {
      WeakAreaIsALabel(bank, answers, weak[|weak| - 1]);
    }
    RemarkAmongOthers(head, weak);
  }


  /**
   * Once a test has started the name is not blank, so the comment greets the
   * student by the name as entered.
   */
  lemma GreetsByName(s: Session.TestState)
    requires Session.ValidState(s) && s.status != Session.Intro
    ensures DisplayName(s.studentName) == s.studentName
  {
  }
}
