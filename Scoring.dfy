/**
 * The scoring engine of the result screen: `calculateScore`
 * (App.tsx:330-337), `getLevel` (App.tsx:343-351) and `getIeltsScore`
 * (App.tsx:356-366). Percentages are compared exactly: `score / total * 100 < p`
 * is `100 * score < p * total` for a positive total.
 */
module Scoring {
  import opened Types

  datatype SectionScore = SectionScore(correct: nat, total: nat)

  /** `QUESTIONS.filter(q => q.section === section)`, in bank order. */
  function SectionQuestions(bank: seq<Question>, section: Section): (qs: seq<Question>)
    ensures |qs| <= |bank|
    ensures forall q :: q in qs ==> q in bank && q.section == section
    ensures forall q :: q in bank && q.section == section ==> q in qs
    ensures forall q :: multiset(qs)[q] == if q.section == section then multiset(bank)[q] else 0
    decreases |bank|
  {
    if bank == [] then []
    else
      var rest := SectionQuestions(bank[..|bank| - 1], section);
      var q := bank[|bank| - 1];
      assert bank == bank[..|bank| - 1] + [q];
      assert forall x :: x in bank ==> x in bank[..|bank| - 1] || x == q;
      if q.section == section then rest + [q] else rest
  }

  /** How many of `qs` are answered with their correct option. */
  function CountCorrect(qs: seq<Question>, answers: map<string, string>): (n: nat)
    ensures n <= |qs|
    decreases |qs|
  {
    if qs == [] then 0
    else CountCorrect(qs[..|qs| - 1], answers) + (if IsCorrect(qs[|qs| - 1], answers) then 1 else 0)
  }

  /** How many of `qs` have an answer at all. */
  function CountAnswered(qs: seq<Question>, answers: map<string, string>): nat
    decreases |qs|
  {
    if qs == [] then 0
    else CountAnswered(qs[..|qs| - 1], answers) + (if qs[|qs| - 1].id in answers then 1 else 0)
  }

  /**
   * `calculateScore(section)`: a counter incremented for every question of
   * the section whose recorded answer is its correct option. The total is the
   * number of the section's questions, however many were answered.
   */
  method CalculateScore(bank: seq<Question>, answers: map<string, string>, section: Section) returns (score: SectionScore)
    ensures score.total == |SectionQuestions(bank, section)|
    ensures score.correct == CountCorrect(SectionQuestions(bank, section), answers)
    ensures score.correct <= score.total
  {
    var sectionQuestions := SectionQuestions(bank, section);
    var correct := 0;
    for i := 0 to |sectionQuestions|
      invariant correct == CountCorrect(sectionQuestions[..i], answers)
    {
      assert sectionQuestions[..i + 1][..i] == sectionQuestions[..i];
      if IsCorrect(sectionQuestions[i], answers) {
        correct := correct + 1;
      }
    }
    assert sectionQuestions[..|sectionQuestions|] == sectionQuestions;
    score := SectionScore(correct, |sectionQuestions|);
  }

  /** Every question of the bank is in exactly one of the two sections. */
  lemma {:induction false} SectionsPartitionBank(bank: seq<Question>)
    ensures |SectionQuestions(bank, Vocabulary)| + |SectionQuestions(bank, Grammar)| == |bank|
    decreases |bank|
  {
    if bank != [] {
      SectionsPartitionBank(bank[..|bank| - 1]);
    }
  }

  /**
   * An unanswered question never counts as correct: the correct count is at
   * most the number of answered questions, which is at most the total.
   */
  lemma {:induction false} CorrectOnlyIfAnswered(qs: seq<Question>, answers: map<string, string>)
    ensures CountCorrect(qs, answers) <= CountAnswered(qs, answers) <= |qs|
    decreases |qs|
  {
    if qs != [] {
      CorrectOnlyIfAnswered(qs[..|qs| - 1], answers);
    }
  }

  /** With every question answered correctly, the count is the total. */
  lemma {:induction false} AllCorrectScoresTotal(qs: seq<Question>, answers: map<string, string>)
    requires forall q :: q in qs ==> IsCorrect(q, answers)
    ensures CountCorrect(qs, answers) == |qs|
    decreases |qs|
  {
    if qs != [] {
      AllCorrectScoresTotal(qs[..|qs| - 1], answers);
    }
  }

  // ----- Levels -----

  /** The six proficiency bands, lowest first. */
  datatype Level = A1 | A2 | B1 | B2 | C1 | C2 {
    function Name(): string {
      match this
      case A1 => "A1" case A2 => "A2" case B1 => "B1"
      case B2 => "B2" case C1 => "C1" case C2 => "C2"
    }

    function Rank(): nat {
      match this
      case A1 => 0 case A2 => 1 case B1 => 2
      case B2 => 3 case C1 => 4 case C2 => 5
    }

    /** The inclusive lower bound of the band, in percent. */
    function LowerCut(): nat {
      match this
      case A1 => 0 case A2 => 20 case B1 => 40
      case B2 => 60 case C1 => 80 case C2 => 90
    }

    /** The exclusive upper bound of the band, in percent; C2 has none. */
    function UpperCut(): nat
      requires this != C2
    {
      match this
      case A1 => 20 case A2 => 40 case B1 => 60
      case B2 => 80 case C1 => 90
    }
  }

  /** `score / total * 100` lies in the band of `l` (for a positive total). */
  predicate InBand(l: Level, score: nat, total: nat)
    requires total > 0
  {
    l.LowerCut() * total <= 100 * score &&
    (l != C2 ==> 100 * score < l.UpperCut() * total)
  }

  /**
   * `getLevel(score, total)`. With a zero total the source divides 0 by 0;
   * every comparison with NaN is false and the chain falls through to C2.
   */
  function GetLevel(score: nat, total: nat): (l: Level)
    ensures total > 0 ==> InBand(l, score, total)
    ensures total == 0 ==> l == C2
  {
    if total == 0 then C2
    else if 100 * score < 20 * total then A1
    else if 100 * score < 40 * total then A2
    else if 100 * score < 60 * total then B1
    else if 100 * score < 80 * total then B2
    else if 100 * score < 90 * total then C1
    else C2
  }

  /**
   * The bands do not overlap, so the level is the one band the percentage
   * falls in: a level is in band exactly when it is `GetLevel`'s answer.
   */
  lemma GetLevelIsTheBand(l: Level, score: nat, total: nat)
    requires total > 0
    ensures InBand(l, score, total) <==> l == GetLevel(score, total)
  {
  }

  lemma MulLe(a: int, b: int, c: int)
    requires a <= b && c >= 0
    ensures a * c <= b * c
  {
  }

  lemma CancelPositive(a: int, b: int, c: int)
    requires a * c <= b * c && c > 0
    ensures a <= b
  {
    if a > b {
      MulLe(b + 1, a, c);
    }
  }

  /**
   * A percentage at or above a cut point stays there for any ratio at least
   * as large: `c <= 100 s1 / t1` and `s1 / t1 <= s2 / t2` give `c <= 100 s2 / t2`.
   */
  lemma CutPreserved(c: nat, s1: nat, t1: nat, s2: nat, t2: nat)
    requires t1 > 0 && t2 > 0
    requires s1 * t2 <= s2 * t1
    requires c * t1 <= 100 * s1
    ensures c * t2 <= 100 * s2
  {
    MulLe(c * t1, 100 * s1, t2);
    MulLe(s1 * t2, s2 * t1, 100);
    assert (c * t2) * t1 == (c * t1) * t2;
    assert (100 * s1) * t2 == (s1 * t2) * 100;
    assert (s2 * t1) * 100 == (100 * s2) * t1;
    CancelPositive(c * t2, 100 * s2, t1);
  }

  /**
   * `getLevel` is monotone in the percentage: a ratio at least as good never
   * earns a lower band, whatever the two totals.
   */
  lemma GetLevelMonotone(s1: nat, t1: nat, s2: nat, t2: nat)
    requires t1 > 0 && t2 > 0
    requires s1 * t2 <= s2 * t1
    ensures GetLevel(s1, t1).Rank() <= GetLevel(s2, t2).Rank()
  {
    var l1 := GetLevel(s1, t1);
    CutPreserved(l1.LowerCut(), s1, t1, s2, t2);
  }

  /** The cut points as the source states them: 20%, 40%, 60%, 80% and 90% start a new band. */
  lemma GetLevelBoundaries()
    ensures GetLevel(0, 100) == A1 && GetLevel(19, 100) == A1
    ensures GetLevel(20, 100) == A2 && GetLevel(1, 5) == A2 && GetLevel(39, 100) == A2
    ensures GetLevel(40, 100) == B1 && GetLevel(59, 100) == B1
    ensures GetLevel(60, 100) == B2 && GetLevel(79, 100) == B2
    ensures GetLevel(80, 100) == C1 && GetLevel(89, 100) == C1
    ensures GetLevel(90, 100) == C2 && GetLevel(9, 10) == C2 && GetLevel(100, 100) == C2
  {
  }

  /**
   * `getIeltsScore(level)`: a fixed range string per level name, and "0" for
   * any other string.
   */
  function GetIeltsScore(level: string): string {
    match level
    case "A1" => "2.0 - 2.5"
    case "A2" => "3.0 - 3.5"
    case "B1" => "4.0 - 5.0"
    case "B2" => "5.5 - 6.5"
    case "C1" => "7.0 - 8.0"
    case "C2" => "8.5 - 9.0"
    case _ => "0"
  }

  /** Only a string that names no level gets "0". */
  lemma IeltsZeroOnlyForNonLevels(level: string)
    ensures GetIeltsScore(level) == "0" <==> forall l: Level :: l.Name() != level
  {
    if GetIeltsScore(level) != "0" {
      var l := match level
        case "A1" => A1 case "A2" => A2 case "B1" => B1
        case "B2" => B2 case "C1" => C1 case _ => C2;
      assert l.Name() == level;
    }
  }

  /** Distinct levels get distinct ranges. */
  lemma IeltsDistinguishesLevels(l1: Level, l2: Level)
    ensures l1 != l2 ==> GetIeltsScore(l1.Name()) != GetIeltsScore(l2.Name())
  {
  }
}
