/**
 * The data model of the assessment (types.ts): the two sections, the
 * grammar sub-topics, and the question record that the question bank holds.
 */
module Types {

  datatype Option<T> = None | Some(value: T)

  /** `Section` (types.ts:1-4): the two question categories. */
  datatype Section = Vocabulary | Grammar

  /**
   * `GrammarArea` (types.ts:6-18): eleven sub-topics, each with its display
   * string. `LegacyTensesFuture` stands for the value `GrammarArea.TENSES_FUTURE`
   * that App.tsx:29 compares against; the enum as declared has no such member,
   * so `Declared()` is false for it and it has no display string of its own.
   */
  datatype GrammarArea =
    | Tenses
    | ArticlesQuantifiers
    | AdjectivesAdverbs
    | Prepositions
    | Modals
    | GerundsInfinitives
    | Conditionals
    | RelativeClauses
    | PassiveVoice
    | Connectors
    | WordFormation
    | LegacyTensesFuture
  {
    predicate Declared() {
      !LegacyTensesFuture?
    }

    function Value(): string
      requires Declared()
    {
      match this
      case Tenses => "Tenses & Future Forms"
      case ArticlesQuantifiers => "Articles & Quantifiers"
      case AdjectivesAdverbs => "Adjectives & Adverbs"
      case Prepositions => "Prepositions"
      case Modals => "Modals"
      case GerundsInfinitives => "Gerunds & Infinitives"
      case Conditionals => "Conditionals & Wishes"
      case RelativeClauses => "Relative Clauses"
      case PassiveVoice => "Passive Voice"
      case Connectors => "Connectors & Discourse"
      case WordFormation => "Word Formation"
    }
  }

  /** The members of the enum in declaration order. */
  const DeclaredAreas: seq<GrammarArea> :=
    [Tenses, ArticlesQuantifiers, AdjectivesAdverbs, Prepositions, Modals,
     GerundsInfinitives, Conditionals, RelativeClauses, PassiveVoice,
     Connectors, WordFormation]

  /**
   * The enum has exactly eleven members, the legacy value is not one of them,
   * and no two members share a display string.
   */
  lemma DeclaredAreasExact()
    ensures |DeclaredAreas| == 11
    ensures forall a: GrammarArea :: a.Declared() <==> a in DeclaredAreas
    ensures forall i, j :: 0 <= i < j < |DeclaredAreas| ==>
              DeclaredAreas[i].Value() != DeclaredAreas[j].Value()
  {
  }

  /** One entry of `Object.entries(q.options)`: an option key and its text. */
  datatype OptionEntry = OptionEntry(key: string, text: string)

  /**
   * The `options` field as the shuffler finds it: an object (given by its
   * entries in `Object.entries` order) or, as the null check at App.tsx:131
   * allows for, something that is not an object.
   */
  datatype OptionsField = Entries(entries: seq<OptionEntry>) | NotAnObject

  /** `Question` (types.ts:20-28). `correctOption` names an option by its key. */
  datatype Question = Question(
    id: string,
    text: string,
    options: OptionsField,
    correctOption: string,
    section: Section,
    grammarArea: Option<GrammarArea>,
    explanation: Option<string>)

  /**
   * `answers[q.id] === q.correctOption` (App.tsx:334, 377): a missing answer
   * reads as `undefined`, which equals no string, so an unanswered question is
   * never correct.
   */
  predicate IsCorrect(q: Question, answers: map<string, string>) {
    q.id in answers && answers[q.id] == q.correctOption
  }
}
