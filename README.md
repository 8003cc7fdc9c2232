# Vocabulary and grammar assessment: a Dafny model

This project models the logic of a single-page English placement test.
- **Intro screen.** The student enters a name and chooses whether to run a 50-minute countdown.
- **Test screen.** The student answers multiple-choice questions from a fixed bank. There are two sections, Vocabulary and Grammar, and each Grammar question carries a grammar area. The option order of every question is shuffled once. The countdown can be extended by ten minutes at most three times.
- **Result screen.** The score per section, an approximate Cambridge level (A1 to C2) with its IELTS range, a per-area grammar analysis sorted weakest first, and a written comment from the examiner.

The model covers `types.ts` and the logic of `App.tsx`. Each file has a module:

- `Types` — `Section`, `GrammarArea` and the `Question` record, plus the correctness test `answers[q.id] === q.correctOption`.
- `Shuffle` — the Fisher–Yates `shuffleArray`, run on a copy held in an array. The random draws come in as a parameter. Also the per-question cache of shuffled options.
- `TimeFormat` — `formatTime` (`mm:ss`) and a parser of that format, which shows that the printed time determines the number of seconds.
- `Session` — `TestState` and every update the component applies to it. The React updaters `prev => next` are pure functions. Class `App` holds the two state cells, `testState` and `timeTaken`, and whether the countdown interval is set. It has one method per event handler or timer firing, each keeping the session invariant. The countdown interval clears itself on the first firing that finds no time left, and `extendTime` does not set it again: ten minutes granted after the countdown has reached zero are never counted down.
- `Scoring` — `calculateScore`, `getLevel` and `getIeltsScore`. Percentages are compared exactly, by cross-multiplication.
- `GrammarAnalysis` — `getGrammarAreaLabel` and `grammarAnalysis`. It groups questions by label in an insertion-ordered dictionary, lists its entries, then stable-sorts them by percentage, ascending.
- `Narrative` — `getNagumoComment`, the comment built up with `+=`, and what the finished text says.

## Model

| member | source | states |
|---|---|---|
| Types.DeclaredAreasExact | types.ts:6-18 | The enum has exactly eleven grammar areas, each with a distinct display string; the legacy `TENSES_FUTURE` value is not one of them |
| Shuffle.Swap | App.tsx:14 | The destructuring swap exchanges positions i and j, leaves every other position alone and keeps the multiset |
| Shuffle.FisherYates | App.tsx:12-15 | The descending loop of swaps keeps the length and the multiset of its input |
| Shuffle.ShuffledIsPermutation | App.tsx:10-17 | Whatever indices are drawn, `shuffleArray` returns a permutation of its input; an input of at most one element comes back unchanged |
| Shuffle.ShuffleArray | App.tsx:10-17 | The in-place loop over a fresh copy returns exactly the Fisher–Yates result for the draws, a permutation of the input |
| Shuffle.ShuffledOptionsMap | App.tsx:126-140 | The cache has an entry for exactly the ids of the bank |
| Shuffle.ShuffledOptionsArePermutations | App.tsx:129-137 | The entry stored for a question id is a permutation of that question's option entries (the last question with that id wins); no option is lost or duplicated |
| Shuffle.BuildShuffledOptionsMap | App.tsx:126-140 | The `forEach` over the bank builds the cache defined above, keyed by the bank's ids; a question whose options are not an object gets no options |
| TimeFormat.NatToString | App.tsx:23 | `toString` of a number gives at least one digit, a single digit exactly below 10, and no leading zero otherwise |
| TimeFormat.PadStart2 | App.tsx:23 | `padStart(2, '0')` gives length max(2, len), keeps the string as its suffix and pads only with zeros |
| TimeFormat.FormatTimeShape | App.tsx:20-24 | A display has at least five characters with the colon third from the end; the two digits after it read as the seconds within the minute, the digits before it as the whole minutes; it is exactly five characters long when the time is under 100 minutes |
| TimeFormat.FormatTimeRoundTrip | App.tsx:20-24 | Reading `mm:ss` back gives the original number of seconds, so no two durations are formatted alike |
| Session.Trim | App.tsx:42 | `trim()` is empty exactly when the name is all whitespace and otherwise neither starts nor ends with whitespace |
| Session.Answered | App.tsx:158-163 | `handleAnswer` sets the answer for that id, keeps every other answer and every other field |
| Session.Countdown | App.tsx:146-152 | One countdown tick lowers a positive remaining time by one second and returns the state unchanged at zero or below |
| Session.Extended | App.tsx:165-172 | `extendTime` adds 600 seconds and one extension while fewer than three are used, and otherwise changes nothing |
| Session.Submitted | App.tsx:694-697 | `submitTest` sets the status to finished and changes nothing else |
| Session.Fire | App.tsx:145-153 | A firing of the countdown interval applies `Countdown` while the interval is set and changes nothing once it is cleared; the interval stays set exactly when it was set and time was left |
| Session.CountdownStopsAtZero | App.tsx:145-153 | From t seconds with the interval set, n firings leave max(t − n, 0) seconds and touch no other field; the interval is still set exactly when n ≤ t, because the firing that finds zero clears it |
| Session.ExtensionAfterZeroIsNeverSpent | App.tsx:145-172 | Once the firing at zero has cleared the interval, ten minutes granted by `extendTime` stay at 600 seconds through any number of later seconds, since nothing sets the interval again |
| Session.ExtensionBudget | App.tsx:165-172 | However many times `extendTime` is called, at most three extensions are granted, each adding 600 seconds |
| Session.FourthExtensionIsRefused | App.tsx:166-170 | From zero extensions, three calls add 1800 seconds and a fourth changes nothing |
| Session.AnswerOverwrites | App.tsx:158-163 | A second answer to the same question replaces the first, and repeating an answer changes nothing |
| Session.AnswersCommute | App.tsx:158-163 | Answers to different questions can be given in either order |
| Session.App.constructor | App.tsx:649-659 | The component starts on the intro screen without a timer, with 3000 seconds, no answers, no extensions, an empty name and `timeTaken` 0 |
| Session.App.HandleStart | App.tsx:41-47 | A name that is blank after trimming is refused and nothing changes; any other name starts a session |
| Session.App.StartTest | App.tsx:681-692 | A new active session with 3000 seconds, no answers, no extensions and the given name and timer choice; `timeTaken` is reset to 0 and the countdown interval is set exactly when the timer is enabled |
| Session.App.HandleAnswer | App.tsx:158-163 | Applies `Answered` to the state and keeps the session invariant |
| Session.App.CountdownTick | App.tsx:142-156 | One second of the countdown is `Fire` on the state and the interval flag: nothing happens while the interval is not set, the firing at zero clears it and leaves the state, any other takes a second off; the interval is only ever set in a timed, active session |
| Session.App.ElapsedTick | App.tsx:662-679 | `timeTaken` grows by one second exactly while the test is active, timer or not |
| Session.App.ExtendTime | App.tsx:165-172 | Applies `Extended`, keeps at most three extensions, and neither sets nor clears the countdown interval |
| Session.App.SubmitTest | App.tsx:694-697 | Applies `Submitted` and clears the countdown interval; `timeTaken` is kept for the result screen |
| Session.App.RestartTest | App.tsx:699-708 | Back to the initial intro state with the answers discarded and no countdown interval; `timeTaken` is not reset |
| Scoring.SectionQuestions | App.tsx:331 | The filter keeps exactly the bank's questions of that section, each as often as it occurs in the bank, and no others |
| Scoring.CalculateScore | App.tsx:330-337 | The counter loop returns the number of correctly answered questions of the section and the section size as the total, correct ≤ total |
| Scoring.SectionsPartitionBank | App.tsx:339-340 | Every question of the bank is counted in exactly one of the two sections |
| Scoring.CorrectOnlyIfAnswered | App.tsx:334 | An unanswered question never counts as correct: correct ≤ answered ≤ total |
| Scoring.AllCorrectScoresTotal | App.tsx:332-336 | With every question answered correctly the score is the total |
| Scoring.GetLevel | App.tsx:343-351 | The level is the band the percentage lies in; with a zero total (0/0) it is C2 |
| Scoring.GetLevelIsTheBand | App.tsx:343-351 | The bands do not overlap: a level contains the percentage exactly when `getLevel` returns it |
| Scoring.GetLevelMonotone | App.tsx:343-351 | A percentage at least as high never earns a lower level, whatever the two totals |
| Scoring.GetLevelBoundaries | App.tsx:345-350 | 20, 40, 60, 80 and 90 percent each start the next band |
| Scoring.IeltsZeroOnlyForNonLevels | App.tsx:356-366 | `getIeltsScore` answers "0" exactly for a string that names no level |
| Scoring.IeltsDistinguishesLevels | App.tsx:357-363 | Different levels get different IELTS ranges |
| GrammarAnalysis.LabelsDistinguishAreas | App.tsx:27-31 | Different areas get different labels, and every declared area is shown by its own display string, never "Verb Tenses" |
| GrammarAnalysis.IndexOf | App.tsx:375 | The dictionary lookup finds an entry with that label, or reports that none has it |
| GrammarAnalysis.TallyAreasFirstSeen | App.tsx:373-380 | The dictionary's entries come in the order their labels first occur among the Grammar questions |
| GrammarAnalysis.FirstSeenOrder | App.tsx:380 | An earlier entry's label first occurs earlier among the questions |
| GrammarAnalysis.TallyCounts | App.tsx:373-378 | Each entry counts exactly its label's questions and their correct answers; the totals add up to the number of Grammar questions |
| GrammarAnalysis.TallyEntries | App.tsx:369-380 | One entry per distinct label, each with a positive total and correct ≤ total |
| GrammarAnalysis.RatioTrans | App.tsx:383 | Comparing percentages by cross-multiplication is transitive for positive totals |
| GrammarAnalysis.Insert | App.tsx:383 | Inserting one entry adds it to the multiset |
| GrammarAnalysis.SortByPercentage | App.tsx:383 | The sort returns a permutation of the entries |
| GrammarAnalysis.SortSorted | App.tsx:383 | The result is ascending by percentage |
| GrammarAnalysis.SortIsStable | App.tsx:383 | Entries of equal percentage keep their order |
| GrammarAnalysis.AnalysisFacts | App.tsx:369-384 | The analysis has one entry per distinct grammar label with exact counts, is a permutation of the dictionary's entries, ascending by percentage, and keeps insertion order among ties |
| GrammarAnalysis.KeyPosition | App.tsx:375-377 | A label already in the dictionary is found at its own entry, whose counts are the stored ones |
| GrammarAnalysis.CountAnswer | App.tsx:374-377 | Creating a missing entry, then `total++` and `correct++` on a hit, leaves the dictionary holding the entries after one more question |
| GrammarAnalysis.ListEntries | App.tsx:380 | `Object.entries` lists the dictionary's entries in insertion order |
| GrammarAnalysis.AnalyzeGrammar | App.tsx:369-384 | The filter, count and sort produce exactly the analysis specified above |
| Narrative.WeakGrammarAreas | App.tsx:390 | A label is listed exactly when some entry of the analysis has it and is below 60% |
| Narrative.StrongStaysStrong | App.tsx:390 | An entry at or above 60% is followed, in a sorted analysis, only by entries at or above 60% |
| Narrative.WeakAreasLead | App.tsx:390 | In the sorted analysis the weak areas are exactly the leading entries, in order |
| Narrative.ListsTheWeakest | App.tsx:412 | The up to three areas named are the weakest ones: the first entries, each below 60%, none of the unnamed areas lower |
| Narrative.DisplayName | App.tsx:393 | `studentName \|\| 'student'` shows the name when it is non-empty and "student" otherwise |
| Narrative.OpeningFor | App.tsx:396-399 | The top opening is said exactly above 90 and the harshest exactly at 50 or below |
| Narrative.OpeningMonotone | App.tsx:396-399 | More correct answers never earn a harsher opening |
| Narrative.OpeningBoundaries | App.tsx:396-399 | The cut points 90, 75 and 50 are strict |
| Narrative.VocabRemarkByLetter | App.tsx:403-405 | Two levels get the same vocabulary remark exactly when they share a letter |
| Narrative.GetNagumoComment | App.tsx:387-416 | The comment built with `+=` is the greeting, the opening, the vocabulary paragraph and the grammar paragraph, as `Comment` defines them |
| Narrative.AddOpening | App.tsx:396-399 | Appends the opening that `OpeningFor` picks for the overall percentage |
| Narrative.AddVocabulary | App.tsx:402-405 | Appends the vocabulary heading with the level and the remark `VocabRemark` picks for it |
| Narrative.AddGrammar | App.tsx:408-413 | Appends the grammar heading with the level and the praise or the list of weak areas, as `GrammarRemark` defines it |
| Narrative.LabelNotAmongOthers | App.tsx:27-31 | No label ends in "Among others" |
| Narrative.PraiseIffNoWeakArea | App.tsx:409-410 | The comment ends with the praise sentence exactly when no grammar area is below 60% |
| Narrative.RemarkAmongOthers | App.tsx:412 | The grammar remark ends in "Among others." plus the homework exactly when more than three areas are weak |
| Narrative.AmongOthersIffMoreThanThree | App.tsx:412 | For any bank and answers, the comment says "Among others." exactly when more than three grammar areas are below 60% |
| Narrative.GreetsByName | App.tsx:393 | Once a session has started, the greeting uses the student's own name, which is never blank |

## Left out

- The rendering (JSX, CSS, the submit dialog, the active-section tabs, the progress bar, the time-critical colouring) and the PDF report: these are presentation, not logic.
- `useEffect` and `setInterval`: each interval is modelled by a tick method (`CountdownTick`, `ElapsedTick`). Whether the countdown interval is set is the field `countdownSet`: a timed start sets it, the firing at zero, submit and restart clear it. The elapsed interval exists exactly while the test is active. The timing of the firings is not modelled.
- Shuffle.BuildShuffledOptionsMap: in the source the cache is a `useMemo(..., [])` of the test screen, built once when the screen mounts, that is once per session; the model builds it as a standalone computation from the bank and the draws, not tied to `Session.App` or to the start of a session.
- `Math.random`: each shuffle takes its draws as a parameter `choices` with `choices[i] <= i`, which is what `Math.floor(Math.random() * (i + 1))` yields.
- `alert` and `window.scrollTo` are side effects with no effect on the state and are left out.
- The question bank `QUESTIONS` lives in a constants file that is not part of this model; the bank is a parameter everywhere.
- `vite.config.ts` is build configuration and is not part of this model.
- Floating point: the rounding of `score / total * 100` and `correct / total * 100` is not modelled. Percentages are exact ratios compared by cross-multiplication, so a ratio within rounding distance of a cut point may be classed differently from the browser.
- Levels are a datatype; the string `getIeltsScore` receives is the level's `Name()`.
- Narrative.GetNagumoComment: takes the two correct counts, the two levels and the analysis as parameters instead of reading them from the enclosing component. The overall percentage is `(vocab correct + grammar correct) / 100 * 100`, with a fixed divisor of 100, i.e. the number of correct answers for the 100-question bank, as the source writes it.
- GrammarAnalysis.ListEntries: `Object.entries` lists integer-like keys first; no label is integer-like, so insertion order is the order in every case.
- Session.App.SubmitTest: requires an active test, because the only caller is the test screen.
- Session.App.ExtendTime: the code does not check `timerEnabled`, so an extension is granted in an untimed session too; the model follows the code.
- Session.App.HandleAnswer: the code does not check that the question id or option key exists; the model follows the code.
- GrammarAnalysis.LabelsDistinguishAreas: the rename of `TENSES_FUTURE` to "Verb Tenses" is kept (`LegacyTensesFuture`), but the enum has no such member, so no declared area reaches that branch.
